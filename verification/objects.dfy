/** The driver's object registry: a singly linked list of typed objects,
    each with a handle id drawn from a counter that only goes up. The list is
    modelled as a sequence in list order (head first), so appending at the
    tail is `+ [o]` and unlinking is removal from the sequence.

    The payload a C object points to is carried in the record itself; its
    address (`obj`), which the driver uses for reverse lookups, is an abstract
    address drawn from a second counter, standing for the fresh block calloc
    returns. */
module Objects {
  import opened Common

  datatype ObjectType = ConfigObject | ContextObject | SurfaceObject | BufferObject | ImageObject

  /** Address of an object's payload block; `Null` when none was allocated. */
  datatype Ptr = Null | Addr(a: nat)

  datatype Object<P> = Object(id: nat, kind: ObjectType, obj: Ptr, payload: P)

  datatype Registry<P> = Registry(objects: seq<Object<P>>, nextObjId: nat, nextAddr: nat)

  /** The zero-initialised driver: empty list, counter at zero. */
  function Empty<P>(): (reg: Registry<P>)
    ensures Valid(reg) && reg.objects == [] && reg.nextObjId == 0
  {
    Registry([], 0, 0)
  }

  /** Ids increase along the list (they are handed out in order and appended
      at the tail), none exceeds the counter, and payload addresses are
      likewise increasing and below their counter. */
  ghost predicate Valid<P>(reg: Registry<P>) {
    && (forall i, j :: 0 <= i < j < |reg.objects| ==> reg.objects[i].id < reg.objects[j].id)
    && (forall i :: 0 <= i < |reg.objects| ==> 0 < reg.objects[i].id <= reg.nextObjId)
    && (forall i, j :: 0 <= i < j < |reg.objects| && reg.objects[i].obj.Addr? && reg.objects[j].obj.Addr?
          ==> reg.objects[i].obj.a < reg.objects[j].obj.a)
    && (forall i :: 0 <= i < |reg.objects| && reg.objects[i].obj.Addr? ==> reg.objects[i].obj.a < reg.nextAddr)
  }

  /** Position of the first object with the given id, or |objs| when absent. */
  function IndexOf<P>(objs: seq<Object<P>>, id: nat): (k: nat)
    ensures k <= |objs|
    ensures forall i :: 0 <= i < k ==> objs[i].id != id
    ensures k < |objs| ==> objs[k].id == id
  {
    if |objs| == 0 then 0
    else if objs[0].id == id then 0
    else 1 + IndexOf(objs[1..], id)
  }

  /** allocateObject: the new object gets the pre-incremented counter as its
      id, a fresh payload block when a positive size is asked for, and is
      linked at the tail of the list. */
  function AllocateObject<P>(reg: Registry<P>, kind: ObjectType, allocatePtrSize: int, payload: P)
    : (r: (Registry<P>, Object<P>))
    ensures r.1.id == reg.nextObjId + 1 && r.0.nextObjId == r.1.id
    ensures r.1.kind == kind && r.1.payload == payload
    ensures r.1.obj.Addr? <==> allocatePtrSize > 0
    ensures r.0.objects == reg.objects + [r.1]
    ensures forall i :: 0 <= i < |reg.objects| && Valid(reg) ==> reg.objects[i].id < r.1.id
    ensures Valid(reg) ==> Valid(r.0)
  {
    var o := Object(reg.nextObjId + 1, kind, if allocatePtrSize > 0 then Addr(reg.nextAddr) else Null, payload);
    var next := if allocatePtrSize > 0 then reg.nextAddr + 1 else reg.nextAddr;
    (Registry(reg.objects + [o], o.id, next), o)
  }

  /** getObject: the first object with the id, never for VA_INVALID_ID. */
  function GetObject<P>(reg: Registry<P>, id: nat): (r: Option<Object<P>>)
    ensures r.Some? ==> id != VA_INVALID_ID && r.value.id == id && r.value in reg.objects
    ensures r.None? <==> id == VA_INVALID_ID || forall i :: 0 <= i < |reg.objects| ==> reg.objects[i].id != id
  {
    if id == VA_INVALID_ID then None
    else
      var k := IndexOf(reg.objects, id);
      if k < |reg.objects| then Some(reg.objects[k]) else None
  }

  /** getObjectByPtr: the first object whose payload block is at `ptr`. */
  function GetObjectByPtr<P>(reg: Registry<P>, ptr: Ptr): (r: Option<Object<P>>)
    ensures r.Some? ==> ptr.Addr? && r.value.obj == ptr && r.value in reg.objects
    ensures r.None? <==> ptr.Null? || forall i :: 0 <= i < |reg.objects| ==> reg.objects[i].obj != ptr
  {
    if ptr.Null? then None else FindByPtr(reg.objects, ptr)
  }

  function FindByPtr<P>(objs: seq<Object<P>>, ptr: Ptr): (r: Option<Object<P>>)
    ensures r.Some? ==> r.value.obj == ptr && r.value in objs
    ensures r.None? <==> forall i :: 0 <= i < |objs| ==> objs[i].obj != ptr
  {
    if |objs| == 0 then None
    else if objs[0].obj == ptr then Some(objs[0])
    else FindByPtr(objs[1..], ptr)
  }

  /** deleteObject: unlink the first object with the id; nothing happens for
      VA_INVALID_ID, an empty list or an id that is not present. */
  function DeleteObject<P>(reg: Registry<P>, id: nat): (r: Registry<P>)
    ensures r.nextObjId == reg.nextObjId && r.nextAddr == reg.nextAddr
    ensures var k := IndexOf(reg.objects, id);
      if id == VA_INVALID_ID || k == |reg.objects| then r == reg
      else r.objects == RemoveAt(reg.objects, k)
  {
    if |reg.objects| == 0 || id == VA_INVALID_ID then reg
    else reg.(objects := Unlink(reg.objects, id))
  }

  /** The list walk of deleteObject: head case, then the trailing-pointer scan. */
  function Unlink<P>(objs: seq<Object<P>>, id: nat): (r: seq<Object<P>>)
    ensures var k := IndexOf(objs, id);
      r == if k == |objs| then objs else RemoveAt(objs, k)
  {
    if |objs| == 0 then objs
    else if objs[0].id == id then
      assert RemoveAt(objs, 0) == objs[1..];
      objs[1..]
    else
      var rest := Unlink(objs[1..], id);
      var k := IndexOf(objs, id);
      assert k == 1 + IndexOf(objs[1..], id);
      if k == |objs| then
        assert objs == [objs[0]] + objs[1..];
        [objs[0]] + rest
      else
        RemoveAtAfterHead(objs, k);
        [objs[0]] + rest
  }

  /** Leaving out a position past the head commutes with keeping the head. */
  lemma RemoveAtAfterHead<T>(s: seq<T>, k: nat)
    requires 0 < k < |s|
    ensures [s[0]] + RemoveAt(s[1..], k - 1) == RemoveAt(s, k)
  {
    assert s[1..][..k - 1] == s[1..k];
    assert s[1..][k..] == s[k + 1..];
    assert [s[0]] + s[1..k] == s[..k];
  }

  /** The sequence with position k left out, the others in their order. */
  function RemoveAt<T>(s: seq<T>, k: nat): (r: seq<T>)
    requires k < |s|
    ensures |r| == |s| - 1
    ensures forall i :: 0 <= i < |r| ==> r[i] == s[if i < k then i else i + 1]
  {
    s[..k] + s[k + 1..]
  }

  /** A write through an object's payload pointer: the payload of the object
      with the id is replaced and nothing else changes. */
  function SetPayload<P>(reg: Registry<P>, id: nat, payload: P): (r: Registry<P>)
    ensures r.nextObjId == reg.nextObjId && r.nextAddr == reg.nextAddr
    ensures |r.objects| == |reg.objects|
    ensures forall i :: 0 <= i < |reg.objects| ==>
      r.objects[i] == if reg.objects[i].id == id then reg.objects[i].(payload := payload) else reg.objects[i]
  {
    reg.(objects := seq(|reg.objects|, i requires 0 <= i < |reg.objects| =>
      if reg.objects[i].id == id then reg.objects[i].(payload := payload) else reg.objects[i]))
  }

  // ---------------------------------------------------------------------
  // Properties
  // ---------------------------------------------------------------------

  /** Under the invariant, ids are unique, so lookup finds exactly the object
      holding the id, wherever it is in the list. */
  lemma GetObjectFindsUnique<P>(reg: Registry<P>, k: nat)
    requires Valid(reg) && k < |reg.objects| && reg.objects[k].id != VA_INVALID_ID
    ensures GetObject(reg, reg.objects[k].id) == Some(reg.objects[k])
  {
    assert forall i :: 0 <= i < k ==> reg.objects[i].id < reg.objects[k].id;
  }

  /** Unlinking the most recently allocated object restores the list as it
      was before that allocation. */
  lemma DeleteLast<P>(reg: Registry<P>)
    requires Valid(reg) && |reg.objects| > 0 && reg.nextObjId < VA_INVALID_ID
    ensures DeleteObject(reg, reg.objects[|reg.objects| - 1].id) == reg.(objects := reg.objects[..|reg.objects| - 1])
  {
    DeleteNewest(reg);
  }

  /** Unlinking the tail object drops exactly it when no earlier object
      shares its id. */
  lemma DeleteNewest<P>(reg: Registry<P>)
    requires |reg.objects| > 0 && reg.objects[|reg.objects| - 1].id != VA_INVALID_ID
    requires forall i :: 0 <= i < |reg.objects| - 1 ==> reg.objects[i].id != reg.objects[|reg.objects| - 1].id
    ensures DeleteObject(reg, reg.objects[|reg.objects| - 1].id) == reg.(objects := reg.objects[..|reg.objects| - 1])
  {
    var n := |reg.objects|;
    var k := IndexOf(reg.objects, reg.objects[n - 1].id);
    assert k == n - 1;
    assert RemoveAt(reg.objects, n - 1) == reg.objects[..n - 1];
  }

  /** Unlinking the last two objects, newest first, restores the list as it
      was before both were allocated. */
  lemma DeleteLastTwo<P>(reg: Registry<P>)
    requires Valid(reg) && |reg.objects| >= 2 && reg.nextObjId < VA_INVALID_ID
    ensures var n := |reg.objects|;
      DeleteObject(DeleteObject(reg, reg.objects[n - 1].id), reg.objects[n - 2].id).objects == reg.objects[..n - 2]
  {
    var n := |reg.objects|;
    var shorter := reg.(objects := reg.objects[..n - 1]);
    DeleteLast(reg);
    assert shorter.objects[n - 2] == reg.objects[n - 2];
    forall i | 0 <= i < n - 2
      ensures shorter.objects[i].id != shorter.objects[n - 2].id
    {
      assert shorter.objects[i] == reg.objects[i];
    }
    DeleteNewest(shorter);
    assert shorter.objects[..n - 2] == reg.objects[..n - 2];
  }

  lemma {:induction false} FindByPtrUnique<P>(objs: seq<Object<P>>, k: nat)
    requires k < |objs|
    requires forall i :: 0 <= i < |objs| && i != k ==> objs[i].obj != objs[k].obj
    ensures FindByPtr(objs, objs[k].obj) == Some(objs[k])
    decreases k
  {
    if k > 0 {
      FindByPtrUnique(objs[1..], k - 1);
    }
  }

  /** Under the invariant, payload addresses are unique, so lookup by
      address finds exactly the object whose block it is. */
  lemma GetObjectByPtrFindsUnique<P>(reg: Registry<P>, k: nat)
    requires Valid(reg) && k < |reg.objects| && reg.objects[k].obj.Addr?
    ensures GetObjectByPtr(reg, reg.objects[k].obj) == Some(reg.objects[k])
  {
    forall i | 0 <= i < |reg.objects| && i != k
      ensures reg.objects[i].obj != reg.objects[k].obj
    {
      if reg.objects[i].obj.Addr? {
        if i < k {
          assert reg.objects[i].obj.a < reg.objects[k].obj.a;
        } else {
          assert reg.objects[k].obj.a < reg.objects[i].obj.a;
        }
      }
    }
    FindByPtrUnique(reg.objects, k);
  }

  /** Looking an object up by its block address and then by its id lands on
      the same object. */
  lemma PtrThenId<P>(reg: Registry<P>, ptr: Ptr)
    requires Valid(reg) && GetObjectByPtr(reg, ptr).Some? && GetObjectByPtr(reg, ptr).value.id != VA_INVALID_ID
    ensures GetObject(reg, GetObjectByPtr(reg, ptr).value.id) == GetObjectByPtr(reg, ptr)
  {
    var k :| 0 <= k < |reg.objects| && reg.objects[k] == GetObjectByPtr(reg, ptr).value;
    GetObjectFindsUnique(reg, k);
  }

  /** Looking an object up by id and then by its block address lands on the
      same object. */
  lemma IdThenPtr<P>(reg: Registry<P>, id: nat)
    requires Valid(reg) && GetObject(reg, id).Some? && GetObject(reg, id).value.obj.Addr?
    ensures GetObjectByPtr(reg, GetObject(reg, id).value.obj) == GetObject(reg, id)
  {
    var k :| 0 <= k < |reg.objects| && reg.objects[k] == GetObject(reg, id).value;
    GetObjectByPtrFindsUnique(reg, k);
  }

  /** Allocation followed by lookup of the fresh id returns the new object;
      every other lookup is unaffected. */
  lemma AllocateThenGet<P>(reg: Registry<P>, kind: ObjectType, size: int, payload: P, other: nat)
    requires Valid(reg)
    requires reg.nextObjId + 1 != VA_INVALID_ID
    requires other != reg.nextObjId + 1
    ensures var (reg', o) := AllocateObject(reg, kind, size, payload);
      GetObject(reg', o.id) == Some(o) && GetObject(reg', other) == GetObject(reg, other)
  {
    var (reg', o) := AllocateObject(reg, kind, size, payload);
    GetObjectFindsUnique(reg', |reg.objects|);
    var found := GetObject(reg, other);
    if found.Some? {
      var j :| 0 <= j < |reg.objects| && reg.objects[j] == found.value;
      GetObjectFindsUnique(reg', j);
    }
  }

  /** Removing one object from a valid list leaves a valid list. */
  lemma RemoveAtValid<P>(reg: Registry<P>, k: nat)
    requires Valid(reg) && k < |reg.objects|
    ensures Valid(reg.(objects := RemoveAt(reg.objects, k)))
  {
    var rest := RemoveAt(reg.objects, k);
  }

  /** deleteObject keeps the invariant; afterwards the id is gone and every
      other id looks up to what it did before. */
  lemma DeleteObjectSpec<P>(reg: Registry<P>, id: nat, other: nat)
    requires Valid(reg)
    requires other != id
    ensures Valid(DeleteObject(reg, id))
    ensures GetObject(DeleteObject(reg, id), id) == None
    ensures GetObject(DeleteObject(reg, id), other) == GetObject(reg, other)
  {
    var k := IndexOf(reg.objects, id);
    if id != VA_INVALID_ID && k < |reg.objects| {
      RemoveAtValid(reg, k);
      RemoveAtDropsId(reg, k);
      RemoveAtKeepsOthers(reg, k, other);
    }
  }

  lemma RemoveAtDropsId<P>(reg: Registry<P>, k: nat)
    requires Valid(reg) && k < |reg.objects|
    ensures forall i :: 0 <= i < |RemoveAt(reg.objects, k)| ==> RemoveAt(reg.objects, k)[i].id != reg.objects[k].id
  {
    var objs := reg.objects;
    var rest := RemoveAt(objs, k);
    forall i | 0 <= i < |rest|
      ensures rest[i].id != objs[k].id
    {
      if i < k {
        assert rest[i] == objs[i];
      } else {
        assert rest[i] == objs[i + 1];
      }
    }
  }

  lemma RemoveAtKeepsOthers<P>(reg: Registry<P>, k: nat, other: nat)
    requires Valid(reg) && k < |reg.objects| && other != reg.objects[k].id
    ensures GetObject(reg.(objects := RemoveAt(reg.objects, k)), other) == GetObject(reg, other)
  {
    var objs := reg.objects;
    var r := reg.(objects := RemoveAt(objs, k));
    RemoveAtValid(reg, k);
    var found := GetObject(reg, other);
    if found.Some? {
      var j :| 0 <= j < |objs| && objs[j] == found.value;
      var j' := if j < k then j else j - 1;
      assert r.objects[j'] == objs[j];
      GetObjectFindsUnique(r, j');
    } else if other != VA_INVALID_ID {
      forall i | 0 <= i < |r.objects|
        ensures r.objects[i].id != other
      {
        if i < k {
          assert r.objects[i] == objs[i];
        } else {
          assert r.objects[i] == objs[i + 1];
        }
      }
    }
  }

  /** Two registries with the same ids, kinds and addresses in the same
      positions: they differ only in payloads. */
  ghost predicate SameShape<P>(a: Registry<P>, b: Registry<P>) {
    && |a.objects| == |b.objects| && a.nextObjId == b.nextObjId && a.nextAddr == b.nextAddr
    && forall i :: 0 <= i < |a.objects| ==>
         a.objects[i].id == b.objects[i].id && a.objects[i].kind == b.objects[i].kind && a.objects[i].obj == b.objects[i].obj
  }

  lemma {:induction false} IndexOfSameIds<P>(a: seq<Object<P>>, b: seq<Object<P>>, id: nat)
    requires |a| == |b| && forall i :: 0 <= i < |a| ==> a[i].id == b[i].id
    ensures IndexOf(a, id) == IndexOf(b, id)
    decreases |a|
  {
    if |a| > 0 && a[0].id != id {
      IndexOfSameIds(a[1..], b[1..], id);
    }
  }

  /** Lookups in registries of the same shape land on the same position. */
  lemma SameShapeLookup<P>(a: Registry<P>, b: Registry<P>, id: nat)
    requires SameShape(a, b)
    ensures Valid(a) ==> Valid(b)
    ensures GetObject(a, id).Some? <==> GetObject(b, id).Some?
    ensures GetObject(a, id).Some? ==> exists k :: (0 <= k < |a.objects| &&
      GetObject(a, id) == Some(a.objects[k]) && GetObject(b, id) == Some(b.objects[k]))
  {
    IndexOfSameIds(a.objects, b.objects, id);
  }

  /** Updating a payload keeps the invariant, changes what the id looks up
      to and nothing else. */
  lemma SetPayloadLookups<P>(reg: Registry<P>, id: nat, payload: P)
    requires Valid(reg)
    ensures SameShape(reg, SetPayload(reg, id, payload)) && Valid(SetPayload(reg, id, payload))
    ensures GetObject(reg, id).Some? ==>
      GetObject(SetPayload(reg, id, payload), id) == Some(GetObject(reg, id).value.(payload := payload))
    ensures forall other :: other != id ==> GetObject(SetPayload(reg, id, payload), other) == GetObject(reg, other)
  {
    var r := SetPayload(reg, id, payload);
    SameShapeLookup(reg, r, id);
    forall other | other != id
      ensures GetObject(r, other) == GetObject(reg, other)
    {
      SameShapeLookup(reg, r, other);
    }
  }

  /** AllocateThenGet for every other id at once. */
  lemma AllocateLookups<P>(reg: Registry<P>, kind: ObjectType, size: int, payload: P)
    requires Valid(reg) && reg.nextObjId + 1 != VA_INVALID_ID
    ensures var (reg', o) := AllocateObject(reg, kind, size, payload);
      && GetObject(reg', o.id) == Some(o)
      && forall other :: other != o.id ==> GetObject(reg', other) == GetObject(reg, other)
  {
    forall other | other != reg.nextObjId + 1
      ensures GetObject(AllocateObject(reg, kind, size, payload).0, other) == GetObject(reg, other)
    {
      AllocateThenGet(reg, kind, size, payload, other);
    }
    AllocateThenGet(reg, kind, size, payload, 0);
  }

  /** DeleteObjectSpec for every other id at once. */
  lemma DeleteLookups<P>(reg: Registry<P>, id: nat)
    requires Valid(reg)
    ensures Valid(DeleteObject(reg, id)) && GetObject(DeleteObject(reg, id), id) == None
    ensures forall other :: other != id ==> GetObject(DeleteObject(reg, id), other) == GetObject(reg, other)
  {
    forall other | other != id
      ensures GetObject(DeleteObject(reg, id), other) == GetObject(reg, other)
    {
      DeleteObjectSpec(reg, id, other);
    }
    DeleteObjectSpec(reg, id, id + 1);
  }

  /** A sequence of registry mutations, as the driver issues them. */
  datatype RegistryOp<P> = Alloc(kind: ObjectType, size: int, payload: P) | Delete(id: nat)

  function Run<P>(reg: Registry<P>, ops: seq<RegistryOp<P>>): Registry<P>
    decreases |ops|
  {
    if |ops| == 0 then reg
    else match ops[0]
      case Alloc(kind, size, payload) => Run(AllocateObject(reg, kind, size, payload).0, ops[1..])
      case Delete(id) => Run(DeleteObject(reg, id), ops[1..])
  }

  /** The ids the allocations of a run hand out, in order. */
  function IssuedIds<P>(reg: Registry<P>, ops: seq<RegistryOp<P>>): seq<nat>
    decreases |ops|
  {
    if |ops| == 0 then []
    else match ops[0]
      case Alloc(kind, size, payload) =>
        var (reg', o) := AllocateObject(reg, kind, size, payload);
        [o.id] + IssuedIds(reg', ops[1..])
      case Delete(id) => IssuedIds(DeleteObject(reg, id), ops[1..])
  }

  /** Over any run of allocations and deletions the ids handed out strictly
      increase and all exceed the counter at the start, so no id is ever
      handed out twice; the invariant holds throughout. */
  lemma {:induction false} IdsNeverReused<P>(reg: Registry<P>, ops: seq<RegistryOp<P>>)
    requires Valid(reg)
    ensures Valid(Run(reg, ops))
    ensures reg.nextObjId <= Run(reg, ops).nextObjId
    ensures forall i :: 0 <= i < |IssuedIds(reg, ops)| ==>
      reg.nextObjId < IssuedIds(reg, ops)[i] <= Run(reg, ops).nextObjId
    ensures forall i, j :: 0 <= i < j < |IssuedIds(reg, ops)| ==> IssuedIds(reg, ops)[i] < IssuedIds(reg, ops)[j]
    decreases |ops|
  {
    if |ops| > 0 {
      match ops[0]
      case Alloc(kind, size, payload) =>
        var (reg', o) := AllocateObject(reg, kind, size, payload);
        IdsNeverReused(reg', ops[1..]);
        assert IssuedIds(reg, ops) == [o.id] + IssuedIds(reg', ops[1..]);
        assert Run(reg, ops) == Run(reg', ops[1..]);
        PrependIncreasing(o.id, IssuedIds(reg', ops[1..]), reg.nextObjId, Run(reg', ops[1..]).nextObjId);
      case Delete(id) =>
        var reg' := DeleteObject(reg, id);
        DeleteObjectSpec(reg, id, id + 1);
        IdsNeverReused(reg', ops[1..]);
        assert IssuedIds(reg, ops) == IssuedIds(reg', ops[1..]);
        assert Run(reg, ops) == Run(reg', ops[1..]);
    }
  }

  /** An id issued before a strictly increasing run of larger ids keeps the
      run strictly increasing. */
  lemma PrependIncreasing(x: nat, rest: seq<nat>, lo: nat, hi: nat)
    requires lo < x <= hi
    requires forall i :: 0 <= i < |rest| ==> x < rest[i] <= hi
    requires forall i, j :: 0 <= i < j < |rest| ==> rest[i] < rest[j]
    ensures forall i :: 0 <= i < |[x] + rest| ==> lo < ([x] + rest)[i] <= hi
    ensures forall i, j :: 0 <= i < j < |[x] + rest| ==> ([x] + rest)[i] < ([x] + rest)[j]
  {
  }

  /** From the zero-initialised driver, every id a run of allocations and
      deletions hands out is positive, none is handed out twice, and each is
      at most the final counter. */
  lemma IdsFromStart<P>(ops: seq<RegistryOp<P>>)
    ensures Valid(Run(Empty<P>(), ops))
    ensures forall i :: 0 <= i < |IssuedIds(Empty<P>(), ops)| ==>
      0 < IssuedIds(Empty<P>(), ops)[i] <= Run(Empty<P>(), ops).nextObjId
    ensures forall i, j :: 0 <= i < j < |IssuedIds(Empty<P>(), ops)| ==> IssuedIds(Empty<P>(), ops)[i] != IssuedIds(Empty<P>(), ops)[j]
  {
    IdsNeverReused(Empty<P>(), ops);
  }
}
