/** The growable byte accumulator (AppendableBuffer) a decode context uses
    for the bitstream and the slice-offset table.

    `buf` is the allocated block (None for a NULL pointer) holding exactly
    `capacity` bytes; the first `size` of them are the accumulated contents.
    Bytes of a fresh block that nothing has written yet are unspecified in C;
    the model fills them with zeros. */
module Accumulator {
  import opened Common

  datatype AppendableBuffer = AppendableBuffer(buf: Option<seq<byte>>, size: nat, capacity: nat)

  /** The zero-initialised (calloc'd) accumulator. */
  const Fresh := AppendableBuffer(None, 0, 0)

  /** `capacity` mirrors the C field `allocated`. It is never 1: a first
      block has an even capacity and growth starts from at least 2. */
  ghost predicate Valid(ab: AppendableBuffer) {
    && ab.capacity != 1
    && match ab.buf
       case None => ab.size == 0 && ab.capacity == 0
       case Some(block) => |block| == ab.capacity && ab.size <= ab.capacity
  }

  /** The accumulated bytes. */
  function Contents(ab: AppendableBuffer): seq<byte>
    requires Valid(ab)
  {
    if ab.buf.Some? then ab.buf.value[..ab.size] else []
  }

  function Zeros(n: nat): (z: seq<byte>)
    ensures |z| == n
  {
    seq(n, _ => 0)
  }

  /** The growth loop of appendBuffer: add half the capacity until `need`
      fits. Only defined from a capacity of at least 2, the smallest from
      which `a + (a >> 1)` actually grows. */
  function Grown(a: nat, need: nat): (g: nat)
    requires a >= 2
    ensures g >= a && g >= need
    ensures a >= need ==> g == a
    ensures a < need ==> g < need + need / 2 + 1
    decreases need - a
  {
    if a >= need then a else Grown(a + a / 2, need)
  }

  /** Whether an append must (re)allocate instead of writing in place. In the
      corrected model a block of capacity zero counts as no block at all. */
  predicate NeedsFirstBlock(ab: AppendableBuffer) {
    ab.buf.None? || ab.capacity == 0
  }

  /** Reference definition of appendBuffer, whole-block at a time: first use
      allocates twice the appended length; growth copies the old contents into
      a block of the grown capacity; otherwise the bytes are written in place
      and the rest of the block is untouched. */
  function Appended(ab: AppendableBuffer, data: seq<byte>): (r: AppendableBuffer)
    requires Valid(ab)
    ensures Valid(r)
    ensures Contents(r) == Contents(ab) + data
    ensures r.size == ab.size + |data|
    ensures r.capacity >= ab.capacity
    ensures NeedsFirstBlock(ab) ==> r.capacity == 2 * |data|
    ensures !NeedsFirstBlock(ab) && ab.size + |data| <= ab.capacity ==>
      r.capacity == ab.capacity && r.buf.value[r.size..] == ab.buf.value[r.size..]
  {
    var n := |data|;
    if NeedsFirstBlock(ab) then
      var r := AppendableBuffer(Some(data + Zeros(n)), n, 2 * n);
      assert r.buf.value[..n] == data;
      r
    else
      var block := ab.buf.value;
      if ab.size + n > ab.capacity then
        var a := Grown(ab.capacity, ab.size + n);
        var r := AppendableBuffer(Some(block[..ab.size] + data + Zeros(a - ab.size - n)), ab.size + n, a);
        assert r.buf.value[..ab.size + n] == block[..ab.size] + data;
        r
      else
        var r := AppendableBuffer(Some(block[..ab.size] + data + block[ab.size + n..]), ab.size + n, ab.capacity);
        assert r.buf.value[..ab.size + n] == block[..ab.size] + data;
        assert r.buf.value[ab.size + n..] == block[ab.size + n..];
        r
  }

  /** The growth loop of appendBuffer. */
  method GrowCapacity(capacity: nat, need: nat) returns (c: nat)
    requires capacity >= 2
    ensures c == Grown(capacity, need)
  {
    c := capacity;
    while need > c
      invariant c >= 2
      invariant Grown(c, need) == Grown(capacity, need)
      decreases need - c
    {
      c := c + c / 2;
    }
  }

  /** memcpy of `data` into `block` at offset `at`. */
  method CopyInto(block: seq<byte>, at: nat, data: seq<byte>) returns (b: seq<byte>)
    requires at + |data| <= |block|
    ensures b == block[..at] + data + block[at + |data|..]
  {
    b := block;
    var i := 0;
    while i < |data|
      invariant 0 <= i <= |data|
      invariant |b| == |block|
      invariant b[..at] == block[..at]
      invariant b[at..at + i] == data[..i]
      invariant b[at + i..] == block[at + i..]
    {
      ghost var before := b;
      b := b[at + i := data[i]];
      assert b[..at] == before[..at];
      assert b[at..at + i + 1] == before[at..at + i] + [data[i]];
      assert data[..i + 1] == data[..i] + [data[i]];
      assert b[at + i + 1..] == before[at + i + 1..];
      i := i + 1;
    }
    assert b == b[..at] + b[at..at + |data|] + b[at + |data|..];
  }

  /** appendBuffer: allocate on first use, otherwise grow when the data does
      not fit (copying the old contents over), then copy the data in. */
  method AppendBuffer(ab: AppendableBuffer, data: seq<byte>) returns (r: AppendableBuffer)
    requires Valid(ab)
    ensures r == Appended(ab, data)
  {
    var n := |data|;
    if NeedsFirstBlock(ab) {
      var block := CopyInto(Zeros(2 * n), 0, data);
      assert block == data + Zeros(n);
      r := AppendableBuffer(Some(block), n, 2 * n);
    } else if ab.size + n > ab.capacity {
      var capacity := GrowCapacity(ab.capacity, ab.size + n);
      var block := CopyInto(ab.buf.value[..ab.size] + Zeros(capacity - ab.size), ab.size, data);
      assert block == ab.buf.value[..ab.size] + data + Zeros(capacity - ab.size - n);
      r := AppendableBuffer(Some(block), ab.size + n, capacity);
    } else {
      var block := CopyInto(ab.buf.value, ab.size, data);
      r := AppendableBuffer(Some(block), ab.size + n, ab.capacity);
    }
  }

  /** freeBuffer: release the block and zero the bookkeeping; a NULL block
      leaves the record as it is. */
  function FreeBuffer(ab: AppendableBuffer): (r: AppendableBuffer)
    ensures r.buf.None?
    ensures Valid(ab) ==> r == Fresh
    ensures ab.buf.None? ==> r == ab
  {
    if ab.buf.Some? then AppendableBuffer(None, 0, 0) else ab
  }

  /** What nvEndPicture does to each accumulator: the contents are dropped
      but the block and its capacity are kept for the next picture. */
  function ResetSize(ab: AppendableBuffer): (r: AppendableBuffer)
    ensures Valid(ab) ==> Valid(r) && Contents(r) == []
    ensures r.buf == ab.buf && r.capacity == ab.capacity
  {
    ab.(size := 0)
  }

  // ---------------------------------------------------------------------
  // Properties
  // ---------------------------------------------------------------------

  lemma FreeBufferIdempotent(ab: AppendableBuffer)
    ensures FreeBuffer(FreeBuffer(ab)) == FreeBuffer(ab)
  {
  }

  /** After a reset, a picture whose data fits the retained capacity is
      accumulated in place: no new block, same capacity. */
  lemma ResetThenAppendReusesBlock(ab: AppendableBuffer, data: seq<byte>)
    requires Valid(ab) && ab.buf.Some? && 0 < |data| <= ab.capacity
    ensures Appended(ResetSize(ab), data).capacity == ab.capacity
    ensures Contents(Appended(ResetSize(ab), data)) == data
  {
  }

  /** Appending in two steps accumulates the same contents as appending the
      concatenation: the accumulator is append-only and order-preserving. */
  lemma AppendTwice(ab: AppendableBuffer, d1: seq<byte>, d2: seq<byte>)
    requires Valid(ab)
    ensures Contents(Appended(Appended(ab, d1), d2)) == Contents(Appended(ab, d1 + d2))
  {
  }

  /** The accumulated contents of a run of appends starting from a fresh
      accumulator are the concatenation of the appended pieces. */
  function AppendAll(ab: AppendableBuffer, pieces: seq<seq<byte>>): (r: AppendableBuffer)
    requires Valid(ab)
    ensures Valid(r)
    decreases |pieces|
  {
    if |pieces| == 0 then ab else AppendAll(Appended(ab, pieces[0]), pieces[1..])
  }

  function Concat(pieces: seq<seq<byte>>): seq<byte>
    decreases |pieces|
  {
    if |pieces| == 0 then [] else pieces[0] + Concat(pieces[1..])
  }

  lemma {:induction false} AppendAllContents(ab: AppendableBuffer, pieces: seq<seq<byte>>)
    requires Valid(ab)
    ensures Contents(AppendAll(ab, pieces)) == Contents(ab) + Concat(pieces)
    ensures AppendAll(ab, pieces).size == ab.size + |Concat(pieces)|
    decreases |pieces|
  {
    if |pieces| > 0 {
      AppendAllContents(Appended(ab, pieces[0]), pieces[1..]);
      assert Contents(ab) + pieces[0] + Concat(pieces[1..]) == Contents(ab) + Concat(pieces);
    }
  }

  // ---------------------------------------------------------------------
  // appendBuffer as written: a zero-length first append
  // ---------------------------------------------------------------------

  /** The growth loop exactly as written, `a += a >> 1`, run for at most
      `fuel` iterations; None when it has not finished by then. */
  function GrowAsWritten(a: nat, need: nat, fuel: nat): (r: Option<nat>)
    ensures r.Some? ==> r.value >= need && r.value >= a
    decreases fuel
  {
    if need <= a then Some(a)
    else if fuel == 0 then None
    else GrowAsWritten(a + a / 2, need, fuel - 1)
  }

  /** appendBuffer as written: only a NULL block counts as "first use", so a
      zero-length first append leaves a live block of capacity zero. */
  function AppendAsWritten(ab: AppendableBuffer, data: seq<byte>, fuel: nat): Option<AppendableBuffer>
    requires Valid(ab)
  {
    var n := |data|;
    if ab.buf.None? then Some(AppendableBuffer(Some(data + Zeros(n)), n, 2 * n))
    else if ab.size + n > ab.capacity then
      match GrowAsWritten(ab.capacity, ab.size + n, fuel)
      case None => None
      case Some(a) => Some(AppendableBuffer(Some(ab.buf.value[..ab.size] + data + Zeros(a - ab.size - n)), ab.size + n, a))
    else Some(AppendableBuffer(Some(ab.buf.value[..ab.size] + data + ab.buf.value[ab.size + n..]), ab.size + n, ab.capacity))
  }

  /** From capacity zero the growth loop never reaches any positive need. */
  lemma {:induction false} GrowFromZeroStalls(need: nat, fuel: nat)
    requires need > 0
    ensures GrowAsWritten(0, need, fuel) == None
    decreases fuel
  {
    if fuel > 0 {
      GrowFromZeroStalls(need, fuel - 1);
    }
  }

  /** The discrepancy: appending zero bytes to a fresh accumulator and then
      any non-empty data never finishes, however much fuel is given. The
      corrected `Appended` takes the same two steps without trouble. */
  lemma ZeroLengthFirstAppendHangs(data: seq<byte>, fuel: nat)
    requires |data| > 0
    ensures AppendAsWritten(Fresh, [], fuel) == Some(AppendableBuffer(Some([]), 0, 0))
    ensures AppendAsWritten(AppendableBuffer(Some([]), 0, 0), data, fuel) == None
    ensures Contents(Appended(Appended(Fresh, []), data)) == data
  {
    var empty: seq<byte> := [];
    assert empty + Zeros(0) == [];
    GrowFromZeroStalls(|data|, fuel);
  }
}
