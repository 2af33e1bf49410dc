/** The per-picture state machine of a decode context: BeginPicture binds a
    target surface and clears the picture parameters, RenderPicture feeds
    each buffer to the codec module's handler for its type, EndPicture hands
    the accumulated bitstream to the decoder and, on success, records the
    picture's interlacing on the target.

    The codec handlers are not part of this model: what a handler does is a
    function parameter over the context's picture state. The decoder's
    answer is a boolean oracle. */
module Picture {
  import opened Common
  import opened Objects
  import opened Accumulator
  import opened Codecs
  import opened Driver

  /** The part of a context a handler writes: the picture parameters and the
      two accumulators. */
  datatype PicState = PicState(picParams: PicParams, buf: AppendableBuffer, sliceOffsets: AppendableBuffer)

  /** What handler `h` does with one buffer. It may read the driver as it was
      when RenderPicture was called. */
  type HandlerSemantics = (HandlerId, NVDriver, PicState, NVBuffer) -> PicState

  function StateOf(ctx: NVContext): PicState {
    PicState(ctx.picParams, ctx.buf, ctx.sliceOffsets)
  }

  function WithState(ctx: NVContext, st: PicState): NVContext {
    ctx.(picParams := st.picParams, buf := st.buf, sliceOffsets := st.sliceOffsets)
  }

  /** One buffer through the handler table: a type without a handler leaves
      the state alone. */
  function Dispatch(sem: HandlerSemantics, d: NVDriver, codec: NVCodec, st: PicState, b: NVBuffer): PicState {
    match HandlerFor(codec, b.bufferType)
    case Some(h) => sem(h, d, st, b)
    case None => st
  }

  /** Reference definition of a render call: the buffers dispatched in order. */
  function RenderAll(sem: HandlerSemantics, d: NVDriver, codec: NVCodec, st: PicState, bs: seq<NVBuffer>): PicState
    decreases |bs|
  {
    if |bs| == 0 then st else Dispatch(sem, d, codec, RenderAll(sem, d, codec, st, bs[..|bs| - 1]), bs[|bs| - 1])
  }

  function Buffers(d: NVDriver, ids: seq<nat>): (bs: seq<NVBuffer>)
    requires forall i :: 0 <= i < |ids| ==> IsBuffer(d, ids[i])
    ensures |bs| == |ids| && forall i :: 0 <= i < |ids| ==> bs[i] == BufferOf(d, ids[i])
  {
    seq(|ids|, i requires 0 <= i < |ids| && IsBuffer(d, ids[i]) => BufferOf(d, ids[i]))
  }

  /** The buffers a codec has a handler for, in their order. */
  function Handled(codec: NVCodec, bs: seq<NVBuffer>): (r: seq<NVBuffer>)
    ensures forall i :: 0 <= i < |r| ==> r[i].bufferType in codec.handlers && r[i] in bs
    decreases |bs|
  {
    if |bs| == 0 then []
    else if bs[|bs| - 1].bufferType in codec.handlers then Handled(codec, bs[..|bs| - 1]) + [bs[|bs| - 1]]
    else Handled(codec, bs[..|bs| - 1])
  }

  // ---------------------------------------------------------------------
  // Operations
  // ---------------------------------------------------------------------

  /** nvBeginPicture: clear the picture parameters and bind the target; the
      target is whatever object the id names, its block address is kept. */
  function BeginPicture(d: NVDriver, contextId: nat, target: nat): (r: NVDriver)
    requires Inv(d) && IsContext(d, contextId) && GetObject(d.reg, target).Some?
    ensures Inv(r) && r.codecs == d.codecs && IsContext(r, contextId)
    ensures ContextOf(r, contextId).picParams == ZeroPicParams
    ensures GetObjectByPtr(r.reg, ContextOf(r, contextId).renderTarget).Some?
    ensures GetObjectByPtr(r.reg, ContextOf(r, contextId).renderTarget).value.id == target
    ensures ContextOf(r, contextId) == ContextOf(d, contextId).(picParams := ZeroPicParams, renderTarget := ContextOf(r, contextId).renderTarget)
    ensures forall other :: other != contextId ==> GetObject(r.reg, other) == GetObject(d.reg, other)
  {
    var ctx := ContextOf(d, contextId);
    var ptr := GetObject(d.reg, target).value.obj;
    var p := ContextData(ctx.(picParams := ZeroPicParams, renderTarget := ptr));
    SetPayloadKeepsInv(d, contextId, p);
    SetPayloadLookups(d.reg, contextId, p);
    var r := d.(reg := SetPayload(d.reg, contextId, p));
    var k :| 0 <= k < |d.reg.objects| && d.reg.objects[k] == GetObject(d.reg, target).value;
    assert r.reg.objects[k].obj == ptr && r.reg.objects[k].id == target;
    GetObjectByPtrFindsUnique(r.reg, k);
    r
  }

  /** The dispatch loop of nvRenderPicture. */
  method DispatchBuffers(sem: HandlerSemantics, d: NVDriver, codec: NVCodec, st: PicState, ids: seq<nat>)
    returns (st': PicState)
    requires forall i :: 0 <= i < |ids| ==> IsBuffer(d, ids[i])
    ensures st' == RenderAll(sem, d, codec, st, Buffers(d, ids))
  {
    st' := st;
    var i := 0;
    while i < |ids|
      invariant 0 <= i <= |ids|
      invariant st' == RenderAll(sem, d, codec, st, Buffers(d, ids[..i]))
    {
      var b := BufferOf(d, ids[i]);
      var h := HandlerFor(codec, b.bufferType);
      if h.Some? {
        st' := sem(h.value, d, st', b);
      }
      assert Buffers(d, ids[..i + 1])[..i] == Buffers(d, ids[..i]);
      i := i + 1;
    }
    assert ids[..i] == ids;
  }

  /** nvRenderPicture: the context's picture state after dispatching every
      buffer; nothing but the context changes. The context must have a codec
      module bound and every id must be a buffer. */
  function RenderPicture(sem: HandlerSemantics, d: NVDriver, contextId: nat, ids: seq<nat>): (r: NVDriver)
    requires Inv(d) && IsContext(d, contextId) && ContextOf(d, contextId).codec.Some?
    requires forall i :: 0 <= i < |ids| ==> IsBuffer(d, ids[i])
    ensures Inv(r) && r.codecs == d.codecs && IsContext(r, contextId)
    ensures var ctx := ContextOf(d, contextId);
      ContextOf(r, contextId) == WithState(ctx, RenderAll(sem, d, ctx.codec.value, StateOf(ctx), Buffers(d, ids)))
    ensures forall other :: other != contextId ==> GetObject(r.reg, other) == GetObject(d.reg, other)
  {
    var ctx := ContextOf(d, contextId);
    var p := ContextData(WithState(ctx, RenderAll(sem, d, ctx.codec.value, StateOf(ctx), Buffers(d, ids))));
    SetPayloadKeepsInv(d, contextId, p);
    SetPayloadLookups(d.reg, contextId, p);
    d.(reg := SetPayload(d.reg, contextId, p))
  }

  /** The context's bound target resolves to a surface. */
  predicate HasSurfaceTarget(d: NVDriver, contextId: nat) {
    && IsContext(d, contextId)
    && GetObjectByPtr(d.reg, ContextOf(d, contextId).renderTarget).Some?
    && GetObjectByPtr(d.reg, ContextOf(d, contextId).renderTarget).value.kind == SurfaceObject
    && GetObjectByPtr(d.reg, ContextOf(d, contextId).renderTarget).value.payload.SurfaceData?
  }

  function TargetId(d: NVDriver, contextId: nat): nat
    requires HasSurfaceTarget(d, contextId)
  {
    GetObjectByPtr(d.reg, ContextOf(d, contextId).renderTarget).value.id
  }

  /** The picture parameters nvEndPicture submits: the handlers' parameters
      with the bitstream and slice-offset blocks and the target's index. */
  function Submitted(ctx: NVContext, pictureIdx: int): PicParams {
    ctx.picParams.(bitstreamData := ctx.buf.buf, sliceDataOffsets := ctx.sliceOffsets.buf, currPicIdx := pictureIdx)
  }

  /** The target surface after a successful decode. */
  function Decoded(s: NVSurface, decoder: Option<Decoder>, p: PicParams): NVSurface {
    s.(decoder := decoder, progressiveFrame := Not(p.fieldPicFlag),
       topFieldFirst := Not(p.bottomFieldFlag), secondField := p.secondField)
  }

  /** nvEndPicture: submit and reset the accumulators whatever the outcome;
      only a successful decode touches the target surface. */
  function EndPicture(d: NVDriver, contextId: nat, decodeOk: bool): (r: (Status, NVDriver, PicParams))
    requires Inv(d) && HasSurfaceTarget(d, contextId)
    ensures Inv(r.1) && r.1.codecs == d.codecs
    ensures IsSurface(d, TargetId(d, contextId))
    ensures r.2.currPicIdx == PictureIdxFromSurfaceId(d, TargetId(d, contextId))
    ensures r.2.bitstreamData == ContextOf(d, contextId).buf.buf
    ensures r.2.sliceDataOffsets == ContextOf(d, contextId).sliceOffsets.buf
    ensures r.2 == ContextOf(d, contextId).picParams.(currPicIdx := r.2.currPicIdx,
      bitstreamData := r.2.bitstreamData, sliceDataOffsets := r.2.sliceDataOffsets)
    ensures IsContext(r.1, contextId)
    ensures ContextOf(r.1, contextId) == ContextOf(d, contextId).(picParams := r.2,
      buf := ContextOf(r.1, contextId).buf, sliceOffsets := ContextOf(r.1, contextId).sliceOffsets)
    ensures var before := ContextOf(d, contextId); var after := ContextOf(r.1, contextId);
      && after.buf.size == 0 && after.buf.buf == before.buf.buf && after.buf.capacity == before.buf.capacity
      && after.sliceOffsets.size == 0 && after.sliceOffsets.buf == before.sliceOffsets.buf
      && after.sliceOffsets.capacity == before.sliceOffsets.capacity
      && (Accumulator.Valid(before.buf) ==> Contents(after.buf) == [])
    ensures var t := TargetId(d, contextId);
      && IsSurface(r.1, t)
      && (decodeOk ==> r.0 == Success && SurfaceOf(r.1, t) == Decoded(SurfaceOf(d, t), ContextOf(d, contextId).decoder, r.2))
      && (!decodeOk ==> r.0 == DecodingError && SurfaceOf(r.1, t) == SurfaceOf(d, t))
    ensures forall other :: other != contextId && other != TargetId(d, contextId) ==>
      GetObject(r.1.reg, other) == GetObject(d.reg, other)
  {
    var ctx := ContextOf(d, contextId);
    var t := TargetId(d, contextId);
    PtrThenId(d.reg, ctx.renderTarget);
    var surface := SurfaceOf(d, t);
    var params := Submitted(ctx, surface.pictureIdx);
    var p := ContextData(ctx.(picParams := params, buf := ResetSize(ctx.buf), sliceOffsets := ResetSize(ctx.sliceOffsets)));
    SetPayloadKeepsInv(d, contextId, p);
    SetPayloadLookups(d.reg, contextId, p);
    var d1 := d.(reg := SetPayload(d.reg, contextId, p));
    if !decodeOk then (DecodingError, d1, params)
    else
      var q := SurfaceData(Decoded(surface, ctx.decoder, params));
      SetPayloadKeepsInv(d1, t, q);
      SetPayloadLookups(d1.reg, t, q);
      (Success, d1.(reg := SetPayload(d1.reg, t, q)), params)
  }

  // ---------------------------------------------------------------------
  // Properties
  // ---------------------------------------------------------------------

  /** Rendering two lists of buffers one after the other is rendering their
      concatenation. */
  lemma {:induction false} RenderAllConcat(sem: HandlerSemantics, d: NVDriver, codec: NVCodec, st: PicState, xs: seq<NVBuffer>, ys: seq<NVBuffer>)
    ensures RenderAll(sem, d, codec, st, xs + ys) == RenderAll(sem, d, codec, RenderAll(sem, d, codec, st, xs), ys)
    decreases |ys|
  {
    if |ys| > 0 {
      var ys' := ys[..|ys| - 1];
      assert (xs + ys)[..|xs + ys| - 1] == xs + ys';
      RenderAllConcat(sem, d, codec, st, xs, ys');
    } else {
      assert xs + ys == xs;
    }
  }

  /** A buffer type without a handler is skipped: rendering a list is
      rendering just the buffers that have a handler. */
  lemma {:induction false} RenderSkipsUnhandled(sem: HandlerSemantics, d: NVDriver, codec: NVCodec, st: PicState, bs: seq<NVBuffer>)
    ensures RenderAll(sem, d, codec, st, bs) == RenderAll(sem, d, codec, st, Handled(codec, bs))
    decreases |bs|
  {
    if |bs| > 0 {
      var init := bs[..|bs| - 1];
      RenderSkipsUnhandled(sem, d, codec, st, init);
      var last := bs[|bs| - 1];
      if last.bufferType in codec.handlers {
        var h := Handled(codec, init) + [last];
        assert h[..|h| - 1] == Handled(codec, init);
      }
    }
  }

  /** A render call only ever writes the context's picture state; the bound
      target and the decoder stay. */
  lemma RenderKeepsBinding(sem: HandlerSemantics, d: NVDriver, contextId: nat, ids: seq<nat>)
    requires Inv(d) && IsContext(d, contextId) && ContextOf(d, contextId).codec.Some?
    requires forall i :: 0 <= i < |ids| ==> IsBuffer(d, ids[i])
    ensures ContextOf(RenderPicture(sem, d, contextId, ids), contextId).renderTarget == ContextOf(d, contextId).renderTarget
    ensures ContextOf(RenderPicture(sem, d, contextId, ids), contextId).decoder == ContextOf(d, contextId).decoder
  {
  }

  /** Begin, render, end: the picture submitted is decoded into the picture
      index the target surface got when the context was created. */
  lemma BeginRenderEndSubmitsTargetIndex(sem: HandlerSemantics, d: NVDriver, contextId: nat, target: nat,
                                         ids: seq<nat>, decodeOk: bool)
    requires Inv(d) && IsContext(d, contextId) && ContextOf(d, contextId).codec.Some?
    requires IsSurface(d, target)
    requires forall i :: 0 <= i < |ids| ==> IsBuffer(d, ids[i])
    ensures var d1 := BeginPicture(d, contextId, target);
      && ContextOf(d1, contextId).codec.Some?
      && (forall i :: 0 <= i < |ids| ==> IsBuffer(d1, ids[i]))
      && var d2 := RenderPicture(sem, d1, contextId, ids);
      && HasSurfaceTarget(d2, contextId) && TargetId(d2, contextId) == target
      && EndPicture(d2, contextId, decodeOk).2.currPicIdx == PictureIdxFromSurfaceId(d, target)
  {
    var d1 := BeginPicture(d, contextId, target);
    assert target != contextId;
    var d2 := RenderPicture(sem, d1, contextId, ids);
    var ptr := ContextOf(d1, contextId).renderTarget;
    assert ContextOf(d2, contextId).renderTarget == ptr;
    PtrThenId(d1.reg, ptr);
    IdThenPtr(d2.reg, target);
    assert GetObject(d1.reg, target).value.obj == ptr;
  }
}
