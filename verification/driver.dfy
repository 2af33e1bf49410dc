/** The driver state and the object lifecycle around it: configs, surfaces
    and decode contexts held in the object registry, plus the attribute
    queries that read configs.

    Calls into the decode engine are oracles passed in by the caller:
    whether a decoder could be created (and which handle it got), whether it
    could be destroyed, and what a capability query reports. A C lookup whose
    result is dereferenced without a NULL check becomes a precondition that
    the object is present and of the expected kind. */
module Driver {
  import opened Common
  import opened Objects
  import opened Accumulator
  import opened Codecs
  import opened Formats

  /** Opaque decode-engine session handle. */
  type Decoder = nat

  datatype ConfigAttrib = ConfigAttrib(attribType: int, value: int)

  datatype NVConfig = NVConfig(
    profile: Profile, entrypoint: int, attribs: seq<ConfigAttrib>,
    cudaCodec: CudaCodec, surfaceFormat: SurfaceFormat, chromaFormat: ChromaFormat, bitDepth: nat)

  /** A surface: its size and format, the picture index its context gave it
      (-1 until then), and what the last successful decode into it recorded. */
  datatype NVSurface = NVSurface(
    width: nat, height: nat, format: SurfaceFormat, bitdepth: nat, pictureIdx: int,
    decoder: Option<Decoder>, progressiveFrame: int, topFieldFirst: int, secondField: int)

  /** The decode-engine picture parameters. The fields the driver itself
      reads or writes are named; everything the codec handlers fill is
      `codecFields`. */
  datatype PicParams = PicParams(
    currPicIdx: int, fieldPicFlag: int, bottomFieldFlag: int, secondField: int,
    bitstreamData: Option<seq<byte>>, sliceDataOffsets: Option<seq<byte>>, codecFields: seq<int>)

  /** The parameters after memset to zero. */
  const ZeroPicParams := PicParams(0, 0, 0, 0, None, None, [])

  /** A decode context. `renderTarget` is the address of the bound target
      surface's payload, as the C pointer is. */
  datatype NVContext = NVContext(
    decoder: Option<Decoder>, profile: Profile, entrypoint: int, width: nat, height: nat,
    codec: Option<NVCodec>, picParams: PicParams,
    buf: AppendableBuffer, sliceOffsets: AppendableBuffer, renderTarget: Ptr)

  datatype NVBuffer = NVBuffer(bufferType: BufferType, elements: nat, size: nat, data: seq<byte>)

  datatype NVImage = NVImage(width: nat, height: nat, format: nat, imageBuffer: Ptr)

  datatype Payload =
    | ConfigData(config: NVConfig)
    | SurfaceData(surface: NVSurface)
    | ContextData(context: NVContext)
    | BufferData(buffer: NVBuffer)
    | ImageData(image: NVImage)

  /** The driver: its object registry and the process-wide codec chain. */
  datatype NVDriver = NVDriver(reg: Registry<Payload>, codecs: seq<NVCodec>)

  /** The object type tag that goes with each payload. */
  predicate PayloadOfKind(kind: ObjectType, p: Payload) {
    match p
    case ConfigData(_) => kind == ConfigObject
    case SurfaceData(_) => kind == SurfaceObject
    case ContextData(_) => kind == ContextObject
    case BufferData(_) => kind == BufferObject
    case ImageData(_) => kind == ImageObject
  }

  /** Every object the driver registers has a payload block (it always asks
      for a positive size) whose contents match its type tag. */
  predicate WellFormed(o: Object<Payload>) {
    PayloadOfKind(o.kind, o.payload) && o.obj.Addr?
  }

  ghost predicate Inv(d: NVDriver) {
    && Objects.Valid(d.reg)
    && d.reg.nextObjId < VA_INVALID_ID
    && forall i :: 0 <= i < |d.reg.objects| ==> WellFormed(d.reg.objects[i])
  }

  /** Whatever an id resolves to is well formed, so it has a payload block. */
  lemma LookupWellFormed(d: NVDriver, id: nat)
    requires Inv(d) && GetObject(d.reg, id).Some?
    ensures WellFormed(GetObject(d.reg, id).value)
  {
    var k :| 0 <= k < |d.reg.objects| && d.reg.objects[k] == GetObject(d.reg, id).value;
  }

  // ---------------------------------------------------------------------
  // Typed lookups
  // ---------------------------------------------------------------------

  predicate IsConfig(d: NVDriver, id: nat) {
    && GetObject(d.reg, id).Some?
    && GetObject(d.reg, id).value.kind == ConfigObject
    && GetObject(d.reg, id).value.payload.ConfigData?
  }

  predicate IsSurface(d: NVDriver, id: nat) {
    && GetObject(d.reg, id).Some?
    && GetObject(d.reg, id).value.kind == SurfaceObject
    && GetObject(d.reg, id).value.payload.SurfaceData?
  }

  predicate IsContext(d: NVDriver, id: nat) {
    && GetObject(d.reg, id).Some?
    && GetObject(d.reg, id).value.kind == ContextObject
    && GetObject(d.reg, id).value.payload.ContextData?
  }

  predicate IsBuffer(d: NVDriver, id: nat) {
    && GetObject(d.reg, id).Some?
    && GetObject(d.reg, id).value.kind == BufferObject
    && GetObject(d.reg, id).value.payload.BufferData?
  }

  predicate IsImage(d: NVDriver, id: nat) {
    && GetObject(d.reg, id).Some?
    && GetObject(d.reg, id).value.kind == ImageObject
    && GetObject(d.reg, id).value.payload.ImageData?
  }

  function ConfigOf(d: NVDriver, id: nat): NVConfig
    requires IsConfig(d, id)
  {
    GetObject(d.reg, id).value.payload.config
  }

  function SurfaceOf(d: NVDriver, id: nat): NVSurface
    requires IsSurface(d, id)
  {
    GetObject(d.reg, id).value.payload.surface
  }

  function ContextOf(d: NVDriver, id: nat): NVContext
    requires IsContext(d, id)
  {
    GetObject(d.reg, id).value.payload.context
  }

  function BufferOf(d: NVDriver, id: nat): NVBuffer
    requires IsBuffer(d, id)
  {
    GetObject(d.reg, id).value.payload.buffer
  }

  function ImageOf(d: NVDriver, id: nat): NVImage
    requires IsImage(d, id)
  {
    GetObject(d.reg, id).value.payload.image
  }

  /** pictureIdxFromSurfaceId: the surface's picture index, or -1 when the id
      is not a surface. */
  function PictureIdxFromSurfaceId(d: NVDriver, id: nat): (idx: int)
    ensures !IsSurface(d, id) ==> idx == -1
    ensures IsSurface(d, id) ==> idx == SurfaceOf(d, id).pictureIdx
  {
    var o := GetObject(d.reg, id);
    if o.Some? && o.value.kind == SurfaceObject && o.value.payload.SurfaceData? then o.value.payload.surface.pictureIdx
    else -1
  }

  /** Registering a payload keeps the driver invariant and the lookups of
      every other id. */
  lemma AllocateKeepsInv(d: NVDriver, kind: ObjectType, payload: Payload)
    requires Inv(d) && d.reg.nextObjId + 1 < VA_INVALID_ID
    requires PayloadOfKind(kind, payload)
    ensures var (reg', o) := AllocateObject(d.reg, kind, 1, payload);
      && Inv(d.(reg := reg'))
      && GetObject(reg', o.id) == Some(o)
      && forall other :: other != o.id ==> GetObject(reg', other) == GetObject(d.reg, other)
  {
    AllocateLookups(d.reg, kind, 1, payload);
  }

  /** Register a payload of the given kind: the new id resolves to it and
      every other id resolves as before. */
  function Register(d: NVDriver, kind: ObjectType, payload: Payload): (r: (NVDriver, nat))
    requires Inv(d) && d.reg.nextObjId + 1 < VA_INVALID_ID && PayloadOfKind(kind, payload)
    ensures Inv(r.0) && r.0.codecs == d.codecs
    ensures r.1 == d.reg.nextObjId + 1 && r.0.reg.nextObjId == r.1
    ensures GetObject(r.0.reg, r.1).Some?
    ensures GetObject(r.0.reg, r.1).value.kind == kind && GetObject(r.0.reg, r.1).value.payload == payload
    ensures r.0.reg.objects == d.reg.objects + [GetObject(r.0.reg, r.1).value]
    ensures forall other :: other != r.1 ==> GetObject(r.0.reg, other) == GetObject(d.reg, other)
  {
    var a := AllocateObject(d.reg, kind, 1, payload);
    AllocateKeepsInv(d, kind, payload);
    (d.(reg := a.0), a.1.id)
  }

  /** Write a payload of the same kind through an object's pointer. */
  function Update(d: NVDriver, id: nat, payload: Payload): (r: NVDriver)
    requires Inv(d) && IsSameKind(d, id, payload)
    ensures Inv(r) && r.codecs == d.codecs && SameShape(d.reg, r.reg)
    ensures GetObject(r.reg, id) == Some(GetObject(d.reg, id).value.(payload := payload))
    ensures forall other :: other != id ==> GetObject(r.reg, other) == GetObject(d.reg, other)
    ensures forall i :: 0 <= i < |d.reg.objects| && d.reg.objects[i].id != id ==> r.reg.objects[i] == d.reg.objects[i]
  {
    SetPayloadKeepsInv(d, id, payload);
    SetPayloadLookups(d.reg, id, payload);
    d.(reg := SetPayload(d.reg, id, payload))
  }

  /** Updating a payload in place with one of the same kind keeps the
      driver invariant. */
  lemma SetPayloadKeepsInv(d: NVDriver, id: nat, payload: Payload)
    requires Inv(d) && IsSameKind(d, id, payload)
    ensures Inv(d.(reg := SetPayload(d.reg, id, payload)))
  {
    SetPayloadLookups(d.reg, id, payload);
    var r := SetPayload(d.reg, id, payload);
    forall i | 0 <= i < |r.objects|
      ensures WellFormed(r.objects[i])
    {
      if d.reg.objects[i].id == id {
        GetObjectFindsUnique(d.reg, i);
      }
    }
  }

  predicate IsSameKind(d: NVDriver, id: nat, payload: Payload) {
    && id != VA_INVALID_ID
    && GetObject(d.reg, id).Some?
    && PayloadOfKind(GetObject(d.reg, id).value.kind, payload)
  }

  // ---------------------------------------------------------------------
  // Configs
  // ---------------------------------------------------------------------

  /** nvCreateConfig: always registers a config; the codec is resolved
      through the chain (it may be CodecNone, which is not checked) and the
      surface format comes from the profile alone. */
  function CreateConfig(d: NVDriver, profile: Profile, entrypoint: int, attribs: seq<ConfigAttrib>)
    : (r: (NVDriver, nat))
    requires Inv(d) && d.reg.nextObjId + 1 < VA_INVALID_ID
    ensures Inv(r.0) && r.0.codecs == d.codecs
    ensures r.1 == d.reg.nextObjId + 1 && r.0.reg.nextObjId == r.1
    ensures IsConfig(r.0, r.1)
    ensures var c := ConfigOf(r.0, r.1);
      && c.profile == profile && c.entrypoint == entrypoint && c.attribs == attribs
      && c.cudaCodec == VaToCuCodec(d.codecs, profile)
      && ConfigFormat(c.surfaceFormat, c.chromaFormat, c.bitDepth) == ConfigFormatFor(profile)
    ensures forall other :: other != r.1 ==> GetObject(r.0.reg, other) == GetObject(d.reg, other)
  {
    var f := ConfigFormatFor(profile);
    var cfg := NVConfig(profile, entrypoint, attribs, VaToCuCodec(d.codecs, profile), f.surfaceFormat, f.chromaFormat, f.bitDepth);
    var (reg', o) := AllocateObject(d.reg, ConfigObject, 1, ConfigData(cfg));
    AllocateKeepsInv(d, ConfigObject, ConfigData(cfg));
    (d.(reg := reg'), o.id)
  }

  /** The capability query of the decode engine for (codec, bit depth,
      chroma); None when the query call itself fails. */
  type CapsQuery = (CudaCodec, nat, ChromaFormat) -> Option<DecodeCaps>

  /** nvGetConfigAttributes: refuses a profile no codec module maps; fills
      RTFormat, and the maximum width or height when the capability query
      succeeds; leaves every other attribute as it was. */
  function GetConfigAttributes(codecs: seq<NVCodec>, profile: Profile, attribs: seq<ConfigAttrib>, query: CapsQuery)
    : (r: (Status, seq<ConfigAttrib>))
    ensures r.0 == UnsupportedProfile <==> VaToCuCodec(codecs, profile) == CodecNone
    ensures r.0 == UnsupportedProfile ==> r.1 == attribs
    ensures r.0 != UnsupportedProfile ==> r.0 == Success && |r.1| == |attribs|
    ensures r.0 == Success ==> forall i :: 0 <= i < |attribs| ==> r.1[i].attribType == attribs[i].attribType
    ensures r.0 == Success ==> forall i :: 0 <= i < |attribs| && attribs[i].attribType == VAConfigAttribRTFormat ==>
      r.1[i].value == RtFormatAttribute(profile) as int
    ensures r.0 == Success ==> forall i :: 0 <= i < |attribs| && attribs[i].attribType == VAConfigAttribMaxPictureWidth ==>
      r.1[i].value == match query(VaToCuCodec(codecs, profile), 8, Chroma420)
                      case Some(caps) => caps.maxWidth
                      case None => attribs[i].value
    ensures r.0 == Success ==> forall i :: 0 <= i < |attribs| && attribs[i].attribType == VAConfigAttribMaxPictureHeight ==>
      r.1[i].value == match query(VaToCuCodec(codecs, profile), 8, Chroma420)
                      case Some(caps) => caps.maxHeight
                      case None => attribs[i].value
    ensures r.0 == Success ==> forall i :: 0 <= i < |attribs| && !FilledAttrib(attribs[i].attribType) ==> r.1[i] == attribs[i]
  {
    var codec := VaToCuCodec(codecs, profile);
    if codec == CodecNone then (UnsupportedProfile, attribs)
    else
      var caps := query(codec, 8, Chroma420);
      var rtFormat := RtFormatAttribute(profile) as int;
      (Success, seq(|attribs|, i requires 0 <= i < |attribs| => FillAttrib(attribs[i], rtFormat, caps)))
  }

  /** The attribute types nvGetConfigAttributes answers. */
  predicate FilledAttrib(t: int) {
    t == VAConfigAttribRTFormat || t == VAConfigAttribMaxPictureWidth || t == VAConfigAttribMaxPictureHeight
  }

  /** One attribute as nvGetConfigAttributes fills it in. */
  function FillAttrib(a: ConfigAttrib, rtFormat: int, caps: Option<DecodeCaps>): ConfigAttrib {
    if a.attribType == VAConfigAttribRTFormat then a.(value := rtFormat)
    else if a.attribType == VAConfigAttribMaxPictureWidth then
      (if caps.Some? then a.(value := caps.value.maxWidth) else a)
    else if a.attribType == VAConfigAttribMaxPictureHeight then
      (if caps.Some? then a.(value := caps.value.maxHeight) else a)
    else a
  }

  datatype SurfaceAttribs =
    | AttribCount(count: nat)
    | Attribs(pixelFormat: Option<nat>, minWidth: nat, minHeight: nat, maxWidth: nat, maxHeight: nat)
    | NoAttribs

  /** nvQuerySurfaceAttributes: without a list only the count (5); with one,
      a failed capability query is an operation failure, a non-4:2:0 config
      is an invalid config, and otherwise the pixel format chosen from the
      output-format mask plus the size limits. */
  function QuerySurfaceAttributes(d: NVDriver, configId: nat, listGiven: bool, query: CapsQuery)
    : (r: (Status, SurfaceAttribs))
    requires IsConfig(d, configId)
    ensures !listGiven ==> r == (Success, AttribCount(5))
    ensures var c := ConfigOf(d, configId);
      listGiven ==> match query(c.cudaCodec, c.bitDepth, c.chromaFormat)
        case None => r == (OperationFailed, NoAttribs)
        case Some(caps) =>
          if c.chromaFormat != Chroma420 then r == (InvalidConfig, NoAttribs)
          else
            && r.0 == Success && r.1.Attribs?
            && r.1.minWidth == caps.minWidth && r.1.minHeight == caps.minHeight
            && r.1.maxWidth == caps.maxWidth && r.1.maxHeight == caps.maxHeight
            && (r.1.pixelFormat.Some? <==> SurfacePixelFormat(c.chromaFormat, c.bitDepth, caps.outputFormatMask).PixelFormat?)
            && (r.1.pixelFormat.Some? ==> r.1.pixelFormat.value == SurfacePixelFormat(c.chromaFormat, c.bitDepth, caps.outputFormatMask).fourcc)
  {
    if !listGiven then (Success, AttribCount(5))
    else
      var c := ConfigOf(d, configId);
      match query(c.cudaCodec, c.bitDepth, c.chromaFormat)
      case None => (OperationFailed, NoAttribs)
      case Some(caps) =>
        match SurfacePixelFormat(c.chromaFormat, c.bitDepth, caps.outputFormatMask)
        case UnknownChroma => (InvalidConfig, NoAttribs)
        case NoPixelFormat => (Success, Attribs(None, caps.minWidth, caps.minHeight, caps.maxWidth, caps.maxHeight))
        case PixelFormat(f) => (Success, Attribs(Some(f), caps.minWidth, caps.minHeight, caps.maxWidth, caps.maxHeight))
  }

  // ---------------------------------------------------------------------
  // Surfaces
  // ---------------------------------------------------------------------

  /** A surface as nvCreateSurfaces2 leaves it: requested size, format from
      the table, no picture index yet, nothing decoded. */
  function NewSurface(width: nat, height: nat, sf: SurfaceFormat, depth: nat): NVSurface {
    NVSurface(width, height, sf, depth, -1, None, 0, 0, 0)
  }

  /** nvCreateSurfaces2: an unknown render-target format is refused before
      anything is allocated; otherwise `numSurfaces` surfaces are registered
      in order. */
  method CreateSurfaces2(d: NVDriver, format: bv32, width: nat, height: nat, numSurfaces: nat)
    returns (status: Status, d': NVDriver, surfaces: seq<nat>)
    requires Inv(d) && d.reg.nextObjId + numSurfaces < VA_INVALID_ID
    ensures !KnownRtFormat(format) ==> status == UnsupportedRtFormat && d' == d && surfaces == []
    ensures KnownRtFormat(format) ==> status == Success && Inv(d') && d'.codecs == d.codecs
    ensures KnownRtFormat(format) ==> |surfaces| == numSurfaces && d'.reg.nextObjId == d.reg.nextObjId + numSurfaces
    ensures KnownRtFormat(format) ==> forall i :: 0 <= i < numSurfaces ==> surfaces[i] == d.reg.nextObjId + i + 1
    ensures KnownRtFormat(format) ==> forall i :: 0 <= i < numSurfaces ==>
      && IsSurface(d', surfaces[i])
      && SurfaceOf(d', surfaces[i]).pictureIdx == -1
      && SurfaceOf(d', surfaces[i]).width == width && SurfaceOf(d', surfaces[i]).height == height
      && (SurfaceOf(d', surfaces[i]).format, SurfaceOf(d', surfaces[i]).bitdepth) == SurfaceFormatForRt(format).value
    ensures KnownRtFormat(format) ==> forall id: nat :: id <= d.reg.nextObjId ==> GetObject(d'.reg, id) == GetObject(d.reg, id)
  {
    var table := SurfaceFormatForRt(format);
    if table.None? {
      return UnsupportedRtFormat, d, [];
    }
    var (sf, depth) := table.value;
    var surface := NewSurface(width, height, sf, depth);
    d', surfaces := AllocateSurfaces(d, surface, numSurfaces);
    status := Success;
  }

  /** The allocation loop of nvCreateSurfaces2: `n` surfaces with the same
      initial state, registered one after another. */
  method AllocateSurfaces(d: NVDriver, surface: NVSurface, n: nat) returns (d': NVDriver, surfaces: seq<nat>)
    requires Inv(d) && d.reg.nextObjId + n < VA_INVALID_ID
    ensures Inv(d') && d'.codecs == d.codecs
    ensures |surfaces| == n && d'.reg.nextObjId == d.reg.nextObjId + n
    ensures forall i :: 0 <= i < n ==> surfaces[i] == d.reg.nextObjId + i + 1
    ensures forall i :: 0 <= i < n ==> IsSurface(d', surfaces[i]) && SurfaceOf(d', surfaces[i]) == surface
    ensures forall id: nat :: id <= d.reg.nextObjId ==> GetObject(d'.reg, id) == GetObject(d.reg, id)
  {
    d' := d;
    surfaces := [];
    var i := 0;
    while i < n
      invariant 0 <= i <= n
      invariant Objects.Valid(d'.reg) && d'.codecs == d.codecs
      invariant d'.reg.nextObjId == d.reg.nextObjId + i
      invariant |surfaces| == i
      invariant AppendedSurfaces(d.reg.objects, d'.reg.objects, surfaces, surface)
      invariant forall j :: 0 <= j < i ==> surfaces[j] == d.reg.nextObjId + j + 1
    {
      var r := AllocateObject(d'.reg, SurfaceObject, 1, SurfaceData(surface));
      AppendedSurfacesStep(d.reg.objects, d'.reg.objects, surfaces, surface, r.1);
      d' := d'.(reg := r.0);
      surfaces := surfaces + [r.1.id];
      i := i + 1;
    }
    AppendedSurfacesLookups(d, d', surfaces, surface);
  }

  /** `objs` is `prefix` followed by one new surface object per id. */
  ghost predicate AppendedSurfaces(prefix: seq<Object<Payload>>, objs: seq<Object<Payload>>, ids: seq<nat>, s: NVSurface) {
    && |objs| == |prefix| + |ids|
    && objs[..|prefix|] == prefix
    && forall j :: 0 <= j < |ids| ==>
         && objs[|prefix| + j].id == ids[j] && objs[|prefix| + j].kind == SurfaceObject
         && objs[|prefix| + j].obj.Addr? && objs[|prefix| + j].payload == SurfaceData(s)
  }

  /** One more allocated surface extends the appended run by one. */
  lemma AppendedSurfacesStep(prefix: seq<Object<Payload>>, objs: seq<Object<Payload>>, ids: seq<nat>, s: NVSurface, o: Object<Payload>)
    requires AppendedSurfaces(prefix, objs, ids, s)
    requires o.kind == SurfaceObject && o.obj.Addr? && o.payload == SurfaceData(s)
    ensures AppendedSurfaces(prefix, objs + [o], ids + [o.id], s)
  {
    var objs', ids' := objs + [o], ids + [o.id];
    assert |objs'| == |prefix| + |ids'|;
    assert objs'[..|prefix|] == objs[..|prefix|] == prefix;
    forall j | 0 <= j < |ids'|
      ensures objs'[|prefix| + j].id == ids'[j] && objs'[|prefix| + j].kind == SurfaceObject
      ensures objs'[|prefix| + j].obj.Addr? && objs'[|prefix| + j].payload == SurfaceData(s)
    {
      if j < |ids| {
        assert objs'[|prefix| + j] == objs[|prefix| + j] && ids'[j] == ids[j];
      } else {
        assert objs'[|prefix| + j] == o && ids'[j] == o.id;
      }
    }
  }

  /** What appending the new surfaces means for lookups. */
  lemma AppendedSurfacesLookups(d: NVDriver, d': NVDriver, ids: seq<nat>, s: NVSurface)
    requires Inv(d) && Objects.Valid(d'.reg) && d'.reg.nextObjId < VA_INVALID_ID
    requires AppendedSurfaces(d.reg.objects, d'.reg.objects, ids, s)
    requires forall j :: 0 <= j < |ids| ==> d.reg.nextObjId < ids[j] < VA_INVALID_ID
    ensures Inv(d')
    ensures forall j :: 0 <= j < |ids| ==> IsSurface(d', ids[j]) && SurfaceOf(d', ids[j]) == s
    ensures forall id: nat :: id <= d.reg.nextObjId ==> GetObject(d'.reg, id) == GetObject(d.reg, id)
  {
    AppendedSurfacesWellFormed(d, d', ids, s);
    AppendedSurfacesNew(d, d', ids, s);
    AppendedSurfacesOld(d, d', ids, s);
  }

  lemma AppendedSurfacesWellFormed(d: NVDriver, d': NVDriver, ids: seq<nat>, s: NVSurface)
    requires Inv(d) && AppendedSurfaces(d.reg.objects, d'.reg.objects, ids, s)
    ensures forall k :: 0 <= k < |d'.reg.objects| ==> WellFormed(d'.reg.objects[k])
  {
    var m := |d.reg.objects|;
    forall k | 0 <= k < |d'.reg.objects|
      ensures WellFormed(d'.reg.objects[k])
    {
      if k < m {
        assert d'.reg.objects[k] == d'.reg.objects[..m][k];
      } else {
        var j := k - m;
        assert d'.reg.objects[m + j].id == ids[j];
      }
    }
  }

  lemma AppendedSurfacesNew(d: NVDriver, d': NVDriver, ids: seq<nat>, s: NVSurface)
    requires Objects.Valid(d'.reg) && AppendedSurfaces(d.reg.objects, d'.reg.objects, ids, s)
    requires forall j :: 0 <= j < |ids| ==> ids[j] < VA_INVALID_ID
    ensures forall j :: 0 <= j < |ids| ==> IsSurface(d', ids[j]) && SurfaceOf(d', ids[j]) == s
  {
    var m := |d.reg.objects|;
    forall j | 0 <= j < |ids|
      ensures IsSurface(d', ids[j]) && SurfaceOf(d', ids[j]) == s
    {
      assert d'.reg.objects[m + j].id == ids[j];
      GetObjectFindsUnique(d'.reg, m + j);
    }
  }

  lemma AppendedSurfacesOld(d: NVDriver, d': NVDriver, ids: seq<nat>, s: NVSurface)
    requires Objects.Valid(d.reg) && Objects.Valid(d'.reg)
    requires AppendedSurfaces(d.reg.objects, d'.reg.objects, ids, s)
    requires forall j :: 0 <= j < |ids| ==> d.reg.nextObjId < ids[j]
    ensures forall id: nat :: id <= d.reg.nextObjId ==> GetObject(d'.reg, id) == GetObject(d.reg, id)
  {
    var m := |d.reg.objects|;
    forall id: nat | id <= d.reg.nextObjId
      ensures GetObject(d'.reg, id) == GetObject(d.reg, id)
    {
      if k :| 0 <= k < m && d.reg.objects[k].id == id {
        assert d'.reg.objects[k] == d'.reg.objects[..m][k];
        if id != VA_INVALID_ID {
          GetObjectFindsUnique(d.reg, k);
          GetObjectFindsUnique(d'.reg, k);
        }
      } else {
        forall k | 0 <= k < |d'.reg.objects|
          ensures d'.reg.objects[k].id != id
        {
          if k < m {
            assert d'.reg.objects[k] == d'.reg.objects[..m][k];
          } else {
            assert d'.reg.objects[m + (k - m)].id == ids[k - m];
          }
        }
      }
    }
  }

  // ---------------------------------------------------------------------
  // Contexts
  // ---------------------------------------------------------------------

  /** Position of the last occurrence of `id` in `ids`, -1 when absent. */
  function LastIndexOf(ids: seq<nat>, id: nat): (k: int)
    ensures -1 <= k < |ids|
    ensures k == -1 <==> id !in ids
    ensures k >= 0 ==> ids[k] == id && forall j :: k < j < |ids| ==> ids[j] != id
    decreases |ids|
  {
    if |ids| == 0 then -1
    else if ids[|ids| - 1] == id then |ids| - 1
    else LastIndexOf(ids[..|ids| - 1], id)
  }

  /** An object after the picture-index loop over `targets` has run: a
      surface whose id is among them carries the index of its last
      occurrence. */
  function Indexed(o: Object<Payload>, targets: seq<nat>): Object<Payload> {
    if o.payload.SurfaceData? && o.id in targets
    then o.(payload := SurfaceData(o.payload.surface.(pictureIdx := LastIndexOf(targets, o.id))))
    else o
  }

  /** The render-target loop of nvCreateContext: target i gets picture
      index i, so a target listed twice keeps the later index. */
  method AssignPictureIndices(d: NVDriver, targets: seq<nat>) returns (d': NVDriver)
    requires Objects.Valid(d.reg)
    requires forall i :: 0 <= i < |targets| ==> IsSurface(d, targets[i])
    ensures SameShape(d.reg, d'.reg) && d'.codecs == d.codecs
    ensures forall k :: 0 <= k < |d'.reg.objects| ==> d'.reg.objects[k] == Indexed(d.reg.objects[k], targets)
  {
    d' := d;
    var i := 0;
    while i < |targets|
      invariant 0 <= i <= |targets|
      invariant SameShape(d.reg, d'.reg) && d'.codecs == d.codecs
      invariant forall k :: 0 <= k < |d'.reg.objects| ==> d'.reg.objects[k] == Indexed(d.reg.objects[k], targets[..i])
    {
      var t := targets[i];
      IndexedLookup(d.reg, d'.reg, targets[..i], t);
      var obj := GetObject(d'.reg, t).value;
      var next := SetPayload(d'.reg, t, SurfaceData(obj.payload.surface.(pictureIdx := i)));
      IndexedStep(d.reg, d'.reg, next, targets, i, obj);
      d' := d'.(reg := next);
      i := i + 1;
    }
    assert targets[..i] == targets;
  }

  /** One iteration of the picture-index loop extends `Indexed` by one target. */
  lemma IndexedStep(base: Registry<Payload>, prev: Registry<Payload>, next: Registry<Payload>,
                    targets: seq<nat>, i: nat, obj: Object<Payload>)
    requires Objects.Valid(base) && i < |targets|
    requires SameShape(base, prev)
    requires forall k :: 0 <= k < |prev.objects| ==> prev.objects[k] == Indexed(base.objects[k], targets[..i])
    requires GetObject(prev, targets[i]) == Some(obj) && obj.payload.SurfaceData?
    requires next == SetPayload(prev, targets[i], SurfaceData(obj.payload.surface.(pictureIdx := i)))
    ensures SameShape(base, next)
    ensures forall k :: 0 <= k < |next.objects| ==> next.objects[k] == Indexed(base.objects[k], targets[..i + 1])
  {
    var t := targets[i];
    assert targets[..i + 1][..i] == targets[..i];
    forall k | 0 <= k < |next.objects|
      ensures next.objects[k] == Indexed(base.objects[k], targets[..i + 1])
    {
      var b := base.objects[k];
      if b.id == t {
        SameShapeLookup(base, prev, t);
        GetObjectFindsUnique(base, k);
      } else {
        assert LastIndexOf(targets[..i + 1], b.id) == LastIndexOf(targets[..i], b.id);
      }
    }
  }

  /** Lookups after the picture-index loop: the same object, indexed. */
  lemma IndexedLookup(base: Registry<Payload>, r: Registry<Payload>, targets: seq<nat>, id: nat)
    requires SameShape(base, r)
    requires forall k :: 0 <= k < |r.objects| ==> r.objects[k] == Indexed(base.objects[k], targets)
    ensures GetObject(r, id) == match GetObject(base, id)
      case Some(o) => Some(Indexed(o, targets))
      case None => None
  {
    SameShapeLookup(base, r, id);
  }

  /** The state nvCreateContext leaves a new context in. */
  function NewContext(decoder: Decoder, cfg: NVConfig, width: nat, height: nat, codecs: seq<NVCodec>): NVContext {
    var codec := match LastSupporting(codecs, cfg.profile)
      case Some(k) => Some(codecs[k])
      case None => None;
    NVContext(Some(decoder), cfg.profile, cfg.entrypoint, width, height, codec, ZeroPicParams, Fresh, Fresh, Null)
  }

  /** An id the registry resolves was issued already. */
  lemma LookupBelowCounter(reg: Registry<Payload>, id: nat)
    requires Objects.Valid(reg) && GetObject(reg, id).Some?
    ensures id <= reg.nextObjId
  {
  }

  /** nvCreateContext: if the decoder cannot be created the call fails with
      nothing registered; otherwise the context is registered bound to the
      last codec module listing the profile, and render target i is given
      picture index i. */
  method CreateContext(d: NVDriver, configId: nat, width: nat, height: nat, renderTargets: seq<nat>, created: Option<Decoder>)
    returns (status: Status, d': NVDriver, contextId: nat)
    requires Inv(d) && d.reg.nextObjId + 1 < VA_INVALID_ID
    requires IsConfig(d, configId)
    requires forall i :: 0 <= i < |renderTargets| ==> IsSurface(d, renderTargets[i])
    ensures created.None? ==> status == AllocationFailed && d' == d
    ensures created.Some? ==> status == Success && Inv(d') && d'.codecs == d.codecs
    ensures created.Some? ==> contextId == d.reg.nextObjId + 1 && IsContext(d', contextId)
    ensures created.Some? ==>
      ContextOf(d', contextId) == NewContext(created.value, ConfigOf(d, configId), width, height, d.codecs)
    ensures created.Some? ==> forall i :: 0 <= i < |renderTargets| ==>
      IsSurface(d', renderTargets[i]) &&
      SurfaceOf(d', renderTargets[i]) == SurfaceOf(d, renderTargets[i]).(pictureIdx := LastIndexOf(renderTargets, renderTargets[i]))
    ensures created.Some? ==> forall id: nat :: id != contextId && id !in renderTargets ==>
      GetObject(d'.reg, id) == GetObject(d.reg, id)
  {
    if created.None? {
      return AllocationFailed, d, 0;
    }
    var cfg := ConfigOf(d, configId);
    var ctx := NewContext(created.value, cfg, width, height, d.codecs);
    var found := FindContextCodec(d.codecs, cfg.profile);
    assert ctx.codec == if found.Some? then Some(d.codecs[found.value]) else None;
    var (reg0, o) := AllocateObject(d.reg, ContextObject, 1, ContextData(ctx));
    AllocateKeepsInv(d, ContextObject, ContextData(ctx));
    contextId := o.id;
    var base := d.(reg := reg0);
    forall i | 0 <= i < |renderTargets|
      ensures IsSurface(base, renderTargets[i]) && SurfaceOf(base, renderTargets[i]) == SurfaceOf(d, renderTargets[i])
    {
      LookupBelowCounter(d.reg, renderTargets[i]);
    }
    d' := AssignPictureIndices(base, renderTargets);
    status := Success;
    IndexedKeepsInv(base, d', renderTargets);
    IndexedTargets(d, base, d', renderTargets);
    IndexedOthers(base, d', renderTargets);
    IndexedLookup(base.reg, d'.reg, renderTargets, contextId);
  }

  /** The picture-index loop keeps the driver invariant. */
  lemma IndexedKeepsInv(base: NVDriver, d': NVDriver, targets: seq<nat>)
    requires Inv(base) && SameShape(base.reg, d'.reg)
    requires forall k :: 0 <= k < |d'.reg.objects| ==> d'.reg.objects[k] == Indexed(base.reg.objects[k], targets)
    ensures Inv(d')
  {
    SameShapeLookup(base.reg, d'.reg, 0);
    forall k | 0 <= k < |d'.reg.objects|
      ensures WellFormed(d'.reg.objects[k])
    {
      assert WellFormed(base.reg.objects[k]);
    }
  }

  /** After the picture-index loop each target is the surface it was, with
      the index of its last occurrence. */
  lemma IndexedTargets(d: NVDriver, base: NVDriver, d': NVDriver, targets: seq<nat>)
    requires forall i :: 0 <= i < |targets| ==> IsSurface(d, targets[i])
    requires forall i :: 0 <= i < |targets| ==> IsSurface(base, targets[i]) && SurfaceOf(base, targets[i]) == SurfaceOf(d, targets[i])
    requires SameShape(base.reg, d'.reg)
    requires forall k :: 0 <= k < |d'.reg.objects| ==> d'.reg.objects[k] == Indexed(base.reg.objects[k], targets)
    ensures forall i :: 0 <= i < |targets| ==>
      IsSurface(d', targets[i]) &&
      SurfaceOf(d', targets[i]) == SurfaceOf(d, targets[i]).(pictureIdx := LastIndexOf(targets, targets[i]))
  {
    forall i | 0 <= i < |targets|
      ensures IsSurface(d', targets[i])
      ensures SurfaceOf(d', targets[i]) == SurfaceOf(d, targets[i]).(pictureIdx := LastIndexOf(targets, targets[i]))
    {
      IndexedLookup(base.reg, d'.reg, targets, targets[i]);
    }
  }

  /** After the picture-index loop an id that is not a target resolves as
      it did before. */
  lemma IndexedOthers(base: NVDriver, d': NVDriver, targets: seq<nat>)
    requires SameShape(base.reg, d'.reg)
    requires forall k :: 0 <= k < |d'.reg.objects| ==> d'.reg.objects[k] == Indexed(base.reg.objects[k], targets)
    ensures forall id: nat :: id !in targets ==> GetObject(d'.reg, id) == GetObject(base.reg, id)
  {
    forall id: nat | id !in targets
      ensures GetObject(d'.reg, id) == GetObject(base.reg, id)
    {
      IndexedLookup(base.reg, d'.reg, targets, id);
    }
  }

  /** With distinct render targets, target i gets picture index exactly i,
      so the context's surfaces carry the indices 0 .. n-1, one each. */
  lemma DistinctTargetsGetOwnIndex(targets: seq<nat>, i: nat)
    requires i < |targets|
    requires forall a, b :: 0 <= a < b < |targets| ==> targets[a] != targets[b]
    ensures LastIndexOf(targets, targets[i]) == i
  {
  }

  datatype TeardownStep = ReleaseSliceOffsets | ReleaseBitstream | UnregisterContext | DestroyDecoder(decoder: Decoder)

  /** The context with its decoder handle cleared and both accumulators
      released, as nvDestroyContext leaves it just before unregistering. */
  function Released(ctx: NVContext): (c: NVContext)
    ensures c.decoder.None? && c.buf.buf.None? && c.sliceOffsets.buf.None?
  {
    ctx.(decoder := None, sliceOffsets := FreeBuffer(ctx.sliceOffsets), buf := FreeBuffer(ctx.buf))
  }

  /** Release, then unregister: the context is gone and nothing else changed. */
  function Unregister(d: NVDriver, contextId: nat): (d': NVDriver)
    requires Inv(d) && IsContext(d, contextId)
    ensures Inv(d') && d'.codecs == d.codecs
    ensures GetObject(d'.reg, contextId) == None
    ensures forall other :: other != contextId ==> GetObject(d'.reg, other) == GetObject(d.reg, other)
  {
    var released := ContextData(Released(ContextOf(d, contextId)));
    SetPayloadKeepsInv(d, contextId, released);
    var d1 := d.(reg := SetPayload(d.reg, contextId, released));
    SetPayloadLookups(d.reg, contextId, released);
    DeleteKeepsInv(d1, contextId);
    d1.(reg := DeleteObject(d1.reg, contextId))
  }

  /** Unregistering any id keeps the driver invariant and every other lookup. */
  lemma DeleteKeepsInv(d: NVDriver, id: nat)
    requires Inv(d)
    ensures Inv(d.(reg := DeleteObject(d.reg, id)))
    ensures GetObject(DeleteObject(d.reg, id), id) == None
    ensures forall other :: other != id ==> GetObject(DeleteObject(d.reg, id), other) == GetObject(d.reg, other)
  {
    DeleteLookups(d.reg, id);
  }

  /** nvDestroyContext: the accumulators are released and the context is
      unregistered BEFORE the decoder is destroyed, so a failing destroy is
      reported but leaves nothing registered. */
  function DestroyContext(d: NVDriver, contextId: nat, destroyOk: bool): (r: (Status, NVDriver, seq<TeardownStep>))
    requires Inv(d) && IsContext(d, contextId)
    ensures r.1 == Unregister(d, contextId)
    ensures r.0 == OperationFailed <==> ContextOf(d, contextId).decoder.Some? && !destroyOk
    ensures r.0 != OperationFailed ==> r.0 == Success
    ensures UnregisterContext in r.2
    ensures forall dec: Decoder :: DestroyDecoder(dec) in r.2 <==> ContextOf(d, contextId).decoder == Some(dec)
    ensures forall i, j :: 0 <= i < |r.2| && 0 <= j < |r.2| && r.2[i] == UnregisterContext && r.2[j].DestroyDecoder? ==> i < j
  {
    var decoder := ContextOf(d, contextId).decoder;
    var status := if decoder.Some? && !destroyOk then OperationFailed else Success;
    (status, Unregister(d, contextId), TeardownSteps(decoder))
  }

  /** The steps of nvDestroyContext in order: release both accumulators,
      unregister the context, and only then destroy the decoder, if any. */
  function TeardownSteps(decoder: Option<Decoder>): (steps: seq<TeardownStep>)
    ensures UnregisterContext in steps && ReleaseSliceOffsets in steps && ReleaseBitstream in steps
    ensures forall dec: Decoder :: DestroyDecoder(dec) in steps <==> decoder == Some(dec)
    ensures forall i, j :: 0 <= i < |steps| && 0 <= j < |steps| && steps[i] == UnregisterContext && steps[j].DestroyDecoder? ==> i < j
    ensures forall i, j ::
      0 <= i < |steps| && 0 <= j < |steps| && (steps[i].ReleaseSliceOffsets? || steps[i].ReleaseBitstream?) && steps[j] == UnregisterContext
      ==> i < j
  {
    var released := [ReleaseSliceOffsets, ReleaseBitstream, UnregisterContext];
    match decoder
    case None => released
    case Some(dec) => released + [DestroyDecoder(dec)]
  }
}
