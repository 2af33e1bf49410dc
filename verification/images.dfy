/** Client images and surface export: nvCreateImage registers an image and
    the buffer that holds its pixels and links the two; nvDestroyImage
    unregisters both; nvExportSurfaceHandle describes a surface as two
    DRM PRIME objects and layers.

    What the external-memory export reports (the fourcc it chose, file
    descriptors, offsets, strides, modifiers) comes from the graphics stack
    and is a parameter here. */
module Images {
  import opened Common
  import opened Objects
  import opened Accumulator
  import opened Codecs
  import opened Formats
  import opened Driver
  import opened Picture

  /** VAImageBufferType in the VABufferType enumeration. */
  const VAImageBufferType: BufferType := 9

  /** The VAImage record returned to the client. */
  datatype VAImage = VAImage(imageId: nat, buf: nat, format: nat, width: nat, height: nat, layout: ImageLayout)

  /** nvCreateImage: the image, then its pixel buffer, then the link from
      the image to the buffer's block. Both objects are appended at the tail
      of the list, image first, and the older entries stay in place. */
  function CreateImage(d: NVDriver, fourcc: nat, width: nat, height: nat): (r: (NVDriver, VAImage))
    requires Inv(d) && d.reg.nextObjId + 2 < VA_INVALID_ID
    ensures Inv(r.0) && r.0.codecs == d.codecs
    ensures r.1.imageId == d.reg.nextObjId + 1 && r.1.buf == d.reg.nextObjId + 2
    ensures r.1.format == fourcc && r.1.width == width && r.1.height == height
    ensures r.1.layout == ImageLayoutFor(width, height, fourcc)
    ensures IsImage(r.0, r.1.imageId) && IsBuffer(r.0, r.1.buf)
    ensures var img := ImageOf(r.0, r.1.imageId);
      && img.width == width && img.height == height && img.format == fourcc
      && GetObjectByPtr(r.0.reg, img.imageBuffer) == GetObject(r.0.reg, r.1.buf)
    ensures var b := BufferOf(r.0, r.1.buf);
      && b.bufferType == VAImageBufferType && b.elements == 1
      && b.size == r.1.layout.dataSize && |b.data| == b.size
    ensures forall other :: other != r.1.imageId && other != r.1.buf ==> GetObject(r.0.reg, other) == GetObject(d.reg, other)
    ensures var m := |d.reg.objects|;
      && |r.0.reg.objects| == m + 2 && r.0.reg.objects[..m] == d.reg.objects
      && r.0.reg.objects[m].id == r.1.imageId && r.0.reg.objects[m + 1].id == r.1.buf
  {
    var d1 := Register(d, ImageObject, ImageData(NVImage(width, height, fourcc, Null)));
    var layout := ImageLayoutFor(width, height, fourcc);
    var d2 := Register(d1.0, BufferObject, BufferData(NVBuffer(VAImageBufferType, 1, layout.dataSize, Zeros(layout.dataSize))));
    var d3 := LinkImage(d2.0, d1.1, d2.1);
    PrefixBelowKept(d.reg, d1.0.reg.objects, d2.0.reg.objects, d3.reg.objects, d1.1);
    assert d2.0.reg.objects[|d.reg.objects|].id == d1.1;
    (d3, VAImage(d1.1, d2.1, fourcc, width, height, layout))
  }

  /** `img->imageBuffer = imageBuffer`: point the image at the buffer's
      block. Only the image's link changes, and it leads back to the buffer. */
  function LinkImage(d: NVDriver, imageId: nat, bufId: nat): (r: NVDriver)
    requires Inv(d) && IsImage(d, imageId) && GetObject(d.reg, bufId).Some? && bufId != imageId
    ensures Inv(r) && r.codecs == d.codecs && SameShape(d.reg, r.reg)
    ensures IsImage(r, imageId)
    ensures ImageOf(r, imageId) == ImageOf(d, imageId).(imageBuffer := GetObject(d.reg, bufId).value.obj)
    ensures GetObjectByPtr(r.reg, ImageOf(r, imageId).imageBuffer) == GetObject(r.reg, bufId)
    ensures forall other :: other != imageId ==> GetObject(r.reg, other) == GetObject(d.reg, other)
    ensures forall i :: 0 <= i < |d.reg.objects| && d.reg.objects[i].id != imageId ==> r.reg.objects[i] == d.reg.objects[i]
  {
    var r := Update(d, imageId, ImageData(ImageOf(d, imageId).(imageBuffer := GetObject(d.reg, bufId).value.obj)));
    LookupWellFormed(r, bufId);
    IdThenPtr(r.reg, bufId);
    r
  }

  /** nvDestroyImage: unregister the buffer the image's block pointer leads
      to, if any, then the image. */
  function DestroyImage(d: NVDriver, imageId: nat): (r: NVDriver)
    requires Inv(d) && IsImage(d, imageId)
    ensures Inv(r) && r.codecs == d.codecs
    ensures GetObject(r.reg, imageId) == None
    ensures var bo := GetObjectByPtr(d.reg, ImageOf(d, imageId).imageBuffer);
      && (bo.Some? ==> GetObject(r.reg, bo.value.id) == None)
      && forall other :: other != imageId && (bo.None? || other != bo.value.id) ==>
           GetObject(r.reg, other) == GetObject(d.reg, other)
  {
    var bo := GetObjectByPtr(d.reg, ImageOf(d, imageId).imageBuffer);
    var d1 := if bo.Some? then DeleteKeepsInv(d, bo.value.id); d.(reg := DeleteObject(d.reg, bo.value.id)) else d;
    DeleteKeepsInv(d1, imageId);
    d1.(reg := DeleteObject(d1.reg, imageId))
  }

  /** Rewriting only the object with a fresh id leaves every older entry
      of the list in place. */
  lemma PrefixBelowKept(reg: Registry<Payload>, mid: seq<Object<Payload>>, before: seq<Object<Payload>>, after: seq<Object<Payload>>, id: nat)
    requires Objects.Valid(reg) && reg.nextObjId < id
    requires |mid| == |reg.objects| + 1 && mid[..|reg.objects|] == reg.objects
    requires |before| == |mid| + 1 && before[..|mid|] == mid && |after| == |before|
    requires forall i :: 0 <= i < |before| && before[i].id != id ==> after[i] == before[i]
    ensures after[..|reg.objects|] == reg.objects
  {
    forall i | 0 <= i < |reg.objects|
      ensures after[i] == reg.objects[i]
    {
      assert before[i] == mid[i] == reg.objects[i];
    }
  }

  /** nvDestroyImage on an image whose buffer link resolves: the buffer is
      unregistered, then the image. */
  lemma DestroyLinkedImage(d: NVDriver, imageId: nat, k: nat)
    requires Inv(d) && IsImage(d, imageId) && k < |d.reg.objects|
    requires GetObjectByPtr(d.reg, ImageOf(d, imageId).imageBuffer) == Some(d.reg.objects[k])
    ensures DestroyImage(d, imageId).reg == DeleteObject(DeleteObject(d.reg, d.reg.objects[k].id), imageId)
  {
  }

  /** Destroying an image that sits just before its buffer at the tail of
      the list removes both and restores the list before them. */
  lemma DestroyTailImage(d: NVDriver, imageId: nat, prefix: seq<Object<Payload>>)
    requires Inv(d) && IsImage(d, imageId)
    requires |d.reg.objects| == |prefix| + 2 && d.reg.objects[..|prefix|] == prefix
    requires d.reg.objects[|prefix|].id == imageId
    requires GetObjectByPtr(d.reg, ImageOf(d, imageId).imageBuffer) == Some(d.reg.objects[|prefix| + 1])
    ensures DestroyImage(d, imageId).reg.objects == prefix
  {
    var m := |prefix|;
    DestroyLinkedImage(d, imageId, m + 1);
    DeleteLastTwo(d.reg);
  }

  /** Creating an image and destroying it again leaves the object list as
      it was; only the id and address counters have moved on. */
  lemma CreateThenDestroyImage(d: NVDriver, fourcc: nat, width: nat, height: nat)
    requires Inv(d) && d.reg.nextObjId + 2 < VA_INVALID_ID
    ensures var (d1, image) := CreateImage(d, fourcc, width, height);
      DestroyImage(d1, image.imageId).reg.objects == d.reg.objects
  {
    var r := CreateImage(d, fourcc, width, height);
    GetObjectFindsUnique(r.0.reg, |d.reg.objects| + 1);
    DestroyTailImage(r.0, r.1.imageId, d.reg.objects);
  }

  // ---------------------------------------------------------------------
  // Surface export
  // ---------------------------------------------------------------------

  /** Where nvExportSurfaceHandle takes the pixels from: a surface that has
      been given a picture index is mapped from the decoder at that index
      with its recorded interlacing; any other surface gets a scratch
      device allocation. */
  datatype FrameSource =
    | MappedFrame(decoder: Option<Decoder>, pictureIdx: int, progressiveFrame: int, topFieldFirst: int, secondField: int)
    | ScratchFrame

  function ExportSource(s: NVSurface): (f: FrameSource)
    ensures f.ScratchFrame? <==> s.pictureIdx == -1
    ensures f.MappedFrame? ==> f == MappedFrame(s.decoder, s.pictureIdx, s.progressiveFrame, s.topFieldFirst, s.secondField)
  {
    if s.pictureIdx != -1 then MappedFrame(s.decoder, s.pictureIdx, s.progressiveFrame, s.topFieldFirst, s.secondField)
    else ScratchFrame
  }

  /** The descriptor of nvExportSurfaceHandle for a surface, given what the
      export of its pixels reported. */
  function ExportSurfaceHandle(d: NVDriver, surfaceId: nat, egl: EglExport): (desc: SurfaceDescriptor)
    requires IsSurface(d, surfaceId)
    ensures var s := SurfaceOf(d, surfaceId); var bpp := if s.format == P016 then 2 else 1;
      && desc.width == s.width && desc.height == s.height && desc.fourcc == egl.fourcc
      && |desc.objects| == 2 && |desc.layers| == 2
      && desc.objects[0].size == s.width * s.height * bpp
      && desc.objects[1].size == s.width * (s.height / 2) * bpp
  {
    var s := SurfaceOf(d, surfaceId);
    BuildDescriptor(s.width, s.height, ExportFrameFormat(s.format, s.bitdepth).bpp, egl)
  }

  /** A surface created for a render-target format exports planes that fit
      a client image of the matching pixel format and the same size. */
  lemma ExportFitsImage(d: NVDriver, surfaceId: nat, rt: bv32, egl: EglExport)
    requires IsSurface(d, surfaceId) && KnownRtFormat(rt)
    requires (SurfaceOf(d, surfaceId).format, SurfaceOf(d, surfaceId).bitdepth) == SurfaceFormatForRt(rt).value
    ensures var s := SurfaceOf(d, surfaceId);
      var fourcc := if s.bitdepth == 8 then VA_FOURCC_NV12 else if s.bitdepth == 10 then VA_FOURCC_P010 else VA_FOURCC_P012;
      var l := ImageLayoutFor(s.width, s.height, fourcc);
      var desc := ExportSurfaceHandle(d, surfaceId, egl);
      && desc.objects[0].size == l.offsets[1]
      && desc.objects[0].size + desc.objects[1].size <= l.dataSize
  {
    var s := SurfaceOf(d, surfaceId);
    var fourcc := if s.bitdepth == 8 then VA_FOURCC_NV12 else if s.bitdepth == 10 then VA_FOURCC_P010 else VA_FOURCC_P012;
    ExportWidthMatchesImageFormat(rt);
    DescriptorMatchesImage(s.width, s.height, fourcc, egl);
  }

  /** After a successful EndPicture the target is exported from the frame
      just decoded, with the interlacing that picture declared. */
  lemma DecodedTargetExportsMappedFrame(d: NVDriver, contextId: nat)
    requires Inv(d) && HasSurfaceTarget(d, contextId)
    requires SurfaceOf(d, TargetId(d, contextId)).pictureIdx != -1
    ensures var (status, d', params) := EndPicture(d, contextId, true);
      var t := TargetId(d, contextId);
      && status == Success
      && ExportSource(SurfaceOf(d', t)) ==
         MappedFrame(ContextOf(d, contextId).decoder, params.currPicIdx,
                     Not(params.fieldPicFlag), Not(params.bottomFieldFlag), params.secondField)
  {
  }
}
