/** The driver's format tables and plane-layout arithmetic: the surface
    format a config gets, the surface format a render-target format maps to,
    the render-target formats and pixel format the driver advertises, the
    layout of a client image, and the multi-plane descriptor of an exported
    surface. All of it is pure. */
module Formats {
  import opened Common

  // ---------------------------------------------------------------------
  // Configs and surfaces
  // ---------------------------------------------------------------------

  datatype ConfigFormat = ConfigFormat(surfaceFormat: SurfaceFormat, chromaFormat: ChromaFormat, bitDepth: nat)

  /** nvCreateConfig's format choice: HEVC Main 10 gets the 16-bit-container
      format at 10 bits, every other profile 8-bit NV12; always 4:2:0. */
  function ConfigFormatFor(profile: Profile): (f: ConfigFormat)
    ensures f.chromaFormat == Chroma420
    ensures f.bitDepth == 8 || f.bitDepth == 10
    ensures f.bitDepth == 10 <==> profile == VAProfileHEVCMain10
    ensures f.surfaceFormat == NV12 <==> f.bitDepth == 8
    ensures f.surfaceFormat == NV12 || f.surfaceFormat == P016
  {
    if profile == VAProfileHEVCMain10 then ConfigFormat(P016, Chroma420, 10)
    else ConfigFormat(NV12, Chroma420, 8)
  }

  predicate KnownRtFormat(format: bv32) {
    format == VA_RT_FORMAT_YUV420 || format == VA_RT_FORMAT_YUV420_10 || format == VA_RT_FORMAT_YUV420_12
  }

  /** nvCreateSurfaces2's format table; None is the unsupported-format error. */
  function SurfaceFormatForRt(format: bv32): (r: Option<(SurfaceFormat, nat)>)
    ensures r.Some? <==> KnownRtFormat(format)
    ensures r.Some? ==> r.value.1 == 8 || r.value.1 == 10 || r.value.1 == 12
    ensures r.Some? ==> (r.value.0 == NV12 <==> r.value.1 == 8) && (r.value.0 == NV12 || r.value.0 == P016)
  {
    if format == VA_RT_FORMAT_YUV420 then Some((NV12, 8))
    else if format == VA_RT_FORMAT_YUV420_10 then Some((P016, 10))
    else if format == VA_RT_FORMAT_YUV420_12 then Some((P016, 12))
    else None
  }

  /** The render-target format naming a 4:2:0 bit depth: the inverse table. */
  function RtFormatForDepth(bitDepth: nat): Option<bv32> {
    if bitDepth == 8 then Some(VA_RT_FORMAT_YUV420)
    else if bitDepth == 10 then Some(VA_RT_FORMAT_YUV420_10)
    else if bitDepth == 12 then Some(VA_RT_FORMAT_YUV420_12)
    else None
  }

  /** The surface table and the inverse table agree both ways: a format maps
      to a (surface format, depth) pair exactly when the depth names that
      format back and the surface format is the one for that depth. */
  lemma SurfaceFormatRoundTrip(format: bv32, sf: SurfaceFormat, depth: nat)
    ensures SurfaceFormatForRt(format) == Some((sf, depth)) <==>
      RtFormatForDepth(depth) == Some(format) && sf == (if depth == 8 then NV12 else P016)
  {
  }

  /** nvGetConfigAttributes' RTFormat value: 4:2:0 always, plus 10-bit 4:2:0
      for HEVC Main 10. */
  function RtFormatAttribute(profile: Profile): (v: bv32)
    ensures v & VA_RT_FORMAT_YUV420 != 0
    ensures v & VA_RT_FORMAT_YUV420_10 != 0 <==> profile == VAProfileHEVCMain10
    ensures v & VA_RT_FORMAT_YUV420_12 == 0
    ensures v & !(VA_RT_FORMAT_YUV420 | VA_RT_FORMAT_YUV420_10) == 0
  {
    var v := VA_RT_FORMAT_YUV420;
    if profile == VAProfileHEVCMain10 then v | VA_RT_FORMAT_YUV420_10 else v
  }

  /** Every render-target format the driver advertises, taken one bit at a
      time, is one that surface creation accepts. */
  lemma AdvertisedFormatsCreatable(profile: Profile, bit: nat)
    requires bit < 32
    ensures RtFormatAttribute(profile) & ((1 as bv32) << bit) != 0 ==> SurfaceFormatForRt((1 as bv32) << bit).Some?
  {
    var f := (1 as bv32) << bit;
    var v := RtFormatAttribute(profile);
    if v & f != 0 {
      assert f & !(VA_RT_FORMAT_YUV420 | VA_RT_FORMAT_YUV420_10) == 0 by {
        assert (v & f) & !(VA_RT_FORMAT_YUV420 | VA_RT_FORMAT_YUV420_10) == 0;
      }
      assert f == VA_RT_FORMAT_YUV420 || f == VA_RT_FORMAT_YUV420_10;
    }
  }

  /** What the driver advertises for a profile fits what it builds for it:
      the render-target format of the config's bit depth is advertised, and
      creating surfaces in it yields exactly the config's surface format and
      depth. */
  lemma AdvertisedFormatMatchesConfig(profile: Profile)
    ensures var cf := ConfigFormatFor(profile);
      && RtFormatForDepth(cf.bitDepth).Some?
      && RtFormatAttribute(profile) & RtFormatForDepth(cf.bitDepth).value != 0
      && SurfaceFormatForRt(RtFormatForDepth(cf.bitDepth).value) == Some((cf.surfaceFormat, cf.bitDepth))
  {
  }

  // ---------------------------------------------------------------------
  // Surface attribute query
  // ---------------------------------------------------------------------

  /** The capability record the decode engine reports for a codec, chroma
      layout and bit depth. */
  datatype DecodeCaps = DecodeCaps(
    isSupported: bool, minWidth: nat, minHeight: nat, maxWidth: nat, maxHeight: nat, outputFormatMask: bv16)

  datatype PixelFormatAnswer = PixelFormat(fourcc: nat) | NoPixelFormat | UnknownChroma

  /** nvQuerySurfaceAttributes' pixel-format choice from the output-format
      mask: the 16-bit formats need mask bit 2, NV12 needs mask bit 1; a
      non-4:2:0 config is refused, and no matching bit leaves it unset. */
  function SurfacePixelFormat(chroma: ChromaFormat, bitDepth: nat, mask: bv16): (r: PixelFormatAnswer)
    ensures r == UnknownChroma <==> chroma != Chroma420
    ensures r == PixelFormat(VA_FOURCC_P010) <==> chroma == Chroma420 && bitDepth == 10 && mask & 2 != 0
    ensures r == PixelFormat(VA_FOURCC_P012) <==> chroma == Chroma420 && bitDepth == 12 && mask & 2 != 0
    ensures r == PixelFormat(VA_FOURCC_NV12) <==>
      chroma == Chroma420 && mask & 1 != 0 && !((bitDepth == 10 || bitDepth == 12) && mask & 2 != 0)
    ensures r.PixelFormat? ==> r.fourcc == VA_FOURCC_NV12 || r.fourcc == VA_FOURCC_P010 || r.fourcc == VA_FOURCC_P012
  {
    if chroma == Chroma420 then
      if bitDepth == 10 && mask & 2 != 0 then PixelFormat(VA_FOURCC_P010)
      else if bitDepth == 12 && mask & 2 != 0 then PixelFormat(VA_FOURCC_P012)
      else if mask & 1 != 0 then PixelFormat(VA_FOURCC_NV12)
      else NoPixelFormat
    else UnknownChroma
  }

  /** For any config nvCreateConfig builds, the advertised pixel format is
      never the 12-bit one, and a 2-byte format is only offered to the
      10-bit config. */
  lemma PixelFormatFitsConfig(profile: Profile, mask: bv16)
    ensures var cf := ConfigFormatFor(profile);
      var r := SurfacePixelFormat(cf.chromaFormat, cf.bitDepth, mask);
      && r != UnknownChroma
      && r != PixelFormat(VA_FOURCC_P012)
      && (r.PixelFormat? && ImageBytesPerPixel(r.fourcc) == 2 ==> cf.bitDepth == 10)
  {
  }

  // ---------------------------------------------------------------------
  // Images
  // ---------------------------------------------------------------------

  /** nvCreateImage (and nvGetImage): 2 bytes per sample for P010 and P012,
      1 otherwise. */
  function ImageBytesPerPixel(fourcc: nat): (bpp: nat)
    ensures bpp == 1 || bpp == 2
    ensures bpp == 2 <==> fourcc == VA_FOURCC_P010 || fourcc == VA_FOURCC_P012
  {
    if fourcc == VA_FOURCC_P010 || fourcc == VA_FOURCC_P012 then 2 else 1
  }

  datatype ImageLayout = ImageLayout(dataSize: nat, numPlanes: nat, pitches: seq<nat>, offsets: seq<nat>)

  /** nvCreateImage's layout: a full-size luma plane followed by an
      interleaved chroma plane of half the samples, both at the same pitch. */
  function ImageLayoutFor(width: nat, height: nat, fourcc: nat): (l: ImageLayout)
    ensures l.numPlanes == 2 && |l.pitches| == 2 && |l.offsets| == 2
    ensures l.pitches[0] == l.pitches[1] == width * ImageBytesPerPixel(fourcc)
    ensures l.offsets[0] == 0
  {
    var bpp := ImageBytesPerPixel(fourcc);
    ImageLayout((width * height + width * height / 2) * bpp, 2, [width * bpp, width * bpp], [0, width * height * bpp])
  }

  lemma HalfRowsFit(width: nat, height: nat)
    ensures width * (height / 2) <= width * height / 2
    ensures height % 2 == 0 ==> width * (height / 2) == width * height / 2
  {
    var q := height / 2;
    assert height == 2 * q + height % 2;
    MulDistributes(2 * q, height % 2, width);
    assert width * height == 2 * (width * q) + width * (height % 2);
  }

  // One multiplication fact at a time, so that the plane arithmetic below
  // stays linear in the products it names.

  lemma MulRearrange(a: nat, b: nat, c: nat)
    ensures (a * c) * b == a * b * c
  {
  }

  lemma MulDistributes(a: nat, b: nat, c: nat)
    ensures (a + b) * c == a * c + b * c
  {
  }

  lemma MulMonotone(a: nat, b: nat, c: nat)
    requires a <= b
    ensures a * c <= b * c
  {
  }

  /** The image layout is consistent: the chroma plane starts exactly where
      the luma plane's `height` rows end, its `height / 2` rows fit inside
      the buffer, and the buffer holds nothing after the chroma samples. */
  lemma {:induction false} ImagePlanesFit(width: nat, height: nat, fourcc: nat)
    ensures var l := ImageLayoutFor(width, height, fourcc);
      && l.offsets[1] == l.pitches[0] * height
      && l.offsets[1] + l.pitches[1] * (height / 2) <= l.dataSize
      && l.dataSize - l.offsets[1] == (width * height / 2) * ImageBytesPerPixel(fourcc)
  {
    var bpp := ImageBytesPerPixel(fourcc);
    HalfRowsFit(width, height);
    MulRearrange(width, height, bpp);
    MulRearrange(width, height / 2, bpp);
    MulDistributes(width * height, width * height / 2, bpp);
    MulMonotone(width * (height / 2), width * height / 2, bpp);
  }

  // ---------------------------------------------------------------------
  // Surface export
  // ---------------------------------------------------------------------

  datatype EglColorFormat = YVU420Semiplanar | Y10V10U10_420Semiplanar | Y12V12U12_420Semiplanar
  datatype CuArrayFormat = UnsignedInt8 | UnsignedInt16

  /** The frame description exportCudaPtr builds; None stands for a field
      left at its zero value. */
  datatype FrameFormat = FrameFormat(colorFormat: Option<EglColorFormat>, arrayFormat: Option<CuArrayFormat>, bpp: nat)

  /** exportCudaPtr's per-format choice: NV12 is 8-bit, P016 is 16-bit with
      the colour format picked by bit depth; any other format keeps one byte
      per sample and no colour format. */
  function ExportFrameFormat(format: SurfaceFormat, bitdepth: nat): (f: FrameFormat)
    ensures f.bpp == 1 || f.bpp == 2
    ensures f.bpp == 2 <==> format == P016
    ensures f.arrayFormat.Some? <==> format == NV12 || format == P016
    ensures f.arrayFormat == Some(UnsignedInt16) <==> f.bpp == 2
    ensures f.colorFormat.Some? <==> format == NV12 || (format == P016 && (bitdepth == 10 || bitdepth == 12))
  {
    if format == NV12 then FrameFormat(Some(YVU420Semiplanar), Some(UnsignedInt8), 1)
    else if format == P016 then
      var cf := if bitdepth == 10 then Some(Y10V10U10_420Semiplanar)
                else if bitdepth == 12 then Some(Y12V12U12_420Semiplanar)
                else None;
      FrameFormat(cf, Some(UnsignedInt16), 2)
    else FrameFormat(None, None, 1)
  }

  /** What the external-memory export reports for the two planes. */
  datatype PlaneExport = PlaneExport(fd: int, offset: int, stride: int, modifier: nat)
  datatype EglExport = EglExport(fourcc: nat, luma: PlaneExport, chroma: PlaneExport)

  datatype DrmObject = DrmObject(fd: int, size: nat, modifier: nat)
  datatype DrmLayer = DrmLayer(drmFormat: nat, numPlanes: nat, objectIndex: nat, offset: int, pitch: int)
  datatype SurfaceDescriptor = SurfaceDescriptor(
    fourcc: nat, width: nat, height: nat, objects: seq<DrmObject>, layers: seq<DrmLayer>)

  /** The descriptor nvExportSurfaceHandle fills: two objects (full-size
      luma, half-height chroma), two single-plane layers each on its own
      object; 8-bit component formats for NV12, 16-bit otherwise. */
  function BuildDescriptor(width: nat, height: nat, bpp: nat, egl: EglExport): (d: SurfaceDescriptor)
    ensures |d.objects| == 2 && |d.layers| == 2
    ensures d.fourcc == egl.fourcc && d.width == width && d.height == height
    ensures forall i :: 0 <= i < 2 ==> d.layers[i].objectIndex == i && d.layers[i].numPlanes == 1
    ensures d.objects[0].fd == egl.luma.fd && d.objects[1].fd == egl.chroma.fd
    ensures d.objects[0].modifier == egl.luma.modifier && d.objects[1].modifier == egl.chroma.modifier
    ensures d.layers[0].offset == egl.luma.offset && d.layers[0].pitch == egl.luma.stride
    ensures d.layers[1].offset == egl.chroma.offset && d.layers[1].pitch == egl.chroma.stride
    ensures d.objects[0].size == width * height * bpp
    ensures d.objects[1].size == width * (height / 2) * bpp
    ensures d.layers[0].drmFormat == (if egl.fourcc == DRM_FORMAT_NV12 then DRM_FORMAT_R8 else DRM_FORMAT_R16)
    ensures d.layers[1].drmFormat == (if egl.fourcc == DRM_FORMAT_NV12 then DRM_FORMAT_RG88 else DRM_FORMAT_RG1616)
  {
    var nv12 := egl.fourcc == DRM_FORMAT_NV12;
    SurfaceDescriptor(
      egl.fourcc, width, height,
      [DrmObject(egl.luma.fd, width * height * bpp, egl.luma.modifier),
       DrmObject(egl.chroma.fd, width * (height / 2) * bpp, egl.chroma.modifier)],
      [DrmLayer(if nv12 then DRM_FORMAT_R8 else DRM_FORMAT_R16, 1, 0, egl.luma.offset, egl.luma.stride),
       DrmLayer(if nv12 then DRM_FORMAT_RG88 else DRM_FORMAT_RG1616, 1, 1, egl.chroma.offset, egl.chroma.stride)])
  }

  /** The layer formats follow the exported fourcc: an NV12 frame is
      described as an R8 luma layer and an RG88 chroma layer, any other
      frame as R16 and RG1616. */
  lemma DescriptorLayerFormats(width: nat, height: nat, bpp: nat, egl: EglExport)
    ensures var d := BuildDescriptor(width, height, bpp, egl);
      && (egl.fourcc == DRM_FORMAT_NV12 <==> d.layers[0].drmFormat == DRM_FORMAT_R8 && d.layers[1].drmFormat == DRM_FORMAT_RG88)
      && (egl.fourcc != DRM_FORMAT_NV12 <==> d.layers[0].drmFormat == DRM_FORMAT_R16 && d.layers[1].drmFormat == DRM_FORMAT_RG1616)
  {
  }

  /** An exported surface and a client image of the same size and sample
      width describe the same planes: the luma object is exactly the image's
      luma plane, and the chroma object fits in the image's chroma plane
      (exactly, for an even height). */
  lemma {:induction false} DescriptorMatchesImage(width: nat, height: nat, fourcc: nat, egl: EglExport)
    ensures var l := ImageLayoutFor(width, height, fourcc);
      var d := BuildDescriptor(width, height, ImageBytesPerPixel(fourcc), egl);
      && d.objects[0].size == l.offsets[1]
      && d.objects[0].size + d.objects[1].size <= l.dataSize
      && (height % 2 == 0 ==> d.objects[0].size + d.objects[1].size == l.dataSize)
  {
    var bpp := ImageBytesPerPixel(fourcc);
    HalfRowsFit(width, height);
    MulDistributes(width * height, width * height / 2, bpp);
    MulMonotone(width * (height / 2), width * height / 2, bpp);
  }

  /** A surface created for a bit depth exports with the same sample width
      as the client image format the driver offers for that depth. */
  lemma ExportWidthMatchesImageFormat(rt: bv32)
    requires KnownRtFormat(rt)
    ensures var (sf, depth) := SurfaceFormatForRt(rt).value;
      var fourcc := if depth == 8 then VA_FOURCC_NV12 else if depth == 10 then VA_FOURCC_P010 else VA_FOURCC_P012;
      ExportFrameFormat(sf, depth).bpp == ImageBytesPerPixel(fourcc)
  {
    assert VA_FOURCC_NV12 != VA_FOURCC_P010 && VA_FOURCC_NV12 != VA_FOURCC_P012;
  }
}
