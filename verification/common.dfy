/** Shared vocabulary of the driver model: the optional value used for every
    lookup, byte strings, the status codes the driver returns, and the
    enumerations of the video-acceleration and decode-engine interfaces that
    the bookkeeping compares against. */
module Common {

  /** A lookup that may miss; stands for a C pointer that may be NULL. */
  datatype Option<+T> = None | Some(value: T)

  type byte = bv8

  /** The subset of VAStatus values the modelled operations return. */
  datatype Status =
    | Success
    | OperationFailed
    | AllocationFailed
    | InvalidConfig
    | UnsupportedProfile
    | UnsupportedRtFormat
    | DecodingError

  /** Handles are unsigned 32-bit integers; this value means "no object". */
  const VA_INVALID_ID: nat := 0xffff_ffff

  /** VAProfile is an open C enum; the driver only ever compares it for
      equality, and singles out HEVC Main 10. */
  type Profile = int
  const VAProfileHEVCMain10: Profile := 18

  /** Render-target formats (VA_RT_FORMAT_*), a bit mask. */
  const VA_RT_FORMAT_YUV420: bv32 := 0x1
  const VA_RT_FORMAT_YUV420_10: bv32 := 0x100
  const VA_RT_FORMAT_YUV420_12: bv32 := 0x1000

  /** Config attribute types (VAConfigAttribType) the driver recognises. */
  const VAConfigAttribRTFormat: int := 0
  const VAConfigAttribMaxPictureWidth: int := 18
  const VAConfigAttribMaxPictureHeight: int := 19

  /** Decode-engine codec enumeration; `CodecNone` is the "not owned" answer. */
  datatype CudaCodec =
    | CodecNone | MPEG1 | MPEG2 | MPEG4 | VC1 | H264 | JPEG | H264SVC | H264MVC
    | HEVC | VP8 | VP9 | AV1

  /** Decode-engine output surface formats (cudaVideoSurfaceFormat). */
  datatype SurfaceFormat = NV12 | P016 | YUV444 | YUV444_16Bit

  /** Decode-engine chroma layouts (cudaVideoChromaFormat). */
  datatype ChromaFormat = Monochrome | Chroma420 | Chroma422 | Chroma444

  /** Four-character codes, little-endian: the first character is the low byte. */
  function FourCC(a: char, b: char, c: char, d: char): (code: nat)
    requires a < 256 as char && b < 256 as char && c < 256 as char && d < 256 as char
    ensures code < 0x1_0000_0000
    ensures code % 256 == a as nat && code / 0x100_0000 == d as nat
  {
    a as nat + b as nat * 0x100 + c as nat * 0x1_0000 + d as nat * 0x100_0000
  }

  const VA_FOURCC_NV12: nat := FourCC('N', 'V', '1', '2')
  const VA_FOURCC_P010: nat := FourCC('P', '0', '1', '0')
  const VA_FOURCC_P012: nat := FourCC('P', '0', '1', '2')

  const DRM_FORMAT_NV12: nat := FourCC('N', 'V', '1', '2')
  const DRM_FORMAT_R8: nat := FourCC('R', '8', ' ', ' ')
  const DRM_FORMAT_R16: nat := FourCC('R', '1', '6', ' ')
  const DRM_FORMAT_RG88: nat := FourCC('R', 'G', '8', '8')
  const DRM_FORMAT_RG1616: nat := FourCC('R', 'G', '3', '2')

  /** C's logical negation on an int flag. */
  function Not(x: int): (r: int)
    ensures r == 0 || r == 1
    ensures r == 1 <==> x == 0
  {
    if x == 0 then 1 else 0
  }
}
