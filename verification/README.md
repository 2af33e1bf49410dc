# nvidia-vaapi-driver bookkeeping, modelled in Dafny

This project models the part of the NVDEC-backed VA-API driver
(`vabackend.c`) that keeps state. The device work of decoding, mapping and
exporting frames is left out. The model covers:

- **Object registry** (`objects.dfy`, module `Objects`). Typed objects live in
  a singly linked list and are looked up by handle id or by payload address.
  Ids come from a counter that only ever increases.
- **Growable byte accumulator** (`accumulator.dfy`, module `Accumulator`).
  This is the `AppendableBuffer` a decode context collects bitstream bytes and
  slice offsets in.
- **Codec module chain** (`codecs.dfy`, module `Codecs`). Modules are
  registered by prepending. Two lookups scan the chain: profile-to-codec
  resolution keeps the first answer, and context binding keeps the last
  module that lists the profile.
- **Format tables and plane arithmetic** (`formats.dfy`, module `Formats`):
  - config formats, render-target formats and the advertised RT format;
  - the pixel format chosen from the engine's output-format mask;
  - the client image layout;
  - the two-layer DRM PRIME descriptor of an exported surface.
- **Driver object lifecycle** (`driver.dfy`, module `Driver`):
  - configs and config/surface attribute queries;
  - surface creation;
  - context creation (codec binding and picture indices);
  - context teardown order.
- **Per-picture state machine** (`picture.dfy`, module `Picture`): begin,
  render (dispatch through the handler table) and end (submit, reset the
  accumulators, record interlacing on success).
- **Client images and surface export** (`images.dfy`, module `Images`): image
  create and destroy, and the export descriptor of a surface.
- **Shared vocabulary** (`common.dfy`, module `Common`): status codes and the
  VA, decode-engine and DRM constants.

The model follows these conventions:

- **State as values.** The driver is an immutable value `NVDriver(reg,
  codecs)`, and every entry point is a function or method from driver to
  driver.
- **The list as a sequence.** The C list is a sequence in list order.
  Allocation appends and deletion removes one position.
- **Addresses.** A payload block's address is an abstract counter-drawn
  address, so the lookups by pointer (`getObjectByPtr`, the context's
  `render_target`) are modelled faithfully.
- **Device calls as oracles.** Each device call is a parameter:
  - decoder creation is an `Option<Decoder>`;
  - decode and destroy outcomes are booleans;
  - the capability query is a function returning an optional capability
    record;
  - what the external-memory export reports is an `EglExport` record.
- **Handlers as a function.** The codec handlers are a function parameter
  over the context's picture state.
- **NULL dereferences as preconditions.** Where the C code dereferences a
  lookup without a NULL check, the model requires the object to be present
  and of the right kind.
- **Driver invariant (`Driver.Inv`).** Every operation keeps it:
  - ids increase along the list and stay below the counter;
  - the counter stays below `VA_INVALID_ID`;
  - addresses are unique;
  - every object's payload matches its type tag.

Three behaviours of the code a caller might not expect:

- `nvCreateConfig` never fails. It stores `vaToCuCodec`'s answer, which may
  be "none", without checking it (vabackend.c:378-417).
- `nvGetConfigAttributes` does not echo stored attributes. It fills in the
  RT format and the maximum sizes from the profile and a capability query,
  and refuses a profile no module maps (vabackend.c:337-376).
- Context binding does not take the first module that claims the profile.
  It takes the last module in the chain whose supported-profile list
  contains it (vabackend.c:597-604), while `vaToCuCodec` takes the first
  module (vabackend.c:189-200). `Codecs.ScansPickDifferentModules` states
  that the two lookups disagree.

## Model

| member | source | states |
|---|---|---|
| Objects.AllocateObject | vabackend.c:111-134 | the new object gets id = old counter + 1 and the counter moves to it; it has a block address exactly when a positive size is asked for; it is appended at the tail; every older id is smaller; the registry invariant is kept |
| Objects.GetObject | vabackend.c:136-145 | a hit is an object of the list carrying that id and never happens for VA_INVALID_ID; a miss happens exactly when the id is VA_INVALID_ID or no object carries it |
| Objects.GetObjectByPtr | vabackend.c:147-156 | a hit is an object whose block is at the given non-NULL address; a miss happens exactly when the address is NULL or no object has it |
| Objects.DeleteObject | vabackend.c:158-178 | nothing changes for VA_INVALID_ID, an empty list or an absent id; otherwise exactly the first object with the id is removed, the others keep their order, and the counters are unchanged |
| Objects.GetObjectFindsUnique | vabackend.c:136-145 | under the invariant, looking up the id of any listed object returns that object |
| Objects.GetObjectByPtrFindsUnique | vabackend.c:147-156 | under the invariant, looking up any listed object's block address returns that object |
| Objects.PtrThenId | vabackend.c:136-156 | a lookup by address followed by a lookup by the found id lands on the same object |
| Objects.IdThenPtr | vabackend.c:136-156 | a lookup by id followed by a lookup by the found block address lands on the same object |
| Objects.AllocateThenGet | vabackend.c:111-145 | after allocation the fresh id resolves to the new object and every other id resolves as before |
| Objects.AllocateLookups | vabackend.c:111-145 | the same as AllocateThenGet, for all other ids at once |
| Objects.DeleteObjectSpec | vabackend.c:136-178 | deletion keeps the invariant, the deleted id then resolves to nothing, and every other id resolves as before |
| Objects.DeleteLookups | vabackend.c:136-178 | the same as DeleteObjectSpec, for all other ids at once |
| Objects.DeleteLast | vabackend.c:158-178 | deleting the most recently appended object restores the list as it was before that append |
| Objects.DeleteLastTwo | vabackend.c:158-178 | deleting the last two objects, newest first, restores the list as it was before both were appended |
| Objects.IdsFromStart | vabackend.c:111-178 | from the zero-initialised driver, every id a run of allocations and deletions hands out is positive, at most the final counter, and distinct from every other |
| Objects.IdsNeverReused | vabackend.c:111-178 | over any run of allocations and deletions the ids handed out strictly increase and all exceed the starting counter, so no id is issued twice; the invariant holds throughout |
| Accumulator.Appended | vabackend.c:83-100 | reference append, corrected so that a block of capacity 0 counts as first use like a NULL one: contents become old contents followed by the data; size grows by the data length; capacity never shrinks; a first block has capacity twice the data length; an in-place append keeps the capacity and the bytes after the new size |
| Accumulator.Grown | vabackend.c:89-92 | the capacity after the growth loop is at least the old capacity and the needed size, is unchanged when the need already fits, and overshoots the need by less than half of it |
| Accumulator.GrowCapacity | vabackend.c:89-92 | the growth loop computes Grown |
| Accumulator.CopyInto | vabackend.c:98 | the data is written at the offset and every other byte of the block is unchanged |
| Accumulator.AppendBuffer | vabackend.c:83-100 | the three branches of appendBuffer (first block, grow and copy, write in place), corrected so that a block of capacity 0 counts as first use, compute the reference Appended |
| Accumulator.FreeBuffer | vabackend.c:102-109 | afterwards there is no block; a valid accumulator becomes the zeroed one; an accumulator without a block is left as it was |
| Accumulator.ResetSize | vabackend.c:794-795 | the contents become empty while the block and its capacity are kept |
| Accumulator.FreeBufferIdempotent | vabackend.c:102-109 | freeing twice is freeing once |
| Accumulator.ResetThenAppendReusesBlock | vabackend.c:83-100 | after a reset, data that fits the kept capacity is accumulated without a new block, and the contents are exactly that data |
| Accumulator.AppendTwice | vabackend.c:83-100 | two appends accumulate the same contents as one append of the concatenation |
| Accumulator.AppendAllContents | vabackend.c:83-100 | a run of appends accumulates the concatenation of the pieces, and the size is their total length |
| Accumulator.GrowAsWritten | vabackend.c:89-92 | the growth loop as written, with a step budget: when it finishes, the result covers the need and the old capacity |
| Accumulator.GrowFromZeroStalls | vabackend.c:89-92 | from capacity zero the growth loop as written never reaches a positive need, whatever the budget |
| Accumulator.ZeroLengthFirstAppendHangs | vabackend.c:83-100 | as written, a zero-length first append leaves a live block of capacity zero, and the next non-empty append never finishes; the corrected append accumulates the data |
| Codecs.HandlerFor | vabackend.c:772-773 | a buffer type has a handler exactly when the module's table has an entry for it, and the handler is that entry |
| Codecs.RegisterCodec | vabackend.c:76-81 | the new module heads the chain, followed by the old chain in order |
| Codecs.VaToCuCodec | vabackend.c:189-200 | "none" means no module maps the profile; any other answer is the answer of a module before which every module answered "none" |
| Codecs.LastSupporting | vabackend.c:597-604 | the index found lists the profile and no later module does; None means no module lists it |
| Codecs.FindContextCodec | vabackend.c:597-604 | the nested scan whose break only leaves the inner loop finds the last module listing the profile |
| Codecs.ScansPickDifferentModules | vabackend.c:597-604 | when modules i < j both claim a profile, profile resolution answers from a module at or before i, while the context binds to a module at or after j |
| Codecs.RegisterCodecResolution | vabackend.c:76-81 | after registering a module, codec resolution answers with the new module whenever it maps the profile, and otherwise as the older chain did |
| Codecs.RegisterCodecBinding | vabackend.c:76-81 | after registering a module, context binding still picks the older module that lists the profile (its position shifted by one), and the new module only when no older one lists it |
| Formats.ConfigFormatFor | vabackend.c:404-412 | the chroma is always 4:2:0; the depth is 10 exactly for HEVC Main 10 and 8 otherwise; NV12 goes with depth 8 and P016 otherwise |
| Formats.SurfaceFormatForRt | vabackend.c:478-490 | exactly the three 4:2:0 render-target formats are accepted; NV12 goes with depth 8 and P016 with depths 10 and 12 |
| Formats.SurfaceFormatRoundTrip | vabackend.c:478-490 | the render-target table and its inverse by depth agree in both directions |
| Formats.RtFormatAttribute | vabackend.c:353-359 | the advertised value always has the 4:2:0 bit, has the 10-bit 4:2:0 bit exactly for HEVC Main 10, and never has the 12-bit bit nor any bit besides these two |
| Formats.AdvertisedFormatsCreatable | vabackend.c:353-359 | every render-target format bit the driver advertises for a profile is one that surface creation accepts |
| Formats.AdvertisedFormatMatchesConfig | vabackend.c:353-359 | the render-target format for a config's depth is advertised for its profile, and creating surfaces in it yields exactly the config's surface format and depth |
| Formats.SurfacePixelFormat | vabackend.c:1257-1269 | each pixel-format answer holds exactly when its chroma, depth and mask-bit conditions hold, in the code's order of precedence; a non-4:2:0 chroma is refused |
| Formats.PixelFormatFitsConfig | vabackend.c:1257-1269 | for any config the driver builds, the answer is never an unknown chroma or P012, and a 2-byte format is offered only to the 10-bit config |
| Formats.ImageBytesPerPixel | vabackend.c:912-915 | 2 bytes per sample exactly for P010 and P012, 1 otherwise |
| Formats.ImageLayoutFor | vabackend.c:922-952 | two planes with equal pitches of width times bytes per pixel; the first offset is 0 |
| Formats.ImagePlanesFit | vabackend.c:922-952 | the chroma plane starts right after the luma rows; its half-height rows fit in the buffer; the buffer ends exactly at the chroma samples |
| Formats.ExportFrameFormat | vabackend.c:1486-1505 | 2 bytes per sample exactly for P016 (16-bit array format), 1 otherwise; a colour format is set for NV12 and for P016 at depth 10 or 12 only |
| Formats.BuildDescriptor | vabackend.c:1664-1689 | two objects and two single-plane layers, each layer on its own object; the luma object size is w·h·bpp and the chroma size is w·(h>>1)·bpp; fds, modifiers, offsets and pitches come from the export; the layers are R8/RG88 for an NV12 export and R16/RG1616 otherwise |
| Formats.DescriptorLayerFormats | vabackend.c:1679-1685 | the layers are R8 and RG88 exactly when the exported fourcc is NV12, and R16 and RG1616 exactly when it is not |
| Formats.DescriptorMatchesImage | vabackend.c:1672-1676 | an exported surface's luma object is exactly a same-size client image's luma plane, and both objects fit in the image buffer (exactly, for an even height) |
| Formats.ExportWidthMatchesImageFormat | vabackend.c:1486-1505 | a surface created for a render-target format exports with the sample width of the client image format for its depth |
| Driver.PictureIdxFromSurfaceId | vabackend.c:180-187 | a surface's picture index for a surface id, and -1 for any id that is not a surface |
| Driver.AllocateKeepsInv | vabackend.c:111-134 | registering a payload of the matching type keeps the driver invariant; the new id resolves to it and the others as before |
| Driver.DeleteKeepsInv | vabackend.c:158-178 | unregistering any id keeps the driver invariant; the id then resolves to nothing and the others as before |
| Driver.CreateConfig | vabackend.c:378-417 | always succeeds with the next id; the config keeps the profile, entrypoint and attributes; its codec is the chain's resolution, unchecked; its formats come from the profile table; no other id changes |
| Driver.GetConfigAttributes | vabackend.c:337-376 | UnsupportedProfile exactly when no module maps the profile; otherwise the RT format is filled in, the maximum width and height come from an 8-bit 4:2:0 capability query when it succeeds, and every other attribute is unchanged |
| Driver.QuerySurfaceAttributes | vabackend.c:1227-1293 | without a list only the count 5; a failed query is OperationFailed; a non-4:2:0 config is InvalidConfig; otherwise the pixel format from the mask plus the reported minimum and maximum sizes |
| Driver.CreateSurfaces2 | vabackend.c:460-506 | an unknown format is UnsupportedRtFormat with nothing registered; otherwise n consecutive new ids, each a surface with the requested size, the table's format and depth, and picture index -1; older ids are unchanged |
| Driver.AllocateSurfaces | vabackend.c:492-503 | the allocation loop registers n surfaces with consecutive ids and keeps the invariant and all older lookups |
| Driver.LastIndexOf | vabackend.c:609-614 | the position of the last occurrence of an id in a list, -1 exactly when it is absent |
| Driver.AssignPictureIndices | vabackend.c:609-614 | after the loop, every surface listed as a target carries the position of its last occurrence; every other object and the list shape are unchanged |
| Driver.CreateContext | vabackend.c:539-617 | a failed decoder creation is AllocationFailed with nothing registered; otherwise a new context bound to the last module listing the profile, target i gets index i (the later index for a repeated target), and no other object changes |
| Driver.DistinctTargetsGetOwnIndex | vabackend.c:609-614 | with distinct targets, target i gets exactly index i |
| Driver.Released | vabackend.c:630-633 | the context's decoder handle is cleared and both accumulators are released |
| Driver.Unregister | vabackend.c:630-637 | after release the context is unregistered; the invariant holds and every other id resolves as before |
| Driver.TeardownSteps | vabackend.c:626-648 | teardown releases both accumulators and then unregisters the context; it destroys a decoder exactly when the context held one, and always after the unregistering |
| Driver.DestroyContext | vabackend.c:619-651 | the context is always unregistered; OperationFailed exactly when it had a decoder whose destruction failed; the decoder is destroyed exactly when present, and only after the context is unregistered |
| Picture.BeginPicture | vabackend.c:735-749 | the parameters are zeroed and the bound target resolves back to the given id; the rest of the context and every other object are unchanged |
| Picture.DispatchBuffers | vabackend.c:767-778 | the dispatch loop computes the reference RenderAll over the buffers in order |
| Picture.RenderPicture | vabackend.c:751-780 | the context's picture state becomes the buffers' effect in order; nothing else changes |
| Picture.RenderAllConcat | vabackend.c:767-778 | rendering two buffer lists in turn is rendering their concatenation |
| Picture.RenderSkipsUnhandled | vabackend.c:772-777 | buffers whose type has no handler have no effect |
| Picture.RenderKeepsBinding | vabackend.c:751-780 | rendering keeps the bound target and the decoder |
| Picture.EndPicture | vabackend.c:782-813 | the submitted parameters are the ones the handlers filled in, with the target's picture index and the two accumulated blocks; the context keeps them and every other field except the accumulators, which end empty but keep block and capacity; success records decoder and interlacing on the target; failure is DecodingError with the target unchanged; no other object changes |
| Picture.BeginRenderEndSubmitsTargetIndex | vabackend.c:746-797 | begin, render, end: the target still resolves to the given surface and the submitted index is the picture index that surface had |
| Images.CreateImage | vabackend.c:891-955 | an image and then its buffer get the next two ids and are appended at the tail of the list, image first, with the older entries in place; the image links to the buffer's block; the buffer is of image type with one element and the layout's size; the returned layout is the format's; no other id changes |
| Images.DestroyImage | vabackend.c:968-986 | the image and the buffer its link resolves to (if any) are unregistered; every other id resolves as before |
| Images.LinkImage | vabackend.c:926 | only the image's buffer link changes; the invariant holds; the link resolves, by address, to the buffer object; every other id and every other list entry is unchanged |
| Images.DestroyLinkedImage | vabackend.c:976-983 | with a resolving link, destruction deletes the buffer and then the image |
| Images.DestroyTailImage | vabackend.c:968-986 | destroying an image that sits just before its buffer at the tail restores the list before them |
| Images.CreateThenDestroyImage | vabackend.c:891-986 | creating an image and destroying it again restores the object list |
| Images.ExportSource | vabackend.c:1635-1646 | a scratch allocation exactly when the surface has no picture index; otherwise the decoder's frame at that index with the recorded interlacing |
| Images.ExportSurfaceHandle | vabackend.c:1614-1692 | the descriptor has the surface's size and the exported fourcc, two objects and two layers, and object sizes at 2 bytes per sample exactly for P016 |
| Images.ExportFitsImage | vabackend.c:1672-1676 | a surface created for a render-target format exports planes that fit a same-size client image of the matching pixel format |
| Images.DecodedTargetExportsMappedFrame | vabackend.c:807-810 | after a successful decode, the target is exported from the decoder's frame at the submitted index, with the interlacing of the submitted picture |

## Left out

- Device and graphics calls (`cuvidCreateDecoder`, `cuvidDecodePicture`,
  `cuvidDestroyDecoder`, `cuvidGetDecoderCaps`, `cuvidMapVideoFrame`,
  `cuMemAlloc`): each is an oracle parameter (success flag, optional handle
  or capability record), not a model of the device.
- The EGLStream pipeline in `exportCudaPtr` (frame present/return, the
  consumer-event loop, the DMA-BUF export): it is graphics-stack I/O with
  process-wide mutable state. What it reports is the `EglExport` parameter.
  Only its bytes-per-pixel and colour-format choice is modelled.
- `checkCudaErrors` with its `exit`, and all logging: process termination
  and I/O.
- Driver initialisation and vtable wiring (`__vaDriverInit_1_0`, EGL setup)
  and `nvTerminate`: bootstrapping.
- `nvQueryConfigProfiles` and `nvQueryConfigEntrypoints`: static tables
  gated by device capability queries.
- The codec modules' buffer handlers: they live in codec headers that are
  not part of this model. They are a function parameter that sees the
  context's picture state, the buffer, and the driver as it was when the
  render call began.
- `nvCreateBuffer`, `nvMapBuffer`, `nvDestroyBuffer`, `nvDestroyConfig`,
  `nvDestroySurfaces`, `nvGetImage` and `nvQueryConfigAttributes`: entry
  points outside the modelled core. Buffers are taken as already registered.
- The unimplemented and empty entry points (subpictures, display
  attributes, multi-frame contexts, surface lock/unlock, `nvPutSurface`,
  `nvPutImage`, `nvDeriveImage`, and the sync and status stubs).
- 32-bit handle wrap-around: ids are unbounded naturals. Each allocating
  operation requires that the counter stay below `VA_INVALID_ID`, which the
  C counter would otherwise wrap past.
- Objects.AllocateObject: `calloc` failure, and the zero size the driver
  never asks for, are not modelled as separate failure paths.
- Images.CreateImage: the size `(w·h + w·h/2)·bpp` is computed without C
  `int` overflow. Widths and heights are naturals, while the C parameters
  are signed.
- Accumulator.Appended: freshly allocated bytes that nothing has written are
  indeterminate in C; the model fills them with zeros. The same holds for
  the image buffer in Images.CreateImage.
- Picture.EndPicture: the model requires the bound target to be a surface.
  `nvBeginPicture` binds any object's block without checking its type, and
  `nvEndPicture` then reads it as a surface.
- Picture.RenderPicture: the model requires the context to have a codec
  module and every id to name a buffer. The C code dereferences both without
  checks. A buffer type beyond the handler table's bounds is treated as
  having no handler. The result of the unused `vaToCuCodec` call is not
  modelled.
- Driver.CreateContext: the decode-engine creation parameters (sizes,
  formats, surface counts) passed to `cuvidCreateDecoder` are not modelled.
  Only whether creation succeeded, and the handle, are.
- Accumulator.AppendBuffer: it models the corrected append, in which a live
  block of capacity 0 counts as first use (`NeedsFirstBlock`). At
  vabackend.c:85 the C code tests only for a NULL block. The append as
  written is `Accumulator.AppendAsWritten`, and the Findings below show
  where the two differ.
- Driver.CreateConfig: at vabackend.c:394 the C config keeps the client's
  `attrib_list` pointer itself, not a copy. The model stores the attribute
  values. Nothing in the modelled core reads them back, so aliasing with
  the client's array is not modelled.
- Formats.BuildDescriptor: the object sizes `w·h·bpp` and `w·(h>>1)·bpp`
  (vabackend.c:1672, 1676) are unbounded naturals. C stores them in a 32-bit
  `uint32_t` field, which wraps modulo 2^32 for very large surfaces.
- Images.ExportSurfaceHandle: the descriptor's object sizes are unbounded
  naturals, with the same 32-bit wrap left out as in Formats.BuildDescriptor.
- Formats.ImageLayoutFor: the pitches `w·bpp` and the chroma offset `w·h·bpp`
  (vabackend.c:945-952) are unbounded naturals. C computes them in `int` and
  stores them in 32-bit fields, so they can overflow for very large images.
- Images.ExportSurfaceHandle: the mapping and unmapping of the frame and the
  scratch allocation are not modelled, only which of the two happens
  (`Images.ExportSource`) and the descriptor built afterwards.

## Findings

| source | as written | input that shows it | evidently intended | confidence | as-written member | corrected member |
|---|---|---|---|---|---|---|
| vabackend.c:83-100 | only a NULL block counts as first use, so a zero-length first append allocates a block of capacity 0; the next growth loop `allocated += allocated >> 1` then never grows from 0 and never ends | a fresh accumulator, append 0 bytes, then append 1 byte (with an allocator that returns a non-NULL block for size 0) | a block of capacity 0 is allocated afresh like a missing one, so the second append stores its byte | not executed | Accumulator.ZeroLengthFirstAppendHangs | Accumulator.AppendBuffer |
