# libffbb capture pipeline, modelled in Dafny

This project models the core of `src/ffcamapi.cpp` in libffbb. That file
implements a camera-to-encoder pipeline:

- **Viewfinder callback.** `ffcamera_vfcallback` receives NV12 camera frames.
  It drops every frame that is not NV12 or that arrives while the pipeline
  is not running. It repacks each remaining frame into a tightly packed
  I420 (YUV420P) buffer and appends it to a frame queue.
- **Lifecycle.** `ffcamera_init`, `ffcamera_start`, `ffcamera_stop` and
  `ffcamera_close` manage a running flag, a frame counter and the codec
  context. `ffcamera_default_codec` builds a default encoder configuration.
- **Encoding thread.** `encoding_thread` encodes each queued frame, using
  the next counter value as its presentation time. It routes every packet
  the encoder produces to a write callback or a file descriptor. It then
  flushes the encoder until the encoder reports no packet.

Modules:

- `Layout` (`layout.dfy`): the byte layout of both surfaces.
  - Row offsets are running sums (`RowOffset`), proved equal to the C
    products.
  - `Wrap32` gives the `uint32_t` value of a product.
  - `NoWrap` states exactly when none of the converter's `uint32_t`
    products wraps: `width * height * 3`, and `i * stride` for each row
    `i < height`.
  - The lemmas place every sample of the packed surface.
- `Converter` (`converter.dfy`): the repacking, written imperatively over
  arrays like the C loops.
  - `Convert` allocates the packed buffer.
  - `CopyLuma` copies the luma plane row by row, skipping the stride
    padding.
  - `SplitChroma` and `SplitChromaRow` walk the interleaved chroma rows
    with `destu` and `destv` cursors.
  - `IsConversionOf` states which source byte each packed byte holds.
- `Pipeline` (`pipeline.dfy`): the result codes, `ffcamera_default_codec`,
  and the lifecycle.
  - The lifecycle has pure specification functions (`StartSpec`,
    `StopSpec`, `CloseSpec`).
  - Classes `Context` and `Reserved` carry the fields the C code updates.
  - Their methods are proved against those functions.
  - `VfCallback` is the enqueue guard around `Convert`.
- `Worker` (`worker.dfy`): the encoding thread, run sequentially.
  - The encoder is an oracle: the results of its successive calls are
    given as a sequence.
  - `Drain` and `Flush` are the two loops. `EncodingThread` composes them.
  - Each is proved to emit exactly `Emissions(...)`: the packets of the
    calls whose result was ready, in call order, to the one sink.

### Where the header's documentation and the code disagree (the code is followed)

`public/ffcamapi.h` documents `ffcamera_start` as starting to record and
encode frames on a background thread (lines 102-106). It documents
`ffcamera_stop` as stopping the recording, after which the background thread
dies once every recorded frame has been encoded (lines 108-112). The code
does otherwise:

- **The running flag at init.** `ffcamera_init` sets the running flag
  (`src/ffcamapi.cpp` line 41), so `ffcamera_start` then answers
  `ALREADY_RUNNING` (line 104).
- **The inverted stop test.** `ffcamera_stop` tests the flag inverted
  (line 121): it refuses with `ALREADY_STOPPED` exactly when the flag is
  set. Its success branch clears a flag that is already clear.
  - `Pipeline.RunningIsPermanent` proves the consequence: once the flag is
    set, no sequence of calls clears it.
  - `Pipeline.StartNeverSucceedsAfterInit` proves that `start` never
    succeeds on an initialised context.
- **The worker's queue copy.** The worker does not encode the frames recorded
  after it starts. It copies the deque when the thread starts (line 149) and
  pops only its copy.
  - `Worker.EncodingThread` therefore leaves the shared queue unchanged.
  - With the running flag set, the thread ends up waiting on the condition
    variable for good, so it neither flushes nor dies (`parked`).

## Model

| member | source | states |
|---|---|---|
| Layout.PackedDesc | src/ffcamapi.cpp:252-258 | the converted frame keeps width and height, has `stride == width` and `uv_offset == width * height` |
| Layout.Wrap32 | src/ffcamapi.cpp:248-253 | a `uint32_t` result is below 2^32 and equals the mathematical value when that is below 2^32 |
| Layout.RowOffsetIsProduct | src/ffcamapi.cpp:263-264 | the running-sum row offset equals the product `i * pitch` the C code computes |
| Layout.NoWrapPacked | src/ffcamapi.cpp:253-259 | under `NoWrap`, neither `width * height` nor `width * height * 3` wraps in 32 bits |
| Layout.LumaSizeNoWrap | src/ffcamapi.cpp:253-270 | under `NoWrap` the `uint32_t` product `width * height`, where the chroma planes start, is the true luma size |
| Layout.NoWrapRow | src/ffcamapi.cpp:261-264 | under `NoWrap`, the luma row offsets `i * stride` and `i * width` do not wrap for any row `i < height` |
| Layout.LumaRowOffsets | src/ffcamapi.cpp:261-265 | the wrapped offsets `doff` and `soff` of luma row `i` are the true row offsets, and the destination row lies inside the luma plane |
| Layout.RowBefore | src/ffcamapi.cpp:261-266 | in row-major order a sample of an earlier row lies below the start of every later row |
| Layout.ChromaPlaneFits | src/ffcamapi.cpp:259-272 | the `(h/2) * (w/2)` chroma samples fit in the `w*h/4` bytes reserved per chroma plane, and luma plus both chroma planes fit in `w*h*3/2` bytes, for odd sizes too |
| Layout.PlanesDisjoint | src/ffcamapi.cpp:259-279 | every luma, U and V sample the converter writes lies in one of three disjoint ranges, in that order, inside the packed buffer |
| Layout.LumaTile | src/ffcamapi.cpp:261-266 | every offset `k` of the luma plane is the destination of the sample in row `k / w`, column `k % w` |
| Layout.UTile | src/ffcamapi.cpp:269-279 | for even sizes, every offset of the U plane is the destination of some chroma sample |
| Layout.VTile | src/ffcamapi.cpp:270-279 | for even sizes, every offset of the V plane, up to the end of the buffer, is the destination of some chroma sample |
| Layout.EvenQuarters | src/ffcamapi.cpp:259-270 | for even sizes the packed buffer is exactly the luma plane plus two planes of `(h/2) * (w/2)` bytes |
| Layout.LumaSkipsPadding | src/ffcamapi.cpp:261-266 | every luma byte read lies in column `j < width` of source row `i`, so no stride padding is copied |
| Converter.Memcpy | src/ffcamapi.cpp:265 | `n` bytes copied from `src + soff` to `dst + doff`; every other destination byte unchanged |
| Converter.Convert | src/ffcamapi.cpp:247-281 | a fresh buffer of `width*height*3/2` bytes holding the packed I420 image of the camera bytes (`IsConversionOf`), described by `PackedDesc` |
| Converter.CopyLuma | src/ffcamapi.cpp:261-266 | every luma sample `(i, j)` is copied from `i*stride + j` to `i*width + j`; nothing past the luma plane is written |
| Converter.CopyLumaRow | src/ffcamapi.cpp:262-266 | one pass of the luma loop copies row `i` at the `uint32_t` offsets `i*stride` and `i*width`, keeps the earlier rows and writes nothing past the luma plane |
| Converter.LumaRowsKept | src/ffcamapi.cpp:268-281 | the chroma loop, which leaves the luma plane alone, keeps the luma rows already copied |
| Converter.SplitChroma | src/ffcamapi.cpp:268-281 | every chroma pair `(i, j)` is split, its even byte to U and its odd byte to V; the luma plane is untouched |
| Converter.SplitChromaRow | src/ffcamapi.cpp:274-279 | the inner loop splits the `width/2` pairs of row `i`, writes only the `width/2` bytes after each cursor, and leaves each cursor advanced by `width/2` |
| Converter.ChromaRowAppend | src/ffcamapi.cpp:272-281 | splitting row `i` keeps the earlier chroma rows and completes row `i` |
| Converter.ChromaRowBounds | src/ffcamapi.cpp:269-280 | the U row ends below the V plane, the V row ends inside the buffer, and the next source row starts `stride` bytes further on |
| Converter.ChromaPairStep | src/ffcamapi.cpp:277-278 | writing pair `j` through `destu` and `destv` keeps the earlier pairs of the row and completes pair `j` |
| Converter.LumaSample | src/ffcamapi.cpp:261-266 | in a converted frame `out[i*width + j] == src[i*stride + j]` for every row `i < height` and column `j < width` |
| Converter.ChromaSample | src/ffcamapi.cpp:268-281 | in a converted frame the U byte at `width*height + i*(width/2) + j` is `src[uv_offset + i*stride + 2j]` and the V byte a quarter of the luma size further on is the byte after it |
| Converter.ConversionUnique | src/ffcamapi.cpp:252-281 | for even sizes the packed buffer is fully determined by the camera bytes: two buffers satisfying `IsConversionOf` are equal |
| Pipeline.ErrorCode | public/ffcamapi.h:28-38 | the result codes are numbered from 0, and a code is 0 exactly for `FFCAMERA_OK` |
| Pipeline.DefaultCodec | src/ffcamapi.cpp:48-80 | `INVALID_DIMENSIONS` iff a size is not positive; `CODEC_NOT_FOUND` iff both encoder lookups fail; `COULD_NOT_OPEN_CODEC` iff the open fails; a codec is handed back iff the result is OK, with the requested id, size and YUV420P |
| Pipeline.InitState | src/ffcamapi.cpp:32-46 | after init there is no codec, and the running flag is set |
| Pipeline.StartSpec | src/ffcamapi.cpp:100-115 | `NOT_INITIALIZED`, `ALREADY_RUNNING`, `NO_CODEC_SPECIFIED` in source order, each iff its condition holds, and then without a state change; on OK the counter is reset and the flag set |
| Pipeline.StopSpec | src/ffcamapi.cpp:117-127 | `NOT_INITIALIZED` iff not initialised, `ALREADY_STOPPED` iff the flag is set, OK iff the flag is clear; the state never changes |
| Pipeline.CloseSpec | src/ffcamapi.cpp:82-98 | always OK; the codec context is released and the reserved state is kept |
| Pipeline.RunningIsPermanent | src/ffcamapi.cpp:104-123 | from a state with the flag set, any sequence of start, stop, close and codec assignments keeps the flag and counter, every start answers `ALREADY_RUNNING` and every stop `ALREADY_STOPPED` |
| Pipeline.StartNeverSucceedsAfterInit | src/ffcamapi.cpp:41-104 | after `ffcamera_init`, `ffcamera_start` answers `ALREADY_RUNNING` in every call sequence |
| Pipeline.Context.Init | src/ffcamapi.cpp:32-46 | the context's lifecycle state is `InitState()`, with a fresh reserved state, an empty queue, `fd == 0` and no callback |
| Pipeline.Context.Start | src/ffcamapi.cpp:100-115 | result and new state are `StartSpec` of the old state; the queue is untouched |
| Pipeline.Context.Stop | src/ffcamapi.cpp:117-127 | result and new state are `StopSpec` of the old state; the queue is untouched |
| Pipeline.Context.Close | src/ffcamapi.cpp:82-98 | on a context set up by init (lines 93-95 dereference the reserved pointer unchecked), result and new state are `CloseSpec` of the old state; fd, callback and queue are untouched |
| Pipeline.Context.VfCallback | src/ffcamapi.cpp:238-286 | any frame that is not NV12, or arrives uninitialised or not running, leaves the queue unchanged whatever its size or buffer; otherwise exactly one fresh, converted frame is appended at the tail and the earlier entries are kept |
| Worker.WorkerPlanes | src/ffcamapi.cpp:181-187 | Y at offset 0, U at `uv_offset`, V at `uv_offset` plus a quarter of the `uint32_t` product `width * height`; line sizes `width`, `width/2`, `width/2` |
| Worker.SinkOf | src/ffcamapi.cpp:199-200 | packets go to the callback iff one is set, otherwise to the context's fd |
| Worker.WorkerSeesConvertedFrame | src/ffcamapi.cpp:181-187 | reading a converted frame through the worker's plane pointers and line sizes yields the camera's luma samples and its U and V chroma bytes |
| Worker.Route | src/ffcamapi.cpp:197-201 | one packet goes to the sink iff the encoder returned 0 and set `got_packet`, otherwise nothing |
| Worker.EmissionsSplit | src/ffcamapi.cpp:160-229 | the packets of two adjacent runs of encoder calls are those of the first run followed by those of the second |
| Worker.EmissionsEmptyIff | src/ffcamapi.cpp:197-201 | a run of calls writes nothing iff none of its calls produced a ready packet |
| Worker.EmissionsFromReadyCalls | src/ffcamapi.cpp:197-201 | a run writes at most one packet per call, all to the one sink, each carrying the bytes of some ready call |
| Worker.FlushIterations | src/ffcamapi.cpp:211-229 | the do-while loop runs at least once and within the available encoder answers |
| Worker.FlushStopsAtFirstEmpty | src/ffcamapi.cpp:211-229 | the flush stops at the first answer whose `got_packet` is not positive; every earlier answer had a packet |
| Worker.FlushRunsIff | src/ffcamapi.cpp:211-229 | the loop runs exactly `n` times iff some answer is empty and `n` is `FlushIterations` |
| Worker.FlushRunsAt | src/ffcamapi.cpp:229 | within the flush, a call's answer has a packet iff the call is not the last |
| Worker.Drain | src/ffcamapi.cpp:160-206 | one encoder call per queued frame in queue order, stamped with consecutive counter values; the counter rises by the number of frames; the packets written are `Emissions` of those calls |
| Worker.Flush | src/ffcamapi.cpp:211-229 | `n` frameless encoder calls; the counter rises by `n`; the packets written are `Emissions` of those calls |
| Worker.EncodingThread | src/ffcamapi.cpp:142-236 | the shared queue is unchanged; the frame calls come first, then the flush calls unless the thread parks (iff the flag is set); the counter rises by one per call; the packets written are `Emissions` of all calls |

## Left out

- Threads, the mutex and the condition variable are not modelled.
  - `ffcamera_start` does not spawn a thread; the worker is the separate
    method `Worker.EncodingThread`, run to completion.
  - A wait on the condition variable appears only as the `parked` result.
  - `pthread_mutex_init`, `_destroy` and `pthread_cond_*` are left out.
- The codec library is left out: encoder lookup, `avcodec_open2`,
  `avcodec_encode_video2`, `avcodec_alloc_frame`, `av_free` and
  `avcodec_close`.
  - Their outcomes are parameters (`DefaultCodec`) or an oracle sequence of
    results (`Worker`).
  - The packet buffer of 10000000 bytes is not modelled.
- Output I/O is left out: `write_all`, `write(2)` and the user callback.
  A packet handed to a sink is recorded as an `Emission`, so partial writes
  and write errors are not modelled.
- `malloc` and `free` of frame structures are left out.
  - Lines 255-256 allocate the new `camera_buffer_t` header and copy into it
    `framesize` bytes from the camera's header struct. That size is the
    pixel data's size, not `sizeof(camera_buffer_t)`. The model keeps only
    the header fields the pipeline reads.
  - Releasing frames after encoding is not modelled, and nor are
    allocation failures.
- Pipeline.Context.Init: the C code allocates the reserved state with
  `malloc` (line 38) and never constructs its `std::deque frames` member.
  So `frames.clear()` (line 42), every later `push_back` (line 283) and the
  worker's copy (line 149) act on an object whose lifetime never began,
  which has no defined behaviour. The model assumes a constructed, empty
  queue (`new Reserved()`).
- Converter.Convert: requires `Nv12Fits`, the camera's promise that its
  buffer holds every byte the converter reads. These are the first `width`
  bytes of each of the `height` luma rows, and the first `2 * (width / 2)`
  bytes of each of the `height / 2` chroma rows from `uv_offset`.
  `CopyLuma`, `SplitChroma` and, for accepted frames,
  `Pipeline.Context.VfCallback` require it too. The C code never checks that
  promise (lines 261-281), and the model does not cover a buffer that
  breaks it.
- Converter.Convert: requires `NoWrap`, the condition under which none of
  the `uint32_t` products of the C code wraps. The C code does not check it.
  - A wrapped buffer size `width * height * 3 / 2` (line 259) makes the
    loops write outside the allocated buffer, which has no defined
    behaviour to model.
  - A wrapped row offset `i * stride` (line 264) makes the luma copy read
    the wrong source row. The model does not capture those wrong-row reads.
- Converter.Convert: `uv_offset` is an `int64_t` in the camera API
  (line 247), but the model takes it as a natural number. A negative offset
  would make line 268 read before the start of the camera buffer, and that
  case is not modelled.
- Converter.Convert: for odd widths or heights, the last odd row or column
  leaves gap bytes in the packed buffer that are never written. `malloc`
  leaves them indeterminate, and the model does not constrain them
  (`ConversionUnique` is stated for even sizes).
- Worker.Drain: the C `int frame_count` is modelled unbounded; signed
  overflow after 2^31 frames is not modelled.
- Worker.EncodingThread: an encoder that reports a packet on every flush
  call makes the do-while at lines 211-229 run forever. The model requires
  (`FlushRuns`, when not parked) that some answer has no packet, so that
  non-terminating run is not modelled.
- Worker.EncodingThread: the number of flush iterations is a ghost
  parameter pinned down by `FlushRuns`. `Worker.FlushRunsIff` shows it is
  the one count the encoder's answers allow.
- Worker.EncodingThread: encoder answers are not tied to the frames
  encoded. The model records the calls (`EncodeCall`) and routes whatever
  the oracle answered.
- Pipeline.Context.Close: the destruction of the mutex and condition
  variable (lines 94-95) is left out; only the release of the codec context
  is modelled.
- Pipeline.Context.Close: requires a context set up by `ffcamera_init`.
  Unlike start and stop, the C code does not test the reserved pointer, so
  on an uninitialised context lines 93-95 dereference a null pointer, which
  has no defined behaviour to model. `CloseSpec` itself answers OK there.
