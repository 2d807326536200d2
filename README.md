# SpeedyTextureReader, modelled in Dafny

This project models the texture reader of speedy-vision-js
(`src/gpu/speedy-texture-reader.js`). The reader copies the RGBA8 pixels of a
GPU texture into host memory. It has two paths:

- `readPixelsSync` reads directly into buffer 0.
- `readPixelsAsync` reads through pixel buffer objects (PBOs). In buffered
  mode it keeps N buffers. Their indices move from the producer queue, to a
  transfer in flight, to the consumer queue, and back to the producer queue.

Modules:

- `texels.dfy` (`Texels`) holds textures, rectangles and the clamping of a
  requested rectangle. It also holds `ReadRect`, the bytes that
  `readPixels` produces for a rectangle.
- `buffer_pool.dfy` (`BufferPool`) holds how buffers grow (`Grown`) and how
  a view is cut (`Subarray`). It also holds the partition invariant: every
  buffer index is in exactly one of the producer queue, the consumer queue
  and the set of transfers in flight.
- `texture_reader.dfy` (`Readback`) holds the class `SpeedyTextureReader`.
  Its buffers are an `array<seq<byte>>` whose slots are replaced. Its
  queues are `seq<nat>` fields. Transfers in flight are a map from the
  buffer index to the bytes the PBO captured.
- `scenarios.dfy` (`ReadbackScenarios`) holds client sequences of reads
  with what their callers get back.

The asynchronous parts are discrete steps, and nothing is timed. A buffered
read either starts a transfer or returns `AwaitingProducer`. It either hands
out a buffer or returns `AwaitingConsumer`. The waiting continuations are
the methods `StartProduction` and `Consume`, each with a non-empty queue as
precondition. A transfer's completion is `CompleteProductionAsWritten` (as the
source does it) or `CompleteProduction` (corrected, see Findings). WebGL is
replaced as follows:

- a pixel read is `ReadRect` of the texture's contents;
- a PBO transfer is `PboTransfer`: the PBO is as large as the output
  buffer, starts zeroed, gets the pixels at its start, and is copied out
  whole;
- context loss is a boolean parameter.

The two queues hold all N indices between them only when nothing is in
flight: the code keeps an index whose transfer is in flight in neither
queue. `PartitionFacts` states this.

## Model

| member | source | states |
|---|---|---|
| `Texels.Clamp` | src/gpu/speedy-texture-reader.js:72-76 | the clamped rectangle lies inside the texture; each of width, height, x and y is the allowed value nearest to the request (x and y within the range left by the clamped size) |
| `Texels.ClampInto` | src/gpu/speedy-texture-reader.js:73-74 | `max(0, min(v, hi))` lies in [0, hi] and is the value there nearest to v |
| `Texels.ClampKeepsValidRequest` | src/gpu/speedy-texture-reader.js:111-115 | a rectangle already inside the texture is returned unchanged |
| `Texels.ClampIdempotent` | src/gpu/speedy-texture-reader.js:111-115 | clamping a clamped rectangle changes nothing |
| `Texels.ClampOutOfRangeX` | src/gpu/speedy-texture-reader.js:75 | x = 100 with width 50 on a 50-wide texture is clamped to x = 0, not rejected |
| `Texels.Zeros` | src/gpu/speedy-texture-reader.js:176 | a new `Uint8Array(n)` has n bytes, all zero |
| `Texels.ReadRect` | src/gpu/speedy-texture-reader.js:88 | the pixels read for a rectangle are exactly width × height × 4 bytes |
| `Texels.ReadRectRow` | src/gpu/speedy-texture-reader.js:88 | row j of what is read is row y + j of the texture, from column x on |
| `Texels.ReadRectAt` | src/gpu/speedy-texture-reader.js:227 | byte c of pixel (i, j) of what is read is byte c of texture pixel (x + i, y + j) |
| `BufferPool.Enlarged` | src/gpu/speedy-texture-reader.js:176-178 | a new buffer of exactly `size` bytes starts with the old bytes and is zero after them |
| `BufferPool.Grown` | src/gpu/speedy-texture-reader.js:168-180 | after reallocation all buffers share one length, the larger of the request and the old capacity; each old buffer is a prefix of its new one and the new bytes are zero |
| `BufferPool.GrownFits` | src/gpu/speedy-texture-reader.js:170-172 | a request that fits changes nothing, and neither does a smaller request after growing |
| `BufferPool.GrownTwice` | src/gpu/speedy-texture-reader.js:175-179 | growing to a then b equals growing once to max(a, b), so capacity is the largest request so far |
| `BufferPool.Subarray` | src/gpu/speedy-texture-reader.js:92 | `subarray(0, end)` is a prefix of the buffer of length min(end, buffer length) |
| `BufferPool.Indices` | src/gpu/speedy-texture-reader.js:51 | the initial consumer queue is [0, ..., N - 1] |
| `BufferPool.InitialPartition` | src/gpu/speedy-texture-reader.js:51-54 | all indices in the consumer queue, none in the producer queue or in flight, is a partition |
| `BufferPool.PartitionFacts` | src/gpu/speedy-texture-reader.js:133-158 | under the partition the three places hold N indices in all, each below N, no index in two places, no queue repeating one |
| `BufferPool.StartKeepsPartition` | src/gpu/speedy-texture-reader.js:134 | moving the producer head in flight keeps the partition; that index was not in flight |
| `BufferPool.CompleteKeepsPartition` | src/gpu/speedy-texture-reader.js:136 | appending a completed index to the consumer queue keeps the partition |
| `BufferPool.ConsumeKeepsPartition` | src/gpu/speedy-texture-reader.js:148-151 | moving the consumer head to the producer tail keeps the partition |
| `Readback.PboTransfer` | src/gpu/speedy-texture-reader.js:212-245 | fails with IllegalArgument exactly when the buffer is shorter than width × height × 4; otherwise delivers a buffer-sized result holding the read pixels first and zeros after |
| `Readback.LandAsWritten` | src/gpu/speedy-texture-reader.js:234-239 | as written: the buffer keeps its length; when no growth came between start and completion (equal lengths) it agrees with the corrected `Landed`; after a growth (buffer longer than the transfer) the buffer is left as it was and the bytes are lost |
| `Readback.Landed` | src/gpu/speedy-texture-reader.js:234-239 | corrected: the transfer's bytes become the start of the buffer, the rest of it unchanged |
| `Readback.TransferLostAfterGrowth` | src/gpu/speedy-texture-reader.js:175-179 | after a growth, the as-written landing leaves `Zeros(4)` where the pixel should be; the corrected one keeps the pixel |
| `Readback.SpeedyTextureReader.constructor` | src/gpu/speedy-texture-reader.js:43-55 | N > 0 empty buffers, consumer queue [0, ..., N - 1], empty producer queue, nothing in flight, invariant holds |
| `Readback.SpeedyTextureReader.Reallocate` | src/gpu/speedy-texture-reader.js:168-180 | the buffers become `Grown(old buffers, size)` and the invariant holds |
| `Readback.SpeedyTextureReader.ReadPixelsSync` | src/gpu/speedy-texture-reader.js:67-93 | view of exactly clamped width × height × 4 bytes; the rectangle's pixels, or stale buffer 0 on a lost context; only buffer 0 is written; queues untouched |
| `Readback.SpeedyTextureReader.ReadPixelsAsync` | src/gpu/speedy-texture-reader.js:106-161 | after growing: a lost context returns stale buffer 0; unbuffered returns the pixels read into buffer 0; neither touches the queues; buffered starts the producer head or waits, hands out the consumer head or waits, then moves that index to the producer tail; every view is exactly the clamped byte size; unless the context is lost, the PBO size check passes, so `IllegalArgumentError` is never raised |
| `Readback.SpeedyTextureReader.StartProduction` | src/gpu/speedy-texture-reader.js:133-144 | takes the producer head, leaves the rest in order, puts it in flight with the bytes the PBO captured now; the size check passes |
| `Readback.SpeedyTextureReader.CompleteProduction` | src/gpu/speedy-texture-reader.js:135-143 | corrected: the transferred bytes become the start of the buffer that now holds the index, even after a growth; its index is appended to the consumer queue and leaves the in-flight set |
| `Readback.SpeedyTextureReader.CompleteProductionAsWritten` | src/gpu/speedy-texture-reader.js:135-137 | as written: the transferred bytes reach the buffer only if it is still the one the transfer started with, otherwise the buffer keeps its bytes; its index is appended to the consumer queue and leaves the in-flight set |
| `Readback.SpeedyTextureReader.Consume` | src/gpu/speedy-texture-reader.js:146-160 | returns a view of the consumer head's buffer, of exactly `size` bytes when it fits; that index moves to the producer tail; nothing else is reordered |
| `ReadbackScenarios.OneCallLatency` | src/gpu/speedy-texture-reader.js:99 | with one buffer and the source's own (as-written) completion, the first buffered read returns zeros and the second returns what the first read captured, not the current texture |
| `ReadbackScenarios.GrowthDuringTransfer` | src/gpu/speedy-texture-reader.js:133-160 | corrected: a read that grows the buffers while a transfer is in flight is still handed that transfer's pixels at the start of its view |
| `ReadbackScenarios.GrowthDuringTransferAsWritten` | src/gpu/speedy-texture-reader.js:133-160 | as written: the same reads hand the 2×2 read a 16-byte view that starts with `Zeros(4)`, so a non-zero pixel of the 1×1 read is lost |

## Findings

| source | as written | input that shows it | evidently intended | confidence | as-written member | corrected member |
|---|---|---|---|---|---|---|
| src/gpu/speedy-texture-reader.js:134-142 | a transfer writes into the `Uint8Array` passed to it when it started; `_reallocate` (175-179) replaces every buffer with a new array, so bytes that arrive after a growth land in an orphaned array | buffered mode, N = 1: read 1×1 (a transfer into the 4-byte buffer 0 starts), then read 2×2 before it completes (buffers grow to 16 bytes); the 2×2 read is handed a view that starts with zeros, not the 1×1 read's pixel | the consumer receives the pixels of the transfer that filled its buffer, whatever later growth happened | medium, not executed | `Readback.LandAsWritten`, `Readback.SpeedyTextureReader.CompleteProductionAsWritten`, `ReadbackScenarios.GrowthDuringTransferAsWritten` | `Readback.Landed`, `Readback.SpeedyTextureReader.CompleteProduction`, `ReadbackScenarios.GrowthDuringTransfer` |

`GrowthDuringTransferAsWritten` runs the reads of the input above through
the class with `CompleteProductionAsWritten` and ends with a view that
starts with zeros. `GrowthDuringTransfer` runs the same reads with
`CompleteProduction`, which lands the bytes the corrected way.
`OneCallLatency` uses the as-written completion: with no growth in between,
both landings agree. The as-written landing works out the
target buffer from lengths. A reallocation replaces the buffers exactly when
it makes them longer, so a buffer of a different length than the transfer
is not the object the transfer writes to.

## Left out

- Timing and polling: `_waitForQueueNotEmpty` (lines 187-198) becomes the non-empty-queue precondition of `StartProduction` and `Consume`.
- WebGL calls (`createBuffer`, `bindBuffer`, `bufferData`, `bindFramebuffer`, `readPixels`, `getBufferSubDataAsync`, `deleteBuffer`): they are foreign GPU effects. Only their effect on the bytes is kept, through `ReadRect` and `PboTransfer`. That a PBO starts zeroed is taken from WebGL 2's `bufferData`.
- Failed transfers: the `IllegalOperationError` wrapping and the `finally` cleanup (lines 240-244) are left out. A failed transfer is a `StartProduction` never followed by `CompleteProduction`. Its index stays in flight, and no recovery of the queues is claimed.
- Completion order: any transfer in flight may complete first. Consumption follows completion order, so FIFO delivery across calls holds only when transfers complete in the order they started. That cross-call order is not proved.
- StartProduction: requires the rectangle to fit the buffers. In the source, a failing size check throws only after the index has left the producer queue. Every caller meets this precondition: `ReadPixelsAsync` grows the buffers first, and a deferred start comes from `AwaitingProducer`, whose rectangle fit then, and capacity never shrinks. The error itself is modelled in `PboTransfer`.
- CompleteProduction: lands the transferred bytes the corrected way (`Landed`), into the buffer that holds the index at completion. The source writes them into the array passed when the transfer started, which a growth in between replaces. That behaviour is `CompleteProductionAsWritten`.
- ReadPixelsAsync: the unbuffered path is one step, so no other call can run between its transfer and its result. The growth problem listed under Findings can also hit that path, and the model does not show it there.
- Views: a returned view is a copy of the buffer's bytes. That a JavaScript `subarray` aliases the buffer, so later writes show through it, is not modelled.
- Arguments: JavaScript numbers become integers. Fractional, NaN and infinite coordinates are not modelled. Default arguments (N = 1, the whole texture) are left to the caller.
- The deferred transfer of a waiting buffered read captures the texture when it starts. The model takes that texture as a parameter of `StartProduction`.
- `src/gpu/programs/keypoints.js`: a table of shader declarations whose semantics live in code that is not part of this model.
- `src/core/pipeline/nodes/images/source.js`: a thin wrapper over a media upload and a port write through classes that are not part of this model.
- `src/core/pipeline/factories/keypoint-factory.js` and `src/core/speedy-feature-tracker-factory.js`: one-line constructors with no logic.
