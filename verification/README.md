# Verification of cloud-game

A Dafny model of the parts of cloud-game whose correctness is hard to see by reading them: an in-place FFT, the audio
frame partitioner and resampler, the two RGBA-to-YUV converters (CPU loops and GPU kernels) and the in-place flip between
them, the room protocol between worker and coordinator, the caches and indexes behind search, the ROM hydrator, and
several small state machines and stream scanners. Each module models one source file or one protocol.

`dafny verify dfyconfig.toml` checks everything.

## How the model is built

- Code that changes things step by step is imperative here too: methods over arrays and classes with the source's fields,
  loops with invariants. Each such method is proved against a function or predicate on values, and the properties are
  proved of that function.
- Protocols between goroutines, processes or machines are step relations on values, and the theorems speak of every run:
  the room protocol, the slot's compare-and-swap loops, scans of the library, hydration with crashes.
- The functions that methods are proved against are characterised once more in terms that do not mention them: by an
  inverse, by input and output bytes at explicit positions, by distances, by what follows from any sequence of calls.
- A property that does not hold for all inputs is stated as an if and only if, with the inputs for which it fails.

| module | what it models |
|---|---|
| ComplexNumbers, DiscreteFourier, InverseFourier, BitReversal, Fft | `fft` of the audio canary |
| MedianMagnitude | `medianMag` of the audio canary |
| Resampler, FrameLoop, AudioBuffer | 16.16 resampling, when the partitioner's loop ends, the frame partitioner |
| Basics | types shared by several modules |
| Yuv, VerticalFlip, GpuNv12 | RGBA to I420 on the CPU, flipping I420 in place, RGBA to NV12 in two PTX kernels |
| RoomProtocol, RoomLifecycle, SlotCounter, GameSlot | rooms, router and handlers of the worker, the coordinator's mirror and its one game slot |
| QueryCache, VectorIndex | the LRU cache of query vectors, the vector index |
| Hydrator, LibraryScan | unpacking archived ROMs, throttled library scans |
| KeysToLower, Microphone, StreamLogger | YAML key lowering, the microphone decimator, line-buffered logging |

## What the proofs found

Where the code does not do what its comments or its callers expect, the model follows the code:

- `medianMag` checks for an empty list only after the loop that has already indexed it. It panics exactly when no bin is
  left, and never returns its fallback 1 for that reason (`MedianMagnitude.MedianMag`).
- The 32-bit product in `Linear` wraps once neighbours differ by more than 32768, but the wrap is always undone by the
  shift and the conversion to 16 bits: the sample is exact for all inputs (`Resampler.LerpExact`, `Resampler.ProductFitsIff`).
- `newBuffer` accepts an empty bucket as long as the total is not zero. Every write to a buffer, of every length and in
  every state it can reach, ends if and only if no bucket is empty, that is if every frame lasts at least half a sample
  (`AudioBuffer.WriteEndsIff`). With an empty bucket some first write never ends (`FrameLoop.EmptyStalls`; at 24 kHz,
  frames of 10 ms and 0 ms and one stereo sample: `AudioBuffer.StallExample`), though others do
  (`AudioBuffer.EndsExample`). Which ones is decided by `FrameLoop.Finishes`, and `write` is proved correct for all of
  those.
- Flipping after conversion equals converting the flipped picture exactly for empty widths, even heights and height 1
  (`VerticalFlip.CommutesIff`). The comment on `flipI420` gives chroma planes of half the size; the code rounds up, and so
  does the model.
- The GPU kernels use 32-bit addresses and are exact for frames of up to 2^32 bytes and no others
  (`GpuNv12.AddressesExactIff`). They round chroma dimensions down where the CPU rounds up, so both produce the same set of
  samples only for even dimensions (`GpuNv12.CoversChromaIff`).
- A start that fails leaves the coordinator's slot taken, and nothing but a disconnect frees it again
  (`GameSlot.StuckForever`). In every run the slot gets stuck exactly when the worker cannot serve the start that holds
  it (`GameSlot.SticksIff`).
- The hydrator promises that an interrupted extraction leaves the archive untouched. For a multi-track archive whose file
  name is nothing but up to two dots before its extension, clearing the title directory removes the archive's own
  directory (`Hydrator.SafeIff`).
- A library walk that fails leaves the scanning flag up, after which no request is ever served
  (`LibraryScan.ServedIffNoFailure`).
- The decimator emits the exact proportion of its input only when the source is at least as fast as the target; otherwise
  it emits every sample (`Microphone.ProportionIff`).

## Model

| member | source | states |
|---|---|---|
| BitReversal.RevIsInvolution | tools/audio-canary/main.go:250-261 | reversing the bits of an index twice gives the index back |
| BitReversal.NextReversed | tools/audio-canary/main.go:253-257 | the reversed-carry loop terminates and takes the reversal of i-1 to the reversal of i |
| BitReversal.BitReverse | tools/audio-canary/main.go:250-261 | the guarded swaps leave at every index the element of the reversed index |
| BitReversal.ReversedTwice | tools/audio-canary/main.go:250-261 | that permutation is its own inverse |
| DiscreteFourier.DftIsEval | tools/audio-canary/main.go:242-243 | the transform sum is the value of the input polynomial at a power of w |
| DiscreteFourier.EvalInterleave | tools/audio-canary/main.go:270-277 | a polynomial splits into its even and odd coefficients at the square of the argument |
| InverseFourier.DftIsLinear | tools/audio-canary/main.go:242-243 | the transform of a pointwise sum is the sum of the transforms |
| InverseFourier.Orthogonal | tools/audio-canary/main.go:265-269 | the powers of two different roots of unity sum to 0, those of the same one to n |
| InverseFourier.InverseOfDft | tools/audio-canary/main.go:242-243 | transforming with the inverse root gives every sample back, n-fold |
| Fft.RootHalfTurn | tools/audio-canary/main.go:266-269 | at every stage the half-size power of the stage's root is -1 |
| Fft.BlockIsDft | tools/audio-canary/main.go:263-278 | the stage invariant: an aligned block of 2^s entries holds the transform of the strided subsequence it came from |
| Fft.Twiddles | tools/audio-canary/main.go:264-269 | the table of a stage holds the powers of the stage's root |
| Fft.Butterflies | tools/audio-canary/main.go:271-276 | the inner loop combines the two halves of one block in place and touches nothing else |
| Fft.Stage | tools/audio-canary/main.go:263-278 | one pass takes all blocks of one size to blocks of twice the size |
| Fft.UnshuffleReversed | tools/audio-canary/main.go:250-261 | the strided subsequences of the permuted input are those of the input |
| Fft.LevelIsDft | tools/audio-canary/main.go:242-280 | after the last stage every entry is the transform sum of the unpermuted input |
| Fft.ImpulseResponse | tools/audio-canary/main.go:244-280 | a signal whose only sample is c at j has the spectrum c times w to the j*k |
| Fft.Recovered | tools/audio-canary/main.go:244-280 | such a spectrum determines the real samples: with the inverse root they come back, n-fold |
| Fft.Transform | tools/audio-canary/main.go:244-280 | for every power-of-two length, output k is the sum over j of x[j] times w to the j*k, and transforming the output with the inverse root gives n times every real sample back |
| MedianMagnitude.EmptyBins | tools/audio-canary/main.go:283-290 | no bin is left exactly for fewer than 4 values, or fewer than 6 with bin 1 skipped |
| MedianMagnitude.BinsFrom | tools/audio-canary/main.go:285-290 | the bins are the entries from 1 up to half the length, in order, with the skipped one cut out |
| MedianMagnitude.LeastFrom | tools/audio-canary/main.go:293-298 | the inner loop finds a least entry of the unsorted part |
| MedianMagnitude.SortToMiddle | tools/audio-canary/main.go:292-300 | the partial sort puts the entry of rank len/2 in place, and fails exactly on an empty list |
| MedianMagnitude.MedianIsUnique | tools/audio-canary/main.go:304-308 | there is only one value of that rank |
| MedianMagnitude.MedianMag | tools/audio-canary/main.go:282-309 | panics exactly on an empty list, and otherwise returns the median of the other bins, or 1 if that is not positive |
| Resampler.LerpExact | pkg/resampler/simple.go:29-33 | the interpolated sample is exact despite 32-bit wrap-around and lies between its neighbours |
| Resampler.ProductFitsIff | pkg/resampler/simple.go:30-33 | the 32-bit product is exact for every fraction exactly when the neighbours differ by at most 32768 |
| Resampler.Lag | pkg/resampler/simple.go:19-23 | the fixed-point position lags the exact one by less than the number of steps, in units of 1/65536 |
| Resampler.PositionInside | pkg/resampler/simple.go:19-27 | every position falls on a source pair that exists |
| Resampler.Linear | pkg/resampler/simple.go:3-38 | every entry of the output is the one described by LinearOutput, LinearEnd and Edges, and nothing else is written |
| Resampler.Nearest | pkg/resampler/simple.go:40-63 | every entry of the output is the one described by NearestPicks and Edges, and nothing else is written |
| Resampler.LinearOutput | pkg/resampler/simple.go:19-33 | in both channels, output pair k is the exact value between two neighbouring input pairs at k times the step, which is the exact distance in 1/65536 rounded down, so that the position lags the exact one by at most k/65536 |
| Resampler.LinearEnd | pkg/resampler/simple.go:35-37 | the last output pair is made of the last two input samples |
| Resampler.Edges | pkg/resampler/simple.go:3-63 | in every branch of both: the first output pair is the first input pair, a lone input pair is repeated in both channels, half pairs and outputs without input stay as they were |
| Resampler.SameSize | pkg/resampler/simple.go:3-63 | resampling to the same size copies the input |
| Resampler.RisingOutput | pkg/resampler/simple.go:22-37 | a channel of the output never falls when that of the input never does |
| Resampler.NearestPicks | pkg/resampler/simple.go:56-62 | every output pair is a whole input pair, in input order from the first one; shortening never repeats a pair, lengthening never skips one |
| FrameLoop.EndsIff | pkg/worker/media/buffer.go:88-112 | the loop ends after some number of turns exactly when it never goes from an empty bucket to an empty bucket |
| FrameLoop.NonEmptyFinishes | pkg/worker/media/buffer.go:88-112 | without empty buckets it ends from every state, whatever remains |
| FrameLoop.EmptyStalls | pkg/worker/media/buffer.go:88-112 | with an empty bucket a first write of one sample more than the last bucket holds never ends |
| FrameLoop.AlwaysEndsIff | pkg/worker/media/buffer.go:88-112 | every write of every length from every reachable state ends exactly when no bucket is empty |
| AudioBuffer.WriteEndsIff | pkg/worker/media/buffer.go:36-66 | a buffer made by newBuffer finishes every write exactly when every frame lasts at least half a sample |
| AudioBuffer.StallExample | pkg/worker/media/buffer.go:37-50 | parameters that newBuffer accepts and whose first write never ends |
| AudioBuffer.EndsExample | pkg/worker/media/buffer.go:88-112 | with the same empty bucket one write ends and another does not |
| AudioBuffer.PartitionConserves | pkg/worker/media/buffer.go:88-102 | for every write that ends, full buckets followed by what is pending are exactly what went in, in order |
| AudioBuffer.EndsInFirstBucket | pkg/worker/media/buffer.go:88-112 | without empty buckets a write that starts in the first bucket ends in it with less than a bucketful pending |
| AudioBuffer.EmitsThenEndsInFirst | pkg/worker/media/buffer.go:88-112 | so does any write that completes a frame, because a larger bucket is chosen only if the rest will fill it |
| AudioBuffer.StereoSamples | pkg/worker/media/buffer.go:141-143 | two samples for each of the whole number of sample times nearest to the duration |
| AudioBuffer.GreedyChoice | pkg/worker/media/buffer.go:88-112 | a write goes on with the bucket it finds, and every later bucket is the last one that all the samples still to come would fill |
| AudioBuffer.FrameInterpolates | pkg/worker/media/buffer.go:114-139 | every pair of an interpolated frame lies between two neighbouring pairs of its bucket, exactly at its position, and the last pair is that of the bucket |
| AudioBuffer.FramePicks | pkg/worker/media/buffer.go:134-136 | a frame made by nearest-neighbour sampling consists of whole pairs of its bucket, in order from the first |
| AudioBuffer.FrameStarts | pkg/worker/media/buffer.go:95-99 | a frame has the size and duration of its bucket and starts with the first pair in it |
| AudioBuffer.Buffer.Choose | pkg/worker/media/buffer.go:104-112 | the chosen bucket is the last one the remaining samples fill, or the first |
| AudioBuffer.Buffer.Stretch | pkg/worker/media/buffer.go:114-139 | returns exactly the size asked for: the source itself or its resampling, growing the scratch buffer when needed; an empty source shows what the scratch buffer held |
| AudioBuffer.Buffer.Fill | pkg/worker/media/buffer.go:91-94 | copies what fits behind the pending samples |
| AudioBuffer.Buffer.Emit | pkg/worker/media/buffer.go:95-99 | hands the full bucket on, stretched, and starts the next bucket empty |
| AudioBuffer.Buffer.Turn | pkg/worker/media/buffer.go:90-100 | one turn of the loop, empty buckets included: the counts change as the loop on counts says, and the rest of the write comes out the same |
| AudioBuffer.Buffer.Write | pkg/worker/media/buffer.go:88-102 | every write whose loop ends: no sample is lost, duplicated or reordered over any history of writes, each callback gets its full bucket stretched to exactly its size, and without empty buckets the first bucket is current once a frame has gone out |
| AudioBuffer.Buffer.Resample | pkg/worker/media/buffer.go:75-86 | changing the output rate changes the frame sizes and nothing that is waiting |
| AudioBuffer.NewBuffer | pkg/worker/media/buffer.go:36-66 | exactly which parameters are refused; otherwise buckets of the durations given tile the raw buffer, the last one is current, and frames are sampled by nearest neighbour |
| AudioBuffer.PlacedIsTiled | pkg/worker/media/buffer.go:51-55 | the buckets fill the raw buffer from its start to its end, each beginning where the one before ends |
| Yuv.StudioRange | pkg/encoder/yuv/yuv.go:124-126 | luma lies in 16..235 and chroma in 16..240, the ranges of section 2.5.3 of Rec. ITU-R BT.601-7, so clamping never changes a value |
| Yuv.NearStandard | pkg/encoder/yuv/yuv.go:124-126 | every sample of a pixel is less than one step from its exact value by the luma and colour-difference equations of Rec. ITU-R BT.601-7 |
| Yuv.ChromaRange | pkg/encoder/yuv/yuv.go:130-134 | averaged chroma stays in 16..240 whatever part of a block is present |
| Yuv.GreyIsNeutral | pkg/encoder/yuv/yuv.go:124-134 | a grey picture has chroma 128 everywhere |
| Yuv.LumaSample | pkg/encoder/yuv/yuv.go:103-124 | byte y*w+x is the luma of the four source bytes at y*stride+4*x, in the byte order of the format, or stays as it was when the source ends before them |
| Yuv.ChromaSample | pkg/encoder/yuv/yuv.go:125-134 | the Cb and the Cr of block (cx, cy) are in their planes at cy*cw+cx, each the mean over the pixels of the block that are there |
| Yuv.EdgesRepeat | pkg/encoder/yuv/yuv.go:97-134 | blocks sticking out of the frame take their chroma as if the last column and row were repeated |
| Yuv.FormatsAgree | pkg/encoder/yuv/yuv.go:107-123 | exchanging bytes 0 and 2 of every pixel together with the format changes nothing |
| Yuv.PlanesOfColour | pkg/encoder/yuv/yuv.go:88-137 | a frame of one colour has its luma, its Cb and its Cr in three consecutive planes |
| Yuv.RedOrBlue | pkg/encoder/yuv/yuv.go:107-126 | the bytes 255, 0, 0 give 82, 90, 240 (red) in every format but ARGB, and 41, 240, 110 (blue) in that |
| Yuv.PosThenCell | pkg/encoder/yuv/yuv.go:30-34 | every cell of the three planes has a position of its own in the buffer |
| Yuv.CellThenPos | pkg/encoder/yuv/yuv.go:30-34 | every position of the buffer belongs to exactly one cell, also for odd dimensions: the planes tile it |
| Yuv.ConvertPixel | pkg/encoder/yuv/yuv.go:103-128 | one pixel stores its luma and joins the sums of its block, or is skipped when the source is too short |
| Yuv.ConvertBlock | pkg/encoder/yuv/yuv.go:97-135 | the two inner loops and the chroma of one block |
| Yuv.RgbaLikeToI420 | pkg/encoder/yuv/yuv.go:88-137 | every cell holds its value, every byte is stored at most once, bytes behind the planes are untouched |
| Yuv.CompleteIff | pkg/encoder/yuv/yuv.go:104-106 | every cell is stored exactly when the source reaches its last pixel |
| Yuv.ImageOfConverted | pkg/encoder/yuv/yuv.go:152-164 | the image view of a converted buffer shows every cell with its value |
| Yuv.ImageSlices | pkg/encoder/yuv/yuv.go:152-164 | the view cuts the buffer into luma, Cb and Cr, and shows each byte of a chroma plane in its row and column |
| VerticalFlip.ExchangeRows | pkg/encoder/nvenc/nvenc.go:396-402 | the three copies exchange two rows |
| VerticalFlip.FlipPlane | pkg/encoder/nvenc/nvenc.go:394-404 | every row of a plane changes place with its mirror image, the rest of the buffer stays |
| VerticalFlip.FlipI420 | pkg/encoder/nvenc/nvenc.go:380-392 | every cell gets the byte of the cell that mirrors it in its own plane |
| VerticalFlip.FlippedTwice | pkg/encoder/nvenc/nvenc.go:380-404 | flipping is its own inverse |
| VerticalFlip.FlippedLuma | pkg/encoder/nvenc/nvenc.go:380-404 | for all dimensions, luma byte y*w+x becomes the one of row h-1-y |
| VerticalFlip.FlippedChroma | pkg/encoder/nvenc/nvenc.go:380-404 | for all dimensions, the chroma bytes of block row cy become those of the mirrored block row |
| VerticalFlip.FlipCommutes | pkg/encoder/nvenc/nvenc.go:370-392 | for even height and any width, flipping the converted frame is converting the frame with its rows reversed |
| VerticalFlip.CommutesIff | pkg/encoder/nvenc/nvenc.go:370-392 | the two orders agree on all frames exactly for width 0, even heights and height 1 |
| VerticalFlip.Disagreement | pkg/encoder/nvenc/nvenc.go:380-392 | a frame of every other size on which they differ |
| GpuNv12.OneThreadEach | pkg/encoder/nvenc/nvenc_cuda.go:417-441 | every point belongs to exactly one thread of the launch grid, and that thread does not exit early |
| GpuNv12.AddressesExactIff | pkg/encoder/nvenc/nvenc_cuda.go:109-112 | 32-bit addresses are exact for a whole frame exactly when it has at most 2^32 bytes |
| GpuNv12.LumaThread | pkg/encoder/nvenc/nvenc_cuda.go:87-132 | one thread stores the luma of its pixel at its pixel's place, or exits and stores nothing |
| GpuNv12.ConvertLuma | pkg/encoder/nvenc/nvenc_cuda.go:119-124 | unsigned 32-bit arithmetic without overflow gives the luma of the pixel |
| GpuNv12.LaunchLuma | pkg/encoder/nvenc/nvenc_cuda.go:417-425 | whatever order the threads run in, the plane holds every pixel's luma and nothing else changes |
| GpuNv12.SameLuma | pkg/encoder/nvenc/nvenc_cuda.go:71-132 | GPU and CPU write the same luma plane for BGRA input of any dimensions |
| GpuNv12.BlockCorners | pkg/encoder/nvenc/nvenc_cuda.go:186-199 | the corners of a block are its four pixels; the clamps at the last row and column have no effect |
| GpuNv12.ConvertChroma | pkg/encoder/nvenc/nvenc_cuda.go:249-269 | signed 32-bit arithmetic without overflow gives both chroma samples, unclamped |
| GpuNv12.ChromaThread | pkg/encoder/nvenc/nvenc_cuda.go:160-280 | one thread stores the pair of samples of its block's mean colour, or exits and stores nothing |
| GpuNv12.LaunchChroma | pkg/encoder/nvenc/nvenc_cuda.go:434-443 | whatever order the threads run in, every block has its pair and nothing else changes |
| GpuNv12.ChromaBytes | pkg/encoder/nvenc/nvenc_cuda.go:160-280 | the pair of a block, Cb first, in terms of the sixteen bytes of its pixels: each primary averaged, rounded down, then converted |
| GpuNv12.MeanThenConvert | pkg/encoder/nvenc/nvenc_cuda.go:234-269 | averaging before converting instead of after moves a sample by -1, 0, 1 or 2 |
| GpuNv12.BoundsAreReached | pkg/encoder/nvenc/nvenc_cuda.go:234-269 | neither bound can be improved |
| GpuNv12.CloseChroma | pkg/encoder/nvenc/nvenc_cuda.go:136-280 | every chroma sample of the GPU is at most 1 below and 2 above that of the CPU for the same block |
| GpuNv12.CoversChromaIff | pkg/encoder/nvenc/nvenc_cuda.go:436-440 | the chroma grid covers every block of the CPU exactly for even dimensions (or none) |
| RoomLifecycle.Room.Close | pkg/worker/room/room.go:107-122 | the first call closes the app, destroys the pipe and announces the closing, each once; later calls do nothing |
| RoomLifecycle.Router.FindRoom | pkg/worker/room/room.go:132-139 | what it returns is the open room and has the id; it returns nothing only when there is no such room |
| RoomLifecycle.Router.Close | pkg/worker/room/room.go:149 | closes and forgets the room, if there is one |
| RoomLifecycle.Router.Remove | pkg/worker/room/room.go:141-146 | the last user to leave takes the room down, any other leaves it untouched |
| RoomLifecycle.Router.Reset | pkg/worker/room/room.go:155-166 | closes the room, disconnects every user and forgets them |
| RoomLifecycle.WorkerSide.HandleWebrtcInit | pkg/worker/coordinatorhandlers.go:37-70 | a peer that can be reached becomes a new connected session, answered with an offer; any other leaves the users alone |
| RoomLifecycle.WorkerSide.Launch | pkg/worker/coordinatorhandlers.go:227-265 | a launch that fails to load or to start its pipe closes the room again, destroying what existed, and announces it |
| RoomLifecycle.WorkerSide.HandleGameStart | pkg/worker/coordinatorhandlers.go:86-467 | the handler does to router, room, users and connection what the protocol's Start says, in every branch; an open room stays the same, a new one has its app and its pipe running |
| RoomLifecycle.WorkerSide.HandleTerminateSession | pkg/worker/coordinatorhandlers.go:471-480 | drops and disconnects the user and nobody else; while others are left the room is untouched and nothing is sent, and with the last one it closes and says so |
| RoomLifecycle.WorkerSide.HandleQuitGame | pkg/worker/coordinatorhandlers.go:512-519 | the open room's id closes it, announces that and disconnects everybody; any other id leaves everything untouched |
| RoomProtocol.StartServedIff | pkg/worker/coordinatorhandlers.go:86-467 | exactly when a start is answered with a room: known user, game in the library by the name the link carries, by the link itself or by the name asked for, and the room open or free and the launch working; what is sent in each case |
| RoomProtocol.UsersAfter | pkg/worker/coordinatorhandlers.go:37-519 | quitting the open room sends everybody away, every other request changes its own user only, and how |
| RoomProtocol.RoomEndsIff | pkg/worker/room/room.go:141-166 | an open room ends exactly when its id is quit or its last user leaves; then no user is left and the closing is announced |
| RoomProtocol.AlwaysOccupied | pkg/worker/room/room.go:141-146 | in no run is a room ever open without a user |
| RoomProtocol.MirrorUntilRegistered | pkg/coordinator/workerhandlers.go:7-12 | until another room is registered RoomId goes only when its own room is closed, not when any other is |
| RoomProtocol.StartIsFaithful | pkg/worker/coordinatorhandlers.go:86-467 | what a start sends takes a mirror from the old open room to the new one, registers before it responds, and announces every room it installs and drops |
| RoomProtocol.StopIsFaithful | pkg/worker/coordinatorhandlers.go:471-519 | the same for a session that ends and for quitting |
| RoomProtocol.ChatterIsHarmless | pkg/coordinator/worker.go:78-104 | messages about other things, put anywhere in between, change none of this |
| RoomProtocol.AlwaysAgree | pkg/coordinator/workerhandlers.go:5-12 | in every state of every run, handling all messages under way would leave RoomId as the worker's open room, or empty |
| RoomProtocol.DrainedAgrees | pkg/coordinator/workerhandlers.go:5-12 | with nothing under way RoomId is the open room |
| RoomProtocol.ResponseAfterRoomId | pkg/worker/coordinatorhandlers.go:449-467 | a StartGameResponse is delivered only when RoomId already is its room |
| RoomProtocol.ClosedAtMostOnce | pkg/worker/coordinatorhandlers.go:131-142 | every installed room announces its closing exactly once, except the open one, which has not yet |
| SlotCounter.Linearizable | pkg/coordinator/worker.go:144-180 | in every interleaving, slot and answers are those of whole operations run one after the other |
| SlotCounter.AtMostOneHolder | pkg/coordinator/worker.go:143-154 | between two successful reservations there is a release |
| SlotCounter.WinsIff | pkg/coordinator/worker.go:143-180 | in every run from a free slot a reservation succeeds exactly when each earlier one that did has been followed by a release, however many releases there are |
| SlotCounter.FirstWins | pkg/coordinator/worker.go:143-154 | of reservations alone on a free slot exactly the first succeeds |
| SlotCounter.FreeOrTaken | pkg/coordinator/worker.go:137-180 | a slot that starts free is only ever free or taken once |
| GameSlot.RefusedIff | pkg/coordinator/userhandlers.go:78-98 | a start is refused exactly when the slot is taken and no room is known or another one is asked for; any other goes to the worker for the right room and takes a free slot |
| GameSlot.StuckForever | pkg/coordinator/userhandlers.go:78-98 | a slot taken with no room anywhere stays taken, and every later start is refused |
| GameSlot.TakenSlot | pkg/coordinator/userhandlers.go:78-100 | in every reachable state a taken slot has a start under way, a room being announced or a known room, or is stuck |
| GameSlot.SticksIff | pkg/coordinator/userhandlers.go:92-107 | in every run the slot gets stuck exactly when the worker handles the reserving start that holds it and cannot serve it in its state at that moment |
| GameSlot.StartRuns | pkg/coordinator/userhandlers.go:92-107 | the outcome of a start described below is that of an actual run of both sides |
| GameSlot.StuckIffStartFails | pkg/coordinator/userhandlers.go:92-107 | from a quiet state, carried through, a start that is served shows its room in RoomId, and any other leaves the slot stuck |
| QueryCache.CacheIsRecent | pkg/worker/agent/lru.go:38-73 | after any history the cache holds the cap most recently touched keys, in that order, each with the vector last put |
| QueryCache.HitIff | pkg/worker/agent/lru.go:38-50 | a Get hits exactly when its key is among the cap most recently touched, and returns the vector last put |
| QueryCache.KeptWhile | pkg/worker/agent/lru.go:41-73 | an entry just put, or just found by a Get, is still there with its vector after any calls that name fewer than cap other keys |
| QueryCache.KeptIff | pkg/worker/agent/lru.go:55-73 | it outlasts puts of other keys exactly when these are fewer than cap |
| QueryCache.CutCommutes | pkg/worker/agent/lru.go:66-72 | evicting at once or never before looking makes no difference to which keys are most recent |
| QueryCache.QueryEmbedCache.constructor | pkg/worker/agent/lru.go:28-37 | empty, with capacity 32 when none or a negative one is given |
| QueryCache.QueryEmbedCache.Get | pkg/worker/agent/lru.go:41-50 | list and map stay in agreement, a hit moves its entry to the front and returns its vector |
| QueryCache.QueryEmbedCache.Put | pkg/worker/agent/lru.go:55-73 | replaces or adds the entry in front, evicts at most the last one, and keeps a fresh copy of the vector |
| VectorIndex.Index.Upsert | pkg/worker/search/index.go:43-56 | the index as a map gets the row under its key; keys and positions stay in bijection |
| VectorIndex.Index.Delete | pkg/worker/search/index.go:59-76 | the map loses the key and nothing else, although the last row moves |
| VectorIndex.Index.Size | pkg/worker/search/index.go:79-83 | the number of rows is the number of keys |
| VectorIndex.KeyIsInjective | pkg/worker/search/index.go:44 | without bars in the systems a key stands for one game |
| VectorIndex.SystemsCollideIff | pkg/worker/search/index.go:44 | games of two systems can share a key exactly when one system ends in a bar followed by the other |
| VectorIndex.Index.Top | pkg/worker/search/index.go:93-119 | for the query scaled to unit length: min(k, matching) hits, best first, nothing omitted scores higher; none for k of 0 or less or an empty query |
| VectorIndex.HitsAreRows | pkg/worker/search/index.go:104-113 | every hit stands for a row of the right dimension, with a score that its distance to the query determines, and every such row has one |
| VectorIndex.NearestFirst | pkg/worker/search/index.go:85-119 | for unit rows the hits are the nearest ones, the nearest first; no score exceeds 1, and a row nearer than that of some hit is a hit itself |
| VectorIndex.PerfectMatch | pkg/worker/search/index.go:97-113 | a row that points where the query does has a hit of score 1 |
| VectorIndex.NormalizeInPlace | pkg/worker/search/index.go:123-135 | every entry is scaled by the inverse length, a zero vector is left alone |
| VectorIndex.NormalizedIsUnit | pkg/worker/search/index.go:121-135 | the squares of the result add up to 1, or to 0 for a zero vector |
| VectorIndex.ScalingKeepsRanking | pkg/worker/search/index.go:97-99 | normalising the query does not change which rows are best |
| Hydrator.ClearingTakesArchiveIff | pkg/worker/romcache/hydrator.go:229-234 | the title directory contains the archive exactly when the stem is empty, one dot or two dots |
| Hydrator.SignalIff | pkg/worker/romcache/hydrator.go:288-307 | which names count as image, file tree, gdi and cue, exactly |
| Hydrator.Classify | pkg/worker/romcache/hydrator.go:278-326 | the kind of the unpacked files: image before tree before gdi before cue, and of each sort the last file of the walk |
| Hydrator.Precedence | pkg/worker/romcache/hydrator.go:313-324 | a file of one sort rules out every kind of lower precedence |
| Hydrator.PayloadApart | pkg/worker/romcache/hydrator.go:182-229 | the payload of the chosen file takes the place of the archive, or of a directory around it, only for a multi-track dump with such a name |
| Hydrator.NeverLost | pkg/worker/romcache/hydrator.go:82-112 | in every interleaving and after a crash at any step, the archive or the complete payload is on disk, and the archive is removed only after finalisation |
| Hydrator.RemovedForGood | pkg/worker/romcache/hydrator.go:93-99 | once the archive is removed the payload stays complete and no call unpacks again |
| Hydrator.CanFinish | pkg/worker/romcache/hydrator.go:82-256 | for every archive of a known kind that does not clash there is a run that leaves the complete payload and no archive |
| Hydrator.LostByClearing | pkg/worker/romcache/hydrator.go:229-240 | a run that loses the archive of a multi-track dump whose title directory contains it |
| Hydrator.SafeIff | pkg/worker/romcache/hydrator.go:134-256 | nothing is ever lost exactly for archives that are not multi-track dumps with such a name |
| LibraryScan.Throttled | pkg/games/library.go:212-221 | at most one scan runs, the flag is up exactly while one does or after a failure, every request is covered by a walk begun since, the delayed flag or a follow-up, and there are never more walks, begun and to follow, than requests |
| LibraryScan.Served | pkg/games/library.go:334-341 | while no walk has failed an outstanding request can be served |
| LibraryScan.NeverServed | pkg/games/library.go:306-309 | after a failed walk no scan ever runs again |
| LibraryScan.ServedIffNoFailure | pkg/games/library.go:206-344 | an outstanding request of any reachable state can still be served exactly when no walk has failed |
| LibraryScan.FailureSticks | pkg/games/library.go:306-309 | a run that ends in such a state |
| KeysToLower.LowerChunk | pkg/config/loader.go:62-71 | the inner loop lowers the line up to the colon, stopping at the first quote, and nothing else |
| KeysToLower.LowerKeys | pkg/config/loader.go:50-78 | the one pass in place equals the line-by-line specification |
| KeysToLower.LineByte | pkg/config/loader.go:53-71 | a byte of a line is lowered exactly when it is a capital letter, a colon follows with no colon or hash before that one, and no quote comes up to the byte |
| KeysToLower.TextByte | pkg/config/loader.go:50-78 | the same for every byte of a text in terms of its own line: nothing else changes |
| KeysToLower.LineGrows | pkg/config/loader.go:53-71 | only the first colon of a line that precedes any hash changes what is lowered |
| KeysToLower.LoweredSplits | pkg/config/loader.go:72-75 | lines are independent of each other |
| KeysToLower.LoweredTwice | pkg/config/loader.go:50-78 | lowering is idempotent |
| Microphone.Packed | web/js/network/microphone-worklet.js:42-43 | packing stays within 16 bits and reaches both ends of the range |
| Microphone.Accumulates | web/js/network/microphone-worklet.js:39-41 | the accumulator reaches the ratio exactly when the next sample is due |
| Microphone.DecimatedLength | web/js/network/microphone-worklet.js:38-49 | how many of n samples are emitted |
| Microphone.ProportionIff | web/js/network/microphone-worklet.js:16 | the number of emitted samples is floor(N*target/source) for every input exactly when the source is no slower than the target |
| Microphone.SlowSourceKeepsAll | web/js/network/microphone-worklet.js:38-49 | a slower source has every sample emitted, packed |
| Microphone.NthOutput | web/js/network/microphone-worklet.js:39-44 | the k-th emitted sample is the packed input number ceil(k*source/target) |
| Microphone.MicProcessor.constructor | web/js/network/microphone-worklet.js:11-20 | defaults for options that are absent or zero, nothing accumulated |
| Microphone.MicProcessor.FlushIfFull | web/js/network/microphone-worklet.js:22-30 | posts a copy of a full buffer, does nothing with any other |
| Microphone.MicProcessor.Keep | web/js/network/microphone-worklet.js:44-47 | one more sample of the output; every posted chunk has exactly chunkSamples entries |
| Microphone.MicProcessor.Process | web/js/network/microphone-worklet.js:32-51 | however the input is cut, posted chunks and the filled part of the buffer are the decimated input |
| StreamLogger.TrimRight | pkg/worker/caged/nativeemu/streamlogger.go:47 | removes the trailing carriage returns and newlines and nothing else |
| StreamLogger.LoggedLine | pkg/worker/caged/nativeemu/streamlogger.go:39-50 | a terminated line is logged behind the prefix without its carriage returns, unless it is empty; an unterminated one is kept and not logged |
| StreamLogger.ChunksDoNotMatter | pkg/worker/caged/nativeemu/streamlogger.go:35-52 | log and buffer depend on the whole stream only, not on how it is cut into writes |
| StreamLogger.TailIsUnterminated | pkg/worker/caged/nativeemu/streamlogger.go:40-46 | what is buffered is exactly what follows the last newline |
| StreamLogger.StreamLogger.Write | pkg/worker/caged/nativeemu/streamlogger.go:35-52 | the logged lines are the non-empty trimmed terminated lines of the stream so far, the buffer is its tail |

## Left out

- Floating point: `fft`, the cosine scores and frame sizes are over exact reals; the twiddle table is powers of an abstract root w with w^(n/2) = -1 instead of rounded cosines and sines, and the decimator's accumulator is an exact rational.
- MedianMagnitude.MedianMag: takes the magnitudes as given; `cmplx.Abs` and NaN are not modelled.
- Integer width where it is not the point: positions in the resampler, buffer offsets and plane sizes are unbounded; the 32-bit registers of the kernels, the int32 product of `Linear` and the int32 slot are bounded.
- AudioBuffer.Buffer.Stretch: the Speex branch is foreign code and absent.
- AudioBuffer.Buffer.Resample: so are the Speex resampler it would create and the error of creating it.
- AudioBuffer.Buffer.Write: requires that the write ends, which `FrameLoop.Finishes` decides beforehand; the callback is recorded as the list of frames it receives. What a stretched empty bucket shows is left open.
- Negative frame durations, sample rates and dimensions are not modelled.
- The rotated, cropped, scaled and RGB565 paths of `Conv.Process` are calls into libyuv.
- GpuNv12.LaunchLuma, GpuNv12.LaunchChroma: threads run one after another in any order; as no two store to the same byte, finer interleavings add nothing. Device allocation, streams and errors of CUDA are absent.
- RoomLifecycle.WorkerSide.HandleGameStart: only the inline libretro path; archived games started from a goroutine, xemu and flycast, recording, saves, input channels and the roster broadcast to the users are absent. Room ids and game names are not empty, and one connection between worker and coordinator lasts throughout.
- RoomLifecycle.WorkerSide.HandleTerminateSession: the roster broadcast to the remaining users is absent.
- RoomProtocol.StartIsFaithful: speaks of the same inline path.
- GameSlot.StuckForever: the coordinator's decision is one step; reading the slot and RoomId at different moments and the waiting period only add refusals.
- SlotCounter, LibraryScan and Hydrator are step relations rather than methods, since their point is interleaving; the locks and atomics of Go are the steps.
- QueryCache.QueryEmbedCache.Get: returns the cache's own array as the source does; a caller that writes to it is outside the model. `container/list` is a sequence of elements.
- VectorIndex.Index.Upsert: vectors are values, so the copy it makes is not visible; `sort.Slice` is any sort, here an insertion sort.
- VectorIndex.Index.Top: takes the inverse of the query's length as a parameter, in place of the square root.
- Hydrator.NeverLost: a finished rename, copy or repack counts as complete payload; write-back errors after closing a file, other archives that produce the same file name, and different spellings of one path are absent. `findLikelyPayload` is a heuristic on names and absent.
- LibraryScan: what a walk collects, and libraries without a source, which never scan.
- Microphone.Packed: NaN samples.
- Network transport, browser UI, configuration, process supervision and the emulators themselves.
