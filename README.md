# Inter-processor FIFO and integer rate transposer

A Dafny model of two pieces of the emulator core behind the in_xsf player. Both are proved against specifications.

- **The IPC FIFO** of the emulated handheld (`fifo.dfy`, module `IpcFifo`). Each of the two CPUs (0 = ARM9, 1 = ARM7) owns a 16-word ring queue that the other CPU receives from. Each CPU also has a 16-bit control/status register at offset 0x184 of its I/O bank. That register mirrors the state of the CPU's own send queue and of the queue it receives from, and it holds the interrupt enables, the error flag and the FIFO enable.
  - The queue is a class over a 16-slot array with head, tail and size. Its ghost `contents` is the sequence of waiting words.
  - `Fifo` holds both queues, the pair of registers as an array, and an append-only log of the interrupt requests and reschedules the FIFO asks of the emulator.
  - Every register update is a function on `bv16`, with the masks of the source written out.
- **The integer rate transposer** of the SoundTouch library (`interpolation.dfy`, module `Interpolation`, and `rate_transposer.dfy`, module `RateTransposer`). It changes the sample rate of a 16-bit audio stream by fixed-point linear interpolation.
  - A slope counter advances by the rate for every output sample. When it exceeds 1.0 (`SCALE` = 65536), the walk moves on to the next pair of input samples.
  - The last input frame and the left-over slope carry over to the next call.
  - `Interpolation.Transpose` gives the whole walk over `[previous sample] + input` as a value. `TransposeMono` and `TransposeStereo` keep the source's in-place loops over arrays, and their postconditions prove them equal to that walk.

## Model

| member | source | states |
|---|---|---|
| IpcFifo.SetSendSide | src/in_2sf/desmume/FIFO.cpp:58-68 | The sender's register after a transfer has send-empty and send-full exactly as given and the error bit cleared. Every other bit is kept. |
| IpcFifo.SetRecvSide | src/in_2sf/desmume/FIFO.cpp:97-116 | The receiver's side after a transfer has receive-empty and receive-full exactly as given and the error bit cleared. Every other bit is kept. |
| IpcFifo.WithError | src/in_2sf/desmume/FIFO.cpp:46-51 | The failure path sets the error bit and keeps every other bit. |
| IpcFifo.CntLocal | src/in_2sf/desmume/FIFO.cpp:131-149 | After a control write, the error bit is set exactly when it was set before and the written value does not acknowledge it. The writeable bits equal those of the written value. A clear request leaves send-empty set and send-full clear. |
| IpcFifo.CntLocalKeeps | src/in_2sf/desmume/FIFO.cpp:131-149 | A control write keeps the receive-status bits and every other non-writeable bit. It keeps the send-status bits too unless the queue is cleared. |
| IpcFifo.CntRemote | src/in_2sf/desmume/FIFO.cpp:137-146 | A clear request leaves the peer's receive-empty set and receive-full clear. Without one, the peer's register is unchanged. |
| IpcFifo.CntRemoteKeeps | src/in_2sf/desmume/FIFO.cpp:137-146 | A control write changes nothing in the peer's register except its two receive-status bits. |
| IpcFifo.CntIrqs | src/in_2sf/desmume/FIFO.cpp:151-160 | After a control write, the writer requests the send-empty interrupt exactly when it is enabled and the send queue is empty. It requests receive-not-empty exactly when that is enabled and the receive side is not empty. Both go to the writer itself, at most two are raised, and send-empty comes first. |
| IpcFifo.CntIdempotent | src/in_2sf/desmume/FIFO.cpp:131-149 | Repeating a control write that does not clear the queue leaves the writer's register as the first write left it. The log still grows by the interrupts and the reschedule of the second write. |
| IpcFifo.MirrorKeeps | src/in_2sf/desmume/FIFO.cpp:58-59 | Whether the status bits mirror a queue depends only on the sender's two send bits and the receiver's two receive bits. |
| IpcFifo.SendMirrors | src/in_2sf/desmume/FIFO.cpp:58-72 | A successful send leaves the empty and full bits of both registers agreeing with the grown queue. The bits describing the opposite queue still agree with it. |
| IpcFifo.RecvMirrors | src/in_2sf/desmume/FIFO.cpp:97-119 | A successful receive leaves the bits agreeing with the shrunk queue. The bits describing the receiver's own queue still agree with it. |
| IpcFifo.ErrorMirrors | src/in_2sf/desmume/FIFO.cpp:46-51 | Setting the error bit disturbs neither queue's status bits. |
| IpcFifo.CntMirrors | src/in_2sf/desmume/FIFO.cpp:137-149 | A clearing control write leaves the bits agreeing with an empty queue. A non-clearing one keeps them agreeing with the same queue. The opposite queue's bits are kept either way. |
| IpcFifo.Queue.constructor | src/in_2sf/desmume/FIFO.cpp:31 | A zeroed queue: no words waiting, head and tail 0, every slot 0. |
| IpcFifo.Queue.Zero | src/in_2sf/desmume/FIFO.cpp:36 | Zeroing the queue leaves it empty, with head and tail 0 and all sixteen slots 0. |
| IpcFifo.Queue.Clear | src/in_2sf/desmume/FIFO.cpp:139 | Resetting head, tail and size empties the queue. |
| IpcFifo.Queue.Push | src/in_2sf/desmume/FIFO.cpp:60-63 | Storing at the tail and wrapping it after slot 15 appends the word to the waiting words and keeps the ring invariant. |
| IpcFifo.Queue.Pop | src/in_2sf/desmume/FIFO.cpp:100-103 | Reading at the head and wrapping it after slot 15 returns the oldest waiting word and removes exactly that word. |
| IpcFifo.Fifo.Init | src/in_2sf/desmume/FIFO.cpp:34-38 | Initialisation empties and zeroes the processor's queue and sets its register to 0x0101, which leaves the FIFO disabled. Once both processors are initialised, the status bits mirror the queues. |
| IpcFifo.Fifo.Send | src/in_2sf/desmume/FIFO.cpp:40-78 | While disabled, a send changes nothing. On a full queue it drops the word, leaves the ring untouched, sets only the sender's error bit, and neither interrupts nor reschedules. Otherwise it appends the word at the tail without moving the head, updates both registers, raises the receiver's receive-not-empty interrupt if enabled, and reschedules. |
| IpcFifo.Fifo.Recv | src/in_2sf/desmume/FIFO.cpp:80-124 | While disabled, a receive returns 0 and leaves the peer queue untouched. On an empty peer queue it returns 0, leaves the queue untouched, and sets only the receiver's error bit. Otherwise it returns the oldest word and removes it from the head without moving the tail, and updates both registers. It raises the sender's send-empty interrupt when the queue ran empty and the interrupt is enabled, then reschedules. |
| IpcFifo.Fifo.Cnt | src/in_2sf/desmume/FIFO.cpp:126-166 | A control write empties the writer's queue, head and tail reset to 0, exactly when asked, and otherwise leaves the queue object untouched. It sets both registers to CntLocal and CntRemote of the old ones and logs CntIrqs of the new register and then a reschedule. |
| IpcFifo.Fifo.RaiseError | src/in_2sf/desmume/FIFO.cpp:46-51 | Only the failing processor's register changes, to WithError of itself. |
| IpcFifo.Fifo.SendRegisters | src/in_2sf/desmume/FIFO.cpp:58-75 | Both registers are written as SetSendSide and SetRecvSide, with full exactly when the queue reached 16 words. The receive-not-empty interrupt is logged only when the receiver enabled it. |
| IpcFifo.Fifo.RecvRegisters | src/in_2sf/desmume/FIFO.cpp:97-119 | Both registers are written as SetRecvSide and SetSendSide, with empty exactly when the queue ran dry. The send-empty interrupt is logged only then, and only when the sender enabled it. |
| IpcFifo.Fifo.CntRegisters | src/in_2sf/desmume/FIFO.cpp:128-163 | The writer's register becomes CntLocal and the peer's CntRemote. The interrupts CntIrqs calls for are logged. |
| IpcFifo.Fifo.constructor | src/in_2sf/desmume/FIFO.cpp:31 | The zeroed state of the two global queues and registers: two distinct queues over distinct fresh arrays, both empty, both registers 0, nothing logged. |
| IpcFifo.Start | src/in_2sf/desmume/FIFO.cpp:34-38 | Initialising both processors from the zeroed state gives a FIFO whose queues, slot arrays and registers are all freshly allocated, so the caller may drive it. Both queues are empty, both registers are 0x0101, nothing is logged, and the status bits mirror the queues. |
| IpcFifo.BringUpRoundTrip | src/in_2sf/desmume/FIFO.cpp:34-166 | From power-on, enabling both processors with a control write, sending up to 16 words from the ARM9 and draining them on the ARM7 returns exactly the words sent, in order. Both queues end empty, both FIFOs stay enabled, the ARM9's send-empty and the ARM7's receive-empty bits are set, and the status bits mirror the queues. |
| IpcFifo.SendReady | src/in_2sf/desmume/FIFO.cpp:58-72 | A successful send keeps the FIFOs enabled and the registers mirroring the queues, with one more word in the sender's queue. |
| IpcFifo.RecvReady | src/in_2sf/desmume/FIFO.cpp:97-119 | A successful receive keeps the FIFOs enabled and the registers mirroring the queues, with one word fewer in the sender's queue. |
| IpcFifo.ReadyIsMirrored | src/in_2sf/desmume/FIFO.cpp:42-43 | Readiness seen from either processor is the same thing as both enable bits set and the status bits mirroring both queues. |
| IpcFifo.SendThenDrain | src/in_2sf/desmume/FIFO.cpp:40-124 | With both FIFOs enabled and p's queue empty, whatever the status bits say, sending up to 16 words and then receiving as many on the peer returns exactly the words sent, in order, and leaves p's queue empty and both FIFOs enabled. When at least one word went through, p's send-empty and the peer's receive-empty bits are set. Status bits that mirrored the queues before still mirror them afterwards, and then the empty bits are set even for no words. |
| IpcFifo.SendAll | src/in_2sf/desmume/FIFO.cpp:40-78 | Sending words one by one into a queue with room for them all appends them in order, keeps both FIFOs enabled, and keeps them ready if they were. |
| IpcFifo.ReceiveAll | src/in_2sf/desmume/FIFO.cpp:80-124 | Receiving n words from a queue holding at least n returns its first n words, oldest first, and leaves the rest. Both FIFOs stay enabled, and ready if they were. Emptying the queue sets both empty bits. |
| IpcFifo.SendOne | src/in_2sf/desmume/FIFO.cpp:40-78 | One send into a queue with room appends the word, keeps both FIFOs enabled, and keeps them ready if they were. |
| IpcFifo.ReceiveOne | src/in_2sf/desmume/FIFO.cpp:80-124 | One receive from a non-empty queue yields its oldest word and removes it. Both FIFOs stay enabled, and ready if they were. Taking the last word sets p's send-empty and the peer's receive-empty bits. |
| IpcFifo.RecvStep | src/in_2sf/desmume/FIFO.cpp:97-119 | A successful receive keeps both enable bits and keeps the FIFOs ready if they were. When it takes the last word, it sets the receiver's receive-empty and the sender's send-empty bits. |
| IpcFifo.ReceiveFrom | src/in_2sf/desmume/FIFO.cpp:80-124 | The successful receive by p's peer, with the peer's FIFO enabled, takes the word at the head of p's queue and leaves the peer's own queue alone. Both registers get the transfer update, with empty exactly when p's queue ran dry. |
| Interpolation.TruncDivBetween | src/in_2sf/desmume/metaspu/SoundTouch/RateTransposer.cpp:396 | C's truncating division by SCALE of a weighted sum between SCALE·lo and SCALE·hi lies in [lo, hi], so the cast to a sample keeps the value. |
| Interpolation.Weighted | src/in_2sf/desmume/metaspu/SoundTouch/RateTransposer.cpp:394-395 | The long weighted sum lies between SCALE times the smaller and the larger endpoint, so it fits a signed 32-bit integer. |
| Interpolation.Lerp | src/in_2sf/desmume/metaspu/SoundTouch/RateTransposer.cpp:394-396 | One interpolated sample lies between its two endpoints, so the cast back to a sample loses nothing. It equals the first endpoint at slope 0 and the second at slope SCALE. |
| Interpolation.SegmentWithin | src/in_2sf/desmume/metaspu/SoundTouch/RateTransposer.cpp:392-399 | Every sample emitted between two input points lies between them. |
| Interpolation.SegmentExit | src/in_2sf/desmume/metaspu/SoundTouch/RateTransposer.cpp:392-401 | The emit loop leaves a segment with the slope above SCALE and at most SCALE + rate. |
| Interpolation.Transpose | src/in_2sf/desmume/metaspu/SoundTouch/RateTransposer.cpp:383-423 | Fewer than two input points give no output. At a rate of at most 1.0, from a slope inside the first segment, the output has at least as many samples as there are input segments. |
| Interpolation.FinalSlope | src/in_2sf/desmume/metaspu/SoundTouch/RateTransposer.cpp:401-417 | The slope carried to the next call is never negative, and it is positive once at least one segment has been walked. |
| Interpolation.WalkOnTranspose | src/in_2sf/desmume/metaspu/SoundTouch/RateTransposer.cpp:392-417 | The step-by-step walk that the loops perform, resumed at segment j with samples already produced, yields those samples followed by the segment-wise transposition of the rest. It leaves the same slope. |
| Interpolation.WalkIsTranspose | src/in_2sf/desmume/metaspu/SoundTouch/RateTransposer.cpp:383-423 | The loop walk from the first segment produces exactly Transpose and leaves exactly FinalSlope. |
| Interpolation.TransposeWithinNeighbours | src/in_2sf/desmume/metaspu/SoundTouch/RateTransposer.cpp:392-417 | Every output sample lies between two consecutive input points, so interpolation never overshoots. |
| Interpolation.TransposeConstant | src/in_2sf/desmume/metaspu/SoundTouch/RateTransposer.cpp:392-417 | A constant input, the carried sample included, gives a constant output. |
| Interpolation.TransposeShape | src/in_2sf/desmume/metaspu/SoundTouch/RateTransposer.cpp:392-417 | The number of output samples and the left-over slope depend only on the number of input points, not on their values. |
| Interpolation.TransposeSplit | src/in_2sf/desmume/metaspu/SoundTouch/RateTransposer.cpp:418-422 | Splitting a stream between two calls, carrying the last sample and the left-over slope, gives exactly the output and final slope of one call on the whole stream. |
| Interpolation.FinalSlopeBounds | src/in_2sf/desmume/metaspu/SoundTouch/RateTransposer.cpp:401-417 | Between calls the slope counter stays in (0, rate]. |
| Interpolation.RateOneSteady | src/in_2sf/desmume/metaspu/SoundTouch/RateTransposer.cpp:392-417 | At rate 1.0 with the counter at SCALE, the output is the input without the carried sample, and the counter stays at SCALE. |
| Interpolation.RateOneFromReset | src/in_2sf/desmume/metaspu/SoundTouch/RateTransposer.cpp:371-376 | At rate 1.0 from the registers as reset here, the output is the carried sample followed by the input, and the counter ends at SCALE. |
| RateTransposer.InterleaveAt | src/in_2sf/desmume/metaspu/SoundTouch/RateTransposer.cpp:461-466 | Frame k of two interleaved lanes holds the left lane's sample k at 2k and the right lane's at 2k + 1. |
| RateTransposer.LanesOfInterleave | src/in_2sf/desmume/metaspu/SoundTouch/RateTransposer.cpp:461-466 | Splitting interleaved frames into lanes gives back the two lanes. |
| RateTransposer.InterleaveOfLanes | src/in_2sf/desmume/metaspu/SoundTouch/RateTransposer.cpp:461-466 | Interleaving the left and right lanes of n frames gives back those 2n samples, so the lanes are a lossless split. |
| RateTransposer.FramesOfLanes | src/in_2sf/desmume/metaspu/SoundTouch/RateTransposer.cpp:461-466 | Frames whose left and right lanes are two given sequences are exactly the interleaving of those sequences. |
| RateTransposer.RateTransposerInteger.constructor | src/in_2sf/desmume/metaspu/SoundTouch/RateTransposer.cpp:117-125 | A new transposer is stereo, with empty buffers. The integer variant's own constructor (lines 356-363 of the same file) resets the registers and sets the rate to 1.0. |
| RateTransposer.RateTransposerInteger.SetRate | src/in_2sf/desmume/metaspu/SoundTouch/RateTransposer.cpp:482-486 | The step added per output sample becomes the given rounded step. Nothing else changes. |
| RateTransposer.RateTransposerInteger.ResetRegisters | src/in_2sf/desmume/metaspu/SoundTouch/RateTransposer.cpp:371-376 | The slope counter and both carried samples become 0. |
| RateTransposer.RateTransposerInteger.SetChannels | src/in_2sf/desmume/metaspu/SoundTouch/RateTransposer.cpp:313-326 | Asking for the current channel count changes nothing. Any other count, 1 or 2, is set on the transposer and its three buffers and resets the registers, keeping the rate. |
| RateTransposer.RateTransposerInteger.Clear | src/in_2sf/desmume/metaspu/SoundTouch/RateTransposer.cpp:330-334 | The output and store buffers are emptied, so IsEmpty holds. Configuration and registers are kept. |
| RateTransposer.RateTransposerInteger.IsEmpty | src/in_2sf/desmume/metaspu/SoundTouch/RateTransposer.cpp:338-344 | True exactly when the output buffer and the store buffer hold no frame between them. The store buffer is looked at only when the output buffer is empty. |
| RateTransposer.RateTransposerInteger.TransposeMono | src/in_2sf/desmume/metaspu/SoundTouch/RateTransposer.cpp:383-423 | The loops write exactly Transpose of the carried sample followed by the input, return its length, and touch nothing in dest beyond it. They carry FinalSlope and the last input sample to the next call. |
| RateTransposer.RateTransposerInteger.TransposeStereo | src/in_2sf/desmume/metaspu/SoundTouch/RateTransposer.cpp:429-477 | An empty input changes nothing. Otherwise dest starts with exactly the interleaving of the two outputs, each being Transpose of its carried sample followed by that channel's lane of the input. Nothing beyond them is touched, and the slope and the last frame carry over. |
| RateTransposer.LeadIn | src/in_2sf/desmume/metaspu/SoundTouch/RateTransposer.cpp:392-401 | The first loop emits the segment from the carried sample to src[0] and leaves the walk in the next segment. |
| RateTransposer.SkipSegments | src/in_2sf/desmume/metaspu/SoundTouch/RateTransposer.cpp:405-410 | Skipping whole segments while the slope exceeds SCALE either ends the walk, with nothing more emitted and the slope left as the walk leaves it, or stops inside a later segment at a slope of at most SCALE without changing what the walk produces. |
| RateTransposer.Interpolate | src/in_2sf/desmume/metaspu/SoundTouch/RateTransposer.cpp:403-418 | The main loop completes the walk over src: dest up to the returned count holds what the loop walk produces from where LeadIn stopped. |
| RateTransposer.LeadInStereo | src/in_2sf/desmume/metaspu/SoundTouch/RateTransposer.cpp:440-451 | The stereo first loop emits both channels' first segments as interleaved frames. |
| RateTransposer.InterpolateStereo | src/in_2sf/desmume/metaspu/SoundTouch/RateTransposer.cpp:453-470 | The stereo main loop completes both channels' walks, interleaved, from src[2·used] and src[2·used + 2]. |

Three points where the code's behaviour departs from the usual description of this FIFO. The model follows the code:

- **The initial register value.** `IPC_FIFOinit` writes 0x0101: both empty bits set and the enable bit clear. The FIFO is therefore disabled after initialisation until a control write sets bit 15, and `Fifo.Init` states this.
- **The error bit is not sticky.** The masks 0xBFFC and 0xBCFF clear bit 14 as well as the two status bits. A successful send or receive therefore clears the error bit of both registers it writes (`SetSendSide`, `SetRecvSide`). A control write can also clear it.
- **Queue size never exceeds 16.** Send checks for a full queue before writing and drops the word, so the ring invariant `size <= 16` holds throughout (`Queue.Valid`).

The register bit positions come from the FIFO header, which is not part of this model. The standard layout is used: send-empty 0x0001, send-full 0x0002, send-IRQ-enable 0x0004, send-clear 0x0008, receive-empty 0x0100, receive-full 0x0200, receive-IRQ-enable 0x0400, error 0x4000, enable 0x8000, writeable 0x8404.

## Left out

- The memory bus (`T1ReadWord`/`T1WriteWord` on `MMU_MEM`) is replaced by the two-element register array.
- `NDS_makeIrq` and `NDS_Reschedule` are recorded as events in `Fifo.events`; what the emulator does with them is not part of this model.
- The register pair and the two queues stand for global arrays that other emulator code can also reach. Only the FIFO's own accesses are modelled.
- IpcFifo.Fifo.Send, IpcFifo.Fifo.Recv, IpcFifo.Fifo.Cnt: the agreement of the status bits with both queues is proved per transition by `SendMirrors`, `RecvMirrors`, `ErrorMirrors` and `CntMirrors` on the registers each method's postcondition names. It is not restated as a class invariant, to keep the heap proofs small. `SendOne`, `ReceiveOne`, `SendAll`, `ReceiveAll` and `SendThenDrain` compose those lemmas with the methods, so the agreement is proved to survive successful transfers when it held before them.
- IpcFifo.Fifo.Init: initialising one processor alone leaves the peer's receive bits as they were. The status bits are stated to mirror the queues only once both sides are initialised.
- The GFX FIFO code of FIFO.cpp is commented out in the source and is not modelled.
- The floating-point transposer, the float computations of `setRate`, and the rounding of the rate to a fixed-point step are not modelled. `RateTransposerInteger.SetRate` takes the already rounded step.
- RateTransposer.RateTransposerInteger.SetRate: takes the rounded fixed-point step as given instead of a float rate, since float arithmetic is not modelled.
- `putSamples`, `processSamples`, `upsample`, `downsample`, `flushStoreBuffer` and the anti-alias filter are not modelled. They move samples between FIFOSampleBuffers and the AAFilter, neither of which is part of this model.
- The `transpose` dispatcher (RateTransposer.cpp:299-309) is not modelled. It only calls the stereo or the mono routine by channel count.
- `operator new`, `newInstance`, the destructors and `enableAAFilter`/`getAAFilter` are not modelled. The constructor is modelled only for the state it gives the integer transposer.
- A FIFOSampleBuffer is reduced to its channel count and frame count. Its own rescaling on `setChannels` is not modelled.
- RateTransposer.RateTransposerInteger.TransposeMono: requires at least two input samples. With fewer, the source reads past the end of `src`, or computes `numsamples - 1` in unsigned arithmetic and loops over memory.
- RateTransposer.RateTransposerInteger.TransposeStereo: requires zero or at least two frames, for the same reason.
- RateTransposer.RateTransposerInteger.TransposeMono: a possible hazard in the source, not executed. `downsample` (RateTransposer.cpp:250-258) passes the anti-alias filter's output count straight to `transpose`, and unlike the stereo routine (line 434) the mono routine has no guard for a count of 0. Whether the filter can return 0 depends on code that is not part of this model.
- RateTransposer.RateTransposerInteger.TransposeMono: the capacity of `dest` is a precondition. The source relies on its caller's size estimate and does not check it.
- RateTransposer.RateTransposerInteger.TransposeStereo: the capacity of `dest` is a precondition, as for the mono routine.
- RateTransposer.RateTransposerInteger.TransposeMono: the slope counter is an unbounded integer. The source's `int` never overflows, because the counter stays at most SCALE + rate and the rate is far below 2^31 for any supported rate.
- RateTransposer.RateTransposerInteger.TransposeStereo: the slope counter is an unbounded integer, as for the mono routine, and for the same reason.
- RateTransposer.RateTransposerInteger.SetChannels: a count other than 1 or 2 is excluded by a precondition, where the source only asserts it.
