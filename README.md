# Frame bus of CameraSerivce, in Dafny

CameraSerivce passes video frames between processes through named shared-memory segments.
The capture process creates the `OriginalFrame` segment and publishes each camera frame into it.
Three consumers read every frame: the circle detector (consumer 0), the optical-flow estimator (consumer 1) and the viewer (consumer 2).
The two transforms each write their result into a segment of their own (`CircleDetectionFrame`, `OpticalFlowFrame`), and the viewer copies those segments out.

Every segment holds one `BufferMemory`: a mutex, two condition variables, a counter `clients_read`, one pending flag `new_frames[i]` per consumer and a single frame slot of 640 × 480 × 3 bytes.
On `OriginalFrame` these fields form a broadcast barrier:
- the producer may overwrite the slot only once all three consumers have read it;
- each consumer may read only when its own flag says a new frame is there.

Because every access to these fields happens under the one mutex, each locked block is one atomic transition.
The protocol is therefore modelled as a sequential state machine:

- `SharedMemoryBuffer` — the constants, the channel names and `BufferState` (counter, flags, slot).
  It also holds `CountCleared`, the number of consumers that have read the current frame, and the barrier invariant `BarrierInv`: the counter equals that number.
- `FrameBus` — the three locked blocks as functions (`Init`, `Publish`, `Consume`) and their guards.
  It defines schedules of steps, and lemmas over every schedule whose steps fired with their guards true: the invariant is kept, no frame is dropped or read twice, every read returns the latest published frame, and a missing consumer stalls the producer.
- `SharedRegion` — `BufferMemory` as a class over arrays.
  Its methods `Init`, `Publish` and `Consume` are the locked blocks, each proved to move `View()` exactly as the matching `FrameBus` function does.
  The module also holds a loop model of `memcpy` and the table of named segments (remove, create-only, open-only).
- `FrameCaptureStage`, `CircleDetectionStage`, `OpticalFlowStage`, `FrameReaderStage` — one class per process.
  Each has `Create` (its segment set-up, with the error paths), `Close` for the destructors that remove a segment, `StopStream`, and `Step`, one pass of the process's `Run` loop.

A blocking wait is a precondition of the method that models its block, and a guard (`FrameBus.Enabled`) in a schedule.
`FrameBus.Next` and `FrameBus.Run` apply a block whether or not its guard holds.
That is what the code does after an `if`-wait returns, and it is used for the findings below.

Three facts about the code shape the model, which follows the code in each:
- each wait is guarded by `if`, not `while`;
- the transform outputs are written and read with no lock and no barrier;
- the transforms' own segments never have their counter or flags initialised.

## Model

| member | source | states |
|---|---|---|
| SharedMemoryBuffer.CountCleared | src/shared_memory_buffer.hpp:21-22 | the number of consumers that have read is at most the number of flags; it equals that number exactly when no flag is set, and is zero exactly when every flag is set |
| SharedMemoryBuffer.CountClearedUpdate | src/circle_detection.cpp:92-93 | storing into one flag changes the number of readers by exactly the change of that flag, so clearing a set flag adds one reader |
| SharedMemoryBuffer.CounterBounded | src/shared_memory_buffer.hpp:21 | under the barrier invariant the shared counter lies in 0 .. kNumOfClients |
| SharedMemoryBuffer.ChannelNamesDistinct | src/shared_memory_buffer.hpp:12-14 | the three channel names are pairwise different, so each names one segment |
| FrameBus.Init | src/frame_capture.cpp:43-46 | after initialisation the invariant holds, no flag is pending, the first publish need not wait, no consumer may read yet, and the slot is untouched |
| FrameBus.Publish | src/frame_capture.cpp:68-85 | after a publish the slot holds exactly the new frame, the counter is 0, every consumer has the frame pending, and the invariant holds |
| FrameBus.Consume | src/circle_detection.cpp:89-93 | a consume adds exactly one to the counter, clears only the reader's own flag, and leaves the slot and the other flags alone |
| FrameBus.ConsumeKeepsInv | src/circle_detection.cpp:92-98 | a guarded consume keeps the invariant, keeps the counter at most kNumOfClients, and notifies frame_done exactly when it leaves no flag pending |
| FrameBus.PublishEnabled | src/frame_capture.cpp:71 | the producer's wait test (counter equals kNumOfClients); under the invariant it holds exactly when no consumer has the current frame pending |
| FrameBus.ConsumeEnabled | src/circle_detection.cpp:85 | a consumer's wait test on its own flag (the same test is at src/optical_flow.cpp:61 and src/frame_reader.cpp:60); under the invariant a consumer can only get through while the counter is below kNumOfClients and the producer is kept waiting |
| FrameBus.SignalsFrameDone | src/circle_detection.cpp:96-98 | the frame_done notify test after a consume (copied in the other two consumers); after a guarded wait it fires exactly when the reader was the last consumer with the frame pending |
| FrameBus.InvariantKept | src/frame_capture.cpp:68-85 | every guarded schedule of publishes and consumes keeps the invariant, so 0 <= counter <= kNumOfClients throughout |
| FrameBus.DrainWithoutPublish | src/circle_detection.cpp:81-99 | with no publish in between, each consumer reads at most once (never if its flag was clear), its flag is set exactly while it has not read, every read sees the same slot, and each read adds one to the counter |
| FrameBus.ExactlyOnceBetweenPublishes | src/frame_capture.cpp:71-84 | between two consecutive publishes every consumer reads exactly once, and every read in between returns the first publish's frame |
| FrameBus.SlotHoldsLatest | src/frame_capture.cpp:75-76 | after any schedule the slot holds the frame of the latest publish, or its initial bytes if there was none |
| FrameBus.ConsumeReturnsLatestPublish | src/circle_detection.cpp:89-90 | after initialisation every consume returns exactly the bytes of the latest publish before it, and such a publish always exists |
| FrameBus.MissingConsumerStalls | src/frame_capture.cpp:71-74 | if some consumer never reads, the producer passes the barrier at most once after initialisation: its second publish never fires |
| FrameBus.RoundTrip | src/frame_capture.cpp:68-85 | a frame published after initialisation is read back unchanged by consumers 0, 1 and 2, after which the producer may publish again |
| FrameBus.SpuriousConsumeBreaksInv | src/circle_detection.cpp:85-93 | a consume block that runs while its flag is clear leaves the counter exactly one above the number of consumers whose flag is clear, so the invariant fails, and the slot is untouched |
| FrameBus.SpuriousConsumeAfterInitStalls | src/circle_detection.cpp:85-98 | such a consume right after initialisation leaves the counter at kNumOfClients + 1 with no flag set, so no guarded step can ever fire again |
| FrameBus.SpuriousPublishDropsFrame | src/frame_capture.cpp:71-84 | a publish block that runs while its guard is false overwrites the slot while some consumer still has the old frame pending |
| SharedRegion.Memcpy | src/frame_capture.cpp:75-76 | the destination buffer ends up holding exactly the source bytes, over the full frame size |
| SharedRegion.BufferMemory.constructor | src/frame_capture.cpp:40-42 | placement construction in a zero-filled segment gives a slot of exactly kFrameWidth*kFrameHeight*kNumOfChannels bytes and kNumOfClients flags, with the barrier not yet consistent |
| SharedRegion.BufferMemory.Init | src/frame_capture.cpp:43-46 | sets the counter to kNumOfClients and clears every flag, leaving the struct in the state FrameBus.Init gives, with the invariant holding |
| SharedRegion.BufferMemory.Publish | src/frame_capture.cpp:68-85 | entered only with counter == kNumOfClients; copies the frame in, resets the counter and sets every flag, as FrameBus.Publish, changing nothing else |
| SharedRegion.BufferMemory.Consume | src/circle_detection.cpp:81-99 | the block shared by consumers 0, 1 and 2 (also src/optical_flow.cpp:57-75 and src/frame_reader.cpp:56-74): entered only with its flag set; the local frame equals the slot; the struct moves as FrameBus.Consume; frame_done is reported exactly when the counter reaches kNumOfClients; the invariant is kept |
| SharedRegion.SharedMemoryNamespace.Remove | src/frame_capture.cpp:11 | removing a name deletes it if present and succeeds either way |
| SharedRegion.SharedMemoryNamespace.CreateOnly | src/frame_capture.cpp:18 | creating a taken name fails with AlreadyExists and changes nothing; otherwise a fresh, not yet initialised segment is added under the name |
| SharedRegion.SharedMemoryNamespace.OpenOnly | src/circle_detection.cpp:20 | opening returns the segment of that name, or NotFound if no process created it |
| FrameCaptureStage.FrameCapture.Create | src/frame_capture.cpp:8-51 | removes a stale OriginalFrame, creates and initialises a fresh one so the first publish does not wait, and fails with CameraOpenFailed exactly when the camera does not open, leaving the segment behind; the segment's flag and slot arrays are freshly allocated |
| FrameCaptureStage.FrameCapture.Close | src/frame_capture.cpp:23-27 | the destructor removes the OriginalFrame segment and nothing else |
| FrameCaptureStage.FrameCapture.StopStream | src/frame_capture.cpp:34-37 | stopping clears the stream flag and reports success |
| FrameCaptureStage.FrameCapture.Step | src/frame_capture.cpp:54-90 | an empty capture ends the loop without touching the buffer; otherwise the resized frame is published as by FrameBus.Publish once every consumer has read, and the loop stops on a key press |
| CircleDetectionStage.CircleDetect.Create | src/circle_detection.cpp:13-49 | replaces CircleDetectionFrame by a fresh segment it leaves uninitialised (not Valid), then opens OriginalFrame, failing with NotFound exactly when it does not exist; the new segment's arrays and the local image are freshly allocated |
| CircleDetectionStage.CircleDetect.Close | src/circle_detection.cpp:26-30 | the destructor removes the CircleDetectionFrame segment only |
| CircleDetectionStage.CircleDetect.StopStream | src/circle_detection.cpp:37-40 | stopping clears the stream flag and reports success |
| CircleDetectionStage.CircleDetect.Step | src/circle_detection.cpp:78-114 | consumes as consumer 0, draws on the local copy of the slot, and overwrites the whole sender slot with the drawn frame, leaving the sender's counter and flags untouched |
| OpticalFlowStage.OpticalFlow.Create | src/optical_flow.cpp:13-49 | replaces OpticalFlowFrame by a fresh segment it leaves uninitialised (not Valid), then opens OriginalFrame, failing with NotFound exactly when it does not exist; the new segment's arrays and the local image are freshly allocated |
| OpticalFlowStage.OpticalFlow.Close | src/optical_flow.cpp:26-30 | the destructor removes the OpticalFlowFrame segment only |
| OpticalFlowStage.OpticalFlow.StopStream | src/optical_flow.cpp:37-40 | stopping clears the stream flag and reports success, leaving the flow loop's first-frame flag and both grayscale images as they were |
| OpticalFlowStage.OpticalFlow.Step | src/optical_flow.cpp:55-102 | consumes as consumer 1; on the first frame it only stores its grayscale image and writes nothing; later it overwrites only the sender's slot with the flow image of the previous and current grayscale images, then swaps the two |
| FrameReaderStage.FrameReader.Create | src/frame_reader.cpp:12-52 | opens the three channels without changing the segment table, failing with NotFound unless all three exist; the three local images are freshly allocated |
| FrameReaderStage.FrameReader.StopStream | src/frame_reader.cpp:38-41 | stopping clears the stream flag and reports success |
| FrameReaderStage.FrameReader.Step | src/frame_reader.cpp:55-91 | consumes as consumer 2 and copies both transform slots into local frames equal to them, leaving both transform segments entirely unchanged |

## Left out

- The OpenCV work (grayscale conversion, blur, Hough circles, circle drawing, Farneback flow, flow colouring) is floating point and foreign code. Each transform is a function parameter from frame to frame, or to a grayscale image.
- Camera capture, `resize`, `imshow` and `waitKey` are device and display I/O. The captured bytes, the resize function, whether the camera opens and whether a key was pressed are parameters. Because `resize` returns a `Frame`, every publish copies exactly kFrameWidth*kFrameHeight*kNumOfChannels bytes: the model assumes the capture is 8-bit with 3 channels, the only format in which `frame_.total() * frame_.elemSize()` (src/frame_capture.cpp:75-76) equals the slot size.
- Condition-variable semantics are left out: wake-ups, blocking, `notify_all` and `notify_one`. A wait is a precondition or a guard. The `frame_done` notification is the `frameDone` result of a consume. The mutex is the atomicity of each block.
- The `while (enable_stream_)` loops of the `Run` methods are modelled one pass at a time, by `Step`. Each pass blocks on other processes, so sequences of passes are the schedules of `FrameBus`.
- The transform output channels have no lock, so a reader may see a frame half overwritten. The model treats each copy into or out of such a slot as atomic.
- Races between processes during set-up are left out: another process could create a name between remove and create, or a consumer could open OriginalFrame before its barrier is initialised.
- Mapping a region, `truncate`, and unmapping at exit are not modelled; creating a segment yields its constructed struct directly. Exceptions thrown during construction are `Err` results.
- FrameReaderStage.FrameReader has no destructor model: the destructor only sets pointers to null, and nothing in the model observes that. That it never creates, initialises or removes a segment shows in `Create`, which does not modify the segment table, and in `Step`.
- SharedRegion.BufferMemory.constructor: the initial counter and flags are taken as zero, as in a zero-filled segment, not as indeterminate values.
- src/frame_rater.hpp (tick arithmetic in `double`), src/test1.cpp (a stale example using fields `BufferMemory` does not have), the `main` functions and `DrawOpticalFlow`'s pixel loop are not part of this model.

## Findings

| source | as written | input that shows it | evidently intended | confidence | as-written member | corrected member |
|---|---|---|---|---|---|---|
| src/circle_detection.cpp:85-93 | each consumer waits with `if (!new_frames[id]) frame_ready.wait(lock);` and then always reads, increments `clients_read` and clears its flag (likewise src/optical_flow.cpp:61-69, src/frame_reader.cpp:60-68) | a spurious wake-up of `frame_ready` while `new_frames[id]` is false. Right after Init this sets `clients_read` to 4: the producer waits for a frame_done notification that no consume ever sends, and every consumer waits for a flag that is never set | re-check the flag in a `while` loop, so the block runs only with its flag set | low; not executed; needs a spurious wake-up, which the condition variable permits | FrameBus.SpuriousConsumeAfterInitStalls | FrameBus.InvariantKept |
| src/frame_capture.cpp:71-84 | the producer waits with `if (clients_read != kNumOfClients) frame_done.wait(lock);` and then always overwrites the slot | a spurious wake-up of `frame_done` while some consumer's flag is still set: that consumer never sees the overwritten frame | re-check the counter in a `while` loop | low; not executed; needs a spurious wake-up | FrameBus.SpuriousPublishDropsFrame | FrameBus.ExactlyOnceBetweenPublishes |
