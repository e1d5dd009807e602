# Verification of audio_utils, camera metadata and audio_route

This project models the stateful core of four components of the repository, and six of its
smaller in-place algorithms, and proves what they are for.

* **The lock-free FIFO** (`audio_utils/fifo.cpp`). Indices are wrapping 32-bit words
  `generation * P2 + offset`. They are tied to unbounded counters, so that "exact" has a meaning
  across the 32-bit wrap. Writer and reader run as interleaved atomic steps with snapshots that
  may be stale; the classes show that the methods take just these steps.
* **The packed camera metadata buffer** (`camera/src/camera_metadata.c`). Its entry table and heap
  are changed in place; the abstract view is the sequence of (tag, type, value bytes). The
  validator is modelled on arbitrary bytes as well as on the buffers that the interface makes.
* **The timer queue** (`audio_utils/TimerQueue.cpp`): clocks with two indices and an armed
  one-shot deadline, and runs of add, remove and thread passes over both clocks.
* **The IEC 61937 burst encoder** (`audio_utils/spdif`): a byte-stream state machine that finds
  frames and packs them into bursts. That everything past the cursor is zero is part of the
  encoder's invariant.
* **MEL interval merging, channel re-interleaving, the FFT's bit reversal, reference-counted mixer
  routes, copying by channel masks, 16-bit minifloats.**

Code that changes objects in place is a class or a method on arrays, proved against functions on
values. The theorems over whole runs are lemmas about these functions.

| module | contents |
|---|---|
| `Bits`, `Slices`, `Wrappers` | the C bit operators on two's-complement words, powers of two, exact quotients; writing into a buffer; optional results |
| `FifoIndex`, `FifoProtocol`, `Fifo` | index arithmetic; the interleaved protocol; the writer and reader classes |
| `Packet`, `PacketRules`, `Metadata` | the buffer as a value; sorted flag, zero-count rule, validator, runs; the class |
| `TimerSpec`, `TimerQueue` | runs of the queue; the clocks and the queue as classes |
| `SpdifSpec`, `SpdifStream`, `Spdif` | scanner and encoder as functions; cuts, plain AC-3 streams, frames behind noise; the classes |
| `SpdifFraming`, `SpdifGroups`, `SpdifEnhancedStream`, `SpdifOverflow` | bursts of any stream while overflows are harmless; E-AC-3 frames and their bursts; E-AC-3 streams with any bytes between the frames; exactly which overflows spoil a burst |
| `Mel`, `Channels`, `Fft`, `Route`, `MaskCopy`, `Minifloat` | one module for each smaller component |

## Findings

Properties that the code does not have everywhere. Each is stated as an exact condition, or with
the inputs that break it.

* The assertion in `sum` admits increments up to P2, but offsets stay valid from every starting
  point only for increments up to the capacity (`FifoIndex.SumStaysValidIff`).
* `diff` is right exactly while the writer is fewer than G generations ahead
  (`FifoIndex.DiffExactIff`).
* `available()` promises not to affect the releasable frames. For a reader that is found overrun
  it moves the front but keeps the obtained count. So, flushing or not, the releasable frames are
  still those obtained exactly if it found no overrun or none were obtained
  (`FifoProtocol.AvailableKeepsReleasableIff`); otherwise a release passes frames that were never
  obtained (`FifoProtocol.StaleReleasePasses`). A new FIFO of any size gets there by a buffer
  written and obtained, and one frame more (`FifoProtocol.StaleReleaseReached`).
* Appending to an empty buffer that is flagged as sorted only ORs the source's flag; the result
  may be flagged without being sorted (`PacketRules.AppendKeepsFlagIff`,
  `PacketRules.SortedFlagCanLie`).
* Updating an entry to zero values leaves its old union, which the validator rejects unless it
  reads as offset 0 (`PacketRules.UpdateKeepsZerosIff`, `PacketRules.UpdateIsAcceptedIff`). A
  buffer with one byte that is not 0, emptied, is rejected (`PacketRules.EmptiedIsRejected`).
* A timer for a time that is not positive is disarmed, not armed
  (`TimerQueue.PendingButDisarmedIff`).
* When the burst buffer overflows, what it held is dropped, preamble included, but the rest of the
  frame is still written. A new E-AC-3 encoder that gets eight frames of 4094 bytes, the first and
  the last of them independent, sends a burst without preamble (`SpdifOverflow.PayloadSentAsBurst`).
  All bursts are framed, whatever follows without an overflow, exactly if each overflow ends its
  frame or leaves at most 8 bytes of a plain one (`SpdifOverflow.AlwaysFramedIff`); for E-AC-3
  frames, exactly if none of them comes when there is no room for its header
  (`SpdifOverflow.FramesAlwaysFramedIff`).
* An overflow also shows how the stream was cut into writes: a cut is invisible exactly if the
  chunk before it does not overflow inside a frame (`SpdifStream.CutInvisibleIff`), and a new
  encoder reaches cuts that show (`SpdifOverflow.ReachableUnsafeCut`).
* The sync matcher drops the byte that breaks a match. A frame behind bytes that hold no sync word
  is found exactly if the run of 0x0B bytes at their end has even length
  (`SpdifStream.FrameBehindNoiseIff`).
* An empty MEL record is stored although it has no seconds. A later record at its timestamp is
  dropped whole, and the merge of a longer one stops at it. Later additions are right for every
  second exactly if the empty record's timestamp was stored already, so that it is dropped
  (`Mel.EmptyHarmlessIff`), provided that no value absorbs all others.
* 24-bit contraction to mono never advances its output pointer (`Channels.Mono24RightIff`).
* Resetting a mixer path that was not applied ends the use that another path has of a shared
  control (`Route.UnappliedResetTakes`). After any calls a reset leaves a control alone exactly if
  more than one use is counted or it has the reset value anyway (`Route.ResetKeepsInRunIff`).
* `fixed_fft_real` arrives at a negative shift count for more than 512 samples
  (`Fft.RealScaleIff`).
* Encoding the decoded value of a sample gives the pattern back except for negative zero
  (`Minifloat.SampleRoundTripIff`).

The comments of the AC-3 scanner cite "IEC 61973-3"; the standard meant is section 5.3.3 of
IEC 61937-3.

## Model

| member | source | states |
|---|---|---|
| `FifoIndex.RoundupIsLeastPowerOfTwo` | audio_utils/roundup.c:19-32 | the result is the least power of two not below the argument, except above 2^31, where it is 2^31 |
| `FifoIndex.ConstructedIsValid` | audio_utils/fifo.cpp:33-46 | every frame count up to INT32_MAX gives P2, mask and fudge factor that the index arithmetic relies on |
| `FifoIndex.SumExact` | audio_utils/fifo.cpp:52-68 | for every counter and every increment up to the capacity, sum on indices is addition on counters, across the 32-bit wrap too |
| `FifoIndex.SumStaysValidIff` | audio_utils/fifo.cpp:52-68 | of the increments that the assertion admits, exactly those up to the capacity keep all offsets valid |
| `FifoIndex.DiffExactIff` | audio_utils/fifo.cpp:70-121 | diff returns the true distance, or an overrun with the true loss, exactly when the writer is fewer than G generations ahead |
| `Fifo.CorruptIff` | audio_utils/fifo.cpp:70-100 | diff reports corruption exactly if one of the words stands for no counter |
| `FifoIndex.IndexOfPowerOfTwo` | audio_utils/fifo.cpp:33-68 | for a power of two no code is wasted: an index is the counter modulo 2^32 |
| `FifoProtocol.SlotIsHome` | audio_utils/fifo.cpp:291-305 | the two fragments of a slice are the homes of consecutive frames, the wrap included |
| `FifoProtocol.DiffNear` | audio_utils/fifo.cpp:70-121 | counters no further apart than the capacity are never reported as overrun or corrupt |
| `FifoProtocol.StepKeeps` | audio_utils/fifo.cpp:180-371 | every load, copy and publication by either side keeps the invariant, with stale snapshots; only releasing more than was obtained shuts the FIFO down |
| `FifoProtocol.FramesArriveInOrder` | audio_utils/fifo.cpp:180-371 | after any schedule of a writer and a throttling reader the frames read are a prefix of the frames written, and no side touches the other's slice |
| `FifoProtocol.InvSeparates` | audio_utils/fifo.cpp:427-639 | what the writer may fill is disjoint from unread frames and from the slice being read, and that slice holds the frames written there |
| `FifoProtocol.HistoryGrows` | audio_utils/fifo.cpp:180-371 | no schedule rewrites frames already written or read |
| `FifoProtocol.FreshSnapshotsAreExact` | audio_utils/fifo.cpp:537-639 | with fresh snapshots the writer gets all the room that its effective size leaves, and the reader all unread frames |
| `FifoProtocol.FreeStepKeeps` | audio_utils/fifo.cpp:427-639 | whether or not another reader throttles the writer, steps keep the frames of the last lap and the loss accounting intact while the reader stays within reach |
| `FifoProtocol.BackOneLap` | audio_utils/fifo.cpp:608-619 | the front that obtain falls back to, rear - P2, is the index one capacity before the rear |
| `FifoProtocol.OverrunIsExact` | audio_utils/fifo.cpp:608-619 | an overrun reports exactly the frames skipped, and moves the front to the rear less the capacity, or to the rear when flushing |
| `FifoProtocol.LossIsAccountedFor` | audio_utils/fifo.cpp:537-639 | over whole runs the total released is the advance of the front, and the frames lost plus the frames delivered, which are those of the slice that was obtained; no run is excluded but those that fall G generations behind or release frames not yet written |
| `FifoProtocol.CatchUpSeesLatest` | audio_utils/fifo.cpp:603-625 | after an overrun the next obtain sees exactly the latest N frames if nothing more is written |
| `FifoProtocol.UnoverwrittenFrameIsRight` | audio_utils/fifo.cpp:452-469 | a frame copied without throttling is right if the writer has not reached its slot |
| `FifoProtocol.AvailableKeepsReleasableIff` | audio_utils/fifo.cpp:641-663 | for every reader, after available() the releasable frames are those obtained exactly if no overrun was found or none were obtained |
| `FifoProtocol.StaleReleasePasses` | audio_utils/fifo.cpp:478-534 | otherwise a release delivers the old frames but advances the front from its new place |
| `FifoProtocol.StaleReleaseReached` | audio_utils/fifo.cpp:603-663 | from a new FIFO of any size a run reaches a state in which available() leaves frames releasable that were not obtained |
| `FifoProtocol.LossIsExact` | audio_utils/fifo.cpp:537-639 | in every run without such an available(), no frame is delivered twice, and the loss counts exactly the frames passed but not delivered |
| `Fifo.Fifo.constructor` | audio_utils/fifo.cpp:131-149 | a FIFO of any size up to INT32_MAX starts empty, with a valid geometry |
| `Fifo.CopySlice` | audio_utils/fifo.cpp:180-197 | the two copies of write put the frames in the slots of the slice and change no other slot |
| `Fifo.FifoWriter.AwaitRoom` | audio_utils/fifo.cpp:200-291 | the retry loop decides on the last index loaded: the first with room, corruption or an overrun, or the one behind the last wait that the timeout and the retries allow; the error is that of this wait |
| `Fifo.FifoWriter.Obtain` | audio_utils/fifo.cpp:200-307 | the slice and the obtained count are those of the protocol's step for the index loaded |
| `Fifo.FifoWriter.Release` | audio_utils/fifo.cpp:309-371 | publishes exactly the released frames, and shuts down on releasing more than was obtained |
| `Fifo.FifoWriter.Write` | audio_utils/fifo.cpp:180-197 | the frames accepted are in the buffer at their homes, all other slots are as before, the rear has moved by their number and is published, and the return value tells how many or why none |
| `Fifo.FifoWriter.Resize` | audio_utils/fifo.cpp:379-395 | the effective size is clamped to the capacity |
| `Fifo.FifoReader.AwaitFrames` | audio_utils/fifo.cpp:537-602 | the loop ends at the first rear index that is new, or at the one behind the last wait that the timeout and the retries allow; the error is that of this wait |
| `Fifo.FifoReader.TakeStock` | audio_utils/fifo.cpp:603-627 | the new front, totals and loss are those of the protocol's step |
| `Fifo.FifoReader.Obtain` | audio_utils/fifo.cpp:537-639 | fields and slice are those of the protocol's step for the index loaded |
| `Fifo.FifoReader.Release` | audio_utils/fifo.cpp:478-534 | advances the front by the released frames and publishes it for the writer when throttling |
| `Fifo.FifoReader.Read` | audio_utils/fifo.cpp:452-469 | the frames returned are those of the slice from the front on, in order; the front has passed them and, if the reader throttles, is published for the writer; the return value tells how many or why none |
| `Fifo.FifoReader.Flush` | audio_utils/fifo.cpp:652-663 | everything available is released as a read would, and counted |
| `Fifo.ReadIsProtocol` | audio_utils/fifo.cpp:452-469 | a read or a flush is an obtain and a release of the protocol, whose consumed frames are those handed out, so that the theorems on schedules speak of it |
| `Fifo.WriteIsProtocol` | audio_utils/fifo.cpp:180-197 | a write is an obtain, stores and a release of the protocol, and publishes just the frames that it took |
| `Fifo.WordIsIndex` | audio_utils/fifo.cpp:52-68 | every word with a valid offset stands for some counter, so the methods need no counter to be exact |
| `Packet.DataSize` | camera/src/camera_metadata.c:395-403 | values of up to 4 bytes take no heap, others take their size rounded up to 8 |
| `Packet.UnionRoundTrip` | camera/src/camera_metadata.c:687-722 | the union gives back the offset stored in it |
| `Packet.PlaceIsWellFormed` | camera/src/camera_metadata.c:266-296 | a new buffer holds no items and an empty heap |
| `Packet.AddRefines` | camera/src/camera_metadata.c:687-740 | adding appends one item with the given bytes, and the extents still tile the heap exactly |
| `Packet.AppendRefines` | camera/src/camera_metadata.c:617-668 | appending concatenates the items, with the source's extents behind the destination's |
| `Packet.CopyPreserves` | camera/src/camera_metadata.c:345-371 | a copy has the same items, flag and vendor |
| `Packet.CutKeepsTiles` | camera/src/camera_metadata.c:840-860 | cutting an extent out and lowering the later offsets leaves the others aligned, disjoint and exactly tiling the heap |
| `Packet.DeleteRefines` | camera/src/camera_metadata.c:832-869 | deleting removes that item and no other, and closes the gap in the heap |
| `Packet.UpdateRefines` | camera/src/camera_metadata.c:871-945 | updating replaces the bytes of that item, inline or not, moved or not, and touches no other item |
| `Packet.SortRefines` | camera/src/camera_metadata.c:750-761 | reordering the table by any permutation reorders the items in the same way; the heap stays tiled |
| `Packet.SortingOrderExists` | camera/src/camera_metadata.c:742-761 | there is always an order that qsort may return |
| `PacketRules.AddFitsIff` | camera/src/camera_metadata.c:687-705 | adding succeeds exactly if the result fits into the capacities |
| `PacketRules.AppendFitsIff` | camera/src/camera_metadata.c:617-640 | appending succeeds, the vendors allowing it, exactly if the result fits |
| `PacketRules.UpdateFitsIff` | camera/src/camera_metadata.c:889-897 | updating succeeds exactly if the result fits |
| `PacketRules.AppendKeepsFlagIff` | camera/src/camera_metadata.c:647-658 | the sorted flag stays right except for an empty flagged destination and an unsorted source |
| `PacketRules.SortedFlagCanLie` | camera/src/camera_metadata.c:647-658 | that exception is reached by sorting an empty buffer and appending two entries out of order |
| `PacketRules.UpdateKeepsZerosIff` | camera/src/camera_metadata.c:889-945 | the rule for entries without values survives an update exactly if there are values, or the old union reads as 0 |
| `PacketRules.Validate` | camera/src/camera_metadata.c:405-615 | the loop accepts exactly the buffers with counts within capacities, table and heap in order within the size without wrap-around, and each entry of a known type that its tag is registered for or a vendor tag, aligned and inside the heap, or without values reading as offset 0 |
| `PacketRules.AcceptedReadsStayInside` | camera/src/camera_metadata.c:763-782 | in any accepted buffer, trusted or not, the values of every entry lie inside its union or the heap, and all inside the declared size |
| `PacketRules.ProducedIsAcceptedIff` | camera/src/camera_metadata.c:405-615 | a well-formed buffer at any address is accepted exactly if its entries without values read as offset 0 |
| `PacketRules.UpdateIsAcceptedIff` | camera/src/camera_metadata.c:889-945 | so of the updates of a buffer made by the interface, the validator accepts exactly those |
| `PacketRules.EmptiedIsRejected` | camera/src/camera_metadata.c:889-945 | place, add one byte that is not 0, update to no values: a buffer that the validator rejects at any address |
| `PacketRules.StepRefines` | camera/src/camera_metadata.c:617-945 | each call changes the abstract view as the abstract call says and keeps tiling, flag, zero rule and types |
| `PacketRules.StepLeaves` | camera/src/camera_metadata.c:617-945 | beside the items a call leaves the capacities and, but for an append to a buffer without one, the vendor; an append of another vendor is refused; the flag after each call |
| `PacketRules.EveryBufferIsAccepted` | camera/src/camera_metadata.c:266-945 | from place_camera_metadata on, whatever careful calls follow, the validator accepts the buffer, at any address; an unaligned one only gets the verdict that it is shifted |
| `Metadata.CameraMetadata.Place` | camera/src/camera_metadata.c:266-296 | the new buffer is valid and empty, whatever the storage held |
| `Metadata.CameraMetadata.CopyOf` | camera/src/camera_metadata.c:345-371 | the copy has the items, the flag and the vendor of the source |
| `Metadata.CameraMetadata.AddEntry` | camera/src/camera_metadata.c:687-740 | succeeds exactly if there is room, and then the live part is the one that adding specifies |
| `Metadata.CameraMetadata.Append` | camera/src/camera_metadata.c:617-668 | succeeds exactly if there is room, and then the live part is the appended one; the source may be the buffer itself |
| `Metadata.CameraMetadata.RebaseTable` | camera/src/camera_metadata.c:633-645 | the loop moves exactly the appended entries' extents |
| `Metadata.CameraMetadata.ShiftTable` | camera/src/camera_metadata.c:849-858 | the loop lowers exactly the offsets behind the cut |
| `Metadata.CameraMetadata.Delete` | camera/src/camera_metadata.c:832-869 | in place, the live part becomes the one without that item |
| `Metadata.CameraMetadata.Update` | camera/src/camera_metadata.c:871-945 | succeeds exactly if there is room, and then the live part is the updated one |
| `Metadata.CameraMetadata.Sort` | camera/src/camera_metadata.c:750-761 | the table is in the order of tags that qsort gave and flagged as sorted, or unchanged if it was flagged before |
| `Metadata.CameraMetadata.GetEntry` | camera/src/camera_metadata.c:763-782 | gives the item at that index, or nothing outside the table |
| `Metadata.CameraMetadata.LinearFind` | camera/src/camera_metadata.c:808-818 | finds the first entry with the tag, or there is none |
| `Metadata.CameraMetadata.BinaryFind` | camera/src/camera_metadata.c:797-807 | in a sorted table finds an entry with the tag, or there is none |
| `Metadata.CameraMetadata.Find` | camera/src/camera_metadata.c:791-822 | both searches agree on whether a tag is present, and on the item if the tag is unique |
| `Metadata.CameraMetadata.Clone` | camera/src/camera_metadata.c:670-685 | the clone is a valid buffer of its own with the same items |
| `TimerSpec.StepKeeps` | audio_utils/TimerQueue.cpp:247-373 | add, remove and a pass keep each event in one place, each id unique, and every execution in time |
| `TimerSpec.EveryEventInOnePlace` | audio_utils/TimerQueue.cpp:247-373 | in every run each event is in exactly one of pending, executed and removed, ran at most once though on two clocks, and never before its earliest time |
| `TimerSpec.EventsKeepTheirTimes` | audio_utils/TimerQueue.cpp:247-284 | in every run each pending event is on the clock that wakes the device at its hard deadline, if there is such a clock, and on the other one at its soft deadline; one with a single time is on one clock; all have the priority they were added with |
| `TimerSpec.RemovedNeverRuns` | audio_utils/TimerQueue.cpp:286-298 | remove returns true exactly for an event that neither ran nor was removed, and it never runs afterwards |
| `TimerSpec.PassTakesAllDue` | audio_utils/TimerQueue.cpp:324-373 | a pass leaves nothing due behind and takes nothing that is not due |
| `TimerSpec.RunGrows` | audio_utils/TimerQueue.cpp:247-373 | executions and removals are never undone |
| `TimerSpec.CountingNeverReuses` | audio_utils/TimerQueue.cpp:300-308 | until the id counter wraps no live id is handed out again |
| `TimerSpec.IdsGoRound` | audio_utils/TimerQueue.cpp:300-308 | the ids go round from 1 to 2^63 - 1, none of them left out or invalid |
| `TimerQueue.AlarmClock.ArmTimerForNextEvent` | audio_utils/TimerQueue.cpp:434-443 | the deadline is the least pending time, 0 if there is none, or the one that wakes the thread when stopping |
| `TimerQueue.AlarmClock.Add` | audio_utils/TimerQueue.cpp:391-401 | one more event; indices agree and the deadline is the least pending time, though the timer is set only for a new first event |
| `TimerQueue.AlarmClock.Remove` | audio_utils/TimerQueue.cpp:403-432 | removes the event from both indices and re-arms if it was the next one; tells whether it was there |
| `TimerQueue.AlarmClock.CollectEvents` | audio_utils/TimerQueue.cpp:445-459 | collects exactly the events due, and keeps the others and the deadline right |
| `TimerQueue.AlarmClock.RemoveEvents` | audio_utils/TimerQueue.cpp:461-465 | removes what the other clock collected |
| `TimerQueue.TimerQueue.Add` | audio_utils/TimerQueue.cpp:247-263 | the step of the queue, or an invalid id when the queue is unusable |
| `TimerQueue.TimerQueue.AddSoftHard` | audio_utils/TimerQueue.cpp:265-284 | the event is registered on both clocks |
| `TimerQueue.TimerQueue.Remove` | audio_utils/TimerQueue.cpp:286-298 | the step of the queue on both clocks; true exactly for a live id |
| `TimerQueue.TimerQueue.Pass` | audio_utils/TimerQueue.cpp:324-373 | collecting on both clocks, cross-removal and sorting are one step that runs each due event once, by priority time |
| `TimerQueue.DeviceWakes` | audio_utils/TimerQueue.cpp:265-284 | after any calls and passes, the alarm clock is due no later than the hard deadline of any pending event, and armed if these are positive |
| `TimerQueue.TimerQueue.Stop` | audio_utils/TimerQueue.cpp:229-245 | stopping arms the clocks so that the thread wakes |
| `TimerQueue.CollectedIsDue` | audio_utils/TimerQueue.cpp:341-358 | what the two clocks collect together is the set of due events, and what is left is the rest |
| `TimerQueue.SortByPriority` | audio_utils/TimerQueue.cpp:358-366 | each event once, in non-decreasing priority time |
| `TimerQueue.FirstIsLeast` | audio_utils/TimerQueue.cpp:434-443 | the first element of the time index carries the least pending time |
| `TimerQueue.AlarmClock.SetTimer` | audio_utils/TimerQueue.cpp:143-155 | the timer is armed for a positive time and disarmed for any other |
| `TimerQueue.PendingButDisarmedIff` | audio_utils/TimerQueue.cpp:143-155 | a clock that adds, removes and collects keeps valid has its timer disarmed, with events pending, exactly if one of their times is not positive; an armed timer has the least pending time |
| `SpdifStream.EncodeAppend` | audio_utils/spdif/SPDIFEncoder.cpp:256-301 | write(a) then write(b) is write(a ++ b), output and state, if the cut does not split a payload chunk that overflows |
| `SpdifStream.CutInvisibleIff` | audio_utils/spdif/SPDIFEncoder.cpp:133-161 | cutting the stream there is invisible to all continuations exactly under that condition |
| `SpdifStream.UnpackBurst` | audio_utils/spdif/SPDIFEncoder.cpp:124-161 | unpacking a burst most significant byte first gives the frame back |
| `SpdifStream.PaddingIsZero` | audio_utils/spdif/SPDIFEncoder.cpp:163-177 | behind the frame a burst holds zeros |
| `SpdifStream.PlainRun` | audio_utils/spdif/SPDIFEncoder.cpp:190-301 | for every plain AC-3 stream the output is one burst for each recognised frame: preamble, length in bits, frame bytes, zeros to the burst size |
| `SpdifStream.PlainWrites` | audio_utils/spdif/SPDIFEncoder.cpp:256-301 | for plain AC-3 any division into writes gives the same output and state |
| `SpdifStream.ReceiverGetsFrames` | audio_utils/spdif/SPDIFEncoder.cpp:256-301 | a receiver gets back the frames of the stream, in order, however it was written |
| `SpdifStream.NoiseSkipped` | audio_utils/spdif/FrameScanner.cpp:51-77 | bytes without a sync word are skipped, and take the first byte of what follows with them exactly if an odd run of 0x0B ends them |
| `SpdifStream.FrameBehindNoiseIff` | audio_utils/spdif/FrameScanner.cpp:51-77 | so a frame behind them is found exactly if that run is even |
| `SpdifStream.GoodHeader` | audio_utils/spdif/AC3FrameScanner.cpp:168-273 | a valid plain header starts a burst with its preamble and leaves the rest of the frame to be written |
| `SpdifFraming.CleanRunIsFramed` | audio_utils/spdif/SPDIFEncoder.cpp:103-301 | for every stream all bursts have one of the two sizes and begin with the sync words, as long as each overflow ends its frame |
| `SpdifFraming.FittingWrites` | audio_utils/spdif/SPDIFEncoder.cpp:256-301 | a stream of any kind that does not overflow in one write has the same output and state in any division into writes |
| `SpdifGroups.HeaderParsed` | audio_utils/spdif/AC3FrameScanner.cpp:168-273 | a valid header of an E-AC-3 stream: data type, mode, rate, frame size, and the blocks it adds to substream 0 |
| `SpdifGroups.FrameRun` | audio_utils/spdif/SPDIFEncoder.cpp:240-301 | one whole frame: when the burst before it goes out, what the buffer holds behind it, with and without overflow, and which overflows are harmless |
| `SpdifGroups.FittingIffGroupsFit` | audio_utils/spdif/SPDIFEncoder.cpp:103-161 | an E-AC-3 stream overflows nowhere exactly if each group of frames fits into the buffer with its preamble |
| `SpdifGroups.EnhancedRun` | audio_utils/spdif/SPDIFEncoder.cpp:190-301 | for frames back to back, while all groups fit, each closed one has gone out as one burst: preamble, length in bytes, exactly its frames one behind the other, zeros; the open one is in the buffer |
| `SpdifGroups.SeventhBlock` | audio_utils/spdif/AC3FrameScanner.cpp:133-153 | a frame is the first in a burst exactly if it holds block 6j + 1 of substream 0 for some j > 0, counted over the whole stream |
| `SpdifGroups.BurstsEnded` | audio_utils/spdif/AC3FrameScanner.cpp:133-153 | of n blocks of substream 0, (n - 1) / 6 bursts have gone out |
| `SpdifGroups.UnpackGroup` | audio_utils/spdif/SPDIFEncoder.cpp:124-161 | unpacking a burst gives the frames of its group back |
| `SpdifGroups.ReceiverGetsGroups` | audio_utils/spdif/SPDIFEncoder.cpp:256-301 | a receiver gets a stream of frames back to back byte for byte, up to the group still open, however it was written |
| `SpdifEnhancedStream.AllFound` | audio_utils/spdif/FrameScanner.cpp:51-77 | of frames back to back, the scanner finds each |
| `SpdifEnhancedStream.StreamFitsIff` | audio_utils/spdif/SPDIFEncoder.cpp:103-161 | any bytes given to an E-AC-3 encoder overflow nowhere exactly if all groups of the frames that they hold fit into the buffer |
| `SpdifEnhancedStream.StreamBursts` | audio_utils/spdif/SPDIFEncoder.cpp:190-301 | then one burst has gone out for each closed group, with the frames found and none of the bytes between them, an unfinished frame at the end included in the grouping |
| `SpdifEnhancedStream.ReceiverGetsStream` | audio_utils/spdif/SPDIFEncoder.cpp:256-301 | a receiver gets the frames of any such stream back, up to the group still open, however it was written |
| `SpdifOverflow.AlwaysFramedIff` | audio_utils/spdif/SPDIFEncoder.cpp:133-161 | at every moment of a write, all bursts are framed for every continuation that does not overflow, exactly if each overflow ends its frame or leaves at most 8 bytes of a plain one |
| `SpdifOverflow.FramesAlwaysFramedIff` | audio_utils/spdif/SPDIFEncoder.cpp:133-161 | for E-AC-3 frames, exactly if by their sizes none comes when there is no room for its header |
| `SpdifOverflow.PayloadSentAsBurst` | audio_utils/spdif/SPDIFEncoder.cpp:133-139 | a stream that makes a new encoder send payload as a burst without preamble |
| `SpdifOverflow.ReachableUnsafeCut` | audio_utils/spdif/SPDIFEncoder.cpp:133-139 | a stream and a cut that shows, from a new encoder |
| `SpdifSpec.SizeFromRate` | audio_utils/spdif/AC3FrameScanner.cpp:37-77 | each entry of the table is the number of words that the bit rate yields in 1536 samples, with one more for odd codes at 44.1 kHz |
| `SpdifStream.PlainFrameAt` | audio_utils/spdif/AC3FrameScanner.cpp:168-273 | behind a sync word the header bytes decide: a plain frame of the size of its bit rate, an E-AC-3 frame, or six bytes that are skipped |
| `SpdifEnhancedStream.EnhancedFrameAt` | audio_utils/spdif/AC3FrameScanner.cpp:196-240 | an E-AC-3 frame has the size in its header, and adds 1, 2, 3 or 6 blocks if it is of substream 0 |
| `Spdif.Ac3FrameScanner.ParseHeaderBytes` | audio_utils/spdif/AC3FrameScanner.cpp:168-273 | the verdict, and data type, mode, rate multiplier, frame size, stream and block counts, are as specified for plain and enhanced headers |
| `Spdif.Ac3FrameScanner.ScanByte` | audio_utils/spdif/FrameScanner.cpp:51-77 | one byte through the sync and header machine |
| `Spdif.Ac3FrameScanner.ResetCounts` | audio_utils/spdif/AC3FrameScanner.cpp:115-126 | the loop takes six blocks, or what is left, from every substream |
| `Spdif.SPDIFEncoder.WriteBurstBufferShorts` | audio_utils/spdif/SPDIFEncoder.cpp:109-122 | appends the words at the next even byte, or resets on overflow |
| `Spdif.SPDIFEncoder.PackBytes` | audio_utils/spdif/SPDIFEncoder.cpp:145-160 | the loop appends the bytes, the first of a pair in the most significant half, and leaves zeros behind the cursor |
| `Spdif.SPDIFEncoder.WriteBurstBufferBytes` | audio_utils/spdif/SPDIFEncoder.cpp:133-161 | appends the bytes, or clears the buffer on overflow |
| `Spdif.SPDIFEncoder.SendZeroPad` | audio_utils/spdif/SPDIFEncoder.cpp:163-177 | moving the cursor pads with zeros, since nothing else is there |
| `Spdif.SPDIFEncoder.FlushBurstBuffer` | audio_utils/spdif/SPDIFEncoder.cpp:190-212 | the length code is set, the padded burst goes out, the encoder is reset |
| `Spdif.SPDIFEncoder.StartDataBurst` | audio_utils/spdif/SPDIFEncoder.cpp:222-238 | the buffer holds the preamble |
| `Spdif.SPDIFEncoder.Write` | audio_utils/spdif/SPDIFEncoder.cpp:256-301 | the loop takes the whole input through the encoder's steps, one byte or one chunk at a time |
| `Mel.StepMerges` | audio_utils/MelAggregator.cpp:195-222 | one stored record merged in: its own seconds before and behind are kept, the shared ones are combined once |
| `Mel.HoleFilled` | audio_utils/MelAggregator.cpp:225-232 | the merged record takes the place of the records that it met, and all stay sorted and disjoint |
| `Mel.ReplacedRefines` | audio_utils/MelAggregator.cpp:173-232 | each second keeps its old value, takes the new one, or gets both combined exactly once |
| `Mel.RunAccumulates` | audio_utils/MelAggregator.cpp:173-232 | after any run of additions of non-empty records each second holds all its values combined in the order they came |
| `Mel.MelAggregator.CombineRegion` | audio_utils/MelAggregator.cpp:208-213 | the loop combines the seconds of the shared region and no others |
| `Mel.MelAggregator.MergeOne` | audio_utils/MelAggregator.cpp:194-222 | one turn of the merging loop does the merging step |
| `Mel.MelAggregator.AggregateAndAdd` | audio_utils/MelAggregator.cpp:173-232 | the loop adds as specified, empty records included; a non-empty record added to sorted, disjoint ones refines the map from seconds to values, whatever number of records it spans |
| `Mel.EmptyHarmlessIff` | audio_utils/MelAggregator.cpp:173-232 | after an empty record every later run of additions is right for every second exactly if its timestamp was stored already |
| `Mel.DroppedWhole` | audio_utils/MelAggregator.cpp:225-232 | a record at the timestamp of an empty one is dropped |
| `Mel.HiddenBehindEmpty` | audio_utils/MelAggregator.cpp:180-187 | what is stored before an empty record does not change for the second behind it |
| `Channels.HalfAdderIsAverage` | audio_utils/channels.cpp:310-317 | the half adder is the average rounded down, for negative samples too |
| `Channels.RoundTrip` | audio_utils/channels.cpp:76-255 | what undoes one frame undoes every buffer of frames |
| `Channels.AdjustedSample` | audio_utils/channels.cpp:662-677 | every sample of the result: that of the same channel, the average of two for mono, mono twice, zeros in the channels that are added |
| `Channels.AdjustRoundTrip` | audio_utils/channels.cpp:662-677 | expanding n channels to m and contracting again restores the frames, mono included |
| `Channels.ExpandBack` | audio_utils/channels.cpp:76-95 | the back-to-front loop pads every frame with zeros, or doubles mono, in place or not, and changes nothing behind the data |
| `Channels.ContractForward` | audio_utils/channels.cpp:235-322 | the front-to-back loop keeps the first channels, or averages two, in place or not |
| `Channels.ContractNonDestructive` | audio_utils/channels.cpp:252-285 | the kept channels and then the removed ones, the same in place and on separate buffers |
| `Channels.ExpandNonDestructive` | audio_utils/channels.cpp:143-173 | the added channels are interleaved from behind the data, the same in place and on separate buffers |
| `Channels.PartsInterleave` | audio_utils/channels.cpp:143-285 | kept and removed channels interleave to the original frames |
| `Channels.ContractedThenExpanded` | audio_utils/channels.cpp:696-711 | contracting and expanding restores the whole buffer, for every frame count |
| `Channels.ExpandedThenContracted` | audio_utils/channels.cpp:696-711 | and so does expanding and contracting |
| `Channels.ContractToMono24` | audio_utils/channels.cpp:336-353 | only the first output sample is written, with the average of the last frame |
| `Channels.Mono24RightIff` | audio_utils/channels.cpp:336-353 | that is the mono signal exactly if the first and the last average agree and the others were there already |
| `Channels.AdjustChannels` | audio_utils/channels.cpp:662-677 | for every sample size and channel counts the frames adjusted, the bytes returned, and nothing done for an unknown size |
| `Channels.AdjustNonDestructive` | audio_utils/channels.cpp:696-711 | the contracted or expanded buffer, whether in place or not |
| `Fft.RevInvolution` | audio_utils/fixedfft.cpp:111-118 | reversing the bits twice gives the index back, so the reordering is a permutation |
| `Fft.NextReversed` | audio_utils/fixedfft.cpp:112-112 | the condition-only loop ends, and turns the reversed x into the reversed x + 1 |
| `Fft.BitReverse` | audio_utils/fixedfft.cpp:111-118 | for every power of two the samples are permuted exactly by bit reversal |
| `Fft.SubscriptIsDistance` | audio_utils/fixedfft.cpp:131-133 | the sign trick computes the distance from the table's size |
| `Fft.TwiddleInTable` | audio_utils/fixedfft.cpp:120-133 | up to 1024 samples, at distance 2^s and scale 9 - s, every subscript lies in the table |
| `Fft.TwiddleSubscripts` | audio_utils/fixedfft.cpp:120-139 | the loop over the stages keeps distance and scale in step, so that all its subscripts lie in the table |
| `Fft.RealScale` | audio_utils/fixedfft.cpp:146-150 | the loop lowers the scale once for each power of two up to n |
| `Fft.RealScaleIff` | audio_utils/fixedfft.cpp:146-159 | it stays a shift count exactly up to 512 samples |
| `Fft.RealTwiddleInTable` | audio_utils/fixedfft.cpp:154-159 | and then all subscripts lie in the table |
| `Route.UpdateListIs` | audio_route/audio_route.c:1048-1077 | the controls of a path are updated independently, and those that changed are sent in the order of the path, or against it for a reset |
| `Route.CallSettles` | audio_route/audio_route.c:1031-1104 | after a call new and last-sent value agree, and an unused control has its reset value |
| `Route.RunFollowsHistory` | audio_route/audio_route.c:1031-1104 | after any calls, a control has the count and the value of its own history: that of the last path applied, until the last use ends |
| `Route.ResetKeepsIff` | audio_route/audio_route.c:1061-1073 | a reset leaves a control alone exactly if another use is counted or it has the reset value anyway |
| `Route.ResetKeepsInRunIff` | audio_route/audio_route.c:1061-1073 | so after any calls the history alone tells which resets leave a control alone |
| `Route.BalancedCounts` | audio_route/audio_route.c:1061-1073 | when paths are reset only after they were applied, the count is the number of paths in use that have the control |
| `Route.ResetSparesOthers` | audio_route/audio_route.c:1089-1095 | then resetting a path changes no control of a path still in use, and restores all others |
| `Route.UnappliedResetTakes` | audio_route/audio_route.c:1061-1073 | resetting a path that was never applied takes a shared control from the path in use |
| `Route.CalledKeeps` | audio_route/audio_route.c:1081-1104 | every combined call keeps all controls settled |
| `Route.SendsAreChanges` | audio_route/audio_route.c:1048-1077 | a call sends exactly the controls whose value changes, each once, in the order of the path, or against it for a reset |
| `Route.AudioRoute.SetValueIfChanged` | audio_route/audio_route.c:892-929 | the first difference sends the values and records them, no difference changes nothing |
| `Route.AudioRoute.UpdateMixer` | audio_route/audio_route.c:932-952 | every supported control is brought up to date |
| `Route.AudioRoute.Start` | audio_route/audio_route.c:1183-1186 | after initialisation all controls are settled at the configured values |
| `Route.AudioRoute.LoadPath` | audio_route/audio_route.c:470-510 | exactly the supported controls of the path are loaded, with its values or their reset values |
| `Route.AudioRoute.UpdatePath` | audio_route/audio_route.c:1031-1079 | the loop is the update of the path's list of controls; of two that are sent the first of the path goes first, or last for a reset |
| `Route.AudioRoute.ApplyAndUpdatePath` | audio_route/audio_route.c:1081-1087 | every control is as one call makes it; those whose value changed were sent, each once, in path order; an unknown name fails without effect |
| `Route.AudioRoute.ResetAndUpdatePath` | audio_route/audio_route.c:1089-1095 | the same for a reset, sent in reverse order of the path |
| `Route.AudioRoute.ForceResetAndUpdatePath` | audio_route/audio_route.c:1097-1104 | the same for a forced reset, sent in reverse order of the path |
| `MaskCopy.LowestBit` | audio_utils/primitives.c:414-415 | the word and its negation have just the lowest set bit in common |
| `MaskCopy.NextBit` | audio_utils/primitives.c:412-415 | taking and clearing the lowest bit walks through the channels of both masks in order |
| `MaskCopy.FrameByChannel` | audio_utils/primitives.c:408-490 | each destination channel gets the sample of the same source channel, or 0 |
| `MaskCopy.TableByChannel` | audio_utils/primitives.c:528-547 | the table gives the place of the same channel in a source frame, or -1 |
| `MaskCopy.TableFrame` | audio_utils/primitives.c:408-490 | one frame driven by the table equals one frame driven by the masks |
| `MaskCopy.TableFrames` | audio_utils/primitives.c:408-546 | so the two copies agree for all masks and frame counts |
| `MaskCopy.CopyFrame` | audio_utils/primitives.c:408-423 | the bit loop writes the frame and advances both pointers by their channel counts |
| `MaskCopy.CopyByMask` | audio_utils/primitives.c:425-472 | exactly the destination frames are written; equal masks copy everything |
| `MaskCopy.InitTable` | audio_utils/primitives.c:528-547 | the table, or as much as there is room for, and the number of destination channels in any case |
| `MaskCopy.CopyByIndex` | audio_utils/primitives.c:492-526 | exactly the frames that the table describes are written |
| `Minifloat.PartsExist` | audio_utils/minifloat.c:43-44 | every positive number has the parts that frexp returns |
| `Minifloat.DecodeIs` | audio_utils/minifloat.c:56-62 | a decoded value is a whole number of smallest steps |
| `Minifloat.DecodeIncreases` | audio_utils/minifloat.c:56-62 | codes are ordered as their values are |
| `Minifloat.EncodeIsGreatest` | audio_utils/minifloat.c:35-54 | encoding gives the greatest code whose value is not above the argument, denormals, underflow and clamping included |
| `Minifloat.EncodeMonotone` | audio_utils/minifloat.c:35-54 | encoding keeps the order of all numbers |
| `Minifloat.EncodeDecode` | audio_utils/minifloat.c:35-62 | encoding gives every code back from its value |
| `Minifloat.UnityIsOne` | audio_utils/include/audio_utils/minifloat.h:36-37 | the unity code decodes to 1.0 |
| `Minifloat.EncodePositive` | audio_utils/minifloat.c:35-54 | a positive number that does not underflow has a code other than 0 |
| `Minifloat.SampleKeepsSign` | audio_utils/sample.c:40-74 | the magnitude is that of the greatest sample not above it, the sign is kept, and there is no negative zero |
| `Minifloat.SampleRoundTripIff` | audio_utils/sample.c:40-83 | every pattern but negative zero comes back |

## Left out

- Futexes, sleeping, timer descriptors, the mixer driver and the output of bursts are abstract: the outcome of a wait, the values loaded from the other side's index and the time of a pass are parameters, and every burst that is put out is accepted.
- Hysteresis and wake-ups of the FIFO: they decide when the other side sleeps, not what it sees. Its statistics and 64-bit totals do not wrap.
- Memory ordering finer than atomic loads, copies and publications; torn frames of a reader that does not throttle, for which the code does not check again after copying.
- NULL arguments, allocation failures and log output. Vendor tag types are a parameter of the validator, and sizes have 64 bits.
- The unaligned-address diagnostics of the validator beyond the alignment checks themselves; dumping and printing of metadata.
- `qsort` is represented by the order that it returns.
- Metadata.CameraMetadata.Sort: takes that order as an argument, because qsort leaves the order of equal tags open.
- Reuse of timer ids after 2^63 events: `TimerSpec.StepKeeps` assumes that no id is handed out while it is live, which `TimerSpec.CountingNeverReuses` shows until the counter wraps.
- Event functions are only recorded as executed; what they do, and that they run outside the lock, is not part of the model.
- SPDIFDecoder, DTS, and getters of the encoder that only report rates. Errors of the output function.
- Spdif.Ac3FrameScanner.ParseHeaderBytes: leaves out the sample rate, which only a getter reports, and the blocks per frame, which are kept as the counts they are added to.
- CSD conversion in the MEL aggregator, the MEL processor and the other floating-point signal code; the accuracy of the FFT's butterflies.
- Mel.MelAggregator.AggregateAndAdd: says nothing second by second once an empty record was stored, because the property is then false (`Mel.EmptyHarmlessIff`).
- `adjust_selected_channels`, which would add only one more frame shape, and the sample sizes as bytes: buffers hold samples.
- TLV byte controls of the mixer and the parsing of its configuration. The use counts do not wrap.
- Applying or resetting a route without updating the mixer, and resetting all of them: between calls of that kind the controls are not settled.
- Rounding of the `float` type: minifloats are proved over the real numbers, where their scaling by powers of two is exact; NaN has no real number.
- Echo reference, resampler, sound files, ALSA utilities, benchmarks and generators.
