# Verification model of the ThreadX shell firmware

This project models the stateful core of the firmware - the service layer under `svc/` and
the port glue in which real protocols live - and proves what the code promises about it.
HAL and ThreadX calls appear only as abstract outcomes (a transfer completes or fails, HAL
accepts or refuses, a flip takes effect). Code that updates state in place is modelled as a
class with arrays and fields and proved against functions on values; the protocol-level
results are lemmas about those functions over all interleavings and all runs.

| files | what they model |
|---|---|
| `Machine.dfy`, `Numerals.dfy` | 16- and 32-bit words with wrap-around; positional numerals |
| `LogRecord`, `LogRing`, `LogAppend`, `LogBoot`, `LogRuns`, `LogIter`, `LogCursor`, `LogFormat`, `LogLaws`, `LogDevice` | the reset-persistent log ring: one append as its single stores, a reset between any two, the boot walk, the re-initialisation, the snapshot iterator on unbounded offsets and on its two 32-bit words, what a reader sees, and the driver on its byte array |
| `FramePipeline`, `FrameWorld` | the frame ring and sink dispatch; one token per pin for conservation over all interleavings of the critical sections, every frame with its number and length |
| `CameraStream`, `CameraProducer`, `CameraBase` | the producer and its DMA targets, with teardown and restart; the service functions and the order of their acts; the subscriber registry: what each entry links, stop, and recovery, bounded and effective |
| `Coherence`, `CoherenceView`, `CoherenceDevice` | double buffering with per-buffer stale flags, run beside the scheme that copies everything, and what the panel shows in terms of what was stored |
| `Crc16`, `CrcPolynomial`, `YmodemFormat`, `YmodemSender`, `YmodemLaws` | CRC-16 algebra and polynomial division, the wire format with a reference receiver, the sender against an arbitrary peer, and both told by the bytes on the line |
| `UartRing`, `UartTx`, `UartDevice` | the byte ring, lock-free and under interrupt-driven transmission |
| `NnStages`, `NnDevice` | the staging buffers between camera and inference worker, and the preprocessing |
| `Reloc`, `RelocFormat`, `RelocSwap` | the relocatable-binary verifier, the files it accepts, and the two-slot model swap |
| `NorFlash` | page-split NOR programming and erasing over a device that ANDs and wraps |
| `Fmt`, `FmtConversions`, `FmtDevice` | the formatter, its stream, what each conversion prints, and its bounded buffer |

Six results differ from what the source's comments suggest, each stated with a concrete
input and its exact or a sufficient condition:

- The boot walk never compares an entry's end with the stored head (`svc/log.c:165-190`). For
  every image a good ring can leave, including one cut at any store, recovery is exact; for
  arbitrary memory with a valid header it can end past the stored head, exactly if a
  well-shaped entry straddles it (`LogBoot.RecoveredWithinStored`, `LogBoot.BootCanOvershoot`).
- For a boot marker of arbitrary text, a record whose append completed outlives the marker's own
  append exactly if the ring holds the record, the SKIP and the marker
  (`LogRuns.CommittedSurvives`). With the text `log_init` writes, and on a ring of three maximal
  records, it always does; on the smallest ring the source allows an entry of 128 bytes evicts it
  (`LogRuns.SmallestRingForgets`).
- The iterator's signed comparison (`svc/log.c:326-330`) resynchronises rightly exactly while the
  tail is at most 2^31 past the cursor (`LogCursor.TurnExact`). Under that bound at every call a
  whole pass on the 32-bit words is the pass on unbounded offsets (`LogCursor.PassAgrees`);
  beyond it, `LogCursor.FarTailMisleads` is a pass that reads stale memory although fewer than
  2^31 bytes were appended.
- One call of the iterator ends on any memory if the snapshot's end is at most 2^31 - 2^16 ahead
  of the tail or behind it (`LogCursor.CallEnds`), as at the start of a pass over any ring the boot
  validates
  (`LogCursor.StartInReach`). With the end 2^31 ahead, `LogCursor.CallNeedNotEnd` is a memory of
  SKIPs on which it goes round for ever, in a critical section (`svc/log.c:322-347`).
- The copy of the dirty rectangle to the freed buffer can fail, and its result is ignored
  (`port/guix/guix_display.c:559-561`): `Coherence.LostCopyStrands` is a run from display start
  after which the two buffers differ outside the icon, and `Coherence.FlipAgreesAt` says at every
  pixel exactly when they agree after a toggle. A failed flip does no such harm: it takes the
  display down for good (`Coherence.DownIsFinal`). So the buffers agree after every flip that takes
  effect if no copy failed (`Coherence.RunAgrees`), and what is shown equals the plain scheme's
  all the same (`Coherence.Shown`, `Coherence.RunShows`).
- When the corrective copy cannot be made because the DMA2D engine is wedged
  (`port/guix/guix_display.c:346-347`) the toggle flips all the same. If the forward copy then
  completed, the freed buffer would be marked up to date without being so:
  `Coherence.WedgedCopyMisleads` is a run into such a state, and `Coherence.ToggleFreshAt` the exact
  condition at each pixel. The runs assume that a wedged engine completes no further copy in that
  toggle.

Assumptions taken from the design: one producer thread; attaches serialised by the camera
lock; each pin put exactly once by its holder; a sink re-attached only once drained; the CT
bit does not flip between its reading and the repointing; no frame is pinned while a stream's
ring is built afresh, since readers pin under the lock a start holds
(`port/camera/camera.c:1351-1387`); a completed DMA2D transfer is exact and a failed one writes
nothing; the epoch of the staging buffers does not come round within one
ingest.

## Model

| member | source | states |
|---|---|---|
| `LogRecord.ShowReturnsWritten` | svc/log.c:354-366 | decoding a written record returns its level, tag (cut at 8), timestamp, sequence number and the text up to its NUL, whatever the reader's buffer held before |
| `LogRing.HoldsAppend` | svc/log.c:265-275 | an entry written where the tiled entries end extends the tiling, without crossing the physical end |
| `LogRing.HoldsFrame` | svc/log.c:236-277 | bytes outside the span of the entries can change without disturbing any of them, around the physical end |
| `LogRing.PutStoresEffect` | svc/log.c:101-111 | the byte stores of `ring_put` change exactly the bytes of its span, which may wrap around the physical end, to the source's |
| `LogAppend.EvictCountLeast` | svc/log.c:245-254 | the number of ring entries evicted is the least that makes room: one fewer would not do |
| `LogAppend.WriteCut` | svc/log.c:236-277 | an append cut after any number of its single stores (tail advances, SKIP bytes, SKIP commit, header, text and pad bytes, sequence bump, head commit) leaves memory that stands for a well-tiled queue: the old one less its k oldest entries, then with the SKIP, then with the record exactly if the last store happened |
| `LogAppend.AppendRefinesQueue` | svc/log.c:214-278 | a whole append turns the decoded list into the old list minus the shortest sufficient prefix of ring entries, plus SKIP if the end of the ring is near, plus the new record |
| `LogAppend.AppendedShape` | svc/log.c:240-275 | after an append the record is last, head - tail is at most the ring size, and entries tile [tail, head) |
| `LogBoot.WalkExact` | svc/log.c:165-189 | on well-tiled entries the boot walk ends exactly where they end, across 32-bit wrap-around |
| `LogBoot.RepIsValid` | svc/log.c:158-190 | memory that stands for a queue passes header validation and the walk stops exactly at the stored head: boot loses nothing of it |
| `LogBoot.WalkIsChain` | svc/log.c:165-190 | on arbitrary memory the walk accepts a chain of well-shaped entries that all start before the stored head, and can end less than 2^16 past it |
| `LogBoot.RecoveredWithinStored` | svc/log.c:165-190 | on arbitrary memory the recovered head is at or before the stored one if and only if no accepted entry straddles the stored head |
| `LogBoot.BootCanOvershoot` | svc/log.c:165-190 | a concrete ring with a valid header whose recovered extent exceeds the stored one and the ring itself: the walk never compares an entry's end with the head |
| `LogRuns.StepKeeps` | svc/log.c:152-295 | any write, clear or boot, cut after any of its stores, leads from a good ring to a good ring whose visible records are a suffix of all completed ones and whose sequence number is the next one |
| `LogRuns.NeverRepeats` | svc/log.c:271-275 | two visible records carry the same sequence number if and only if a multiple of 2^32 numbers separates those two; so never while fewer than 2^32 do |
| `LogRuns.WriteSeen` | svc/log.c:236-277 | a write cut after k stores shows a suffix of the old records, plus the new record exactly if all k of its stores happened |
| `LogRuns.BootSeen` | svc/log.c:152-205 | a boot, itself cut anywhere, shows a suffix of what was visible, plus its marker exactly if the marker's append completed |
| `LogLaws.ClearSeen` | svc/log.c:290-295 | a clear that happens leaves no record to show, moves the tail to the head and nothing else, and numbering goes on; cut before its store it changes nothing |
| `LogLaws.BootCounted` | svc/log.c:152-205 | a boot, cut anywhere, has counted itself exactly if its second store happened, in a word that neither the walk nor the marker's append touches |
| `LogRuns.CrashConsistency` | svc/log.c:152-278 | write, reset after any k of its stores, boot: the marker is last; before it stands a suffix of the old records and the committed one; a committed record stands right before the marker if and only if the ring holds it, the SKIP and the marker, and otherwise the marker is alone; with a marker as long as log_init writes, or a ring of three maximal records, the new record stands there if and only if its head store was reached |
| `LogRuns.CommittedSurvives` | svc/log.c:240-275 | the boot marker's own append spares the committed record if and only if n - RecLen(new) is at least the marker and the SKIP before it; always so for the text log_init writes and for rings of at least three maximal records |
| `LogRuns.NewestSpared` | svc/log.c:245-254 | eviction stops short of the newest entry if and only if the ring holds that entry besides what the append needs |
| `LogRuns.SmallestRingForgets` | svc/log.c:245-254 | a concrete run on the smallest legal ring, 256 bytes, in which a 128-byte append evicts the newest record, so the condition above is not idle |
| `LogRuns.FreshGood` | svc/log.c:192-198 | a re-initialised ring is a good, empty one |
| `LogFormat.FormatCut` | svc/log.c:192-198 | re-initialisation cut after any of its stores: the header is valid if and only if the ring's size is written, the last store but one, and from then on the ring is the empty one in good order |
| `LogFormat.RebootCut` | svc/log.c:192-205 | a whole boot of a ring that did not survive, cut after any of its stores, leaves a ring the next boot starts afresh or a good one: empty, or with the marker exactly if the marker's append completed |
| `LogIter.SignedOrder` | svc/log.c:326-330 | the signed 32-bit difference orders two offsets as the unbounded ones if and only if the second is at most 2^31 ahead |
| `LogIter.StepEvolves` | svc/log.c:236-295 | whatever writes and clears do between two iterator calls, old entries leave from the front and new ones join at the back of the snapshot |
| `LogIter.NextIsSnapshotNext` | svc/log.c:319-374 | with i snapshot entries passed and j evicted, one iterator step returns the snapshot's first record at or after the larger of the two and puts the cursor behind it |
| `LogIter.PassIsSubsequence` | svc/log.c:311-374 | a pass interleaved with any writes, evictions and clears returns snapshot records at strictly increasing indices |
| `LogIter.DmesgPass` | svc/log.c:311-374 | on never-wrapping offsets a dmesg pass returns, in order and without duplicates, records that were present at its start, at most as many as there were entries |
| `LogLaws.QuietPass` | svc/log.c:311-374 | a pass during which the log does not change returns every record of the ring, oldest first, and then nothing more, however often it is asked |
| `LogCursor.TurnAgrees` | svc/log.c:319-374 | one turn of the iterator loop on the two 32-bit words is the turn on the unbounded offsets while the tail is at most 2^31 past the cursor and the end |
| `LogCursor.TurnExact` | svc/log.c:326-330 | during a pass, with less than 2^32 bytes between cursor and head, the turn on the words is the turn on the offsets if and only if the tail is at most 2^31 past the cursor |
| `LogCursor.CallAgrees` | svc/log.c:319-374 | a whole call on the words finds the record the unbounded search finds and leaves the cursor on an entry boundary or behind the tail, ready for the next call |
| `LogCursor.CallEnds` | svc/log.c:319-352 | on any memory a call of the iterator ends if the snapshot's end is ahead of the tail by at most 2^31 - 2^16, or behind it |
| `LogCursor.StartInReach` | svc/log.c:158-163 | a snapshot taken of a ring whose header passes the boot's validation is in that reach, whatever lies between tail and head |
| `LogCursor.NearInReach` | svc/log.c:326-330 | on an intact ring it is in reach as long as the tail is near the cursor and the end |
| `LogCursor.CallNeedNotEnd` | svc/log.c:322-347 | a concrete memory of SKIPs, with the end 2^31 past the tail, on which a call never ends |
| `LogCursor.StandingCarries` | svc/log.c:236-295 | writes, evictions and clears between two calls leave the cursor on an entry boundary or behind the tail |
| `LogCursor.PassAgrees` | svc/log.c:311-374 | a whole pass on the 32-bit words, interleaved with any writes, clears and boots, copies out exactly what the unbounded pass returns, while the tail is near at each call |
| `LogCursor.DmesgPass32` | svc/log.c:311-374 | so dmesg as the code runs it copies out, in order and without duplicates, records that were present at its start, as they were written |
| `LogLaws.QuietPass32` | svc/log.c:311-374 | and on the two 32-bit words such a pass copies out every record, as it was written |
| `LogCursor.FewBytesKeepNear` | svc/log.c:326-330 | the tail is near at every call of a pass if the live bytes at its start and those appended during it are together fewer than 2^31 |
| `LogCursor.FarTailMisleads` | svc/log.c:326-330 | the bound is needed: a concrete run with fewer than 2^31 bytes appended and a clear after which the cursor is not resynchronised and the call copies out a record that was not in the snapshot |
| `LogCursor.ShownIsShow` | svc/log.c:354-366 | the bytes copied out at a stored record are what it shows |
| `LogDevice.Log.RingPut` | svc/log.c:101-111 | the array copy, split at the physical end, is the byte stores of the specification in order |
| `LogDevice.Log.RingGet` | svc/log.c:113-123 | the bytes read are those of the circular span |
| `LogDevice.Log.Evict` | svc/log.c:245-254 | the eviction loop stores exactly the tail advances of the specification and leaves room |
| `LogDevice.Log.PutRecord` | svc/log.c:265-270 | header, text with NUL, and zero padding are the byte stores of the encoded record, behind the committed head |
| `LogDevice.Log.Commit` | svc/log.c:271-275 | two stores, the sequence number first and the head last |
| `LogDevice.Log.Write` | svc/log.c:214-278 | level clamp and threshold filter; an accepted write performs exactly the specified stores in the specified order |
| `LogDevice.Log.Clear` | svc/log.c:290-295 | one store: the tail takes the head; the sequence number stays |
| `LogDevice.Log.Init` | svc/log.c:152-205 | a valid header is kept and walked, an invalid one re-initialised; then the boot marker is written; in both cases the memory and the stores are those of the specification, in order |
| `LogDevice.Log.Format` | svc/log.c:192-198 | the header and the ring are wiped from the first word on and the header named again, store by store as specified, leaving a fresh ring |
| `LogDevice.Log.BootWalk` | svc/log.c:165-190 | the walk loop terminates on any memory and computes the specification's walk |
| `LogDevice.Log.IterNextRecord` | svc/log.c:319-374 | on any memory, with the snapshot's end in reach of the tail, the loop ends and computes the specified turns and copies out what they found; on an intact ring that is the unbounded iterator step, and the cursor is well placed for the next call |
| `LogDevice.Log.IterStart` | svc/log.c:311-317 | the snapshot of tail and head; on an intact ring it is the unbounded start of a pass and the cursor is well placed |
| `LogDevice.Log.OneTurn` | svc/log.c:322-350 | on any memory one turn of the loop resynchronises, stops, skips or finds as specified |
| `LogDevice.Log.ReadRecord` | svc/log.c:354-366 | on any memory the two circular reads give the header's and the text's bytes; at a stored record they give what it shows, over any previous buffer |
| `FramePipeline.Engine.Acquire` | svc/frame_pipeline.c:103-124 | the slot returned is the first free one: not filling, not pinned, not the latest; otherwise the overrun is counted |
| `FramePipeline.Engine.Publish` | svc/frame_pipeline.c:126-170 | afterwards the frame is the latest and no longer filling, its slot carries the length given and the next generation, exactly the ranges inside that length can be read, and no other slot changes but for its pins; the frame is offered to every attached sink in list order and the delivery list is the sinks started |
| `FramePipeline.Engine.OfferTo` | svc/frame_pipeline.c:148-169 | one sink meets a frame: an idle one starts it; a busy one drops it or keeps it as its pending frame, in place of an older one whose pin is returned and which counts as dropped |
| `FramePipeline.Engine.UnpinLocked` | svc/frame_pipeline.c:54-62 | one pin less on the slot and on the sink, clamped at zero |
| `FramePipeline.Engine.Consumed` | svc/frame_pipeline.c:172-180 | after consume, one more delivery and one more error if it failed |
| `FramePipeline.Engine.Attach` | svc/frame_pipeline.c:185-218 | refused when the list is full or open refuses; otherwise the sink is linked first with all counters cleared |
| `FramePipeline.Engine.Detach` | svc/frame_pipeline.c:220-249 | the sink is unlinked, its pending frame dropped with its pin, and the pins it still holds returned |
| `FramePipeline.Engine.Get` | svc/frame_pipeline.c:253-263 | one more pin on the slot and on the sink |
| `FramePipeline.Engine.Put` | svc/frame_pipeline.c:265-281 | a pin is returned and a pending frame becomes the next delivery, keeping its pin |
| `FramePipeline.Engine.PinLatest` | svc/frame_pipeline.c:319-332 | the latest frame gains an anonymous pin |
| `FramePipeline.Engine.ReadLatest` | svc/frame_pipeline.c:296-317 | a read succeeds exactly if a frame is published and the range lies inside it, without overflow; the bytes copied out are that range of the latest slot's memory, with its generation, and nothing else is written |
| `FrameWorld.PinDropped` | svc/frame_pipeline.c:54-62 | under the invariant the clamps of unpin never fire: a slot or sink that loses a pin has one |
| `FrameWorld.PublishRefines` | svc/frame_pipeline.c:126-170 | publishing in the world with a token per pin is the critical section of the code, and every sink on its delivery list, and no other, is owed exactly one more consume |
| `FrameWorld.PublishGives` | svc/frame_pipeline.c:126-170 | one publish offers its frame once to exactly the attached sinks; those on the delivery list, and no others, start it as their newest frame, and the consume they are owed is of the slot that carries its generation and its length |
| `FrameWorld.PublishMeets` | svc/frame_pipeline.c:148-169 | one publish starts exactly the attached sinks that are idle; a busy one drops the frame or makes it its pending one, as its policy says; a detached one is not touched |
| `FrameWorld.PublishedReads` | svc/frame_pipeline.c:136-146 | after a publish the frame is the latest, not filling, with the next generation and the length given; a read of [off, off + len) succeeds if and only if 0 < len and off + len is at most that length; no other slot changes but for its pins |
| `FrameWorld.FramesNumbered` | svc/frame_pipeline.c:136-146 | only a publish numbers a frame and records its length, and it does so for the slot it stamps |
| `FrameWorld.PinnedLength` | svc/frame_pipeline.c:126-292 | over every run from a fresh ring, a slot that a sink is owed or holds carries the generation and the length with which the run published the frame it was given - the newest one it was given, for a sink without extra pins |
| `FrameWorld.PutGives` | svc/frame_pipeline.c:265-292 | a pending frame started by a put is the newest published: it becomes the sink's newest, and the consume owed is of the slot that carries its generation and its length |
| `FrameWorld.EventKeeps` | svc/frame_pipeline.c:103-332 | every critical section in any order keeps: each slot's refcount equals the tokens on it, each sink's pins equal its own tokens, a pending frame is the newest, and the per-sink account adds up |
| `FrameWorld.DetachKeeps` | svc/frame_pipeline.c:220-249 | detach returns exactly the pins the sink still holds once its pending one is dropped, and conserves all others |
| `FrameWorld.PutKeeps` | svc/frame_pipeline.c:265-292 | putting a pin removes exactly that one; a promoted pending frame keeps its pin and owes one consume |
| `FrameWorld.FreshInv` | svc/frame_pipeline.c:66-91 | a freshly initialised ring satisfies the invariant |
| `FrameWorld.PinnedStays` | svc/frame_pipeline.c:103-147 | a pinned or latest slot is never handed out by acquire, restamped, or opened for filling by any critical section |
| `FrameWorld.FillingChanges` | svc/frame_pipeline.c:103-147 | only the producer's acquire and publish change which slots are being filled |
| `FrameWorld.SinkGuarantees` | svc/frame_pipeline.c:148-169 | at most one delivery outstanding, and its slot holds the newest frame the sink was given; every slot a sink is owed or holds carries the generation and the length published with a frame it was given, and their numbers rise; frames since attach = started + dropped + pending; a pending frame is the newest, with its generation and length, and an idle LATEST sink has been given the newest |
| `CameraStream.StepKeeps` | port/camera/camera.c:1837-2283 | every step of the producer, the DMA, the sinks and the readers, a teardown, a ring built afresh and a stream started on it keep the DMA registers on distinct slots that are being filled and belong to the producer |
| `CameraStream.WatchedStays` | port/camera/camera.c:1910-1933 | no step but building the ring afresh writes a pixel of a pinned or latest slot or changes its description, and such a slot is never a DMA target |
| `CameraStream.NoTearing` | port/camera/camera.c:1888-2039 | over any run during which a slot stays pinned or latest - raster or JPEG, stream teardown and restart included - its pixels and description do not change |
| `CameraStream.InitUnwatches` | port/camera/camera.c:2171-2177 | the ring is built afresh only while nothing is pinned, and no slot of the new ring is pinned or latest |
| `CameraStream.RasterStart` | port/camera/camera.c:2238-2271 | starting on a fresh ring of at least two slots gives the two registers two different slots |
| `CameraStream.JpegStart` | port/camera/camera.c:2204-2216 | starting a JPEG stream gives the snapshot a slot of its own |
| `CameraProducer.JpegTrim` | port/camera/camera.c:1128-1142 | the trimmed length is the longest prefix of the captured bytes ending in EOI, and there is one exactly if the frame starts with SOI and contains an EOI |
| `CameraProducer.ExchangeLaw` | port/camera/camera.c:1914-1935 | a completed frame becomes the latest, with its length and the next generation, if and only if some slot is free to take its place; otherwise the overrun is counted and nothing else happens |
| `CameraProducer.Producer.ServiceRaster` | port/camera/camera.c:1888-1939 | the acts on ring and hardware, in order: none for an unchanged CT bit; otherwise a free slot is taken, then the completed register repointed to it, and only then the completed frame published, which happens exactly if a slot is free - or the frame dropped with the registers as they were; a stop condition tears down instead; every completion but the published one counts as overrun |
| `CameraProducer.Producer.ServiceJpeg` | port/camera/camera.c:1991-2039 | the acts in order: the DCMI is stopped, then a whole frame, trimmed, is published if and only if a free slot was taken to continue in, then the next slot is armed - or the stream torn down where a stop is asked for or a HAL call fails; otherwise the slot is reused and counted |
| `CameraProducer.RasterPassIsSteps` | port/camera/camera.c:1910-1933 | the acts of a raster pass are those of the steps secure, repoint, publish of the state machine, act by act in that order, to the same ring and registers, so tear-freedom holds of it |
| `CameraProducer.JpegPassIsSteps` | port/camera/camera.c:1991-2039 | the acts of a JPEG pass are those of the steps stop, swap, publish, rearm - or what remains of them when a frame is truncated, dropped or the stream ends - act by act in that order, leaving the producer armed into the same slot |
| `CameraBase.StepKeeps` | port/camera/camera.c:1733-2120 | every section under cam_lock keeps: attached iff registered and linked, nothing linked while the base is inactive, and no one-shot subscriber registered once the base is inactive with no recovery pending |
| `CameraBase.RunKeeps` | port/camera/camera.c:1733-2477 | the registry invariant holds over every sequence of starts, stops, power-offs, subscriptions, teardowns, recoveries and overruns |
| `CameraBase.AttachAllMarks` | port/camera/camera.c:1770-1796 | attaching all marks exactly the enabled subscribers of the base's format; one refusal rolls every mark back |
| `CameraBase.StartFindsNothingLinked` | port/camera/camera.c:1854-1862 | when the pipeline is rebuilt nothing is linked, so no sink is orphaned |
| `CameraBase.StopIsFinal` | port/camera/camera.c:2454-2477 | after a stop the base never becomes active again without an explicit start, whatever overruns, teardowns and recoveries race with it, and the next teardown turns it off |
| `CameraBase.RapidBound` | port/camera/camera.c:2064-2081 | in a rapid chain the restarts and the rapid counter stay below the limit together |
| `CameraBase.HaltingStays` | port/camera/camera.c:2454-2477 | no event but a start leaves the halting state |
| `CameraBase.BoundedRecovery` | port/camera/camera.c:2064-2081 | in a chain of overruns each within 8 seconds of the last recovery there are at most six automatic restarts |
| `CameraBase.TeardownLaw` | port/camera/camera.c:1837-1868 | a teardown of a running base leaves nothing linked, and a recovery pending if and only if there was an error and no stop was requested; the one-shot registrations outlive it exactly then, the lasting ones always |
| `CameraBase.RecoverLaw` | port/camera/camera.c:2048-2093 | a pending recovery brings the base back if and only if it is not the sixth rapid one, the hardware is ready, every subscriber enabled for the base's format accepts and the DMA is armed; then exactly these subscribers are linked, one-shots included; otherwise the base stays off and the one-shots go |
| `CameraBase.OverrunHeals` | port/camera/camera.c:1837-2093 | an overrun, the teardown and the recovery after it, with fewer than six rapid attempts and everything accepting, leave the base running with exactly the subscribers linked that were enabled for its format, one-shots included |
| `CameraBase.RecoverCancelled` | port/camera/camera.c:2054-2062 | a recovery that was cancelled, or finds the base running, starts nothing |
| `CameraBase.StartLaw` | port/camera/camera.c:2281-2302 | an explicit start of an idle base clears the back-off and orphaned one-shots and succeeds if and only if the hardware is ready, the lasting subscribers enabled for its format accept and the DMA is armed; exactly these are then linked |
| `CameraBase.RequestLaws` | port/camera/camera.c:2454-2477 | a stop cancels a recovery and asks for the teardown of a running base or drops the one-shots of an idle one; an overrun of a running base is an error; a start of a running base only clears the back-off |
| `CameraBase.SubscribeLaw` | port/camera/camera.c:2304-2336 | a subscription that finds room is linked at once to a running base of its format if it accepts, leaves no registration if it refuses, and otherwise waits, enabled; nobody else's registration changes |
| `CameraBase.OneshotLaw` | port/camera/camera.c:2338-2383 | a one-shot subscription to a running base of its format is linked at once or leaves nothing behind; any other is refused |
| `CameraBase.UnsubscribeLaw` | port/camera/camera.c:2385-2407 | an unsubscription leaves neither the registration nor the link, and nobody else's is touched |
| `CameraBase.Driver.RegisterSub` | port/camera/camera.c:1748-1762 | the sink's slot or the first free one is claimed and its policy set anew; a full table refuses |
| `CameraBase.Driver.AttachSubs` | port/camera/camera.c:1770-1796 | the loop with its nested rollback computes the specified marks and links |
| `CameraBase.Driver.DetachSubs` | port/camera/camera.c:1802-1810 | every mark is cleared and its link removed |
| `CameraBase.Driver.ReleaseSubs` | port/camera/camera.c:1822-1831 | exactly the one-shot registrations are cleared |
| `CameraBase.Driver.StreamStart` | port/camera/camera.c:2281-2302 | an explicit start resets the back-off, drops orphaned one-shots of an inactive base and starts, linking exactly the enabled subscribers of its format; the answer says whether it runs now |
| `CameraBase.Driver.StreamStop` | port/camera/camera.c:2454-2477 | a stop cancels recovery and either asks for a teardown or releases one-shots itself |
| `CameraBase.Driver.StreamTeardown` | port/camera/camera.c:1837-1882 | teardown turns the base off and detaches everything; a recovery is pending exactly after an error without a stop, and one-shots are kept exactly then |
| `CameraBase.Driver.StreamRecover` | port/camera/camera.c:2048-2093 | recovery gives up when cancelled, after the sixth rapid attempt, or when the start fails, and releases the one-shots each time; otherwise the base runs with exactly the enabled subscribers of its format linked |
| `CameraBase.Driver.SubscribeSink` | port/camera/camera.c:2304-2336 | registers, and links at once to a running base of its format; a refused attach leaves no registration; the answer says whether the subscription stands |
| `CameraBase.Driver.SubscribeOneshotSink` | port/camera/camera.c:2338-2383 | only a live base of the right format takes a one-shot; nothing stays registered on refusal |
| `CameraBase.Driver.UnsubscribeSink` | port/camera/camera.c:2385-2407 | the registration and its link are gone; the base stays as it is |
| `Coherence.CorrectAt` | port/guix/guix_display.c:501-520 | a correction that is made, or not needed, makes the canvas show the newest view in the camera rectangle while visible, in both schemes, and touches nothing else; with the engine wedged nothing changes |
| `Coherence.FlipAt` | port/guix/guix_display.c:489-561 | a toggle whose flip takes effect and whose copy completes keeps, pixel by pixel: unset stale flag implies newest view; buffers agree outside the camera rectangle; both schemes agree |
| `Coherence.FailedFlipAt` | port/guix/guix_display.c:494-564 | a toggle that is skipped, or whose flip or copy fails, keeps the invariant with the stranded rectangle excused |
| `Coherence.StepKeeps` | port/guix/guix_display.c:259-628 | every driver operation and GUIX drawing keeps: unset stale flag implies the buffer shows the newest view; outside the camera rectangle the two buffers agree; the flag scheme and the plain scheme hold the same pixels |
| `Coherence.Shown` | port/guix/guix_display.c:489-565 | each flip that takes effect on an up-to-date buffer presents the newest view while visible, presents what always copying would present, and leaves the buffers in agreement outside the camera rectangle and stranded rectangles |
| `Coherence.RunShows` | port/guix/guix_display.c:363-565 | over every run of one geometry, whatever flips and copies fail and wherever the engine is wedged, each frame shown from an up-to-date buffer while the camera is visible is pixel for pixel the plain scheme's; if no copy failed the buffers then differ at most in the camera rectangle |
| `Coherence.RunAgrees` | port/guix/guix_display.c:479-564 | after every flip that takes effect, from an up-to-date buffer or not, the two buffers differ at most in the camera rectangle if no copy failed so far |
| `CoherenceView.StoredFrameShown` | port/guix/guix_display.c:410-426 | a frame stored in a session is what every later flip from an up-to-date buffer shows at the icon while the camera screen is visible, pixel for pixel, until the next completed store, begin or end, whatever is drawn, hidden or fails in between |
| `CoherenceView.OpenedViewShown` | port/guix/guix_display.c:363-380 | a session opened on a good geometry is armed and shows its view buffer at that place until the first frame is stored |
| `CoherenceView.StoreStep` | port/guix/guix_display.c:410-426 | a completed store in a session makes the frame the view and both buffers stale, and draws nothing |
| `CoherenceView.RefusedChangesNothing` | port/guix/guix_display.c:363-426 | a store outside a session, a store that fails and a begin on a bad geometry change nothing |
| `CoherenceView.ShowingLasts` | port/guix/guix_display.c:382-404 | the camera screen is on display from the call that shows it until one that hides it or ends the session |
| `CoherenceView.HiddenFlip` | port/guix/guix_display.c:501-562 | while the camera screen is hidden a flip shows the canvas exactly as drawn and copies all of the dirty rectangle forward, even inside the icon |
| `CoherenceView.IconFlipCopiesNothing` | port/guix/guix_display.c:531-539 | a refresh that touched only the icon of a visible camera screen leaves the freed buffer as it was: the copy is saved |
| `CoherenceView.CamDrawPaints` | port/guix/guix_display.c:606-625 | a completed draw of the camera pixelmap puts the view's pixels in the canvas inside the clip and no others, and one that covers the icon makes the next flip need no correction |
| `CoherenceView.BuffersChangePlaces` | port/guix/guix_display.c:522-529 | the two buffers change places exactly at a flip that takes effect, and the display stays up until one fails |
| `CoherenceView.RectTests` | port/guix/guix_display.c:304-319 | the two rectangle tests hold exactly if every pixel of the one rectangle lies in the other |
| `Coherence.FailedFlipLatches` | port/ltdc/ltdc_display.c:821-840 | a flip takes effect or takes the display down, and then what is on screen stays on screen |
| `Coherence.DownIsFinal` | port/ltdc/ltdc_display.c:100-113 | once the display is down, whatever happens no flip takes effect: it stays down, the same buffer stays on screen and not one of its pixels changes |
| `Coherence.FlipAgreesAt` | port/guix/guix_display.c:479-564 | at each pixel outside the camera rectangle the buffers agree after a toggle if and only if they did before, or the display is up, the flip took effect, the copy completed and the dirty rectangle reaches the pixel |
| `Coherence.FlipHealsExactly` | port/guix/guix_display.c:479-564 | where nothing is stranded, a difference left by the drawing of a cycle is healed if and only if the display is up, its flip takes effect and its copy completes |
| `Coherence.LostCopyStrands` | port/guix/guix_display.c:556-561 | a concrete run from display start - draw, a flip whose forward copy fails, a refresh elsewhere, a flip - after which, the display up all the time, a pixel outside the icon differs in the two buffers |
| `Coherence.ToggleFreshAt` | port/guix/guix_display.c:489-564 | at each pixel, whatever a toggle meets, an unset stale flag still means the newest view if and only if not: the needed correction of the shown buffer was not made, the freed buffer was up to date, the dirty rectangle was copied over the icon and the stale pixel was not the view's by chance |
| `Coherence.WedgedCopyMisleads` | port/guix/guix_display.c:508-562 | a concrete run from display start into a state in which a toggle without its corrective copy but with its forward copy leaves the freed buffer marked up to date with a pixel that is not the view's |
| `CoherenceDevice.Display.PreviewBegin` | port/guix/guix_display.c:363-380 | a geometry of no size or beyond the 480 by 272 panel is refused and changes nothing; a valid one registers the buffer and the place and arms the session with both buffers stale |
| `CoherenceDevice.Display.PreviewEnd` | port/guix/guix_display.c:382-389 | the session is disarmed, hidden, and the view dropped |
| `CoherenceDevice.Display.Show` | port/guix/guix_display.c:395-404 | becoming visible makes both buffers stale |
| `CoherenceDevice.Display.ViewStore` | port/guix/guix_display.c:410-426 | a completed copy, in a session, leaves the view equal to the frame, pixel by pixel, and both buffers stale; anything else leaves view and flags as they were |
| `CoherenceDevice.Display.CamRectRefresh` | port/guix/guix_display.c:324-356 | the camera rectangle of the buffer shows the view afterwards, by DMA2D or by the row-by-row CPU copy, and nothing else changed; with a failed transfer and the engine still running nothing changes and the failure is reported |
| `CoherenceDevice.Display.CopyForward` | port/guix/guix_display.c:541-562 | the dirty rectangle clipped to the panel, and only it, is copied from the shown buffer if the transfer completes |
| `CoherenceDevice.Display.BufferToggle` | port/guix/guix_display.c:489-565 | the toggle on the pixel arrays computes the specified skip when the display is down or the canvas is off the back buffer, correction, flip or latched fault, repointing and forward copy; every pixel of both buffers afterwards is stated |
| `CoherenceDevice.Display.PixelmapDraw` | port/guix/guix_display.c:575-630 | a pixelmap draw puts exactly its clipped pixels into the canvas; only a completed draw of the view that covers the icon clears the stale flag, which a draw of the view anywhere else cannot |
| `Crc16.CrcLinear` | svc/ymodem.c:51-61 | with initial value zero the CRC of the XOR of two messages is the XOR of their CRCs, for every length |
| `Crc16.FoldIsBitwise` | svc/ymodem.c:51-61 | the byte-wise loop computes the bit-serial register fed most significant bit first, the form in which the division is proved |
| `CrcPolynomial.CrcIsRemainder` | svc/ymodem.c:51-61 | the CRC of a message of any length is the remainder, and the only one, of its polynomial times x^16 divided by x^16 + x^12 + x^5 + 1, with polynomials and the product given by their coefficients |
| `CrcPolynomial.ShiftedBit` | svc/ymodem.c:57-58 | one turn of the bit loop multiplies by x and takes the generator off if that reaches x^16, coefficient by coefficient |
| `Crc16.Sealed` | svc/ymodem.c:102-108 | running the CRC over data and two trailer bytes gives zero if and only if the trailer is the CRC, high byte first |
| `Crc16.BurstDetected` | svc/ymodem.c:51-61 | every non-zero error burst of at most sixteen bits anywhere in data and CRC is detected, for frames of any length |
| `Numerals.ParsesBack` | svc/fmt.c:61-73 | positional digits denote the number they were made from, in every base |
| `Numerals.FewDigits` | svc/fmt.c:61-73 | a number below base^k has at most k digits |
| `Numerals.Peel` | svc/ymodem.c:64-72 | the digit loop leaves the digits of the number, last one first, and terminates |
| `YmodemFormat.ReadsFrame` | svc/ymodem.c:95-108 | a receiver that checks kind, length, complement and CRC reads number and data of every frame back |
| `YmodemFormat.Block0RoundTrip` | svc/ymodem.c:186-201 | block 0 has 128 bytes and a receiver parses the name (default or cut to 100) and the exact decimal size from it |
| `YmodemLaws.NameArrives` | svc/ymodem.c:186-201 | a name of 1 to 100 bytes reaches the receiver unchanged, a longer one as its first 100 bytes, none at all as file.bin; the size always exactly |
| `YmodemLaws.DataBlockHead` | svc/ymodem.c:95-101 | a data block starts with 0x01 and holds 128 bytes for up to 128 bytes of data, with 0x02 and 1024 otherwise; then its number modulo 256 and the complement |
| `YmodemLaws.DataBlockBody` | svc/ymodem.c:102-108 | behind them the data, 0x1A up to the length, and the CRC of both |
| `YmodemLaws.PlanInOrder` | svc/ymodem.c:204-272 | a complete session is block 0, the data blocks numbered from 1, the byte 0x04, and a block of 128 zeros |
| `YmodemFormat.DropsRepeats` | svc/ymodem.c:110-124 | repeating each message any number of times in a row changes nothing for the receiver, across the 8-bit number wrap |
| `YmodemFormat.SessionRoundTrip` | svc/ymodem.c:204-272 | every complete session gives the receiver the name, the size and, before the padding, exactly the bytes sent |
| `YmodemSender.ExchangeOk` | svc/ymodem.c:95-125 | an exchange succeeds after k + 1 puts if and only if answer k is the first that does not call for a repeat, it is an ACK, k is within the retries and no put failed |
| `YmodemLaws.ExchangeEnds` | svc/ymodem.c:110-124 | up to ten answers that ask for a repeat - anything but ACK, CAN and the abort, or a lone CAN with what follows it - and then an ACK end an exchange well; two CANs in a row, or the abort, cancel it there; the puts are one more than the repeats |
| `YmodemLaws.ExchangeGivesUp` | svc/ymodem.c:120-123 | eleven answers that ask for a repeat end it with a timeout |
| `YmodemLaws.ExchangeFaults` | svc/ymodem.c:112-113 | a put that fails ends it there with an I/O error |
| `YmodemSender.AwaitIgnoresStrays` | svc/ymodem.c:129-161 | any number of stray bytes before the 'C' changes nothing about a wait |
| `YmodemSender.AwaitCountsTimeouts` | svc/ymodem.c:140-158 | a 'C' is heeded if and only if at most ten timeouts came before it |
| `YmodemLaws.AwaitEnds` | svc/ymodem.c:129-161 | a wait heeds a 'C' after any other bytes and up to ten timeouts; two CANs in a row, or the abort, cancel it |
| `YmodemLaws.AwaitGivesUp` | svc/ymodem.c:140-158 | the eleventh timeout ends a wait, whatever other bytes came between |
| `YmodemLaws.BlockReads` | svc/ymodem.c:234-242 | the reads of a block gather what the source gives in turn until the block is full, a read fails or one gives nothing |
| `YmodemSender.ObligingSucceeds` | svc/ymodem.c:204-272 | with a receiver that calls and acknowledges at once, a working transport and a source that gives its bytes, a session of N data blocks succeeds in N + 3 puts |
| `YmodemSender.Sender.BlockCrc` | svc/ymodem.c:51-61 | the nested loops compute the CRC of the block's data, the remainder of `CrcPolynomial.CrcIsRemainder` |
| `YmodemSender.Sender.DecimalArray` | svc/ymodem.c:64-72 | the decimal digits of any 32-bit value in at most ten bytes, most significant first |
| `YmodemSender.Sender.BuildBlock0` | svc/ymodem.c:186-201 | the buffer holds name, NUL, decimal size and zeros up to 128 bytes |
| `YmodemSender.Sender.Assemble` | svc/ymodem.c:102-108 | the buffer is kind, number, complement, the data as it was, and the CRC high byte first |
| `YmodemSender.Sender.Deliver` | svc/ymodem.c:110-124 | the retry loop puts one message between 1 and 11 times and stops for the specified answer |
| `YmodemSender.Sender.SendBlock` | svc/ymodem.c:95-125 | only repeats of one valid frame of the buffered data go out |
| `YmodemSender.Sender.SendEot` | svc/ymodem.c:164-183 | only repeats of EOT go out |
| `YmodemSender.Sender.WaitC` | svc/ymodem.c:129-161 | nothing goes out; C, abort, double CAN and the eleventh timeout end the wait, stray bytes do not |
| `YmodemSender.Sender.Fill` | svc/ymodem.c:234-242 | the buffer holds exactly the bytes the reads gave, until enough, a fault or an empty read |
| `YmodemSender.Sender.PadBlock` | svc/ymodem.c:246-249 | data of at most 128 bytes is padded with 0x1A to 128, longer data to 1024 |
| `YmodemSender.Sender.SendChunk` | svc/ymodem.c:230-256 | a data block carries exactly the bytes just read, padded; nothing goes out when a read fails or gives nothing |
| `YmodemSender.Sender.SendData` | svc/ymodem.c:228-259 | data blocks go out numbered 1.. modulo 256, only the last may be short, at most the announced size is sent, and on success they are exactly the bytes the source gave |
| `YmodemSender.Sender.Run` | svc/ymodem.c:204-272 | whatever the receiver, transport and source do, the puts are a prefix of block 0, data blocks, EOT, null block, each repeated 1 to 11 times in a row; success means all of them; the result and what is left of the receiver's and the source's answers are those of the session function |
| `YmodemSender.Sender.Send` | svc/ymodem.c:274-280 | the result is the session function's; exactly one cancel, five CANs and eight backspaces, follows exactly on failure; on success a reference receiver that validates, drops repeats and cuts padding has the name - unchanged if it has 1 to 100 bytes -, the size and exactly the source's bytes |
| `UartRing.PutIsFifo` | shell/backend/cli_uart_ring.h:67-75 | a byte is stored exactly if fewer than size - 1 are, and is then the newest |
| `UartRing.GetIsFifo` | shell/backend/cli_uart_ring.h:78-85 | a byte comes out exactly if one is stored, and it is the oldest |
| `UartRing.PutAllIsFifo` | shell/backend/cli_uart_ring.h:88-95 | of several bytes exactly as many as fit are appended, in order |
| `UartRing.GetAllIsFifo` | shell/backend/cli_uart_ring.h:98-105 | draining takes the oldest bytes, all or as many as asked for |
| `UartRing.ContigIsOldest` | shell/backend/cli_uart_ring.h:113-120 | the contiguous run is the oldest part of the contents in place and is empty only if the ring is |
| `UartRing.AdvanceIsFifo` | shell/backend/cli_uart_ring.h:123-126 | advancing by n removes the n oldest bytes |
| `UartRing.RunIsFifo` | shell/backend/cli_uart_ring.h:67-85 | one producer and one consumer interleaved at single loads and stores: accepted bytes are the taken ones followed by those stored, never more than size - 1 |
| `UartRing.TestsAreExact` | shell/backend/cli_uart_ring.h:69-81 | at its load, a byte is refused exactly if the FIFO is full and the consumer sees none exactly if it is empty |
| `UartRing.DistinctCells` | shell/backend/cli_uart_ring.h:72-82 | the cell the producer writes is never the one the consumer reads |
| `UartTx.RunConserves` | shell/backend/cli_backend_uart.c:49-64 | over every interleaving of writers, byte shifts and completions and whatever HAL accepts, the line carries the accepted bytes in order and the ring holds exactly the rest; nothing in flight is overwritten |
| `UartTx.NeverStuck` | shell/backend/cli_backend_uart.c:202-214 | with HAL accepting, bytes are left waiting only while a transfer is under way |
| `UartTx.WriteTakesAll` | shell/backend/cli_backend_uart.c:109-123 | a write accepts exactly the bytes that fit |
| `UartTx.StartTakesRun` | shell/backend/cli_backend_uart.c:49-64 | an idle transmitter with bytes waiting hands HAL the whole run up to the head or the end of the buffer; anything else starts nothing |
| `UartDevice.ByteRing.Put` | shell/backend/cli_uart_ring.h:67-75 | the ring in place, with the index reduced modulo the size, stores as specified |
| `UartDevice.ByteRing.Get` | shell/backend/cli_uart_ring.h:78-85 | the ring in place yields as specified |
| `UartDevice.ByteRing.PutBuf` | shell/backend/cli_uart_ring.h:88-95 | the loop stores what fits and returns how many |
| `UartDevice.ByteRing.GetBuf` | shell/backend/cli_uart_ring.h:98-105 | the loop drains as specified and leaves the rest of the destination alone |
| `UartDevice.ByteRing.Count` | shell/backend/cli_uart_ring.h:54-58 | the number of bytes stored |
| `UartDevice.ByteRing.Free` | shell/backend/cli_uart_ring.h:61-64 | size - 1 less the bytes stored |
| `UartDevice.Uart.StartLocked` | shell/backend/cli_backend_uart.c:49-64 | a transfer of the contiguous run starts only if none is under way, bytes wait and HAL accepts |
| `UartDevice.Uart.Write` | shell/backend/cli_backend_uart.c:109-123 | enqueue and start as specified; the accepted count is returned |
| `UartDevice.Uart.PutcOnce` | shell/backend/cli_backend_uart.c:247-263 | one critical section of the spinning writer: the byte is stored or the ring was full, and transmission is kicked either way |
| `UartDevice.Uart.TxComplete` | shell/backend/cli_backend_uart.c:202-214 | the chunk leaves the ring and the next one starts |
| `NnStages.StepKeeps` | port/nn/nn_camera.c:183-315 | every lock section and every single element written or copied keeps the stage invariant |
| `NnStages.Fresh` | port/nn/nn_camera.c:183-192 | two free stages with nothing under way are in order, so the results about runs hold from there |
| `NnStages.AlwaysExclusive` | port/nn/nn_camera.c:219-315 | over every interleaving of producer, worker, detach and re-attach the stage written is never the one copied, and a ready stage holds a whole preprocessed frame of the current session |
| `NnStages.CopiesWholeFrames` | port/nn/nn_camera.c:296-315 | when the worker releases a stage the model input is element for element one completely preprocessed frame |
| `NnStages.FinishedFrame` | port/nn/nn_camera.c:239-250 | a frame finished in the session it was begun in, while the stream runs, becomes ready with its whole image; one that a new session, a detach or a stop overtook frees its stage |
| `NnStages.Claimed` | port/nn/nn_camera.c:219-301 | a frame takes a free stage if there is one and is dropped otherwise; the worker takes a ready stage if there is one |
| `NnStages.SessionEnds` | port/nn/nn_camera.c:183-282 | a new session drops all but a stage being copied, a detach what is ready; both move the epoch; a release frees the stage copied |
| `NnStages.FrameReachesModel` | port/nn/nn_camera.c:209-315 | a frame that meets a free stage in a running stream, preprocessed, taken and copied, is the model's input, and its stage is free again |
| `NnDevice.Staging.Claim` | port/nn/nn_camera.c:225-230 | the first stage in the wanted state changes state, or none does |
| `NnDevice.Staging.Finish` | port/nn/nn_camera.c:240-249 | the stage becomes ready exactly if the 32-bit epoch is the latched one and the stream runs; otherwise free |
| `NnDevice.Staging.SessionReset` | port/nn/nn_camera.c:183-192 | every stage but a running one is freed and the epoch moves on |
| `NnDevice.Staging.Close` | port/nn/nn_camera.c:272-282 | exactly the ready stages are freed and the epoch moves on |
| `NnDevice.Preprocess` | port/nn/nn_camera.c:137-171 | every source read lies inside the frame and every tensor element is written with the nearest-neighbour sample of its pixel |
| `NnDevice.TargetIs` | port/nn/nn_camera.c:145-169 | tensor index (oy * w + ox) * c + k is inside the tensor and belongs to output pixel (ox, oy), channel k |
| `NnDevice.ChannelBits` | port/nn/nn_camera.c:151-157 | red is the top five bits of a pixel's high byte, green its lower three and the top three of the low byte, blue the lower five, each scaled to 0..255 |
| `NnDevice.TensorElement` | port/nn/nn_camera.c:137-171 | element (ox, oy, c) is channel c of the frame's pixel (ox * width / w, oy * height / h), as -128..127, as [-1, 1] or as [0, 1] |
| `Reloc.Verify` | port/nn/nn_stedgeai_reloc.c:132-239 | the verifier accepts exactly the files in a word-aligned buffer that pass every check; all its reads are inside the file and every sum fits the 32 or 64 bits it is formed in |
| `RelocFormat.AcceptsLoadable` | port/nn/nn_stedgeai_reloc.c:132-239 | a file is accepted if and only if, told by its header words and the two address windows alone, its target, windows and alignment, sections, entry points, context, GOT words and relocations are right |
| `RelocFormat.Got` | port/nn/nn_stedgeai_reloc.c:217-229 | a GOT passes if and only if its image lies in the file and every word is zero, a RAM address below the end of bss or a file address inside the file |
| `Reloc.CheckSections` | port/nn/nn_stedgeai_reloc.c:171-187 | accepted iff the file sections and the RW sections are in order, the RW image fits the slot and the data image lies in the file |
| `Reloc.CheckContext` | port/nn/nn_stedgeai_reloc.c:204-215 | accepted iff the runtime context is an aligned RAM offset inside the initialised image and its image lies in the file |
| `Reloc.CheckGot` | port/nn/nn_stedgeai_reloc.c:217-229 | accepted iff the GOT image lies in the file and each word is zero, a RAM offset below the bss end or a file offset below the length |
| `Reloc.MinimalAccepted` | port/nn/nn_stedgeai_reloc.c:132-239 | a concrete small binary, with a RAM, a file and a null pointer in its GOT and a relocation, each at the very end of what is allowed, is accepted |
| `Reloc.CheckRel` | port/nn/nn_stedgeai_reloc.c:231-236 | accepted iff each relocation names a whole word of the RW image |
| `Reloc.CheckEntries` | port/nn/nn_stedgeai_reloc.c:192-202 | accepted iff all six entry points are flash-class, odd and between header and data image |
| `Reloc.Sound` | port/nn/nn_stedgeai_reloc.c:132-239 | for an accepted file every byte the loader reads is in the file, every byte it writes is in the RT-RAM slot, and the six entry points are Thumb addresses between header and data |
| `Reloc.PointersLand` | port/nn/nn_stedgeai_reloc.c:217-229 | every GOT pointer of an accepted file aims into the RAM slot or into the file |
| `RelocSwap.StageKeepsLive` | port/nn/nn_stedgeai_reloc.c:434-440 | reading a file into the offered region never touches the live slot |
| `RelocSwap.ReloadIsTransactional` | port/nn/nn_stedgeai_reloc.c:445-506 | a reload failing at any point leaves live handle, tensors, program bytes and RW image unchanged and leaks no handle; a successful one makes exactly the staged, verified file live and retires the old handle |
| `RelocSwap.ReloadAnswers` | port/nn/nn_stedgeai_reloc.c:445-506 | a reload succeeds if and only if there is no data, or the data is the inactive slot with a file of legal size that passes the verifier and the library builds a network from it; its error codes otherwise |
| `RelocSwap.LoadGoesLive` | port/nn/nn_stedgeai_reloc.c:434-506 | a good file read into the offered region and reloaded is live: its bytes with zeros behind them, the library's RW image, its handle and tensors and the name; the handle before it is destroyed |
| `RelocSwap.CloseLeavesNothing` | port/nn/nn_stedgeai_reloc.c:398-407 | a close leaves no model and no handle, and both slots as they were |
| `RelocSwap.LiveSurvives` | port/nn/nn_stedgeai_reloc.c:434-506 | over any run of stagings and failed reloads the live model stays what it was |
| `RelocSwap.RelocBackend.LoadRegion` | port/nn/nn_stedgeai_reloc.c:434-440 | the region offered is the inactive slot |
| `RelocSwap.RelocBackend.ReloadModel` | port/nn/nn_stedgeai_reloc.c:445-506 | the reload on the slot arrays, with tail clearing, verification, build and publication, computes the specified result |
| `RelocSwap.RelocBackend.CloseModel` | port/nn/nn_stedgeai_reloc.c:398-407 | the handle is destroyed and no model is live |
| `NorFlash.ChunkProgram` | port/qspi/qspi_flash.c:449-454 | a page program that stays in its page ANDs its data in at the right place and changes nothing else |
| `NorFlash.CrossingWraps` | port/qspi/qspi_flash.c:449-454 | one that crosses the page boundary does not: the split is necessary |
| `NorFlash.Driver.Write` | port/qspi/qspi_flash.c:433-489 | success makes exactly addr..addr+len-1 equal old AND data; on an error the completed chunks are written, the failing chunk lies in one page, and nothing from its end on is touched; bad ranges change nothing; a device that completes everything gives success |
| `NorFlash.Driver.WriteChunk` | port/qspi/qspi_flash.c:448-484 | one turn of the loop programs up to the end of the page at most, as one page program |
| `NorFlash.Driver.ProgramChunk` | port/qspi/qspi_flash.c:456-480 | one page program with its status checks: complete on success, otherwise confined to the bytes it addresses |
| `NorFlash.Driver.Erase` | port/qspi/qspi_flash.c:491-507 | the aligned unit holding the address, and nothing else, is erased on success; nothing else changes on failure |
| `NorFlash.Driver.Read` | port/qspi/qspi_flash.c:404-431 | a successful read returns the bytes of the range |
| `NorFlash.EraseWriteRead` | port/qspi/qspi_flash.c:433-507 | erasing every unit a range touches, writing and reading returns the data, whatever was there |
| `NorFlash.WrittenMore` | port/qspi/qspi_flash.c:448-485 | writing chunk after chunk is writing the whole |
| `Fmt.RenderedParsesBack` | svc/fmt.c:61-73 | every magnitude reads back in base 10 and 16, upper or lower case, with no leading zero but for zero itself; 64-bit ones within 20 and 16 characters |
| `Fmt.SignedReadsBack` | svc/fmt.c:37-57 | a signed field of any width, padded with spaces on either side or with zeros, reads back as the exact value of every 64-bit argument, the most negative included |
| `Fmt.SignedShape` | svc/fmt.c:37-57 | a signed field is the bare number if and only if its width does not exceed it, sign included; any other is exactly as wide as asked for |
| `Fmt.UnsignedReadsBack` | svc/fmt.c:37-57 | an unsigned or hexadecimal field of any width and padding reads back as its number |
| `Fmt.TrimPadded` | svc/fmt.c:37-57 | taking the spaces off a field leaves prefix, zeros and body |
| `Fmt.ZeroPaddedReadsBack` | svc/fmt.c:37-57 | a zero-padded signed field shows its sign first and reads back after it |
| `Fmt.LeadingZeros` | svc/fmt.c:48-51 | zeros before a number do not change what it denotes |
| `Fmt.Padded` | svc/fmt.c:37-57 | the length of a field is the larger of its width and its natural length |
| `FmtConversions.EveryFormat` | svc/fmt.c:102-134 | every format string is empty, starts with an ordinary character or with a specification - flags out of - and 0, a width not starting with 0, a length modifier, a character - or is a specification cut short |
| `FmtConversions.LiteralPiece` | svc/fmt.c:104-108 | an ordinary character stands for itself |
| `FmtConversions.SpecPiece` | svc/fmt.c:109-189 | a specification prints what it prints alone, and the rest goes on with the next argument if it took one |
| `FmtConversions.PrintsSigned` | svc/fmt.c:153-162 | %d and %i, with any flags and width, read back in base 10 as the two's complement value of the argument's 32 bits, or 64 after ll; the sign goes before the zeros; '-' puts blanks behind, '0' zeros between, neither blanks in front, up to the width capped at 4096 |
| `FmtConversions.PrintsUnsigned` | svc/fmt.c:163-174 | %u reads back in base 10, %x and %X in base 16 with lower- and upper-case letters alone, as the argument modulo 2^32, or modulo 2^64 after ll, laid out likewise |
| `FmtConversions.PrintsPointer` | svc/fmt.c:175-180 | %p prints 0x and the argument modulo 2^32 in lower-case hexadecimal |
| `FmtConversions.PrintsText` | svc/fmt.c:142-152 | %s prints the string, or (null) for a null pointer, and %c the argument's lowest byte, padded with blanks alone |
| `FmtConversions.PrintsOther` | svc/fmt.c:139-187 | %% prints a percent sign, and a character that is no conversion is printed as it stands behind one |
| `FmtConversions.PrintsCutShort` | svc/fmt.c:181-183 | a format string that ends inside a specification prints the percent sign alone |
| `FmtDevice.Utoa` | svc/fmt.c:61-73 | the digits go into the caller's buffer most significant first, at most 20, and nothing beyond them changes |
| `FmtDevice.ScanSpec` | svc/fmt.c:111-134 | the flag, width and length loops compute the specification, width capped at 4096 |
| `FmtDevice.Sink.Put` | svc/fmt.c:199-204 | a character is stored while it and a NUL still fit: the buffer always holds the first min(n, size - 1) characters |
| `FmtDevice.Sink.PutField` | svc/fmt.c:37-57 | the characters of the field go out in order |
| `FmtDevice.Sink.PutSigned` | svc/fmt.c:153-162 | the magnitude is formed without negating the most negative value, and the field is the signed number |
| `FmtDevice.Sink.Format` | svc/fmt.c:102-190 | the single pass over the format string puts exactly the stream of the specification, arguments taken in order; what that stream is, `FmtConversions` states conversion by conversion |
| `FmtDevice.Vsnformat` | svc/fmt.c:206-214 | with size > 0 exactly the first min(n, size - 1) characters of the stream and a NUL are stored and that count returned; with size 0, and beyond size, nothing changes |

## Left out

- LogFormat.FormatCut: takes `memset` to go from the first byte on, and the words of the header as single stores; clearing any byte of the magic number already invalidates it.
- Log: memory reordering and a fault nested inside a critical section; a section is interrupted only by a reset.
- Log: rings beyond 2^30 bytes, `log_set_level`, and the reset-cause string, whose text is a parameter of the boot marker.
- Log: formatting the message (`fmt_vsnformat`) happens before the ring is touched; the text is a parameter here and the formatter is modelled on its own.
- LogDevice.Log.IterNextRecord: is stated with the snapshot's end in reach of the tail; beyond it the loop need not end (`LogCursor.CallNeedNotEnd`), and `LogDevice.Log.OneTurn` gives each of its turns.
- Frame pipeline: `consume`, `open` and `close` callbacks are events of the environment; pixel format and geometry of a frame are not part of a slot.
- FrameWorld.SinkGuarantees: "at most one delivery outstanding" is stated for sinks that take no extra pins, as the design says; increasing generations are counted without the 32-bit wrap, and the slots' own ones are these modulo 2^32.
- CameraStream: producer, DMA and readers are a state machine on values with one pixel value per store; `CameraProducer` ties the acts of the in-place service functions to its steps, for other threads moving only between passes.
- Camera: how the stop conditions (targets, errors) come about, HAL start failures, and the probe and configuration of the sensor; they are inputs of a pass.
- Display: partially written transfers, the detection overlay drawn into the view, and drawing other than pixelmaps, which is one event.
- Coherence.RunShows: is stated for one geometry per run; across a change of geometry `Coherence.Shown` excuses the icons of earlier geometries until a refresh repaints the panel.
- Display: while the camera is hidden the schemes may differ in the camera rectangle until it is repainted; `Coherence.Shown` says so.
- YMODEM: time is the number of timeouts; the name is a list of non-zero bytes and a missing name is the empty one; checksum mode and the receiver side are not part of the code.
- UART: reception and its re-arming beyond the ring itself, `_write`'s LF translation and routing, the spin bound, and teardown with its abort.
- Staging buffers: the session lease, worker start-up, detections and statistics. A detection computed from a frame of a session that closed meanwhile can still be published; nothing is claimed about it.
- NnDevice.Preprocess: element arithmetic is over exact numbers, without the rounding of single precision.
- Relocatable binaries: the loader library, cache maintenance, tensor mapping and the activation arena, which both models share; the size of the library's runtime context is a parameter because its header is not part of this model.
- NOR flash: status polling and time-outs are outcomes of the device; chip erase and the quad-mode set-up.
- Formatter: a mismatch between format and arguments is undefined in C; the model reads zero or "(null)" there.
- HAL registers, interrupt priorities, GUIX, FileX, LevelX, NetX, the model runtime, the sensor library and the shell commands.
