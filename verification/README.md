# Verified model of a dual-slot bootloader

The bootloader keeps two firmware slots and two ping-pong metadata regions in flash. It boots the
nominated slot, gives a new image three trial boots before it reverts, and accepts updates over a
framed serial protocol from a host tool. This project models the C core, the simulated flash it
runs on, the image tools and the host's update tool, and proves what they keep over whole runs.

The project is read bottom up.

| file | what it holds |
|---|---|
| `Bytes`, `Optional`, `Status` | little-endian fields, optional values, result codes |
| `Crc32` | CRC-32/ISO-HDLC as 32-bit words, its algebra, what bursts it is certain to catch |
| `Frame`, `Desync` | whole-frame codec, the byte-fed parser, streams, corruption, resynchronisation and what it loses |
| `Flash` | flash contents, layout, and what an operation leaves when it fails or loses power |
| `Meta` | the metadata store and its refinement of one cell |
| `Image` | slot validation, host validation, image building |
| `Core` | selection, trial boot, session and command handlers as functions; events and runs |
| `Sessions` | which writes a session accepts, told from its history |
| `KnownAnswers` | published values and literal messages |
| `Safety`, `Trial`, `Programming`, `Damage`, `Answers` | what every run keeps |
| `Provisioned` | a concrete device that meets the premises of those results |
| `Retry`, `Link`, `Install`, `HostTool`, `HostLimits` | the host's tool over a link that loses frames to a device that may lose power, and where it falls short |
| `HostFlash`, `BootCore` | the simulated flash and the core as imperative code, proved equal to the functions |

**Faults.** Each flash operation has a fate: it completes, it reports failure and leaves flash
unmodified, or power is lost in it and only an arbitrary subset of its pages (for an erase) or
8-byte units (for a write) took effect. A power loss before an operation is the empty subset. After
a power loss flash persists and the session starts over. Run-level results quantify over every
sequence of events and every fate in them.

**Integers.** Bytes are 0..255 and fields are natural numbers with the 32-bit limit written out;
the sequence counter wraps. Checksums are 32-bit words inside `Crc32` and four stored bytes
elsewhere, which `Crc32.PutWordInjective` shows to be the same comparison.

**Claims that do not hold as stated.** Each is kept as the code has it, with an input at which it
fails and the exact condition under which it holds.

- "A successful metadata commit takes effect": exactly unless the sequence counter wraps
  (`Meta.CommitAtomic`; fails in `Meta.WrapIgnoresCommit`).
- "An unconfirmed image is started at most three times": exactly when the counter has room for three
  attempts and a revert (`Trial.TrialBoundIff`; fails in `Provisioned.WornDeviceUnbounded`).
- "Flash is never programmed twice": exactly unless a header write is longer than the lowest
  non-zero offset already written (`Programming.ProgramsTwiceIff`; fails in
  `Programming.LowOffsetClobbers`).
- "The host preserves the slot that would boot": exactly unless the nominated slot is damaged beside
  a good one or two unnominated images tie on version (`HostTool.TargetPreservesBootSlotIff`; fails
  in `HostLimits.DamagedNominationTargetsBootSlot` and `HostLimits.TieTargetsBootSlot`).
- "A desynchronised receiver loses at most one frame": for every state of the receiver and every
  sequence of frames, separated by noise without markers, exactly when it is between two frames again
  by the start of the second, which the markers and length fields of the stream decide (`Desync.AtMostOneLostIff`; fails in
  `Frame.SixtyFourFramesLost`). Nothing bounds the loss: `Desync.EveryFrameLost` loses any number of
  frames behind one stray header. What is bounded, by 519 bytes, is the time until the parser waits
  for a marker (`Frame.Resynchronises`).
- "A retried write refused as not erased has landed": so it is while the device does not restart, for
  a write it was ready to accept, then the only kind `update` sends. For any other write nothing is
  programmed, and success is reported exactly when the refusal is as not erased and answers a retry;
  every other refusal is reported as one (`HostTool.Bootloader.Write`; fails in
  `HostLimits.MisreportedWrite`). `update` is safe all the same: VERIFY follows, and passes only if
  the payload is whole (`HostTool.Verified`).

Where the header comments of `bl_core.h` say that SET_ACTIVE is not handled and that writes need
not ascend, the code does otherwise and the model follows the code.

## Model

| member | source | states |
|---|---|---|
| `Bytes.ValueDigits` | core/src/bl_core.c:24-39 | a number written little-endian reads back as itself, for every width it fits |
| `Bytes.DigitsValue` | core/src/bl_core.c:24-39 | and every byte string is the writing of the number it reads as |
| `Bytes.U32Bytes` | core/src/bl_core.c:24-39 | a 32-bit field is the sum of its bytes, least significant first |
| `Crc32.RegisterUnfold` | core/src/bl_crc32.c:15-26 | one byte is an exclusive or and eight bit steps |
| `Crc32.Compute` | core/src/bl_crc32.c:11-29 | the nested loops compute the running checksum of the bytes from any running value |
| `Crc32.CrcConcat` | core/include/bl_port.h:133-155 | feeding consecutive blocks yields the checksum of their concatenation |
| `Crc32.BitStepsLinear` | core/src/bl_crc32.c:18-25 | any number of bit steps is linear over exclusive or |
| `Crc32.BitStepsInjective` | core/src/bl_crc32.c:18-25 | no two registers are merged by any number of bit steps |
| `Crc32.RegisterWord` | core/src/bl_crc32.c:15-26 | four byte steps are one exclusive or with a little-endian word and 32 bit steps |
| `Crc32.BurstDetected` | core/src/bl_crc32.c:11-29 | any change within four consecutive bytes of an equal-length message changes the checksum, in any context |
| `Crc32.PutWordInjective` | core/src/bl_frame.c:197-201 | comparing stored checksum bytes is comparing words |
| `Crc32.ReceivedMatches` | core/src/bl_frame.c:132-141 | the word assembled from four received bytes equals a checksum exactly when the bytes are its stored form |
| `Crc32.IntactResidue` | core/src/bl_crc32.c:11-29 | every message followed by its own checksum leaves the register at 0xDEBB20E3 |
| `Crc32.BurstBreaksIntact` | core/src/bl_crc32.c:11-29 | a burst anywhere in a message with its checksum, also across their boundary, is detected |
| `KnownAnswers.CheckValue` | core/src/bl_crc32.c:11-29 | the published check value: the nine digits have checksum 0xCBF43926 |
| `Frame.DecodeIffEncoded` | tools/blproto.py:142-185 | decoding succeeds on the encoding of a frame and on nothing else |
| `KnownAnswers.HelloRequest` | core/src/bl_frame.c:168-203 | the eight bytes of a HELLO request on the wire |
| `Frame.EncodeInto` | core/src/bl_frame.c:168-203 | the buffer receives exactly the frame the host encodes, or nothing, and nothing is written past it |
| `Frame.CompleteIffEncoded` | core/src/bl_frame.c:32-151 | a byte completes a frame exactly when the bytes since the accepted SOF are the encoding of the delivered frame |
| `Frame.FrameParser.constructor` | core/src/bl_frame.c:14-20 | a new parser waits for SOF and holds nothing |
| `Frame.FrameParser.Feed` | core/src/bl_frame.c:32-151 | the incremental state machine gives the verdict of the whole-prefix specification, holds what it says and delivers its frame; the payload index stays inside the buffer |
| `Frame.LastCrcByte` | core/src/bl_frame.c:132-146 | the incremental checksum comparison is the verdict on the whole frame |
| `Frame.Receive` | sim/bl_sim.c:73-78 | a stream fed byte by byte delivers exactly the frames the stream semantics says |
| `Frame.StreamRoundTrip` | core/src/bl_frame.c:32-203 | encoded frames separated by SOF-free garbage are delivered exactly, in order, and the parser ends up waiting |
| `Frame.BurstRejected` | core/src/bl_frame.c:69-147 | a frame with up to four consecutive bytes altered outside LEN is inconclusive up to its last byte and then an error |
| `Frame.RemainingDecreases` | core/src/bl_frame.c:69-147 | outside WAIT_SOF every byte decreases the number of bytes that can still be swallowed, which is at most 519 |
| `Frame.Resynchronises` | README.md:58-61 | from every reachable state and any input the parser waits for SOF again within 519 bytes |
| `Frame.StrayHeaderSwallows` | core/src/bl_frame.c:69-124 | a stray header takes everything up to the checksum it announces for its own, delivering nothing |
| `Frame.SixtyFourFramesLost` | README.md:60-61 | counterexample: one stray header loses sixty-four deliverable frames |
| `Desync.SwallowsExactly` | core/src/bl_frame.c:69-147 | from every reachable state a parser takes exactly the bytes its header announces, delivers them only if they complete a frame, and receives the rest as a waiting parser |
| `Desync.JoinedLate` | core/src/bl_frame.c:32-67 | a waiting parser that joins a stream of any frames at any byte delivers, after at most strays, exactly the frames that had not begun when it was between two frames again, in order |
| `Desync.SettlesQuietly` | core/src/bl_frame.c:32-46 | without a marker in the rest of the frame it joined in, that is where this frame ends |
| `Desync.LosesFramesBegun` | README.md:58-61 | from any state and for any frames, the receiver loses exactly the frames that begin before it is between two frames again |
| `Desync.AtMostOneLostIff` | README.md:60-61 | it loses at most one frame exactly when that is by the start of the second |
| `Desync.EveryFrameLost` | README.md:60-61 | counterexample: however many frames follow, one stray header can lose them all |
| `Flash.EraseFrame` | port/host/bl_port_host.c:272-280 | an erase, however it ends, changes nothing outside its range |
| `Flash.ProgramFrame` | port/host/bl_port_host.c:303-337 | a write, however it ends, changes nothing outside its range |
| `HostFlash.RangeValidExact` | port/host/bl_port_host.c:141-156 | the 32-bit range test is the unbounded one; nothing in it wraps |
| `HostFlash.MarkWrittenEffect` | port/host/bl_port_host.c:167-174 | marking one byte sets its bit in the packed bitmap and no other |
| `HostFlash.MarkErasedEffect` | port/host/bl_port_host.c:176-183 | unmarking one byte clears its bit and no other |
| `HostFlash.HostFlash.constructor` | port/host/bl_port_host.c:219-245 | after initialisation flash is erased, no byte is programmed, no failure is armed, no write counted and no jump recorded |
| `HostFlash.HostFlash.ReadRange` | port/host/bl_port_host.c:340-358 | a valid read returns the addressed bytes |
| `HostFlash.HostFlash.EraseRange` | port/host/bl_port_host.c:252-281 | contents and the set the bitmap stands for change exactly in the addressed range |
| `HostFlash.HostFlash.WriteRange` | port/host/bl_port_host.c:283-338 | the range takes the data and becomes programmed, or an injected failure changes nothing; the calls are counted |
| `HostFlash.HostFlash.CheckBlank` | port/host/bl_port_host.c:313-315 | the double-programming check fires exactly when the range overlaps programmed bytes |
| `HostFlash.HostFlash.FindSlot` | port/host/bl_port_host.c:195-217 | the loop finds the slot containing an address, or that there is none |
| `HostFlash.HostFlash.JumpToApp` | port/host/bl_port_host.c:442-515 | of an address whose slot holds two given words, the jump is recorded exactly when it is aligned, the first word a stack pointer in RAM and the second an odd reset vector into the slot |
| `HostFlash.VectorsDecide` | port/host/bl_port_host.c:484-510 | the same over flash contents, for every pair of words |
| `Meta.ParseRecord` | core/src/bl_meta.c:34-60 | a stored record reads back as itself, its reserved bytes zero |
| `Meta.ParseIff` | core/src/bl_meta.c:34-60 | byte by byte, what a region must hold to read as a given record |
| `Meta.ReadIsNewest` | core/src/bl_meta.c:70-107 | the record read is a valid one with the highest sequence number, region 0 on a tie |
| `Meta.ParseTorn` | core/include/bl_meta.h:14-20 | whatever subset of a record's two programming units took effect, the region reads as the whole record or as absent, with no assumption on checksum collisions |
| `Meta.CommitAtomic` | core/src/bl_meta.c:110-191 | cut anywhere, a commit leaves the cell unchanged or holding the new record; success means both operations completed, and the new record is read exactly when the counter did not wrap |
| `Meta.CommitStatus` | core/src/bl_meta.c:110-191 | a commit reports exactly how its erase and its write ended, and a refused one changes nothing |
| `Meta.CommitAlternates` | core/src/bl_meta.c:117-143 | a completed commit leaves the superseded record beside the new one; the first record goes to region 0 with sequence number 1 |
| `Meta.WrapIgnoresCommit` | core/src/bl_meta.c:125-126 | counterexample: at the last sequence number a commit succeeds and the old record is still read |
| `Meta.CommitSlots` | core/src/bl_meta.c:146-173 | a commit, however it ends, changes no slot byte |
| `Meta.StoreRefinesCell` | core/include/bl_meta.h:12-20 | over any series of commits the two regions behave as one cell in which each commit took effect or not: every successful one did until the last sequence number is used, none from then on |
| `BootCore.BootCore.ReadRegion` | core/src/bl_meta.c:34-60 | a region is read as its parsed record, if any |
| `BootCore.BootCore.FindNewest` | core/src/bl_meta.c:70-88 | the loop finds the valid record with the highest sequence number and its region |
| `BootCore.BootCore.MetaRead` | core/src/bl_meta.c:91-107 | the authoritative record is the value of the abstract cell |
| `BootCore.BootCore.MetaCommit` | core/src/bl_meta.c:110-191 | leaves flash and returns a status exactly as the atomic commit does, never programming a byte twice |
| `Image.ValidateIffBootable` | core/src/bl_core.c:139-215 | validation accepts exactly the slots that meet the whole-slot specification |
| `Image.HeaderLayout` | core/include/bl_proto.h:95-105 | where each header field lies |
| `Image.ValidateVerdicts` | core/src/bl_core.c:139-211 | for each of the seven verdicts, exactly the slots that get it |
| `Image.BlankHeaderRejected` | core/src/bl_core.c:139-141 | a slot whose first word is erased is rejected for its magic, whatever else it holds |
| `Image.HeaderRoundTrip` | tools/blimage.py:54-88 | a built header decodes to the fields it was built from |
| `Image.Padded` | tools/mkimage.py:30-44 | the shortest extension by erased bytes to whole write granules |
| `Image.PadPayload` | tools/mkimage.py:30-44 | the in-place extension yields that padding |
| `Image.BuiltImageAccepted` | tools/mkimage.py:88-125 | every non-empty input that fits the slot yields an image the host accepts, carrying the version, erased padding and the padded input |
| `Image.InstalledBootable` | tools/blimage.py:91-159 | every image the host accepts for a slot is accepted by the device once stored there |
| `Image.PipelineAgrees` | tools/mkimage.py:30-79 | from raw binary to a slot the device boots |
| `Image.HostAcceptsIff` | tools/blimage.py:91-159 | the host accepts exactly what the device would validate in a slot the image fills, in whole granules and if it fits |
| `BootCore.BootCore.ValidateSlot` | core/src/bl_core.c:118-216 | the chunked loop gives the specified verdict and changes the caller's header only on success |
| `BootCore.BootCore.ReadSlot` | core/src/bl_core.c:132-207 | every read validation makes lies inside the slot and returns the addressed slot bytes |
| `BootCore.BootCore.PayloadCrc` | core/src/bl_core.c:181-207 | the 256-byte chunks add up to the checksum of the whole payload |
| `Core.StepCommits` | core/src/bl_core.c:311-419 | apart from ERASE_SLOT and WRITE a step changes flash by one commit or not at all, and a commit keeps the nominated slot or nominates one that validates |
| `Safety.SelectIffBootable` | core/src/bl_core.c:229-300 | a slot is selected exactly when some slot validates |
| `Safety.BootNeverGivesUp` | core/src/bl_core.c:311-377 | for every metadata content and commit failure, boot jumps exactly when some slot validates, to the aligned entry point inside a validated slot, and no slot byte changes |
| `Safety.BootStartsSelected` | core/src/bl_core.c:229-376 | a completed boot starts the slot the metadata it leaves nominates, if that validates, else the other; without metadata the only valid one, and of two the second exactly when its version is the greater |
| `Safety.CommitKeepsStartable` | core/src/bl_core.c:384-419 | a commit nominating a valid slot keeps the nominated slot valid at every cut point |
| `Safety.NeverBricked` | core/src/bl_core.c:266-419 | from a valid nomination, every run that keeps erases and writes off the nominated slot, with any power cuts, ends with a valid nominated slot, and that slot is selected |
| `Safety.NeverUnbootable` | core/src/bl_core.c:488-621 | with or without metadata, a run that spares the slot that would boot at the time leaves something bootable |
| `Safety.EraseLeavesNoHeader` | core/src/bl_core.c:516-529 | a successful ERASE_SLOT leaves the slot without a header |
| `Safety.HeaderLast` | README.md:27-29 | until a write at offset zero programs the first unit of the slot, every interleaving of requests, failures, boots and power cuts, failed and cut header writes included, leaves it rejected for its magic |
| `Trial.SetActiveStartsTrial` | core/src/bl_core.c:384-402 | a successful SET_ACTIVE nominates a validated slot on trial with no attempt used, exactly unless the counter wraps |
| `Trial.NominationStatus` | core/src/bl_core.c:663-678 | a nomination of a valid slot answers exactly how its commit ended |
| `Trial.TrialBound` | core/src/bl_core.c:311-350 | over any run of boots, resets and power cuts the unconfirmed slot is handed control no more often than attempts are recorded, at most three times, and a fourth completed boot finds the device reverted |
| `Trial.RevertingBoot` | core/src/bl_core.c:338-349 | the boot after three attempts confirms the other slot and hands over to it |
| `Trial.BootBookkeeping` | core/src/bl_core.c:311-350 | for every metadata content, what a boot records, when it does, and that only lost power stops it |
| `Trial.ConfirmedBootsFreely` | core/src/bl_core.c:319-321 | booting a confirmed image leaves flash exactly as it was |
| `Trial.FailingFlashDoesNotCount` | core/src/bl_core.c:323-336 | when erasing or programming fails the boot goes ahead uncounted, as designed |
| `Trial.UsedUpCounterNeverReverts` | core/src/bl_meta.c:125-126 | on a trial that would use up the sequence counter, every boot of any run hands over to the unconfirmed slot and none reverts |
| `Trial.TrialBoundIff` | core/src/bl_core.c:311-350 | no unattended run hands over more than three times, exactly when the counter has room for three attempts and the revert |
| `Trial.ConfirmEndsTrial` | core/src/bl_core.c:405-419 | a successful confirmation ends the trial of the nominated slot exactly unless the counter wraps, is idempotent, keeps a startable device startable and changes no slot byte; without metadata it is refused |
| `Trial.ConfirmStatus` | core/src/bl_core.c:405-419 | a confirmation reports exactly how its commit ended, and on success the record is confirmed |
| `Trial.ConfirmedForever` | core/include/bl_core.h:118-132 | after confirmation no run of boots and power cuts changes flash or starts the other slot |
| `Trial.StepKeepsMetaSound` | core/src/bl_core.c:331-349 | every step keeps records sound and consecutive in 32-bit arithmetic, and moves the nomination only to a slot that validates |
| `Trial.OneApartIff` | core/src/bl_meta.c:125-126 | consecutive records differ by exactly one, exactly unless one was written on the wrap |
| `Trial.ReachableMetaSound` | core/src/bl_meta.c:125-143 | from erased flash, after a run of any length, confirmed records carry no attempts, trial records at most three, and two valid records are consecutive, by exactly one until the last sequence number is read |
| `Provisioned.DeviceOnTrial` | core/src/bl_core.c:384-402 | every acceptable image yields a device that meets the premises of the run-level results: both slots valid, the first freshly on trial |
| `Provisioned.PremisesMet` | tools/mkimage.py:88-125 | the image built from one byte yields such a device outright |
| `Provisioned.DeviceAt` | core/src/bl_core.c:384-402 | such a device exists at every sequence number |
| `Provisioned.WornDeviceUnbounded` | core/src/bl_meta.c:125-126 | counterexample: a device three short of the last sequence number, whose trial is not bounded |
| `Programming.WriteOfExact` | core/src/bl_core.c:551-612 | an event does at most one programming operation: flash ends as that operation leaves it, and nothing else is newly programmed |
| `Programming.CommitNeverClobbers` | core/src/bl_meta.c:163-173 | no boot, confirmation, nomination or other event but a WRITE programs a byte twice: a commit programs a region it has just erased |
| `Programming.ProgramsTwiceIff` | core/src/bl_core.c:551-606 | in every reachable state, an event of any kind programs a byte twice exactly when it is an accepted write at offset zero longer than the lowest non-zero offset programmed since the erase |
| `Programming.ClobbersIff` | core/src/bl_core.c:551-606 | of requests alone, with the same condition: a request reaches flash with a byte already programmed exactly when it is such a write, whatever its fate |
| `Programming.NeverProgrammedTwice` | core/src/bl_core.c:565-585 | no event of any run of requests, boots, confirmations and power cuts whose non-zero write offsets are at least 512 programs a byte twice |
| `Programming.LowOffsetClobbers` | core/src/bl_core.c:577-585 | counterexample: a write at 8 followed by a sixteen-byte header |
| `Damage.PayloadBurstRejected` | core/src/bl_core.c:186-211 | a burst in the payload of a bootable image is reported as a payload checksum failure |
| `Damage.HeaderBurstRejected` | core/src/bl_core.c:139-155 | a burst anywhere in a header, its checksum included, is rejected |
| `Damage.RecordBurstAbsent` | core/src/bl_meta.c:45-55 | a burst anywhere in a valid record makes it read as absent |
| `Damage.DamagedSlotFallsBack` | core/src/bl_core.c:280-297 | after a burst in the nominated slot's payload the other slot is selected |
| `Damage.DamagedRecordFallsBack` | core/src/bl_meta.c:70-88 | after a burst in the newest record the previous one is authoritative |
| `Answers.EveryRequestAnswered` | core/src/bl_core.c:704-748 | every request of a powered device is answered by a status code and at most twenty bytes, in a frame of at most 29 bytes that parser and host decode alike |
| `Answers.ResetOnlyByReset` | core/src/bl_core.c:681-701 | a reset is requested by an acknowledged RESET and by no other request |
| `Answers.EraseDecided` | core/src/bl_core.c:488-530 | an erase answers how it ended; one that fails changes nothing, the session included |
| `Answers.MalformedRefused` | core/src/bl_core.c:704-748 | an unknown command or a payload of the wrong length is refused as an invalid packet and changes nothing |
| `Answers.AbsentSlotRefused` | core/src/bl_core.c:497-504 | a command naming a slot the device does not have is refused and changes nothing |
| `Answers.CodesDistinct` | core/include/bl_proto.h:149-181 | no two results share a code on the wire |
| `KnownAnswers.HelloAnswerBlank` | core/src/bl_core.c:426-482 | the 21 bytes a device without metadata answers to HELLO |
| `Sessions.CheckFromHistory` | core/src/bl_core.c:540-594 | the checks of a WRITE, in their order, from the list of writes since the erase |
| `Sessions.WriteDecided` | core/src/bl_core.c:533-621 | after every run, every WRITE is refused for what its history says or accepted and answered by how programming ended |
| `Sessions.WriteLands` | core/src/bl_core.c:596-615 | an accepted write puts its data at its offset in the slot that was erased and nowhere else |
| `Sessions.RefusedIff` | core/src/bl_core.c:577-585 | an aligned write inside the slot is refused as not erased exactly when no session is open, a second write is at zero, or an earlier one ended beyond it; otherwise it is acknowledged |
| `BootCore.BootCore.SelectSlot` | core/src/bl_core.c:229-300 | selects as specified and writes its outputs only on success |
| `BootCore.BootCore.AdvanceTrial` | core/src/bl_core.c:311-350 | the trial bookkeeping leaves flash as specified |
| `BootCore.BootCore.BootImage` | core/src/bl_core.c:353-377 | leaves flash as specified; of an image with two given vector words, its entry point is recorded as the jump exactly when the words suit the slot |
| `BootCore.RefusedOnlyForVectors` | core/src/bl_core.c:368-374 | the port refuses a booted image for its vectors, never for where it lies |
| `BootCore.BootCore.MarkSlotPending` | core/src/bl_core.c:384-402 | nominates as specified, the failed validation returned otherwise |
| `BootCore.BootCore.ConfirmRunning` | core/src/bl_core.c:405-419 | confirms as specified |
| `BootCore.BootCore.Respond` | core/src/bl_core.c:78-111 | a complete frame in the buffer, or a failure and an untouched buffer; data beyond twenty bytes is a failure |
| `BootCore.BootCore.EraseTarget` | core/src/bl_core.c:488-530 | erases the slot and opens the session as specified |
| `BootCore.BootCore.CheckWrite` | core/src/bl_core.c:540-594 | refuses exactly what the specification refuses, with its status |
| `BootCore.BootCore.WriteChunk` | core/src/bl_core.c:533-621 | programs and advances the session as specified, never programming a byte twice |
| `BootCore.BootCore.HandleFrame` | core/src/bl_core.c:704-748 | handles every command as specified and answers in the caller's buffer |
| `Retry.EraseApplied` | core/src/bl_core.c:488-530 | an erase sent any number of times, whatever the power does, touches its slot only; answered with success, the slot is blank; of no slot, it is refused and changes nothing |
| `Retry.WriteApplied` | tools/blflash.py:256-268 | an acceptable write sent any number of times lands at most once, and the last answer tells: success or a refusal as not erased, which only a repeat can get, means it landed, a programming failure that it did not |
| `Retry.WriteConfined` | core/src/bl_core.c:551-612 | an acceptable write sent any number of times touches the range it names only, whatever the power does; once power was lost the session is gone |
| `Retry.WriteRefused` | core/src/bl_core.c:551-594 | a write the device is not ready for changes nothing, however often it is sent |
| `Retry.SetActiveApplied` | core/src/bl_core.c:663-678 | a nomination sent any number of times, whatever the power does; answered with success, the slot is freshly on trial; of no slot or one that does not validate, it is refused with the reason and changes nothing |
| `Link.WriteSafe` | tools/blflash.py:256-266 | repeating a write never programs a byte twice, however often it gets through and whatever the power does |
| `Install.ChunkSent` | tools/blflash.py:373-378 | after a chunk is sent the slot holds the payload so far, or the session is gone and the slot has no header |
| `Install.HeaderSent` | tools/blflash.py:383-388 | after the header is sent over a whole payload, everything past the header is as the image has it, whatever the power does |
| `HostTool.TargetPreservesBootSlotIff` | tools/blflash.py:305-335 | the chosen target is not the slot that would boot, exactly unless the nominated slot is damaged beside a good one or two unnominated images tie |
| `HostTool.TargetPolicy` | tools/blflash.py:305-335 | on every device the slot chosen: not the nominated one; without nomination the one that does not validate, the lower version, slot A of a blank device or on a tie |
| `HostTool.Bootloader.Transact` | tools/blflash.py:141-188 | the device has seen the request once per attempt that got through, restarts and power losses included; the response is its answer to the last; there is one exactly when some attempt within the retries is answered, and it tells whether that was the first |
| `HostTool.Bootloader.Hello` | tools/blflash.py:200-235 | the decoded fields are the device's geometry and boot state, whenever an attempt is answered |
| `HostTool.Bootloader.SlotStatus` | tools/blflash.py:284-295 | what a slot that validates holds, or the status refusing one that does not or does not exist |
| `HostTool.Bootloader.VerifySlot` | tools/blflash.py:270-282 | the same with the refusal as an error; exactly one of these or a timeout |
| `HostTool.Bootloader.EraseSlot` | tools/blflash.py:237-240 | touches its slot only; on success the slot is erased, unprogrammed and opened for writing; of no slot, it reports the refusal and changes nothing |
| `HostTool.Bootloader.SetActive` | tools/blflash.py:297-298 | on success the slot is freshly on trial unless the counter was used up; a slot that does not validate or exist is reported as refused and nothing changes; slots are untouched and a startable device stays startable |
| `HostTool.Verified` | tools/blflash.py:390-398 | a slot that passes VERIFY after an update holds the whole payload, even if the device lost power on the way |
| `HostTool.Bootloader.ChooseTargetSlot` | tools/blflash.py:305-335 | over the link, the target of the pure policy |
| `HostTool.Bootloader.Write` | tools/blflash.py:242-268 | while the device does not restart: a write it is ready for is reported as success exactly when it is answered and its data has been programmed, once; any other changes nothing and is reported as success exactly when it is refused as not erased on a retry; in any case nothing outside the named range changes |
| `HostTool.Bootloader.SendImage` | tools/blflash.py:365-388 | ascending chunks and a final header leave exactly the image in an erased slot, never programming a byte twice; if the device loses power, the whole payload or no header |
| `HostTool.Bootloader.Update` | tools/blflash.py:337-402 | on success, power losses or not, the slot validates and holds exactly the payload, metadata reads a fresh trial of it unless the counter was used up, and the other slot is unchanged; without restarts the slot holds exactly the image; an image or slot it refuses leaves the device untouched; however it ends a startable device stays startable; over a reliable link it succeeds for every acceptable image |
| `HostLimits.TieTargetsBootSlot` | tools/blflash.py:335-335 | counterexample: with one image in both slots and no metadata, the target is the slot that would boot |
| `HostLimits.DamagedNominationTargetsBootSlot` | tools/blflash.py:312-313 | counterexample: with one bad byte in the nominated image, the target is the slot that would boot |
| `HostLimits.MisreportedWrite` | tools/blflash.py:256-266 | counterexample: a write to a device with no slot erased is reported as success when its first answer is lost |

## Left out

- The transport queues, clock and reset hook of the host port, and the byte timing and deadlines of the host's reader: an attempt loses the whole request or the whole response, or the device loses power in it.
- Delayed, duplicated or truncated frames between host and device; the host's argument covers loss only.
- The services published to the application (`core/src/bl_api.c`), the simulator wrappers and scripts, argument parsing and progress printing.
- `bl_meta_erase_all`: it makes no promise across power loss.
- Null-pointer arguments, which have no counterpart in the model.
- The port's layout is fixed to the simulated one, so the checks for a zero or unaligned erase granularity, which this layout always passes, are not modelled; nor are failing reads, which this port does not have.
- A device that restarts during an update is taken to come back in update mode, as the simulator's reboot does; what boots in between do is covered by the results over runs.
- Images whose header write lost power after its first unit was programmed: rejecting them rests on checksum collisions being unlikely. Only bursts of up to four bytes are proved to be caught.
- A frame whose length field was altered is covered by what a desynchronised receiver loses and by the 519-byte bound only.
- `mkimage.parse_version`: any version number that fits its field is accepted in its place.
- `BootCore.BootCore.HandleFrame`: the response buffer must be distinct from the flash arrays, and a write that would program a byte twice, on which the simulated port aborts, is excluded by precondition; `Programming.ClobbersIff` says which those are.
- `HostTool.Bootloader.Write`: a write that would program a byte twice, on which the simulated port aborts, is excluded by precondition; `HostTool.Bootloader.SendImage` never sends one.
- The fast path of `bl_port_crc32` on a target with a checksum peripheral; the port modelled here computes it in software.
