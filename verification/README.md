# Updater core, modelled and proved

A Dafny project beside the OpenHarmony updater. It models the parts of the updater whose mistakes
brick a device, and proves that they do what they are for:

* **The block-transfer engine** (`services/applypatch`). A transfer list of `stash`, `free`, `new`,
  `zero`, `move` and `diff` commands rewrites a partition in place. After each command but `new` its
  line goes into a retry file; a retry passes over everything up to that line, except that it runs
  every `new` again. A diff or move whose source overlaps its target first saves the source in a
  store, which works as a write-ahead log. `TransferManagers.Update` is the main result: whatever
  operations fail, in whatever boots, every run that completes leaves the image of one uninterrupted
  run, one that is cut after its last write and followed by further retries included, and a boot
  without a fault completes. What each command does in that run is said from its own arguments in
  `ListMeanings`, and `SampleLists` has a list with which all this is no empty promise.
* **Scatter and gather** under the engine: range reads, writes and comparisons, the in-place
  `MoveBlock`, the resumable `BlockWriter`. A range list is read as the list of byte addresses it
  visits; reading is `Gather` along it and writing `Scatter`.
* **Two-thread protocols**: the single-producer ring buffer and the hand-off of `new` data, as
  state machines whose steps are interleaved in any order, with spurious wake-ups. They are safe,
  do not get stuck, and get their data through (`HandoffCompletes`, `RingTransfers`).
* **Partition tables**: CRC-32, patching against checking, the cascading shift, A/B renaming, and
  re-reading one unit's table.
* **The streaming installer** (`BinChunkUpdate`), **resumable secure erase**, the **re-chunking
  producer** and the **misc argument rewriter**.

Code that changes state is written as classes and methods on arrays and fields; each method is
proved against a function or predicate on values, and the lemmas are about those. Failures come from
oracles (`nat -> Fault`), so that a theorem over all oracles is a theorem over all crash histories.
`dafny verify dfyconfig.toml` checks the whole project.

What the proofs found where the code does not do what one would expect:

* Nobody clears the retry file. If another update has left a line in it, and the first boot fails
  before it writes its own, a retry passes over every command but `new` and reports success; the
  image is then right exactly if all the rest was there before
  (`TransferManagers.UpdateAfterStale`, and `TransferManagers.StaleLineMisleads` for a list of one
  command). `Resume.Passable` says which lines do no harm.
* `MoveBlock` in place is wrong for a range of more than 2^31-1 bytes that overlaps its own source,
  because such a range is moved in forward pieces (`MoveBlocks.InPlaceExactly`).
* A `BlockWriter` whose last range is empty never reports that it is done
  (`BlockWriters.BlockWriter.DoneWhenFull`).
* `BinChunkUpdate` never returns once what has arrived of one record fills its buffer with more to
  come, and refuses a stream whose first byte behind the header arrives alone, unless the buffer,
  which is not initialised, happens to hold a zero behind it: the type is read from two bytes.
  `BinChunkUpdates.Install` says that it does so exactly then, and
  `BinChunkUpdates.LoneByteFails` and `BinChunkUpdates.FullBufferHangs` show both.
* When a command other than `new` fails nobody joins the unpacking thread, and one that has data
  left waits for ever (`NewDataHandoff.LeftBehind`).
* A piece of unpacked data that the ring buffer refuses is lost without notice
  (`DataProducers.TakenWhole`).
* Removing an argument from misc leaves an empty one behind, one more each time
  (`MiscMessages.UpdatesSettle`).

## Model

| member | source | states |
|---|---|---|
| TransferManagers.Update | services/applypatch/transfer_manager.cpp:113-234 | over any sequence of boots in which any device write, store write or deletion, or retry-file write may fail, whatever an earlier update left in the store, every boot that completes, not only the first, leaves exactly the image of the uninterrupted run, and every boot that meets no fault completes; all this if the line an earlier update left in the retry file passes over nothing but `new` commands and commands without effect |
| TransferManagers.UpdateAfterStale | services/applypatch/transfer_manager.cpp:113-163 | with a line in the retry file that is not in the list, and a first boot that fails before it writes anything, a second boot without a fault reports success, and the image is right if and only if the output of every command but `new` was on the device before |
| TransferManagers.StaleLineMisleads | services/applypatch/transfer_manager.cpp:113-163 | so it is wrong for the list of one `zero` command and a block of ones |
| TransferManagers.TransferManager.ExecuteTransferCommand | services/updater_binary/update_image_block.cpp:273-297 | one boot, with the store cleared before the first and emptied after a run that completes: from a resumable state it ends in one, also when it is cut after the store has been emptied |
| TransferManagers.TransferManager.CreateNewSpace | services/applypatch/store.cpp:59-97 | a first boot deletes what it can of the store, and nothing else changes |
| TransferManagers.TransferManager.DeleteFiles | services/applypatch/store.cpp:31-43 | what is left of the store is as it was; if no deletion fails nothing is left |
| TransferManagers.TransferManager.CommandsParser | services/applypatch/transfer_manager.cpp:113-163 | whatever is on the device, in the store and in the retry file: a boot that completes has laid the output of every command it executed, a set told by the retry line alone, and changed nothing else; from a resumable state it ends in a resumable state, never loses progress, and leaves the image of the uninterrupted run if it completes; unless a file operation fails, the retry file then has the last line, `new` apart, of the commands it got through |
| TransferManagers.TransferManager.CommandsExecute | services/applypatch/transfer_manager.cpp:42-59 | a command that succeeds has laid its output and touched nothing else, and makes the next one due, with the retry file resuming at or before it (unchanged by `new`); one that fails leaves a state from which the whole list can be retried; a success is recorded in the retry file, except of a `new`, unless writing that fails |
| Outcomes.OutcomeIsIdeal | services/applypatch/transfer_manager.cpp:113-163 | a boot that carries out some of the commands leaves the image of the uninterrupted run if and only if every command it passes over had its output on the device before |
| Outcomes.OutcomeNext | services/applypatch/command_process.cpp:43-293 | what one command has laid no later command touches |
| Outcomes.MatchLays | services/applypatch/command_process.cpp:149-182 | where a target has its digest its output is there, on any device |
| ListMeanings.MoveMoves | services/applypatch/command_process.cpp:222-280 | in the uninterrupted run a `move` from device ranges leaves each target byte the byte its source held at the same place, whether the two are the same text or not |
| ListMeanings.MoveTakes | services/applypatch/command_process.cpp:222-273 | a `move` between different texts, or from stashes, lays the front of the assembled source along the target |
| ListMeanings.DiffApplies | services/applypatch/command_process.cpp:222-273 | a `diff` lays along the target what its patch makes of the assembled source |
| ListMeanings.TargetDigest | services/applypatch/command_process.cpp:222-273 | after it the target has the digest the command names |
| ListMeanings.NewTakes | services/applypatch/command_process.cpp:43-75 | a `new` lays the next bytes of the stream along its target, as many as it has |
| ListMeanings.ZeroZeros | services/applypatch/command_process.cpp:117-147 | a `zero` leaves zeros on its target |
| ListMeanings.StoreAfter | services/applypatch/command_process.cpp:295-331 | a `stash` adds its source under the digest it names unless one is there or the digest is another; `free` takes it away; nothing else touches the store |
| ListMeanings.OthersStay | services/applypatch/command_process.cpp:43-331 | no command changes the device outside its target, and `stash`, `free` and `abort` nowhere |
| SampleLists.SampleWellFormed | services/applypatch/transfer_manager.cpp:113-234 | a list with every kind of command that changes anything is well formed, whatever the blocks, and the uninterrupted run leaves the patched block, the moved one, the unpacked data, zeros and an empty store |
| TransferManagers.TransferManager.RegisterForRetry | services/applypatch/transfer_manager.cpp:173-189 | the retry file then holds the line; if the write fails, its old line or nothing (it is truncated first) |
| TransferManagers.TransferManager.ExecuteNew | services/applypatch/command_process.cpp:43-75 | on success exactly the next bytes of the unpacked stream lie on the target, in order, and the stream has advanced by as many; nothing else changes even on failure |
| TransferManagers.TransferManager.ExecuteZero | services/applypatch/command_process.cpp:117-147 | on success the target is zero; nothing outside it changes |
| TransferManagers.TransferManager.ExecuteStash | services/applypatch/command_process.cpp:295-331 | the store changes at most by gaining a buffer under its own digest; a stash that is there is kept; a source with another digest is passed over with success |
| TransferManagers.TransferManager.LoadStashBuffer | services/applypatch/block_set.cpp:310-346 | succeeds exactly if every stash is stored, and then each is placed |
| TransferManagers.TransferManager.LoadSourceBuffer | services/applypatch/block_set.cpp:348-373 | the buffer becomes the one the source specifies: device ranges read, spread in place, stashes placed |
| TransferManagers.TransferManager.LoadTargetBuffer | services/applypatch/block_set.cpp:382-421 | on success the data is the one buffer with the digest in the command, from the device or from the store, and an overlapping source is in the store before anything is written |
| TransferManagers.TransferManager.ExecutePatch | services/applypatch/command_process.cpp:149-193 | a target that already has its digest is left alone; otherwise success means the whole result on the target; on failure the device is untouched, or the source does not overlap, or the source is in the store; a stash made for the command is gone after a success unless its deletion fails |
| TransferManagers.TransferManager.WriteTarget | services/applypatch/command_process.cpp:222-273 | exactly the patch result, or the moved bytes, are laid along the target |
| TransferManagers.PatchLeaves | services/applypatch/command_process.cpp:222-273 | write-ahead: after a diff or move, complete or torn, the state is resumable |
| TransferManagers.StashLeaves | services/applypatch/command_process.cpp:295-331 | a stash that succeeds leaves the uninterrupted run's store contained in the real one; one that fails leaves the state resumable |
| TransferManagers.Completed | services/applypatch/command_process.cpp:43-147 | a `new` or `zero` run for the first time or again leaves the device as the position requires |
| TransferManagers.NewOutput | services/applypatch/command_process.cpp:43-75 | the stream is cut in order: each `new` is due the bytes after those of the `new` commands before it |
| Resume.ReadyTorn | services/applypatch/transfer_manager.cpp:113-163 | a write that fails half-way keeps the invariant of all runs |
| Resume.ReadyAgain | services/applypatch/transfer_manager.cpp:113-163 | the invariant survives a reboot, whatever the retry file then says, as long as it resumes no later |
| Resume.ReadyPast | services/applypatch/transfer_manager.cpp:113-163 | passing over a command that has been carried out keeps the invariant |
| Resume.ReadyRewritten | services/applypatch/transfer_manager.cpp:113-163 | running a `new` or a `zero` again makes its target right again |
| Resume.ReadyAtEnd | services/applypatch/transfer_manager.cpp:113-163 | at the end of the list the invariant says that the device is the uninterrupted run's image |
| Resume.TargetMatches | services/applypatch/command_process.cpp:149-193 | a diff or move that was complete before the crash is recognised by its target digest |
| Resume.MatchIsWhole | services/applypatch/command_process.cpp:149-193 | a target with the right digest is the complete result, so returning early is right |
| Resume.SourceRecoverable | services/applypatch/block_set.cpp:382-421 | write-ahead invariant: at every reachable state the command in progress has its target complete, or its source in the store, or on the device unchanged |
| Resume.AtHolds | services/applypatch/transfer_manager.cpp:113-163 | what a command wrote stays until the end of the uninterrupted run |
| Resume.AtStoreSound | services/applypatch/store.cpp:99-140 | the store holds nothing but what its names say |
| Resume.RetryExecutesRest | services/applypatch/transfer_manager.cpp:113-163 | a retry (as CommandsParser executes it) carries out everything from a position on if and only if all it passes over from there are `new` commands; an unknown line makes it carry out nothing but `new` |
| Resume.ReadyFirst | services/applypatch/store.cpp:59-97 | the invariant survives that any part of the store is cleared before the first run |
| Resume.ReadyEmptied | services/applypatch/store.cpp:31-43 | and that any part of it is deleted once nothing is due any more |
| TransferLists.AssembledExactly | services/applypatch/block_set.cpp:310-373 | where the ranges and the stashes have places of their own, each byte of the assembled source buffer is the byte its source specifies |
| TransferLists.PlacedEach | services/applypatch/block_set.cpp:310-346 | placing stashes puts each in its place and changes nothing else |
| TransferLists.AssembledSame | services/applypatch/block_set.cpp:348-373 | the source buffer depends only on the device bytes and stashes the command names |
| MoveBlocks.MoveBlock | services/applypatch/block_set.cpp:261-283 | the back-to-front loop computes the in-place move, or the move from another buffer |
| MoveBlocks.MoveRange | services/applypatch/block_set.cpp:261-283 | one range in forward pieces of at most 2^31-1 bytes |
| MoveBlocks.InPlaceExactly | services/applypatch/block_set.cpp:261-283 | on ascending disjoint ranges, moving in place equals the out-of-place scatter for every buffer if and only if every range is one piece, or stays, or moves clear of itself |
| MoveBlocks.MovedInPlaceSpreads | services/applypatch/block_set.cpp:261-283 | each location holds its packed bytes afterwards and nothing else has changed |
| MoveBlocks.MovedFromSpreads | services/applypatch/block_set.cpp:261-283 | the same from another buffer, for any disjoint locations |
| MoveBlocks.SpreadIsScatter | services/applypatch/block_set.cpp:261-283 | such a buffer is the scatter of the packed bytes along the locations |
| BlockSets.IsTwoBlocksOverlap | services/applypatch/block_set.cpp:246-259 | true exactly if some source range meets some target range |
| BlockSets.MeetShares | services/applypatch/block_set.cpp:246-259 | ranges that meet, if none is empty, share a byte |
| BlockSets.NoMeetApart | services/applypatch/block_set.cpp:246-259 | ranges that do not meet share none |
| BlockSets.ReadDataFromBlock | services/applypatch/block_set.cpp:172-194 | on success the buffer holds the bytes along the ranges, as far as it reaches; ranges on the device are always read |
| BlockSets.WriteDataToBlock | services/applypatch/block_set.cpp:196-221 | on success the image is the scatter of the buffer along the ranges; nothing outside them changes, ever |
| BlockSets.WriteZeroToBlock | services/applypatch/block_set.cpp:423-468 | the same for zeros |
| BlockSets.CompareBlocks | services/applypatch/block_set.cpp:561-574 | true exactly if the bytes are equal |
| BlockSets.CompareDataFromBlock | services/applypatch/block_set.cpp:516-558 | true exactly if the device holds the buffer along the ranges |
| BlockSets.CompareAfterWrite | services/applypatch/block_set.cpp:196-558 | comparing after writing disjoint ranges succeeds |
| Ranges.GatherAfterScatter | services/applypatch/block_set.cpp:172-221 | reading back what was written along disjoint ranges returns it |
| Ranges.ScatterConcat | services/applypatch/block_writer.cpp:38-84 | writing a stream in two pieces is writing it at once |
| BlockWriters.BlockWriter.Write | services/applypatch/block_writer.cpp:38-84 | the bytes go to the next addresses of the ranges, and to no others; more than is left is refused; written and left-over bytes are conserved |
| BlockWriters.BlockWriter.DoneWhenFull | services/applypatch/block_writer.cpp:23-31 | once all bytes are written the writer says so if and only if there are no ranges or the last one is not empty |
| BlockWriters.WriteChunks | services/applypatch/block_writer.cpp:38-84 | any split of a stream into non-empty writes leaves the same image |
| Device.BlockDevice.WriteFully | utils/utils.cpp:300-319 | all bytes at the file position, or a failure that changes nothing beyond them |
| Rings.Ring.Counts | services/common/ring_buffer/ring_buffer.cpp:69-83 | for every power-of-two size up to 2^31 the XOR test means exactly `num` items in flight, the equality test exactly none |
| Rings.Ring.PutHolds | services/common/ring_buffer/ring_buffer.cpp:100-114 | storing an item appends it to those in flight |
| Rings.Ring.DropHolds | services/common/ring_buffer/ring_buffer.cpp:134-148 | taking one removes the oldest |
| RingBuffers.RingBuffer.Init | services/common/ring_buffer/ring_buffer.cpp:30-55 | succeeds exactly for positive sizes and a power-of-two number, with nothing in flight |
| RingBuffers.RingBuffer.IsFull | services/common/ring_buffer/ring_buffer.cpp:69-75 | exactly `num` items in flight |
| RingBuffers.RingBuffer.IsEmpty | services/common/ring_buffer/ring_buffer.cpp:77-83 | exactly none |
| RingBuffers.RingBuffer.Store | services/common/ring_buffer/ring_buffer.cpp:100-114 | an item of the right size joins the queue, another is refused; the arrays refine the value shared by the threads |
| RingBuffers.RingBuffer.Take | services/common/ring_buffer/ring_buffer.cpp:134-148 | the oldest item leaves the queue |
| RingProtocol.RunInv | services/common/ring_buffer/ring_buffer.cpp:85-175 | every state of every interleaving of one producer, one consumer and stops satisfies the invariant |
| RingProtocol.RunRefinesQueue | services/common/ring_buffer/ring_buffer.cpp:85-151 | every step is a step of a bounded first-in-first-out queue or leaves it alone; what is popped is a prefix of what is pushed, and at most `num` items are in flight |
| RingProtocol.NoLostWakeUp | services/common/ring_buffer/ring_buffer.cpp:85-175 | a side sleeps only while the queue is full (or empty) or a notification for it is on its way, although indices change outside the notify mutex; once stopped it does not sleep at all |
| RingProtocol.NeverStuck | services/common/ring_buffer/ring_buffer.cpp:85-175 | the two sides are never both asleep; while both threads are inside their calls one of them, or a stop in progress, can step without a spurious wake-up |
| RingProtocol.NoFailure | services/common/ring_buffer/ring_buffer.cpp:85-151 | a call fails only after a stop or over an item longer than what receives it, and a failing call moves nothing |
| RingProtocol.SuccessMoves | services/common/ring_buffer/ring_buffer.cpp:85-151 | in every run as many items have been stored and taken as calls of the two sides have got that far: a call that returns success has moved exactly one |
| RingProtocol.MovesItem | services/common/ring_buffer/ring_buffer.cpp:100-114 | what a Push stores is its item, at the end |
| RingProtocol.KeepsItem | services/common/ring_buffer/ring_buffer.cpp:85-114 | which stays as the call was given it, whatever the other threads do |
| RingProtocol.CanStepIff | services/common/ring_buffer/ring_buffer.cpp:85-151 | in every state of the invariant a thread has a step exactly where it does not wait for the lock or sleep; a sleeper may wake up for no reason |
| RingProtocol.StopperCanStepIff | services/common/ring_buffer/ring_buffer.cpp:153-175 | a stop waits for nothing but the lock |
| RingTransfers.AllTransferred | services/common/ring_buffer/ring_buffer.cpp:85-151 | for any items that fit there is a run in which all of them are pushed and popped, in order |
| RingTransfers.StopReleases | services/common/ring_buffer/ring_buffer.cpp:153-175 | a thread asleep in its call gets out by a stop of its side, its call failed and nothing moved |
| NewDataHandoff.RunInv | services/updater_binary/update_image_block.cpp:119-203 | the invariant of the hand-off holds in every state of every interleaving, spurious wake-ups included |
| NewDataHandoff.HandoffSafe | services/updater_binary/update_image_block.cpp:119-168 | the k-th completed `new` has exactly the next TotalBlockSize*4096 bytes of the stream; a `new` that succeeded is complete; the worker writes only through a live writer whose command waits for it |
| NewDataHandoff.HandoffNeverStuck | services/updater_binary/update_image_block.cpp:126-203 | until the command thread has failed or joined, one of the two threads can move without a spurious wake-up; they are never both asleep; a `new` that fails finds the worker at its end |
| NewDataHandoff.LeftBehind | services/updater_binary/update_image_block.cpp:126-133 | after any other command has failed, a worker with data left never gets past its wait, however often it is woken |
| NewDataHandoff.HandoffEnds | services/updater_binary/update_image_block.cpp:119-322 | a bound on the length of every run, in stream bytes, commands and spurious wake-ups |
| HandoffCompletes.HandoffCanComplete | services/updater_binary/update_image_block.cpp:119-203 | whatever the sizes, if the stream holds that many bytes there is a run in which every `new` succeeds with its share, and the worker is joined |
| HandoffCompletes.HandoffCompletesUnlessFailed | services/updater_binary/update_image_block.cpp:119-203 | every run that cannot go on, in which no write of the worker and no other command has failed and whose worker has taken that many bytes, is such a run |
| HandoffCompletes.CommandSteps | services/updater_binary/update_image_block.cpp:170-203 | the command thread has a step that is no spurious wake-up exactly where CommandCanStep says so |
| HandoffCompletes.WorkerSteps | services/updater_binary/update_image_block.cpp:119-168 | and the worker where WorkerCanStep does |
| Crc32.Reflect | services/ptable_parse/ptable.cpp:221-231 | the lowest bits in reverse order |
| Crc32.CalculateCrc32 | services/ptable_parse/ptable.cpp:233-263 | the most-significant-bit-first computation with reflected input and output is the CRC-32 of section 8 of RFC 1952, for every byte string, the empty one included |
| Crc32.StepMirrors | services/ptable_parse/ptable.cpp:247-256 | one shift of the register is one shift of the mirrored register, the 33rd polynomial bit being lost |
| Crc32.ByteByTable | services/ptable_parse/ptable.cpp:243-258 | eight bit steps are one table step of RFC 1952 |
| Crc32.MirrorXor | services/ptable_parse/ptable.cpp:221-231 | reflection distributes over exclusive or |
| LittleEndian.PutLong | services/ptable_parse/ptable.h:166-172 | four bytes, least significant first, and no others |
| LittleEndian.PutLongLong | services/ptable_parse/ptable.h:175-185 | eight bytes |
| LittleEndian.LwordIsNumber | services/ptable_parse/ptable.h:188-195 | OR-ing the shifted bytes is reading them as a number |
| LittleEndian.LlwordIsNumber | services/ptable_parse/ptable.h:198-209 | the same for eight bytes |
| LittleEndian.GetPut | services/ptable_parse/ptable.h:166-209 | what is put is got |
| LittleEndian.PutGet | services/ptable_parse/ptable.h:166-209 | putting back what was got changes nothing |
| GptHeaders.SealSeals | services/ptable_parse/ufs_ptable.cpp:322-333 | writing both checksums makes both right |
| GptHeaders.SealSame | services/ptable_parse/ufs_ptable.cpp:322-333 | what the checksums were before does not matter |
| GptHeaders.SealedIff | services/ptable_parse/ufs_ptable.cpp:322-333 | a table is sealed exactly if sealing leaves it alone |
| GptHeaders.WriteCrcs | services/ptable_parse/ufs_ptable.cpp:322-333 | the code that both patches and the A/B edit end with seals the table |
| GptHeaders.ParsePartitionName | services/ptable_parse/ptable.cpp:525-548 | every other byte up to a zero, in upper case |
| GptHeaders.LettersChangeCase | services/ptable_parse/ptable.cpp:525-564 | the letters, and nothing but the letters, change case, and changing it back restores them |
| GptHeaders.GetPartitionGptHeaderInfo | services/ptable_parse/ptable.cpp:350-371 | succeeds exactly for a block with the EFI magic and positive count and entry size, and returns the fields |
| GptHeaders.CheckGptHeader | services/ptable_parse/ptable.cpp:392-437 | succeeds exactly if the checksum over the header's own length and the fields are right, and then leaves the buffer as it was |
| GptHeaders.PartitionCheckGptHeader | services/ptable_parse/ptable.cpp:439-480 | succeeds exactly if header and entry-array checks pass |
| GptPatch.EntriesChecked | services/ptable_parse/ufs_ptable.cpp:909-931 | what the check compares with is, for entries at the third block within the image, the checksum of exactly the count times entry size bytes that patching seals |
| GptPatch.UfsPatchGptHeader | services/ptable_parse/ufs_ptable.cpp:275-335 | computes the patched table for the unit's geometry; invalid arguments change nothing |
| GptPatch.EmmcPatchGptHeader | services/ptable_parse/emmc_ptable.cpp:37-91 | computes the patched table with the last sector of the device, the number of them less one modulo 2^64, in both fields; invalid arguments change nothing |
| GptPatch.PatchSeals | services/ptable_parse/ufs_ptable.cpp:275-335 | a patched table with at least one entry has both checksums right |
| GptPatch.PatchFrame | services/ptable_parse/ufs_ptable.cpp:275-335 | patching changes nothing but the two fields, the checksums and the last entry's last LBA |
| GptPatch.PatchSetsFields | services/ptable_parse/ufs_ptable.cpp:298-299 | and the two fields hold the device's last and last usable LBA |
| GptPatch.PatchTwice | services/ptable_parse/ufs_ptable.cpp:275-335 | patching again changes nothing |
| GptPatch.CountIs | services/ptable_parse/ufs_ptable.cpp:298-303 | the entries counted are those in front of the first whose name starts with a zero, or of the end of the table |
| GptPatch.PatchedReads | services/ptable_parse/ufs_ptable.cpp:295-321 | what is read from a patched table: the two values given in the header, and a last entry that keeps its first LBA and ends at the last usable one if it is called USERDATA, or stands alone and holds no bytes (modulo 2^64), and otherwise where it did |
| GptPatch.UfsLastUsableIs | services/ptable_parse/ufs_ptable.cpp:290-294 | 34 sectors short of the end with a backup table, one without, less the reserve where that fits; never within the 33 sectors of the backup table |
| GptPatch.UfsUserDataEnds | services/ptable_parse/ufs_ptable.cpp:275-335 | in the patched bytes a last entry called USERDATA ends there |
| GptPatch.PatchThenCheck | services/ptable_parse/ptable.cpp:392-480 | a 92-byte header with entries at LBA 2 and at least one entry passes the whole check once patched, whatever its checksums were, if and only if the LBAs (as 32-bit numbers), the entry size and the count are what the check allows |
| GptPatch.UfsPatchThenCheck | services/ptable_parse/ufs_ptable.cpp:176-335 | on a unit of 34 to 2^32-1 sectors the geometry never fails the check |
| GptPatch.EmmcPatchThenCheck | services/ptable_parse/emmc_ptable.cpp:37-140 | the same on eMMC, from one sector on |
| GptEdit.ChangeCascades | services/ptable_parse/ptable.cpp:620-695 | a successful edit leaves earlier entries alone, gives the modified one its bounds, and makes every later one start right behind its predecessor with its size, USERDATA ending with the device |
| GptEdit.SucceedsIff | services/ptable_parse/ptable.cpp:647-695 | with USERDATA last, the edit succeeds if and only if the requested last LBA plus the sizes of the entries between, plus one, modulo 2^64, is at most the last LBA of the device (for USERDATA itself: if it is asked to end there) |
| GptEdit.EditedApart | services/ptable_parse/ptable.cpp:647-695 | if moreover the requested bounds and the entries behind are in order and do not reach 2^64 in all, the edited entries are not empty, pairwise disjoint and in order, and end at or before the last LBA |
| GptEdit.EndsBySizes | services/ptable_parse/ptable.cpp:632-643 | each of them ends at the requested last LBA plus the sizes up to it |
| GptEdit.FollowersApart | services/ptable_parse/ptable.cpp:647-695 | entries that each follow their predecessor, none wrapping around, are disjoint |
| GptEdit.MovesTogether | services/ptable_parse/ptable.cpp:620-645 | in a contiguous table all entries behind the modified one move by the same distance modulo 2^64 |
| GptEdit.PlacedFits | services/ptable_parse/ptable.cpp:632-643 | a USERDATA that is placed starts within the device |
| GptChange.AdjustGpt | services/ptable_parse/ptable.cpp:620-645 | fails exactly on an empty name or a USERDATA past the end, and then changes nothing; otherwise writes the moved bounds |
| GptChange.ChangeGpt | services/ptable_parse/ptable.cpp:647-695 | for the bounds asked for and the last LBA of the device, told apart from the code by what they are: the list of entries in the bytes becomes the edited list, success is exactly that every USERDATA met has room, and only LBA fields of entries before the first unnamed slot change |
| GptChange.BoundsAreRequested | services/ptable_parse/ptable.cpp:681-682 | the first LBA asked for is that of the block that holds the start address, and from there to the last one there are as many blocks, modulo 2^64, as whole ones in the size |
| GptChange.RequestUnique | services/ptable_parse/ptable.cpp:681-682 | no other bounds are |
| GptChange.DeviceEndUnique | services/ptable_parse/ptable.cpp:660 | the last LBA of the device is the one number that is one less than its blocks, modulo 2^64 |
| GptChange.WalkOn | services/ptable_parse/ptable.cpp:663-693 | one turn of the loop keeps what is behind and what is still to come in step with the edited list |
| GptNames.TargetTwice | services/ptable_parse/ufs_ptable.cpp:749-765 | going to the other slot and back restores a name if and only if it has a suffix in lower case |
| GptNames.WritePartitionName | services/ptable_parse/ptable.cpp:550-564 | the name in lower case over the field, what lies behind it kept; fails exactly if it is empty or does not fit |
| GptNames.SwapTwice | services/ptable_parse/ufs_ptable.cpp:749-765 | swapping twice restores a name field if and only if the name is in lower case, its high bytes are zero, and it ends in _a or _b |
| GptNames.EditABPartition | services/ptable_parse/ufs_ptable.cpp:767-818 | every name before the first vacant slot is swapped and the table sealed; at the first name that does not fit, the edit stops with no seal |
| GptNames.EditSeals | services/ptable_parse/ufs_ptable.cpp:767-818 | only name bytes and the two checksums change, and both checksums are right |
| GptNames.EditTwice | services/ptable_parse/ufs_ptable.cpp:767-818 | editing twice restores the table if and only if its checksums were right and every name can be swapped back |
| UfsTables.UfsPtable.EraseLun | services/ptable_parse/ufs_ptable.cpp:208-216 | what remains are the other units' partitions in order; the position is where the last erased one stood, or the end |
| UfsTables.UfsPtable.ParseGptHeaderByUfsLun | services/ptable_parse/ufs_ptable.cpp:176-194 | succeeds exactly if the header block and the whole table pass |
| UfsTables.UfsPtable.UfsReadGptEntry | services/ptable_parse/ufs_ptable.cpp:221-273 | the table's rows are inserted in order; with a USERDATA the indices delimit them and name its row |
| UfsTables.UfsPtable.UfsReadGpt | services/ptable_parse/ufs_ptable.cpp:196-219 | exactly this unit's partitions are replaced, at one place; a rejected image changes nothing |
| UfsTables.RowAt | services/ptable_parse/ufs_ptable.cpp:241-265 | row by row what is listed; exactly the rows behind a USERDATA are marked tail |
| UfsTables.TypeIs | services/ptable_parse/ptable.cpp:502-523 | which names are bootloaders of slot A or B, which are reserved |
| UfsTables.RowCovers | services/ptable_parse/ufs_ptable.cpp:241-265 | a row says where its entry starts and how many bytes it covers |
| UfsTables.ReadReplaces | services/ptable_parse/ufs_ptable.cpp:196-273 | the unit's partitions are then the table's rows, the others are as before in the same order, and reading the table again leaves the list alone |
| StreamRecords.ReadOn | services/stream_update/bin_chunk_update.cpp:622-745 | reading on from the buffered rest is reading the whole stream from the start |
| StreamRecords.EncodedAll | services/stream_update/bin_chunk_update.cpp:651-745 | a stream of written records, of any printable names and any payloads whose lengths fit their fields, is read as exactly those records, with no rest |
| StreamRecords.PrintableIs | services/package/pkg_package/pkg_pkgfile.cpp:116-125 | what is made of a field is its longest prefix of characters from blank to tilde |
| StreamRecords.PrintableText | services/package/pkg_package/pkg_pkgfile.cpp:116-125 | so a field is taken whole if and only if it holds no others |
| BinChunkUpdates.BinChunkUpdate.ProcessPartition | services/stream_update/bin_chunk_update.cpp:651-688 | goes on exactly for a whole field of the current partition; otherwise more data is asked for or the partition is ended |
| BinChunkUpdates.BinChunkUpdate.ProcessCmdLine | services/stream_update/bin_chunk_update.cpp:690-717 | the printable prefix of the field, exactly if all of it is there |
| BinChunkUpdates.BinChunkUpdate.ProcessInstallData | services/stream_update/bin_chunk_update.cpp:719-745 | the payload, exactly if all of it is there |
| BinChunkUpdates.BinChunkUpdate.ChunkInstallDoWrite | services/stream_update/bin_chunk_update.cpp:622-649 | the offset moves only past a record that has been executed whole; an incomplete one leaves it; it fails exactly if a whole record of the current partition is refused |
| BinChunkUpdates.BinChunkUpdate.UpdateBinData | services/stream_update/bin_chunk_update.cpp:783-799 | executed records and those still pending always add up; it stops only for data, a new partition, or, failing, at the first partition or command that is refused |
| BinChunkUpdates.BinChunkUpdate.ProcessBufferData | services/stream_update/bin_chunk_update.cpp:161-191 | no whole record stays behind on success; it fails exactly on a refusal or on a lone byte misread as another type |
| BinChunkUpdates.BinChunkUpdate.Refill | services/stream_update/bin_chunk_update.cpp:93-109 | one turn of the loop takes what fits, and fails exactly on a lone first byte with something else than a zero behind it, or on a refusal |
| BinChunkUpdates.BinChunkUpdate.RefillAll | services/stream_update/bin_chunk_update.cpp:93-109 | the loop takes all of the data, or fails as its first turn does or on a refusal, or hangs with a full buffer that holds no whole record |
| BinChunkUpdates.BinChunkUpdate.MoveRemainingData | services/stream_update/bin_chunk_update.cpp:193-212 | the unread bytes move to the front; an emptied buffer is cleared |
| BinChunkUpdates.BinChunkUpdate.AddRemainData | services/stream_update/bin_chunk_update.cpp:214-230 | as much as fits is appended |
| BinChunkUpdates.BinChunkUpdate.SkipTargetData | services/stream_update/bin_chunk_update.cpp:136-159 | skips exactly the header, over as many calls as it takes, and buffers what follows it |
| BinChunkUpdates.BinChunkUpdate.ProcessHeader | services/stream_update/bin_chunk_update.cpp:116-134 | the first call fixes how much is header |
| BinChunkUpdates.BinChunkUpdate.StartBinChunkUpdate | services/stream_update/bin_chunk_update.cpp:70-114 | after success exactly the whole records received are executed and the rest is buffered; reported plus buffered bytes are conserved; a call fails exactly on no data, a refusal, or a lone first byte with something else than a zero behind it, and otherwise returns exactly if what has arrived of a record never fills the buffer with more to come |
| BinChunkUpdates.Install | services/stream_update/bin_chunk_update.cpp:70-114 | over a whole stream what is executed depends on the bytes alone, never on where they were cut, and every byte is reported once or still buffered; it fails exactly on a refusal or if the first byte of data comes alone before something else than a zero, and otherwise succeeds exactly if no record is cut short by the end of the buffer |
| BinChunkUpdates.LoneByteFails | services/stream_update/bin_chunk_update.cpp:161-168 | a header in one call and the first byte of data in the next fail |
| BinChunkUpdates.FullBufferHangs | services/stream_update/bin_chunk_update.cpp:93-109 | a field one byte longer than the buffer makes the call hang |
| SecureErases.SecureErase.OverWritePiece | services/factory_reset/secure_erase.cpp:477-502 | on success each byte of the piece has been overwritten exactly the given number of times, and both offsets advance; on failure neither does; no other byte is touched, ever |
| SecureErases.SecureErase.OverwriteSinglePartition | services/factory_reset/secure_erase.cpp:166-200 | the offset is at all times the size of the partitions before plus what is done of this one, all of it overwritten, and misc is not ahead; nothing behind the partition is touched |
| SecureErases.SecureErase.OverWritePartition | services/factory_reset/secure_erase.cpp:202-245 | a run that reports success has overwritten every byte from the loaded offset to the end; no run touches a byte before it |
| SecureErases.SecureErase.SyncOffsetInMisc | services/factory_reset/secure_erase.cpp:554-564 | what misc then reads as the offset is the one given, or the old one |
| SecureErases.SecureErase.LoadOffsetInRetry | services/updater_main.cpp:1286-1301 | the offset taken up is the number in the argument that misc holds |
| SecureErases.EraseAcrossBoots | services/factory_reset/secure_erase.cpp:107-564 | after every boot all bytes below the offset that misc reads have been overwritten often enough; once a run reports success, every byte has; a boot without a fault reports success |
| DataProducers.DataProducer.UnCompressDataProducer | services/updater_binary/update_processor.cpp:353-389 | what is offered to the ring buffer, and what is stashed, concatenate to what came in; every piece has the full size but the last; the ring buffer holds those it took |
| DataProducers.TakenWhole | services/updater_binary/update_processor.cpp:364-384 | the ring buffer holds all of it if and only if it has refused none |
| MiscMessages.SplitString | utils/utils.cpp:146-160 | for any delimiters, the pieces hold none of them, and with one between each two they are the text |
| MiscMessages.SplitOfLines | utils/utils.cpp:146-160 | lines written one after the other are read back |
| MiscMessages.Misc.UpdateInfoInMisc | utils/utils.cpp:58-105 | exactly the arguments without the head are kept, in order, and the new one follows; what does not fit leaves misc as it was |
| MiscMessages.UpdatesSettle | utils/utils.cpp:58-105 | writing a head again replaces its argument; removing one leaves an empty argument behind |
| MiscMessages.ArgumentIs | utils/utils.cpp:58-105 | an argument is written as an option, an option with a value, or nothing |
| MiscMessages.DecimalRead | utils/utils.cpp:1035-1046 | a printed number, minus sign or not, is read as itself modulo 2^64, unless it has more than 64 bits, and then refused |
| MiscMessages.NumberReadBack | utils/utils.cpp:1035-1046 | every 64-bit number printed as a signed one is read back as it was, the upper half included |
| MiscMessages.NumberWritten | utils/utils.cpp:58-105 | an argument that has been written for a head is the one that is read for it |

## Left out

Of the repository:

- SHA-256, signatures, bsdiff, imgdiff, bzip2, lz4 and package loading: the digest is an injective function, the patch and the unpacker are uninterpreted.
- System calls, mounting, reboot, logging and the user interface: a device, a store, a retry file and misc are state, and any operation on them may fail.
- `erase`, `copy`, stream-mode diff and stash, verify-only runs (`canWrite` false), `BlockVerify`, and progress reporting.
- Parsing of command lines and block strings (`ParserAndInsert`): a command is a datatype, and a line that `Command::Init` refuses is not in the list.
- Upgrade heads, the hash and signature section of the stream, and the opening and closing of partitions as events.
- Fstab handling, `DoPartitions`, JSON, slot selection, `PartitionRecord`, `PatchBackUpGptHeader`, `EmmcReadGpt` and `SetMessageToMisc`: they would add easier members of kinds already here.
- `RingBuffer::Reset`, which is not safe beside a running thread.

What particular members do not capture:

- TransferManagers.Update: assumes that the list is well formed (write targets pairwise disjoint, source and target digests right in the uninterrupted run, no digest used again once freed), that a store file is written as a whole or not at all, that what an earlier update left in the store has the right names, and that completed device writes last (`zero` and `new` do not sync); a read of the device does not fail. With a harmful line in the retry file it says nothing; UpdateAfterStale does for a line that is not in the list, and CommandsParser for one boot and any line.
- TransferManagers.TransferManager.RegisterForRetry: a rewrite that fails leaves the old line or an empty file, never a part of a line.
- TransferManagers.TransferManager.ExecuteFree: the store is always deleted from; the flag `storeCreated` is not modelled.
- NewDataHandoff.HandoffSafe: every `new` has at least one block and its last range is not empty, as for the other members of that module: with an empty one the writer never reports that it is done (BlockWriters.BlockWriter.DoneWhenFull), and the command fails.
- NewDataHandoff.LeftBehind: the original goes on to destroy what the two threads share, which is not modelled.
- RingProtocol.NoLostWakeUp: a stop of the consumer's side alone does not wake a producer asleep on a full buffer; `Stop` stops both.
- GptPatch.EntriesChecked: entries elsewhere than at the third block, which UFS reads from the device, are a parameter; the sum of offset and length is not cut to 32 bits, which would need blocks of half a gigabyte.
- GptPatch.UfsPatchGptHeader: blocks are a multiple of 64 bytes and at least 512, so that entries do not straddle the end of the buffer, and the entry array fits in it: the original reads past the buffer otherwise. The same for EmmcPatchGptHeader.
- GptChange.ChangeGpt: slots are at least 128 bytes and fill the table evenly, so that no entry straddles its end, past which the original would read (and with slots of size 0 it would not return).
- GptNames.EditABPartition: blocks are a multiple of 128 bytes (512 or 4096 in practice) and the image holds 128 slots.
- UfsTables.UfsPtable.UfsReadGpt: the same.
- BinChunkUpdates.BinChunkUpdate.StartBinChunkUpdate: the stream is well formed (records of type 0x12, then at most the hash section, which is collected and never looked at), the first call brings the whole header field, and a call that ends the header fits in the buffer behind it: the original reads, or writes, past its buffers otherwise.
- SecureErases.SecureErase.OverWritePartition: speed, remaining time and sleeping are not modelled, and `fsync` does not fail.
- BinChunkUpdates.Install: for a stream with a header, no piece is longer than the buffer, for the same reason.
- MiscMessages.Misc.UpdateInfoInMisc: misc can be read, and holds a terminated text.
- MiscMessages.NumberReadBack: only decimal text is read; octal and hexadecimal numbers, blanks and further signs do not occur in what is written.
- SecureErases.EraseAcrossBoots: the first boot finds no offset in misc, the total size is below 2^64, and the abbreviations that getopt_long accepts are not looked for.
