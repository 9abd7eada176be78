# Verified models of Xen 4.6 tooling, Mini-OS and the vTPM manager

Dafny models of eleven stateful cores of the Xen 4.6 source tree, each with the law it exists to keep. The
models take the source's form: objects with fields and loops are classes and methods proved against
specification functions, and protocols between endpoints, threads or machines are state machines whose
properties hold over every run.

`dafny verify dfyconfig.toml` checks the project.

* **vTPM manager disk store** (`DiskFormat`, `DiskIo`, `DiskMemory`, `DiskWrite`, `DiskRecover`, `DiskSync`,
  `DiskLoad`, `VtpmPages`, `DiskEdits`, `DiskRuns`, `VtpmSync`): a two-root copy-on-write hash tree on a disk of
  sectors. Hashes, ciphers and seals are ideal: a hash is the content it stands for, and whether a seal opens is a
  bit of the group. Sector writes are synchronous and in order, and a crash may come between any two.
* **Buddy page allocator** (`PageBitmap`, `BuddyTheory`, `Buddy`): the free lists are a canonical form of the set
  of free pages.
* **vchan byte ring** (`Vchan`, `VchanRuns`, `VchanCalls`, `VchanRing`): every access to shared memory is a step; the two
  endpoints interleave freely. `VchanRing` has the memcpys themselves.
* **Remus page-delta compression** (`PageDelta`, `PageCodec`, `LruList`, `PageCache`, `PageCacheRuns`,
  `PageCacheExact`, `CompCtx`): the codec, the cache, and the receiver's memory they have to agree with.
* **kexec frame shuffling** (`Kexec`), **block device byte I/O** (`Blkfront`, `BlockFile`), **grant references**
  (`Gnttab`, `GnttabRuns`), **round-robin scheduler** (`Sched`), **pvrdtscp clock** (`Pvrdtscp`), **TPM 1.2
  marshalling** (`Marshal`, `MarshalKey`, `MarshalLayout`, `MarshalIo`), **core file layout** (`CoreLayout`, `CorePages`).
* `Arith`, `Bytes`, `Seqs` and `Wrappers` hold shared arithmetic, memcpy, distinctness and optional values.

Where a law does not hold of the code as it is, the code is modelled as it is and the exact condition is
proved for every input:

* A restart keeps a group's vTPMs in memory only if there are at most 48 of them (`VtpmSync.ReloadFaithful`): the
  load loop does not advance its page pointer. The next sync of the group makes the loss durable
  (`VtpmSync.LossIsDurable`).
* The command that deletes a vTPM does not sync, and the deletion reaches the disk only once something else
  invalidates the group (`DiskEdits.DeleteSeen`).
* A blocking vchan send and recv block each other for good only if their sizes add up to at least the ring size
  plus two, and then they can (`Vchan.StuckNeeds`, `VchanRuns.StuckReachable`). Streams never do.
* The compression cache loses its mirror exactly through words that a raw page changed behind a normal page of the
  same pfn (`PageCacheExact.BatchExact`, `PageCacheExact.FirstPageLost`), and when a flush runs out of room at an
  uncached page, unless the slot taken over holds the receiver's page (`PageCacheExact.StopOnMiss`).
* Block I/O works at the file offset modulo 2^32 (`BlockFile.RightPlace`).
* The Mini-OS bitmap lacks bits for the last pages of a pool that ends one to seven pages past a multiple of 128 MB
  (`Buddy.BitmapCoversPool`), and a bit for the page just behind a pool that ends there or on it
  (`Buddy.BitmapCoversEnd`). The allocator is built for all other pools.
* `TPM_KEY_PARMS` of an unsupported algorithm are packed but never unpacked (`MarshalKey.UnsupportedRefused`).
* The first pvrdtscp call measures from a time of one incarnation if and only if no migration falls between its two
  events (`Pvrdtscp.BaseIsOwn`); otherwise it may answer with a time no event has (`Pvrdtscp.MixedFirstCall`), and
  `Pvrdtscp.AnswersAre` says which later answers that affects.

Core file headers and core file output order two sections differently. No architecture in the tree has the section
that would make this visible, so the offsets are right on both (`CoreLayout.WriteCore`, `CoreLayout.OffsetsRight`).

## Model

| member | source | states |
|---|---|---|
| `DiskRuns.CrashSurvives` | xen-4.6.0/stubdom/vtpmmgr/vtpm_disk.c:23-105 | for every sync given by its writes alone, finished or aborted, and a crash after any of them or while idle: the start-up root choice finds the whole pre-sync tree before the commit write and the whole post-sync tree from it on, never a mixture |
| `DiskRuns.LastCommitRecovers` | xen-4.6.0/stubdom/vtpmmgr/disk_read.c:544-619 | at every point of every run of commands, syncs, crashes and restarts, a start-up finds exactly the tree of the last sync that reached its commit write, or none if none did |
| `DiskRuns.RunsStayValid` | xen-4.6.0/stubdom/vtpmmgr/disk_io.c:92-125 | over every run of commands, syncs, crashes and restarts, each given by what the code does: the committed tree is intact and every sector it reaches, unopened groups included, is marked in use for its slot |
| `DiskRuns.RunsNeverGoBack` | xen-4.6.0/stubdom/vtpmmgr/disk_read.c:544-619 | along every run the tree a start-up would recover is never lost and its sequence never decreases |
| `DiskRuns.StepKeepsValid` | xen-4.6.0/stubdom/vtpmmgr/vtpm_disk.c:23-105 | each command, sync or restart, given by what it does to memory and disk, keeps the shadow-paging invariant and commits nothing older; a sync commits exactly the tree memory stood for |
| `DiskRuns.RestartValid` | xen-4.6.0/stubdom/vtpmmgr/disk_read.c:544-619 | a restart after any crash rebuilds a state that satisfies the invariant, with the surviving tree as the committed one |
| `DiskSync.Manager.SyncDisk` | xen-4.6.0/stubdom/vtpmmgr/vtpm_disk.c:23-105 | nothing while group 0 is closed or has no seals; otherwise aborts if and only if fewer sectors are free once the slot is flushed and repopulated than the pages, index nodes and groups to be written need, and else performs exactly the writes of a sync, with the sequence one higher and the other slot active |
| `DiskSync.Manager.New` | xen-4.6.0/stubdom/vtpmmgr/disk_write.c:388-419 | a new manager on a blank disk satisfies the invariant, with one empty open group |
| `DiskSync.SyncDone` | xen-4.6.0/stubdom/vtpmmgr/disk_write.c:372-381 | every sync that performs those writes commits exactly the tree memory stands for, atomically at one of them, touches no sector of the committed tree nor one memory keeps for the new tree, and leaves the invariant in place |
| `DiskSync.AbortKeeps` | xen-4.6.0/stubdom/vtpmmgr/disk_write.c:372-381 | a sync that stopped for want of sectors leaves the old tree whole after each of its writes |
| `DiskSync.StartPrepared` | xen-4.6.0/stubdom/vtpmmgr/disk_write.c:275-283 | flushing a slot and marking exactly what memory keeps leaves the committed tree marked for its own slot and all of memory's sectors for the new one |
| `DiskSync.PrepareSlot` | xen-4.6.0/stubdom/vtpmmgr/disk_write.c:372-376 | afterwards a sector is free if and only if the other slot has it not marked and memory does not keep it |
| `DiskSync.CommitWrites` | xen-4.6.0/stubdom/vtpmmgr/disk_write.c:326-381 | the new tree is reachable as soon as its root is written and not before; with no seal list in the slot the commit is the seal-list write instead |
| `DiskSync.FlushKeeps` | xen-4.6.0/stubdom/vtpmmgr/disk_io.c:107-112 | flushing the slot to be written keeps every sector the other slot uses |
| `DiskSync.PopulateGroup` | xen-4.6.0/stubdom/vtpmmgr/disk_write.c:106-125 | marks exactly the sectors a kept group still relies on; the abort for a closed, invalid group is unreachable |
| `DiskSync.PopulateUsed` | xen-4.6.0/stubdom/vtpmmgr/disk_write.c:275-283 | marks exactly the sectors of all groups, closed ones included |
| `DiskRecover.SyncCrashSafe` | xen-4.6.0/stubdom/vtpmmgr/disk_write.c:326-381 | writes to spare sectors, then the root, then the seal list if missing: every prefix recovers the old tree before the commit index and the new one from it on |
| `DiskRecover.RootWriteCommits` | xen-4.6.0/stubdom/vtpmmgr/disk_write.c:326-367 | writing the root sector of a slot that has a seal list switches recovery to the new tree in one step |
| `DiskRecover.CommittedRecovers` | xen-4.6.0/stubdom/vtpmmgr/disk_read.c:566-618 | the root choice picks the slot with the whole, newer tree |
| `DiskRecover.ShadowHolds` | xen-4.6.0/stubdom/vtpmmgr/disk_io.c:92-125 | writes that avoid the committed tree and the static sectors leave the tree and its recovery unchanged |
| `DiskIo.Device.FindFree` | xen-4.6.0/stubdom/vtpmmgr/disk_io.c:114-125 | a sector it returns was unused by both slots and is marked for the slot being written; it fails if and only if there is none |
| `DiskIo.Device.SetUsed` | xen-4.6.0/stubdom/vtpmmgr/disk_io.c:97-105 | sets exactly the slot bit of one sector |
| `DiskIo.Device.FlushSlot` | xen-4.6.0/stubdom/vtpmmgr/disk_io.c:107-112 | clears the bit of one slot everywhere and touches no other |
| `DiskIo.Device.WriteSector` | xen-4.6.0/stubdom/vtpmmgr/disk_io.c:49-65 | appends one write to the log and changes that sector alone |
| `DiskIo.Device.WriteCryptSector` | xen-4.6.0/stubdom/vtpmmgr/disk_write.c:22-29 | writes to a sector unused before and takes it, or aborts, which it does if and only if no sector is free |
| `DiskWrite.WriteVtpmPage` | xen-4.6.0/stubdom/vtpmmgr/disk_write.c:43-62 | a page without a copy on disk gets one in a fresh sector, hashing to what the tree will refer to; one that has a copy is untouched; aborts if and only if it needs a sector and none is free |
| `DiskWrite.WriteVtpmItree` | xen-4.6.0/stubdom/vtpmmgr/disk_write.c:131-173 | the hash tree written over any number of pages, at whatever depth, walks back to exactly their images, in sectors unused before or already theirs; takes one sector a stale page and one an index node, and aborts if and only if fewer are free |
| `DiskWrite.WriteVtpmChildren` | xen-4.6.0/stubdom/vtpmmgr/disk_write.c:131-173 | the inner loop over children of one level, of which only the last is partly filled, with the sectors it takes counted exactly |
| `DiskWrite.WriteGroupSector` | xen-4.6.0/stubdom/vtpmmgr/disk_write.c:178-213 | an invalidated group is written so that its sector verifies and loads back as the group in memory; a valid one is left alone; aborts if and only if its tree and its own sector need more sectors than are free |
| `DiskWrite.WriteGroupItree` | xen-4.6.0/stubdom/vtpmmgr/disk_write.c:288-321 | the root array written over the groups walks back to exactly them; aborts if and only if groups and index nodes need more sectors than are free |
| `DiskFormat.WalkTreeLeaves` | xen-4.6.0/stubdom/vtpmmgr/disk_read.c:271-323 | a level of leaves is read back entry by entry |
| `DiskFormat.WalkTreeChildren` | xen-4.6.0/stubdom/vtpmmgr/disk_read.c:271-323 | a level of inner nodes splits the entries among children of equal capacity and reads each back |
| `DiskFormat.WalkTreeFrame` | xen-4.6.0/stubdom/vtpmmgr/disk_read.c:271-323 | a walk depends only on the sectors it reports as reachable |
| `DiskFormat.Increment` | xen-4.6.0/stubdom/vtpmmgr/disk_write.c:135-138 | the loop that finds the entries per child stops at the smallest power of the fan-out that lets the entries fit |
| `DiskLoad.LoadVtpmPages` | xen-4.6.0/stubdom/vtpmmgr/disk_read.c:241-265 | verifies every page against its hash; only the first page of a run receives vTPMs, the page pointer not being advanced |
| `DiskLoad.LoadVtpmItree` | xen-4.6.0/stubdom/vtpmmgr/disk_read.c:271-323 | loads a tree of any depth exactly when every hash on the way matches, and records every sector it used |
| `DiskLoad.LoadGroup` | xen-4.6.0/stubdom/vtpmmgr/disk_read.c:327-388 | opens a group exactly when its sector verifies, with the sectors of the whole group marked in use |
| `DiskLoad.LoadGroupItree` | xen-4.6.0/stubdom/vtpmmgr/disk_read.c:412-465 | loads every group header, opened or not, with its sectors |
| `DiskLoad.LoadDisk` | xen-4.6.0/stubdom/vtpmmgr/disk_read.c:544-619 | ends up with the slot and the tree that the recovery function names, and fails exactly when it names none |
| `DiskLoad.OpenedIsValid` | xen-4.6.0/stubdom/vtpmmgr/disk_read.c:544-619 | what was loaded satisfies the shadow-paging invariant |
| `DiskEdits.EditKeepsValid` | xen-4.6.0/stubdom/vtpmmgr/vtpm_cmd_handler.c:132-176 | every change a command makes in memory before its sync, creating, deleting, changing, touching and resealing vTPMs and groups, keeps the shadow-paging invariant and leaves disk and committed tree alone |
| `DiskEdits.UnseenUntilTouched` | xen-4.6.0/stubdom/vtpmmgr/vtpm_cmd_handler.c:579-669 | a creation, deletion, change or resealing in a group whose copy on disk is still valid leaves the tree the next sync commits as it was |
| `DiskEdits.DeleteSeen` | xen-4.6.0/stubdom/vtpmmgr/vtpm_cmd_handler.c:740-764 | the delete command, which does not sync, is part of the next tree if and only if the group had already been invalidated |
| `DiskEdits.SavedSeen` | xen-4.6.0/stubdom/vtpmmgr/vtpm_cmd_handler.c:172-176 | new data, once page and group are touched, is in the next tree in the slot of its vTPM, under its uuid, with the other slots of the page as they were and the group sequence one higher |
| `DiskEdits.ResealSeen` | xen-4.6.0/stubdom/vtpmmgr/vtpm_cmd_handler.c:640-669 | a new boot configuration, once the group is touched, is in the next tree; one of group 0 makes the next sync write a seal list in either slot |
| `DiskEdits.GroupsSeen` | xen-4.6.0/stubdom/vtpmmgr/vtpm_cmd_handler.c:344-396 | a new group is the last of the next tree and empty; a dropped one is missing from it; the others keep contents and order |
| `DiskEdits.CreateIn` | xen-4.6.0/stubdom/vtpmmgr/vtpm_disk.c:159-187 | aborts if and only if the page for number nr_vtpms is neither the next one nor filled exactly up to it; otherwise a vTPM with the given uuid, no data and no flags is in slot nr_vtpms % 48 of page nr_vtpms / 48 under number nr_vtpms, and every other slot and group is as before |
| `DiskEdits.CreateThenFind` | xen-4.6.0/stubdom/vtpmmgr/vtpm_disk.c:159-237 | a vTPM created under a uuid that no open group had is the one find_vtpm then finds |
| `DiskEdits.DeleteFrom` | xen-4.6.0/stubdom/vtpmmgr/vtpm_disk.c:189-212 | refuses exactly an open vTPM and then changes nothing; otherwise one vTPM fewer, in a dense group the last one under the number of the one deleted and all others under their own, and the two pages touched invalid |
| `DiskEdits.FindVtpm` | xen-4.6.0/stubdom/vtpmmgr/vtpm_disk.c:214-237 | the first vTPM with the uuid by group, page and slot, closed groups passed over, or no open group has it |
| `VtpmPages.SwapRemoveLosesOne` | xen-4.6.0/stubdom/vtpmmgr/vtpm_disk.c:189-212 | removal by swapping with the last loses one vTPM and keeps all others |
| `VtpmPages.CreatedDense` | xen-4.6.0/stubdom/vtpmmgr/vtpm_disk.c:159-187 | in a dense group creation never aborts, appends the vTPM, and keeps all pages but the last full and index = 48 * page + slot |
| `VtpmPages.DeletedDense` | xen-4.6.0/stubdom/vtpmmgr/vtpm_disk.c:189-212 | deletion does, across page boundaries and when the last page empties |
| `VtpmPages.PageOfIndex` | xen-4.6.0/stubdom/vtpmmgr/vtpm_disk.c:142-146 | the page computed from an index is the page that holds the vTPM |
| `VtpmSync.SyncVtpm` | xen-4.6.0/stubdom/vtpmmgr/vtpm_disk.c:148-155 | aborts if and only if the sectors for the tree with this page and group invalidated run out; otherwise, unless group 0 is closed or unsealed, the committed tree holds the vTPM's page as it is in memory |
| `VtpmSync.TouchedImage` | xen-4.6.0/stubdom/vtpmmgr/vtpm_disk.c:148-155 | invalidating page and group makes the tree to be committed show the page in memory |
| `VtpmSync.SaveVtpm` | xen-4.6.0/stubdom/vtpmmgr/vtpm_cmd_handler.c:172-176 | saving data for a vTPM that exists: when it returns, and group 0 is open with a seal, the committed tree has the data in its slot under its uuid |
| `VtpmSync.SyncThenRestart` | xen-4.6.0/stubdom/vtpmmgr/disk_read.c:327-388 | after a sync and a restart a touched group is open exactly if a seal opens, with identity, sequence and seals as in memory before, and with all its vTPMs, uuid, number, data and kept flags, if and only if there are at most 48 |
| `VtpmSync.ReloadFaithful` | xen-4.6.0/stubdom/vtpmmgr/disk_read.c:241-265 | a restart brings a group's vTPMs back into memory if and only if there are at most 48 of them |
| `VtpmSync.LossIsDurable` | xen-4.6.0/stubdom/vtpmmgr/disk_read.c:241-265 | with more than 48, the first sync after a restart that touches the group commits an empty second page in place of vTPMs 48 to 95 |
| `Buddy.PageAllocator.constructor` | xen-4.6.0/extras/mini-os/mm.c:200-254 | the bitmap takes the pages computed for it; the initial lists hold exactly the maximal aligned blocks of the rest of the pool, everything outside being allocated |
| `Buddy.PageAllocator.Alloc` | xen-4.6.0/extras/mini-os/mm.c:258-306 | fails exactly when there is no aligned free run of 2^order pages; otherwise takes one such run, disjoint from every outstanding allocation, and keeps the lists canonical |
| `Buddy.PageAllocator.Free` | xen-4.6.0/extras/mini-os/mm.c:308-362 | gives the block back and merges buddies until the lists are canonical again |
| `Buddy.PageAllocator.Split` | xen-4.6.0/extras/mini-os/mm.c:278-295 | halving a block down to the order asked for leaves the other halves on their lists |
| `Buddy.PageAllocator.Merge` | xen-4.6.0/extras/mini-os/mm.c:321-351 | the coalescing loop stops at the largest block whose buddy is not free at its level |
| `Buddy.PageAllocator.AllocThenFree` | xen-4.6.0/extras/mini-os/mm.c:258-362 | allocating and freeing restores the free pages, the block set and each list as a multiset |
| `Buddy.ListsDetermined` | xen-4.6.0/extras/mini-os/mm.c:258-362 | in any two states with the same free pages every list holds the same blocks, whatever the history |
| `Buddy.NoRun` | xen-4.6.0/extras/mini-os/mm.c:265-276 | empty lists from an order up mean no aligned free run of that size |
| `Buddy.BuddyLevel` | xen-4.6.0/extras/mini-os/mm.c:324-345 | when the bit of the buddy's first page is clear, that page is the head of a free chunk, so the level read there is meaningful |
| `Buddy.ChunkLevel` | xen-4.6.0/extras/mini-os/mm.c:236-241 | the level loop picks the largest block allowed by the alignment and by the range left |
| `Buddy.BitmapCoversPool` | xen-4.6.0/extras/mini-os/mm.c:217-218 | the bitmap has a bit for every page of the pool if and only if max_pfn modulo 32768 is 0 or at least 8 |
| `Buddy.BitmapCoversEnd` | xen-4.6.0/extras/mini-os/mm.c:217-218 | it has one for max_pfn too, which map_free and the buddy test touch, if and only if max_pfn modulo 32768 is at least 8 |
| `BuddyTheory.FreeRunInChunk` | xen-4.6.0/extras/mini-os/mm.c:258-306 | with lists canonical every aligned free run lies within one free block |
| `BuddyTheory.ChunksAreMaximal` | xen-4.6.0/extras/mini-os/mm.c:321-351 | the blocks of a canonical shape are exactly the maximal aligned free blocks |
| `BuddyTheory.CanonicalUnique` | xen-4.6.0/extras/mini-os/mm.c:321-351 | the canonical shape is a function of the set of free pages |
| `BuddyTheory.SplitHole` | xen-4.6.0/extras/mini-os/mm.c:278-295 | one halving step keeps the shape canonical around the block being cut |
| `BuddyTheory.MergeHole` | xen-4.6.0/extras/mini-os/mm.c:321-351 | one merging step does, and grows the block being given back |
| `BuddyTheory.BuddyIsHead` | xen-4.6.0/extras/mini-os/mm.c:324-345 | a free first page of a buddy block is the first page of a free block no larger than it |
| `PageBitmap.MapAlloc` | xen-4.6.0/extras/mini-os/mm.c:72-91 | the word masks set the bits of exactly the given pages, however they cross words |
| `PageBitmap.MapFree` | xen-4.6.0/extras/mini-os/mm.c:94-113 | the word masks clear the bits of exactly the given pages |
| `Vchan.RunsKeepInv` | xen-4.6.0/tools/libvchan/io.c:94-341 | the protocol invariant holds in every interleaving of the two endpoints' steps, whatever calls are made |
| `Vchan.DeliveredInOrder` | xen-4.6.0/tools/libvchan/io.c:117-166 | in every run the bytes received are a prefix of the bytes sent, at most a ring-full is in flight, and prod - cons modulo 2^32 counts it |
| `Vchan.NoLostWakeup` | xen-4.6.0/tools/libvchan/io.c:94-184 | in every run an endpoint asleep with room or data for it has an event pending or a peer about to raise one |
| `Vchan.StuckNeeds` | xen-4.6.0/tools/libvchan/io.c:232-341 | both ends blocked with no event pending only if what they wait for adds up to at least the ring size plus two |
| `Vchan.StreamsNeverStuck` | xen-4.6.0/tools/libvchan/io.c:250-341 | a stream writer and a stream reader never block each other |
| `Vchan.RawReadings` | xen-4.6.0/tools/libvchan/io.c:117-166 | the space and data readings are exact whatever the wrap-around of the indexes |
| `Vchan.CopyByte` | xen-4.6.0/tools/libvchan/io.c:209-227 | a byte being copied in never lands on one in flight |
| `Vchan.WriterKeepsInv` | xen-4.6.0/tools/libvchan/io.c:209-278 | every step of libxenvchan_send and libxenvchan_write keeps the invariant |
| `Vchan.ReaderKeepsInv` | xen-4.6.0/tools/libvchan/io.c:285-341 | every step of libxenvchan_recv and libxenvchan_read keeps the invariant |
| `VchanCalls.ReadReturns` | xen-4.6.0/tools/libvchan/io.c:305-341 | in every run, when recv returns with data it has received exactly what it asked for, when read does the smaller of that and what was ready; without data only if it does not block and found fewer bytes than it needs, or is a recv larger than the ring |
| `VchanCalls.WriteReturns` | xen-4.6.0/tools/libvchan/io.c:229-278 | in every run, when a write or send returns its data has gone out in order: all of it if it blocks and a send fits the ring; for a send all or, for want of room, nothing; for a write that does not block as much as there was room for |
| `VchanRuns.ReaderGetsWhatWasWritten` | xen-4.6.0/tools/libvchan/io.c:250-278 | with blocking writes the reader's bytes are a prefix of all bytes the callers wrote, and once the last call returns exactly those bytes have been sent |
| `VchanRuns.OfferSettled` | xen-4.6.0/tools/libvchan/io.c:232-278 | bytes sent and bytes still held by the call in progress are always the bytes offered so far |
| `VchanRuns.StuckReachable` | xen-4.6.0/tools/libvchan/io.c:232-320 | conversely, every send and recv size that StuckNeeds does not rule out do block each other in some run of every new channel |
| `VchanRing.Ring.DoSend` | xen-4.6.0/tools/libvchan/io.c:209-227 | the two split memcpys and the index update append the data to the queue the ring stands for |
| `VchanRing.Ring.DoRecv` | xen-4.6.0/tools/libvchan/io.c:285-303 | takes exactly the oldest bytes off the queue |
| `VchanRing.Ring.RawSpace` | xen-4.6.0/tools/libvchan/io.c:158-166 | the free space, or 0 when the peer's index is out of range |
| `VchanRing.Ring.RawReady` | xen-4.6.0/tools/libvchan/io.c:117-125 | the bytes queued, or 0 when the peer's index is out of range |
| `VchanRing.Ring.SendThenRecv` | xen-4.6.0/tools/libvchan/io.c:209-303 | sending and then receiving everything gives what was queued followed by what was sent |
| `VchanRing.LaidExtends` | xen-4.6.0/tools/libvchan/io.c:209-227 | bytes laid behind those in flight, round the end of the ring, extend them |
| `PageDelta.DeltaRoundTrip` | xen-4.6.0/tools/libxc/xc_compression.c:363-452 | a delta decoded over the page it was made against gives the new page and ends right behind itself |
| `PageDelta.DeltaPatches` | xen-4.6.0/tools/libxc/xc_compression.c:363-452 | a delta anywhere in a stream, decoded over any page at all, replaces exactly the words that had changed when it was made; no run header is taken for an EMPTY or FULL marker |
| `PageDelta.FormatIs` | xen-4.6.0/tools/libxc/xc_compression.c:79-108 | in byte values: exactly one stream is in the format for a pair of pages, and it is the one sent |
| `PageDelta.AcceptedAre` | xen-4.6.0/tools/libxc/xc_compression.c:401-448 | decoding succeeds and ends at a position if and only if the bytes up to it are runs for the words that are left |
| `PageDelta.WholeRoundTrip` | xen-4.6.0/tools/libxc/xc_compression.c:117-131 | a full page decodes to itself over anything |
| `PageDelta.EncodedBound` | xen-4.6.0/tools/libxc/xc_compression.c:84-100 | no page encodes to more than 4105 bytes |
| `PageDelta.BoundIsTight` | xen-4.6.0/tools/libxc/xc_compression.c:84-100 | every page all of whose words changed takes exactly 4105 |
| `PageDelta.BodyBound` | xen-4.6.0/tools/libxc/xc_compression.c:84-100 | four bytes a word and a header per 127 of them, for every suffix of a page |
| `PageDelta.RunsRoundTrip` | xen-4.6.0/tools/libxc/xc_compression.c:401-448 | decoding the runs of any suffix of a page patches exactly that suffix |
| `PageCodec.CompressPage` | xen-4.6.0/tools/libxc/xc_compression.c:133-204 | an unchanged page is the byte 0; any other is sent in the format of headers, counts and words, its first byte below 128 exactly if word 0 changed; the cached page becomes the new one and the rest of the cache stays; refuses exactly when the worst case does not fit |
| `PageCodec.EmitRuns` | xen-4.6.0/tools/libxc/xc_compression.c:155-191 | the loop flushes exactly the maximal runs, cut at 127 words |
| `PageCodec.AddFullPage` | xen-4.6.0/tools/libxc/xc_compression.c:117-131 | the byte 128 and the 4096 bytes of the page, copied to the cache when it is to be cached; refuses exactly when it does not fit |
| `PageCodec.UncompressPage` | xen-4.6.0/tools/libxc/xc_compression.c:363-452 | a byte 0 leaves the destination alone, a byte 128 is followed by the whole page, and any other stream is accepted, with the position behind it, if and only if it is runs for exactly 1024 words |
| `LruList.MoveToFront` | xen-4.6.0/tools/libxc/xc_compression.c:227-247 | relinking turns the list into the same list with the slot first |
| `LruList.MoveToBack` | xen-4.6.0/tools/libxc/xc_compression.c:259-279 | relinking turns the list into the same list with the slot last |
| `CompCtx.Context.constructor` | xen-4.6.0/tools/libxc/xc_compression.c:466-532 | an empty cache with its slots linked in order |
| `CompCtx.Context.GetCachePage` | xen-4.6.0/tools/libxc/xc_compression.c:206-250 | the slot of the pfn, or the least recently used one taken over; list, slot pfns and pfn2cache agree afterwards |
| `CompCtx.Context.InvalidateCachePage` | xen-4.6.0/tools/libxc/xc_compression.c:252-283 | the pfn is dropped and its slot becomes the first to be reused |
| `CompCtx.Context.AddPage` | xen-4.6.0/tools/libxc/xc_compression.c:285-308 | queues the page, invalidating first if it is raw; -2 for a pfn beyond the table, -1 when the queue is full |
| `CompCtx.Context.CompressPages` | xen-4.6.0/tools/libxc/xc_compression.c:310-355 | sends exactly the batch the specification names, stopping at the first page without room |
| `CompCtx.Context.ResetPagebuf` | xen-4.6.0/tools/libxc/xc_compression.c:357-361 | drops the queue and leaves the cache alone |
| `PageCache.NormalKeepsMirror` | xen-4.6.0/tools/libxc/xc_compression.c:310-355 | sending a normal page keeps the cache a mirror of the receiver |
| `PageCache.RawKeepsMirror` | xen-4.6.0/tools/libxc/xc_compression.c:332-342 | sending a raw page does if and only if its pfn is not cached with other contents |
| `PageCache.RefusalKeepsMirror` | xen-4.6.0/tools/libxc/xc_compression.c:335-349 | running out of room does if and only if the page is raw or cached, or the slot taken over happens to hold the receiver's page |
| `PageCache.InvalidatedGoesFirst` | xen-4.6.0/tools/libxc/xc_compression.c:259-279 | the slot of an invalidated page is the next taken over, before any other page is lost |
| `PageCache.WireDecodes` | xen-4.6.0/tools/libxc/xc_compression.c:310-452 | with the mirror intact, what is sent for a page decodes to it |
| `PageCacheRuns.BatchDelivers` | xen-4.6.0/tools/libxc/xc_compression.c:310-355 | decoding what a flush wrote gives every page of it, the mirror holds again and the rest of the queue is still safe |
| `PageCacheRuns.RunsDeliver` | xen-4.6.0/tools/libxc/xc_compression.c:206-355 | over every careful run of queueing, flushing and resetting, whatever is evicted or invalidated, the receiver's memory is exactly the pages sent, each in its place |
| `PageCacheRuns.BatchFits` | xen-4.6.0/tools/libxc/xc_compression.c:310-355 | a flush never passes the end of its buffer, and with room for one worst case it makes progress |
| `PageCacheRuns.AmpleRoom` | xen-4.6.0/tools/libxc/xc_compression.c:310-355 | room for the worst case of every queued page rules a stop out |
| `PageCacheExact.BatchExact` | xen-4.6.0/tools/libxc/xc_compression.c:285-355 | any batch of raw and normal pages, queued in any order on a mirror and flushed with room: the cache mirrors the receiver again if and only if no word is stale, and the receiver has every page if and only if stale words lie only under raw pages queued last |
| `PageCacheExact.StaleMeans` | xen-4.6.0/tools/libxc/xc_compression.c:285-355 | a word of a pfn is stale if and only if the last raw page queued behind a normal one changed it from what the normal page just before had, and no normal page after changes it again |
| `PageCacheExact.RawLast` | xen-4.6.0/tools/libxc/xc_compression.c:285-300 | where the raw page is the last of its pfn: nothing is stale if and only if it equals the last normal page |
| `PageCacheExact.CacheTracked` | xen-4.6.0/tools/libxc/xc_compression.c:206-250 | within a batch no larger than the cache, a pfn sent as a normal page stays cached with its last page, whatever else is sent |
| `PageCacheExact.PageTracked` | xen-4.6.0/tools/libxc/xc_compression.c:310-452 | the receiver's copy of a pfn agrees with its last normal page in exactly the words that are not stale |
| `PageCacheExact.ResendLeaves` | xen-4.6.0/tools/libxc/xc_compression.c:133-204 | sending again the page that is cached changes nothing at the receiver, whatever it has |
| `PageCacheExact.FirstPageLost` | xen-4.6.0/tools/libxc/xc_compression.c:285-355 | the shortest failing batch, for any two different pages: a page, a raw page, the first page again, and the receiver never gets it back |
| `PageCacheExact.StopOnMiss` | xen-4.6.0/tools/libxc/xc_compression.c:335-349 | a flush that stops at an uncached page anywhere in a queue: the pages before it have arrived, the mirror survives if and only if the slot taken over holds the receiver's page, and the retry delivers the page if and only if every word in which that slot agrees with it is right at the receiver |
| `Kexec.Image.Follow` | xen-4.6.0/stubdom/grub/kexec.c:129 | the chase strictly increases and ends at the position that now holds the new frame |
| `Kexec.Image.PlacePage` | xen-4.6.0/stubdom/grub/kexec.c:111-139 | one turn swaps two positions: the map stays a permutation and every earlier position keeps its frame |
| `Kexec.Image.Allocate` | xen-4.6.0/stubdom/grub/kexec.c:103-144 | for distinct pages from the allocator, positions below the old count are unchanged and each new one holds its page's frame |
| `Kexec.Image.DoExchange` | xen-4.6.0/stubdom/grub/kexec.c:84-101 | a swap that brings the given frame to the target; the chase still finds the frames of all pages but the two exchanged |
| `Kexec.Image.constructor` | xen-4.6.0/stubdom/grub/kexec.c:281-286 | the initial map is the running domain's own |
| `Kexec.SwapFinds` | xen-4.6.0/stubdom/grub/kexec.c:122-138 | after a swap the chase still finds the frame of every page the allocator may yet return |
| `Kexec.ChaseProlonged` | xen-4.6.0/stubdom/grub/kexec.c:129-132 | recording a move prolongs exactly the chases that ended there |
| `Kexec.Image.M2pUpdates` | xen-4.6.0/stubdom/grub/kexec.c:390-401 | the entries whose frame changed, in order |
| `Kexec.UpdatesInvert` | xen-4.6.0/stubdom/grub/kexec.c:390-415 | updating only those entries makes the machine-to-physical table the inverse of the new map |
| `Kexec.UpdatesAre` | xen-4.6.0/stubdom/grub/kexec.c:390-401 | an entry is updated if and only if its frame changed |
| `BlockFile.File.RwOp` | xen-4.6.0/extras/mini-os/blkfront.c:574-722 | errors in the order the code looks for them; a write moves all of count if and only if it may write and the range fits, else nothing; a read moves all of count unless it reaches the end of the disk; a write changes exactly those bytes and a read returns them, both at the file offset modulo 2^32 |
| `BlockFile.File.WriteThenRead` | xen-4.6.0/extras/mini-os/blkfront.c:574-722 | data written below 2^32 comes back whole when read after seeking back, and no other byte of the disk has changed |
| `BlockFile.RightPlace` | xen-4.6.0/extras/mini-os/blkfront.c:582-641 | for writes that is the place meant, for every disk and data, if and only if the file offset is below 2^32 |
| `BlockFile.RightRead` | xen-4.6.0/extras/mini-os/blkfront.c:582-641 | and for reads |
| `BlockFile.File.Transfer` | xen-4.6.0/extras/mini-os/blkfront.c:651-716 | the loop moves exactly the bytes asked for, whatever the alignment; copybuf is there whenever it is used and every request is aligned, within the disk and within the segment limit |
| `BlockFile.File.WriteTurn` | xen-4.6.0/extras/mini-os/blkfront.c:685-702 | a partial block is read, changed and written back: bytes outside the range keep their values |
| `BlockFile.File.ReadTurn` | xen-4.6.0/extras/mini-os/blkfront.c:672-684 | straight into the buffer, or through copybuf, the same bytes arrive |
| `Blkfront.TurnOk` | xen-4.6.0/extras/mini-os/blkfront.c:652-670 | each turn moves at least a byte; a direct one is sector aligned on both sides and fits one request |
| `Blkfront.TurnKeepsStep` | xen-4.6.0/extras/mini-os/blkfront.c:703-715 | position, bytes done and buffer alignment stay in step from turn to turn |
| `Blkfront.SegmentLimit` | xen-4.6.0/extras/mini-os/blkfront.c:351-357 | one transfer touches at most 11 pages, wherever its buffer lies |
| `Blkfront.SegmentsCover` | xen-4.6.0/extras/mini-os/blkfront.c:351-374 | the segments of a request are exactly the buffer, end to end |
| `Blkfront.StartsAt` | xen-4.6.0/extras/mini-os/blkfront.c:627-641 | the start computed in 32 bits is the offset modulo 2^32 |
| `Blkfront.ReadModifyWrite` | xen-4.6.0/extras/mini-os/blkfront.c:693-700 | replacing part of a block in its copy and writing it back replaces that part |
| `GnttabRuns.RunsAreSafe` | xen-4.6.0/extras/mini-os/gnttab.c:36-116 | in every interleaving of grants, ends and hypervisor mappings: the BUG_ON is unreachable, references are distinct and in range, free ones have no valid entry and so are not mapped, a valid grant shows domain, frame and access it was made for and is not mapped for writing if read-only, and with all threads idle the semaphore counts the free list |
| `GnttabRuns.GrantsAreAsked` | xen-4.6.0/extras/mini-os/gnttab.c:69-82 | in every run a grant shows the domain, the frame and the access of a call of that run, and one asked for read-only is never mapped for writing |
| `GnttabRuns.MappedOnTerms` | xen-4.6.0/extras/mini-os/gnttab.c:69-82 | in every run a mapping that takes effect is by the domain of some call, of its frame, and for writing only if that was not read-only |
| `GnttabRuns.GrantCompletes` | xen-4.6.0/extras/mini-os/gnttab.c:69-82 | a grant left to itself takes the head of the free list and makes exactly the entry asked for |
| `GnttabRuns.EndCompletes` | xen-4.6.0/extras/mini-os/gnttab.c:98-116 | an end of an unmapped grant left to itself closes the entry, and the reference is the next to be given out |
| `GnttabRuns.EndRefused` | xen-4.6.0/extras/mini-os/gnttab.c:105-108 | an end of a mapped grant returns with nothing changed |
| `GnttabRuns.TakeFinds` | xen-4.6.0/extras/mini-os/gnttab.c:51-67 | a thread past the semaphore always finds a reference |
| `GnttabRuns.CheckKeeps` | xen-4.6.0/extras/mini-os/gnttab.c:98-116 | each step of the check and compare-exchange loop keeps the invariant, whatever the hypervisor does in between |
| `GnttabRuns.ClosedUnmapped` | xen-4.6.0/extras/mini-os/gnttab.c:105-112 | a grant is closed in one step from a state in which nobody has it mapped; one found mapped goes back to its owner unchanged |
| `GnttabRuns.StepKeeps` | xen-4.6.0/extras/mini-os/gnttab.c:36-116 | every step of every thread and of the hypervisor keeps each reference with exactly one owner |
| `Gnttab.FreeList.constructor` | xen-4.6.0/extras/mini-os/gnttab.c:172-185 | every reference that is not reserved ends up on the list |
| `Gnttab.FreeList.PutFreeEntry` | xen-4.6.0/extras/mini-os/gnttab.c:36-49 | the reference goes to the head of an acyclic list whose length the semaphore counts |
| `Gnttab.FreeList.GetFreeEntry` | xen-4.6.0/extras/mini-os/gnttab.c:51-67 | the head comes off the list, in range and not on it any more |
| `Sched.BoundedWaiting` | xen-4.6.0/extras/mini-os/sched.c:94-118 | a ready thread at position p is passed over at most p times, whatever is created, woken, put to sleep or exits meanwhile |
| `Sched.StepMovesUp` | xen-4.6.0/extras/mini-os/sched.c:94-118 | no action moves a ready thread back until it is chosen |
| `Sched.StepKeepsValid` | xen-4.6.0/extras/mini-os/sched.c:94-237 | no thread is queued twice and none that has exited is queued or chosen again |
| `Sched.SleepsUntilDue` | xen-4.6.0/extras/mini-os/sched.c:212-236 | in every run a thread that blocks or sleeps is chosen at no pass before it is woken or its time has come |
| `Sched.ReadyAfter` | xen-4.6.0/extras/mini-os/sched.c:142-236 | created or woken a thread is ready at once, put to sleep exactly from its time on, blocked never; no other thread is affected |
| `Sched.Scheduler.Pass` | xen-4.6.0/extras/mini-os/sched.c:94-122 | finds a thread if and only if one is runnable or due, wakes only it and sends it to the tail; with none, blocks until the earliest sleeper is due or for ten seconds, whichever is first |
| `Sched.Scheduler.CreateThread` | xen-4.6.0/extras/mini-os/sched.c:142-159 | the new thread is runnable, not asleep and at the tail of the queue |
| `Sched.Scheduler.ExitThread` | xen-4.6.0/extras/mini-os/sched.c:199-210 | the running thread leaves the queue and joins the exited ones |
| `Pvrdtscp.Clock.GetTimestamp` | xen-4.6.0/docs/misc/pvrdtscp.c:159-207 | with migrations between any two instructions, the reading used and the scale values are of one incarnation; the time returned is theirs if that is later than the time before, else one more than it; on the first call the time before is a reading of event k under the values of event k + 1 |
| `Pvrdtscp.Clock.Settle` | xen-4.6.0/docs/misc/pvrdtscp.c:179-188 | the retry loop ends with aux, TSC and values of one incarnation, and reports a discontinuity exactly when that changed |
| `Pvrdtscp.ReadMany` | xen-4.6.0/docs/misc/pvrdtscp.c:286-306 | of any number of calls each returns a later time than the one before, and all are the answers to readings each taken under the values of its own incarnation |
| `Pvrdtscp.BaseIsOwn` | xen-4.6.0/docs/misc/pvrdtscp.c:168-178 | the time the first call measures from is its reading's own, whatever the time values, if and only if no migration falls between the reading and the values |
| `Pvrdtscp.AnswersAre` | xen-4.6.0/docs/misc/pvrdtscp.c:194-206 | for increasing times short of 2^63: answer i is its reading's own time if and only if that is past the base plus i, and is the base plus i + 1 otherwise |
| `Pvrdtscp.EarlierBaseHarmless` | xen-4.6.0/docs/misc/pvrdtscp.c:194-206 | a base before the first reading affects no answer |
| `Pvrdtscp.MixedFirstCall` | xen-4.6.0/docs/misc/pvrdtscp.c:168-206 | a domain with increasing times that migrates between the two events of the first call is answered 2^31 + 1 by it, which is the time of no event |
| `Pvrdtscp.ScalesAgree` | xen-4.6.0/docs/misc/pvrdtscp.c:127-157 | two 32-bit multiplications with carry compute the 128-bit scaling |
| `Pvrdtscp.ScaleIs` | xen-4.6.0/docs/misc/pvrdtscp.c:127-157 | scaling shifts, rounding down to the right, and multiplies in units of 2^-32, rounding down |
| `Pvrdtscp.TimeIs` | xen-4.6.0/docs/misc/pvrdtscp.c:190-193 | the time plus the offset is the scaled reading modulo 2^64 |
| `Pvrdtscp.ScaleMono` | xen-4.6.0/docs/misc/pvrdtscp.c:127-157 | within an incarnation a later TSC never scales to an earlier time, short of overflow |
| `MarshalKey.KeyRoundTrip` | xen-4.6.0/stubdom/vtpmmgr/marshal.h:653-683 | unpacking a packed TPM_KEY at any position gives it back and advances by its length; cut short at any point it is refused |
| `MarshalKey.StoredRoundTrip` | xen-4.6.0/stubdom/vtpmmgr/marshal.h:749-787 | the same for TPM_STORED_DATA12 |
| `MarshalKey.KeyParmsRead` | xen-4.6.0/stubdom/vtpmmgr/marshal.h:477-512 | the same for TPM_KEY_PARMS with RSA, AES or no parameters |
| `MarshalKey.UnsupportedRefused` | xen-4.6.0/stubdom/vtpmmgr/marshal.h:483-511 | what is packed for any other algorithm with parameters is never accepted |
| `MarshalKey.PcrInfoLongReads` | xen-4.6.0/stubdom/vtpmmgr/marshal.h:602-638 | the same for TPM_PCR_INFO_LONG |
| `MarshalKey.KeySize` | xen-4.6.0/stubdom/vtpmmgr/marshal.h:685-700 | sizeof_TPM_KEY is the number of bytes packed |
| `MarshalKey.StoredSize` | xen-4.6.0/stubdom/vtpmmgr/marshal.h:761-771 | sizeof_TPM_STORED_DATA12 is |
| `MarshalLayout.BigEndian` | xen-4.6.0/stubdom/vtpmmgr/marshal.h:75-100 | 16- and 32-bit numbers are packed most significant byte first |
| `MarshalLayout.BigEndianRead` | xen-4.6.0/stubdom/vtpmmgr/marshal.h:87-115 | and unpacked so, or refused when they do not lie before the end |
| `MarshalLayout.KeyLayout` | xen-4.6.0/stubdom/vtpmmgr/marshal.h:653-666 | the offset of every field of a packed TPM_KEY, parameters and PCR information included |
| `MarshalLayout.StoredLayout` | xen-4.6.0/stubdom/vtpmmgr/marshal.h:749-759 | the offset of every field of packed TPM_STORED_DATA12 |
| `MarshalIo.Packer.PutKey` | xen-4.6.0/stubdom/vtpmmgr/marshal.h:653-666 | writes the key's bytes at the position, touches nothing before it and advances past them |
| `MarshalIo.Packer.PutStored` | xen-4.6.0/stubdom/vtpmmgr/marshal.h:749-759 | writes the structure's bytes at the position, touches nothing before it and advances past them |
| `MarshalIo.PackThenUnpackKey` | xen-4.6.0/stubdom/vtpmmgr/marshal.h:653-700 | a key packed into a buffer is unpacked from it whole, or not at all, and sizeof_ is how far it advances |
| `MarshalIo.PackThenUnpackStored` | xen-4.6.0/stubdom/vtpmmgr/marshal.h:749-787 | the same for stored data |
| `CoreLayout.OffsetsRight` | xen-4.6.0/tools/libxc/xc_core.c:636-770 | headers and output order shared info and architecture context differently: for any sections, every header gives the place its section is written at if and only if there is no shared info page or no architecture section |
| `CoreLayout.WriteCore` | xen-4.6.0/tools/libxc/xc_core.c:562-893 | on x86 and on ARM, neither of which has an architecture section: every section has a header, sh_offset is the number of bytes written before the section and sh_size its length, which is that of four notes, a context a vcpu, nr_pages pages on a page boundary and 8 or 16 bytes for each; the file ends with the string table |
| `CoreLayout.WriteLayout` | xen-4.6.0/tools/libxc/xc_core.c:562-893 | the same for any sections in the cases of OffsetsRight |
| `CoreLayout.EmitNotes` | xen-4.6.0/tools/libxc/xc_core.c:734-752 | the four notes, each as 16 bytes and its descriptor, in order, fill exactly the size declared for the note section |
| `CoreLayout.Headers` | xen-4.6.0/tools/libxc/xc_core.c:578-718 | the running offset, the fix-up for the number of headers and the padding put the pages on a page boundary and every section where its place is reckoned |
| `CoreLayout.Emit` | xen-4.6.0/tools/libxc/xc_core.c:720-893 | every section is written once, whole and in one run, at its reckoned place, shared info before architecture context |
| `CorePages.Dumper.Dump` | xen-4.6.0/tools/libxc/xc_core.c:778-876 | .xen_pages is exactly nr_pages pages; page k is that of the frame entry k names, which lies in the memory map, is present and can be mapped, or zeros and nobody; no such frame is missing unless the table is full; over an ascending map the frame numbers rise |
| `CorePages.ReadableIs` | xen-4.6.0/tools/libxc/xc_core.c:778-850 | the frames to dump are those of some range that are present and can be mapped |
| `CorePages.Dumper.AddRange` | xen-4.6.0/tools/libxc/xc_core.c:788-850 | the readable frames of one range, in order, up to nr_pages |
| `CorePages.Dumper.Pad` | xen-4.6.0/tools/libxc/xc_core.c:857-876 | zero pages and invalid entries for what is missing |
| `CorePages.NameTable.Get` | xen-4.6.0/tools/libxc/xc_core.c:112-150 | the index of the new name, earlier names staying where they are; 0 if and only if the table would pass 32768 bytes |
| `CorePages.NameTable.ShortNamesHeld` | xen-4.6.0/tools/libxc/xc_core.c:112-150 | one doubling is enough for every name shorter than a page |
| `CorePages.NamesStay` | xen-4.6.0/tools/libxc/xc_core.c:112-150 | a name found at an index is still found there after others are added |

## Left out

- DiskWrite.WriteGroupItree: requires at most 112 groups, because the leaf loop runs over all groups of the manager and reads past its node's entries beyond that.
- DiskIo.Device.SetUsed: sector 0x200, which the bounds check lets through and which is never handed out, is ignored rather than written one past the map.
- Disk store: rollback MAC lists, TPM counters and NV (stubs in the source), key updates and the auth-change sync depths, real AES, SHA, RSA and seal blobs, and wrap-around of the 64-bit sequence are not modelled.
- Disk store: a sector holds one content value, its encryption framing included; torn sector writes are not modelled.
- DiskSync.Manager.SyncDisk: requires that group 0 as it will be written can be unsealed under the current PCRs, since otherwise a tree would be committed that no start-up can open.
- VtpmSync.SyncThenRestart: requires that the pages of the group with a valid copy on disk show that copy, which data changed and not yet saved does not.
- VtpmSync.SaveVtpm: requires the vTPM to exist; creating it in group 0 on the first save is CreateIn.
- VtpmSync.SyncVtpm: requires the same of the tree with the page invalidated.
- DiskEdits.DeleteFrom: requires a slot that exists and a last page that holds its share, which a group of more than 48 vTPMs loses at a restart; delete_vtpm then reads a slot before the first.
- DiskEdits.EditKeepsValid: a new group is added while there are fewer than 112, and the last group is not dropped, after which the source would read a freed one; the group index one past the end, which the source's check lets through, is excluded.
- DiskEdits.FindVtpm: the kernel hash check on opening a vTPM is not modelled.
- Buddy.PageAllocator.constructor: requires a pool that ends at least eight pages past a multiple of 128 MB, the exact condition of BitmapCoversEnd, and that is large enough for its bitmap.
- Buddy.PageAllocator.Alloc: requires an order the lists have, as alloc_pages indexes its lists without a check.
- Buddy.PageAllocator.Free: requires an outstanding allocation of that order; free_pages has no way to tell others.
- Buddy: intrusive next and prev pointers are sequences per level, and words are natural numbers with explicit bits.
- vchan: close and reconnect, failing event channel calls, calls of size 0, and hardware reordering below the barriers. One endpoint writes and the other reads; the other direction is the same code on another ring.
- CompCtx.Context.AddPage: requires pfn != p2m_size, which the range check lets through though pfn2cache has no entry for it, and room in the queue, which the caller is told of by -1.
- PageCacheRuns.RunsDeliver: holds for careful runs; BatchExact and StopOnMiss say exactly what the excluded ones do.
- PageCacheExact.BatchExact: requires a batch no larger than the cache, which the queue of 8192 pages and the cache of 8192 slots make the case, and room for the worst case of every page.
- Kexec.Image.Allocate: requires a count that does not go down and pages the allocator has not given out before; loading, page tables and the jump are not modelled.
- Kexec.Image.DoExchange: requires a frame that is in the map, which the source asserts.
- BlockFile.File.RwOp: requires a sector size that is a power of two from 512 to 4096 and a count that fits the caller's buffer; a count of 2^31 or more, whose int result would be negative, is not modelled.
- Block I/O: the shared ring, its slots and the backend are one ideal transfer per request.
- GnttabRuns.RunsAreSafe: the stores of domain and frame, both before the entry is valid, are one step; ends are made only by the owner of a grant, once; transfer grants are not modelled.
- Sched: switching stacks, freeing exited threads and interrupts are not modelled; blocking is the time until which it lasts.
- Sched.BoundedWaiting: counts choices, not time.
- Pvrdtscp.AnswersAre: requires times and base short of 2^63, so that signed differences are differences.
- Pvrdtscp.Clock.GetTimestamp: requires that incarnation numbers are not reused and that migrations stop at some point, without which the retry loop need not end.
- Marshal: unpack3_ functions return the position with the value instead of updating it, and the position after a failure is not modelled; lengths are below 2^31; aliasing versus copying of byte strings is not distinguished.
- MarshalIo.Packer.PutKey: runs of adjacent fixed-size fields are written in one step.
- CoreLayout.Emit: section contents are lengths.
- CorePages.NameTable.Get: requires a name that one doubling makes room for or that is refused; for others, longer than a page, the source copies past its buffer.
- CorePages.Dumper.Dump: requires ranges whose end is not before their start; failing writes are not modelled.
- Memory allocation failure, logging and command lines are left out throughout.
