# ZStore: a verified model

ZStore is a single-threaded object store. Data blocks live on an SSD; the object table, the index pages and the two
allocation bitmaps live in persistent memory and are changed only through a small redo log. Its purpose is atomic writes:
write the data first, then switch the metadata over in one step. Two protocols lie on top of it: a messager that frames
messages on a byte stream, and a client/server channel of operation slots and ring queues.

This project models those parts in Dafny and proves what they promise, on the code as it is. Where the code does not keep
its promise, the model keeps the code, shows the failing case, and states exactly when the promise holds.

## What the modules model

- `Common`, `Bytes`: shared definitions and little-endian integers.
- `PmDevice`: persistent memory under power failure. A store is a range of 8-byte words; a word is durable after the next
  drain, and at a crash each undrained word may or may not have reached the medium.
- `PmLog`, `Pm`: the redo log. `PmLog` gives the bytes of a log, the operations that apply it and what recovery reads;
  `Pm` holds the mapped memory and the packed log buffer as they are updated in place, and records every store and drain.
- `PmCrash`, `PmRestart`: every crash point of an apply and of recovery.
- `AllocSpec`, `AllocScan`, `AllocPlain`, `Allocator`: the next-fit bitmap allocator, as a specification, read off the
  bitmap, and in place.
- `Extents`: merging index entries into extents, and the bitmap entries a write logs.
- `Layout`, `MetaLog`, `MetaCrash`, `Prepare`: where metadata lives in the memory, what each operation logs, and what the
  log's bytes do to the metadata, with and without crashes.
- `StoreModel`, `StoreCommit`, `StoreInv`, `StoreAccept`, `StoreRuns`, `StoreExact`, `StoreReads`, `StoreBytes`,
  `StorePages`, `StoreStart`: the running store as a state machine (requests, data I/O in any order, commits in order,
  power failures and mounts), its runs, and the same runs over the bytes of the memory.
- `DataIo`: the transfers a request's extents are split into.
- `Zstore`: preparing requests, committing the oldest transaction and mounting, step by step in place, proved to take the
  state machine's steps.
- `TxPipeline`: the transaction lists, I/O callbacks and the commit loop, with user callbacks that submit more requests.
- `Wire`, `Messager`: message headers, and the sending and receiving queues over a stream that stops at any byte.
- `Bitmap`, `Ipc`, `IpcRuns`, `IpcResults`, `Channel`, `Server`: operation slots, rings and the server's responses.
- `PmCopy`: the forward streaming copy into persistent memory.

The store's crash argument is layered. `PmCrash` shows that applying a log is atomic for every crash point and every set of
words lost. `MetaLog` and `MetaCrash` show that the log of a transaction turns bytes that hold one metadata state into bytes
that hold the next, so a crash leaves one of the two. `StoreBytes` adds the index pages that creates fill outside the log,
drained or not: whatever recovery, cut short by further power failures any number of times, makes of the bytes a crash
leaves, the store mounted from them is one that the state machine's power failure allows, and so every run over bytes is a
run of the state machine. `StoreRuns` shows that after any
run, any number of crashes included, clients see the effect of a prefix of the accepted requests. `Zstore` shows that the
code's preparation, commit and mount are the state machine's.

## Where the code falls short of its intent

- Recovery replays a log only if its valid bit is set, and nothing sets it. The bit is a field of the model's `Log`; the
  results are stated for both values. With the bit clear a log is atomic exactly when it changes a single 8-byte word, which
  no write does (`PmCrash.CrashAtomicExactly`, `MetaCrash.UncommittedWriteTears`).
- Recovery reads into a 4096-byte buffer and asserts that offsets and lengths are multiples of 64. Recovery takes its limits
  as a parameter; `Prepare.WriteReplayable` says which writes the limits in the code admit.
- The allocator skips a full word by 65 positions and leaves the open extent open over the skip and over the wrap; an
  allocation is exact if and only if it never lands on a free block that way (`AllocScan.ExactIffSeamless`), and only then are
  the blocks it returns distinct and free (`AllocScan.ExactIffFree`). `AllocScan.ScanExact` says when the skip passes over no
  free block. Taking the last free blocks is reported as no space, with their bits set (`StoreExact.RefusedExactly`).
- A write frees the old blocks before it takes new ones and before it commits, and logs only the bitmap entry of the first
  block of each new extent. `StoreExact.WriteSafeExactly` gives the exact condition under which a granted write still keeps
  its promises to clients, and `StoreExact.PromisesOnBitmap` gives it on the bitmap, the hint and the blocks freed, for
  all bitmaps on which no skip jumps over a free block. `StoreExact.UnloggedIsFree` and `StoreExact.HandedOutAgain` show what
  an unlogged entry costs after the next mount. `StoreExact.OverwriteOfBlockZeroTears` is the simplest failure and `StoreStart.RunToTear`
  a run that reaches it.
- A create fills its index page at once and outside the log, and may be granted the page of an object whose delete has not
  committed; a crash then shows that object alive and empty. `StoreExact.CreateSafeExactly` says exactly when a create is
  safe, and `StoreStart.RunToErase` is a run that reaches the failure. A create refused for lack of a page may keep the last free page's bit set (`StoreExact.CreateRefusedExactly`).
- Reads and writes do not check that the object exists, and 33 or more blocks overflow the index buffers. The model asks for
  a created object with no other operation in flight and at most 32 blocks.
- A delete logs the cleared onode only: its index page stays allocated in persistent memory until the next logged change of
  that bitmap entry, and its blocks stay allocated for ever. The model's `lost` set names those blocks.
- The page bitmap covers the whole persistent memory file, so a page number may lie past its end; creating an object needs a
  page inside it.
- In the client library, destroying an operation that was never submitted, or whose result was not claimed, aborts; an
  operation listed twice in a submission is sent twice; a poll with a limit below the number of waiting completions drops
  the last ones; and a queue depth that is not a multiple of 64 hands out slots that do not exist. See `Ipc.DestroyAborts`,
  `Ipc.SubmitWithRoom`, `IpcRuns.ReportExactly` and `Bitmap.SlotsInRangeExactly`.
- The server's rings have 512 entries, the default queue depth is 1024, and the result of an enqueue is ignored. Slots and
  messages stay in step in all runs if and only if the depth is at most the capacity (`IpcRuns.SafeIffRingsHold`);
  otherwise an operation can wait for ever (`IpcRuns.StrandingRun`).
- The receiver adds the remaining lengths of a message in 32 bits (`Messager.CompletenessExactly`).
- The forward copy of zero bytes to an unaligned destination copies one byte (`PmCopy.EmptyCopyExactly`).
- The read path's error for ranges with holes is never taken, because holes are first mapped to block 0
  (`StoreReads.Read`).

## Model

| member | source | states |
|---|---|---|
| PmDevice.CrashAfterDrain | pm.c:80-88 | once a drain has happened, what a crash leaves depends only on the operations since and the memory a reader saw before them |
| PmDevice.ReplayByte | pm.c:105-112 | an address some store covers ends the same whatever the memory held before, and any other keeps what it held |
| PmLog.HeaderRoundTrip | pm.c:20-28 | valid bit, entry count and length survive being packed into one 64-bit word, for every value that fits |
| PmLog.HeaderLayout | pm.c:20-28 | which bytes of the 64-byte header hold the valid bit, the entry count and the length, and that all others are zero |
| PmLog.EntrySlices | pm.c:30-35 | an entry is its DRAM address, offset and length, eight bytes each, and then the value |
| PmLog.ParseEncode | pm.c:105-112 | walking the packed bytes yields exactly the entries added, in order, whatever follows them |
| PmLog.EncodeParse | pm.c:103-112 | and any bytes the walk accepts are the encoding of the entries it yields |
| PmLog.EncodeAppend | pm.c:148-166 | adding one entry appends exactly its encoding to the log |
| Pm.Pmem.constructor | pm.c:37-73 | a mapped region holds the file's image, with the log of a core placed after the superblock page |
| Pm.Pmem.Write | pm.c:80-88 | the range is replaced and nothing else; with sync a drain follows the store |
| Pm.Pmem.Recover | pm.c:90-118 | recovery does nothing on an idle log, replays exactly the parsed entries one synced store at a time and then clears the header, and stops exactly on logs outside its limits |
| Pm.ReplayAll | pm.c:105-112 | the replay loop finishes exactly when every parsed entry can be stored, having issued their stores in order |
| Pm.Transaction.constructor | pm.c:130-137 | a new transaction is empty, with the valid bit clear |
| Pm.Transaction.Add | pm.c:140-169 | an entry is appended exactly when the running length stays within 8192, and a refused add still moves the header |
| Pm.Transaction.Apply | pm.c:171-217 | issues payload, header, entries, drain and cleared header in that order, with the payload padded to 256 bytes, then copies to DRAM exactly the entries that name an address |
| PmCrash.CommittedCrash | pm.c:171-204 | with the valid bit, a crash before the header is durable undoes the transaction, from then on recovery completes it, and during the header write it is one or the other |
| PmCrash.CrashAtomicExactly | pm.c:90-118 | applying a log is atomic under every crash and every set of lost words exactly when, with the valid bit, recovery can digest the log, and without it, when the entries change a single word |
| PmCrash.UncommittedIdle | pm.c:98 | a log whose valid bit is clear is never replayed, at any crash point |
| PmCrash.ReplayOver | pm.c:105-112 | replaying over any memory that differs only where the entries write gives the memory with all entries applied |
| PmRestart.RecoveryImage | pm.c:105-115 | a crash inside recovery leaves either the whole log to replay again or nothing to do and every entry durable |
| PmRestart.RestartChain | pm.c:97-117 | after any sequence of crashes inside recovery, the recovery that completes ends where an uninterrupted one would have |
| PmRestart.CrashPlaced | pm.c:97-117 | whatever a crash during an apply leaves, recovery finds no log or one whose entries are clear of the log region, so recovery can begin |
| PmRestart.AtomicThroughRestarts | pm.c:90-118 | a committed transaction through a power failure in its apply and any number of further ones in the recoveries: the memory at last is that before it or after it, and after it once the header was durable |
| AllocSpec.ExtentsExact | zstore_allocator.h:115-135 | the extents built list exactly the blocks taken, in order, if and only if no open extent was carried over a gap |
| AllocScan.VisitFree | zstore_allocator.h:105-151 | every block the scan takes is in range and free when taken, and it takes no more than asked |
| AllocScan.ExactIffFree | zstore_allocator.h:91-155 | a granted request is exact if and only if the blocks of the extents returned are distinct and were free |
| AllocScan.ExactIffSeamless | zstore_allocator.h:105-151 | an allocation is exact if and only if it is granted and, while blocks are still needed, the scan never crosses a full word or the wrap with an extent open to land on a free block |
| AllocScan.NextHintFree | zstore_allocator.h:143-153 | the block the search hint is left at is free in the resulting bitmap |
| AllocScan.ScanExact | zstore_allocator.h:105-114 | the scan takes the next free blocks in cyclic order if and only if none of its 65-position skips passes over a free block |
| AllocScan.CompleteWhenLossless | zstore_allocator.h:97-153 | when no skip loses a free block, a request is granted exactly when strictly more blocks are free than asked for |
| AllocPlain.ForwardExact | zstore_allocator.h:91-155 | if the first block left free lies ahead of the hint and no word the scan looks at on the way is full, the allocation is exact, no skip jumps over a free block, and the scan stops at that block |
| AllocPlain.TakesNext | zstore_allocator.h:91-155 | whatever the bitmap, wrap and full words included: if no skip jumps over a free block, an exact allocation returns exactly the next free blocks in cyclic order, and its extents' first blocks lie in exactly the bitmap entries in which a run of them starts |
| AllocPlain.PlainScan | zstore_allocator.h:105-135 | a scan that jumps over no free block, and lands on none across a skip or the wrap with an extent open, finds what looking at every bit in turn finds |
| AllocScan.SuccessNeedsSpare | zstore_allocator.h:143-153 | a granted request leaves at least one block free |
| AllocScan.SkipMergesExtents | zstore_allocator.h:111-114 | a concrete bitmap on which the returned extent names a block that belongs to someone else |
| AllocScan.SkipMissesFreeBlock | zstore_allocator.h:111-114 | a concrete bitmap on which the skip passes over the next free block |
| Allocator.BlockAllocator.InitBitmapEntry | zstore_allocator.h:36-63 | one entry is replaced and the counter grows by its clear bits |
| Allocator.BlockAllocator.CountEntry | zstore_allocator.h:43-61 | the count that skips empty words is the number of clear bits of the entry |
| Allocator.BlockAllocator.AllocSpace | zstore_allocator.h:91-155 | bits, extents, counter and hint after a grant, which leaves the hint at a free block, after a refusal by the counter, and after a refusal by the scan, which keeps the bits it set |
| Allocator.BlockAllocator.Search | zstore_allocator.h:97-154 | the scanning loop computes the specified lap |
| Allocator.BlockAllocator.FreeSpace | zstore_allocator.h:157-174 | exactly the bits of the extents are cleared and the counter grows by their number |
| Allocator.ScanIsVisit | zstore_allocator.h:105-154 | the loop's result is the list of hits of the scan, cut at the size asked for |
| Allocator.CounterAfterAlloc | zstore_allocator.h:145-154 | the clear bits fall by the size granted; after a refused scan they fall by the blocks it reached, which the counter does not follow |
| Allocator.ExactBlocks | zstore_allocator.h:91-155 | an exact allocation returns distinct, free, in-range blocks of the size asked, and sets exactly their bits |
| Allocator.AllocThenFree | zstore_allocator.h:157-174 | freeing what an exact allocation returned restores the bitmap |
| Allocator.CounterAfterFree | zstore_allocator.h:157-174 | the counter stays right if and only if every block freed was allocated and none is freed twice |
| Extents.LbaMergeTo | zstore.c:649-686 | the loop returns extents whose blocks are the mapped entries in order and which begin exactly where they must, with the number of mapped entries |
| Extents.MergedMaximally | zstore.c:649-686 | extents begin exactly at mapped entries that stand first, behind a hole, behind an entry that is not one less, or at a multiple of 512; the size limit is never met |
| Extents.MergeRoundTrip | zstore.c:649-686 | flattening the extents gives exactly the mapped entries in order, and none crosses a 512-block bitmap entry |
| Extents.HoleSplits | zstore.c:658-660 | nothing is merged across a hole |
| Extents.LbaToBitmapId | zstore.c:734-754 | returns each bitmap entry of the extents' first blocks once, and no other |
| Extents.InOneEntryLogged | zstore.c:666 | blocks of extents that stay in one entry are covered by the entries logged |
| Extents.CoveredExactly | zstore.c:734-754 | the entries logged cover every block of the extents if and only if each entry boundary an extent crosses is in an entry where some extent starts |
| Extents.CrossingNotLogged | zstore.c:734-754 | every extent across an entry boundary has a block whose entry is not logged for it |
| Layout.PutBitmap | zstore.c:927-938 | storing the 64 bytes of an entry gives the bitmap exactly that entry's bits of the snapshot |
| Layout.OnodeRoundTrip | zstore.c:74-87 | an onode's validity and index page survive its 64-byte encoding |
| Layout.OnodeLayout | zstore.c:74-86 | which bytes of an onode hold the valid bit, the object id and the index page, and that all others are zero |
| Layout.PutOnode | zstore.c:985-993 | storing 64 bytes at an onode changes that onode to what they decode to, and no other |
| Layout.PutIndex | zstore.c:957-987 | storing block numbers at an index range replaces exactly that range |
| Layout.HoldsFrame | zstore.c:316-319 | the metadata does not depend on the superblock and log regions |
| MetaLog.EntriesCommit | zstore.c:924-994 | storing the entries a write, create or delete logs turns bytes holding one metadata state into bytes holding the state after the commit, and touches no log region |
| MetaLog.BitmapsApplied | zstore.c:927-951 | logging entries in any order and with repetitions leaves the bitmap with exactly those entries of the snapshot |
| MetaCrash.TransactionAtomic | pm.c:171-204 | with the valid bit, a crash anywhere in applying an operation's log leaves the metadata before it or after it, and after it once the header is durable |
| MetaCrash.FillPage | zstore.c:1045-1050 | a page of 0xFF bytes is an index of 1024 holes |
| MetaCrash.MountsAfterRestarts | zstore.c:425-431 | further crashes during recovery do not change the metadata found |
| MetaCrash.AtomicThroughMounts | zstore.c:425-431 | a transaction of the store through a power failure in its apply and any number in the recoveries after it mounts to the metadata before it or after it |
| MetaCrash.UncommittedWriteTears | pm.c:187 | without the valid bit no write that moves a block is applied atomically |
| Prepare.LogSize | zstore.c:924-994 | the exact number of bytes each operation logs |
| Prepare.LogFits | pm.c:143-157 | a write of at most 32 blocks logs at most 5872 bytes and always fits the region, header and padding included |
| Prepare.WriteReplayable | pm.c:93-109 | the recovery in the code replays a committed write exactly when its range is aligned to 16 blocks at both ends and its log fits 4096 bytes |
| Prepare.CreateDeleteReplayable | pm.c:93-109 | and every committed create and delete |
| Prepare.LogBitmap | zstore.c:927-938 | logs the entries in order, and is refused exactly when they do not fit |
| Prepare.LogWrite | zstore.c:924-994 | no entry of a write is refused, and the log is bitmap entries, index range and onode |
| Prepare.LogCreateDelete | zstore.c:1070-1091 | a create logs onode and page entry, a delete the cleared onode alone |
| Prepare.Commit | pm.c:171-217 | applying an operation's log issues exactly the operations of the apply and leaves memory holding the committed metadata and the DRAM onode table equal to it |
| Prepare.TableFollows | pm.c:206-215 | the DRAM copies performed after the commit keep the onode table equal to the durable one |
| StoreCommit.CommitSound | zstore.c:871-968 | each commit keeps block ownership: no block or page shared, and the durable bitmap set exactly for used and lost blocks |
| StoreCommit.CommitView | zstore.c:558-584 | a commit whose data is stored makes exactly the requested operation visible, and nothing of any other object |
| StoreInv.CommitHeadInv | zstore.c:558-584 | committing the oldest transaction keeps the invariant over all pending ones |
| StoreInv.StoreBlockInv | zstore.c:603-623 | data I/O of any pending transaction, in any order, changes nothing a client can see |
| StoreAccept.AcceptWriteInv | zstore.c:871-994 | accepting a safe write keeps the invariant |
| StoreAccept.AcceptCreateInv | zstore.c:1034-1091 | accepting a create whose page no pending delete still needs keeps the invariant, though the page is filled outside the log |
| StoreAccept.AcceptDeleteInv | zstore.c:1054-1091 | accepting a delete keeps the invariant |
| StoreAccept.IdleObject | zstore.c:697-713 | the durable index of an object with nothing in flight is the one every later commit will find |
| StoreRuns.CrashAtomicity | zstore.c:498-623 | in every run, a crash at any step and a mount show the committed operations in order with at most the oldest pending one added, and no operation in part |
| StoreRuns.CommittedForEver | zstore.c:558-584 | committed operations stay committed through any number of crashes |
| StoreRuns.DurableBitmapIsSnapshot | zstore.c:924-951 | after each write commits, the durable SSD bitmap is the DRAM bitmap as it was when that write was prepared |
| StoreRuns.QuietOwnership | zstore.c:871-968 | with nothing in flight both copies of the SSD bitmap agree, set bits are exactly used or lost blocks, the counter is right, and clients see the replay of the history |
| StoreRuns.RunGood | zstore.c:558-623 | the invariant and both free counters hold in every state of every run |
| StoreStart.TailWrite | zstore.c:871-994 | in a quiet store whose blocks from the hint on are free, every write whose blocks will lie in one bitmap entry is safe, however full the rest of the bitmap is |
| StoreStart.ManyWrites | zstore.c:1151-1181 | a formatted store has a run that creates an object and accepts, stores and commits any list of writes to it, overwrites among them, that does not reach the end of the SSD or cross an entry boundary; clients then see them all in order |
| StoreStart.WriteWriteOverwrite | zstore.c:1151-1181 | for example two writes of 32 blocks, which fill a word of the bitmap, and an overwrite of the first |
| StoreStart.RunToTear | zstore.c:871-890 | a run (create, commit, write, its block stored, commit, power failure) after which overwriting the block meets every hypothesis of the tearing result |
| StoreStart.RunToErase | zstore.c:1034-1050 | a run after which a create is allowed, is granted the page of an object whose delete is queued behind a write, and may tear that object |
| StoreExact.WriteSafeExactly | zstore.c:871-951 | a granted write harms no block in use before or after any pending commit, and its own commit leaves every block one owner and the durable bitmap equal to the DRAM one, if and only if the allocation is exact, avoids blocks freed and not yet committed, and is fully logged |
| StoreExact.InvExactly | zstore.c:871-951 | accepting a granted write keeps the invariant of all runs if and only if the same condition holds |
| StoreExact.WriteSafeOnBitmap | zstore.c:871-951 | as long as no skip jumps over a free block, the condition read off the bitmap before the call: more blocks free than asked for, no landing across a full word or the wrap with an extent open, and each of the next free blocks in cyclic order freed by no pending write and in a logged entry |
| StoreExact.PromisesOnBitmap | zstore.c:871-951 | on the same bitmaps a granted write keeps its promises to clients if and only if those conditions on the bitmap, the hint, the freed blocks and the entry boundaries hold |
| StoreExact.UnloggedIsFree | zstore.c:924-951 | a block taken whose bitmap entry is not logged is in use after the commit and free in the allocator after the next mount |
| StoreExact.HandedOutAgain | zstore.c:871-923 | if the next write's free blocks include it, the block is handed out a second time, and storing into it lets a crash tear the object it belongs to |
| StoreExact.ReuseTears | zstore.c:873-882 | storing data into a block the durable metadata still uses lets a crash show clients something other than the committed operations |
| StoreExact.OverwriteOfBlockZeroTears | zstore.c:871-890 | right after a mount, overwriting the block stored in SSD block 0 reuses it in place and can tear |
| StoreExact.RefusedExactly | zstore.c:882-887 | a write refused for lack of space leaves the store sound if and only if it had nothing to free and the scan met no free block |
| StoreExact.RefusalsOnBitmap | zstore_allocator.h:94-154 | with the old blocks free, the counter refuses exactly when fewer blocks are clear than asked for, and the scan, where no skip jumps over a free block, exactly when that many are clear and no more |
| StoreExact.CreateSafeExactly | zstore.c:1034-1050 | a create keeps the invariant, and no crash can then tear an object, if and only if the page it finds is not that of an object whose delete is pending, or holds only holes |
| StoreExact.CreateRefusedExactly | zstore.c:1034-1043 | a create refused for lack of a page leaves the store good if and only if no page was free or the scan met none |
| StoreReads.Read | zstore.c:826-850 | a read of up to 32 blocks returns each mapped block's contents and block 0 for holes, and is never refused as a hole |
| StoreReads.ReadBack | zstore.c:765-850 | in a quiet store a read returns for every written block exactly what the last write to it stored |
| StoreReads.LateRead | zstore.c:817-850 | a block fetched after the index was read is what the object held at that time if it stayed in use meanwhile, or at least no accepted write was still to store it |
| StoreBytes.CrashMounts | zstore.c:1045-1050 | after a crash at any operation, with any index pages still being filled and the oldest transaction being applied, the bytes mount to the metadata before it or after it, up to pages nobody owns |
| StoreBytes.CrashFromBytes | zstore.c:425-455 | after a crash at any operation and any number of crashes inside the recoveries that follow, the store mounted from what the last recovery leaves is one the state machine's power failure allows, and holds the transaction once its header is durable |
| StoreBytes.ByteStepSimulates | zstore.c:558-584 | each request, I/O, apply and power failure over bytes, with any chain of power failures inside recovery, is a step of the state machine, and the bytes keep backing its metadata |
| StoreBytes.ByteRunsAreRuns | zstore.c:498-623 | every run over bytes, crashes at any point of an apply or of a recovery and any words lost included, is a run of the state machine |
| StoreBytes.FormattedBegins | zstore.c:340-351 | the memory formatting leaves, with any index pages and any SSD, holds a formatted store and begins a run |
| StorePages.PagesConserved | zstore.c:1021-1056 | while the power stays on, index pages allocated without belonging to an object, now or once all pending requests have committed, stay the same ones: creates and deletes neither lose a page nor give one out twice |
| StorePages.PagesExactly | zstore.c:1021-1056 | a page free when the store was formatted is allocated exactly while an object has it or is about to get it |
| DataIo.IssueBios | zstore.c:498-528 | one transfer for each extent, each starting in the buffer where the one before it ends |
| DataIo.CarriedOnce | zstore.c:498-528 | every block of the buffer is moved by exactly one transfer, to or from the device block that stands in its place in the list of blocks |
| DataIo.TransferStores | zstore.c:498-528 | a write's transfers store each block of the data where its log says, as the state machine does |
| Zstore.Context.PrepareRead | zstore.c:765-850 | the checks in order with their codes; otherwise the extents cover the object's index entries in the bytes, holes replaced by block 0, and the refusal for holes is never taken |
| Zstore.Context.PrepareWrite | zstore.c:765-994 | the checks in order with their codes, those of the two refusals for lack of space included; otherwise allocator, extents, index values and log are those of the state machine's write, or of its refusal |
| Zstore.Context.PrepareCreate | zstore.c:1004-1093 | refused for a bad or taken object id or without a page, otherwise the state machine's create, with its log and the one undrained store that fills its page |
| Zstore.Context.PrepareDelete | zstore.c:1004-1093 | refused for a bad or free object id, otherwise the state machine's delete, with its log |
| Zstore.Context.CommitHead | zstore.c:566-581 | applying the oldest transaction's log issues exactly the operations of the apply and leaves memory, table and allocators representing the state machine's commit |
| Zstore.LoadBitmap | zstore.c:433-455 | loading a bitmap entry by entry from the memory leaves the allocator with the durable bits and the counter equal to their clear bits |
| Zstore.Mount | zstore.c:425-473 | recovery and loading from the memory end in a context that represents the state machine's store after a mount, for any memory on which recovery can begin |
| Zstore.MountAfterCrash | zstore.c:425-473 | mounting any image that power failures may leave, those inside recovery included, ends in a context that represents a store the state machine's power failure allows |
| Zstore.Context.TakeBlocks | zstore.c:871-890 | the free and then the allocation, with the exact allocator state and code: -1 when free and old blocks together are fewer than asked for, 21 when the scan ran and did not end at a free block |
| TxPipeline.Pipeline.Arrive | zstore.c:1165-1181 | a request from outside: a read or write only joins its list, with all its I/O outstanding; a create or delete joins the list too, or on an empty one is the one thing that commits |
| TxPipeline.Pipeline.Submit | zstore.c:1151-1181 | the same for a request submitted by a callback that is running, which it takes in the order the callback makes them; no submission adds a write that is ready to commit |
| TxPipeline.Pipeline.Drain | zstore.c:566-581 | the commit loop ends whatever finite list of requests each callback submits, because callbacks inside it belong to writes already stored, and leaves no ready transaction at the head |
| TxPipeline.Pipeline.ApplyHead | zstore.c:574-578 | the head commits next, and its user is called, or sent a message if the operation had no data I/O |
| TxPipeline.Pipeline.UserCallback | zstore.c:531-537 | a callback that is owed is made, and has submitted all its requests, and those of callbacks made meanwhile theirs, before it returns |
| TxPipeline.Pipeline.BioDone | zstore.c:603-623 | the last completion calls a read back, commits the head and calls its user, or leaves any other transaction waiting for the head; an earlier one changes nothing but the count |
| TxPipeline.Pipeline.RunMessage | zstore.c:552-553 | a queued callback is delivered once and in order |
| TxPipeline.CalledExactlyOnce | zstore.c:539-557 | no request is called back twice, and once the lists are empty those called back are exactly those accepted, and commits happened in arrival order |
| TxPipeline.CommittedFirst | zstore.c:574-578 | a write, create or delete has committed if and only if its user has been called or sent a message |
| TxPipeline.NothingEarly | zstore.c:603-623 | whatever has committed, or whose user has been called or sent a message, has no data I/O outstanding |
| Wire.HeaderRoundTrip | message.h:38-48 | every header in range survives its 26-byte packed form, field for field |
| Wire.HeaderLayout | message.h:38-48 | which of the 26 bytes hold which field |
| Wire.HeaderBytes | message.h:38-48 | and any 26 bytes are the header they decode to |
| Wire.Decoded | messager.c:286-347 | messages decoded from a prefix of a stream are, one by one, those encoded into it |
| Wire.AllDecoded | messager.c:286-347 | and all of them once every byte has been transferred |
| Messager.DoSendMessage | messager.c:237-285 | what a partial send writes is the next part of the message, and it reports completion exactly when nothing remains |
| Messager.DoRecvMessage | messager.c:286-347 | what a partial receive takes is appended to the message, with buffers sized by the header once it is complete |
| Messager.Sender.FlushMsg | messager.c:438-472 | messages leave the queue in order and only when sent in full |
| Messager.Sender.WrittenPrefix | messager.c:425-472 | the bytes written are always a prefix of the messages pushed, and all of them once the queue is empty |
| Messager.Receiver.TailRecvMsg | messager.c:363-376 | receiving resumes in the unfinished message, or starts a new one behind a finished one |
| Messager.Receiver.ReadEvent | messager.c:378-423 | the messages handed over are the first of those pushed, and all of them once all bytes are taken |
| Messager.EndToEnd | messager.c:215-472 | however the network cuts the stream, the receiver is handed the first of the messages pushed, field for field, and all of them when nothing is left |
| Messager.CompletenessExactly | messager.c:72-79 | the 32-bit completeness test is right in every state of a message if and only if its two lengths add up to less than 2^32 |
| Messager.Receiver.PartialLooksComplete | messager.c:72-79 | a message still arriving looks complete if and only if its header has arrived and exactly 2^32 bytes are missing; its remaining lengths are then among those of the previous row |
| Bitmap.NextFreeFinds | util/bitmap.h:63-79 | the search finds a set bit exactly when there is one |
| Bitmap.NextFreeIsNext | util/bitmap.h:63-79 | and the one it finds is the next from the start of the hint's word, in cyclic order |
| Bitmap.SlotBitmap.NextSet | util/bitmap.h:63-79 | the word-by-word search returns the specified bit or -1 |
| Bitmap.SlotBitmap.FindNextSetAndClr | util/bitmap.h:81-88 | the bit found is cleared and no other |
| Bitmap.SlotsInRangeExactly | util/bitmap.h:21-32 | every slot number handed out is below the queue depth if and only if the depth is a multiple of 64 |
| Channel.IoChannel.constructor | liboss.c:59-81 | a new channel has every slot new and free |
| Channel.IoChannel.PrepareOp | liboss.c:381-433 | takes a free slot and numbers the operation, or reports that none is free; too many argument bytes abort |
| Channel.IoChannel.Submit | liboss.c:541-583 | all or nothing: either some operation cannot be submitted and nothing changes, or all are sent in order and marked |
| Channel.IoChannel.OnRecvMsg | liboss.c:225-248 | the callback accepts a response exactly when sequence number and operation match the slot |
| Channel.IoChannel.Poll | liboss.c:586-620 | responses are fetched only when no completion is left over, the first completions are reported and the list is cut at its end |
| Channel.IoChannel.ClaimResult | liboss.c:631-654 | a result is handed out exactly for a completed operation, which then ends |
| Channel.IoChannel.DestroyOp | liboss.c:656-691 | which operations are given back, busy, invalid, or abort |
| Channel.IoChannel.FreeOp | liboss.c:369-379 | the slot becomes new and free again |
| Ipc.NoReuseWhileAlive | liboss.c:357-433 | the slot given to a new operation has no message on its way |
| Ipc.SubmitExactly | liboss.c:541-583 | a submission keeps messages and slots one to one exactly when each operation listed reaches the ring once |
| Ipc.SubmitWithRoom | liboss.c:541-583 | with room on the ring, exactly when no operation is listed twice |
| Ipc.RespondInv | server_main.c:216-235 | the server may answer the requests it holds in any order |
| Ipc.ReceiveInv | liboss.c:225-248 | the oldest response passes the callback's assertions and completes its slot |
| Ipc.FetchAllInv | spdk_ipc_messager.c:154-183 | so do all responses on the ring, in order |
| Ipc.DestroyInv | liboss.c:656-691 | destroying an ended operation keeps messages and slots in step |
| IpcRuns.AllFit | spdk_ipc_messager.c:95-118 | messages alive and about to be sent never outnumber the slots, so a ring as large as the queue depth loses none |
| IpcRuns.SlotsAndMessages | liboss.c:357-691 | on rings that hold the queue depth, in every run a slot is in progress exactly while one message is alive for it, every response passes the assertions, and a slot about to be handed out has none |
| IpcRuns.RunSafe | liboss.c:357-691 | there the correspondence, ring room and a list of completions without repetition hold in every state of every run |
| IpcRuns.SafeIffRingsHold | spdk_ipc_messager.c:95-118 | all runs keep them if and only if the queue depth is at most the ring capacity |
| IpcRuns.StrandingRun | server_main.c:697-699 | for any deeper queue, a run that leaves a slot in progress with no message alive for it |
| IpcRuns.ReportExactly | liboss.c:611-618 | completions are reported once each and none is lost if and only if a poll reports all of them or none |
| IpcRuns.PartialReportLoses | liboss.c:611-618 | a poll that reports some completions but not all drops the last from the list without reporting it |
| IpcRuns.LostStays | liboss.c:586-620 | and no later step reports it, until its slot is given back |
| IpcResults.FullPollTells | liboss.c:586-620 | a poll with room for every slot reports exactly the operations it completes, once each and in the order of their responses, and leaves none over |
| IpcResults.ClaimedIsAnswered | liboss.c:225-654 | in every run, a claimed result is the one answer the server gave to the operation in that slot, with its status and length, and the request the server then held is the one prepared |
| IpcResults.ClaimedOnce | liboss.c:631-654 | and no operation's result is handed out twice |
| Server.Request.OpExecute | server_main.c:366-411 | which requests wait for the store, and that every other is answered at once: without buffers and with the store's code, invalid or unknown, except for a ping, which is returned as it came |
| Server.Request.Serve | server_main.c:216-411 | whichever way a client's request ends, the response has its slot, sequence number and operation, no meta buffer, the store's status, and as many bytes of data as a successful read asked for or a stat reports, and none otherwise |
| Server.ClientRequestValid | server_main.c:265-310 | of the messages the messager can deliver, the server executes exactly those the client library builds |
| PmCopy.ForwardChoice | pm_impl.h:534-539 | the unsigned comparison selects the forward copy exactly when the destination does not start inside the source |
| PmCopy.ChunkThenRest | pm_impl.h:313-374 | copying a first chunk and then the rest is copying the whole, overlapping ranges included |
| PmCopy.TwoStores | pm_impl.h:107-200 | two overlapping pieces loaded before either is stored copy the whole range |
| PmCopy.Memory.SmallNoFlush | pm_impl.h:107-200 | copies any length up to 64 as a memmove, and one byte when asked for none |
| PmCopy.Memory.Flush | pm_impl.h:93-102 | no byte of the range is left in the cache |
| PmCopy.Memory.MovNt | pm_impl.h:210-298 | streams a multiple of 16 bytes, every store aligned |
| PmCopy.Memory.ForwardCopy | pm_impl.h:313-374 | the forward copy is a memmove for every length and alignment, leaves nothing of the destination in the cache, and copies one byte when asked for none at an unaligned destination |
| PmCopy.EmptyCopyExactly | pm_impl.h:313-374 | an empty copy leaves memory alone if and only if the destination starts a cache line or already holds the source's byte |

## Left out

- SPDK, DPDK and libpmem themselves: a block device that completes I/O in any order, an in-order ring of fixed capacity, and
  the store/drain model of persistent memory stand for them. Failed I/O submissions and TRIM are not modelled.
- Superblock contents, formatting with reserved object ids, and the choice of devices. The model starts from a store just
  formatted without reserved objects.
- Buffers: allocation, ownership and release, except that responses carry the right ones. The index buffer of 32 entries
  and the log buffer are assumed not to be overrun; the guards that ensure it are preconditions.
- Several cores: one core's store and log region, and one channel per pair of rings.
- Closing and tearing down sessions, accepting connections, polling and booting the server, RPC configuration and logging.
- Busy-waiting for a minimum number of responses in a poll; the caller polls again instead. The network variant of a
  submission, which spins until all is flushed, is the messager's flush.
- The chunk store, null store, block device front end, benchmarks, demos and the backward streaming copy.
- Wrap-around of 64-bit sequence numbers and transaction ids.
- Pm.Transaction.Add: the 64 bytes by which an accepted log may exceed the region once the header is in front of it are not
  written in the model; applying asks that header and padded log fit, which every operation's log does.
- Channel.IoChannel.Submit: callers do not pass the slot number equal to the queue depth, for which the code
  reads past its table.
- StoreRuns.CrashAtomicity: stated for runs whose granted writes and creates meet the conditions that
  StoreExact.WriteSafeExactly and StoreExact.CreateSafeExactly show to be exact, with the valid bit set and recovery reading the whole region.
  Requests refused without a trace are steps of a run; those that leave a trace are covered by StoreExact.RefusedExactly and
  StoreExact.CreateRefusedExactly.
- StoreReads.Read: computed over metadata and disk as values, in one step; reading the index from the bytes is
  Zstore.Context.PrepareRead, and what may happen between index and data is StoreReads.LateRead.
- Zstore.Context.PrepareWrite: the object exists and has nothing in flight; data buffers are not modelled.
- TxPipeline.Pipeline.Submit: the metadata a transaction applies is abstract there; what applying does is the store's model.
