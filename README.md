# DPFS core, modelled in Dafny

DPFS (DPU-powered File System virtualization) serves FUSE requests that
arrive as virtio-fs descriptors on a DPU. They reach a file-system
backend through a hardware layer: SNAP, or the eRPC-based RVFS transport.
There are three kinds of backend:

- a local directory mirror, on io_uring or Linux AIO;
- an NFSv4.1 client;
- a key-value store.

This project models the sequential logic inside that pipeline. Each
Dafny module follows one source file or component, with the exceptions
its header comment names:

- the FUSE request layer: the reply cursor, directory-entry records,
  INIT negotiation, the dispatch table and the per-handler checks;
- the chained inode tables and their lookup and open counts;
- the NFSv4.1 session slot table;
- the NFS client's request handlers, path compounds and attribute
  decoding;
- the small pools and lists;
- the RVFS transport: the request layout the DPU writes, the host's
  table walk that reads it back, the pool of messages and the
  completion path, and the older eRPC program on the DPU;
- the key-value backend's validation and accounting;
- the SNAP hardware layer and the low-level emulation layer: their
  configuration checks, the dispatch of requests by opcode with its
  call counters, and the polling loops.

The model follows the C and C++ code of the repository wherever a prose
description of DPFS differs from it. In particular, the defects listed
under "Findings" are modelled as the code has them. Each also has a
corrected counterpart, and the rest of the model uses that counterpart.

System calls, io_uring and AIO completions, RPC replies and allocation
outcomes become parameters of the operations. Each one is the value the
call returned. Mutex-protected sections are treated as atomic.

## Model

| member | source | states |
|---|---|---|
| Chains.Find | dpfs_uring/fuser.c:91-99 | the result is the item of a slot with the key, and is absent exactly when no slot of the chain has the key |
| Chains.Unlink | dpfs_uring/fuser.c:125-140 | a chain without the key is unchanged; otherwise exactly one slot goes and no slot is added |
| Chains.UnlinkLeavesNone | dpfs_uring/fuser.c:125-140 | in a chain with distinct keys, unlinking a key leaves no slot with it and keeps the keys distinct |
| Chains.PushFresh | dpfs_uring/fuser.c:117-123 | pushing a fresh key keeps the keys distinct, and the new item is the one found |
| Chains.PushShadows | dpfs_uring/fuser.c:117-123 | after a push, the new head is found for its key and every other key finds what it found before |
| Chains.UnlinkHead | dpfs_uring/fuser.c:125-140 | removing a key just pushed restores the chain |
| Chains.ChainTable.constructor | dpfs_uring/fuser.c:68-84 | `size` buckets, all empty |
| Chains.ChainTable.Get | dpfs_uring/fuser.c:86-99 | the item found in bucket `key % size`, or nothing, in which case no bucket holds the key (`dpfs_aio/fuser.c` has the same function at 63-76) |
| Chains.ChainTable.Insert | dpfs_uring/fuser.c:117-123 | the new slot heads its bucket and the old chain follows; nothing else changes; uniqueness is kept when the key was absent |
| Chains.ChainTable.Remove | dpfs_uring/fuser.c:125-140 | the result is what `Find` gave, and the bucket becomes `Unlink` of the old one; uniqueness is kept and the key is then gone (the AIO copy is at `dpfs_aio/fuser.c` 102-117) |
| MirrorImpl.Destroyed | dpfs_uring/fuser.c:38-43 | `inode_destroy` closes the descriptor exactly when the inode holds one above 0 |
| MirrorImpl.EraseInode | dpfs_uring/fuser.c:142-147 | true exactly when an inode was filed under the key; that inode is unlinked and its descriptor closed (the AIO copy is at `dpfs_aio/fuser.c` 119-124) |
| Chains.ChainTable.Clear | dpfs_uring/fuser.c:46-66 | every bucket ends up empty and the bucket count is kept |
| Fuser.Inode.constructor | dpfs_uring/fuser.c:27-37 | a new inode has its key, `fd` = -1 and zero counts |
| Fuser.Getsert | dpfs_uring/fuser.c:101-115 | an inode already filed is returned unchanged; otherwise a fresh one with `fd` = -1 and no lookups heads the bucket, unless allocation fails; afterwards `get` finds the result, and no key is filed twice (the AIO copy is at `dpfs_aio/fuser.c` 78-100) |
| Fuser.Mirror.constructor | dpfs_uring/fuser.c:303-322 | the root inode has id 1, a lookup count of 9999 and the source directory's descriptor; the table has 8192 empty buckets |
| Fuser.Mirror.InoToInodePtr | dpfs_uring/fuser.c:149-158 | the root id maps to the root inode; any other id maps to its inode, or to nothing exactly when that inode's `fd` is -1 |
| Fuser.Mirror.InoToFd | dpfs_uring/fuser.c:160-166 | -1 for an unknown inode, otherwise the inode's descriptor |
| Fuser.RingWindow | dpfs_uring/fuser.c:245-257 | each window lies inside `[0, nrings)`; it holds `nrings / nthreads` rings, and thread 0 also holds the remainder |
| Fuser.RingWindowsTile | dpfs_uring/fuser.c:245-257 | the windows start at 0, each ends where the next begins, and the last ends at `nrings` |
| Fuser.RingWindowsNonEmpty | dpfs_uring/fuser.c:366-369 | with no more polling threads than rings, every window is non-empty |
| Fuser.RingWindowsDisjoint | dpfs_uring/fuser.c:245-257 | two different threads never share a ring |
| Fuser.PinnedCpu | dpfs_uring/fuser.c:228-243 | a thread is pinned exactly when request and polling threads together fit on the CPUs, and then below the request threads' CPUs |
| Fuser.PinnedCpusDistinct | dpfs_uring/fuser.c:228-243 | two polling threads never get the same CPU |
| Fuser.RwRequest.HandleEventAsWritten | dpfs_aio/fuser.c:175-189 | as written, only `res` = -1 counts as a failure and completes the request twice; any other negative `res` is truncated into the 32-bit size and length fields |
| Fuser.RwRequest.HandleEvent | dpfs_aio/fuser.c:175-189 | corrected, every event completes once; a negative `res` is the reply's error and adds nothing to its length; a write reports `res` and adds 8 bytes; a read adds `res` |
| Fuser.ReadErrorLostAsWritten | dpfs_aio/fuser.c:175-185 | as written, a read failing with EIO replies with an 11-byte length and no error |
| Fuser.ReadErrorReported | dpfs_aio/fuser.c:175-185 | corrected, the same read replies with the bare header and -EIO |
| FuseIov.FlatLength | dpfs_fuse/dpfs_fuse.cpp:237-247 | the flat contents are as long as the sum of the iovec lengths |
| FuseIov.CopyRunSpec | dpfs_fuse/dpfs_fuse.cpp:255-271 | the copy loop writes the rest of `buf`, in order, right after the bytes already copied, and leaves the cursor just past them |
| FuseIov.CopyAcross | dpfs_fuse/dpfs_fuse.cpp:255-271 | the loop computes `CopyRun` |
| FuseIov.IovCursor.constructor | dpfs_fuse/dpfs_fuse.cpp:237-247 | total and unused size are both the sum of the iovec lengths, and both indices are 0 |
| FuseIov.IovCursor.WriteBuf | dpfs_fuse/dpfs_fuse.cpp:249-273 | with too little room the result is 0 and nothing changes; otherwise `buf` is written at the cursor, the result is `size`, and the unused bytes drop by exactly `size` |
| FuseIov.WriteBufAsWritten | dpfs_fuse/dpfs_fuse.cpp:255-271 | the code as written copies every chunk from the start of `buf`; the iovec lengths are kept |
| FuseIov.WriteBufAsWrittenRepeatsStart | dpfs_fuse/dpfs_fuse.cpp:255-271 | writing 1,2,3 into two 2-byte iovecs leaves 1,2,1, where 1,2,3 belongs |
| FuseIov.DirentAlign | dpfs_fuse/dpfs_fuse.cpp:279-281 | the smallest multiple of 8 at or above the length |
| FuseIov.DirentType | dpfs_fuse/dpfs_fuse.cpp:294 | the type is the `S_IFMT` nibble, below 16 |
| FuseIov.Dirent | dpfs_fuse/dpfs_fuse.cpp:276-299 | the record has the padded length, the head fields, then the name, then zero padding |
| FuseIov.DirentPlus | dpfs_fuse/dpfs_fuse.cpp:301-329 | the entry reply, then the directory entry, padded to a multiple of 8 |
| FuseIov.DirentRoundTrip | dpfs_fuse/dpfs_fuse.cpp:276-299 | parsing a record gives back its ino, offset, name length, type and name |
| FuseIov.IovCursor.AddDirentry | dpfs_fuse/dpfs_fuse.cpp:276-299 | 0 and nothing written when the padded record does not fit; otherwise the record is written at the cursor |
| FuseIov.IovCursor.AddDirentryPlus | dpfs_fuse/dpfs_fuse.cpp:301-329 | the same for the 152-byte-headed plus record |
| FuseReply.AttrOutSize | dpfs_fuse/dpfs_fuse.cpp:164-166 | the full size exactly from minor 9 on, otherwise the compatible size |
| FuseReply.EntryOutSize | dpfs_fuse/dpfs_fuse.cpp:177-179 | the same rule for entry replies |
| FuseReply.StatfsOutSize | dpfs_fuse/dpfs_fuse.cpp:217-220 | the full size exactly from minor 4 on |
| FuseReply.ReplyAttr | dpfs_fuse/dpfs_fuse.cpp:164-175 | the length grows by exactly the attribute reply size of the negotiated minor, between the compatible and the full size; id and error are kept |
| FuseReply.ReplyEntry | dpfs_fuse/dpfs_fuse.cpp:177-192 | a zero inode before minor 4 becomes -ENOENT with no payload; otherwise the length grows by an entry reply |
| FuseReply.OpenOut | dpfs_fuse/dpfs_fuse.cpp:124-139 | the 12 bytes `fill_open` writes at the start of the 16-byte open reply decode, little-endian, to the file handle and the open flags; the padding after them is not written |
| FuseReply.NoFileInfoZeros | dpfs_fuse/dpfs_fuse.cpp:124-139 | a file info with no handle and no flags set writes zeros over the handle and the flags of the open reply |
| FuseReply.ReplyOpen | dpfs_fuse/dpfs_fuse.cpp:194-201 | the length grows by the whole 16-byte open reply, id and error are kept, and the bytes written decode to the handle and the open flags |
| FuseReply.ReplyCreate | dpfs_fuse/dpfs_fuse.cpp:203-215 | the length grows by exactly the entry reply size of the minor plus the open reply; the open reply is the one an open of the same file info gives |
| FuseReply.ReplyStatfs | dpfs_fuse/dpfs_fuse.cpp:217-227 | the length grows by exactly the statfs reply size of the minor, between the compatible and the full size; id and error are kept |
| FuseReply.ReplyIov | dpfs_fuse/dpfs_fuse.cpp:229-235 | the length grows by exactly the bytes before the cursor's position (the lengths of the buffers it filled plus its offset in the current one), which is at most the buffers' total size |
| FuseReply.ReplyIovWrote | dpfs_fuse/dpfs_fuse.cpp:229-235 | after a cursor has written `bytes` from position `p0`, the reply's length grows by exactly `p0 + |bytes|` |
| FuseReply.FillOpenFlags | dpfs_fuse/dpfs_fuse.cpp:124-139 | each open flag is set exactly when its field is; `FOPEN_NOFLUSH` is never sent |
| FuseInit.CapOfFlag | dpfs_fuse/dpfs_fuse.cpp:394-429 | every kernel flag except `MAX_PAGES` and `BIG_WRITES` announces a capability |
| FuseInit.FlagOfCapInverts | dpfs_fuse/dpfs_fuse.cpp:518-545 | a wanted capability is reported as the very flag that announced it |
| FuseInit.CapsOfFlagsExact | dpfs_fuse/dpfs_fuse.cpp:394-429 | a capability is offered exactly when a flag the kernel set announces it |
| FuseInit.Offered | dpfs_fuse/dpfs_fuse.cpp:386-443 | `IOCTL_DIR` exactly from minor 18 on, and before minor 6 nothing else |
| FuseInit.ReplyFlagsOffered | dpfs_fuse/dpfs_fuse.cpp:510-545 | when `want` lies within what was offered, the reply claims no flag the kernel did not set, except `BIG_WRITES`, which it always claims |
| FuseInit.NegotiatedBufsize | dpfs_fuse/dpfs_fuse.cpp:430-484 | the buffer is at least `FUSE_MIN_READ_BUFFER`, at most the configured size, and capped at the default page count without `MAX_PAGES` |
| FuseInit.MaxPagesCovers | dpfs_fuse/dpfs_fuse.cpp:510-513 | without truncation, `max_pages` pages are the fewest that hold `max_write` bytes |
| FuseInit.ClampBackground | dpfs_fuse/dpfs_fuse.cpp:554-565 | `max_background` is below 2^16; the congestion threshold is at most that, and defaults to three quarters of it |
| FuseInit.InitOutSize | dpfs_fuse/dpfs_fuse.cpp:579-584 | the reply size depends on whether the minor is below 5, below 23, or neither |
| FuseInit.HookWantOffered | dpfs_fuse/dpfs_fuse.cpp:490-497 | a backend hook that adds only offered capabilities keeps `want` within `capable` |
| FuseInit.Session.constructor | dpfs_fuse/dpfs_fuse.cpp:1796-1804 | a zeroed session with unlimited write and read-ahead sizes and the default buffer size |
| FuseInit.Session.Init | dpfs_fuse/dpfs_fuse.cpp:331-586 | wrong iovec counts give -EINVAL; a live session gives -EISCONN; major < 7 gives -EPROTO with a version-only reply; major > 7 gives only the version; major 7 negotiates |
| FuseInit.Session.Negotiate | dpfs_fuse/dpfs_fuse.cpp:386-508 | the limits settle as stated; a failing hook or a `want` outside `capable` gives -EPROTO and `got_destroy` |
| FuseInit.Session.Settle | dpfs_fuse/dpfs_fuse.cpp:386-487 | read-ahead is the minimum of both sides; the offered capabilities and default wants are set; the buffer and write limits are clamped |
| FuseInit.Session.Reply | dpfs_fuse/dpfs_fuse.cpp:510-567 | the reply carries the negotiated flags and limits; the background limits are clamped from minor 13 on |
| FuseInit.Session.Destroy | dpfs_fuse/dpfs_fuse.cpp:588-608 | wrong iovec counts give -EINVAL; otherwise a bare reply, `got_destroy` set, and the backend's result |
| FuseOps.OpName | dpfs_fuse/debug.h:16-176 | the name printed for each opcode |
| FuseOps.NameDecodes | dpfs_fuse/debug.h:16-176 | every listed opcode's name decodes back to that opcode |
| FuseOps.NamesDistinct | dpfs_fuse/debug.h:16-176 | two different listed opcodes print different names |
| FuseDispatch.OpcodeOf | dpfs_fuse/dpfs_fuse.cpp:1692-1729 | every handler sits under a listed opcode in 1..`MAX_OPCODE` |
| FuseDispatch.RegisteredUnder | dpfs_fuse/dpfs_fuse.cpp:1692-1729 | each handler is registered under its own opcode |
| FuseDispatch.RegisteredOnlyUnder | dpfs_fuse/dpfs_fuse.cpp:1692-1729 | a slot holds a handler only under that handler's opcode |
| FuseDispatch.RegistrationsComplete | dpfs_fuse/dpfs_fuse.cpp:1692-1729 | every handler is registered |
| FuseDispatch.Map | dpfs_fuse/dpfs_fuse.cpp:1692-1729 | every slot of the new table holds exactly the handler registered for its opcode, or nothing |
| FuseDispatch.BackendOf | dpfs_fuse/dpfs_fuse.cpp:611-1652 | only INIT and READLINK call no backend operation |
| FuseDispatch.HandleWith | dpfs_fuse/dpfs_fuse.cpp:611-643 | wrong iovec counts give -EINVAL; -EBUSY exactly before INIT completes; a request reaches the backend only when the operation exists and READ/WRITE sizes add up; a missing operation gives -ENOSYS |
| FuseDispatch.HandleReq | dpfs_fuse/dpfs_fuse.cpp:1746-1780 | a missing iovec or an opcode outside 1..`MAX_OPCODE` gives -EINVAL; an unmapped opcode gets -ENOSYS |
| FuseDispatch.HandleReqInBounds | dpfs_fuse/dpfs_fuse.cpp:1746-1780 | with both counts checked, replies and backend calls stay within the iovecs present |
| FuseDispatch.HandleReqAsWrittenWritesPastEnd | dpfs_fuse/dpfs_fuse.cpp:1753 | as written, an unknown opcode with no output iovec still has a reply written |
| FuseDispatch.ReaddirAsWrittenReadsPastEnd | dpfs_fuse/dpfs_fuse.cpp:987 | as written, READDIR reaches the backend with one input iovec |
| FuseDispatch.LockOp | dpfs_fuse/dpfs_fuse.cpp:834-849 | RD maps to SH, WR to EX and UN to UN; `LOCK_NB` is set exactly when the caller may not sleep |
| FuseDispatch.SetlkAsWrittenBlocks | dpfs_fuse/dpfs_fuse.cpp:871-876 | as written, SETLK asks for a blocking lock |
| FuseDispatch.SetlkNonBlocking | dpfs_fuse/dpfs_fuse.cpp:802-876 | corrected, SETLK asks for `LOCK_NB` and SETLKW does not, with the mapped lock type |
| FuseDispatch.DataSizeMatches | dpfs_fuse/dpfs_fuse.cpp:1374-1382 | true exactly when the data iovec lengths add up to the requested size, for READ and for WRITE (lines 1425-1433) |
| FuseDispatch.SetattrValid | dpfs_fuse/dpfs_fuse.cpp:673-697 | a file handle is passed exactly when `FATTR_FH` is set; the mask keeps exactly the nine attribute bits |
| MirrorImpl.ForgetOne | dpfs_uring/mirror_impl.c:67-94 | more than the count aborts; otherwise the count drops by `n`, and the inode is erased from the table, its descriptor closed, exactly when it reaches 0 |
| MirrorImpl.DoLookupAsWritten | dpfs_uring/mirror_impl.c:215-293 | the ENOMEM return leaves the table mutex held |
| MirrorImpl.DoLookup | dpfs_uring/mirror_impl.c:215-293 | failed calls, another device (ENOTSUP) and inode 1 (EIO) return before the table; a success counts exactly one lookup, keeps a live descriptor or records the new one, and releases the mutex on every path |
| MirrorImpl.IsDotOrDotdot | dpfs_uring/mirror_impl.c:464-467 | true exactly for "." and ".." |
| MirrorImpl.OpenFlags | dpfs_uring/mirror_impl.c:597-620 | with a timeout, write-only becomes read-write and `O_APPEND` is cleared; `O_DIRECT` is dropped when rejected |
| MirrorImpl.CachedOpenReadable | dpfs_uring/mirror_impl.c:606-620 | with a timeout nothing is opened write-only or for appending |
| MirrorImpl.OpenDone | dpfs_uring/mirror_impl.c:564-583 | a failed open is reported; otherwise `nopen` grows by one, `keep_cache` is set exactly when there is a timeout, and `noflush` exactly for an uncached read-only open |
| MirrorImpl.Open | dpfs_uring/mirror_impl.c:586-668 | an unknown inode gives -EINVAL; otherwise it completes as `OpenDone` |
| MirrorImpl.Release | dpfs_uring/mirror_impl.c:670-711 | an unknown inode gives -EINVAL; otherwise `nopen` drops by one and the handle is closed |
| MirrorImpl.CreateDone | dpfs_uring/mirror_impl.c:765-837 | with the generic callback, a successful create sends a bare header and counts no open; with the create callback it looks the file up, counts one open and replies with an entry and an open |
| MirrorImpl.UnlinkName | dpfs_uring/mirror_impl.c:1160-1229 | an unknown parent gives -EINVAL; without a timeout the name is probed first; then `unlinkat` runs |
| MirrorImpl.EarlyRelease | dpfs_uring/mirror_impl.c:1182-1199 | on the last link of an inode with a live descriptor and no opens, the descriptor is closed, `fd` becomes -ENOENT and the generation grows by one |
| MirrorImpl.GiveBack | dpfs_uring/mirror_impl.c:1201-1202 | the probe's own lookup is returned with `forget_one(…, 1)` |
| MirrorImpl.InitHook | dpfs_uring/mirror_impl.c:96-142 | export support and flock when offered; the writeback cache when offered and cached; never splicing; an id failure is reported and the session is not marked ready |
| MirrorImpl.InitHookWant | dpfs_uring/mirror_impl.c:96-142 | after the hook, `want` holds the writeback cache exactly when it was offered and caching is on |
| MirrorReaddir.RecordParses | dpfs_uring/mirror_impl.c:524-527 | the kernel reads back each entry's ino, offset, name and `d_type` |
| MirrorReaddir.FillPlainSpec | dpfs_uring/mirror_impl.c:494-541 | readdir emits the longest run of non-dot entries whose records fit, back to back, and stops early only on an entry that does not fit |
| MirrorReaddir.NonDotsExact | dpfs_uring/mirror_impl.c:507-508 | no "." or ".." is ever emitted, and every other entry is |
| MirrorReaddir.FillEntries | dpfs_uring/mirror_impl.c:487-541 | the loop computes `FillPlain` and keeps the directory offset at the last entry read |
| MirrorReaddir.ReaddirPlain | dpfs_uring/mirror_impl.c:469-561 | an error is reported only if nothing was added; otherwise the reply grows by the bytes added |
| MirrorReaddir.PlusEntry | dpfs_uring/mirror_impl.c:512-523 | in plus mode, a record that does not fit has its lookup undone with `forget_one(…, 1)` |
| NfsInodes.NfsInode.constructor | virtionfs/inode.c:24-33 | a new inode has its fileid and no file handle |
| NfsInodes.Init | virtionfs/inode.c:39-49 | on success 8192 empty buckets, with the bucket array the only allocation; otherwise -1 |
| NfsInodes.Getsert | virtionfs/inode.c:83-103 | the inode filed under the fileid, or a new one with no file handle at the head of its bucket; afterwards `get` finds it, and no fileid is filed twice |
| NfsInodes.FreeChain | virtionfs/inode.c:54-61 | the inodes of one chain are freed in chain order |
| NfsInodes.FreeChains | virtionfs/inode.c:52-63 | every chain's inodes are freed, bucket by bucket |
| NfsInodes.TableBlocksOnChains | virtionfs/inode.c:51-67 | everything the chain walk frees is an inode on a chain |
| NfsInodes.OnChainsInTableBlocks | virtionfs/inode.c:51-67 | every inode on a chain is freed |
| NfsInodes.DestroyAsWritten | virtionfs/inode.c:51-67 | the inodes, the bucket array and the table struct are freed |
| NfsInodes.DestroyAsWrittenFreesForeign | virtionfs/inode.c:51-67 | as written, destroy frees the table struct, which init never allocated |
| NfsInodes.Destroy | virtionfs/inode.c:51-67 | corrected, destroy frees the inodes and the bucket array |
| NfsInodes.DestroyFreesOwned | virtionfs/inode.c:39-67 | corrected, a block is freed exactly when init allocated it or it is an inode on a chain |
| NfsSlots.FirstFree | dpfs_nfs/dpfs_nfs.c:318-326 | the first slot not in use; every slot before it is in use |
| NfsSlots.HighestInUse | dpfs_nfs/dpfs_nfs.c:334 | the last slot in use, or -1 |
| NfsSlots.Claimed | dpfs_nfs/dpfs_nfs.c:316-343 | the claimed slot is in use with its sequence id advanced by one modulo 2^32; the others are unchanged |
| NfsSlots.Freed | dpfs_nfs/dpfs_nfs.c:347-354 | the freed slot is no longer in use; nothing else changes |
| NfsSlots.InUseCountUpdate | dpfs_nfs/dpfs_nfs.c:316-354 | changing one slot's flag changes the in-use count by one |
| NfsSlots.ClaimCount | dpfs_nfs/dpfs_nfs.c:316-344 | claiming a free slot puts exactly one more slot in use |
| NfsSlots.ClaimThenFree | dpfs_nfs/dpfs_nfs.c:347-354 | claiming and then releasing a slot restores every flag, with that slot's sequence id advanced |
| NfsSlots.Session.constructor | dpfs_nfs/vnfs_connect.c:191-192 | `nslots` zeroed slots |
| NfsSlots.Session.ClaimSlot | dpfs_nfs/dpfs_nfs.c:316-332 | the first free slot is claimed and returned; nothing is claimed only when every slot is in use |
| NfsSlots.Session.HighestAsWritten | dpfs_nfs/dpfs_nfs.c:334-339 | as written, the loop reads one past the array and ends at the lowest slot in use |
| NfsSlots.LowestIsNotHighest | dpfs_nfs/dpfs_nfs.c:334-339 | with slots 0 and 1 in use, the lowest is 0 but the highest is 1 |
| NfsSlots.Session.Highest | dpfs_nfs/dpfs_nfs.c:334-339 | corrected, the highest slot in use |
| NfsSlots.Session.SequenceAsWritten | dpfs_nfs/dpfs_nfs.c:316-344 | claims the first free slot and sends its advanced sequence id, reporting the lowest slot in use as the highest |
| NfsSlots.Session.Sequence | dpfs_nfs/dpfs_nfs.c:316-344 | claims the first free slot and sends its advanced sequence id; the highest slot in use, reported, is at least the claimed one |
| NfsSlots.Session.Release | dpfs_nfs/dpfs_nfs.c:347-354 | the slot named in the reply is given back |
| NfsSlots.FailAfterClaimAsWritten | dpfs_nfs/dpfs_nfs.c:422-432 | as written, an error after the claim leaves one more slot in use |
| NfsSlots.FailAfterClaim | dpfs_nfs/dpfs_nfs.c:422-432 | corrected, the error path gives the slot back and every flag is as before |
| NfsXdr.Hton64 | virtionfs/nfs_v4.c:182-193 | the host's bytes of the result are the value's bytes most significant first, i.e. the result is `Swap64` of the value |
| NfsXdr.Swap64Involutive | virtionfs/nfs_v4.c:182-206 | `nfs_ntoh64(nfs_hton64(x)) == x` for every 64-bit value |
| NfsXdr.SwapOfMemory | virtionfs/nfs_v4.c:372-373 | eight wire bytes copied to memory and swapped are the big-endian hyper they encode |
| NfsXdr.Pntoh64 | virtionfs/nfs_v4.c:208-218 | the high word shifted up 32 bits or-ed with the low word is the big-endian value of the 8 bytes |
| NfsXdr.GetUgid | virtionfs/nfs_v4.c:220-236 | the loop gives the decimal value (mod 2^32) of an all-digit string, 0 for an empty one, and 65534 at the first non-digit |
| NfsXdr.DigitsDecimal | virtionfs/nfs_v4.c:220-236 | the decimal digits of `n` are all digits and read back as `n` |
| NfsXdr.IntLenSmall | virtionfs/nfs_v4.c:244-245 | a buffer shorter than 2^31 bytes has its own length as `int len` |
| NfsXdr.Get32Of | virtionfs/nfs_v4.c:250-253 | a 4-byte XDR word at the cursor is decoded and the cursor moves past it |
| NfsXdr.Get64Of | virtionfs/nfs_v4.c:255-258 | an XDR hyper at the cursor is decoded and the cursor moves past it |
| NfsXdr.GetTimeOf | virtionfs/nfs_v4.c:328-335 | an nfstime4 at the cursor gives its seconds and nanoseconds |
| NfsXdr.GetOwnerOf | virtionfs/nfs_v4.c:299-310 | an owner XDR string gives its id; the cursor moves past length, body and padding while `len` drops by all but the body unless the body is counted |
| NfsXdr.FixedParses | virtionfs/nfs_v4.c:249-298 | type, size, fileid, mode and numlinks decode to the values sent, 28 bytes on |
| NfsXdr.OwnersParse | virtionfs/nfs_v4.c:299-322 | owner and group decode to their ids, with the cursor past both strings |
| NfsXdr.UsageParses | virtionfs/nfs_v4.c:323-343 | space used, atime and ctime decode to the values sent, 32 bytes on |
| NfsXdr.HeadParses | virtionfs/nfs_v4.c:249-343 | everything up to the modify time decodes to what was sent, ending after it with `len` ahead by the uncounted bodies |
| NfsXdr.HeadFromStages | virtionfs/nfs_v4.c:249-343 | the head is the three stages' results read one after the other |
| NfsXdr.AttributesRoundTrip | virtionfs/nfs_v4.c:244-360 | decoding the encoded fattr4 values gives the attributes sent, typed mode, ceiling blocks, `rdev` 0 and `blksize` 8192, whatever follows |
| NfsXdr.AttributesFromParts | virtionfs/nfs_v4.c:344-359 | the `fuse_attr` is built from the head and the modify time |
| NfsXdr.AttributesAsWrittenReadPastEnd | virtionfs/nfs_v4.c:305-307 | as written, a list cut short by up to 12 bytes (no more than the string bodies) passes every check and is read past its end; counting the bodies refuses it |
| NfsXdr.TakeExact | virtionfs/nfs_v4.c:238-242 | with `len` the bytes left, a field is refused exactly when too few remain and never read past the end |
| NfsXdr.FixedExact | virtionfs/nfs_v4.c:249-298 | the fixed fields never read past the end and keep `len` equal to the bytes left |
| NfsXdr.OwnerExact | virtionfs/nfs_v4.c:299-310 | with the body counted, an owner string never reads past the end and keeps `len` exact |
| NfsXdr.OwnersExact | virtionfs/nfs_v4.c:299-322 | the same for owner and group together |
| NfsXdr.UsageExact | virtionfs/nfs_v4.c:323-343 | space used and the two times never read past the end and keep `len` exact |
| NfsXdr.AttributesNeverOverrun | virtionfs/nfs_v4.c:244-360 | with the string bodies taken off `len`, no buffer is ever read past its end |
| NfsXdr.TypedModeBits | virtionfs/nfs_v4.c:269-293 | the format bits of the result are the NF4 type's `S_IF*` bits and the permission bits are the decoded mode |
| NfsXdr.UnknownTypeKeepsMode | virtionfs/nfs_v4.c:291-292 | a type other than NF4REG..NF4FIFO leaves the mode as decoded |
| NfsXdr.BlocksCeil | virtionfs/nfs_v4.c:354 | `blocks` is the least count of 8192-byte blocks covering `space_used` |
| NfsXdr.BlocksWraps | virtionfs/nfs_v4.c:354 | within 8191 of 2^64 the 64-bit sum wraps and `blocks` is 0 |
| NfsXdr.GetMem64Of | virtionfs/nfs_v4.c:371-375 | a hyper copied out and swapped is the value sent, and the cursor moves 8 bytes |
| NfsXdr.StatfsFromFields | virtionfs/nfs_v4.c:362-413 | the statfs result is built from the six fields read one after the other |
| NfsXdr.StatfsRoundTrip | virtionfs/nfs_v4.c:362-413 | decoding the encoded values gives files free, files total and max name as sent, the space values in 8192-byte blocks, and `bsize` = `frsize` = 8192 |
| NfsXdr.StatfsShortExactly | virtionfs/nfs_v4.c:362-413 | the decoder fails exactly when fewer than 44 bytes are given and never reads past the end |
| NfsXdr.FileidRoundTrip | virtionfs/nfs_v4.c:415-423 | the fileid sent is the one decoded, whatever follows |
| NfsXdr.FileidShortExactly | virtionfs/nfs_v4.c:415-423 | a buffer shorter than 8 bytes is refused, and nothing is read past the end |
| NfsXdr.FindOp | virtionfs/nfs_v4.c:140-154 | -1 exactly when no result has the op; otherwise the index of the first result with it |
| NfsXdr.ReplyErrorAsWrittenPositive | dpfs_nfs/dpfs_nfs.c:372 | as written, a status past NFS4ERR_MLINK is answered with the positive ENOSYS |
| NfsXdr.ReplyError | virtionfs/nfs_v4.c:39-46 | corrected, every failure status gives a negative error; statuses up to NFS4ERR_MLINK give what the source gives |
| NfsXdr.PrintIntLength | virtionfs/nfs_v4.c:73-74 | `"%d"` of an id is 1 to 11 characters |
| NfsXdr.IdFieldSize | virtionfs/nfs_v4.c:72-82 | an id field with its length word and padding takes 8 to 16 bytes, so two fit in the 64 bytes after the mode |
| NfsXdr.XdrStringAligned | virtionfs/nfs_v4.c:82 | a string field starting on a word boundary ends on one |
| NfsXdr.PadRound | virtionfs/nfs_v4.c:81-82 | `(i + 3) & ~3` after `i += 4 + l` lands just past the XDR padding |
| NfsXdr.PutIdOnZeros | virtionfs/nfs_v4.c:73-81 | writing the digits with their terminating zero and then the length word over zeroed memory leaves exactly the XDR string followed by zeros |
| NfsXdr.PutId | virtionfs/nfs_v4.c:72-82 | one id written at a word-aligned offset: the buffer becomes what was there plus the id's XDR string, zeros after it, the offset moving past it |
| NfsXdr.FillCreateAttrs | virtionfs/nfs_v4.c:51-96 | -ENOMEM and nothing when the allocation fails; otherwise the mode and both id strings followed by zeros, with the reported length 68 as written or the bytes written when corrected |
| NfsXdr.IdStringRoundTrip | virtionfs/nfs_v4.c:73-74 | an id below 2^31 printed with `"%d"` reads back as the same id |
| NfsXdr.IdStringNegative | virtionfs/nfs_v4.c:73-74 | an id of 2^31 or more prints with a minus sign and reads back as 65534 |
| NfsXdr.ModeDecode | virtionfs/nfs_v4.c:66-70 | the mode word at the head of the list decodes to `S_IFREG` with rw for owner and group |
| NfsXdr.ModeAndStringsDecode | virtionfs/nfs_v4.c:51-96 | after the mode, owner and group decode to the strings' ids and the cursor ends after them |
| NfsXdr.CreateAttrsDecode | virtionfs/nfs_v4.c:51-96 | corrected, with the bytes written as the length, the mode and both ids decode and nothing is left over |
| NfsXdr.CreateAttrsAsWrittenUnread | virtionfs/nfs_v4.c:57 | as written, the 68 bytes reported leave at least 32 zero bytes after the last attribute |
| NfsClient.CompoundError | dpfs_nfs/dpfs_nfs.c:486-498 | corrected, a callback's error is 0 exactly when both the RPC and the compound succeeded, -EREMOTEIO for a failed RPC, never positive |
| NfsClient.Sent | dpfs_nfs/dpfs_nfs.c:715-790 | a handler defers (EWOULDBLOCK) exactly when the callback data, the node and the send all succeed; otherwise it returns 0 with -ENOMEM, -ENOENT or -EREMOTEIO in that order of checks |
| NfsClient.CloneFh | virtionfs/nfs_v4.c:28-37 | the handle length is copied whether or not the allocation succeeds, and a failed allocation is -ENOMEM |
| NfsClient.Release | dpfs_nfs/dpfs_nfs.c:508-576 | an unknown node is -ENOENT; the open count drops by one, and CLOSE goes out only when the 32-bit count before the drop was at most 1 |
| NfsClient.ReleaseCb | dpfs_nfs/dpfs_nfs.c:479-506 | the slot is released; a failure sets the mapped error, a successful CLOSE drops the open file handle, and the open count is untouched |
| NfsClient.OpenAsWritten | dpfs_nfs/dpfs_nfs.c:972-1056 | as written, an open file is counted and answered and the handler then still sends OPEN, ending like any other send |
| NfsClient.Open | dpfs_nfs/dpfs_nfs.c:985-992 | corrected, an open file is counted once more and answered at once with no compound; an unopened one sends OPEN |
| NfsClient.OpenCb | dpfs_nfs/dpfs_nfs.c:918-970 | the slot is released; after a successful compound the open is counted and the handle length kept before the clone can fail, and an OPEN_CONFIRM request answers -EREMOTEIO after the reply length was added |
| NfsClient.OpenedAsWritten | dpfs_nfs/dpfs_nfs.c:942 | as written, a successful open of an open file raises the count by two, of a closed file by one |
| NfsClient.OpensCount | dpfs_nfs/dpfs_nfs.c:985-992 | corrected, `k` opens raise the count by `k` and send no CLOSE |
| NfsClient.OpensCountAsWritten | dpfs_nfs/dpfs_nfs.c:985-992 | as written, `k` opens of an open file raise the count by `2k` |
| NfsClient.ReleasesCount | dpfs_nfs/dpfs_nfs.c:520-525 | `k` releases lower the count by `k` and send CLOSE only for the release that drops the last open |
| NfsClient.BalancedRunClosesOnce | dpfs_nfs/dpfs_nfs.c:520-525 | corrected, as many releases as opens leave the file closed with exactly one CLOSE sent |
| NfsClient.BalancedRunAsWrittenNeverCloses | dpfs_nfs/dpfs_nfs.c:985-992 | as written, two or more opens followed by as many releases never send CLOSE and leave `k - 1` opens counted |
| NfsClient.IovecWriteBuf | dpfs_nfs/dpfs_nfs.c:795-814 | the bytes copied are the lesser of the data and the iovec capacity; the iovecs keep their lengths and hold the data from the start, in order, the rest unchanged |
| NfsClient.ReadCb | dpfs_nfs/dpfs_nfs.c:816-855 | the slot is released; on success with at least one iovec the data is copied in and the copied count added to the length |
| NfsClient.MaxWriteSize | dpfs_nfs/dpfs_nfs.c:759 | the request maximum less 4096, wrapping modulo 2^32 below 4096 |
| NfsClient.EmitWrites | dpfs_nfs/dpfs_nfs.c:757-769 | the WRITEs built are the split: iovec `j` at the base offset plus the lengths before it, up to the limit, six WRITEs or the last iovec; `offset` is the bytes they carry |
| NfsClient.SplitUnique | dpfs_nfs/dpfs_nfs.c:760-761 | the split of an iovec array is unique |
| NfsClient.SplitContiguous | dpfs_nfs/dpfs_nfs.c:763-767 | each WRITE starts where the previous one ends in the file |
| NfsClient.VwriteAsWritten | dpfs_nfs/dpfs_nfs.c:703-791 | as written, a sent compound announces two operations more than there are iovecs, whatever the split filled |
| NfsClient.Vwrite | dpfs_nfs/dpfs_nfs.c:735-738 | corrected, a sent compound announces SEQUENCE, PUTFH and exactly the WRITEs filled, at most NFS4_MAX_OPS |
| NfsClient.VwriteAsWrittenAnnouncesUnfilled | dpfs_nfs/dpfs_nfs.c:735-738 | as written, seven one-byte iovecs fill six WRITEs while nine operations are announced |
| NfsClient.SumWritten | dpfs_nfs/dpfs_nfs.c:685-688 | the sum of the WRITE counts, modulo 2^32 |
| NfsClient.WriteCb | dpfs_nfs/dpfs_nfs.c:660-697 | the slot is released; on success the size is the 32-bit sum of the counts and the write reply is added to the length |
| NfsClient.FullWritesReportSent | dpfs_nfs/dpfs_nfs.c:685-689 | when every WRITE is written in full, the size reported is the bytes the split sent |
| NfsClient.AttrCb | dpfs_nfs/dpfs_nfs.c:1414-1458 | the slot is released; decodable attributes give the attribute reply for the protocol's size, others -EREMOTEIO |
| NfsClient.StatfsCbAsWritten | dpfs_nfs/dpfs_nfs.c:1193-1228 | as written, a successful compound sets the length to the statfs payload alone, also when decoding failed |
| NfsClient.StatfsCb | dpfs_nfs/dpfs_nfs.c:1218-1222 | corrected, the statfs payload is added to the header, and only when it decoded |
| NfsClient.StatfsAsWrittenDropsHeader | dpfs_nfs/dpfs_nfs.c:1221-1222 | as written, the length is 16 bytes short of header plus payload |
| NfsClient.CountLookup | dpfs_nfs/dpfs_nfs.c:1335-1346 | one more lookup is counted; an inode without a handle gets GETFH's, and only that clone can fail |
| NfsClient.LookupCb | dpfs_nfs/dpfs_nfs.c:1290-1355 | the slot is released; decoded attributes find or create the inode with their fileid, count the lookup and keep a handle, and the entry names that inode; failures are -EREMOTEIO or -ENOMEM |
| ExportPath.Slashes | dpfs_nfs/vnfs_connect.c:124-126 | the count of '/' characters is at most the length, and zero exactly when the path holds none |
| ExportPath.CountSlashes | dpfs_nfs/vnfs_connect.c:124-126 | the counting loop returns the number of '/' characters |
| ExportPath.Chopped | dpfs_nfs/vnfs_connect.c:116-122 | the copy is a prefix of the export, one character shorter exactly when the export ends in '/' |
| ExportPath.SkipSlashes | dpfs_nfs/vnfs_connect.c:140 | what `strtok` starts from is no longer than the text and does not begin with '/' |
| ExportPath.SkipSlashesSuffix | dpfs_nfs/vnfs_connect.c:140 | skipping leaves a suffix, and every character skipped is '/' |
| ExportPath.TokenLen | dpfs_nfs/vnfs_connect.c:140 | a token ends at the end of the text or at a '/' |
| ExportPath.TokenLenSlashFree | dpfs_nfs/vnfs_connect.c:140 | a token holds no '/' |
| ExportPath.NextToken | dpfs_nfs/vnfs_connect.c:140-143 | a NULL token leaves nothing to resume from; a token is non-empty and the rest is shorter than the text |
| ExportPath.NextTokenSpec | dpfs_nfs/vnfs_connect.c:140-143 | `strtok` returns NULL exactly when only slashes remain, and otherwise a path component |
| ExportPath.TokensComponents | dpfs_nfs/vnfs_connect.c:140-143 | every token successive `strtok` calls return is a non-empty component without '/' |
| ExportPath.Lookups | dpfs_nfs/vnfs_connect.c:141-144 | the loop's LOOKUPs number exactly the iterations |
| ExportPath.LookupsAt | dpfs_nfs/vnfs_connect.c:141-144 | the j-th LOOKUP names the j-th token, or NULL once the tokens run out |
| ExportPath.RootCompound | dpfs_nfs/vnfs_connect.c:136-146 | the compound for n names has n + 3 operations |
| ExportPath.FillLookups | dpfs_nfs/vnfs_connect.c:140-144 | the loop stops at its bound (or at once when the bound is below the start) and the array is the old one with the slots between holding the LOOKUPs of successive tokens |
| ExportPath.StrtokAfterToken | dpfs_nfs/vnfs_connect.c:140-143 | the token of the j-th `strtok` call is the j-th token of the path, or NULL past the last |
| ExportPath.StrtokAfterPending | dpfs_nfs/vnfs_connect.c:140-143 | after j calls, the tokens still to come are the path's tokens from the j-th on |
| ExportPath.FilledSplice | dpfs_nfs/vnfs_connect.c:141-144 | the filled array is the old prefix, the LOOKUPs, then the old suffix |
| ExportPath.TokensSkipSlash | dpfs_nfs/vnfs_connect.c:140-143 | a leading '/' changes no token |
| ExportPath.SlashesAppend | dpfs_nfs/vnfs_connect.c:124-126 | a slash-free prefix adds nothing to the count |
| ExportPath.JoinSlashes | dpfs_nfs/vnfs_connect.c:124-126 | the path "/c0/…/cn" has one slash per component |
| ExportPath.TokenLenPrefix | dpfs_nfs/vnfs_connect.c:140-143 | a component followed by a '/' or the end is one token |
| ExportPath.TokensCons | dpfs_nfs/vnfs_connect.c:140-143 | a component followed by a '/' or the end is the first token, then the tokens of the rest |
| ExportPath.JoinTokens | dpfs_nfs/vnfs_connect.c:140-143 | the tokens of "/c0/…/cn" are exactly the components |
| ExportPath.JoinLast | dpfs_nfs/vnfs_connect.c:120-122 | "/c0/…/cn" does not end in '/' |
| ExportPath.ChoppedJoin | dpfs_nfs/vnfs_connect.c:116-122 | chopping "/c0/…/cn" or "/c0/…/cn/" gives "/c0/…/cn" |
| NfsConnect.RootOpsAsWritten | dpfs_nfs/vnfs_connect.c:116-146 | as written, the compound has 3 + the slash count of the chopped export operations |
| NfsConnect.RootLookupAsWritten | dpfs_nfs/vnfs_connect.c:112-146 | as written, the array holds SEQUENCE, PUTROOTFH, one LOOKUP per counted slash naming successive tokens, and GETFH |
| NfsConnect.BuildCompound | dpfs_nfs/vnfs_connect.c:129-146 | an array of count + 3 holding SEQUENCE, PUTROOTFH, `count` LOOKUPs of successive tokens, and GETFH |
| NfsConnect.RootOpsAsWrittenOnPaths | dpfs_nfs/vnfs_connect.c:116-146 | for an export spelt "/c0/…/cn", with or without one trailing '/', the compound as written walks down exactly the components |
| NfsConnect.RootOpsAsWrittenNullLookup | dpfs_nfs/vnfs_connect.c:124-144 | as written, "/a//b" sends LOOKUP a, LOOKUP b and a LOOKUP of NULL |
| NfsConnect.EmptyComponentPath | dpfs_nfs/vnfs_connect.c:116-143 | "/a//b" is not chopped, has three slashes and two tokens |
| NfsConnect.RootOpsAsWrittenRelative | dpfs_nfs/vnfs_connect.c:124-144 | as written, "a/b" looks up only a |
| NfsConnect.RelativePath | dpfs_nfs/vnfs_connect.c:116-143 | "a/b" is not chopped, has one slash and two tokens |
| NfsConnect.SlashedComponent | dpfs_nfs/vnfs_connect.c:124-143 | "/c" has one slash and the one token c |
| NfsConnect.RootLookup | dpfs_nfs/vnfs_connect.c:112-146 | corrected, the compound is SEQUENCE, PUTROOTFH, one LOOKUP per token of the chopped export, GETFH |
| NfsConnect.CountTokens | dpfs_nfs/vnfs_connect.c:140-143 | the `strtok` loop counts exactly the tokens |
| NfsConnect.RootCompoundNamesTokens | dpfs_nfs/vnfs_connect.c:140-144 | in the corrected compound every LOOKUP names a path component, never NULL |
| NfsConnect.Vnfs.constructor | dpfs_nfs/vnfs_connect.c:305-309 | the boot starts at connection 0 with nothing saved |
| NfsConnect.Vnfs.InitConnection | dpfs_nfs/vnfs_connect.c:305-360 | the connection is zeroed with its id; it fails with -1 and SHOULD_CLOSE exactly when the context, the mount or the thread fails, and otherwise EXCHANGE_ID goes out with the default verifier |
| NfsConnect.Vnfs.ConnUp | dpfs_nfs/vnfs_connect.c:19-30 | the connection becomes ESTABLISHED, the counter moves on, the next connection starts while any remain, and the boot invariant holds |
| NfsConnect.Vnfs.ExchangeIdCb | dpfs_nfs/vnfs_connect.c:226-271 | a failure changes nothing; connection 0 keeps the reply and creates a session; later ones create a session only when trunking is allowed |
| NfsConnect.Vnfs.CreateSessionCb | dpfs_nfs/vnfs_connect.c:159-200 | corrected, the session gets `ca_maxrequests` zeroed slots; connection 0 sends the root lookup, later connections come up |
| NfsConnect.Vnfs.LookupRootCb | dpfs_nfs/vnfs_connect.c:82-110 | a fresh root inode with GETFH's handle is filed under FUSE_ROOT_ID, then SEQUENCE and RECLAIM_COMPLETE go out |
| NfsConnect.Vnfs.ReclaimCompleteCb | dpfs_nfs/vnfs_connect.c:32-57 | connection 0 comes up exactly when the status is NFS4_OK or NFS4ERR_COMPLETE_ALREADY |
| VnfsConnect.RootOpsAsWritten | virtionfs/vnfs_connect.c:64-98 | as written, the compound has 3 + the slash count of the unchopped export operations |
| VnfsConnect.BuildAsWritten | virtionfs/vnfs_connect.c:80-95 | as written, the array of count + 3 holds SEQUENCE, PUTROOTFH, count - 1 LOOKUPs (none when count is 0), GETFH, and one unfilled slot when count > 0 |
| VnfsConnect.CountedOps | virtionfs/vnfs_connect.c:77-95 | as written, an export with count ≥ 1 slashes gives count - 1 LOOKUPs, GETFH and an unfilled slot |
| VnfsConnect.PathShape | virtionfs/vnfs_connect.c:68-77 | "/c0/…/cn" is not chopped, has one slash per component and the components as tokens |
| VnfsConnect.RootOpsAsWrittenDropsLast | virtionfs/vnfs_connect.c:77-95 | as written, "/c0/…/cn" never looks up cn, an unfilled operation follows GETFH, and the compound differs from the intended one |
| VnfsConnect.RootOpsAsWrittenTrailingSlash | virtionfs/vnfs_connect.c:68-95 | as written, "/c0/…/cn/" looks up every component and still sends an unfilled operation after GETFH |
| VnfsConnect.SlashesAppendSlash | virtionfs/vnfs_connect.c:77 | a trailing '/' adds one to the count |
| VnfsConnect.ConnVerifier | virtionfs/vnfs_connect.c:259-263 | the intended verifier is the default one with its first byte `conn_cntr` modulo 256 |
| VnfsConnect.ConnVerifiersDiffer | virtionfs/vnfs_connect.c:259-263 | intended, connections below 256 present pairwise different verifiers |
| VnfsConnect.Destroyed | virtionfs/vnfs_connect.c:274-281 | a destroyed context is no longer live, and a NULL or freed one is left as it is |
| VnfsConnect.VirtioNfs.constructor | virtionfs/vnfs_connect.c:283-284 | the boot starts at connection 0 with zeroed connections and the default verifier |
| VnfsConnect.VirtioNfs.Destroy | virtionfs/vnfs_connect.c:274-281 | the connection loses its RPC context, its libnfs context is freed but kept, the main context's thread stops, and the state is never stored |
| VnfsConnect.VirtioNfs.ExchangeIdAsWritten | virtionfs/vnfs_connect.c:249-272 | as written, the default verifier is overwritten with the stack bytes, and those go out whatever `conn_cntr` is |
| VnfsConnect.VirtioNfs.ExchangeId | virtionfs/vnfs_connect.c:259-263 | corrected, the connection's own verifier goes out and the default one is left alone |
| VnfsConnect.VirtioNfs.NewConnectionAsWritten | virtionfs/vnfs_connect.c:283-328 | as written, a zeroed record fails whatever libnfs does, a stale pointer carries a failed init into a NULL context, and a good start mounts the stored export and sends EXCHANGE_ID |
| VnfsConnect.VirtioNfs.NewConnection | virtionfs/vnfs_connect.c:283-328 | corrected, the start fails exactly when the new context, the mount or the thread fails, and otherwise sends the connection's own verifier |
| VnfsConnect.VirtioNfs.CountSlashesConsuming | virtionfs/vnfs_connect.c:76-77 | the count is the slashes of the stored export, which is empty afterwards |
| VnfsConnect.VirtioNfs.LookupTrueRootFhAsWritten | virtionfs/vnfs_connect.c:64-108 | as written, the stored export is consumed and the compound is `RootOpsAsWritten` of it |
| VnfsConnect.VirtioNfs.LookupTrueRootFh | virtionfs/vnfs_connect.c:64-108 | corrected, the export is kept and the compound walks down its components |
| VnfsConnect.VirtioNfs.BootDone | virtionfs/vnfs_connect.c:18-26 | corrected, the counter moves on and a new connection starts exactly while connections remain; the boot invariant holds |
| VnfsConnect.VirtioNfs.ExchangeIdCb | virtionfs/vnfs_connect.c:215-247 | a failure destroys the connection; connection 0 saves the reply and creates the session; later ones bind to the session only when trunking is allowed |
| VnfsConnect.VirtioNfs.CreateSessionCb | virtionfs/vnfs_connect.c:110-134 | corrected, a failure destroys the connection; otherwise the session id is saved and the root lookup goes out |
| VnfsConnect.VirtioNfs.LookupRootCb | virtionfs/vnfs_connect.c:35-62 | a fresh root inode with GETFH's handle is filed under FUSE_ROOT_ID and connection 0 is done |
| VnfsConnect.VirtioNfs.BindConnCb | virtionfs/vnfs_connect.c:158-188 | a failure or a binding without the fore channel destroys the connection; the saved session id finishes it; another id leaves the boot stalled |
| Nfs3Attr.ToFuseAttr | virtionfs/helpers.c:10-26 | `blocks`, `rdev` and `blksize` are always 0 |
| Nfs3Attr.ToFuseAttrRoundTrip | virtionfs/helpers.c:11-23 | `ino` is the fileid; size, both halves of the three times, link count, uid and gid come through unchanged and the mode keeps its 32-bit pattern: the record is recovered from the FUSE attributes plus the type, space used, device numbers and fsid |
| Nfs3Attr.ToFuseAttrSame | virtionfs/helpers.c:10-26 | two records give the same FUSE attributes exactly when their modes have the same bits and they differ only in the fields the mapping drops |
| VirtioNfsOps.SetattrArgsAsWritten | virtionfs/virtionfs.c:90-107 | as written, a flagged time with its `_NOW` bit goes out with `set_it` 1 and `nseconds` UTIME_NOW |
| VirtioNfsOps.SetattrAsWrittenApplies | virtionfs/virtionfs.c:69-107 | as written, each flagged mode, uid, gid and size reaches the server and every unflagged field is left alone, but every flagged time becomes the server's clock |
| VirtioNfsOps.SetattrAsWrittenDropsTime | virtionfs/virtionfs.c:90-98 | as written, an explicit access time that differs from the server's clock is not what the file ends with |
| VirtioNfsOps.SetattrArgs | virtionfs/virtionfs.c:69-107 | corrected, an explicit time is sent as SET_TO_CLIENT_TIME with the given time |
| VirtioNfsOps.SetattrArgsApply | virtionfs/virtionfs.c:69-107 | corrected, the server ends with exactly the attributes the FUSE SETATTR asks for: flagged fields from the `stat`, `_NOW` times from its clock, the rest unchanged |
| VirtioNfsOps.Nfs3Error | virtionfs/virtionfs.c:144 | corrected, every NFS error is a negative errno, and the codes up to NFS3ERR_MLINK keep their value |
| VirtioNfsOps.VirtioNfs.SetattrCb | virtionfs/virtionfs.c:29-56 | post-op attributes are converted and given the timeout; an NFS error or missing attributes are -ENOENT; the request completes once, with an I/O error only when the RPC failed |
| VirtioNfsOps.VirtioNfs.SetattrAsWritten | virtionfs/virtionfs.c:58-113 | as written, no chunk is -ENOMEM; otherwise the chunk keeps whatever it pointed at, a failed send stores `-res`, and a sent request is completed twice |
| VirtioNfsOps.VirtioNfs.Setattr | virtionfs/virtionfs.c:58-113 | corrected, the chunk points at this request, the intended arguments go out, and the request is completed exactly once |
| VirtioNfsOps.StaleChunk | virtionfs/virtionfs.c:63-109 | as written, a chunk reused after a LOOKUP sends the SETATTR callback to the LOOKUP's request |
| VirtioNfsOps.VirtioNfs.LookupCbAsWritten | virtionfs/virtionfs.c:122-153 | as written, a found name fills the entry; missing attributes are -ENOENT; an NFS error is stored as the positive status; one completion |
| VirtioNfsOps.VirtioNfs.LookupCb | virtionfs/virtionfs.c:122-153 | corrected, an NFS error is a negative errno; the rest as written |
| VirtioNfsOps.VirtioNfs.FillEntry | virtionfs/virtionfs.c:133-139 | the entry carries the converted attributes, the fileid as node id, generation 0 and the timeout for both validities |
| VirtioNfsOps.VirtioNfs.LookupAsWritten | virtionfs/virtionfs.c:155-180 | as written, the chunk is filled and LOOKUP built; a failed send stores `-res`; the return is 0, so a sent request is completed twice |
| VirtioNfsOps.VirtioNfs.Lookup | virtionfs/virtionfs.c:155-180 | corrected, the request is completed exactly once |
| VirtioNfsOps.VirtioNfs.GetattrCbAsWritten | virtionfs/virtionfs.c:189-209 | as written, only `ino` of the attributes is written and the validity is untouched; an NFS error is stored as the positive status |
| VirtioNfsOps.VirtioNfs.GetattrCb | virtionfs/virtionfs.c:189-209 | corrected, the whole attributes and their timeout are written and an NFS error is a negative errno |
| VirtioNfsOps.VirtioNfs.GetattrAsWritten | virtionfs/virtionfs.c:213-237 | as written, the call carries the address of the local pointer instead of the chunk, and a failed send returns EWOULDBLOCK, so that request is never completed |
| VirtioNfsOps.VirtioNfs.Getattr | virtionfs/virtionfs.c:213-237 | corrected, the chunk is the callback data and the request is completed exactly once |
| VirtioNfsOps.InitWant | virtionfs/virtionfs.c:255-268 | EXPORT_SUPPORT and FLOCK_LOCKS are wanted when offered, WRITEBACK_CACHE when offered and the timeout is nonzero, the splice flags never; `want` stays within `capable` |
| VirtioNfsOps.InitWantIsHook | virtionfs/virtionfs.c:255-268 | `init` is an INIT hook adding the offered capabilities above and dropping the splice flags |
| VirtioNfsOps.InitWantKeepsOthers | virtionfs/virtionfs.c:255-268 | every other capability keeps its place in `want` |
| VirtioNfsOps.InitWants | virtionfs/virtionfs.c:255-268 | the in-place bit updates leave `want` as `InitWant` says |
| VirtioNfsOps.InitAsWrittenHidesThreadFailure | virtionfs/virtionfs.c:287-295 | as written, a failed service thread start after a good mount answers INIT without an error and never asks for the root handle |
| VirtioNfsOps.InitResultAsWritten | virtionfs/virtionfs.c:270-316 | as written, INIT ends as the corrected `init` except when the mount fails with a return other than -1 or the service thread does not start; those are answered without an error and never ask for the root handle |
| VirtioNfsOps.InitResultOf | virtionfs/virtionfs.c:270-316 | corrected, INIT succeeds exactly when every step does; `exit(10)` exactly when only the send fails; any other failure stores a negative error |
| VirtioNfsOps.InitAsWritten | virtionfs/virtionfs.c:251-317 | as written, the capabilities as `InitWant`, the outcome as `InitResultAsWritten`, and 0 returned |
| VirtioNfsOps.Init | virtionfs/virtionfs.c:251-317 | corrected, the capabilities as `InitWant` and the outcome as `InitResultOf` |
| Mpool.Pool.constructor | virtionfs/mpool.h:21-25 | a pool record starts with an empty free list and nothing handed out |
| Mpool.Pool.Free | virtionfs/mpool.c:39-43 | the chunk becomes the head and its `next` the old head; giving back a chunk that was handed out keeps the free list duplicate-free |
| Mpool.Pool.TakeHeadAsWritten | virtionfs/mpool.c:14-18 | as written, the head is returned but leaves the list only when it has a successor |
| Mpool.Pool.TakeHead | virtionfs/mpool.c:14-18 | corrected, the head is returned and always leaves the list, and it was not handed out before |
| Mpool.Pool.Refill | virtionfs/mpool.c:20-29 | up to `alloc_size - 1` fresh chunks are pushed, stopping at the first failing `malloc` |
| Mpool.Pool.AllocAsWritten | virtionfs/mpool.c:13-37 | as written, the head is returned and kept when it is the last one; a refill failing at once gives NULL, or with `alloc_size` 1 a self-call that never ends; a full refill returns one more fresh chunk and leaves `alloc_size - 1` on the list |
| Mpool.Pool.Alloc | virtionfs/mpool.c:13-37 | corrected, the chunk returned leaves the list and was not out before, and NULL comes exactly when the pool is empty and `malloc` fails at once |
| Mpool.Pool.InitAsWritten | virtionfs/mpool.c:45-57 | as written, 0 exactly when one allocation succeeds, with `alloc_size` chunks on the list after a full refill; with one successful `malloc` the list holds the same chunk twice |
| Mpool.Pool.Init | virtionfs/mpool.c:45-57 | corrected, 0 exactly when one allocation succeeds, leaving a valid non-empty free list; -1 leaves it empty |
| Mpool.Pool.Destroy | virtionfs/mpool.c:60-67 | every chunk on the free list is freed, in list order, and no chunk still handed out is |
| Mpool.FreeThenAlloc | virtionfs/mpool.c:13-43 | a chunk given back is the next one handed out, and the pool is left as before (last in, first out) |
| Mpool.DoubleHandout | virtionfs/mpool.c:14-32 | as written, a refill that gets one chunk makes two allocations in a row return the same chunk |
| Mpool.NoMemorySizeOne | virtionfs/mpool.c:30-32 | with `alloc_size` 1 and `malloc` failing, the allocation as written never returns; corrected it gives NULL |
| IntrusiveList.ListHead.constructor | virtiofuser_aio/list.h:14-17 | a node starts with both links unset |
| IntrusiveList.RingLinks | virtiofuser_aio/list.h:14-50 | on a ring every node's `next` and `prev` are nodes of the ring that link back to it (`x->next->prev == x`, `x->prev->next == x`) |
| IntrusiveList.InitListHead | virtiofuser_aio/list.h:19-22 | both links point at the node, which is a ring of one |
| IntrusiveList.ListEmptyIff | virtiofuser_aio/list.h:24-26 | `list_empty` holds exactly when the ring holds the head alone |
| IntrusiveList.ListAdd | virtiofuser_aio/list.h:28-34 | `prev->next == e == next->prev`, `e` links to both, and the ring holds `e` right after `prev` |
| IntrusiveList.InsertAfterRing | virtiofuser_aio/list.h:28-34 | the four stores of `list_add` leave a ring, without repeats, of the old nodes with `e` inserted |
| IntrusiveList.ListAddHead | virtiofuser_aio/list.h:36-38 | `e` becomes `head->next`, the first node after the head, the rest of the ring following it |
| IntrusiveList.ListAddTail | virtiofuser_aio/list.h:40-42 | `e` becomes `head->prev`, the last node of the ring |
| IntrusiveList.ListDel | virtiofuser_aio/list.h:44-50 | the entry's neighbours link to each other, the entry keeps its own links, and the ring loses exactly the entry (a ring of one stays as it was) |
| IntrusiveList.RemoveAtRing | virtiofuser_aio/list.h:44-50 | the two stores of `list_del` leave a ring of the other nodes |
| IntrusiveList.AddTailThenDel | virtiofuser_aio/list.h:40-50 | deleting the node just added at the tail gives back the ring as it was |
| KvFs.Fnv1aAppend | dpfs_kv/main.cpp:46-49 | hashing a concatenation whose first part has no terminator continues from the hash of the first part |
| KvFs.Fnv1aStopsAtNul | dpfs_kv/main.cpp:46-49 | the bytes after the first zero byte never change the hash |
| KvFs.Fnv1aIsStandard | dpfs_kv/main.cpp:40-49 | for a name of 7-bit bytes the recursive hash equals the standard FNV-1a 64-bit hash (XOR each octet, then multiply by the prime modulo 2^64) from the offset basis |
| KvFs.SevenBitPrefix | dpfs_kv/main.cpp:46-49 | a 7-bit name splits into a 7-bit prefix and a last byte that is neither zero nor above 0x7f |
| KvFs.Fnv1aLast | dpfs_kv/main.cpp:46-49 | the last byte of a name without terminator is folded in by one final round |
| KvFs.SevenBit | dpfs_kv/main.cpp:48 | a byte below 0x80 enters the XOR unchanged, since sign extension of a signed `char` does not touch it |
| KvFs.InodeRead | dpfs_kv/main.cpp:86-97 | a read finds an object exactly when the call succeeds and the key is in the inode table, and then gives that object |
| KvFs.NewInode | dpfs_kv/main.cpp:509-520 | the inode `mknod` writes is a regular file of size 0 named as requested, whose node id is the hash of its name |
| KvFs.RootStat | dpfs_kv/main.cpp:392-403 | the root's attributes carry node id 1 and the directory file type |
| KvFs.BlocksCover | dpfs_kv/main.cpp:467-471 | for a size from 0 up, the block count is the fewest 512-byte blocks that hold it |
| KvFs.MaskedFields | dpfs_kv/main.cpp:454-471 | mode, uid, gid and size each take the new value exactly when their flag is set, the block count follows a new size, and no other field changes |
| KvFs.MaskedIdempotent | dpfs_kv/main.cpp:454-471 | applying the same SETATTR twice gives what applying it once does |
| KvFs.LookupReplyAsWritten | dpfs_kv/main.cpp:76-106 | as written, a found object is sent with validity times that were never set, because an inner entry shadows the one whose times are 1 |
| KvFs.LookupReply | dpfs_kv/main.cpp:76-106 | corrected, every entry sent has validity times of 1; no entry is sent exactly when the call fails or the object has the wrong size, and then the header carries -EIO |
| KvFs.Lookup | dpfs_kv/main.cpp:375-383 | LOOKUP always returns `EWOULDBLOCK`, the request completing with the read of the name's hash |
| KvFs.LookupAsWritten | dpfs_kv/main.cpp:375-383 | the same, with the reply as written |
| KvFs.LookupAsWrittenUninitialisedTimeouts | dpfs_kv/main.cpp:97-101 | as written, every lookup of an existing name sends that file's attributes with unset validity times |
| KvFs.Getattr | dpfs_kv/main.cpp:385-413 | the root is answered at once with its fixed attributes; any other node returns `EWOULDBLOCK`, and its read gives the stored attributes, attributes with only node id 0 set for a missing object, or -EIO with no attributes when the call fails |
| KvFs.Statfs | dpfs_kv/main.cpp:415-434 | the longest name announced is the size of the inode's name field |
| KvFs.MknodCheckAsWritten | dpfs_kv/main.cpp:493-509 | as written, a request is accepted exactly when its parent is the root, its type is a regular file and the name with its terminator fits the name field; a longer name overruns the field |
| KvFs.MknodCheck | dpfs_kv/main.cpp:493-509 | corrected, the same checks with a name that does not fit refused instead |
| KvFs.NameMaxOverflows | dpfs_kv/main.cpp:509 | a name as long as STATFS announces overruns the field as written and is refused with -ENAMETOOLONG corrected |
| KvFs.MknodChecksAgree | dpfs_kv/main.cpp:493-509 | the two checks agree on every request except those whose name overruns the field, and those are exactly the ones the corrected check refuses as too long |
| KvFs.RamCloud.constructor | dpfs_kv/main.cpp:726-727 | the data and inode tables the backend creates start empty |
| KvFs.RamCloud.MknodWith | dpfs_kv/main.cpp:488-541 | each refusal stores its own error (-EIO for a parent other than the root, -EINVAL for a type other than a regular file) and leaves the table alone; an accepted request writes the new inode under the name's hash and replies with its entry, or stores -EIO when the write fails |
| KvFs.RamCloud.MknodAsWritten | dpfs_kv/main.cpp:488-541 | as written, the run stops at an overrun exactly when the checks pass with a name too long for the field; otherwise it behaves as the corrected handler does |
| KvFs.RamCloud.Mknod | dpfs_kv/main.cpp:488-541 | corrected, a refused request or a failed write changes nothing and replies with an error only; an accepted one writes the new inode and replies with its entry |
| KvFs.RamCloud.Setattr | dpfs_kv/main.cpp:436-486 | a failed read is -EIO and a missing inode -ENOENT; a failed write-back is -EIO; otherwise the inode is replaced by the masked attributes and they are replied; every error leaves the table alone |
| KvFs.RamCloud.Unlink | dpfs_kv/main.cpp:646-666 | each table loses the name's hash when its removal succeeds, and the reply carries -EIO when either fails |
| KvFs.MknodThenLookup | dpfs_kv/main.cpp:488-541 | a file made by MKNOD is found by a LOOKUP of its name, with its node id and the attributes it was made with |
| KvFs.MknodThenGetattr | dpfs_kv/main.cpp:385-413 | a file made by MKNOD answers GETATTR on its node id with the attributes it was made with |
| KvFs.UnlinkThenLookup | dpfs_kv/main.cpp:646-666 | after an UNLINK that succeeds, a LOOKUP of the name gives the negative entry |
| KvFs.SetattrThenGetattr | dpfs_kv/main.cpp:436-486 | GETATTR after a successful SETATTR reports the masked attributes |
| KvIo.FlatSplit | dpfs_kv/main.cpp:196-198 | the gathered bytes split at any iovec into those before and those after |
| KvIo.FlatStep | dpfs_kv/main.cpp:196-198 | one more iovec adds its bytes at the end |
| KvIo.LensWithinTotal | dpfs_kv/main.cpp:189-192 | no iovec is longer than all of them together |
| KvIo.SumLen32 | dpfs_kv/main.cpp:189-192 | the 32-bit sum of the 32-bit lengths is the total length, given that the total fits in 32 bits |
| KvIo.StoredSomes | dpfs_kv/main.cpp:194-198 | reading back a fully written buffer gives the bytes written |
| KvIo.PlaceAfter | dpfs_kv/main.cpp:196-198 | copying bytes right after those already written extends them, and the unwritten rest shrinks by as much |
| KvIo.GatherAsWritten | dpfs_kv/main.cpp:189-198 | as written, the size is the total length, and the buffer holds each iovec copied to its start in turn |
| KvIo.GatherAsWrittenKeepsLast | dpfs_kv/main.cpp:195-197 | as written, two iovecs of equal length leave the second followed by unwritten bytes, which is not both in order |
| KvIo.Gather | dpfs_kv/main.cpp:189-198 | corrected, the buffer holds exactly the iovecs' bytes in order, and the size is their total length |
| KvIo.IovecToBuf.constructor | dpfs_kv/main.cpp:183-199 | the buffer holds the request's bytes in order and the size is their total; a buffer of its own, to be freed, exactly when there is not exactly one iovec |
| KvIo.ResizedAsWritten | dpfs_kv/main.cpp:234-238 | as written, the size is updated and the block count left as it was |
| KvIo.Resized | dpfs_kv/main.cpp:234-238 | corrected, the size is updated |
| KvIo.ResizedIsSetattrSize | dpfs_kv/main.cpp:467-471 | corrected, the inode a WRITE leaves is the one SETATTR of the same size leaves, and its blocks cover the size |
| KvIo.WriteKeepsStaleBlocks | dpfs_kv/main.cpp:234-238 | as written, a new file written with 4096 bytes reports 1 block, where SETATTR to that size reports 8 |
| KvIo.Flagged | dpfs_kv/main.cpp:273-276 | a non-zero error replaces the header's error; zero leaves it; the length and id are kept |
| KvIo.FinishWrite | dpfs_kv/main.cpp:231-253 | the reply succeeds exactly when no error came before and the size is either unchanged or written back; success adds the write reply and its size; the inode is written back with the new size exactly when the size changed |
| KvIo.AsyncWriteOp.constructor | dpfs_kv/main.cpp:221-229 | the operation starts with the request's bytes gathered and no call completed |
| KvIo.AsyncWriteOp.Done | dpfs_kv/main.cpp:271-281 | the first call only marks itself; the second finishes the write, completing the request once |
| KvIo.AsyncWriteOp.DataCompleted | dpfs_kv/main.cpp:257-269 | the data is stored as the whole file when its write succeeds; a failure is -EIO; the second completion finishes |
| KvIo.AsyncWriteOp.AttrCompleted | dpfs_kv/main.cpp:287-306 | a found inode is kept for the finish; anything else is -EIO; the second completion finishes |
| KvIo.Write | dpfs_kv/main.cpp:543-560 | corrected, a non-zero offset is -EINVAL at once; otherwise the request completes exactly once whatever the order of the two completions, the data is stored whole when its write succeeds, and the reply succeeds exactly when both calls succeed and the size stays or is written back |
| KvIo.DataRead | dpfs_kv/main.cpp:335-340 | a read gives bytes exactly when the call succeeds and the key is in the data table, and then gives that object's bytes |
| KvIo.ReadSizes | dpfs_kv/main.cpp:341-351 | the loop makes at most one copy per iovec |
| KvIo.ReadSizesFit | dpfs_kv/main.cpp:341-351 | each copy holds some bytes and fits its iovec, every iovec before the last one written is full, and the loop stops early exactly when a copy of nothing ends it |
| KvIo.ReadSizesTotal | dpfs_kv/main.cpp:341-351 | with no empty iovec, the copies add up to what the iovecs hold or what the object has after the offset, whichever is less |
| KvIo.SumFront | dpfs_kv/main.cpp:341-351 | a sum of lengths is the first plus the sum of the rest |
| KvIo.CopyingStep | dpfs_kv/main.cpp:342-350 | copying some bytes into the next iovec keeps the loop state |
| KvIo.CopyingStop | dpfs_kv/main.cpp:344-348 | a copy of nothing ends the loop with the copies made so far |
| KvIo.CopyingEnd | dpfs_kv/main.cpp:342-351 | the loop after the last iovec has made every copy |
| KvIo.CopyChunks | dpfs_kv/main.cpp:341-351 | the copies have the sizes the loop's function gives and hold the object's bytes from the offset on |
| KvIo.ReadCompletedAsWritten | dpfs_kv/main.cpp:330-358 | as written, a missing object is -ENOENT and a failed call -EIO, both with no bytes; otherwise the reply grows by the bytes copied, and a copy of nothing stores `-EOF` (+1) if nothing was read and 0 otherwise |
| KvIo.ReadCompleted | dpfs_kv/main.cpp:330-358 | corrected, the same except that a read at the end replies no bytes and no error; the bytes sent are the object's bytes from the offset on |
| KvIo.Read | dpfs_kv/main.cpp:562-572 | READ returns `EWOULDBLOCK`; the reply carries the object's bytes from the offset on, as many as the iovecs hold or the object has, whichever is less, no chunk overflowing its iovec; a failed call is -EIO and a missing object -ENOENT |
| KvIo.ReadChunks | dpfs_kv/main.cpp:341-352 | the copies the loop makes add up to as many bytes as fit or exist, and hold the object's bytes from the offset on |
| KvIo.ReadAtEnd | dpfs_kv/main.cpp:347 | a read at or past the end replies error +1 as written and no error corrected |
| KvIo.TableEnumerator.constructor | dpfs_kv/main.cpp:629-630 | a fresh enumerator holds the objects it will hand out |
| KvIo.TableEnumerator.Next | dpfs_kv/main.cpp:583-590 | the next object is handed out and no longer held |
| KvIo.TableEnumerator.PushBack | dpfs_kv/main.cpp:612-615 | corrected, the object given back is the next one handed out |
| KvIo.Objects | dpfs_kv/main.cpp:629-630 | one object per key of the table, in the enumerator's order |
| KvIo.Opendir | dpfs_kv/main.cpp:623-633 | OPENDIR makes a fresh enumerator over the whole inode table and sends its address as the file handle, with no open flags |
| KvIo.Record | dpfs_kv/main.cpp:598-609 | an object's record has the padded length of its name, whatever its offset |
| KvIo.Fill | dpfs_kv/main.cpp:584-617 | the listing takes no more room than there is, and stops short of the end exactly when it lists fewer objects than there are |
| KvIo.RecordsNext | dpfs_kv/main.cpp:598-619 | one more object adds its record at the end |
| KvIo.FillWellFormed | dpfs_kv/main.cpp:591-598 | every object listed has a key and an inode of the right size |
| KvIo.FillStops | dpfs_kv/main.cpp:591-615 | the listing stops at a malformed object, or at a well-formed one whose record does not fit in what is left |
| KvIo.ListedStep | dpfs_kv/main.cpp:598-619 | listing an object whose record fits keeps the loop state |
| KvIo.ListedStop | dpfs_kv/main.cpp:591-615 | a malformed object or a record that does not fit ends the listing there |
| KvIo.ListedEnd | dpfs_kv/main.cpp:584 | the listing after the last object ends with every object listed |
| KvIo.AppendObject | dpfs_kv/main.cpp:598-609 | a record is written exactly when it fits in the room left, and then takes its padded length right after the bytes already written |
| KvIo.Halt | dpfs_kv/main.cpp:591-615 | the loop as written ends holding the object it stopped at |
| KvIo.PlaceObject | dpfs_kv/main.cpp:591-619 | a well-formed object whose record fits is written with the next directory offset; otherwise nothing is written and the listing ends at it |
| KvIo.WroteNext | dpfs_kv/main.cpp:598-619 | writing the next record after the earlier ones gives the records of one more object |
| KvIo.ListEntry | dpfs_kv/main.cpp:584-619 | one turn takes the next object and either lists it or ends the loop as written |
| KvIo.ListLoop | dpfs_kv/main.cpp:584-619 | the loop writes the records the listing function gives, at consecutive offsets, and ends as written |
| KvIo.Finish | dpfs_kv/main.cpp:584 | the loop after the last object ends with nothing held back |
| KvIo.ListObjects | dpfs_kv/main.cpp:578-619 | the cursor holds the records of the listed objects in order; the enumerator holds the objects after the one the loop stopped at |
| KvIo.ReaddirAsWritten | dpfs_kv/main.cpp:574-621 | as written, READDIR returns 0, the reply grows by the records written, and every object listed or stopped at is gone from the enumerator |
| KvIo.Readdir | dpfs_kv/main.cpp:574-621 | corrected, the same, except that a well-formed object whose record did not fit stays in the enumerator for the next call |
| KvIo.GiveBack | dpfs_kv/main.cpp:612-615 | giving back a well-formed object the loop stopped at leaves the enumerator with everything after the listed objects |
| KvIo.ReaddirLosesEntry | dpfs_kv/main.cpp:612-615 | with distinct keys, an object whose record did not fit is, as written, neither listed nor left; corrected, the listed objects and those left make up all of them |
| Rvfs.DecodeEncoded | dpfs_hal/src/rvfs.cpp:66-98 | corrected reading: a buffer that starts with the DPU's encoding of a request is read back as that request when it fits the iovec table, and refused otherwise, where the walk as written stores past the table; whatever follows it does not matter |
| Rvfs.DecodeEncode | dpfs_hal/src/rvfs.cpp:66-98 | round trip: the host reads back every request the DPU lays out (dpfs_rvfs/dpu.cpp:98-118) that fits its table of 259 slots |
| Rvfs.DecodeIsEncoded | dpfs_hal/src/rvfs.cpp:66-98 | every buffer the host accepts starts with the encoding of the request it reads, which fits the table |
| Rvfs.DecodeIffEncoded | dpfs_hal/src/rvfs.cpp:66-98 | corrected reading, both directions together: a buffer is accepted as a request exactly when the buffer starts with that request's encoding and the request fits the table |
| Rvfs.DecodeStoresInTable | dpfs_hal/src/rvfs.cpp:73-98 | on every buffer the corrected reading accepts, the walk as written stores one table entry per iovec of the request read, all inside the table |
| Rvfs.DecodeRefusesOverruns | dpfs_hal/src/rvfs.cpp:73-98 | the corrected reading refuses a buffer only where the walk as written reads past the message, stores past the table, or reads a negative output count |
| Rvfs.StoresEncoded | dpfs_hal/src/rvfs.cpp:73-98 | as written, a buffer that starts with an encoded request has one table entry stored per iovec of that request, however many there are, unless the `int` sum of the counts overflows |
| Rvfs.OversizedRequestOverrunsAsWritten | dpfs_hal/src/rvfs.cpp:73-98 | as written, an encoded request with more iovecs than the table has entries is walked whole, storing one entry per iovec past the table's end, unless the `int` sum of the counts overflows; the corrected reading refuses it |
| Rvfs.TwoHundredSixtyInputsOverrun | dpfs_hal/src/rvfs.cpp:73-83 | as written, a request of 260 empty input iovecs stores 260 entries, the last at `iov[259]`, one past the table |
| Rvfs.RpcMsg.constructor | dpfs_hal/src/rvfs.cpp:24-45 | a new message holds the freshly allocated buffers, zero counts and a table of 259 zeroed iovecs |
| Rvfs.RpcMsg.LoadIns | dpfs_hal/src/rvfs.cpp:69-83 | corrected, for a count within the table, the input loop succeeds exactly when the inputs can be read from the buffer, and then each input iovec views that input's bytes in the request buffer |
| Rvfs.RpcMsg.LoadOuts | dpfs_hal/src/rvfs.cpp:85-98 | corrected, for counts within the table, the output loop succeeds exactly when the lengths can be read, reads the output lengths, lays the output iovecs end to end from the start of the response buffer, and leaves the input slots alone |
| Rvfs.RpcMsg.LoadIovs | dpfs_hal/src/rvfs.cpp:66-98 | corrected, the table walk succeeds exactly when the buffer decodes, which is where the walk as written stays inside the table and the message, and then the table holds the decoded request: inputs viewed in place, outputs laid out in the response buffer |
| Rvfs.Hal.AsyncComplete | dpfs_hal/src/rvfs.cpp:216-227 | a readable reply header sends the response cut to its declared length; the message returns to the pool in every case; the status is ignored |
| Rvfs.Hal.Serve | dpfs_hal/src/rvfs.cpp:66-111 | corrected, a request whose walk would leave the table or the message is refused before the handler runs; EWOULDBLOCK leaves the request pending; any other return completes it at once, sending the reply when its header is readable and returning the message to the pool either way |
| Rvfs.Hal.ReqHandlerAsWritten | dpfs_hal/src/rvfs.cpp:58-112 | as written, the last free message is taken, and the table views that message's own request buffer, whatever request eRPC delivered; the walk itself is the corrected one, which refuses what would leave the table |
| Rvfs.Hal.ReqHandler | dpfs_hal/src/rvfs.cpp:58-112 | corrected, the table views the delivered request; an empty pool, a malformed request, a pending reply and an immediate reply each end as stated |
| Rvfs.Hal.Destroy | dpfs_hal/src/rvfs.cpp:206-214 | every free message is released, last first, and the pool is left empty |
| Rvfs.ConfigOk | dpfs_hal/src/rvfs.cpp:120-149 | the configuration is accepted exactly when it parses, has an `[rvfs]` table and both URIs, and a queue depth that is a power of two |
| Rvfs.SmallQueueDepthEmptyPool | dpfs_hal/src/rvfs.cpp:145-163 | queue depths 1 and 2 pass the checks but, as written, preallocate no message |
| Rvfs.PreallocCovers | dpfs_hal/src/rvfs.cpp:159-163 | the corrected count gives every accepted depth at least one message, enough for `qd` descriptors, and at most one more than the written count |
| Rvfs.New | dpfs_hal/src/rvfs.cpp:118-171 | a HAL exists exactly when the configuration is accepted, and then its pool holds the corrected number of distinct fresh messages |
| Rvfs.ZeroBufferIsEmptyRequest | dpfs_hal/src/rvfs.cpp:66-98 | a zero-filled buffer reads as a request with no iovecs, which is what the as-written handler finds in an unused message |
| RvfsDpu.Put | dpfs_rvfs/dpu.cpp:98-118 | one store writes its bytes at the cursor and keeps everything before it |
| RvfsDpu.PutInput | dpfs_rvfs/dpu.cpp:101-109 | one input is written as its length followed by its bytes |
| RvfsDpu.PutIns | dpfs_rvfs/dpu.cpp:98-109 | after the count, the buffer holds the encoding of the inputs, and the cursor is just past it |
| RvfsDpu.PutLens | dpfs_rvfs/dpu.cpp:111-118 | after the output count, the buffer holds the encoding of the output lengths |
| RvfsDpu.DpuMsg.constructor | dpfs_rvfs/dpu.cpp:37-41 | a new message has two distinct buffers of the full size |
| RvfsDpu.DpuMsg.Fill | dpfs_rvfs/dpu.cpp:91-120 | the request buffer is resized to the encoding of the request and holds exactly that encoding |
| RvfsDpu.InputStep | dpfs_rvfs/dpu.cpp:101-109 | the encoding of one more input is the earlier encoding followed by that input's length and bytes |
| RvfsDpu.LengthStep | dpfs_rvfs/dpu.cpp:114-118 | the encoding of one more output length is the earlier encoding followed by that length |
| RvfsDpu.DpuState.Send | dpfs_rvfs/dpu.cpp:98-125 | the request goes out encoded, and the message keeps the output lengths and the completion context |
| RvfsDpu.DpuState.FuseHandlerAsWritten | dpfs_rvfs/dpu.cpp:77-128 | as written, the handler is defined only on a non-empty pool, which is never filled |
| RvfsDpu.DpuState.FuseHandler | dpfs_rvfs/dpu.cpp:77-128 | corrected, every request is encoded and sent, on a pooled message or a new one, and EWOULDBLOCK is returned |
| RvfsDpu.DpuState.ResponseFunc | dpfs_rvfs/dpu.cpp:51-69 | the output iovecs receive the response from its start, one after another, in their own lengths; the request is completed and the message goes back to the pool |
| RvfsDpu.MainStatus | dpfs_rvfs/dpu.cpp:142-184 | the program goes on exactly when given a configuration path, a parsed file, an `[rvfs]` table and both URIs; otherwise it returns -1 |
| RpcDpu.EncodeInputs | dpfs_rpc_dpu/main.cpp:83-94 | the request is the input count followed by the encoded inputs |
| RpcDpu.DecodeInputsEncoded | dpfs_rpc_dpu/main.cpp:53-62 | round trip: a buffer that starts with the encoding of some inputs reads back as those inputs, whatever follows |
| RpcDpu.DecodeInputsIsEncoded | dpfs_rpc_dpu/main.cpp:53-62 | whatever reads back as inputs starts with their encoding |
| RpcDpu.DecodeInputsIff | dpfs_rpc_dpu/main.cpp:53-62 | both directions: a buffer reads back as some inputs exactly when it starts with their encoding |
| RpcDpu.ReadInputs | dpfs_rpc_dpu/main.cpp:51-62 | the decoding loop returns what the decoding function gives for the buffer |
| RpcDpu.RpcMsg.constructor | dpfs_rpc_dpu/main.cpp:26-39 | a new message has two distinct buffers of the full size, and no output iovecs or completion context yet |
| RpcDpu.RpcState.Prealloc | dpfs_rpc_dpu/main.cpp:207-211 | start-up adds 64 / 3 = 21 distinct fresh messages to the pool |
| RpcDpu.RpcState.FuseHandlerAsWritten | dpfs_rpc_dpu/main.cpp:72-99 | as written, the handler is defined only on a non-empty pool; it sends the encoded inputs with the state as tag, stores neither the output iovecs nor the completion context, and returns 0 |
| RpcDpu.RpcState.FuseHandler | dpfs_rpc_dpu/main.cpp:72-99 | corrected, the message is its own tag and keeps the output iovecs and the completion context, and completion is deferred |
| RpcDpu.RpcState.ResponseFuncAsWritten | dpfs_rpc_dpu/main.cpp:48-67 | as written, the output iovecs receive what decodes from the message's request buffer |
| RpcDpu.RpcState.ResponseFunc | dpfs_rpc_dpu/main.cpp:48-67 | corrected, they receive what decodes from the response buffer; the request is completed and the message goes back to the pool |
| PollLoop.LoopMode | dpfs_hal/src/snap.c:180-195 | at most one thread runs the single-threaded loop, more run the multithreaded one |
| PollLoop.MmioPollsBeforeWrap | dpfs_hal/src/snap.c:112-121 | with a zero interval, MMIO is polled on the first iteration and every 10000th after it, until the 32-bit counter wraps |
| PollLoop.RunSingle | dpfs_hal/src/snap.c:86-128 | the loop polls I/O once per iteration until the controller reports itself suspended after a stop, asks for suspension exactly once, and polls MMIO on every iteration or on every 10000th by the wrapping counter |
| PollLoop.RunMultiAsWritten | dpfs_hal/src/snap.c:152-178 | as written, the run is defined exactly when every thread starts, and then every worker is joined |
| PollLoop.RunMulti | dpfs_hal/src/snap.c:152-178 | corrected, entry 0 is never cancelled or joined; only threads that were created are joined, each once; after the first failed create no later entry is started; no worker is left running, and all are joined when all start |
| EmuLl.FuseUnknown | virtiofs_emu_lowlevel/virtiofs_emu_ll.c:177-190 | an unhandled opcode is answered with a bare header for the same request and -ENOSYS |
| EmuLl.Ret | virtiofs_emu_lowlevel/virtiofs_emu_ll.c:192-234 | a refused request returns -EINVAL, a handled one what its handler returns, an unknown one 0 |
| EmuLl.Dispatch | virtiofs_emu_lowlevel/virtiofs_emu_ll.c:192-234 | a request is refused exactly when an iovec count is below 1 or the opcode is out of range; otherwise its handler is called if registered, and the unknown handler answers if not |
| EmuLl.DispatchInBounds | virtiofs_emu_lowlevel/virtiofs_emu_ll.c:198-212 | corrected, a reply is written only with an output iovec present, and the opcode of a dispatched request indexes the handler table |
| EmuLl.DispatchAsWrittenAgrees | virtiofs_emu_lowlevel/virtiofs_emu_ll.c:198 | the as-written check differs from the corrected one only when there is no output iovec, and then it writes a reply |
| EmuLl.DispatchAsWrittenWritesPastEnd | virtiofs_emu_lowlevel/virtiofs_emu_ll.c:198-212 | as written, an unknown opcode with no output iovec is answered through `fuse_out_iov[0]` |
| EmuLl.CountedSum | virtiofs_emu_lowlevel/virtiofs_emu_ll.c:215-222 | the counters add up to the calls since the last FUSE_INIT: 1 after it, one more than before after any other opcode |
| EmuLl.BumpedSum | virtiofs_emu_lowlevel/virtiofs_emu_ll.c:221 | one increment below 2^32 - 1 adds one to the total |
| EmuLl.ClearedSum | virtiofs_emu_lowlevel/virtiofs_emu_ll.c:218-221 | counters cleared and then one incremented add up to 1 |
| EmuLl.CountedOthers | virtiofs_emu_lowlevel/virtiofs_emu_ll.c:215-222 | a call leaves the other opcodes' counters alone, except that FUSE_INIT clears them |
| EmuLl.Emu.New | virtiofs_emu_lowlevel/virtiofs_emu_ll.c:236-306 | an emulation exists exactly when the parameters pass and SNAP starts; it then holds the handler table and zeroed counters, and asks for two queues of depth 64 |
| EmuLl.Emu.constructor | virtiofs_emu_lowlevel/virtiofs_emu_ll.c:254-259 | a new emulation holds the given table, thread count and interval, and zeroed counters |
| EmuLl.Emu.HandleFuseReq | virtiofs_emu_lowlevel/virtiofs_emu_ll.c:192-234 | the return is as the dispatch decides; with one thread, a dispatched request is counted and the counters change as `Counted` says, and otherwise they stay |
| SnapHal.StringIn | dpfs_hal/src/snap.c:256-296 | a string read succeeds exactly on a string value and gives its text |
| SnapHal.IntIn | dpfs_hal/src/snap.c:256-296 | an integer read succeeds exactly on an integer value and gives it |
| SnapHal.Build | dpfs_hal/src/snap.c:256-350 | the HAL starts exactly when every read succeeds within its bounds and SNAP starts, and asks for one queue per thread plus one, of the configured depth |
| SnapHal.PowerOfTwoOk | dpfs_hal/src/snap.c:277 | the `qd & (qd - 1)` test passes exactly for powers of two |
| SnapHal.HalNewIff | dpfs_hal/src/snap.c:227-362 | corrected, both directions: the HAL starts exactly when `[snap_hal]` holds its strings and integers within bounds and the environment cooperates, and it asks for the configured device, depth and `1 + nthreads` queues |
| SnapHal.VfIsPfAsWritten | dpfs_hal/src/snap.c:264-275 | as written, the virtual function number is always the physical one |
| SnapHal.IntegerConfigAsWritten | dpfs_hal/src/snap.c:256-296 | as written, a configuration with its numbers as TOML integers is refused; read as integers it starts |
| SnapHal.SnapStatusOf | dpfs_hal/src/snap.c:198-213 | success is reported exactly for the success status, an I/O error for any other |

## Left out

- FuseReply.OpenOut, FuseReply.ReplyOpen, FuseReply.ReplyCreate: `fill_open` does not write the four padding bytes of `struct fuse_open_out`, and nothing zeroes the reply buffer first, so they keep whatever it held; the model gives only the 12 bytes written.
- Floating-point timeouts (`calc_timeout_sec`/`calc_timeout_nsec`) and the `stat` field conversions are not modelled; the entry and attribute replies carry them as opaque bytes.
- Concurrency: the mutexes are treated as atomic sections; lock ordering is not modelled.
- The spin-wait of `vnfs4_op_sequence` when every slot is in use is modelled as a `None` result.
- NfsSlots.Session.Release: the slot id comes from the server's SEQUENCE reply and is trusted to be below `nslots`, as the source trusts it.
- MirrorReaddir: the whole plus-mode loop is not modelled as one method; its per-entry step `PlusEntry` is.
- Chains: the key is stored beside each item in a slot, instead of being read from the inode, because the inode's key never changes after creation.
- NfsXdr.GetUgid: the signed `int` accumulator's overflow, undefined in C, is modelled as wrap-around modulo 2^32.
- NfsXdr.FillCreateAttrs: the `snprintf` failure branch is not modelled, since `"%d"` into at least 45 bytes cannot fail or truncate; the bitmap fields set beside the values are not modelled.
- NfsXdr.FindOp: the result count is taken to be below 2^31, as the cast to `int` in the loop assumes.
- The NFSv4 argument builders of virtionfs/nfs_v4.c (`nfs4_op_*`, `nfs4_clone_fh`) fill libnfs structures and are not modelled; the fields of a `fuse_attr` or `fuse_kstatfs` left filled on a decoding failure are not modelled either.
- `create`/`create_cb` of dpfs_nfs/dpfs_nfs.c are unfinished in the source (the reply is a TODO) and are not modelled beyond their slot handling in NfsSlots; `vfsync`, `vread`'s request side, `setattr`, `statfs`, `lookup` and `getattr`'s request side build libnfs arguments and are not modelled; their callbacks are.
- NfsClient: stateids and the bytes of file handles are not modelled, only handle lengths; the slot a request handler claims and does not give back on an early return is modelled once, in NfsSlots.FailAfterClaim.
- NfsClient.CountLookup: `nlookup` is a `nat`, so its 64-bit wrap-around is not modelled.
- NfsClient.EmitWrites: the iovec lengths of one request are taken to sum below 2^64, so the 64-bit `offset` never wraps.
- NfsClient.Replay: only successful opens and releases are replayed; failed ones change the count as `Release`, `OpenAsWritten` and `OpenCb` state.
- NfsConnect, VnfsConnect: a failure of `rpc_nfs4_compound_async` to send is not modelled; every request a step returns is taken as sent.
- NfsConnect: `vnfs_destroy_connection` of dpfs_nfs has an empty body, so every failed callback leaves the boot state as it was.
- NfsConnect.Vnfs.ExchangeIdCb and VnfsConnect.VirtioNfs.ExchangeIdCb: the trunking checks of the NFS helper code are not part of this model; their verdict is the parameter `trunkOk`.
- The slot claimed by the SEQUENCE operation of the boot compounds, and the reply's sequence handling, are modelled in NfsSlots, not in the boot.
- NfsConnect.Vnfs.CreateSessionCb: the channel attributes and the session id copied from the reply, and the `ca_maxoperations` warning, are not modelled; only the slot count is.
- File handles in the boot are modelled by their length only; the mount's server name, uid, gid and poll timeout are not modelled.
- RootLookup, RootLookupAsWritten and LookupTrueRootFh require a non-empty export, as both sources read its last character without a check.
- VnfsConnect: the connection fields and the ERROR state come from virtionfs/vnfs_connect.c itself; virtionfs/virtionfs.h of the same tree does not declare them, and virtionfs/virtionfs.c never starts this boot.
- VnfsConnect.BuildAsWritten: the SEQUENCE operation, whose arguments the source leaves unfilled, is modelled as a plain SEQUENCE.
- VirtioNfsOps: `virtionfs_assign_ops` (virtionfs/virtionfs.c:319-326) installs only `init`; `setattr`, `lookup` and `getattr` are modelled as written although no request reaches them.
- VirtioNfsOps.VirtioNfs.SetattrCb: the source reads the post-op attributes through a cast of the whole result to `SETATTR3resok` (virtionfs/virtionfs.c:38), which does not point at the success arm; the model reads the success arm.
- VirtioNfsOps: the callbacks never give their chunk back to the pool; the pool itself is modelled in Mpool.
- VirtioNfsOps: the file handle of a call is the 8 bytes of the node id, modelled as the node id; the root handle callback `getrootfh_cb` and its `exit(10)` are not modelled; the effect of `seteuid`/`setegid`, `nfs_mount` and the thread start are parameters.
- VirtioNfsOps.Apply: the server's own ctime update and its permission checks are not modelled.
- Nfs3Attr.ToFuseAttrRoundTrip: the mode is compared by its 32-bit pattern; that the integer to `bv32` conversion is reversible is not proved.
- `struct virtionfs` in virtionfs/virtionfs.h has no pool field `p`, which virtionfs/virtionfs.c uses; the model gives the handlers their chunk as a parameter.
- Mpool: `malloc` is modelled by `avail`, the number of calls that still succeed; `chunk_size` is stored but chunk contents are not modelled.
- Mpool.Pool.InitAsWritten: the `size` argument is not used by `mpool_init`, and virtionfs/mpool.h:36 declares the function with three parameters while virtionfs/mpool.c:45 defines it with four; the model follows the definition.
- Mpool.Pool.Refill: `alloc_size` 0 makes the bound `alloc_size - 1` wrap to 2^64 - 1, modelled by `RefillCount`; the `int` loop counter is taken not to overflow before memory runs out.
- Mpool.Pool.InitAsWritten: the self-call that never ends is cut short as a -1 return.
- IntrusiveList: `list_entry` (`container_of` pointer arithmetic) is not modelled; a node is its own object, not a field of an enclosing struct.
- KvFs, KvIo: the RAMCloud client (`RamCloud`, `ReadRpc`, `WriteRpc`, `RemoveRpc`, `Buffer`) is not part of this model; each call's outcome is a parameter, and a `ClientException` is the failed outcome.
- KvFs: the poll thread `ramcloud_poll`, the TOML configuration of `main` and the ops table it fills are not modelled; `fuse_init` only sets `init_done` and is not modelled.
- KvIo: `fuse_releasedir` only deletes the enumerator; memory is not modelled, so neither is it.
- KvIo.TableEnumerator: the enumerator's handle is an address turned into a 64-bit file handle (`Opendir`'s `handle`); the cast back in `fuse_readdir` is taken to give the same enumerator.
- KvIo.Object: the encoding of `fuse_entry_out` inside a READDIRPLUS record is taken as given bytes, from the floating-point timeouts it holds.
- KvFs.RamCloud.Unlink: both removals are issued before either is waited on, so the model lets each succeed or fail on its own; the order of the two waits is not modelled.
- KvFs.Key: the name is taken to have no zero byte inside, as a C string has none.
- KvIo.Write: the request is taken to carry less than 2^32 bytes, as the 32-bit size of a FUSE write guarantees.
- KvIo.AsyncWriteOp: the two completions are the only events modelled; `delete this` is not.
- Rvfs, RvfsDpu, RpcDpu: eRPC itself is not part of this model: the Nexus, the session and its connection wait, the event loops, buffer allocation and the message transfer. A response enqueued by one side is not delivered to the other; each side is modelled on its own buffers.
- Rvfs: the `dpfs_hal_loop` and `dpfs_hal_poll_io` event-loop wrappers are not modelled; they only run eRPC's event loop.
- Rvfs.Hal.Serve: the file-system handler is a parameter, given as its return value and the bytes it leaves in the response buffer.
- Rvfs.Hal.AsyncComplete: eRPC's `resize_msg_buffer` is taken to fail only beyond the buffer's size, as `ReplyLen` states.
- Rvfs.Hal.AsyncComplete: when the reply header cannot be read, the resize and the enqueue of the source are not modelled: nothing is sent, and the message still returns to the pool. This covers `out_iovcnt` = 0, where the source reads the header through the zeroed `iov[in_iovcnt]`, and a header past the buffer.
- Rvfs.DecodeEncoded: refusing a request that does not fit the 259-entry table is the corrected reading; as written, `req_handler` checks neither count and stores past the table (see Findings).
- Rvfs.DecodeIffEncoded: the same; the iff is about the corrected reading, and `StoresAsWritten` gives what the walk as written stores.
- Rvfs.Hal.Serve, Rvfs.Hal.ReqHandlerAsWritten, Rvfs.RpcMsg.LoadIovs: the stores past the table and the reads past the message of the walk as written are not modelled; `Malformed` stands for them, and the file-system handler is not called then, though the source always calls it.
- Rvfs.RpcMsg.LoadIns, Rvfs.RpcMsg.LoadOuts: they require counts within the table, which the source never checks; `LoadIovs` refuses larger counts before calling them.
- Rvfs.Hal.Serve: a negative `out_iovcnt` whose sum with `in_iovcnt` is not negative makes the source run no output iteration and call the handler with that negative count; the model refuses such a request (`NegativeOutCount`). A negative count that the `size_t` comparison turns into a huge one reads past the message and is refused as well.
- Rvfs.New: the connection set-up of `dpfs_hal_new` (the Nexus, the request-handler registration and the thread start) is not modelled; only the configuration checks and the pool are.
- RvfsDpu.DpuState.FuseHandler, RvfsDpu.DpuState.FuseHandlerAsWritten: they require that the encoded request fits the message buffer, which the source never checks; the model does not cover a request that overruns it.
- RvfsDpu.DpuState.ResponseFunc: it requires that the output lengths add up to no more than the response buffer, which the source never checks; the `memcpy` read past it is not modelled.
- RvfsDpu: the `main` of dpfs_rvfs/dpu.cpp beyond its configuration checks (the eRPC client, the connection loop, `dpfs_hal_new` and `dpfs_hal_loop`) is not modelled; MainStatus covers the checks.
- RvfsDpu.MainStatus: the `exit(1)` of the option parser on an unknown option is not modelled.
- RpcDpu.RpcState.FuseHandler, RpcDpu.RpcState.FuseHandlerAsWritten: they require that the encoded inputs fit the message buffer, which the source never checks.
- RpcDpu.RpcState.ResponseFunc, RpcDpu.RpcState.ResponseFuncAsWritten: the lengths of the output iovecs are not checked against the bytes copied into them, as in the source; the bytes given to each output iovec are recorded whatever its size.
- RpcDpu: `main` creates the eRPC object with a null context (dpfs_rpc_dpu/main.cpp:201), which `response_func` then uses as its state; the model gives `ResponseFunc` the state it belongs to. Beyond Prealloc, `main` of dpfs_rpc_dpu/main.cpp is not modelled.
- PollLoop: the signal handler, `usleep`, `pthread_setspecific` and the low-latency settings are not modelled. The worker threads' own loops poll until the controller is suspended and are not modelled. The outcome of each `pthread_create` is a parameter.
- PollLoop.RunSingle: `keep_running` and the controller's suspension are given by the parameters `stop` and `lag`.
- PollLoop: the `uint32_t` of the thread count and the `useconds_t` of the interval are modelled as unbounded `nat`.
- EmuLl: the debug output (`printf`, `fprintf`) is not modelled; the call counters are modelled as in a build with `DEBUG_ENABLED`.
- EmuLl.Emu.HandleFuseReq: the handler registered for the opcode is a parameter, given as its return value.
- EmuLl.Emu.New: the emulation is not freed when SNAP fails to start, as in the source; memory is not modelled.
- EmuLl: the polling loops of virtiofs_emu_lowlevel/virtiofs_emu_ll.c:71-175 are the same as those of dpfs_hal/src/snap.c and are modelled once, in PollLoop; `virtiofs_emu_ll_destroy` only releases SNAP and is not modelled.
- SnapHal: the TOML reader is not part of this model; `toml_string_in` succeeds only on a string and `toml_int_in` only on an integer. Opening and parsing the file and starting SNAP are parameters (`Env`).
- SnapHal: `dpfs_hal_handle_req` only passes the request to the registered handler, `dpfs_hal_poll_io` and `dpfs_hal_poll_mmio` only poll SNAP, and `dpfs_hal_destroy` only releases SNAP; none of them is modelled.
- SnapHal: the 64-bit `toml_datum_t` integer is modelled as unbounded.

## Findings

| source | as written | input that shows it | evidently intended | confidence | as-written member | corrected member |
|---|---|---|---|---|---|---|
| dpfs_fuse/dpfs_fuse.cpp:255-271 | `iov_write_buf` never advances the source pointer | bytes 1,2,3 into two 2-byte iovecs give 1,2,1 | `buf` is copied in order across iovecs | high, not executed | FuseIov.WriteBufAsWrittenRepeatsStart | FuseIov.IovCursor.WriteBuf |
| dpfs_fuse/dpfs_fuse.cpp:1753 | the first-iovec check tests `in_iovcnt` twice | unknown opcode 7 with one input and no output iovec | both counts are checked | high, not executed | FuseDispatch.HandleReqAsWrittenWritesPastEnd | FuseDispatch.HandleReqInBounds |
| dpfs_fuse/dpfs_fuse.cpp:987 | the READDIR check passes with one input iovec | `in_iovcnt` = 1, `out_iovcnt` = 2 | both a `fuse_read_in` and a reply buffer are present | medium, not executed | FuseDispatch.ReaddirAsWrittenReadsPastEnd | FuseDispatch.HandleReqInBounds |
| dpfs_fuse/dpfs_fuse.cpp:871-876 | `fuse_ll_setlk` passes sleep = true | any SETLK with `FUSE_LK_FLOCK` | only SETLKW may block | high, not executed | FuseDispatch.SetlkAsWrittenBlocks | FuseDispatch.SetlkNonBlocking |
| dpfs_aio/fuser.c:175-187 | a failed event falls through and completes again | an event with `res` = -1 | each event completes once | high, not executed | Fuser.RwRequest.HandleEventAsWritten | Fuser.RwRequest.HandleEvent |
| dpfs_aio/fuser.c:175 | only `res` = -1 is taken for a failure, though libaio reports `-errno` in `res` | a read failing with EIO (`res` = -5) | any negative `res` is the reply's error | high, not executed | Fuser.ReadErrorLostAsWritten | Fuser.ReadErrorReported |
| dpfs_uring/mirror_impl.c:236-239 | the ENOMEM return keeps `f->m` locked | `inode_new` fails in `do_lookup` | the mutex is released on every return | high, not executed | MirrorImpl.DoLookupAsWritten | MirrorImpl.DoLookup |
| dpfs_uring/mirror_impl.c:803 | create registers the generic callback | a successful create under io_uring | the create callback, which looks up and counts the open | high, not executed | MirrorImpl.CreateDone | MirrorImpl.CreateDone |
| virtionfs/inode.c:65-66 | destroy frees the table struct | any table made by `inode_table_init` | only what init allocated is freed | medium, not executed | NfsInodes.DestroyAsWrittenFreesForeign | NfsInodes.DestroyFreesOwned |
| dpfs_nfs/dpfs_nfs.c:334-339 | the loop starts at `nslots` and keeps overwriting | slots 0 and 1 in use of 3 | the highest slot in use, reading only inside the array | high, not executed | NfsSlots.LowestIsNotHighest | NfsSlots.Session.Sequence |
| dpfs_nfs/dpfs_nfs.c:422-432 | the -ENOENT return after the claim keeps the slot | a create on an unknown parent | the slot is given back | high, not executed | NfsSlots.FailAfterClaimAsWritten | NfsSlots.FailAfterClaim |
| virtionfs/nfs_v4.c:305-307 | the owner and group bodies are skipped in `buf` but never taken off `len` | a 12-byte owner and the last 12 bytes of the list missing | every field is checked against the bytes that remain | high, not executed | NfsXdr.AttributesAsWrittenReadPastEnd | NfsXdr.AttributesNeverOverrun |
| virtionfs/nfs_v4.c:39-46 | callers negate the mapping (dpfs_nfs/dpfs_nfs.c:372), so the -ENOSYS branch becomes +ENOSYS | status NFS4ERR_STALE (70) | a negative errno for every failure | high, not executed | NfsXdr.ReplyErrorAsWrittenPositive | NfsXdr.ReplyError |
| virtionfs/nfs_v4.c:57 | the attribute list length is always 68 | uid = gid = 0, 20 bytes of attributes | the length of the bytes written | medium, not executed | NfsXdr.CreateAttrsAsWrittenUnread | NfsXdr.CreateAttrsDecode |
| dpfs_nfs/dpfs_nfs.c:985-992 | an open file is counted and answered, then OPEN is sent anyway and its callback counts it again | open, open, release, release | return after counting, as the comment says | high, not executed | NfsClient.BalancedRunAsWrittenNeverCloses | NfsClient.BalancedRunClosesOnce |
| dpfs_nfs/dpfs_nfs.c:735-738 | `argarray_len` is 2 + `in_iov_cnt` although the loop may fill fewer WRITEs | seven one-byte iovecs | announce only the operations filled | high, not executed | NfsClient.VwriteAsWrittenAnnouncesUnfilled | NfsClient.Vwrite |
| dpfs_nfs/dpfs_nfs.c:1221-1222 | the reply length is assigned the statfs size, dropping the header, and also on a decoding failure | any successful STATFS | add the payload size, on success only | high, not executed | NfsClient.StatfsAsWrittenDropsHeader | NfsClient.StatfsCb |
| dpfs_nfs/vnfs_connect.c:124-144 | the LOOKUPs are counted by slashes but named by `strtok` tokens | "/a//b" sends a LOOKUP of NULL; "a/b" looks up only "a" | one LOOKUP per path component | medium, not executed | NfsConnect.RootOpsAsWrittenNullLookup | NfsConnect.RootLookup |
| virtionfs/vnfs_connect.c:89-98 | the loop `i < count+1` fills count - 1 LOOKUPs while 3 + count operations are sent | "/a/b": only "a" is looked up and an unfilled operation follows GETFH | one LOOKUP per component and only filled operations sent | high, not executed | VnfsConnect.RootOpsAsWrittenDropsLast | VnfsConnect.VirtioNfs.LookupTrueRootFh |
| virtionfs/vnfs_connect.c:77 | the slash count advances `vnfs->export` itself | any boot: the stored export is "" when the next connection mounts it | count on the copy, keep the export | high, not executed | VnfsConnect.VirtioNfs.LookupTrueRootFhAsWritten | VnfsConnect.VirtioNfs.LookupTrueRootFh |
| virtionfs/vnfs_connect.c:260-263 | `memcpy` copies the uninitialised `v` over `default_verifier`, and `v` is never sent | any connection: the verifier sent is the stack bytes, whatever `conn_cntr` is | each connection sends the default verifier with its first byte set to `conn_cntr` | high, not executed | VnfsConnect.VirtioNfs.ExchangeIdAsWritten | VnfsConnect.VirtioNfs.ExchangeId |
| virtionfs/vnfs_connect.c:286 | the NULL check tests the connection's old `nfs` pointer, not the new context | a connection record whose `nfs` is NULL fails although `nfs_init_context` succeeded | test the context just created | high, not executed | VnfsConnect.VirtioNfs.NewConnectionAsWritten | VnfsConnect.VirtioNfs.NewConnection |
| virtionfs/virtionfs.c:90-107 | `set_it` = 1 is SET_TO_SERVER_TIME in the `time_how` of RFC 1813, so an explicit time is never sent | ATIME with an `st_atim` other than the server's clock: the file gets the server's time | explicit times as SET_TO_CLIENT_TIME, `_NOW` as SET_TO_SERVER_TIME | high, not executed | VirtioNfsOps.SetattrAsWrittenDropsTime | VirtioNfsOps.SetattrArgsApply |
| virtionfs/virtionfs.c:63-67 | the chunk from the pool is never filled, yet `setattr_cb` follows its pointers | a chunk last used by a LOOKUP: the SETATTR result goes to that request | fill `cb`, `vnfs`, `out_hdr` and `out_attr` as `lookup` does | high, not executed | VirtioNfsOps.StaleChunk | VirtioNfsOps.VirtioNfs.Setattr |
| virtionfs/virtionfs.c:144 | an NFS error is stored as the positive `nfsstat3` | LOOKUP answered NFS3ERR_NOENT (2): the header error is +2 | a negative errno, as `setattr_cb` stores | high, not executed | VirtioNfsOps.VirtioNfs.LookupCbAsWritten | VirtioNfsOps.VirtioNfs.LookupCb |
| virtionfs/virtionfs.c:200 | an NFS error is stored as the positive `nfsstat3` | GETATTR answered NFS3ERR_STALE (70): the header error is +70 | a negative errno | high, not executed | VirtioNfsOps.VirtioNfs.GetattrCbAsWritten | VirtioNfsOps.VirtioNfs.GetattrCb |
| virtionfs/virtionfs.c:198 | only `ino` of the attributes is written | any successful GETATTR: size, mode and times keep what the buffer held | the whole attributes with their timeout, as `setattr_cb` writes them | high, not executed | VirtioNfsOps.VirtioNfs.GetattrCbAsWritten | VirtioNfsOps.VirtioNfs.GetattrCb |
| virtionfs/virtionfs.c:233 | `&cb_data`, the address of the local pointer, is the callback data | any GETATTR: the callback reads the handler's dead stack slot as its chunk | pass `cb_data` | high, not executed | VirtioNfsOps.VirtioNfs.GetattrAsWritten | VirtioNfsOps.VirtioNfs.Getattr |
| virtionfs/virtionfs.c:236 | EWOULDBLOCK is returned even when the send failed | a send returning -1: no callback will come, and the request is never completed | complete at once when the send failed | high, not executed | VirtioNfsOps.VirtioNfs.GetattrAsWritten | VirtioNfsOps.VirtioNfs.Getattr |
| virtionfs/virtionfs.c:112 | 0 is returned after a successful send | any sent SETATTR: completed on return and again by `setattr_cb` | EWOULDBLOCK once the call is sent | medium, not executed | VirtioNfsOps.VirtioNfs.SetattrAsWritten | VirtioNfsOps.VirtioNfs.Setattr |
| virtionfs/virtionfs.c:179 | 0 is returned after a successful send | any sent LOOKUP: completed on return and again by `lookup_cb` | EWOULDBLOCK once the call is sent | medium, not executed | VirtioNfsOps.VirtioNfs.LookupAsWritten | VirtioNfsOps.VirtioNfs.Lookup |
| virtionfs/virtionfs.c:292-295 | a failed thread start jumps to `ret_errno` with `ret` still 0 from the mount | mount succeeds, `nfs_mt_service_thread_start` fails: INIT is answered without an error | store an error for every failing step | high, not executed | VirtioNfsOps.InitAsWrittenHidesThreadFailure | VirtioNfsOps.InitResultOf |
| virtionfs/mpool.c:16-17 | the head is only advanced when it has a successor, so the last free chunk stays on the list | an empty pool with `alloc_size` 2 and one successful `malloc`: two allocations return the same chunk | always advance the head, to NULL when it is the last | high, not executed | Mpool.DoubleHandout | Mpool.Pool.Alloc |
| virtionfs/mpool.c:31-32 | a failed last `malloc` calls `mpool_alloc` again, on a pool that may still be empty | `alloc_size` 1 and `malloc` failing: the call recurses until the stack is gone | return NULL when no chunk was obtained | high, not executed | Mpool.NoMemorySizeOne | Mpool.Pool.Alloc |
| virtionfs/mpool.c:51-54 | init frees the chunk the kept-last-head allocation still lists | `alloc_size` 2 and exactly one successful `malloc`: the chunk's `next` points at itself | a free list without repeats | high, not executed | Mpool.Pool.InitAsWritten | Mpool.Pool.Init |
| dpfs_kv/main.cpp:97-101 | an inner `fuse_entry_param` shadows the one whose timeouts are set | a LOOKUP of any existing file | reply the found inode with timeouts of 1 | high, not executed | KvFs.LookupAsWrittenUninitialisedTimeouts | KvFs.LookupReply |
| dpfs_kv/main.cpp:509 | `strcpy` copies the name into a 128-byte field unchecked, though STATFS announces names of 128 bytes | MKNOD of a 128-byte name | refuse a name with no room for its terminator | high, not executed | KvFs.NameMaxOverflows | KvFs.RamCloud.Mknod |
| dpfs_kv/main.cpp:195-197 | `offset` is never advanced, so every iovec is copied to the start of the buffer | a WRITE of two 2-byte iovecs 1,2 and 3,4 stores 3,4 and two unwritten bytes | the iovecs in order | high, not executed | KvIo.GatherAsWrittenKeepsLast | KvIo.Gather |
| dpfs_kv/main.cpp:347 | a read at the end stores `-EOF`, and with `EOF` = -1 that is +1 | a READ at offset 0 of an empty file | a reply of no bytes and no error | high, not executed | KvIo.ReadAtEnd | KvIo.ReadCompleted |
| dpfs_kv/main.cpp:584-617 | the object whose record did not fit was already taken from the enumerator | a READDIR whose buffer fills before the last object: the next call never lists it | keep the object for the next call | high, not executed | KvIo.ReaddirLosesEntry | KvIo.Readdir |
| dpfs_kv/main.cpp:234-238 | a WRITE sets `st_size` but keeps `st_blocks` | MKNOD, then a 4096-byte WRITE: 1 block, where SETATTR to 4096 gives 8 | recompute the blocks as SETATTR does | medium, not executed | KvIo.WriteKeepsStaleBlocks | KvIo.ResizedIsSetattrSize |
| dpfs_hal/src/rvfs.cpp:73-98 | the two loops store one `msg->iov` entry per count read from the request, checking neither count against the table's 259 entries nor the lengths against the message | a request of 260 empty input iovecs: `iov[259]` is stored, one past the table | refuse a request that does not fit the table or the message | medium, not executed | Rvfs.OversizedRequestOverrunsAsWritten | Rvfs.Hal.ReqHandler |
| dpfs_hal/src/rvfs.cpp:70 | `req_handler` walks `msg->req.buf_`, the pooled message's own buffer, not the request eRPC delivered | any request: a fresh message's zeroed buffer reads as a request with no iovecs | walk the delivered request | high, not executed | Rvfs.Hal.ReqHandlerAsWritten | Rvfs.Hal.ReqHandler |
| dpfs_hal/src/rvfs.cpp:160 | `queue_depth / VIRTIO_FS_MIN_DESCS` messages are preallocated, rounding down | queue depth 1 or 2: no message, so the first request reads `back()` of an empty vector | at least one message per accepted depth | high, not executed | Rvfs.SmallQueueDepthEmptyPool | Rvfs.PreallocCovers |
| dpfs_rvfs/dpu.cpp:85-90 | `avail.back()` is read before the pool is checked, and the pool is never filled | the first request on the DPU | take a pooled message if there is one, or allocate one, as the comment says | high, not executed | RvfsDpu.DpuState.FuseHandlerAsWritten | RvfsDpu.DpuState.FuseHandler |
| dpfs_rpc_dpu/main.cpp:51-53 | `response_func` decodes the request buffer instead of the response | any response: the output iovecs get the request's own inputs | decode `msg->resp` | high, not executed | RpcDpu.RpcState.ResponseFuncAsWritten | RpcDpu.RpcState.ResponseFunc |
| dpfs_rpc_dpu/main.cpp:96-98 | the state is the tag, the output iovecs and completion context are never stored, and 0 is returned | any request: `response_func` reads the state as a message, and the HAL completes the request before the reply | the message as tag, its iovecs and context stored, EWOULDBLOCK | high, not executed | RpcDpu.RpcState.FuseHandlerAsWritten | RpcDpu.RpcState.FuseHandler |
| virtiofs_emu_lowlevel/virtiofs_emu_ll.c:198 | the first-iovec check tests `in_iovcnt` twice | an unknown opcode with one input and no output iovec | both counts are checked | high, not executed | EmuLl.DispatchAsWrittenWritesPastEnd | EmuLl.DispatchInBounds |
| dpfs_hal/src/snap.c:163-166 | after a failed `pthread_create`, entries down to 0 are cancelled and joined, though entry 0 holds no thread; the loop then goes on creating | `nthreads` = 2 and the thread fails to start | cancel only the threads started | high, not executed | PollLoop.RunMultiAsWritten | PollLoop.RunMulti |
| dpfs_hal/src/snap.c:270 | the virtual function number is read from the "pf_id" key | `vf_id = "-1"` (no virtual function): the controller is asked for a virtual function numbered as the physical one | read "vf_id" | high, not executed | SnapHal.VfIsPfAsWritten | SnapHal.HalNewIff |
| dpfs_hal/src/snap.c:264-290 | the integer keys are read with `toml_string_in` and then used as integers | `pf_id = 0` written as a TOML integer: the HAL refuses to start | read them with `toml_int_in` | high, not executed | SnapHal.IntegerConfigAsWritten | SnapHal.HalNewIff |
