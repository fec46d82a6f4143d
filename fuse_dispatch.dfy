/**
 * Request dispatch of the FUSE layer (dpfs_fuse/dpfs_fuse.cpp):
 * `fuse_ll_map` fills the handler table, `fuse_handle_req` checks the
 * request and picks a handler, and every `fuse_ll_*` handler checks its
 * iovec counts, then whether INIT has completed, then whether the backend
 * implements the operation, before handing the request on. INIT and
 * DESTROY are modelled in `FuseInit`; here they only pass their iovec
 * check.
 */
module FuseDispatch {
  import opened Common
  import opened Errno
  import opened FuseOps

  /** The handlers `fuse_ll_map` registers, one per implemented opcode. */
  datatype Handler =
    | Init | Destroy | Getattr | Lookup | Setattr | Opendir | Releasedir | Readdir | Readdirplus
    | Open | Release | Fsync | Fsyncdir | Create | Rmdir | Forget | BatchForget | Rename | Rename2
    | Read | Write | Mknod | Mkdir | Symlink | Statfs | Unlink | Readlink | Flush | Setlkw | Setlk
    | Fallocate

  /** Length of the handler table: one slot per opcode up to `MAX_OPCODE`. */
  const HANDLERS_LEN: nat := MAX_OPCODE + 1

  /** The opcode each handler is registered under. */
  function OpcodeOf(h: Handler): (op: nat)
    ensures 1 <= op <= MAX_OPCODE && Listed(op)
  {
    match h
    case Init => FUSE_INIT
    case Destroy => FUSE_DESTROY
    case Getattr => FUSE_GETATTR
    case Lookup => FUSE_LOOKUP
    case Setattr => FUSE_SETATTR
    case Opendir => FUSE_OPENDIR
    case Releasedir => FUSE_RELEASEDIR
    case Readdir => FUSE_READDIR
    case Readdirplus => FUSE_READDIRPLUS
    case Open => FUSE_OPEN
    case Release => FUSE_RELEASE
    case Fsync => FUSE_FSYNC
    case Fsyncdir => FUSE_FSYNCDIR
    case Create => FUSE_CREATE
    case Rmdir => FUSE_RMDIR
    case Forget => FUSE_FORGET
    case BatchForget => FUSE_BATCH_FORGET
    case Rename => FUSE_RENAME
    case Rename2 => FUSE_RENAME2
    case Read => FUSE_READ
    case Write => FUSE_WRITE
    case Mknod => FUSE_MKNOD
    case Mkdir => FUSE_MKDIR
    case Symlink => FUSE_SYMLINK
    case Statfs => FUSE_STATFS
    case Unlink => FUSE_UNLINK
    case Readlink => FUSE_READLINK
    case Flush => FUSE_FLUSH
    case Setlkw => FUSE_SETLKW
    case Setlk => FUSE_SETLK
    case Fallocate => FUSE_FALLOCATE
  }

  /**
   * The slot `op` of the table `fuse_ll_map` fills: the handler of an
   * implemented opcode, `None` (the unknown handler) for the others.
   */
  function Registered(op: int): (r: Option<Handler>)
  {
    match op
    case 1 => Some(Lookup)
    case 2 => Some(Forget)
    case 3 => Some(Getattr)
    case 4 => Some(Setattr)
    case 5 => Some(Readlink)
    case 6 => Some(Symlink)
    case 8 => Some(Mknod)
    case 9 => Some(Mkdir)
    case 10 => Some(Unlink)
    case 11 => Some(Rmdir)
    case 12 => Some(Rename)
    case 14 => Some(Open)
    case 15 => Some(Read)
    case 16 => Some(Write)
    case 17 => Some(Statfs)
    case 18 => Some(Release)
    case 20 => Some(Fsync)
    case 25 => Some(Flush)
    case 26 => Some(Init)
    case 27 => Some(Opendir)
    case 28 => Some(Readdir)
    case 29 => Some(Releasedir)
    case 30 => Some(Fsyncdir)
    case 32 => Some(Setlk)
    case 33 => Some(Setlkw)
    case 35 => Some(Create)
    case 38 => Some(Destroy)
    case 42 => Some(BatchForget)
    case 43 => Some(Fallocate)
    case 44 => Some(Readdirplus)
    case 45 => Some(Rename2)
    case _ => None
  }

  /** Every handler is registered under its own opcode, so the table holds each handler exactly once. */
  lemma RegisteredUnder(h: Handler)
    ensures Registered(OpcodeOf(h)) == Some(h)
  {
  }

  /** A slot holds a handler only under that handler's own opcode. */
  lemma RegisteredOnlyUnder(op: int)
    ensures Registered(op).Some? ==> OpcodeOf(Registered(op).value) == op
  {
  }

  /** The handlers `fuse_ll_map` registers, in the order it assigns them. */
  const REGISTRATIONS: seq<Handler> := [Init, Destroy, Getattr, Lookup, Setattr, Opendir, Releasedir, Readdir, Readdirplus, Open, Release, Fsync, Fsyncdir, Create, Rmdir, Forget, BatchForget, Rename, Rename2, Read, Write, Mknod, Mkdir, Symlink, Statfs, Unlink, Readlink, Flush, Setlkw, Setlk, Fallocate]

  /** Every handler is among the registrations. */
  lemma RegistrationsComplete(h: Handler)
    ensures h in REGISTRATIONS
  {
    match h
    case Init => assert REGISTRATIONS[0] == Init;
    case Destroy => assert REGISTRATIONS[1] == Destroy;
    case Getattr => assert REGISTRATIONS[2] == Getattr;
    case Lookup => assert REGISTRATIONS[3] == Lookup;
    case Setattr => assert REGISTRATIONS[4] == Setattr;
    case Opendir => assert REGISTRATIONS[5] == Opendir;
    case Releasedir => assert REGISTRATIONS[6] == Releasedir;
    case Readdir => assert REGISTRATIONS[7] == Readdir;
    case Readdirplus => assert REGISTRATIONS[8] == Readdirplus;
    case Open => assert REGISTRATIONS[9] == Open;
    case Release => assert REGISTRATIONS[10] == Release;
    case Fsync => assert REGISTRATIONS[11] == Fsync;
    case Fsyncdir => assert REGISTRATIONS[12] == Fsyncdir;
    case Create => assert REGISTRATIONS[13] == Create;
    case Rmdir => assert REGISTRATIONS[14] == Rmdir;
    case Forget => assert REGISTRATIONS[15] == Forget;
    case BatchForget => assert REGISTRATIONS[16] == BatchForget;
    case Rename => assert REGISTRATIONS[17] == Rename;
    case Rename2 => assert REGISTRATIONS[18] == Rename2;
    case Read => assert REGISTRATIONS[19] == Read;
    case Write => assert REGISTRATIONS[20] == Write;
    case Mknod => assert REGISTRATIONS[21] == Mknod;
    case Mkdir => assert REGISTRATIONS[22] == Mkdir;
    case Symlink => assert REGISTRATIONS[23] == Symlink;
    case Statfs => assert REGISTRATIONS[24] == Statfs;
    case Unlink => assert REGISTRATIONS[25] == Unlink;
    case Readlink => assert REGISTRATIONS[26] == Readlink;
    case Flush => assert REGISTRATIONS[27] == Flush;
    case Setlkw => assert REGISTRATIONS[28] == Setlkw;
    case Setlk => assert REGISTRATIONS[29] == Setlk;
    case Fallocate => assert REGISTRATIONS[30] == Fallocate;
  }

  /** The slots filled by the first `n` registrations: theirs hold the handler, every other slot is empty. */
  ghost predicate Filled(handlers: array<Option<Handler>>, n: nat)
    requires n <= |REGISTRATIONS|
    reads handlers
  {
    forall op :: 0 <= op < handlers.Length ==>
      handlers[op] == (if Registered(op).Some? && Registered(op).value in REGISTRATIONS[..n] then Registered(op) else None)
  }

  /** A prefix one longer is the prefix and the next registration. */
  lemma PrefixExtend(s: seq<Handler>, i: nat)
    requires i < |s|
    ensures s[..i + 1] == s[..i] + [s[i]]
  {
  }

  /**
   * `fuse_ll_map`: every slot is cleared, then each implemented opcode's
   * slot gets its handler. The assignments are made by walking the
   * registrations in the order the function lists them.
   */
  method Map() returns (handlers: array<Option<Handler>>)
    ensures fresh(handlers) && handlers.Length == HANDLERS_LEN
    ensures forall op :: 0 <= op < HANDLERS_LEN ==> handlers[op] == Registered(op)
  {
    handlers := new Option<Handler>[HANDLERS_LEN](_ => None);
    for i := 0 to |REGISTRATIONS|
      invariant Filled(handlers, i)
    {
      var h := REGISTRATIONS[i];
      RegisteredUnder(h);
      PrefixExtend(REGISTRATIONS, i);
      handlers[OpcodeOf(h)] := Some(h);
      forall op | 0 <= op < HANDLERS_LEN
        ensures Registered(op) == Some(h) ==> op == OpcodeOf(h)
      {
        RegisteredOnlyUnder(op);
      }
    }
    assert REGISTRATIONS[..|REGISTRATIONS|] == REGISTRATIONS;
    forall op | 0 <= op < HANDLERS_LEN && Registered(op).Some?
      ensures Registered(op).value in REGISTRATIONS
    {
      RegistrationsComplete(Registered(op).value);
    }
  }

  /**
   * What a request carries besides its opcode: the iovec counts, the
   * lengths of the data iovecs a READ (output iovecs from the second on)
   * or WRITE (input iovecs from the third on) brings, the byte count the
   * request asks for, and for SETLK/SETLKW whether `FUSE_LK_FLOCK` is set
   * and the lock type.
   */
  datatype Request = Request(inCnt: int, outCnt: int, dataLens: seq<nat>, size: nat, lkFlock: bool, lkType: int)

  /** The backend operations that exist (`f_ll->ops.*` not NULL); SETATTR counts either variant. */
  datatype BackendOp =
    | OpGetattr | OpLookup | OpSetattr | OpOpendir | OpReleasedir | OpReaddir | OpOpen | OpRelease
    | OpFsync | OpFsyncdir | OpCreate | OpRmdir | OpForget | OpBatchForget | OpRename | OpRead | OpWrite
    | OpMknod | OpMkdir | OpSymlink | OpStatfs | OpUnlink | OpFlush | OpFlock | OpFallocate | OpDestroy

  /** The backend operation a handler calls; READDIRPLUS shares `readdir`, RENAME2 `rename`, the locks `flock`. */
  function BackendOf(h: Handler): (b: Option<BackendOp>)
    ensures b.None? <==> h == Init || h == Readlink
  {
    match h
    case Init => None
    case Readlink => None
    case Destroy => Some(OpDestroy)
    case Getattr => Some(OpGetattr)
    case Lookup => Some(OpLookup)
    case Setattr => Some(OpSetattr)
    case Opendir => Some(OpOpendir)
    case Releasedir => Some(OpReleasedir)
    case Readdir => Some(OpReaddir)
    case Readdirplus => Some(OpReaddir)
    case Open => Some(OpOpen)
    case Release => Some(OpRelease)
    case Fsync => Some(OpFsync)
    case Fsyncdir => Some(OpFsyncdir)
    case Create => Some(OpCreate)
    case Rmdir => Some(OpRmdir)
    case Forget => Some(OpForget)
    case BatchForget => Some(OpBatchForget)
    case Rename => Some(OpRename)
    case Rename2 => Some(OpRename)
    case Read => Some(OpRead)
    case Write => Some(OpWrite)
    case Mknod => Some(OpMknod)
    case Mkdir => Some(OpMkdir)
    case Symlink => Some(OpSymlink)
    case Statfs => Some(OpStatfs)
    case Unlink => Some(OpUnlink)
    case Flush => Some(OpFlush)
    case Setlkw => Some(OpFlock)
    case Setlk => Some(OpFlock)
    case Fallocate => Some(OpFallocate)
  }

  /**
   * How a request ends in the FUSE layer.
   * - `Invalid`: the handler returns -EINVAL and writes nothing.
   * - `Replied(e)`: the reply header gets the request's `unique`, the
   *   header length and error `e`.
   * - `ErrorOnly(e)`: only the header's error field is written.
   * - `Passed(lockOp)`: the backend operation takes over, with the
   *   `flock` operation for the lock handlers (0 otherwise).
   * - `Silent`: nothing is written and nothing is sent.
   * - `Negotiated`: INIT, handled by `FuseInit`.
   */
  datatype Outcome =
    | Invalid
    | Replied(error: int)
    | ErrorOnly(error: int)
    | Passed(lockOp: bv32)
    | Silent
    | Negotiated

  /** Whether an outcome writes into the first output iovec. */
  predicate WritesReply(o: Outcome)
  {
    o.Replied? || o.ErrorOnly?
  }

  /** The iovec-count check each handler starts with, as written. */
  predicate IovOk(h: Handler, inCnt: int, outCnt: int)
  {
    match h
    case Init => inCnt == 2 && outCnt == 2
    case Destroy => inCnt == 1 && outCnt == 1
    case Forget => inCnt == 1 && outCnt == 0
    case BatchForget => inCnt == 1 && outCnt == 0
    case Statfs => inCnt == 1 && outCnt == 2
    case Read => inCnt == 2 && outCnt >= 2
    case Write => inCnt >= 2 && outCnt == 2
    case Readdir => inCnt > 1 || outCnt > 1
    case Readdirplus => inCnt > 1 || outCnt > 1
    case Readlink => true
    case Getattr => inCnt == 2 && outCnt == 2
    case Lookup => inCnt == 2 && outCnt == 2
    case Setattr => inCnt == 2 && outCnt == 2
    case Opendir => inCnt == 2 && outCnt == 2
    case Open => inCnt == 2 && outCnt == 2
    case Create => inCnt == 2 && outCnt == 2
    case Mknod => inCnt == 2 && outCnt == 2
    case Mkdir => inCnt == 2 && outCnt == 2
    case Symlink => inCnt == 2 && outCnt == 2
    case Releasedir => inCnt == 2 && outCnt == 1
    case Release => inCnt == 2 && outCnt == 1
    case Fsync => inCnt == 2 && outCnt == 1
    case Fsyncdir => inCnt == 2 && outCnt == 1
    case Rmdir => inCnt == 2 && outCnt == 1
    case Rename => inCnt == 2 && outCnt == 1
    case Rename2 => inCnt == 2 && outCnt == 1
    case Unlink => inCnt == 2 && outCnt == 1
    case Flush => inCnt == 2 && outCnt == 1
    case Setlkw => inCnt == 2 && outCnt == 1
    case Setlk => inCnt == 2 && outCnt == 1
    case Fallocate => inCnt == 2 && outCnt == 1
  }

  /** The readdir check the handler evidently means: both a `fuse_read_in` and a reply buffer. */
  predicate IovOkCorrected(h: Handler, inCnt: int, outCnt: int)
  {
    if h == Readdir || h == Readdirplus then inCnt > 1 && outCnt > 1 else IovOk(h, inCnt, outCnt)
  }

  /**
   * The iovecs a handler reads or writes once its check passed: the
   * input header and (except for the forgets, DESTROY and STATFS) the
   * operation's argument, and the output header and (for replies with a
   * body) the reply struct or data.
   */
  function InNeeded(h: Handler): (n: nat)
    ensures 1 <= n <= 2
  {
    if h in {Forget, BatchForget, Destroy, Statfs, Readlink} then 1 else 2
  }

  function OutNeeded(h: Handler): (n: nat)
    ensures n <= 2
  {
    match h
    case Forget => 0
    case BatchForget => 0
    case Destroy => 1
    case Readlink => 1
    case Releasedir => 1
    case Release => 1
    case Fsync => 1
    case Fsyncdir => 1
    case Rmdir => 1
    case Rename => 1
    case Rename2 => 1
    case Unlink => 1
    case Flush => 1
    case Setlkw => 1
    case Setlk => 1
    case Fallocate => 1
    case Readdir => 1
    case Readdirplus => 1
    case _ => 2
  }

  /** The `flock(2)` operation for a POSIX lock type, with `LOCK_NB` unless the caller may sleep. */
  function LockOp(lkType: int, sleep: bool): (op: bv32)
    ensures sleep ==> op & LOCK_NB == 0
    ensures !sleep ==> op & LOCK_NB == LOCK_NB
    ensures op & !LOCK_NB == (if lkType == F_RDLCK then LOCK_SH else if lkType == F_WRLCK then LOCK_EX
                              else if lkType == F_UNLCK then LOCK_UN else 0)
  {
    var op: bv32 := if lkType == F_RDLCK then LOCK_SH else if lkType == F_WRLCK then LOCK_EX
                    else if lkType == F_UNLCK then LOCK_UN else 0;
    if sleep then op else op | LOCK_NB
  }

  const F_RDLCK: int := 0
  const F_WRLCK: int := 1
  const F_UNLCK: int := 2
  const LOCK_SH: bv32 := 1
  const LOCK_EX: bv32 := 2
  const LOCK_NB: bv32 := 4
  const LOCK_UN: bv32 := 8

  /** Whether the handler lets the caller sleep: `fuse_ll_setlk` passes true as `fuse_ll_setlkw` does. */
  function SleepAsWritten(h: Handler): bool
  {
    true
  }

  /** The intended choice: only SETLKW may block. */
  function Sleep(h: Handler): bool
  {
    h == Setlkw
  }

  /**
   * One `fuse_ll_*` handler after dispatch, as written (`sleep` is the
   * blocking flag the lock handlers pass on): wrong iovec counts give
   * -EINVAL; before INIT completed every handler but INIT, DESTROY, the
   * forgets and READLINK replies -EBUSY; a missing backend operation
   * gives -ENOSYS (nothing at all for the forgets); READ and WRITE then
   * reject data iovecs that do not add up to the requested size; a lock
   * request without `FUSE_LK_FLOCK` gets -ENOSYS.
   */
  function HandleWith(h: Handler, r: Request, initDone: bool, ops: set<BackendOp>, sleep: bool,
                      iovOk: bool): (o: Outcome)
    ensures !iovOk && h != Readlink ==> o == Invalid
    ensures o == Replied(-EBUSY) <==>
      iovOk && !initDone && h !in {Init, Destroy, Forget, BatchForget, Readlink}
    ensures o.Passed? ==>
      && iovOk && BackendOf(h).Some? && BackendOf(h).value in ops
      && (initDone || h in {Destroy, Forget, BatchForget})
      && (h in {Read, Write} ==> Sum(r.dataLens) == r.size)
    ensures (iovOk && (initDone || h in {Destroy, Forget, BatchForget}) && BackendOf(h).Some?
             && BackendOf(h).value !in ops) ==> o == Replied(-ENOSYS) || o == Silent || o == Replied(0)
  {
    if h == Readlink then ErrorOnly(-ENOSYS)
    else if !iovOk then Invalid
    else if h == Init then Negotiated
    else if h == Destroy then (if OpDestroy in ops then Passed(0) else Replied(0))
    else if h == Forget || h == BatchForget then (if BackendOf(h).value in ops then Passed(0) else Silent)
    else if !initDone then Replied(-EBUSY)
    else if h == Setlk || h == Setlkw then
      (if !r.lkFlock then Replied(-ENOSYS)
       else if OpFlock in ops then Passed(LockOp(r.lkType, sleep))
       else Replied(-ENOSYS))
    else if BackendOf(h).value !in ops then Replied(-ENOSYS)
    else if (h == Read || h == Write) && Sum(r.dataLens) != r.size then Invalid
    else Passed(0)
  }

  /** The handlers as written. */
  function HandleAsWritten(h: Handler, r: Request, initDone: bool, ops: set<BackendOp>): (o: Outcome)
  {
    HandleWith(h, r, initDone, ops, SleepAsWritten(h), IovOk(h, r.inCnt, r.outCnt))
  }

  /** The handlers with the readdir check and SETLK's blocking flag as intended. */
  function Handle(h: Handler, r: Request, initDone: bool, ops: set<BackendOp>): (o: Outcome)
  {
    HandleWith(h, r, initDone, ops, Sleep(h), IovOkCorrected(h, r.inCnt, r.outCnt))
  }

  /**
   * `fuse_handle_req` as written: the "at least one iovec each way" test
   * checks `in_iovcnt` twice, an opcode outside 1..`MAX_OPCODE` is
   * rejected, and an opcode without a handler gets the unknown handler's
   * -ENOSYS reply.
   */
  function HandleReqAsWritten(opcode: int, r: Request, initDone: bool, ops: set<BackendOp>): (o: Outcome)
  {
    if r.inCnt < 1 || r.inCnt < 1 then Invalid
    else if opcode < 1 || opcode > MAX_OPCODE then Invalid
    else match Registered(opcode)
      case None => Replied(-ENOSYS)
      case Some(h) => HandleAsWritten(h, r, initDone, ops)
  }

  /** `fuse_handle_req` with both counts checked, and the corrected handlers. */
  function HandleReq(opcode: int, r: Request, initDone: bool, ops: set<BackendOp>): (o: Outcome)
    ensures r.inCnt < 1 || r.outCnt < 1 || opcode < 1 || opcode > MAX_OPCODE ==> o == Invalid
    ensures 1 <= opcode <= MAX_OPCODE && Registered(opcode).None? && r.inCnt >= 1 && r.outCnt >= 1 ==>
      o == Replied(-ENOSYS)
  {
    if r.inCnt < 1 || r.outCnt < 1 then Invalid
    else if opcode < 1 || opcode > MAX_OPCODE then Invalid
    else match Registered(opcode)
      case None => Replied(-ENOSYS)
      case Some(h) => Handle(h, r, initDone, ops)
  }

  /**
   * With both counts checked, whatever the dispatcher and the corrected
   * handlers do stays inside the iovecs the request has: a reply is only
   * written when there is an output iovec, and a request reaches the
   * backend only with every iovec the handler reads.
   */
  lemma HandleReqInBounds(opcode: int, r: Request, initDone: bool, ops: set<BackendOp>)
    ensures WritesReply(HandleReq(opcode, r, initDone, ops)) ==> r.outCnt >= 1
    ensures HandleReq(opcode, r, initDone, ops).Passed? ==>
      var h := Registered(opcode).value;
      r.inCnt >= InNeeded(h) && r.outCnt >= OutNeeded(h)
  {
  }

  /** As written, an unknown opcode with no output iovec still gets a reply written into one. */
  lemma HandleReqAsWrittenWritesPastEnd()
    ensures WritesReply(HandleReqAsWritten(7, Request(1, 0, [], 0, false, 0), true, {}))
  {
  }

  /** As written, READDIR reaches the backend with a single input iovec, so its `fuse_read_in` is missing. */
  lemma ReaddirAsWrittenReadsPastEnd()
    ensures var r := Request(1, 2, [], 0, false, 0);
      HandleAsWritten(Readdir, r, true, {OpReaddir}).Passed? && r.inCnt < InNeeded(Readdir)
  {
  }

  /** As written, SETLK's lock is requested without `LOCK_NB`, so a non-blocking lock request blocks. */
  lemma SetlkAsWrittenBlocks(lkType: int)
    ensures var o := HandleAsWritten(Setlk, Request(2, 1, [], 0, true, lkType), true, {OpFlock});
      o.Passed? && o.lockOp & LOCK_NB == 0
  {
  }

  /** Corrected, exactly SETLKW may block: SETLK asks for `LOCK_NB`, SETLKW does not. */
  lemma SetlkNonBlocking(h: Handler, r: Request, initDone: bool, ops: set<BackendOp>)
    requires h == Setlk || h == Setlkw
    requires Handle(h, r, initDone, ops).Passed?
    ensures Handle(h, r, initDone, ops).lockOp & LOCK_NB == (if h == Setlk then LOCK_NB else 0)
    ensures Handle(h, r, initDone, ops).lockOp & !LOCK_NB ==
      (if r.lkType == F_RDLCK then LOCK_SH else if r.lkType == F_WRLCK then LOCK_EX
       else if r.lkType == F_UNLCK then LOCK_UN else 0)
  {
  }

  /**
   * The size check of `fuse_ll_read`/`fuse_ll_write`: the data iovec
   * lengths are added up in a loop and compared with the requested size.
   */
  method DataSizeMatches(dataLens: seq<nat>, size: nat) returns (ok: bool)
    ensures ok <==> Sum(dataLens) == size
  {
    var total := 0;
    var i := 0;
    while i < |dataLens|
      invariant i <= |dataLens| && total == Sum(dataLens[..i])
    {
      assert dataLens[..i + 1] == dataLens[..i] + [dataLens[i]];
      SumAppend(dataLens[..i], dataLens[i]);
      total := total + dataLens[i];
      i := i + 1;
    }
    assert dataLens[..i] == dataLens;
    ok := total == size;
  }

  const FATTR_FH: bv32 := 0x40
  /** `FUSE_SET_ATTR_{MODE,UID,GID,SIZE,ATIME,MTIME,ATIME_NOW,MTIME_NOW,CTIME}`. */
  const SETATTR_KEPT: bv32 := 0x1 | 0x2 | 0x4 | 0x8 | 0x10 | 0x20 | 0x80 | 0x100 | 0x400

  /**
   * `fuse_ll_setattr` with the synchronous backend operation: the
   * `valid` mask the backend sees and whether it gets a file handle.
   * `FATTR_FH` turns into the handle and leaves the mask together with
   * every bit outside the nine attribute bits.
   */
  function SetattrValid(valid: bv32): (r: (bv32, bool))
    ensures r.1 <==> valid & FATTR_FH != 0
    ensures r.0 & !SETATTR_KEPT == 0 && r.0 & SETATTR_KEPT == valid & SETATTR_KEPT
  {
    var hasFh := valid & FATTR_FH != 0;
    var v := if hasFh then valid & !FATTR_FH else valid;
    (v & SETATTR_KEPT, hasFh)
  }
}
