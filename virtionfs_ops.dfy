/**
 * The FUSE operations of virtionfs (virtionfs/virtionfs.c) over NFSv3:
 * the SETATTR arguments built from a FUSE SETATTR, the LOOKUP and GETATTR
 * requests, the callbacks that turn the NFS replies into FUSE replies, and
 * the `init` operation with the capabilities it asks for.
 *
 * A handler either completes its request on return (it returns anything
 * but EWOULDBLOCK) or leaves it to the completion callback
 * (dpfs_hal/include/dpfs/hal.h:25-28); `Completions` counts how often a
 * request is completed, and a request should be completed exactly once.
 *
 * The callback data of a request is a pool chunk (`CbData`) pointing at the
 * reply buffers and the completion context of the request (`Reply`). A chunk
 * handed out again by the pool still points at the request that used it
 * last, which is what makes an unfilled chunk dangerous.
 */
module VirtioNfsOps {
  import opened Common
  import opened Errno
  import NfsXdr
  import opened Nfs3Attr
  import FuseInit

  // ----- SETATTR arguments ------------------------------------------------

  /** `FUSE_SET_ATTR_*` bits of `valid`. */
  const FATTR_MODE: bv32 := 0x1
  const FATTR_UID: bv32 := 0x2
  const FATTR_GID: bv32 := 0x4
  const FATTR_SIZE: bv32 := 0x8
  const FATTR_ATIME: bv32 := 0x10
  const FATTR_MTIME: bv32 := 0x20
  const FATTR_ATIME_NOW: bv32 := 0x80
  const FATTR_MTIME_NOW: bv32 := 0x100

  /** `UTIME_NOW` of utimensat, `(1 << 30) - 1`. */
  const UTIME_NOW: Uint32 := 0x3FFF_FFFF

  /** `time_how` of the `sattr3` structure of RFC 1813. */
  const DONT_CHANGE: Uint32 := 0
  const SET_TO_SERVER_TIME: Uint32 := 1
  const SET_TO_CLIENT_TIME: Uint32 := 2

  function Has(valid: bv32, bit: bv32): bool
  {
    valid & bit != 0
  }

  /** A `struct timespec`: `time_t` seconds and `long` nanoseconds. */
  datatype Timespec = Timespec(sec: int, nsec: int)

  /** The `struct stat` fields a SETATTR reads; `size` is the signed `off_t`. */
  datatype Stat = Stat(mode: Uint32, uid: Uint32, gid: Uint32, size: int, atim: Timespec, mtim: Timespec)

  /** `set_mode3`, `set_uid3`, `set_gid3`: the `set_it` word and the value, as the argument struct holds them. */
  datatype Set32 = Set32(setIt: Uint32, value: Uint32)

  /** `set_size3`. */
  datatype Set64 = Set64(setIt: Uint32, value: Uint64)

  /** `set_atime`/`set_mtime`: the `time_how` word and the time. */
  datatype SetTime = SetTime(setIt: Uint32, time: NfsTime3)

  /** `sattr3`. */
  datatype Sattr3 = Sattr3(mode: Set32, uid: Set32, gid: Set32, size: Set64, atime: SetTime, mtime: SetTime)

  /** The `uint64_t` an `off_t` is converted to. */
  function Wrap64(x: int): Uint64
  {
    x % U64
  }

  /** A `timespec` stored into an `nfstime3`, both halves truncated to 32 bits. */
  function Time3(ts: Timespec): NfsTime3
  {
    NfsTime3(Wrap32(ts.sec), Wrap32(ts.nsec))
  }

  function Set32If(valid: bv32, bit: bv32, v: Uint32): Set32
  {
    if Has(valid, bit) then Set32(1, v) else Set32(0, 0)
  }

  /** The time half of `setattr` as written: `set_it` is 1 for both an explicit time and `_NOW`. */
  function SetTimeAsWritten(valid: bv32, bit: bv32, nowBit: bv32, ts: Timespec): SetTime
  {
    if !Has(valid, bit) then SetTime(0, NfsTime3(0, 0))
    else if Has(valid, nowBit) then SetTime(1, NfsTime3(0, UTIME_NOW))
    else SetTime(1, Time3(ts))
  }

  /** The SETATTR arguments `setattr` builds, on the zeroed struct. */
  function SetattrArgsAsWritten(valid: bv32, s: Stat): (args: Sattr3)
    ensures Has(valid, FATTR_ATIME) && Has(valid, FATTR_ATIME_NOW) ==>
      args.atime == SetTime(SET_TO_SERVER_TIME, NfsTime3(0, UTIME_NOW))
    ensures Has(valid, FATTR_MTIME) && Has(valid, FATTR_MTIME_NOW) ==>
      args.mtime == SetTime(SET_TO_SERVER_TIME, NfsTime3(0, UTIME_NOW))
  {
    Sattr3(Set32If(valid, FATTR_MODE, s.mode), Set32If(valid, FATTR_UID, s.uid), Set32If(valid, FATTR_GID, s.gid),
           if Has(valid, FATTR_SIZE) then Set64(1, Wrap64(s.size)) else Set64(0, 0),
           SetTimeAsWritten(valid, FATTR_ATIME, FATTR_ATIME_NOW, s.atim),
           SetTimeAsWritten(valid, FATTR_MTIME, FATTR_MTIME_NOW, s.mtim))
  }

  /** The time half as intended: the server's time for `_NOW`, the given time otherwise. */
  function SetTimeFor(valid: bv32, bit: bv32, nowBit: bv32, ts: Timespec): SetTime
  {
    if !Has(valid, bit) then SetTime(DONT_CHANGE, NfsTime3(0, 0))
    else if Has(valid, nowBit) then SetTime(SET_TO_SERVER_TIME, NfsTime3(0, 0))
    else SetTime(SET_TO_CLIENT_TIME, Time3(ts))
  }

  /** The SETATTR arguments with the times sent as intended. */
  function SetattrArgs(valid: bv32, s: Stat): (args: Sattr3)
    ensures args.atime.setIt != SET_TO_CLIENT_TIME || args.atime.time == Time3(s.atim)
    ensures args.mtime.setIt != SET_TO_CLIENT_TIME || args.mtime.time == Time3(s.mtim)
  {
    Sattr3(Set32If(valid, FATTR_MODE, s.mode), Set32If(valid, FATTR_UID, s.uid), Set32If(valid, FATTR_GID, s.gid),
           if Has(valid, FATTR_SIZE) then Set64(1, Wrap64(s.size)) else Set64(0, 0),
           SetTimeFor(valid, FATTR_ATIME, FATTR_ATIME_NOW, s.atim),
           SetTimeFor(valid, FATTR_MTIME, FATTR_MTIME_NOW, s.mtim))
  }

  // ----- What the server makes of them ------------------------------------

  /** A `set_*3` value the server applies: `set_it` is an XDR bool, so only 0 and 1 decode. */
  function Apply32(cur: Uint32, s: Set32): Option<Uint32>
  {
    if s.setIt == 0 then Some(cur) else if s.setIt == 1 then Some(s.value) else None
  }

  function Apply64(cur: Uint64, s: Set64): Option<Uint64>
  {
    if s.setIt == 0 then Some(cur) else if s.setIt == 1 then Some(s.value) else None
  }

  /**
   * A `set_atime`/`set_mtime` the server applies: DONT_CHANGE keeps the
   * time, SET_TO_SERVER_TIME takes the server's clock `now`, and only
   * SET_TO_CLIENT_TIME carries (and uses) the time sent.
   */
  function ApplyTime(cur: NfsTime3, s: SetTime, now: NfsTime3): Option<NfsTime3>
  {
    if s.setIt == DONT_CHANGE then Some(cur)
    else if s.setIt == SET_TO_SERVER_TIME then Some(now)
    else if s.setIt == SET_TO_CLIENT_TIME then Some(s.time)
    else None
  }

  /**
   * The attributes after a SETATTR as section 3.3.2 of RFC 1813 describes
   * it (the server's own change of ctime aside); none if the arguments do
   * not decode.
   */
  function Apply(a: Fattr3, args: Sattr3, now: NfsTime3): Option<Fattr3>
  {
    var m := Apply32(a.mode, args.mode);
    var u := Apply32(a.uid, args.uid);
    var g := Apply32(a.gid, args.gid);
    var z := Apply64(a.size, args.size);
    var at := ApplyTime(a.atime, args.atime, now);
    var mt := ApplyTime(a.mtime, args.mtime, now);
    if m.Some? && u.Some? && g.Some? && z.Some? && at.Some? && mt.Some? then
      Some(a.(mode := m.value, uid := u.value, gid := g.value, size := z.value, atime := at.value, mtime := mt.value))
    else None
  }

  /** A time as a FUSE SETATTR asks for it. */
  function TimeWanted(cur: NfsTime3, valid: bv32, bit: bv32, nowBit: bv32, ts: Timespec, now: NfsTime3): NfsTime3
  {
    if !Has(valid, bit) then cur else if Has(valid, nowBit) then now else Time3(ts)
  }

  /**
   * What a FUSE SETATTR asks for: each field flagged in `valid` takes the
   * value from `s` (a `_NOW` time the current time), every other field
   * keeps its value.
   */
  function Wanted(a: Fattr3, valid: bv32, s: Stat, now: NfsTime3): Fattr3
  {
    a.(mode := if Has(valid, FATTR_MODE) then s.mode else a.mode,
       uid := if Has(valid, FATTR_UID) then s.uid else a.uid,
       gid := if Has(valid, FATTR_GID) then s.gid else a.gid,
       size := if Has(valid, FATTR_SIZE) then Wrap64(s.size) else a.size,
       atime := TimeWanted(a.atime, valid, FATTR_ATIME, FATTR_ATIME_NOW, s.atim, now),
       mtime := TimeWanted(a.mtime, valid, FATTR_MTIME, FATTR_MTIME_NOW, s.mtim, now))
  }

  /** A time flagged in `valid` becomes the server's time, whatever was given. */
  function ServerTimeIf(cur: NfsTime3, valid: bv32, bit: bv32, now: NfsTime3): NfsTime3
  {
    if Has(valid, bit) then now else cur
  }

  /**
   * As written, every flagged field but the times is applied as asked,
   * and a flagged time always becomes the server's time: `set_it` 1 is
   * SET_TO_SERVER_TIME, so an explicit time is never sent.
   */
  lemma SetattrAsWrittenApplies(a: Fattr3, valid: bv32, s: Stat, now: NfsTime3)
    ensures Apply(a, SetattrArgsAsWritten(valid, s), now) ==
      Some(Wanted(a, valid, s, now).(atime := ServerTimeIf(a.atime, valid, FATTR_ATIME, now),
                                     mtime := ServerTimeIf(a.mtime, valid, FATTR_MTIME, now)))
  {
  }

  /** The explicit access time is lost whenever it differs from the server's clock. */
  lemma SetattrAsWrittenDropsTime(a: Fattr3, valid: bv32, s: Stat, now: NfsTime3)
    requires Has(valid, FATTR_ATIME) && !Has(valid, FATTR_ATIME_NOW) && Time3(s.atim) != now
    ensures Apply(a, SetattrArgsAsWritten(valid, s), now) != Some(Wanted(a, valid, s, now))
  {
    SetattrAsWrittenApplies(a, valid, s, now);
  }

  /** With SET_TO_CLIENT_TIME for explicit times, the server does what the FUSE SETATTR asks. */
  lemma SetattrArgsApply(a: Fattr3, valid: bv32, s: Stat, now: NfsTime3)
    ensures Apply(a, SetattrArgs(valid, s), now) == Some(Wanted(a, valid, s, now))
  {
  }

  // ----- Requests, callbacks and completion -------------------------------

  /** The status handed to the completion context (`enum snap_fs_dev_op_status`). */
  datatype FsStatus = OpSuccess | OpIoError

  /** `timeout_sec`/`timeout_nsec` of `struct virtionfs`. */
  datatype Timeout = Timeout(sec: Uint64, nsec: Uint32)

  const NFS3_OK: Uint32 := 0
  const NFS3ERR_MLINK: Uint32 := 31

  /**
   * The reply side of one FUSE request: the out header's error, the
   * `fuse_attr_out`/`fuse_entry_out` fields the callbacks write, and the
   * completions signalled through its completion context.
   */
  class Reply {
    var error: int
    var attr: NfsXdr.FuseAttr
    var attrValid: Timeout
    var nodeid: Uint64
    var generation: Uint64
    var entryValid: Timeout
    var completions: seq<FsStatus>

    /** Reply buffers holding `attr0` and no error, not yet completed. */
    constructor (attr0: NfsXdr.FuseAttr)
      ensures error == 0 && attr == attr0 && completions == []
    {
      error, attr, completions := 0, attr0, [];
      attrValid, entryValid := Timeout(0, 0), Timeout(0, 0);
      nodeid, generation := 0, 0;
    }
  }

  /** A pool chunk used as callback data: the `cb`, `out_hdr` and `out_*` pointers, all into one request. */
  class CbData {
    var reply: Reply?

    constructor ()
      ensures reply == null
    {
      reply := null;
    }
  }

  /** The `private_data` a handler hands to the RPC layer. */
  datatype Private = ChunkData(d: CbData) | LocalAddress

  /** The NFSv3 call a handler builds. */
  datatype Call =
    | SetattrCall(object: Uint64, args: Sattr3, data: Private)
    | LookupCall(dir: Uint64, name: seq<char>, data: Private)
    | GetattrCall(object: Uint64, data: Private)

  /**
   * How often a request is completed: once on return unless the handler
   * returned EWOULDBLOCK, and once more by the callback if the call was sent.
   */
  function Completions(ret: int, sent: bool): nat
  {
    (if ret == EWOULDBLOCK then 0 else 1) + (if sent then 1 else 0)
  }

  /** The results of the three calls: status, and the attributes when they follow. */
  datatype Setattr3Res = Setattr3Res(status: Uint32, after: Option<Fattr3>)
  datatype Lookup3Res = Lookup3Res(status: Uint32, attributes: Option<Fattr3>)
  datatype Getattr3Res = Getattr3Res(status: Uint32, attributes: Fattr3)

  /** An `nfsstat3` as a FUSE error: the codes up to NFS3ERR_MLINK are errno values, the rest -EIO. */
  function Nfs3Error(status: Uint32): (e: int)
    requires status != NFS3_OK
    ensures e < 0
    ensures status <= NFS3ERR_MLINK ==> e == -(status as int)
  {
    if status <= NFS3ERR_MLINK then -(status as int) else -EIO
  }

  /** The status the callbacks complete with: an RPC failure is an I/O error, anything else success. */
  function StatusOf(rpcOk: bool): FsStatus
  {
    if rpcOk then OpSuccess else OpIoError
  }

  /** `struct virtionfs`, as far as its operations read it. */
  class VirtioNfs {
    const timeout: Timeout

    constructor (timeout: Timeout)
      ensures this.timeout == timeout
    {
      this.timeout := timeout;
    }

    /**
     * `setattr_cb`: the post-op attributes of a successful SETATTR are the
     * reply, any NFS error or a reply without them is -ENOENT; the request
     * completes with an I/O error only when the RPC failed.
     */
    method SetattrCb(d: CbData, rpcOk: bool, res: Setattr3Res)
      requires d.reply != null
      modifies d.reply
      ensures var r := d.reply;
        r.completions == old(r.completions) + [StatusOf(rpcOk)] &&
        r.nodeid == old(r.nodeid) && r.generation == old(r.generation) && r.entryValid == old(r.entryValid)
      ensures var r := d.reply;
        if rpcOk && res.status == NFS3_OK && res.after.Some? then
          r.attr == ToFuseAttr(res.after.value) && r.attrValid == timeout && r.error == old(r.error)
        else
          r.attr == old(r.attr) && r.attrValid == old(r.attrValid) &&
          r.error == (if rpcOk then -ENOENT else old(r.error))
    {
      var r := d.reply;
      if rpcOk {
        if res.status == NFS3_OK {
          if res.after.Some? {
            r.attr := ToFuseAttr(res.after.value);
            r.attrValid := timeout;
          } else {
            r.error := -ENOENT;
          }
        } else {
          r.error := -ENOENT;
        }
      }
      r.completions := r.completions + [StatusOf(rpcOk)];
    }

    /**
     * `setattr` as written: the chunk is taken from the pool but never
     * filled, so the call carries whatever request the chunk pointed at
     * before; the handler returns 0, so a sent request is completed twice.
     */
    method SetattrAsWritten(req: Reply, nodeid: Uint64, valid: bv32, s: Stat, chunk: Option<CbData>, sendRes: int)
      returns (ret: int, call: Option<Call>)
      modifies req`error
      ensures ret == 0
      ensures chunk.None? ==> call.None? && req.error == -ENOMEM
      ensures chunk.Some? ==>
        call == Some(SetattrCall(nodeid, SetattrArgsAsWritten(valid, s), ChunkData(chunk.value))) &&
        chunk.value.reply == old(chunk.value.reply) &&
        req.error == (if sendRes != 0 then -sendRes else old(req.error))
      ensures chunk.Some? && sendRes == 0 ==> Completions(ret, true) == 2
    {
      if chunk.None? {
        req.error := -ENOMEM;
        return 0, None;
      }
      call := Some(SetattrCall(nodeid, SetattrArgsAsWritten(valid, s), ChunkData(chunk.value)));
      if sendRes != 0 {
        req.error := -sendRes;
      }
      ret := 0;
    }

    /**
     * `setattr` corrected: the chunk points at this request, the times are
     * sent as intended, and the request is completed exactly once.
     */
    method Setattr(req: Reply, nodeid: Uint64, valid: bv32, s: Stat, chunk: Option<CbData>, sendRes: int)
      returns (ret: int, call: Option<Call>)
      modifies req`error, if chunk.Some? then {chunk.value} else {}
      ensures chunk.None? ==> call.None? && req.error == -ENOMEM && ret == 0
      ensures chunk.Some? ==>
        call == Some(SetattrCall(nodeid, SetattrArgs(valid, s), ChunkData(chunk.value))) &&
        chunk.value.reply == req &&
        req.error == (if sendRes != 0 then -sendRes else old(req.error))
      ensures Completions(ret, call.Some? && sendRes == 0) == 1
    {
      if chunk.None? {
        req.error := -ENOMEM;
        return 0, None;
      }
      chunk.value.reply := req;
      call := Some(SetattrCall(nodeid, SetattrArgs(valid, s), ChunkData(chunk.value)));
      if sendRes != 0 {
        req.error := -sendRes;
        ret := 0;
      } else {
        ret := EWOULDBLOCK;
      }
    }

    /**
     * `lookup_cb` as written: an NFS error is stored in the header as the
     * positive `nfsstat3`.
     */
    method LookupCbAsWritten(d: CbData, rpcOk: bool, res: Lookup3Res)
      requires d.reply != null
      modifies d.reply
      ensures var r := d.reply; r.completions == old(r.completions) + [StatusOf(rpcOk)]
      ensures var r := d.reply;
        rpcOk && res.status != NFS3_OK ==> r.error == res.status > 0
      ensures var r := d.reply;
        (rpcOk && res.status == NFS3_OK && res.attributes.Some? ==>
           EntryFilled(r, res.attributes.value, timeout) && r.error == old(r.error)) &&
        (rpcOk && res.status == NFS3_OK && res.attributes.None? ==> r.error == -ENOENT) &&
        (!rpcOk ==> r.error == old(r.error))
    {
      var r := d.reply;
      if rpcOk {
        if res.status == NFS3_OK {
          if res.attributes.Some? {
            FillEntry(r, res.attributes.value);
          } else {
            r.error := -ENOENT;
          }
        } else {
          r.error := res.status;
        }
      }
      r.completions := r.completions + [StatusOf(rpcOk)];
    }

    /** `lookup_cb` corrected: an NFS error becomes a negative errno. */
    method LookupCb(d: CbData, rpcOk: bool, res: Lookup3Res)
      requires d.reply != null
      modifies d.reply
      ensures var r := d.reply; r.completions == old(r.completions) + [StatusOf(rpcOk)]
      ensures var r := d.reply;
        rpcOk && res.status != NFS3_OK ==> r.error == Nfs3Error(res.status) < 0
      ensures var r := d.reply;
        (rpcOk && res.status == NFS3_OK && res.attributes.Some? ==>
           EntryFilled(r, res.attributes.value, timeout) && r.error == old(r.error)) &&
        (rpcOk && res.status == NFS3_OK && res.attributes.None? ==> r.error == -ENOENT) &&
        (!rpcOk ==> r.error == old(r.error))
    {
      var r := d.reply;
      if rpcOk {
        if res.status == NFS3_OK {
          if res.attributes.Some? {
            FillEntry(r, res.attributes.value);
          } else {
            r.error := -ENOENT;
          }
        } else {
          r.error := Nfs3Error(res.status);
        }
      }
      r.completions := r.completions + [StatusOf(rpcOk)];
    }

    /** The `fuse_entry_out` of a found name: its attributes, its fileid as node id, generation 0. */
    method FillEntry(r: Reply, a: Fattr3)
      modifies r`attr, r`nodeid, r`generation, r`attrValid, r`entryValid
      ensures EntryFilled(r, a, timeout)
    {
      r.attr := ToFuseAttr(a);
      r.generation := 0;
      r.nodeid := a.fileid;
      r.attrValid := timeout;
      r.entryValid := timeout;
    }

    /**
     * `lookup` as written: the chunk is filled and LOOKUP sent, but the
     * handler returns 0, so a sent request is completed twice.
     */
    method LookupAsWritten(req: Reply, dir: Uint64, name: seq<char>, chunk: Option<CbData>, sendRes: int)
      returns (ret: int, call: Option<Call>)
      modifies req`error, if chunk.Some? then {chunk.value} else {}
      ensures ret == 0
      ensures chunk.None? ==> call.None? && req.error == -ENOMEM
      ensures chunk.Some? ==>
        call == Some(LookupCall(dir, name, ChunkData(chunk.value))) && chunk.value.reply == req &&
        req.error == (if sendRes != 0 then -sendRes else old(req.error))
      ensures chunk.Some? && sendRes == 0 ==> Completions(ret, true) == 2
    {
      if chunk.None? {
        req.error := -ENOMEM;
        return 0, None;
      }
      chunk.value.reply := req;
      call := Some(LookupCall(dir, name, ChunkData(chunk.value)));
      if sendRes != 0 {
        req.error := -sendRes;
      }
      ret := 0;
    }

    /** `lookup` corrected: EWOULDBLOCK once the call is sent, so the request is completed once. */
    method Lookup(req: Reply, dir: Uint64, name: seq<char>, chunk: Option<CbData>, sendRes: int)
      returns (ret: int, call: Option<Call>)
      modifies req`error, if chunk.Some? then {chunk.value} else {}
      ensures chunk.None? ==> call.None? && req.error == -ENOMEM && ret == 0
      ensures chunk.Some? ==>
        call == Some(LookupCall(dir, name, ChunkData(chunk.value))) && chunk.value.reply == req &&
        req.error == (if sendRes != 0 then -sendRes else old(req.error))
      ensures Completions(ret, call.Some? && sendRes == 0) == 1
    {
      if chunk.None? {
        req.error := -ENOMEM;
        return 0, None;
      }
      chunk.value.reply := req;
      call := Some(LookupCall(dir, name, ChunkData(chunk.value)));
      if sendRes != 0 {
        req.error := -sendRes;
        ret := 0;
      } else {
        ret := EWOULDBLOCK;
      }
    }

    /**
     * `getattr_cb` as written: of the attributes only `ino` is written,
     * the rest of the reply keeps what the buffer held, and an NFS error
     * is stored as the positive `nfsstat3`.
     */
    method GetattrCbAsWritten(d: CbData, rpcOk: bool, res: Getattr3Res)
      requires d.reply != null
      modifies d.reply
      ensures var r := d.reply; r.completions == old(r.completions) + [StatusOf(rpcOk)]
      ensures var r := d.reply; r.attrValid == old(r.attrValid)
      ensures var r := d.reply;
        rpcOk && res.status == NFS3_OK ==>
          r.attr == old(r.attr).(ino := res.attributes.fileid) && r.error == old(r.error)
      ensures var r := d.reply;
        rpcOk && res.status != NFS3_OK ==> r.error == res.status > 0 && r.attr == old(r.attr)
      ensures var r := d.reply; !rpcOk ==> r.error == old(r.error) && r.attr == old(r.attr)
    {
      var r := d.reply;
      if rpcOk {
        if res.status == NFS3_OK {
          r.attr := r.attr.(ino := res.attributes.fileid);
        } else {
          r.error := res.status;
        }
      }
      r.completions := r.completions + [StatusOf(rpcOk)];
    }

    /**
     * `getattr_cb` corrected: the whole `fuse_attr_out` is filled, as in
     * `setattr_cb`, and an NFS error becomes a negative errno.
     */
    method GetattrCb(d: CbData, rpcOk: bool, res: Getattr3Res)
      requires d.reply != null
      modifies d.reply
      ensures var r := d.reply; r.completions == old(r.completions) + [StatusOf(rpcOk)]
      ensures var r := d.reply;
        rpcOk && res.status == NFS3_OK ==>
          r.attr == ToFuseAttr(res.attributes) && r.attrValid == timeout && r.error == old(r.error)
      ensures var r := d.reply;
        rpcOk && res.status != NFS3_OK ==> r.error == Nfs3Error(res.status) < 0 && r.attr == old(r.attr)
      ensures var r := d.reply; !rpcOk ==> r.error == old(r.error) && r.attr == old(r.attr)
    {
      var r := d.reply;
      if rpcOk {
        if res.status == NFS3_OK {
          r.attr := ToFuseAttr(res.attributes);
          r.attrValid := timeout;
        } else {
          r.error := Nfs3Error(res.status);
        }
      }
      r.completions := r.completions + [StatusOf(rpcOk)];
    }

    /**
     * `getattr` as written: the chunk is filled, but the call carries the
     * address of the local variable holding it, and the handler returns
     * EWOULDBLOCK even when sending failed, so that request is never
     * completed.
     */
    method GetattrAsWritten(req: Reply, fh: Uint64, chunk: Option<CbData>, sendRes: int)
      returns (ret: int, call: Option<Call>)
      modifies req`error, if chunk.Some? then {chunk.value} else {}
      ensures chunk.None? ==> call.None? && req.error == -ENOMEM && ret == 0
      ensures chunk.Some? ==>
        call == Some(GetattrCall(fh, LocalAddress)) && chunk.value.reply == req && ret == EWOULDBLOCK &&
        req.error == (if sendRes != 0 then -sendRes else old(req.error))
      ensures chunk.Some? && sendRes != 0 ==> Completions(ret, false) == 0
    {
      if chunk.None? {
        req.error := -ENOMEM;
        return 0, None;
      }
      chunk.value.reply := req;
      call := Some(GetattrCall(fh, LocalAddress));
      if sendRes != 0 {
        req.error := -sendRes;
      }
      ret := EWOULDBLOCK;
    }

    /** `getattr` corrected: the chunk itself is the callback data, and a failed send completes at once. */
    method Getattr(req: Reply, fh: Uint64, chunk: Option<CbData>, sendRes: int)
      returns (ret: int, call: Option<Call>)
      modifies req`error, if chunk.Some? then {chunk.value} else {}
      ensures chunk.None? ==> call.None? && req.error == -ENOMEM && ret == 0
      ensures chunk.Some? ==>
        call == Some(GetattrCall(fh, ChunkData(chunk.value))) && chunk.value.reply == req &&
        req.error == (if sendRes != 0 then -sendRes else old(req.error))
      ensures Completions(ret, call.Some? && sendRes == 0) == 1
    {
      if chunk.None? {
        req.error := -ENOMEM;
        return 0, None;
      }
      chunk.value.reply := req;
      call := Some(GetattrCall(fh, ChunkData(chunk.value)));
      if sendRes != 0 {
        req.error := -sendRes;
        ret := 0;
      } else {
        ret := EWOULDBLOCK;
      }
    }
  }

  /** The `fuse_entry_out` fields of a found name. */
  ghost predicate EntryFilled(r: Reply, a: Fattr3, timeout: Timeout)
    reads r
  {
    r.attr == ToFuseAttr(a) && r.nodeid == a.fileid && r.generation == 0 &&
    r.attrValid == timeout && r.entryValid == timeout
  }

  /**
   * A chunk that served a LOOKUP and is handed out again to `setattr`
   * still points at the LOOKUP's request: the SETATTR callback would
   * write into, and complete, that other request.
   */
  method StaleChunk(fs: VirtioNfs, attr0: NfsXdr.FuseAttr, s: Stat)
    returns (mine: Reply, target: Reply?)
    ensures target != mine
  {
    var earlier := new Reply(attr0);
    var chunk := new CbData();
    var _, _ := fs.Lookup(earlier, 1, "a", Some(chunk), 0);
    mine := new Reply(attr0);
    var _, call := fs.SetattrAsWritten(mine, 2, FATTR_MODE, s, Some(chunk), 0);
    target := call.value.data.d.reply;
  }

  // ----- init -------------------------------------------------------------

  /** The capabilities `init` adds when offered; write-back caching only with a nonzero timeout. */
  function InitAdds(t: Timeout): set<FuseInit.Cap>
  {
    {FuseInit.ExportSupport, FuseInit.FlockLocks} +
    (if t.sec != 0 || t.nsec != 0 then {FuseInit.WritebackCache} else {})
  }

  /** The capabilities `init` always clears: splicing is not a thing with virtio-fs. */
  const INIT_DROPS: set<FuseInit.Cap> := {FuseInit.SpliceRead, FuseInit.SpliceWrite}

  /** The `want` set after `init`. */
  function InitWant(want: set<FuseInit.Cap>, capable: set<FuseInit.Cap>, t: Timeout): (w: set<FuseInit.Cap>)
    ensures FuseInit.ExportSupport in w <==> FuseInit.ExportSupport in capable + want
    ensures FuseInit.FlockLocks in w <==> FuseInit.FlockLocks in capable + want
    ensures FuseInit.WritebackCache in w <==>
      FuseInit.WritebackCache in want || ((t.sec != 0 || t.nsec != 0) && FuseInit.WritebackCache in capable)
    ensures FuseInit.SpliceRead !in w && FuseInit.SpliceWrite !in w
    ensures want <= capable ==> w <= capable
  {
    (want + InitAdds(t) * capable) - INIT_DROPS
  }

  /** `init` is a backend hook in the sense of the INIT negotiation. */
  lemma InitWantIsHook(want: set<FuseInit.Cap>, capable: set<FuseInit.Cap>, t: Timeout)
    ensures InitWant(want, capable, t) ==
      FuseInit.HookWant(FuseInit.InitHook(InitAdds(t), INIT_DROPS, 0, 0, false), capable, want)
  {
  }

  /** Any capability `init` does not mention keeps its place in `want`. */
  lemma InitWantKeepsOthers(want: set<FuseInit.Cap>, capable: set<FuseInit.Cap>, t: Timeout, c: FuseInit.Cap)
    requires c !in INIT_DROPS && c !in InitAdds(t)
    ensures c in InitWant(want, capable, t) <==> c in want
  {
  }

  /** The bit updates of `init` on the session's `want`. */
  method InitWants(se: FuseInit.Session, t: Timeout)
    modifies se`want
    ensures se.want == InitWant(old(se.want), se.capable, t)
  {
    if FuseInit.ExportSupport in se.capable {
      se.want := se.want + {FuseInit.ExportSupport};
    }
    if (t.sec != 0 || t.nsec != 0) && FuseInit.WritebackCache in se.capable {
      se.want := se.want + {FuseInit.WritebackCache};
    }
    if FuseInit.FlockLocks in se.capable {
      se.want := se.want + {FuseInit.FlockLocks};
    }
    se.want := se.want - {FuseInit.SpliceRead};
    se.want := se.want - {FuseInit.SpliceWrite};
  }

  /**
   * The outcomes of the steps of `init` after the capabilities: whether the
   * request names a nonzero uid and gid, `seteuid`/`setegid`, the value
   * `nfs_mount` returns, the service thread start, the send of the root
   * handle request, and `errno` after a failure.
   */
  datatype InitEnv = InitEnv(setIds: bool, seteuidOk: bool, setegidOk: bool, mountRet: int,
                             threadOk: bool, sendOk: bool, errno: Errnum)

  /** How `init` ends: a reply (with the error stored in the header, if any, and whether the root handle was asked for), or `exit`. */
  datatype InitResult = Replied(error: Option<int>, rootFhRequested: bool) | Exited(code: int)

  /** Every step of `init` succeeded. */
  predicate InitSucceeds(e: InitEnv)
  {
    (e.setIds ==> e.seteuidOk && e.setegidOk) && e.mountRet == 0 && e.threadOk
  }

  /**
   * The ids were set, and then the mount failed with a return other than
   * -1 or the service thread did not start: `ret` does not hold -1 when
   * the error path is taken.
   */
  predicate LosesError(e: InitEnv)
  {
    && (e.setIds ==> e.seteuidOk && e.setegidOk)
    && ((e.mountRet != 0 && e.mountRet != -1) || (e.mountRet == 0 && !e.threadOk))
  }

  /**
   * `init` after the capabilities, as written: the error is stored only
   * when the failing step left -1 in `ret`, which a failed thread start
   * (after a successful mount) does not. It ends as the corrected `init`
   * except on exactly those failures, which it answers as a success that
   * never asks for the root handle.
   */
  function InitResultAsWritten(e: InitEnv): (r: InitResult)
    ensures r.Exited? <==> InitSucceeds(e) && !e.sendOk
    ensures r == Replied(None, true) <==> InitSucceeds(e) && e.sendOk
    ensures r != InitResultOf(e) <==> LosesError(e)
    ensures LosesError(e) ==> r == Replied(None, false)
  {
    if e.setIds && !e.seteuidOk then Replied(Some(-(e.errno as int)), false)
    else if e.setIds && !e.setegidOk then Replied(Some(-(e.errno as int)), false)
    else if e.mountRet != 0 then Replied(if e.mountRet == -1 then Some(-(e.errno as int)) else None, false)
    else if !e.threadOk then Replied(None, false)
    else if !e.sendOk then Exited(10)
    else Replied(None, true)
  }

  /** A failed service thread start is answered as a successful INIT, and the root handle is never asked for. */
  lemma InitAsWrittenHidesThreadFailure(e: InitEnv)
    requires (e.setIds ==> e.seteuidOk && e.setegidOk) && e.mountRet == 0 && !e.threadOk
    ensures InitResultAsWritten(e) == Replied(None, false)
  {
  }

  /** `init` corrected: every failing step stores an error. */
  function InitResultOf(e: InitEnv): (r: InitResult)
    ensures r == Replied(None, true) <==> InitSucceeds(e) && e.sendOk
    ensures r.Exited? <==> InitSucceeds(e) && !e.sendOk
    ensures !InitSucceeds(e) ==> r.Replied? && r.error.Some? && r.error.value < 0 && !r.rootFhRequested
  {
    if e.setIds && !e.seteuidOk then Replied(Some(-(e.errno as int)), false)
    else if e.setIds && !e.setegidOk then Replied(Some(-(e.errno as int)), false)
    else if e.mountRet != 0 then Replied(Some(if e.mountRet == -1 then -(e.errno as int) else -EIO), false)
    else if !e.threadOk then Replied(Some(-EIO), false)
    else if !e.sendOk then Exited(10)
    else Replied(None, true)
  }

  /** `init` as written: capabilities, then the steps; the handler returns 0 either way. */
  method InitAsWritten(se: FuseInit.Session, t: Timeout, e: InitEnv) returns (ret: int, r: InitResult)
    modifies se`want
    ensures se.want == InitWant(old(se.want), se.capable, t)
    ensures ret == 0 && r == InitResultAsWritten(e)
  {
    InitWants(se, t);
    r := InitResultAsWritten(e);
    ret := 0;
  }

  /** `init` corrected. */
  method Init(se: FuseInit.Session, t: Timeout, e: InitEnv) returns (ret: int, r: InitResult)
    modifies se`want
    ensures se.want == InitWant(old(se.want), se.capable, t)
    ensures ret == 0 && r == InitResultOf(e)
  {
    InitWants(se, t);
    r := InitResultOf(e);
    ret := 0;
  }
}
