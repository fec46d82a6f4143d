/**
 * The NFSv4.1 client of the `dpfs_nfs` backend (dpfs_nfs/dpfs_nfs.c):
 * the open count that decides when CLOSE is sent, the WRITE operations a
 * FUSE write is split into, the copy of READ data into the reply
 * iovecs, and what each RPC callback does to the reply header and to the
 * session's slot table. Whether the RPC and the compound succeeded,
 * whether an allocation succeeded and whether a compound could be sent
 * are parameters.
 */
module NfsClient {
  import opened Common
  import opened Errno
  import opened FuseIov
  import opened FuseReply
  import NfsXdr
  import opened NfsSlots
  import opened NfsInodes
  import opened Chains

  const NFS4_OK: Uint32 := 0
  /** `NFS4_MAX_OPS`: the operations the client puts in one compound at most. */
  const NFS4_MAX_OPS: nat := 8
  /** The WRITE operations that fit after SEQUENCE and PUTFH. */
  const MAX_WRITES: nat := 6
  /** What `vwrite` keeps free in a request for everything but the data. */
  const WRITE_HEADROOM: nat := 4096

  // ----- Outcomes -----------------------------------------------------------

  /**
   * The error every callback sets before it reads the results: -EREMOTEIO
   * when the RPC failed, the mapped NFS status when the compound failed,
   * none when both succeeded.
   */
  function CompoundError(rpcOk: bool, status: Uint32): (e: int)
    ensures e == 0 <==> rpcOk && status == NFS4_OK
    ensures e <= 0
    ensures !rpcOk ==> e == -EREMOTEIO
  {
    if !rpcOk then -EREMOTEIO else if status != NFS4_OK then NfsXdr.ReplyError(status) else 0
  }

  /**
   * How a request handler ends once it holds its inode: deferred
   * (EWOULDBLOCK) when the compound is sent, otherwise 0 with -ENOMEM for
   * the callback data, -ENOENT for an unknown node or -EREMOTEIO for a
   * failed send in the header, checked in that order.
   */
  function Sent(allocOk: bool, inodeOk: bool, sendOk: bool, h: OutHeader): (r: (int, OutHeader))
    ensures r.0 == EWOULDBLOCK <==> allocOk && inodeOk && sendOk
    ensures r.0 == EWOULDBLOCK ==> r.1 == h
    ensures r.0 != EWOULDBLOCK ==> r.0 == 0 && r.1 == h.(error := r.1.error) && r.1.error < 0
    ensures !allocOk ==> r.1.error == -ENOMEM
    ensures allocOk && !inodeOk ==> r.1.error == -ENOENT
    ensures allocOk && inodeOk && !sendOk ==> r.1.error == -EREMOTEIO
  {
    if !allocOk then (0, h.(error := -ENOMEM))
    else if !inodeOk then (0, h.(error := -ENOENT))
    else if !sendOk then (0, h.(error := -EREMOTEIO))
    else (EWOULDBLOCK, h)
  }

  /**
   * `nfs4_clone_fh`: the length is copied before the bytes are
   * allocated, so a failed allocation leaves a handle length without
   * bytes behind.
   */
  function CloneFh(srcLen: nat, allocOk: bool): (r: (int, nat))
    ensures r.1 == srcLen
    ensures r.0 == 0 <==> allocOk
    ensures r.0 != 0 ==> r.0 == -ENOMEM
  {
    (if allocOk then 0 else -ENOMEM, srcLen)
  }

  // ----- The open count -------------------------------------------------------

  /** `atomic_fetch_add(&nopen, 1)` on the 64-bit counter. */
  function Inc64(n: Uint64): (r: Uint64)
    ensures r == (n + 1) % 0x1_0000_0000_0000_0000
  {
    if n == 0xFFFF_FFFF_FFFF_FFFF then 0 else n + 1
  }

  /** `atomic_fetch_sub(&nopen, 1)` on the 64-bit counter. */
  function Dec64(n: Uint64): (r: Uint64)
    ensures r == (n - 1) % 0x1_0000_0000_0000_0000
  {
    if n == 0 then 0xFFFF_FFFF_FFFF_FFFF else n - 1
  }

  /**
   * `release` keeps the count before the decrement in a `uint32_t` and
   * sends CLOSE unless that is more than 1.
   */
  predicate ReleaseCloses(n: Uint64)
  {
    n % 0x1_0000_0000 <= 1
  }

  /**
   * `release`: the open count drops by one; when it held at most one
   * open, PUTFH and CLOSE go out with the stateid of the OPEN. An unknown
   * node is -ENOENT.
   */
  method Release(i: Option<NfsInode>, allocOk: bool, sendOk: bool, h: OutHeader)
    returns (ret: int, h': OutHeader, close: bool)
    modifies if i.Some? then {i.value} else {}
    ensures i.None? ==> ret == 0 && h' == h.(error := -ENOENT) && !close
    ensures i.Some? ==> i.value.nopen == Dec64(old(i.value.nopen)) && i.value.fhOpenLen == old(i.value.fhOpenLen)
    ensures i.Some? && !ReleaseCloses(old(i.value.nopen)) ==> ret == 0 && h' == h && !close
    ensures i.Some? && ReleaseCloses(old(i.value.nopen)) ==>
      (ret, h') == Sent(allocOk, true, sendOk, h) && (close <==> ret == EWOULDBLOCK)
  {
    if i.None? {
      return 0, h.(error := -ENOENT), false;
    }
    var inode := i.value;
    var oldNopen: Uint32 := inode.nopen % 0x1_0000_0000;
    inode.nopen := Dec64(inode.nopen);
    if oldNopen > 1 {
      return 0, h, false;
    }
    var r := Sent(allocOk, true, sendOk, h);
    ret, h' := r.0, r.1;
    close := ret == EWOULDBLOCK;
  }

  /** `release_cb`: the slot is released; after a successful CLOSE the open file handle is gone. */
  method ReleaseCb(s: Session, slotid: nat, i: NfsInode, h: OutHeader, rpcOk: bool, status: Uint32)
    returns (h': OutHeader)
    requires slotid < s.slots.Length
    modifies s.slots, i
    ensures s.slots[..] == Freed(old(s.slots[..]), slotid)
    ensures i.nopen == old(i.nopen) && i.fhLen == old(i.fhLen)
    ensures CompoundError(rpcOk, status) != 0 ==>
      h' == h.(error := CompoundError(rpcOk, status)) && i.fhOpenLen == old(i.fhOpenLen)
    ensures CompoundError(rpcOk, status) == 0 ==> h' == h && i.fhOpenLen == 0
  {
    s.Release(slotid);
    var e := CompoundError(rpcOk, status);
    if e != 0 {
      return h.(error := e);
    }
    i.fhOpenLen := 0;
    h' := h;
  }

  /**
   * `vopen` as written: an inode that is already open is counted and
   * given its open reply, but the handler goes on to send OPEN anyway,
   * whose callback counts it a second time.
   */
  method OpenAsWritten(i: Option<NfsInode>, allocOk: bool, sendOk: bool, h: OutHeader)
    returns (ret: int, h': OutHeader, sent: bool)
    modifies if i.Some? then {i.value} else {}
    ensures i.None? ==> ret == 0 && h' == h.(error := -ENOENT) && !sent
    ensures i.Some? ==>
      && i.value.nopen == (if old(i.value.nopen) > 0 then Inc64(old(i.value.nopen)) else old(i.value.nopen))
      && (ret, h') == Sent(allocOk, true, sendOk, if old(i.value.nopen) > 0 then ReplyOpen(h, NoFileInfo).0 else h)
      && (sent <==> ret == EWOULDBLOCK)
  {
    if i.None? {
      return 0, h.(error := -ENOENT), false;
    }
    var inode := i.value;
    var h1 := h;
    if inode.nopen > 0 {
      inode.nopen := Inc64(inode.nopen);
      h1 := h1.(len := h1.len + OPEN_OUT_SIZE);
    }
    var r := Sent(allocOk, true, sendOk, h1);
    ret, h' := r.0, r.1;
    sent := ret == EWOULDBLOCK;
  }

  /** `vopen` returning as its comment says: an open file is counted once more and answered at once. */
  method Open(i: Option<NfsInode>, allocOk: bool, sendOk: bool, h: OutHeader)
    returns (ret: int, h': OutHeader, sent: bool)
    modifies if i.Some? then {i.value} else {}
    ensures i.None? ==> ret == 0 && h' == h.(error := -ENOENT) && !sent
    ensures i.Some? && old(i.value.nopen) > 0 ==>
      i.value.nopen == Inc64(old(i.value.nopen)) && ret == 0 && h' == ReplyOpen(h, NoFileInfo).0 && !sent
    ensures i.Some? && old(i.value.nopen) == 0 ==>
      i.value.nopen == 0 && (ret, h') == Sent(allocOk, true, sendOk, h) && (sent <==> ret == EWOULDBLOCK)
  {
    if i.None? {
      return 0, h.(error := -ENOENT), false;
    }
    var inode := i.value;
    if inode.nopen > 0 {
      inode.nopen := Inc64(inode.nopen);
      return 0, h.(len := h.len + OPEN_OUT_SIZE), false;
    }
    var r := Sent(allocOk, true, sendOk, h);
    ret, h' := r.0, r.1;
    sent := ret == EWOULDBLOCK;
  }

  /**
   * `vopen_cb`: after a successful compound the open is counted before
   * the handle from GETFH is cloned, so a failed clone or a server asking
   * for OPEN_CONFIRM answers with an error while the count stays raised.
   */
  method OpenCb(s: Session, slotid: nat, i: NfsInode, h: OutHeader, rpcOk: bool, status: Uint32,
                fhLen: nat, cloneOk: bool, confirm: bool)
    returns (h': OutHeader)
    requires slotid < s.slots.Length
    modifies s.slots, i
    ensures s.slots[..] == Freed(old(s.slots[..]), slotid)
    ensures i.fhLen == old(i.fhLen)
    ensures CompoundError(rpcOk, status) != 0 ==>
      h' == h.(error := CompoundError(rpcOk, status)) && i.nopen == old(i.nopen) && i.fhOpenLen == old(i.fhOpenLen)
    ensures CompoundError(rpcOk, status) == 0 ==> i.nopen == Inc64(old(i.nopen)) && i.fhOpenLen == fhLen
    ensures CompoundError(rpcOk, status) == 0 && !cloneOk ==> h' == h.(error := -ENOMEM)
    ensures CompoundError(rpcOk, status) == 0 && cloneOk ==>
      h' == if confirm then ReplyOpen(h, NoFileInfo).0.(error := -EREMOTEIO) else ReplyOpen(h, NoFileInfo).0
  {
    s.Release(slotid);
    var e := CompoundError(rpcOk, status);
    if e != 0 {
      return h.(error := e);
    }
    i.nopen := Inc64(i.nopen);
    var c := CloneFh(fhLen, cloneOk);
    i.fhOpenLen := c.1;
    if c.0 < 0 {
      return h.(error := c.0);
    }
    h' := h.(len := h.len + OPEN_OUT_SIZE);
    if confirm {
      h' := h'.(error := -EREMOTEIO);
    }
  }

  /** A FUSE request that changes the open count, answered successfully. */
  datatype Call = OpenCall | ReleaseCall

  /** The count after a successful FUSE open as written: `vopen` and `vopen_cb` both count an open file. */
  function OpenedAsWritten(n: Uint64): (r: Uint64)
    ensures n == 0 ==> r == 1
    ensures 0 < n < 0xFFFF_FFFF_FFFF_FFFE ==> r == n + 2
  {
    if n > 0 then Inc64(Inc64(n)) else Inc64(n)
  }

  /**
   * The open count after a run of successful opens and releases from
   * `n`, and the number of CLOSE compounds the releases send.
   */
  function Replay(n: Uint64, calls: seq<Call>, asWritten: bool): (r: (Uint64, nat))
    decreases |calls|
  {
    if calls == [] then (n, 0)
    else if calls[0] == OpenCall then
      Replay(if asWritten then OpenedAsWritten(n) else Inc64(n), calls[1..], asWritten)
    else
      var rest := Replay(Dec64(n), calls[1..], asWritten);
      (rest.0, rest.1 + if ReleaseCloses(n) then 1 else 0)
  }

  /** `k` copies of one call. */
  function Repeat(c: Call, k: nat): (r: seq<Call>)
    ensures |r| == k && forall j :: 0 <= j < k ==> r[j] == c
  {
    seq(k, _ => c)
  }

  /** Replaying two runs one after the other. */
  lemma {:induction false} ReplayConcat(n: Uint64, a: seq<Call>, b: seq<Call>, asWritten: bool)
    ensures Replay(n, a + b, asWritten) ==
      (Replay(Replay(n, a, asWritten).0, b, asWritten).0,
       Replay(n, a, asWritten).1 + Replay(Replay(n, a, asWritten).0, b, asWritten).1)
    decreases |a|
  {
    if a == [] {
      assert a + b == b;
    } else {
      assert (a + b)[0] == a[0] && (a + b)[1..] == a[1..] + b;
      var n' := if a[0] == OpenCall then (if asWritten then OpenedAsWritten(n) else Inc64(n)) else Dec64(n);
      ReplayConcat(n', a[1..], b, asWritten);
    }
  }

  /** Corrected, `k` opens from `n` count `k` and close nothing. */
  lemma {:induction false} OpensCount(n: Uint64, k: nat)
    requires n + k < U64
    ensures Replay(n, Repeat(OpenCall, k), false) == (n + k, 0)
    decreases k
  {
    if k > 0 {
      assert Repeat(OpenCall, k)[1..] == Repeat(OpenCall, k - 1);
      OpensCount(n + 1, k - 1);
    }
  }

  /** As written, `k` opens of a file already open count twice each. */
  lemma {:induction false} OpensCountAsWritten(n: Uint64, k: nat)
    requires 0 < n && n + 2 * k < U64
    ensures Replay(n, Repeat(OpenCall, k), true) == (n + 2 * k, 0)
    decreases k
  {
    if k > 0 {
      assert Repeat(OpenCall, k)[1..] == Repeat(OpenCall, k - 1);
      OpensCountAsWritten(n + 2, k - 1);
    }
  }

  /** `k` releases from `n` opens leave `n - k`; only a release of the last open closes. */
  lemma {:induction false} ReleasesCount(n: Uint64, k: nat, asWritten: bool)
    requires k <= n < U32
    ensures Replay(n, Repeat(ReleaseCall, k), asWritten) == (n - k, if k > 0 && k == n then 1 else 0)
  {
    if k > 0 {
      assert Repeat(ReleaseCall, k)[1..] == Repeat(ReleaseCall, k - 1);
      ReleasesCount(n - 1, k - 1, asWritten);
    }
  }

  /** Corrected: `k` opens then `k` releases send exactly one CLOSE and leave the file closed. */
  lemma BalancedRunClosesOnce(k: nat)
    requires 0 < k < U32
    ensures Replay(0, Repeat(OpenCall, k) + Repeat(ReleaseCall, k), false) == (0, 1)
  {
    ReplayConcat(0, Repeat(OpenCall, k), Repeat(ReleaseCall, k), false);
    OpensCount(0, k);
    ReleasesCount(k, k, false);
  }

  /**
   * As written: once a file is opened twice, as many releases as opens
   * never send CLOSE, and `k - 1` opens stay counted.
   */
  lemma BalancedRunAsWrittenNeverCloses(k: nat)
    requires 2 <= k < 0x8000_0000
    ensures Replay(0, Repeat(OpenCall, k) + Repeat(ReleaseCall, k), true) == (k - 1, 0)
  {
    ReplayConcat(0, Repeat(OpenCall, k), Repeat(ReleaseCall, k), true);
    assert Repeat(OpenCall, k) == [OpenCall] + Repeat(OpenCall, k - 1);
    ReplayConcat(0, [OpenCall], Repeat(OpenCall, k - 1), true);
    assert Replay(0, [OpenCall], true) == (1, 0);
    OpensCountAsWritten(1, k - 1);
    ReleasesCount(2 * k - 1, k, true);
  }

  // ----- READ: copying the data into the reply ----------------------------------

  /** The bytes before a cursor position plus the length of its iovec stay within the total. */
  lemma PrefixPlusNext(L: seq<nat>, i: nat)
    requires i < |L|
    ensures Sum(L[..i]) + L[i] <= Sum(L)
  {
    IndexAdvance(L, i);
    SumPrefixMono(L, i + 1, |L|);
    assert L[..|L|] == L;
  }

  /** One pass of the copy loop of `iovec_write_buf` keeps `CopyInv` for the bytes that fit. */
  lemma WriteBufStep(vs: seq<seq<Byte>>, L: seq<nat>, c0: seq<Byte>, buf: seq<Byte>, m: nat,
                     i: nat, written: nat, c: nat, vs': seq<seq<Byte>>, i': nat, b': nat)
    requires m == Min(|buf|, Sum(L)) && written <= m
    requires CopyInv(vs, L, c0, 0, buf[..m], i, 0, written)
    requires written < |buf| && i < |vs|
    requires c == Min(|buf| - written, |vs[i]|)
    requires vs' == vs[i := buf[written..written + c] + vs[i][c..]]
    requires if c == |vs[i]| then i' == i + 1 && b' == 0 else i' == i && b' == c
    ensures written + c <= m && (written + c < |buf| ==> b' == 0)
    ensures CopyInv(vs', L, c0, 0, buf[..m], i', b', written + c)
  {
    var B := buf[..m];
    PrefixPlusNext(L, i);
    assert L[i] == |vs[i]|;
    if written < m {
      assert written + c <= m;
      assert c == Min(|B| - written, |vs[i]| - 0);
      assert B[written..written + c] == buf[written..written + c];
      assert vs[i][..0] + B[written..written + c] + vs[i][0 + c..] == buf[written..written + c] + vs[i][c..];
      CopyStep(vs, L, c0, 0, B, i, 0, written, c, vs', i', b');
    } else {
      assert c == 0;
      assert vs'[i] == vs[i];
      assert vs' == vs;
      IndexAdvance(L, i);
    }
  }

  /**
   * `iovec_write_buf`: `buf` is copied in order across the iovecs, each
   * from its start, until either runs out; the result is the number of
   * bytes copied.
   */
  method IovecWriteBuf(iov: seq<seq<Byte>>, buf: seq<Byte>) returns (vs: seq<seq<Byte>>, written: nat)
    ensures written == Min(|buf|, TotalLen(iov)) == Min(|buf|, |Flat(iov)|)
    ensures Lens(vs) == Lens(iov)
    ensures Flat(vs) == Overwrite(Flat(iov), 0, buf[..written])
  {
    ghost var L := Lens(iov);
    ghost var c0 := Flat(iov);
    ghost var m := Min(|buf|, Sum(L));
    ghost var b: nat := 0;
    FlatLength(iov);
    vs := iov;
    written := 0;
    var i := 0;
    while written != |buf| && i < |vs|
      invariant written <= m && (written < |buf| ==> b == 0)
      invariant CopyInv(vs, L, c0, 0, buf[..m], i, b, written)
      decreases |buf| - written, |vs| - i
    {
      var v := vs[i];
      var toCpy := Min(|buf| - written, |v|);
      var vs' := vs[i := buf[written..written + toCpy] + v[toCpy..]];
      var i' := i;
      ghost var b' := toCpy;
      if toCpy == |v| {
        i', b' := i + 1, 0;
      }
      WriteBufStep(vs, L, c0, buf, m, i, written, toCpy, vs', i', b');
      vs, i, b := vs', i', b';
      written := written + toCpy;
    }
    if i == |vs| {
      assert L[..|L|] == L;
    }
    CopyDone(vs, L, c0, 0, buf[..m], i, b);
  }

  /** `vread_cb`: the READ data goes into the reply iovecs, and the bytes copied are added to the length. */
  method ReadCb(s: Session, slotid: nat, h: OutHeader, rpcOk: bool, status: Uint32,
                data: seq<Byte>, outIov: seq<seq<Byte>>)
    returns (h': OutHeader, outIov': seq<seq<Byte>>)
    requires slotid < s.slots.Length
    modifies s.slots
    ensures s.slots[..] == Freed(old(s.slots[..]), slotid)
    ensures CompoundError(rpcOk, status) != 0 ==> h' == h.(error := CompoundError(rpcOk, status)) && outIov' == outIov
    ensures CompoundError(rpcOk, status) == 0 && outIov == [] ==> h' == h && outIov' == outIov
    ensures CompoundError(rpcOk, status) == 0 && outIov != [] ==>
      var n := Min(|data|, TotalLen(outIov));
      && n == Min(|data|, |Flat(outIov)|)
      && h' == h.(len := h.len + n) && Lens(outIov') == Lens(outIov)
      && Flat(outIov') == Overwrite(Flat(outIov), 0, data[..n])
  {
    s.Release(slotid);
    var e := CompoundError(rpcOk, status);
    if e != 0 {
      return h.(error := e), outIov;
    }
    h', outIov' := h, outIov;
    if |outIov| >= 1 {
      var written;
      outIov', written := IovecWriteBuf(outIov, data);
      h' := h.(len := h.len + written);
    }
  }

  // ----- WRITE: one operation per iovec -------------------------------------------

  /** `ca_maxrequestsize - 4096` in a 32-bit `count4`: a maximum below 4096 wraps to nearly 2^32. */
  function MaxWriteSize(maxRequest: Uint32): (m: Uint32)
    ensures maxRequest >= WRITE_HEADROOM ==> m == maxRequest - WRITE_HEADROOM
    ensures maxRequest < WRITE_HEADROOM ==> m == maxRequest + U32 - WRITE_HEADROOM
  {
    if maxRequest >= WRITE_HEADROOM then maxRequest - WRITE_HEADROOM else maxRequest + 0x1_0000_0000 - WRITE_HEADROOM
  }

  /** `uint64_t` addition. */
  function Add64(a: Uint64, b: nat): (r: Uint64)
    requires b < U64
    ensures r == (a + b) % 0x1_0000_0000_0000_0000
  {
    if a + b < 0x1_0000_0000_0000_0000 then a + b else a + b - 0x1_0000_0000_0000_0000
  }

  /** One WRITE operation: the file offset and the bytes of one iovec. */
  datatype WriteArg = WriteArg(offset: Uint64, data: seq<Byte>)

  /** The operations a WRITE compound announces (`argarray_len`), the WRITEs filled in, and the buffer hint. */
  datatype WriteCompound = WriteCompound(argLen: nat, writes: seq<WriteArg>, allocHint: nat)

  /**
   * The WRITEs `vwrite` emits for `iov` at file offset `base`: iovec `j`
   * goes to `base` plus the lengths before it, in order, as long as the
   * bytes so far stay below `maxw` and at most six WRITEs fit; the first
   * iovec that would reach `maxw`, or the seventh, stops the split.
   */
  ghost predicate IsSplit(iov: seq<seq<Byte>>, base: Uint64, maxw: nat, ops: seq<WriteArg>)
  {
    var k := |ops|;
    && k <= |iov| && k <= MAX_WRITES
    && (forall j :: 0 <= j < k ==> Sum(Lens(iov)[..j]) < U64 && ops[j] == WriteArg(Add64(base, Sum(Lens(iov)[..j])), iov[j]))
    && (k == 0 || Sum(Lens(iov)[..k]) < maxw)
    && (k == |iov| || k == MAX_WRITES || Sum(Lens(iov)[..k + 1]) >= maxw)
  }

  /** The WRITEs of the first iovecs, ending at `offset` bytes into the request. */
  ghost predicate SplitSoFar(iov: seq<seq<Byte>>, base: Uint64, maxw: nat, ops: seq<WriteArg>, offset: nat)
  {
    var k := |ops|;
    && k <= |iov| && k <= MAX_WRITES
    && offset == Sum(Lens(iov)[..k]) && offset <= TotalLen(iov) && (k == 0 || offset < maxw)
    && (forall j :: 0 <= j < k ==> Sum(Lens(iov)[..j]) < U64 && ops[j] == WriteArg(Add64(base, Sum(Lens(iov)[..j])), iov[j]))
  }

  /** One more iovec that stays below the limit extends the split. */
  lemma SplitStep(iov: seq<seq<Byte>>, base: Uint64, maxw: nat, ops: seq<WriteArg>, offset: nat)
    requires TotalLen(iov) < U64 && SplitSoFar(iov, base, maxw, ops, offset)
    requires |ops| < |iov| && |ops| < MAX_WRITES && offset + |iov[|ops|]| < maxw
    ensures SplitSoFar(iov, base, maxw, ops + [WriteArg(Add64(base, offset), iov[|ops|])], offset + |iov[|ops|]|)
  {
    var L := Lens(iov);
    var k := |ops|;
    IndexAdvance(L, k);
    PrefixPlusNext(L, k);
    var ops' := ops + [WriteArg(Add64(base, offset), iov[k])];
    forall j | 0 <= j < k + 1
      ensures Sum(L[..j]) < U64 && ops'[j] == WriteArg(Add64(base, Sum(L[..j])), iov[j])
    {
      if j < k {
        assert ops'[j] == ops[j];
      }
    }
  }

  /** Where the loop stops, the WRITEs so far are the split. */
  lemma SplitEnd(iov: seq<seq<Byte>>, base: Uint64, maxw: nat, ops: seq<WriteArg>, offset: nat)
    requires SplitSoFar(iov, base, maxw, ops, offset)
    requires |ops| == |iov| || |ops| == MAX_WRITES || offset + |iov[|ops|]| >= maxw
    ensures IsSplit(iov, base, maxw, ops)
  {
    if |ops| < |iov| {
      IndexAdvance(Lens(iov), |ops|);
    }
  }

  /**
   * The loop of `vwrite` that fills the WRITE operations, with the running
   * `offset`; the lengths of one request's iovecs sum below 2^64, so the
   * 64-bit `offset + iov_len` is the plain sum.
   */
  method EmitWrites(iov: seq<seq<Byte>>, base: Uint64, maxw: nat) returns (ops: seq<WriteArg>, offset: nat)
    requires TotalLen(iov) < U64
    ensures IsSplit(iov, base, maxw, ops) && offset == Sum(Lens(iov)[..|ops|])
  {
    ops, offset := [], 0;
    var j := 0;
    while j < |iov| && offset + |iov[j]| < maxw && 2 + j < NFS4_MAX_OPS
      invariant j == |ops| && SplitSoFar(iov, base, maxw, ops, offset)
    {
      SplitStep(iov, base, maxw, ops, offset);
      ops := ops + [WriteArg(Add64(base, offset), iov[j])];
      offset := offset + |iov[j]|;
      j := j + 1;
    }
    SplitEnd(iov, base, maxw, ops, offset);
  }

  /** A split is determined by the iovecs, the offset and the limit. */
  lemma SplitUnique(iov: seq<seq<Byte>>, base: Uint64, maxw: nat, ops1: seq<WriteArg>, ops2: seq<WriteArg>)
    requires IsSplit(iov, base, maxw, ops1) && IsSplit(iov, base, maxw, ops2)
    ensures ops1 == ops2
  {
    if |ops1| < |ops2| {
      SumPrefixMono(Lens(iov), |ops1| + 1, |ops2|);
    } else if |ops2| < |ops1| {
      SumPrefixMono(Lens(iov), |ops2| + 1, |ops1|);
    }
  }

  /**
   * The WRITEs carry the first iovecs whole and in order, each starting
   * in the file where the one before ends.
   */
  lemma SplitContiguous(iov: seq<seq<Byte>>, base: Uint64, maxw: nat, ops: seq<WriteArg>, j: nat)
    requires IsSplit(iov, base, maxw, ops) && j + 1 < |ops|
    ensures ops[j + 1].offset == Add64(ops[j].offset, |ops[j].data|)
  {
    IndexAdvance(Lens(iov), j);
  }

  /**
   * `vwrite` as written: the compound announces 2 + `in_iov_cnt`
   * operations although the loop may fill fewer WRITEs.
   */
  method VwriteAsWritten(iov: seq<seq<Byte>>, inOffset: Uint64, maxRequest: Uint32,
                         allocOk: bool, inodeOk: bool, sendOk: bool, h: OutHeader)
    returns (ret: int, h': OutHeader, sent: Option<WriteCompound>)
    requires TotalLen(iov) < U64
    ensures (ret, h') == Sent(allocOk, inodeOk, sendOk, h)
    ensures sent.Some? <==> ret == EWOULDBLOCK
    ensures sent.Some? ==>
      && sent.value.argLen == 2 + |iov|
      && IsSplit(iov, inOffset, MaxWriteSize(maxRequest), sent.value.writes)
      && sent.value.allocHint == Sum(Lens(iov)[..|sent.value.writes|])
  {
    if !allocOk {
      return 0, h.(error := -ENOMEM), None;
    }
    if !inodeOk {
      return 0, h.(error := -ENOENT), None;
    }
    var ops, offset := EmitWrites(iov, inOffset, MaxWriteSize(maxRequest));
    if !sendOk {
      return 0, h.(error := -EREMOTEIO), None;
    }
    return EWOULDBLOCK, h, Some(WriteCompound(2 + |iov|, ops, offset));
  }

  /** `vwrite` announcing exactly the operations it fills: SEQUENCE, PUTFH and the WRITEs. */
  method Vwrite(iov: seq<seq<Byte>>, inOffset: Uint64, maxRequest: Uint32,
                allocOk: bool, inodeOk: bool, sendOk: bool, h: OutHeader)
    returns (ret: int, h': OutHeader, sent: Option<WriteCompound>)
    requires TotalLen(iov) < U64
    ensures (ret, h') == Sent(allocOk, inodeOk, sendOk, h)
    ensures sent.Some? <==> ret == EWOULDBLOCK
    ensures sent.Some? ==>
      && sent.value.argLen == 2 + |sent.value.writes| <= NFS4_MAX_OPS
      && IsSplit(iov, inOffset, MaxWriteSize(maxRequest), sent.value.writes)
      && sent.value.allocHint == Sum(Lens(iov)[..|sent.value.writes|])
  {
    if !allocOk {
      return 0, h.(error := -ENOMEM), None;
    }
    if !inodeOk {
      return 0, h.(error := -ENOENT), None;
    }
    var ops, offset := EmitWrites(iov, inOffset, MaxWriteSize(maxRequest));
    if !sendOk {
      return 0, h.(error := -EREMOTEIO), None;
    }
    return EWOULDBLOCK, h, Some(WriteCompound(2 + |ops|, ops, offset));
  }

  /** `n` iovecs of one byte each. */
  function OneByteIovecs(n: nat): (r: seq<seq<Byte>>)
    ensures |r| == n && forall j :: 0 <= j < n ==> r[j] == [0]
  {
    seq(n, _ => [0])
  }

  lemma {:induction false} SumOfOnes(L: seq<nat>, k: nat)
    requires k <= |L| && forall j :: 0 <= j < |L| ==> L[j] == 1
    ensures Sum(L[..k]) == k
  {
    if k > 0 {
      SumOfOnes(L, k - 1);
      IndexAdvance(L, k - 1);
    }
  }

  /**
   * As written, seven one-byte iovecs under a limit above 7 are split into
   * six WRITEs, while the compound announces nine operations: one more
   * than NFS4_MAX_OPS, and one entry of the array never filled in.
   */
  lemma VwriteAsWrittenAnnouncesUnfilled(base: Uint64, maxw: nat, ops: seq<WriteArg>)
    requires maxw > 7 && IsSplit(OneByteIovecs(7), base, maxw, ops)
    ensures |ops| == MAX_WRITES && 2 + |OneByteIovecs(7)| == NFS4_MAX_OPS + 1 > 2 + |ops|
  {
    var L := Lens(OneByteIovecs(7));
    SumOfOnes(L, |ops|);
    if |ops| < MAX_WRITES {
      SumOfOnes(L, |ops| + 1);
    }
  }

  /** The bytes of the WRITE results, added up in the `uint32_t written` of `vwrite_cb`. */
  function Total32(counts: seq<Uint32>): (t: Uint32)
  {
    Sum(counts) % 0x1_0000_0000
  }

  /** One more count in the running `uint32_t` sum. */
  lemma Total32Step(counts: seq<Uint32>, i: nat)
    requires i < |counts|
    ensures Total32(counts[..i + 1]) ==
      if Total32(counts[..i]) + counts[i] < U32 then Total32(counts[..i]) + counts[i]
      else Total32(counts[..i]) + counts[i] - U32
  {
    IndexAdvance(counts, i);
    var S := Sum(counts[..i]);
    var w := S % 0x1_0000_0000;
    NfsXdr.ModUnique32(S, S / 0x1_0000_0000, w);
    if w + counts[i] < U32 {
      NfsXdr.ModUnique32(S + counts[i], S / 0x1_0000_0000, w + counts[i]);
    } else {
      NfsXdr.ModUnique32(S + counts[i], S / 0x1_0000_0000 + 1, w + counts[i] - U32);
    }
  }

  /** The loop of `vwrite_cb` over the WRITE results: the counts summed in a `uint32_t`. */
  method SumWritten(counts: seq<Uint32>) returns (written: Uint32)
    ensures written == Total32(counts)
  {
    written := 0;
    var i := 0;
    while i < |counts|
      invariant i <= |counts| && written == Total32(counts[..i])
    {
      Total32Step(counts, i);
      written := if written + counts[i] < 0x1_0000_0000 then written + counts[i] else written + counts[i] - 0x1_0000_0000;
      i := i + 1;
    }
    assert counts[..i] == counts;
  }

  /**
   * `vwrite_cb`: the slot is released; after a successful compound the
   * counts of the WRITE results are summed into `out_write->size` and the
   * write reply is added to the length.
   */
  method WriteCb(s: Session, slotid: nat, h: OutHeader, rpcOk: bool, status: Uint32, counts: seq<Uint32>)
    returns (h': OutHeader, size: Option<Uint32>)
    requires slotid < s.slots.Length
    modifies s.slots
    ensures s.slots[..] == Freed(old(s.slots[..]), slotid)
    ensures CompoundError(rpcOk, status) != 0 ==> h' == h.(error := CompoundError(rpcOk, status)) && size.None?
    ensures CompoundError(rpcOk, status) == 0 ==> h' == h.(len := h.len + WRITE_OUT_SIZE) && size == Some(Total32(counts))
  {
    s.Release(slotid);
    var e := CompoundError(rpcOk, status);
    if e != 0 {
      return h.(error := e), None;
    }
    var written := SumWritten(counts);
    return h.(len := h.len + WRITE_OUT_SIZE), Some(written);
  }

  /**
   * When the server writes every WRITE in full, the size reported is the
   * number of bytes the split sent, which stays below the limit.
   */
  lemma FullWritesReportSent(iov: seq<seq<Byte>>, base: Uint64, maxRequest: Uint32, ops: seq<WriteArg>, counts: seq<Uint32>)
    requires IsSplit(iov, base, MaxWriteSize(maxRequest), ops)
    requires |counts| == |ops| && forall j :: 0 <= j < |ops| ==> counts[j] == |ops[j].data|
    ensures Total32(counts) == Sum(Lens(iov)[..|ops|])
  {
    assert counts == Lens(iov)[..|ops|];
    if |ops| > 0 {
      NfsXdr.ModUnique32(Sum(counts), 0, Sum(counts));
    }
  }

  // ----- Attribute replies --------------------------------------------------------

  /**
   * `getattr_cb`, and `setattr_cb`, which is the same code: the decoded
   * attributes make the attribute reply; attributes that do not decode
   * are -EREMOTEIO.
   */
  method AttrCb(s: Session, slotid: nat, h: OutHeader, rpcOk: bool, status: Uint32, attrs: seq<Byte>, minor: nat)
    returns (h': OutHeader, attr: Option<NfsXdr.FuseAttr>)
    requires slotid < s.slots.Length
    modifies s.slots
    ensures s.slots[..] == Freed(old(s.slots[..]), slotid)
    ensures CompoundError(rpcOk, status) != 0 ==> h' == h.(error := CompoundError(rpcOk, status)) && attr.None?
    ensures CompoundError(rpcOk, status) == 0 && NfsXdr.ParseAttributesWith(attrs, true).Parsed? ==>
      h' == ReplyAttr(h, minor) && attr == Some(NfsXdr.ParseAttributesWith(attrs, true).value)
    ensures CompoundError(rpcOk, status) == 0 && !NfsXdr.ParseAttributesWith(attrs, true).Parsed? ==>
      h' == h.(error := -EREMOTEIO) && attr.None?
  {
    s.Release(slotid);
    var e := CompoundError(rpcOk, status);
    if e != 0 {
      return h.(error := e), None;
    }
    var p := NfsXdr.ParseAttributesWith(attrs, true);
    if p.Parsed? {
      return h.(len := h.len + AttrOutSize(minor)), Some(p.value);
    }
    return h.(error := -EREMOTEIO), None;
  }

  /**
   * `statfs_cb` as written: after a successful compound the length is
   * set to the statfs payload alone, dropping the header, and that also
   * when the attributes did not decode.
   */
  method StatfsCbAsWritten(s: Session, slotid: nat, h: OutHeader, rpcOk: bool, status: Uint32, attrs: seq<Byte>, minor: nat)
    returns (h': OutHeader, st: Option<NfsXdr.KStatfs>)
    requires slotid < s.slots.Length
    modifies s.slots
    ensures s.slots[..] == Freed(old(s.slots[..]), slotid)
    ensures CompoundError(rpcOk, status) != 0 ==> h' == h.(error := CompoundError(rpcOk, status)) && st.None?
    ensures CompoundError(rpcOk, status) == 0 ==> h'.len == StatfsOutSize(minor) && h'.unique == h.unique
    ensures CompoundError(rpcOk, status) == 0 && NfsXdr.ParseStatfs(attrs).Parsed? ==>
      h'.error == h.error && st == Some(NfsXdr.ParseStatfs(attrs).value)
    ensures CompoundError(rpcOk, status) == 0 && !NfsXdr.ParseStatfs(attrs).Parsed? ==>
      h'.error == -EREMOTEIO && st.None?
  {
    s.Release(slotid);
    var e := CompoundError(rpcOk, status);
    if e != 0 {
      return h.(error := e), None;
    }
    var p := NfsXdr.ParseStatfs(attrs);
    h', st := h, None;
    if p.Parsed? {
      st := Some(p.value);
    } else {
      h' := h'.(error := -EREMOTEIO);
    }
    h' := h'.(len := StatfsOutSize(minor));
  }

  /** `statfs_cb` adding the payload to the header, as the other callbacks do, and only when it decoded. */
  method StatfsCb(s: Session, slotid: nat, h: OutHeader, rpcOk: bool, status: Uint32, attrs: seq<Byte>, minor: nat)
    returns (h': OutHeader, st: Option<NfsXdr.KStatfs>)
    requires slotid < s.slots.Length
    modifies s.slots
    ensures s.slots[..] == Freed(old(s.slots[..]), slotid)
    ensures CompoundError(rpcOk, status) != 0 ==> h' == h.(error := CompoundError(rpcOk, status)) && st.None?
    ensures CompoundError(rpcOk, status) == 0 && NfsXdr.ParseStatfs(attrs).Parsed? ==>
      h' == ReplyStatfs(h, minor) && st == Some(NfsXdr.ParseStatfs(attrs).value)
    ensures CompoundError(rpcOk, status) == 0 && !NfsXdr.ParseStatfs(attrs).Parsed? ==>
      h' == h.(error := -EREMOTEIO) && st.None?
  {
    s.Release(slotid);
    var e := CompoundError(rpcOk, status);
    if e != 0 {
      return h.(error := e), None;
    }
    var p := NfsXdr.ParseStatfs(attrs);
    if p.Parsed? {
      return h.(len := h.len + StatfsOutSize(minor)), Some(p.value);
    }
    return h.(error := -EREMOTEIO), None;
  }

  /**
   * For a request whose header starts out bare, the length `statfs_cb`
   * sets as written is the correct one short of the 16-byte header.
   */
  lemma StatfsAsWrittenDropsHeader(unique: nat, minor: nat, asWritten: OutHeader, corrected: OutHeader)
    requires asWritten.len == StatfsOutSize(minor)
    requires corrected == ReplyStatfs(Begin(unique), minor)
    ensures asWritten.len + OUT_HEADER_SIZE == corrected.len
  {
  }

  // ----- LOOKUP -------------------------------------------------------------

  /** Every inode on the chains of a table. */
  ghost function InodesOf(bs: seq<seq<Slot<NfsInode>>>): set<NfsInode>
  {
    set h, j | 0 <= h < |bs| && 0 <= j < |bs[h]| :: bs[h][j].item
  }

  /** An inode found in a bucket is one of the table's inodes. */
  lemma FoundInInodes(bs: seq<seq<Slot<NfsInode>>>, h: nat, k: nat)
    requires h < |bs| && Find(bs[h], k).Some?
    ensures Find(bs[h], k).value in InodesOf(bs)
  {
    var j :| 0 <= j < |bs[h]| && bs[h][j] == Slot(k, Find(bs[h], k).value);
    assert bs[h][j].item == Find(bs[h], k).value;
  }

  /** The entry `lookup_cb` sends: the node id, its generation and the attributes. */
  datatype EntryOut = EntryOut(nodeid: nat, generation: nat, attr: NfsXdr.FuseAttr)

  /**
   * The inode part of `lookup_cb`: one more lookup is counted, and an
   * inode without a file handle is given the one GETFH returned; only
   * that clone can fail.
   */
  method CountLookup(i: NfsInode, fhLen: nat, cloneOk: bool) returns (ok: bool)
    modifies i
    ensures i.nlookup == old(i.nlookup) + 1
    ensures i.generation == old(i.generation) && i.nopen == old(i.nopen) && i.fhOpenLen == old(i.fhOpenLen)
    ensures old(i.fhLen) != 0 ==> ok && i.fhLen == old(i.fhLen)
    ensures old(i.fhLen) == 0 ==> i.fhLen == fhLen && (ok <==> cloneOk)
  {
    i.nlookup := i.nlookup + 1;
    ok := true;
    if i.fhLen == 0 {
      var c := CloneFh(fhLen, cloneOk);
      i.fhLen := c.1;
      ok := c.0 == 0;
    }
  }

  /**
   * `lookup_cb`: the attributes are decoded; the inode with their fileid
   * is found or created in the table, its lookup count raised, and the
   * file handle from GETFH kept when it had none. The entry then carries
   * the fileid as node id. Decoding failures are -EREMOTEIO, a failed
   * creation or clone -ENOMEM.
   */
  method LookupCb(s: Session, slotid: nat, t: ChainTable<NfsInode>, h: OutHeader, rpcOk: bool, status: Uint32,
                  attrs: seq<Byte>, minor: nat, allocOk: bool, fhLen: nat, cloneOk: bool)
    returns (h': OutHeader, entry: Option<EntryOut>, inode: Option<NfsInode>)
    requires slotid < s.slots.Length && t.Valid() && Keyed(t)
    modifies s.slots, t, InodesOf(t.buckets)
    ensures s.slots[..] == Freed(old(s.slots[..]), slotid)
    ensures t.Valid() && Keyed(t)
    ensures CompoundError(rpcOk, status) != 0 ==>
      h' == h.(error := CompoundError(rpcOk, status)) && entry.None? && inode.None? && t.buckets == old(t.buckets)
    ensures CompoundError(rpcOk, status) == 0 && !NfsXdr.ParseAttributesWith(attrs, true).Parsed? ==>
      h' == h.(error := -EREMOTEIO) && entry.None? && inode.None? && t.buckets == old(t.buckets)
    ensures inode.Some? ==>
      var a := NfsXdr.ParseAttributesWith(attrs, true);
      && CompoundError(rpcOk, status) == 0 && a.Parsed? && inode.value.fileid == a.value.ino
      && Find(t.buckets[a.value.ino % |t.buckets|], a.value.ino) == inode
      && (fresh(inode.value) ==> inode.value.nlookup == 1 && inode.value.generation == 0 && inode.value.fhLen == fhLen)
      && (!fresh(inode.value) ==> inode.value.nlookup == old(inode.value.nlookup) + 1
                                  && inode.value.generation == old(inode.value.generation)
                                  && inode.value.fhLen == if old(inode.value.fhLen) == 0 then fhLen else old(inode.value.fhLen))
    ensures CompoundError(rpcOk, status) == 0 && NfsXdr.ParseAttributesWith(attrs, true).Parsed? && inode.None? ==>
      h' == h.(error := -ENOMEM) && entry.None? && !allocOk
    ensures entry.Some? ==>
      && inode.Some? && h' == h.(len := h.len + EntryOutSize(minor))
      && entry.value == EntryOut(inode.value.fileid, inode.value.generation, NfsXdr.ParseAttributesWith(attrs, true).value)
    ensures inode.Some? && entry.None? ==> h' == h.(error := -ENOMEM) && !cloneOk
  {
    s.Release(slotid);
    var e := CompoundError(rpcOk, status);
    if e != 0 {
      return h.(error := e), None, None;
    }
    var p := NfsXdr.ParseAttributesWith(attrs, true);
    if !p.Parsed? {
      return h.(error := -EREMOTEIO), None, None;
    }
    var fileid := p.value.ino;
    ghost var before := Find(t.buckets[fileid % |t.buckets|], fileid);
    if before.Some? {
      FoundInInodes(t.buckets, fileid % |t.buckets|, fileid);
    }
    inode := Getsert(t, fileid, allocOk);
    if inode.None? {
      return h.(error := -ENOMEM), None, None;
    }
    var ok := CountLookup(inode.value, fhLen, cloneOk);
    if !ok {
      return h.(error := -ENOMEM), None, inode;
    }
    h' := h.(len := h.len + EntryOutSize(minor));
    entry := Some(EntryOut(fileid, inode.value.generation, p.value));
  }
}
