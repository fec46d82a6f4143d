/**
 * The data path of the RAMCloud backend (dpfs_kv/main.cpp). WRITE gathers
 * the request's iovecs into one buffer and stores it as the whole file,
 * then updates the file size in the inode. READ copies a stored file into
 * the reply's iovecs. READDIR lists the inode table through the table
 * enumerator kept with the open directory.
 *
 * Every RAMCloud call is asynchronous. Its completion is modelled by a
 * method that is told how the call ended.
 */
module KvIo {
  import opened Common
  import opened Errno
  import opened FuseIov
  import opened KvFs
  import FuseReply

  /* ---------------------------------------------------------------- */
  /* Gathering the iovecs of a WRITE                                   */
  /* ---------------------------------------------------------------- */

  /** The flat bytes before position `k`, then those after it. */
  lemma FlatSplit(vs: seq<seq<Byte>>, k: nat)
    requires k <= |vs|
    ensures Flat(vs) == Flat(vs[..k]) + Flat(vs[k..])
    ensures |Flat(vs[..k])| <= TotalLen(vs)
  {
    assert vs == vs[..k] + vs[k..];
    FlatConcat(vs[..k], vs[k..]);
    FlatLength(vs);
  }

  /** One more iovec adds its bytes at the end. */
  lemma FlatStep(vs: seq<seq<Byte>>, i: nat)
    requires i < |vs|
    ensures Flat(vs[..i + 1]) == Flat(vs[..i]) + vs[i]
  {
    assert vs[..i + 1][..i] == vs[..i];
  }

  /** No single iovec is longer than all of them together. */
  lemma LensWithinTotal(vs: seq<seq<Byte>>)
    ensures forall i :: 0 <= i < |vs| ==> |vs[i]| <= TotalLen(vs)
  {
    forall i | 0 <= i < |vs|
      ensures |vs[i]| <= TotalLen(vs)
    {
      FlatSplit(vs, i + 1);
      FlatStep(vs, i);
    }
  }

  /**
   * The `size` loop of `IovecToBuf`: each length is cut to 32 bits and
   * added to a 32-bit sum. The transport checks that the lengths add up to
   * the 32-bit size of the write, so no addition wraps and the sum is the
   * total length.
   */
  method SumLen32(iovs: seq<seq<Byte>>) returns (size: Uint32)
    requires TotalLen(iovs) < U32
    ensures size == TotalLen(iovs)
  {
    size := 0;
    for i := 0 to |iovs|
      invariant size == |Flat(iovs[..i])|
    {
      FlatSplit(iovs, i + 1);
      FlatStep(iovs, i);
      size := Wrap32(size + Wrap32(|iovs[i]|));
    }
    assert iovs[..|iovs|] == iovs;
    FlatLength(iovs);
  }

  /** Bytes of a buffer, each known. */
  function Somes(s: seq<Byte>): (r: seq<Option<Byte>>)
    ensures |r| == |s|
  {
    seq(|s|, i requires 0 <= i < |s| => Some(s[i]))
  }

  /** `n` bytes of `new char[n]`, none of them written yet. */
  function Nones(n: nat): (r: seq<Option<Byte>>)
    ensures |r| == n
  {
    seq(n, i => None)
  }

  /** `memcpy(buf + p, w, |w|)`. */
  function Place(buf: seq<Option<Byte>>, p: nat, w: seq<Byte>): (r: seq<Option<Byte>>)
    requires p + |w| <= |buf|
    ensures |r| == |buf|
  {
    buf[..p] + Somes(w) + buf[p + |w|..]
  }

  /** The bytes of a buffer whose every byte is written. */
  function Stored(b: seq<Option<Byte>>): (s: seq<Byte>)
    requires forall i :: 0 <= i < |b| ==> b[i].Some?
    ensures |s| == |b|
  {
    seq(|b|, i requires 0 <= i < |b| => b[i].value)
  }

  /** Reading back the bytes of a written buffer gives the bytes written. */
  lemma StoredSomes(s: seq<Byte>)
    ensures forall i :: 0 <= i < |s| ==> Somes(s)[i] == Some(s[i])
    ensures Stored(Somes(s)) == s
  {
  }

  /** Placing `w` right after `f` known bytes extends them by `w`. */
  lemma PlaceAfter(f: seq<Byte>, w: seq<Byte>, k: nat)
    requires |w| <= k
    ensures Place(Somes(f) + Nones(k), |f|, w) == Somes(f + w) + Nones(k - |w|)
  {
    var b := Somes(f) + Nones(k);
    assert b[..|f|] == Somes(f);
    assert b[|f| + |w|..] == Nones(k - |w|);
  }

  /**
   * The buffer the copy loop of `IovecToBuf` leaves as written: every
   * iovec is copied to the start of the buffer, because `offset` is never
   * advanced, so later iovecs overwrite earlier ones.
   */
  function Stamped(vs: seq<seq<Byte>>, size: nat): (r: seq<Option<Byte>>)
    requires forall i :: 0 <= i < |vs| ==> |vs[i]| <= size
    ensures |r| == size
  {
    if vs == [] then Nones(size) else Place(Stamped(vs[..|vs| - 1], size), 0, vs[|vs| - 1])
  }

  /** The gathering branch of `IovecToBuf` as written. */
  method GatherAsWritten(iovs: seq<seq<Byte>>) returns (buf: seq<Option<Byte>>, size: Uint32)
    requires TotalLen(iovs) < U32
    ensures size == TotalLen(iovs)
    ensures (forall i :: 0 <= i < |iovs| ==> |iovs[i]| <= size) && buf == Stamped(iovs, size)
  {
    size := SumLen32(iovs);
    LensWithinTotal(iovs);
    buf := Nones(size);
    var offset := 0;
    for i := 0 to |iovs|
      invariant buf == Stamped(iovs[..i], size)
    {
      assert iovs[..i + 1][..i] == iovs[..i];
      buf := Place(buf, offset, iovs[i]);
    }
    assert iovs[..|iovs|] == iovs;
  }

  /**
   * Two iovecs of equal length, as written: the buffer holds the second
   * one followed by as many bytes that were never written, instead of
   * both iovecs in order.
   */
  lemma GatherAsWrittenKeepsLast(a: seq<Byte>, b: seq<Byte>)
    requires |a| == |b| > 0
    ensures Stamped([a, b], |a| + |b|) == Somes(b) + Nones(|a|)
    ensures Stamped([a, b], |a| + |b|) != Somes(a + b)
  {
    StampedPair(a, b);
    var s := Stamped([a, b], |a| + |b|);
    assert s[|b|] == None;
    assert Somes(a + b)[|b|] == Some(b[0]);
  }

  /** The second copy of two equal-length iovecs overwrites the first. */
  lemma StampedPair(a: seq<Byte>, b: seq<Byte>)
    requires |a| == |b|
    ensures Stamped([a, b], |a| + |b|) == Somes(b) + Nones(|a|)
  {
    var n := |a| + |b|;
    StampedOne(a, n);
    StampedLast(a, b, n);
    var s1 := Somes(a) + Nones(|b|);
    PlaceFront(s1, b);
    assert s1[|b|..] == Nones(|a|);
  }

  /** The copy of the last iovec goes over those of the ones before it. */
  lemma StampedLast(a: seq<Byte>, b: seq<Byte>, n: nat)
    requires |a| <= n && |b| <= n
    ensures Stamped([a, b], n) == Place(Stamped([a], n), 0, b)
  {
    assert [a, b][..1] == [a];
  }

  /** One copy into a fresh buffer fills its front. */
  lemma StampedOne(a: seq<Byte>, n: nat)
    requires |a| <= n
    ensures Stamped([a], n) == Somes(a) + Nones(n - |a|)
  {
    var none: seq<seq<Byte>> := [];
    assert [a][..0] == none;
    assert Stamped([a], n) == Place(Nones(n), 0, a);
    PlaceFront(Nones(n), a);
    NonesSuffix(n, |a|);
  }

  /** The unwritten bytes after position `k` of an unwritten buffer. */
  lemma NonesSuffix(n: nat, k: nat)
    requires k <= n
    ensures Nones(n)[k..] == Nones(n - k)
  {
    assert forall i :: 0 <= i < n - k ==> Nones(n)[k..][i] == None;
  }

  /** A copy to the start of a buffer. */
  lemma PlaceFront(buf: seq<Option<Byte>>, w: seq<Byte>)
    requires |w| <= |buf|
    ensures Place(buf, 0, w) == Somes(w) + buf[|w|..]
  {
    assert buf[..0] == [];
  }

  /** The gathering branch with `offset` advanced after each copy: the iovecs in order. */
  method Gather(iovs: seq<seq<Byte>>) returns (buf: seq<Option<Byte>>, size: Uint32)
    requires TotalLen(iovs) < U32
    ensures size == TotalLen(iovs) && buf == Somes(Flat(iovs))
  {
    size := SumLen32(iovs);
    buf := Nones(size);
    var offset := 0;
    for i := 0 to |iovs|
      invariant offset == |Flat(iovs[..i])| <= size
      invariant buf == Somes(Flat(iovs[..i])) + Nones(size - offset)
    {
      FlatSplit(iovs, i + 1);
      FlatStep(iovs, i);
      PlaceAfter(Flat(iovs[..i]), iovs[i], size - offset);
      buf := Place(buf, offset, iovs[i]);
      offset := offset + |iovs[i]|;
    }
    assert iovs[..|iovs|] == iovs;
    FlatLength(iovs);
    assert buf == Somes(Flat(iovs)) + [];
  }

  /**
   * `IovecToBuf`: one iovec is used in place; several are gathered into a
   * buffer of their own, which the destructor frees.
   */
  class IovecToBuf {
    const dealloc: bool
    const buf: seq<Option<Byte>>
    const size: Uint32

    constructor (iovs: seq<seq<Byte>>)
      requires TotalLen(iovs) < U32
      ensures buf == Somes(Flat(iovs)) && size == TotalLen(iovs)
      ensures dealloc <==> |iovs| != 1
    {
      if |iovs| == 1 {
        FlatStep(iovs, 0);
        assert iovs[..1] == iovs && iovs[..0] == [];
        FlatLength(iovs);
        buf := Somes(iovs[0]);
        size := Wrap32(|iovs[0]|);
        dealloc := false;
      } else {
        var b, n := Gather(iovs);
        buf, size := b, n;
        dealloc := true;
      }
    }
  }

  /* ---------------------------------------------------------------- */
  /* WRITE                                                             */
  /* ---------------------------------------------------------------- */

  /**
   * The inode update of `finish` as written: only `st_size` is set, so
   * `st_blocks` keeps counting the blocks of the old size.
   */
  function ResizedAsWritten(n: Inode, size: Uint32): (r: Inode)
    ensures r.attr.size == size && r.attr.blocks == n.attr.blocks
  {
    n.(attr := n.attr.(size := size))
  }

  /** The inode update with `st_blocks` recomputed, as SETATTR does for a new size. */
  function Resized(n: Inode, size: Uint32): (r: Inode)
    ensures r.attr.size == size
  {
    n.(attr := n.attr.(size := size, blocks := Blocks(size)))
  }

  /**
   * A WRITE that changes the size leaves the inode SETATTR leaves for the
   * same size alone, and its block count covers the new size.
   */
  lemma ResizedIsSetattrSize(n: Inode, size: Uint32)
    ensures Resized(n, size).attr == Masked(n.attr, n.attr.(size := size), FUSE_SET_ATTR_SIZE)
    ensures Resized(n, size).attr.blocks * 512 >= size
  {
    BlocksCover(size);
  }

  /**
   * As written, a file made by MKNOD and then written with 4096 bytes
   * reports one block, while SETATTR to the same size reports eight.
   */
  lemma WriteKeepsStaleBlocks(name: seq<Byte>)
    ensures ResizedAsWritten(NewInode(name), 4096).attr.blocks == 1
    ensures Masked(NewInode(name).attr, NewInode(name).attr.(size := 4096), FUSE_SET_ATTR_SIZE).blocks == 8
  {
    ResizedIsSetattrSize(NewInode(name), 4096);
  }

  /** `out_hdr->error = error` for a non-zero `error`. */
  function Flagged(h: FuseReply.OutHeader, error: int): (r: FuseReply.OutHeader)
    ensures r.len == h.len && r.unique == h.unique
    ensures r.error == (if error != 0 then error else h.error)
  {
    if error != 0 then h.(error := error) else h
  }

  /** What `finish` leaves: the reply header, `out_write->size` if set, and the inode written back if any. */
  datatype WriteEnd = WriteEnd(hdr: FuseReply.OutHeader, outSize: Option<Uint32>, written: Option<Inode>)

  /**
   * `finish`, given the header after both completions and the inode read:
   * an error stands; otherwise a changed size is written back to the inode
   * (a failing write is -EIO) and the reply carries `fuse_write_out`.
   */
  function FinishWrite(h: FuseReply.OutHeader, n: Option<Inode>, size: Uint32, inodeWriteOk: bool): (e: WriteEnd)
    requires h.error == 0 ==> n.Some?
    ensures e.hdr.error == 0 <==> h.error == 0 && (n.value.attr.size == size || inodeWriteOk)
    ensures e.hdr.error == 0 ==> e.hdr == h.(len := h.len + FuseReply.WRITE_OUT_SIZE) && e.outSize == Some(size)
    ensures e.hdr.error != 0 ==> e.outSize == None && e.written == None && e.hdr.len == h.len
    ensures e.written.Some? <==> e.hdr.error == 0 && n.value.attr.size != size
    ensures e.written.Some? ==> e.written.value == Resized(n.value, size)
  {
    if h.error != 0 then WriteEnd(h, None, None)
    else if n.value.attr.size == size then WriteEnd(h.(len := h.len + FuseReply.WRITE_OUT_SIZE), Some(size), None)
    else if !inodeWriteOk then WriteEnd(h.(error := -EIO), None, None)
    else WriteEnd(h.(len := h.len + FuseReply.WRITE_OUT_SIZE), Some(size), Some(Resized(n.value, size)))
  }

  /**
   * `AsyncWriteOp`: the data write and the inode read run side by side;
   * each completion calls `done`, and the second one calls `finish`,
   * which completes the request.
   */
  class AsyncWriteOp {
    const rc: RamCloud
    const key: Uint64
    const gathered: IovecToBuf
    /** The bytes gathered from the request. */
    ghost const bytes: seq<Byte>
    var hdr: FuseReply.OutHeader
    var outSize: Option<Uint32>
    var firstDone: bool
    var inode: Option<Inode>
    /** Calls of `dpfs_hal_async_complete`. */
    var completions: nat
    ghost var dataDone: bool
    ghost var attrDone: bool

    /** Between completions: `firstDone` records that one has run, and the request completes once both have. */
    ghost predicate Valid()
      reads this
    {
      && gathered.buf == Somes(bytes)
      && (firstDone <==> dataDone || attrDone)
      && completions == (if dataDone && attrDone then 1 else 0)
      && (attrDone && hdr.error == 0 ==> inode.Some?)
    }

    /** A completion has marked itself, and `done` has yet to run for it with `error`. */
    ghost predicate Pending(error: int)
      reads this
    {
      && gathered.buf == Somes(bytes)
      && (dataDone || attrDone)
      && (firstDone <==> dataDone && attrDone)
      && completions == 0
      && (attrDone && Flagged(hdr, error).error == 0 ==> inode.Some?)
    }

    /** Both calls issued; nothing has completed. */
    constructor (rc: RamCloud, key: Uint64, iovs: seq<seq<Byte>>, h: FuseReply.OutHeader)
      requires TotalLen(iovs) < U32
      ensures this.rc == rc && this.key == key && hdr == h
      ensures bytes == Flat(iovs) && gathered.size == TotalLen(iovs)
      ensures outSize == None && inode == None && !dataDone && !attrDone && Valid()
    {
      this.rc := rc;
      this.key := key;
      gathered := new IovecToBuf(iovs);
      bytes := Flat(iovs);
      hdr := h;
      outSize := None;
      firstDone := false;
      inode := None;
      completions := 0;
      dataDone := false;
      attrDone := false;
    }

    /** `done`: the error, if any, goes into the header; the second call finishes. */
    method Done(error: int, inodeWriteOk: bool)
      requires Pending(error)
      modifies this`hdr, this`outSize, this`firstDone, this`completions, rc`inodes
      ensures Valid()
      ensures !old(firstDone) ==>
        hdr == Flagged(old(hdr), error) && outSize == old(outSize) && rc.inodes == old(rc.inodes)
      ensures old(firstDone) ==>
        var e := FinishWrite(Flagged(old(hdr), error), inode, gathered.size, inodeWriteOk);
        && hdr == e.hdr && outSize == e.outSize
        && rc.inodes == (if e.written.Some? then old(rc.inodes)[key := e.written.value] else old(rc.inodes))
    {
      if error != 0 {
        hdr := hdr.(error := error);
      }
      if firstDone {
        var e := FinishWrite(hdr, inode, gathered.size, inodeWriteOk);
        if e.written.Some? {
          rc.inodes := rc.inodes[key := e.written.value];
        }
        hdr, outSize := e.hdr, e.outSize;
        completions := completions + 1;
      } else {
        firstDone := true;
      }
    }

    /** The completion of the data write: a failed call is -EIO. */
    method DataCompleted(ok: bool, inodeWriteOk: bool)
      requires Valid() && !dataDone
      modifies this, rc
      ensures Valid() && dataDone && attrDone == old(attrDone) && inode == old(inode)
      ensures rc.data == (if ok then old(rc.data)[key := bytes] else old(rc.data))
      ensures !old(attrDone) ==>
        hdr == Flagged(old(hdr), if ok then 0 else -EIO) && outSize == old(outSize) && rc.inodes == old(rc.inodes)
      ensures old(attrDone) ==>
        var e := FinishWrite(Flagged(old(hdr), if ok then 0 else -EIO), inode, gathered.size, inodeWriteOk);
        && hdr == e.hdr && outSize == e.outSize
        && rc.inodes == (if e.written.Some? then old(rc.inodes)[key := e.written.value] else old(rc.inodes))
    {
      if ok {
        StoredSomes(bytes);
        rc.data := rc.data[key := Stored(gathered.buf)];
      }
      dataDone := true;
      Done(if ok then 0 else -EIO, inodeWriteOk);
    }

    /** The completion of the inode read: anything but a well-sized inode is -EIO. */
    method AttrCompleted(o: ReadOutcome, inodeWriteOk: bool)
      requires Valid() && !attrDone
      modifies this, rc`inodes
      ensures Valid() && attrDone && dataDone == old(dataDone)
      ensures inode == (if o.Found? then Some(o.inode) else old(inode))
      ensures !old(dataDone) ==>
        hdr == Flagged(old(hdr), if o.Found? then 0 else -EIO) && outSize == old(outSize) && rc.inodes == old(rc.inodes)
      ensures old(dataDone) ==>
        var e := FinishWrite(Flagged(old(hdr), if o.Found? then 0 else -EIO), inode, gathered.size, inodeWriteOk);
        && hdr == e.hdr && outSize == e.outSize
        && rc.inodes == (if e.written.Some? then old(rc.inodes)[key := e.written.value] else old(rc.inodes))
    {
      if o.Found? {
        inode := Some(o.inode);
      }
      attrDone := true;
      Done(if o.Found? then 0 else -EIO, inodeWriteOk);
    }
  }

  /**
   * `fuse_write` run to its end, with the data write completing first or
   * second. A non-zero offset is refused at once. Otherwise the request
   * completes exactly once, and the reply and the tables do not depend on
   * the order of the two completions: the data is stored as the whole file
   * when its write succeeds, and the reply succeeds exactly when the data
   * write and the inode read succeed and the size either stays or is
   * written back.
   */
  method Write(rc: RamCloud, nodeid: Uint64, offset: Uint64, iovs: seq<seq<Byte>>, h: FuseReply.OutHeader,
               dataOk: bool, readOk: bool, inodeWriteOk: bool, dataFirst: bool)
    returns (ret: int, hdr: FuseReply.OutHeader, outSize: Option<Uint32>, completions: nat)
    requires h.error == 0 && TotalLen(iovs) < U32
    modifies rc
    ensures offset != 0 ==>
      && ret == 0 && hdr == h.(error := -EINVAL) && outSize == None && completions == 0
      && rc.data == old(rc.data) && rc.inodes == old(rc.inodes)
    ensures offset == 0 ==> ret == EWOULDBLOCK && completions == 1
    ensures offset == 0 ==> rc.data == if dataOk then old(rc.data)[nodeid := Flat(iovs)] else old(rc.data)
    ensures offset == 0 ==>
      var ok := dataOk && readOk && nodeid in old(rc.inodes)
                && (old(rc.inodes)[nodeid].attr.size == TotalLen(iovs) || inodeWriteOk);
      && (ok ==> hdr == h.(len := h.len + FuseReply.WRITE_OUT_SIZE) && outSize == Some(TotalLen(iovs)))
      && (ok && old(rc.inodes)[nodeid].attr.size != TotalLen(iovs) ==>
            rc.inodes == old(rc.inodes)[nodeid := Resized(old(rc.inodes)[nodeid], TotalLen(iovs))])
      && (!ok || old(rc.inodes)[nodeid].attr.size == TotalLen(iovs) ==> rc.inodes == old(rc.inodes))
      && (!ok ==> hdr == h.(error := -EIO) && outSize == None)
  {
    if offset != 0 {
      return 0, h.(error := -EINVAL), None, 0;
    }
    var o := InodeRead(rc.inodes, nodeid, readOk);
    var op := new AsyncWriteOp(rc, nodeid, iovs, h);
    if dataFirst {
      op.DataCompleted(dataOk, inodeWriteOk);
      op.AttrCompleted(o, inodeWriteOk);
    } else {
      op.AttrCompleted(o, inodeWriteOk);
      op.DataCompleted(dataOk, inodeWriteOk);
    }
    return EWOULDBLOCK, op.hdr, op.outSize, op.completions;
  }

  /* ---------------------------------------------------------------- */
  /* READ                                                              */
  /* ---------------------------------------------------------------- */

  /** How a read of a data object ends: its bytes, no such object, or a failed call. */
  datatype DataOutcome = Data(bytes: seq<Byte>) | NoObject | DataRpcFailed

  /** A read of key `key` from the data table, given whether the call itself succeeds. */
  function DataRead(data: map<Uint64, seq<Byte>>, key: Uint64, rpcOk: bool): (o: DataOutcome)
    ensures o.Data? <==> rpcOk && key in data
    ensures o.Data? ==> o.bytes == data[key]
  {
    if !rpcOk then DataRpcFailed else if key in data then Data(data[key]) else NoObject
  }

  /** The number of bytes of `d` from `pos` on. */
  function Avail(d: seq<Byte>, pos: nat): nat
  {
    if pos < |d| then |d| - pos else 0
  }

  /** `Buffer::copy`: how many bytes it copies, up to `len` from `pos` and none past the end of `d`. */
  function CopyLen(d: seq<Byte>, pos: nat, len: nat): nat
  {
    Min(len, Avail(d, pos))
  }

  /** The sizes of the copies into the iovecs, one per iovec filled, and whether a copy of nothing stopped the loop. */
  datatype ReadRun = ReadRun(sizes: seq<nat>, eof: bool)

  /** The copy loop of `AsyncReadOp::completed` over iovecs of lengths `lens`, reading from `pos`. */
  function ReadSizes(d: seq<Byte>, pos: nat, lens: seq<nat>): (r: ReadRun)
    ensures |r.sizes| <= |lens|
    decreases |lens|
  {
    if lens == [] then ReadRun([], false)
    else
      var n := CopyLen(d, pos, lens[0]);
      if n == 0 then ReadRun([], true)
      else
        var rest := ReadSizes(d, pos + n, lens[1..]);
        ReadRun([n] + rest.sizes, rest.eof)
  }

  /** `r` with the sizes `ls` in front. */
  function Preceded(ls: seq<nat>, r: ReadRun): ReadRun
  {
    ReadRun(ls + r.sizes, r.eof)
  }

  /**
   * Each copy holds some bytes and fits its iovec, every iovec before the
   * last one written is filled, and the loop stops early exactly when a
   * copy of nothing ended it.
   */
  lemma {:induction false} ReadSizesFit(d: seq<Byte>, pos: nat, lens: seq<nat>)
    ensures var r := ReadSizes(d, pos, lens);
      && (r.eof <==> |r.sizes| < |lens|)
      && (forall i :: 0 <= i < |r.sizes| ==> 0 < r.sizes[i] <= lens[i])
      && (forall i :: 0 <= i < |r.sizes| - 1 ==> r.sizes[i] == lens[i])
    decreases |lens|
  {
    if lens == [] {
      return;
    }
    var n := CopyLen(d, pos, lens[0]);
    if n == 0 {
      return;
    }
    var p := pos + n;
    var rest := ReadSizes(d, p, lens[1..]);
    var r := ReadSizes(d, pos, lens);
    assert r.sizes == [n] + rest.sizes && r.eof == rest.eof;
    ReadSizesFit(d, p, lens[1..]);
    forall i | 0 <= i < |r.sizes|
      ensures 0 < r.sizes[i] <= lens[i] && (i < |r.sizes| - 1 ==> r.sizes[i] == lens[i])
    {
      if i > 0 {
        assert r.sizes[i] == rest.sizes[i - 1] && lens[i] == lens[1..][i - 1];
      } else if |r.sizes| > 1 {
        assert CopyLen(d, p, lens[1..][0]) > 0;
        assert Avail(d, p) > 0;
      }
    }
  }

  /**
   * With no empty iovec, the loop reads as much as the iovecs hold or the
   * object has after `pos`, whichever is less.
   */
  lemma {:induction false} ReadSizesTotal(d: seq<Byte>, pos: nat, lens: seq<nat>)
    requires forall i :: 0 <= i < |lens| ==> lens[i] > 0
    ensures Sum(ReadSizes(d, pos, lens).sizes) == Min(Sum(lens), Avail(d, pos))
    decreases |lens|
  {
    if lens == [] {
      return;
    }
    SumFront(lens);
    var n := CopyLen(d, pos, lens[0]);
    if n == 0 {
      assert Avail(d, pos) == 0;
      return;
    }
    var p := pos + n;
    var rest := ReadSizes(d, p, lens[1..]);
    assert ReadSizes(d, pos, lens).sizes == [n] + rest.sizes;
    assert Sum([n] + rest.sizes) == n + Sum(rest.sizes) by {
      SumFront([n] + rest.sizes);
      assert ([n] + rest.sizes)[1..] == rest.sizes;
    }
    ReadSizesTotal(d, p, lens[1..]);
    if lens[0] <= Avail(d, pos) {
      assert n == lens[0] && Avail(d, p) == Avail(d, pos) - lens[0];
    } else {
      assert n == Avail(d, pos) && Avail(d, p) == 0;
    }
  }

  /** A sum of lengths is its first term plus the sum of the rest. */
  lemma {:induction false} SumFront(s: seq<nat>)
    requires s != []
    ensures Sum(s) == s[0] + Sum(s[1..])
    decreases |s|
  {
    if |s| > 1 {
      var n := |s| - 1;
      SumFront(s[..n]);
      assert s[..n][1..] == s[1..][..n - 1];
      assert s[..n][0] == s[0];
    }
  }

  /** The state of the copy loop after `i` iovecs: `read` bytes of `d` from `pos0` on, in `chunks`. */
  ghost predicate Copying(d: seq<Byte>, pos0: nat, lens: seq<nat>, chunks: seq<seq<Byte>>, read: nat, i: nat)
  {
    && i <= |lens| && read == |Flat(chunks)|
    && (read == 0 || (pos0 + read <= |d| && Flat(chunks) == d[pos0..pos0 + read]))
    && ReadSizes(d, pos0, lens) == Preceded(Lens(chunks), ReadSizes(d, pos0 + read, lens[i..]))
  }

  /** A copy of `c`, some bytes, into iovec `i` keeps the loop state. */
  lemma CopyingStep(d: seq<Byte>, pos0: nat, lens: seq<nat>, chunks: seq<seq<Byte>>, read: nat, i: nat, c: seq<Byte>)
    requires Copying(d, pos0, lens, chunks, read, i) && i < |lens|
    requires |c| == CopyLen(d, pos0 + read, lens[i]) > 0 && pos0 + read + |c| <= |d|
    requires c == d[pos0 + read..pos0 + read + |c|]
    ensures Copying(d, pos0, lens, chunks + [c], read + |c|, i + 1)
  {
    var p := pos0 + read;
    var n := |c|;
    var rest := ReadSizes(d, p + n, lens[i + 1..]);
    assert ReadSizes(d, p, lens[i..]) == Preceded([n], rest) by {
      assert lens[i..][1..] == lens[i + 1..];
    }
    assert Lens(chunks + [c]) == Lens(chunks) + [n];
    assert Flat(chunks + [c]) == Flat(chunks) + c by {
      assert (chunks + [c])[..|chunks|] == chunks;
    }
    if read > 0 {
      assert d[pos0..p + n] == d[pos0..p] + d[p..p + n];
    }
    assert Lens(chunks) + ([n] + rest.sizes) == (Lens(chunks) + [n]) + rest.sizes;
    assert pos0 + (read + n) == p + n;
  }

  /** A copy of nothing from iovec `i` ends the loop. */
  lemma CopyingStop(d: seq<Byte>, pos0: nat, lens: seq<nat>, chunks: seq<seq<Byte>>, read: nat, i: nat)
    requires Copying(d, pos0, lens, chunks, read, i) && i < |lens|
    requires CopyLen(d, pos0 + read, lens[i]) == 0
    ensures ReadSizes(d, pos0, lens) == ReadRun(Lens(chunks), true)
  {
    assert ReadSizes(d, pos0 + read, lens[i..]) == ReadRun([], true);
    assert Lens(chunks) + [] == Lens(chunks);
  }

  /** The copy loop after the last iovec. */
  lemma CopyingEnd(d: seq<Byte>, pos0: nat, lens: seq<nat>, chunks: seq<seq<Byte>>, read: nat)
    requires Copying(d, pos0, lens, chunks, read, |lens|)
    ensures ReadSizes(d, pos0, lens) == ReadRun(Lens(chunks), false)
  {
    assert lens[|lens|..] == [];
    assert Lens(chunks) + [] == Lens(chunks);
  }

  /**
   * The copy loop: the chunks copied into the iovecs, the bytes read and
   * whether a copy of nothing stopped it. The chunks have the sizes
   * `ReadSizes` gives and hold the object's bytes from `pos0` on.
   */
  method CopyChunks(d: seq<Byte>, pos0: nat, lens: seq<nat>) returns (chunks: seq<seq<Byte>>, read: nat, eof: bool)
    ensures ReadRun(Lens(chunks), eof) == ReadSizes(d, pos0, lens) && read == |Flat(chunks)|
    ensures read == 0 || (pos0 + read <= |d| && Flat(chunks) == d[pos0..pos0 + read])
  {
    chunks, read, eof := [], 0, false;
    assert lens[0..] == lens;
    var i := 0;
    while i < |lens|
      invariant Copying(d, pos0, lens, chunks, read, i)
    {
      var p := pos0 + read;
      var n := CopyLen(d, p, lens[i]);
      if n == 0 {
        CopyingStop(d, pos0, lens, chunks, read, i);
        return chunks, read, true;
      }
      var c := d[p..p + n];
      CopyingStep(d, pos0, lens, chunks, read, i, c);
      chunks := chunks + [c];
      read := read + n;
      i := i + 1;
    }
    CopyingEnd(d, pos0, lens, chunks, read);
  }

  /**
   * `AsyncReadOp::completed` as written. A copy of nothing from the first
   * iovec stores `-EOF` as the error, and with `EOF` being -1 that is +1.
   */
  method ReadCompletedAsWritten(o: DataOutcome, offset: Uint64, lens: seq<nat>, h: FuseReply.OutHeader)
    returns (h': FuseReply.OutHeader, chunks: seq<seq<Byte>>)
    ensures o.NoObject? ==> h' == h.(error := -ENOENT) && chunks == []
    ensures o.DataRpcFailed? ==> h' == h.(error := -EIO) && chunks == []
    ensures o.Data? ==>
      var r := ReadSizes(o.bytes, offset, lens);
      && Lens(chunks) == r.sizes && h'.len == h.len + |Flat(chunks)| && h'.unique == h.unique
      && h'.error == (if !r.eof then h.error else if r.sizes == [] then -EOF else 0)
  {
    if o.NoObject? {
      return h.(error := -ENOENT), [];
    }
    if o.DataRpcFailed? {
      return h.(error := -EIO), [];
    }
    var read, eof;
    chunks, read, eof := CopyChunks(o.bytes, offset, lens);
    h' := h;
    if eof {
      if read == 0 {
        h' := h'.(error := -EOF);
        if chunks != [] {
          ReadSizesFit(o.bytes, offset, lens);
          FlatLength(chunks);
          SumFront(Lens(chunks));
          assert false;
        }
      } else {
        h' := h'.(error := 0);
        assert chunks != [];
      }
    }
    h' := h'.(len := h'.len + read);
  }

  /**
   * `AsyncReadOp::completed` with a read at the end of the file replying
   * with no bytes and no error. The reply carries the object's bytes from
   * `offset` on, in chunks of the sizes the copy loop makes.
   */
  method ReadCompleted(o: DataOutcome, offset: Uint64, lens: seq<nat>, h: FuseReply.OutHeader)
    returns (h': FuseReply.OutHeader, chunks: seq<seq<Byte>>)
    ensures o.NoObject? ==> h' == h.(error := -ENOENT) && chunks == []
    ensures o.DataRpcFailed? ==> h' == h.(error := -EIO) && chunks == []
    ensures o.Data? ==>
      && Lens(chunks) == ReadSizes(o.bytes, offset, lens).sizes && h' == h.(len := h.len + |Flat(chunks)|)
      && (chunks == [] || (offset + |Flat(chunks)| <= |o.bytes| && Flat(chunks) == o.bytes[offset..offset + |Flat(chunks)|]))
  {
    if o.NoObject? {
      return h.(error := -ENOENT), [];
    }
    if o.DataRpcFailed? {
      return h.(error := -EIO), [];
    }
    var read, eof;
    chunks, read, eof := CopyChunks(o.bytes, offset, lens);
    h' := h.(len := h.len + read);
  }

  /**
   * `fuse_read`: the object is read and copied out. The reply carries the
   * object's bytes from `offset` on, as many as the iovecs hold or the
   * object has, whichever is less, and no chunk overflows its iovec.
   */
  method Read(rc: RamCloud, nodeid: Uint64, offset: Uint64, lens: seq<nat>, h: FuseReply.OutHeader, rpcOk: bool)
    returns (ret: int, h': FuseReply.OutHeader, chunks: seq<seq<Byte>>)
    requires forall i :: 0 <= i < |lens| ==> lens[i] > 0
    ensures ret == EWOULDBLOCK
    ensures !rpcOk ==> h' == h.(error := -EIO) && chunks == []
    ensures rpcOk && nodeid !in rc.data ==> h' == h.(error := -ENOENT) && chunks == []
    ensures rpcOk && nodeid in rc.data ==>
      var d := rc.data[nodeid];
      var n := Min(Sum(lens), Avail(d, offset));
      && h' == h.(len := h.len + n)
      && |chunks| <= |lens| && (forall i :: 0 <= i < |chunks| ==> 0 < |chunks[i]| <= lens[i])
      && Flat(chunks) == (if offset < |d| then d[offset..offset + n] else [])
  {
    var o := DataRead(rc.data, nodeid, rpcOk);
    h', chunks := ReadCompleted(o, offset, lens, h);
    if o.Data? {
      ReadChunks(o.bytes, offset, lens, chunks);
    }
    ret := EWOULDBLOCK;
  }

  /** The chunks the copy loop makes hold the bytes from `offset` on, as many as fit or exist. */
  lemma ReadChunks(d: seq<Byte>, offset: nat, lens: seq<nat>, chunks: seq<seq<Byte>>)
    requires forall i :: 0 <= i < |lens| ==> lens[i] > 0
    requires Lens(chunks) == ReadSizes(d, offset, lens).sizes
    requires chunks == [] || (offset + |Flat(chunks)| <= |d| && Flat(chunks) == d[offset..offset + |Flat(chunks)|])
    ensures var n := Min(Sum(lens), Avail(d, offset));
      && |Flat(chunks)| == n
      && |chunks| <= |lens| && (forall i :: 0 <= i < |chunks| ==> 0 < |chunks[i]| <= lens[i])
      && Flat(chunks) == (if offset < |d| then d[offset..offset + n] else [])
  {
    ReadSizesFit(d, offset, lens);
    ReadSizesTotal(d, offset, lens);
    FlatLength(chunks);
    assert forall i :: 0 <= i < |chunks| ==> |chunks[i]| == Lens(chunks)[i];
  }

  /**
   * A read at or past the end of a file, as written and corrected: as
   * written the reply's error is +1, which is no error number; corrected
   * it is a reply of no bytes.
   */
  method ReadAtEnd(d: seq<Byte>, offset: Uint64, lens: seq<nat>, h: FuseReply.OutHeader)
    returns (asWritten: FuseReply.OutHeader, corrected: FuseReply.OutHeader)
    requires offset >= |d| && |lens| > 0 && h.error == 0
    ensures asWritten == h.(error := 1) && corrected == h
  {
    assert ReadSizes(d, offset, lens) == ReadRun([], true);
    var c;
    asWritten, c := ReadCompletedAsWritten(Data(d), offset, lens, h);
    FlatLength(c);
    corrected, c := ReadCompleted(Data(d), offset, lens, h);
    FlatLength(c);
  }

  /* ---------------------------------------------------------------- */
  /* READDIR                                                           */
  /* ---------------------------------------------------------------- */

  /** `struct fuse_entry_out` as `fill_entry` encodes it; its encoding is not part of this model. */
  type EntryOut = s: seq<Byte> | |s| == ENTRY_OUT_SIZE witness seq(ENTRY_OUT_SIZE, i => 0)

  /**
   * An object of the inode table as the enumerator hands it out: its key,
   * whether the key and the value have the sizes of a key and an inode,
   * the inode, and the entry READDIRPLUS sends for it.
   */
  datatype Object = Object(key: Uint64, keyOk: bool, valueOk: bool, inode: Inode, entryOut: EntryOut)

  /** `RAMCloud::TableEnumerator`: the objects still to be handed out, in order. */
  class TableEnumerator {
    var rest: seq<Object>

    constructor (objects: seq<Object>)
      ensures rest == objects
    {
      rest := objects;
    }

    /** `nextKeyAndData`: the next object, which the enumerator then no longer holds. */
    method Next() returns (x: Object)
      requires rest != []
      modifies this`rest
      ensures x == old(rest)[0] && rest == old(rest)[1..]
    {
      x := rest[0];
      rest := rest[1..];
    }

    /** The object handed out last taken back, so that the next call starts with it. */
    method PushBack(x: Object)
      modifies this`rest
      ensures rest == [x] + old(rest)
    {
      rest := [x] + rest;
    }
  }

  /** The objects of the inode table in the enumerator's order `order`. */
  function Objects(inodes: map<Uint64, Inode>, order: seq<Uint64>, eo: Uint64 -> EntryOut): (xs: seq<Object>)
    requires forall i :: 0 <= i < |order| ==> order[i] in inodes
    ensures |xs| == |order|
  {
    seq(|order|, i requires 0 <= i < |order| => Object(order[i], true, true, inodes[order[i]], eo(order[i])))
  }

  /**
   * `fuse_opendir`: a fresh enumerator over the whole inode table, whose
   * address `handle` is the directory's file handle in the open reply.
   */
  method Opendir(rc: RamCloud, order: seq<Uint64>, eo: Uint64 -> EntryOut, h: FuseReply.OutHeader, handle: Uint64)
    returns (en: TableEnumerator, h': FuseReply.OutHeader, out: seq<Byte>)
    requires forall i :: 0 <= i < |order| ==> order[i] in rc.inodes
    ensures fresh(en) && en.rest == Objects(rc.inodes, order, eo)
    ensures (h', out) == FuseReply.ReplyOpen(h, FuseReply.NoFileInfo.(fh := handle))
  {
    en := new TableEnumerator(Objects(rc.inodes, order, eo));
    var r := FuseReply.ReplyOpen(h, FuseReply.NoFileInfo.(fh := handle));
    h', out := r.0, r.1;
  }

  /** The padded length of an object's record: it does not depend on the offset. */
  function RecordLen(x: Object, plus: bool): nat
  {
    DirentAlign((if plus then FUSE_NAME_OFFSET_DIRENTPLUS else FUSE_NAME_OFFSET) + |x.inode.name|)
  }

  /** The record of an object at directory offset `off`, cut to 64 bits and passed as `off_t`. */
  function Record(x: Object, plus: bool, off: nat): (r: seq<Byte>)
    ensures |r| == RecordLen(x, plus)
  {
    var a := x.inode.attr;
    if plus then DirentPlus(x.entryOut, a.ino, ToOffT(off % U64), x.inode.name, a.mode as int)
    else Dirent(a.ino, ToOffT(off % U64), x.inode.name, a.mode as int)
  }

  /** Why the listing loop ended: no objects left, a malformed object, or a record that did not fit. */
  datatype Stop = End | Malformed | Full

  /** How many objects the listing loop lists, how many bytes their records take, and why it ended. */
  datatype Listing = Listing(count: nat, used: nat, stop: Stop)

  /** The key and the value of an object have the sizes of a key and an inode. */
  predicate WellFormed(x: Object)
  {
    x.keyOk && x.valueOk
  }

  /**
   * The listing loop of `fuse_readdir` over the objects `xs` from the
   * `k`-th on, with `room` bytes free. The records take no more than the
   * room, and the loop stops short of the end exactly when it does not
   * reach the end.
   */
  function Fill(xs: seq<Object>, k: nat, plus: bool, room: nat): (l: Listing)
    requires k <= |xs|
    ensures k + l.count <= |xs| && (l.stop == End <==> k + l.count == |xs|) && l.used <= room
    decreases |xs| - k
  {
    if k == |xs| then Listing(0, 0, End)
    else if !WellFormed(xs[k]) then Listing(0, 0, Malformed)
    else if room < RecordLen(xs[k], plus) then Listing(0, 0, Full)
    else
      var n := RecordLen(xs[k], plus);
      var l := Fill(xs, k + 1, plus, room - n);
      Listing(l.count + 1, l.used + n, l.stop)
  }

  /** The records of the first `n` objects of `xs`, the `i`-th at directory offset `first + i`. */
  function Records(xs: seq<Object>, n: nat, plus: bool, first: nat): seq<Byte>
    requires n <= |xs|
  {
    if n == 0 then [] else Records(xs, n - 1, plus, first) + Record(xs[n - 1], plus, first + n - 1)
  }

  /** One more object adds its record at the end. */
  lemma RecordsNext(xs: seq<Object>, k: nat, plus: bool, first: nat)
    requires k < |xs|
    ensures Records(xs, k + 1, plus, first) == Records(xs, k, plus, first) + Record(xs[k], plus, first + k)
  {
  }

  /** The listing lists only well-formed objects. */
  lemma {:induction false} FillWellFormed(xs: seq<Object>, k: nat, plus: bool, room: nat)
    requires k <= |xs|
    ensures forall i :: k <= i < k + Fill(xs, k, plus, room).count ==> WellFormed(xs[i])
    decreases |xs| - k
  {
    if k < |xs| && WellFormed(xs[k]) && room >= RecordLen(xs[k], plus) {
      FillWellFormed(xs, k + 1, plus, room - RecordLen(xs[k], plus));
    }
  }

  /**
   * The listing stops for the reason it gives: the next object is
   * malformed, or the next object's record does not fit what is left.
   */
  lemma {:induction false} FillStops(xs: seq<Object>, k: nat, plus: bool, room: nat)
    requires k <= |xs|
    ensures var l := Fill(xs, k, plus, room);
      && (l.stop == Malformed ==> !WellFormed(xs[k + l.count]))
      && (l.stop == Full ==> WellFormed(xs[k + l.count]) && room < l.used + RecordLen(xs[k + l.count], plus))
    decreases |xs| - k
  {
    if k < |xs| && WellFormed(xs[k]) && room >= RecordLen(xs[k], plus) {
      FillStops(xs, k + 1, plus, room - RecordLen(xs[k], plus));
    }
  }

  /** The objects the loop as written takes from the enumerator: those listed, and the one it stopped at. */
  function TakenAsWritten(l: Listing): nat
  {
    l.count + (if l.stop == End then 0 else 1)
  }

  /** The objects taken when a record that does not fit is given back: a malformed object is still dropped. */
  function Taken(l: Listing): nat
  {
    l.count + (if l.stop == Malformed then 1 else 0)
  }

  /** The state of the listing loop after `k` objects listed in `used` bytes. */
  ghost predicate Listed(xs: seq<Object>, plus: bool, room0: nat, used: nat, k: nat)
  {
    && k <= |xs| && used <= room0
    && var r := Fill(xs, k, plus, room0 - used);
      Fill(xs, 0, plus, room0) == Listing(k + r.count, used + r.used, r.stop)
  }

  /** Listing object `k`, whose record fits, keeps the loop state. */
  lemma ListedStep(xs: seq<Object>, plus: bool, room0: nat, used: nat, k: nat)
    requires Listed(xs, plus, room0, used, k) && k < |xs|
    requires WellFormed(xs[k]) && used + RecordLen(xs[k], plus) <= room0
    ensures Listed(xs, plus, room0, used + RecordLen(xs[k], plus), k + 1)
  {
    var n := RecordLen(xs[k], plus);
    assert room0 - (used + n) == room0 - used - n;
  }

  /** Object `k`, malformed or with a record that does not fit, ends the loop. */
  lemma ListedStop(xs: seq<Object>, plus: bool, room0: nat, used: nat, k: nat)
    requires Listed(xs, plus, room0, used, k) && k < |xs|
    requires !WellFormed(xs[k]) || room0 < used + RecordLen(xs[k], plus)
    ensures Fill(xs, 0, plus, room0) == Listing(k, used, if WellFormed(xs[k]) then Full else Malformed)
  {
  }

  /** The listing loop after the last object. */
  lemma ListedEnd(xs: seq<Object>, plus: bool, room0: nat, used: nat)
    requires Listed(xs, plus, room0, used, |xs|)
    ensures Fill(xs, 0, plus, room0) == Listing(|xs|, used, End)
  {
  }

  /** `fuse_add_direntry` or `fuse_add_direntry_plus` of one object after `bytes` were written. */
  method AppendObject(cur: IovCursor, x: Object, plus: bool, off: nat,
                      ghost lens0: seq<nat>, ghost c0: seq<Byte>, ghost p0: nat, ghost bytes: seq<Byte>)
    returns (n: nat)
    requires Wrote(cur, lens0, c0, p0, bytes)
    modifies cur
    ensures n == 0 <==> old(cur.bytesUnused) < RecordLen(x, plus)
    ensures n == 0 ==> Wrote(cur, lens0, c0, p0, bytes)
    ensures n != 0 ==> n == RecordLen(x, plus) && Wrote(cur, lens0, c0, p0, bytes + Record(x, plus, off))
  {
    ghost var rec, mid, at := Record(x, plus, off), cur.Contents(), cur.Used();
    assert at == p0 + |bytes|;
    var a := x.inode.attr;
    if plus {
      n := cur.AddDirentryPlus(x.entryOut, x.inode.name, a.ino, a.mode as int, ToOffT(off % U64));
      assert rec == DirentPlus(x.entryOut, a.ino, ToOffT(off % U64), x.inode.name, a.mode as int);
    } else {
      n := cur.AddDirentry(x.inode.name, a.ino, a.mode as int, ToOffT(off % U64));
      assert rec == Dirent(a.ino, ToOffT(off % U64), x.inode.name, a.mode as int);
    }
    if n != 0 {
      assert cur.Contents() == Overwrite(mid, at, rec);
      OverwriteTwice(c0, p0, bytes, at, rec);
    }
  }

  /**
   * What the listing loop as written leaves: the object it stopped at in
   * `last`, and in the enumerator the objects after that one.
   */
  ghost predicate ListedAsWritten(xs: seq<Object>, plus: bool, room0: nat, total: nat, last: Option<Object>, rest: seq<Object>)
  {
    var l := Fill(xs, 0, plus, room0);
    && total == l.used && rest == xs[TakenAsWritten(l)..]
    && (l.stop == End <==> last == None)
    && (l.stop != End ==> last == Some(xs[l.count]))
  }

  /**
   * The state of the listing loop after `k` objects, whose records take
   * `total` bytes: the enumerator holds the objects after them and the
   * cursor holds their records, the `i`-th at directory offset `first + i`.
   */
  ghost predicate Looping(en: TableEnumerator, cur: IovCursor, plus: bool, first: nat, total: nat, k: nat,
                          xs: seq<Object>, room0: nat, lens0: seq<nat>, c0: seq<Byte>, p0: nat)
    reads en, cur
  {
    && k <= |xs| && en.rest == xs[k..] && Listed(xs, plus, room0, total, k)
    && Wrote(cur, lens0, c0, p0, Records(xs, k, plus, first)) && cur.bytesUnused == room0 - total
  }

  /** The state the listing loop as written ends in. */
  ghost predicate Looped(en: TableEnumerator, cur: IovCursor, plus: bool, first: nat, total: nat, last: Option<Object>,
                         xs: seq<Object>, room0: nat, lens0: seq<nat>, c0: seq<Byte>, p0: nat)
    reads en, cur
  {
    && ListedAsWritten(xs, plus, room0, total, last, en.rest)
    && Wrote(cur, lens0, c0, p0, Records(xs, Fill(xs, 0, plus, room0).count, plus, first))
  }

  /** Object `k`, malformed or with a record that does not fit, is where the loop as written stops. */
  lemma Halt(en: TableEnumerator, cur: IovCursor, plus: bool, first: nat, total: nat, k: nat,
             xs: seq<Object>, room0: nat, lens0: seq<nat>, c0: seq<Byte>, p0: nat)
    requires k < |xs| && en.rest == xs[k + 1..]
    requires Fill(xs, 0, plus, room0) == Listing(k, total, if WellFormed(xs[k]) then Full else Malformed)
    requires Wrote(cur, lens0, c0, p0, Records(xs, k, plus, first))
    ensures Looped(en, cur, plus, first, total, Some(xs[k]), xs, room0, lens0, c0, p0)
  {
    HaltListed(xs, plus, room0, total, k, en.rest);
  }

  /** The listing part of `Halt`, on values. */
  lemma HaltListed(xs: seq<Object>, plus: bool, room0: nat, total: nat, k: nat, rest: seq<Object>)
    requires k < |xs| && rest == xs[k + 1..]
    requires Fill(xs, 0, plus, room0) == Listing(k, total, if WellFormed(xs[k]) then Full else Malformed)
    ensures ListedAsWritten(xs, plus, room0, total, Some(xs[k]), rest)
  {
    var l := Fill(xs, 0, plus, room0);
    assert TakenAsWritten(l) == k + 1;
  }

  /**
   * The records of the objects before object `k` are written: object `k`
   * is placed at the cursor when it is well-formed and its record fits,
   * with directory offset `first + k`, and `n` is the size of its record;
   * otherwise `n` is 0 and the listing ends at it.
   */
  method PlaceObject(cur: IovCursor, x: Object, plus: bool, first: nat, k: nat, total: nat,
                     ghost xs: seq<Object>, ghost room0: nat, ghost lens0: seq<nat>, ghost c0: seq<Byte>, ghost p0: nat)
    returns (n: nat)
    requires k < |xs| && x == xs[k] && Listed(xs, plus, room0, total, k)
    requires Wrote(cur, lens0, c0, p0, Records(xs, k, plus, first)) && cur.bytesUnused == room0 - total
    modifies cur
    ensures n == 0 ==> Fill(xs, 0, plus, room0) == Listing(k, total, if WellFormed(xs[k]) then Full else Malformed)
    ensures n == 0 ==> Wrote(cur, lens0, c0, p0, Records(xs, k, plus, first))
    ensures n != 0 ==> n == RecordLen(xs[k], plus) && Listed(xs, plus, room0, total + n, k + 1)
    ensures n != 0 ==> Wrote(cur, lens0, c0, p0, Records(xs, k + 1, plus, first)) && cur.bytesUnused == room0 - (total + n)
  {
    if !x.keyOk || !x.valueOk {
      ListedStop(xs, plus, room0, total, k);
      return 0;
    }
    var off := first + k;
    n := AppendObject(cur, x, plus, off, lens0, c0, p0, Records(xs, k, plus, first));
    if n == 0 {
      ListedStop(xs, plus, room0, total, k);
      return 0;
    }
    ListedStep(xs, plus, room0, total, k);
    WroteNext(cur, lens0, c0, p0, xs, k, plus, first, x, off);
  }

  /** The record of object `k` written after those of the objects before it makes the records of the first `k + 1`. */
  lemma WroteNext(cur: IovCursor, lens0: seq<nat>, c0: seq<Byte>, p0: nat, xs: seq<Object>, k: nat, plus: bool, first: nat,
                  x: Object, off: nat)
    requires k < |xs| && x == xs[k] && off == first + k
    requires Wrote(cur, lens0, c0, p0, Records(xs, k, plus, first) + Record(x, plus, off))
    ensures Wrote(cur, lens0, c0, p0, Records(xs, k + 1, plus, first))
  {
    RecordsNext(xs, k, plus, first);
  }

  /**
   * One turn of the listing loop, after `k` objects whose records take
   * `total` bytes: the next object is taken from the enumerator and placed
   * at the cursor. `n` is the size of the record written, 0 when the loop
   * stops at this object; `total'` and `k'` are the loop's counts after it.
   */
  method ListEntry(en: TableEnumerator, cur: IovCursor, plus: bool, first: nat, k: nat, total: nat,
                   ghost xs: seq<Object>, ghost room0: nat, ghost lens0: seq<nat>, ghost c0: seq<Byte>, ghost p0: nat)
    returns (n: nat, x: Object, total': nat, k': nat)
    requires en.rest != [] && Looping(en, cur, plus, first, total, k, xs, room0, lens0, c0, p0)
    modifies en`rest, cur
    ensures total' == total + n
    ensures n == 0 ==> Looped(en, cur, plus, first, total', Some(x), xs, room0, lens0, c0, p0)
    ensures n != 0 ==> k' == k + 1 <= |xs| && Looping(en, cur, plus, first, total', k', xs, room0, lens0, c0, p0)
  {
    x := en.Next();
    assert k < |xs| && x == xs[k] && en.rest == xs[k + 1..];
    n := PlaceObject(cur, x, plus, first, k, total, xs, room0, lens0, c0, p0);
    if n == 0 {
      Halt(en, cur, plus, first, total, k, xs, room0, lens0, c0, p0);
      total', k' := total, k;
    } else {
      total', k' := total + n, k + 1;
    }
  }

  /**
   * The listing loop of `fuse_readdir` as written, over the objects `xs`
   * the enumerator holds, on a cursor with contents `c0`, `p0` bytes used
   * and `room0` free. The `k`-th object listed gets directory offset
   * `first + k`.
   */
  method ListLoop(en: TableEnumerator, cur: IovCursor, plus: bool, first: nat,
                  ghost xs: seq<Object>, ghost room0: nat, ghost lens0: seq<nat>, ghost c0: seq<Byte>, ghost p0: nat)
    returns (total: nat, last: Option<Object>)
    requires Looping(en, cur, plus, first, 0, 0, xs, room0, lens0, c0, p0)
    modifies en`rest, cur
    ensures Looped(en, cur, plus, first, total, last, xs, room0, lens0, c0, p0)
  {
    var k: nat := 0;
    total := 0;
    while en.rest != []
      invariant Looping(en, cur, plus, first, total, k, xs, room0, lens0, c0, p0)
      decreases |xs| - k
    {
      var n, x;
      n, x, total, k := ListEntry(en, cur, plus, first, k, total, xs, room0, lens0, c0, p0);
      if n == 0 {
        return total, Some(x);
      }
    }
    Finish(en, cur, plus, first, total, k, xs, room0, lens0, c0, p0);
    last := None;
  }

  /** The listing loop after the last object. */
  lemma Finish(en: TableEnumerator, cur: IovCursor, plus: bool, first: nat, total: nat, k: nat,
               xs: seq<Object>, room0: nat, lens0: seq<nat>, c0: seq<Byte>, p0: nat)
    requires Looping(en, cur, plus, first, total, k, xs, room0, lens0, c0, p0) && en.rest == []
    ensures Looped(en, cur, plus, first, total, None, xs, room0, lens0, c0, p0)
  {
    assert k == |xs|;
    ListedEnd(xs, plus, room0, total);
  }

  /**
   * The listing loop of `fuse_readdir` as written: objects are taken from
   * the enumerator and their records written at the cursor until the
   * objects run out, one is malformed, or a record does not fit. The
   * object it stopped at is taken all the same, and returned in `last`.
   */
  method ListObjects(en: TableEnumerator, cur: IovCursor, plus: bool, first: nat)
    returns (total: nat, last: Option<Object>)
    requires cur.Valid()
    modifies en`rest, cur
    ensures ListedAsWritten(old(en.rest), plus, old(cur.bytesUnused), total, last, en.rest)
    ensures Wrote(cur, old(Lens(cur.iovec)), old(cur.Contents()), old(cur.Used()),
                  Records(old(en.rest), Fill(old(en.rest), 0, plus, old(cur.bytesUnused)).count, plus, first))
  {
    ghost var xs, room0, c0, p0, lens0 := en.rest, cur.bytesUnused, cur.Contents(), cur.Used(), Lens(cur.iovec);
    FlatLength(cur.iovec);
    assert Overwrite(c0, p0, []) == c0;
    assert xs[0..] == xs;
    assert Looping(en, cur, plus, first, 0, 0, xs, room0, lens0, c0, p0);
    total, last := ListLoop(en, cur, plus, first, xs, room0, lens0, c0, p0);
  }

  /**
   * `fuse_readdir` as written: the records go to the reply, and every
   * object listed or stopped at is gone from the enumerator. An object
   * whose record did not fit is therefore listed by no later call.
   */
  method ReaddirAsWritten(en: TableEnumerator, cur: IovCursor, plus: bool, inOffset: Uint64, h: FuseReply.OutHeader)
    returns (ret: int, h': FuseReply.OutHeader)
    requires cur.Valid()
    modifies en`rest, cur
    ensures ret == 0
    ensures var l := Fill(old(en.rest), 0, plus, old(cur.bytesUnused));
      && h' == h.(len := h.len + l.used) && en.rest == old(en.rest)[TakenAsWritten(l)..]
      && Wrote(cur, old(Lens(cur.iovec)), old(cur.Contents()), old(cur.Used()), Records(old(en.rest), l.count, plus, inOffset + 1))
  {
    var total, last := ListObjects(en, cur, plus, inOffset + 1);
    h' := h.(len := h.len + total);
    ret := 0;
  }

  /**
   * `fuse_readdir` with the object that did not fit given back to the
   * enumerator: what was listed and what is left make up the objects the
   * call started with, unless it stopped at a malformed object.
   */
  method Readdir(en: TableEnumerator, cur: IovCursor, plus: bool, inOffset: Uint64, h: FuseReply.OutHeader)
    returns (ret: int, h': FuseReply.OutHeader)
    requires cur.Valid()
    modifies en`rest, cur
    ensures ret == 0
    ensures var l := Fill(old(en.rest), 0, plus, old(cur.bytesUnused));
      && h' == h.(len := h.len + l.used) && en.rest == old(en.rest)[Taken(l)..]
      && Wrote(cur, old(Lens(cur.iovec)), old(cur.Contents()), old(cur.Used()), Records(old(en.rest), l.count, plus, inOffset + 1))
  {
    ghost var xs, room0 := en.rest, cur.bytesUnused;
    var total, last := ListObjects(en, cur, plus, inOffset + 1);
    GiveBack(xs, plus, room0, total, last, en.rest);
    if last.Some? && last.value.keyOk && last.value.valueOk {
      en.PushBack(last.value);
    }
    h' := h.(len := h.len + total);
    ret := 0;
  }

  /**
   * Giving back the object the loop stopped at, when it is well-formed,
   * leaves the enumerator holding what follows the listed objects and,
   * after a malformed one, what follows that.
   */
  lemma GiveBack(xs: seq<Object>, plus: bool, room0: nat, total: nat, last: Option<Object>, rest: seq<Object>)
    requires ListedAsWritten(xs, plus, room0, total, last, rest)
    ensures var l := Fill(xs, 0, plus, room0);
      && (last.Some? && WellFormed(last.value) ==> l.stop == Full && [last.value] + rest == xs[Taken(l)..])
      && (!(last.Some? && WellFormed(last.value)) ==> rest == xs[Taken(l)..])
  {
    FillStops(xs, 0, plus, room0);
    var l := Fill(xs, 0, plus, room0);
    if last.Some? {
      assert xs[l.count..] == [xs[l.count]] + xs[l.count + 1..];
    }
  }

  /**
   * What a call leaves in the enumerator, as written and corrected: as
   * written the object whose record did not fit is neither listed nor
   * left, corrected it is the first object left.
   */
  lemma ReaddirLosesEntry(xs: seq<Object>, plus: bool, room: nat)
    requires forall i, j :: 0 <= i < j < |xs| ==> xs[i].key != xs[j].key
    requires Fill(xs, 0, plus, room).stop == Full
    ensures var l := Fill(xs, 0, plus, room);
      && l.count < |xs| && xs[l.count] !in xs[..l.count] && xs[l.count] !in xs[TakenAsWritten(l)..]
      && xs[..l.count] + xs[Taken(l)..] == xs
  {
    var k := Fill(xs, 0, plus, room).count;
    forall i | 0 <= i < |xs| && i != k
      ensures xs[i] != xs[k]
    {
      if i < k {
        assert xs[i].key != xs[k].key;
      } else {
        assert xs[k].key != xs[i].key;
      }
    }
    assert xs[..k] + xs[k..] == xs;
  }
}
