/**
 * The inode objects and tables of the local-directory mirror backends
 * (`struct inode`, `inode_new`, `inode_table_getsert`,
 * `ino_to_inodeptr`, `ino_to_fd`), which the io_uring and the Linux AIO
 * variants define identically, and the completion-thread arithmetic of
 * each: the io_uring ring windows and CPU pinning, and the AIO
 * per-event completion.
 */
module Fuser {
  import opened Common
  import opened Chains
  import Errno

  const FUSE_ROOT_ID: nat := 1
  const INODE_TABLE_SIZE: nat := 8192

  /** A mirrored inode; `ino` is the source file system's inode number and never changes. */
  class Inode {
    const ino: nat
    /** The `O_PATH` descriptor: -1 before the first lookup, `-ENOENT` after an early release in unlink. */
    var fd: int
    var srcDev: nat
    var srcIno: nat
    var generation: int
    var nopen: int
    var nlookup: nat

    /** `inode_new`: a zeroed inode with the key and no descriptor. */
    constructor (ino: nat)
      ensures this.ino == ino && fd == -1 && nlookup == 0 && nopen == 0
      ensures generation == 0 && srcIno == 0 && srcDev == 0
    {
      this.ino := ino;
      fd := -1;
      srcDev := 0;
      srcIno := 0;
      generation := 0;
      nopen := 0;
      nlookup := 0;
    }
  }

  /** Every slot of the table is keyed by its inode's `ino`, as `inode_table_insert` files it. */
  ghost predicate Keyed(t: ChainTable<Inode>)
    reads t
  {
    KeyedSlots(t.buckets)
  }

  ghost predicate KeyedSlots(bs: seq<seq<Slot<Inode>>>)
  {
    forall h, j :: 0 <= h < |bs| && 0 <= j < |bs[h]| ==> bs[h][j].item.ino == bs[h][j].key
  }

  /** Unlinking a slot keeps every remaining slot keyed by its inode. */
  lemma KeyedUnlink(bs: seq<seq<Slot<Inode>>>, h: nat, k: nat)
    requires KeyedSlots(bs) && h < |bs|
    ensures KeyedSlots(bs[h := Unlink(bs[h], k)])
  {
    var bs': seq<seq<Slot<Inode>>> := bs[h := Unlink(bs[h], k)];
    forall g, j | 0 <= g < |bs'| && 0 <= j < |bs'[g]|
      ensures bs'[g][j].item.ino == bs'[g][j].key
    {
      if g == h {
        assert bs'[g][j] in bs[h];
      }
    }
  }

  /** The inode found under a key of a keyed table has that `ino`. */
  lemma FoundKeyed(t: ChainTable<Inode>, h: nat, ino: nat)
    requires Keyed(t) && h < |t.buckets| && Find(t.buckets[h], ino).Some?
    ensures Find(t.buckets[h], ino).value.ino == ino
  {
    var j := FirstIndex(t.buckets[h], ino);
    assert t.buckets[h][j].item == Find(t.buckets[h], ino).value;
  }

  /**
   * `inode_table_getsert`: the inode already filed under `ino`, or a new
   * one (`fd` = -1, no lookups) put at the head of its bucket; when the
   * allocation fails (`allocOk` false) nothing is inserted. Whatever is
   * returned is afterwards what `get(ino)` finds, and no key is filed twice.
   */
  method Getsert(t: ChainTable<Inode>, ino: nat, allocOk: bool) returns (r: Option<Inode>)
    requires t.Valid() && Keyed(t)
    modifies t
    ensures t.Valid() && Keyed(t) && |t.buckets| == old(|t.buckets|)
    ensures old(Find(t.buckets[ino % |t.buckets|], ino)).Some? ==>
      r == old(Find(t.buckets[ino % |t.buckets|], ino)) && t.buckets == old(t.buckets)
    ensures old(Find(t.buckets[ino % |t.buckets|], ino)).None? && !allocOk ==>
      r.None? && t.buckets == old(t.buckets)
    ensures old(Find(t.buckets[ino % |t.buckets|], ino)).None? && allocOk ==>
      && r.Some? && fresh(r.value) && r.value.fd == -1
      && r.value.nlookup == 0 && r.value.nopen == 0 && r.value.generation == 0
      && t.buckets == old(t.buckets)[ino % |t.buckets| := [Slot(ino, r.value)] + old(t.buckets)[ino % |t.buckets|]]
    ensures r.Some? ==> Find(t.buckets[ino % |t.buckets|], ino) == r && r.value.ino == ino
    ensures old(t.Unique()) ==> t.Unique()
  {
    r := t.Get(ino);
    if r.Some? {
      FoundKeyed(t, ino % |t.buckets|, ino);
      return;
    }
    if !allocOk {
      return;
    }
    var i := new Inode(ino);
    t.Insert(ino, i);
    r := Some(i);
  }

  /**
   * A FUSE node id handed to the kernel: `FUSE_ROOT_ID`, or the address
   * of an inode (the source casts the pointer to the id and back).
   */
  datatype NodeId = RootId | Ptr(inode: Inode)

  /** The mirror backend's state (`struct fuser`) that the request handlers use. */
  class Mirror {
    const root: Inode
    const inodes: ChainTable<Inode>
    /** Device of the source directory; entries on other devices are hidden. */
    const srcDev: nat
    /** `f->timeout != 0`: metadata may be cached by the kernel. */
    const cached: bool
    const rejectDirectio: bool
    /** `f->m`, the table mutex. */
    var locked: bool
    /** The descriptors handed to `close`, in order. */
    var closed: seq<int>

    ghost predicate Valid()
      reads this, inodes
    {
      inodes.Valid() && Keyed(inodes)
    }

    /** `fuser_main`: the root inode has id `FUSE_ROOT_ID`, a lookup count of 9999 and the opened source fd. */
    constructor (srcDev: nat, rootFd: int, cached: bool, rejectDirectio: bool)
      ensures Valid() && fresh(inodes) && fresh(root) && !locked && closed == []
      ensures root.ino == FUSE_ROOT_ID && root.nlookup == 9999 && root.fd == rootFd
      ensures |inodes.buckets| == INODE_TABLE_SIZE && inodes.Unique()
      ensures this.srcDev == srcDev && this.cached == cached && this.rejectDirectio == rejectDirectio
    {
      var r := new Inode(FUSE_ROOT_ID);
      r.fd := rootFd;
      r.nlookup := 9999;
      root := r;
      inodes := new ChainTable(INODE_TABLE_SIZE);
      this.srcDev := srcDev;
      this.cached := cached;
      this.rejectDirectio := rejectDirectio;
      locked := false;
      closed := [];
    }

    /**
     * `ino_to_inodeptr`: the root for `FUSE_ROOT_ID`; otherwise the inode
     * the id points to, unless it has never been looked up (`fd` = -1).
     */
    function InoToInodePtr(n: NodeId): (r: Option<Inode>)
      reads if n.Ptr? then {n.inode} else {}
      ensures n.RootId? ==> r == Some(root)
      ensures n.Ptr? ==> (r.None? <==> n.inode.fd == -1) && (r.Some? ==> r.value == n.inode)
    {
      if n.RootId? then Some(root)
      else if n.inode.fd == -1 then None
      else Some(n.inode)
    }

    /** `ino_to_fd`: the inode's descriptor, or -1 for an unknown inode. */
    function InoToFd(n: NodeId): (fd: int)
      reads this, root, if n.Ptr? then {n.inode} else {}
      ensures InoToInodePtr(n).None? ==> fd == -1
      ensures InoToInodePtr(n).Some? ==> fd == InoToInodePtr(n).value.fd
      ensures n.RootId? ==> fd == root.fd
    {
      match InoToInodePtr(n)
      case None => -1
      case Some(i) => i.fd
    }
  }

  /**
   * The window `[start, end)` of rings that completion-polling thread `t`
   * of `nthreads` polls: `nrings / nthreads` rings each, with thread 0
   * also taking the remainder and the others shifted right past it.
   */
  function RingWindow(nrings: nat, nthreads: nat, t: nat): (w: (nat, nat))
    requires 0 < nthreads && t < nthreads
    ensures w.0 <= w.1 <= nrings
    ensures w.1 - w.0 == nrings / nthreads + (if t == 0 then nrings % nthreads else 0)
  {
    var n := nrings / nthreads;
    var remainder := nrings % nthreads;
    var start := n * t;
    var end := start + n;
    assert n * t + n == n * (t + 1) <= n * nthreads by {
      assert t + 1 <= nthreads;
      MulMono(n, t + 1, nthreads);
    }
    if t == 0 && remainder != 0 then (start, end + remainder)
    else if remainder != 0 then (start + remainder, end + remainder)
    else (start, end)
  }

  lemma MulMono(n: nat, a: nat, b: nat)
    requires a <= b
    ensures n * a <= n * b
  {
  }

  /**
   * The windows tile `[0, nrings)`: the first starts at 0, each ends
   * where the next starts and the last ends at `nrings`, so they are
   * pairwise disjoint and every ring is polled by exactly one thread.
   */
  lemma {:induction false} RingWindowsTile(nrings: nat, nthreads: nat)
    requires 0 < nthreads
    ensures RingWindow(nrings, nthreads, 0).0 == 0
    ensures forall t :: 0 <= t < nthreads - 1 ==> RingWindow(nrings, nthreads, t).1 == RingWindow(nrings, nthreads, t + 1).0
    ensures RingWindow(nrings, nthreads, nthreads - 1).1 == nrings
  {
    var n := nrings / nthreads;
    forall t | 0 <= t < nthreads - 1
      ensures RingWindow(nrings, nthreads, t).1 == RingWindow(nrings, nthreads, t + 1).0
    {
      assert n * t + n == n * (t + 1);
    }
    assert n * (nthreads - 1) + n == n * nthreads;
  }

  /** With no more threads than rings every window holds at least one ring. */
  lemma RingWindowsNonEmpty(nrings: nat, nthreads: nat, t: nat)
    requires 0 < nthreads <= nrings && t < nthreads
    ensures RingWindow(nrings, nthreads, t).0 < RingWindow(nrings, nthreads, t).1
  {
    assert nrings / nthreads >= 1;
  }

  /** The ring windows of two different threads never share a ring. */
  lemma {:induction false} RingWindowsDisjoint(nrings: nat, nthreads: nat, s: nat, t: nat)
    requires s < t < nthreads
    ensures RingWindow(nrings, nthreads, s).1 <= RingWindow(nrings, nthreads, t).0
    decreases t - s
  {
    RingWindowsTile(nrings, nthreads);
    if s + 1 < t {
      RingWindowsDisjoint(nrings, nthreads, s + 1, t);
    }
  }

  /**
   * The CPU that completion-polling thread `t` is pinned to: counting
   * down from the last CPU past the `dpfsThreads` request threads, and
   * only when request and polling threads together fit on the CPUs.
   */
  function PinnedCpu(numCpus: nat, dpfsThreads: nat, cqThreads: nat, t: nat): (c: Option<int>)
    requires t < cqThreads
    ensures c.Some? <==> dpfsThreads + cqThreads <= numCpus
    ensures c.Some? ==> 0 <= c.value < numCpus - dpfsThreads
  {
    if dpfsThreads + cqThreads <= numCpus then Some(numCpus - 1 - dpfsThreads - t) else None
  }

  /** Two polling threads never share a CPU, and none takes a request thread's CPU (the top `dpfsThreads`). */
  lemma PinnedCpusDistinct(numCpus: nat, dpfsThreads: nat, cqThreads: nat, s: nat, t: nat)
    requires s < cqThreads && t < cqThreads && s != t
    requires PinnedCpu(numCpus, dpfsThreads, cqThreads, s).Some?
    ensures PinnedCpu(numCpus, dpfsThreads, cqThreads, s) != PinnedCpu(numCpus, dpfsThreads, cqThreads, t)
    ensures PinnedCpu(numCpus, dpfsThreads, cqThreads, s).value < numCpus - dpfsThreads
  {
  }

  datatype RwOp = ReadOp | WriteOp

  const FUSE_WRITE_OUT_SIZE: nat := 8
  /** The length of a bare `fuse_out_header`. */
  const OUT_HEADER_LEN: nat := 16
  /** libaio's `res` is a signed 64-bit count: this bounds its magnitude. */
  const S64: int := 0x8000_0000_0000_0000

  /**
   * The reply state one AIO read or write request holds while it waits
   * for its event (`struct fuser_rw_cb_data` and what it points to), and
   * the count of calls to `dpfs_hal_async_complete` made for it.
   */
  class RwRequest {
    const op: RwOp
    /** `out_hdr->len`, a 32-bit field. */
    var len: nat
    var error: int
    /** `out_write->size`, a 32-bit field. */
    var writeSize: nat
    var completions: nat

    constructor (op: RwOp, len: nat)
      requires len < U32
      ensures this.op == op && this.len == len && error == 0 && writeSize == 0 && completions == 0
    {
      this.op := op;
      this.len := len;
      error := 0;
      writeSize := 0;
      completions := 0;
    }

    /**
     * The event handling of `fuser_io_poll_thread` as written. `res` is
     * the event's result, the byte count or `-errno` as libaio reports
     * it, and `errno` whatever the thread's `errno` holds. Only `res` = -1
     * is taken for a failure: it records `-errno` and completes, then
     * falls through into the read/write branch and completes a second
     * time. Any other negative `res` is taken for a byte count and
     * truncated into the 32-bit fields.
     */
    method HandleEventAsWritten(res: int, errno: nat) returns (freed: bool)
      requires len < U32 && -S64 <= res < S64
      modifies this
      ensures freed && len < U32
      ensures completions == old(completions) + (if res == -1 then 2 else 1)
      ensures error == (if res == -1 then -(errno as int) else old(error))
      ensures op == WriteOp ==> writeSize == Wrap32(res) && len == Wrap32(old(len) + FUSE_WRITE_OUT_SIZE)
      ensures op == ReadOp ==> len == Wrap32(old(len) + res) && writeSize == old(writeSize)
    {
      if res == -1 {
        error := -(errno as int);
        completions := completions + 1;
      }
      if op == WriteOp {
        writeSize := Wrap32(res);
        len := Wrap32(len + FUSE_WRITE_OUT_SIZE);
        completions := completions + 1;
      } else {
        len := Wrap32(len + res);
        completions := completions + 1;
      }
      freed := true;
    }

    /**
     * The same handling with every failure recognised: each event
     * completes its request exactly once. A negative `res` is the error
     * itself and adds nothing to the reply; a write reports `res` as the
     * written size and adds `sizeof(fuse_write_out)` to the reply; a read
     * adds the `res` bytes read. The callback data goes back to the pool.
     */
    method HandleEvent(res: int) returns (freed: bool)
      requires len < U32 && -S64 <= res < S64
      modifies this
      ensures freed && len < U32
      ensures completions == old(completions) + 1
      ensures res < 0 ==> error == res && len == old(len) && writeSize == old(writeSize)
      ensures res >= 0 && op == WriteOp ==>
        writeSize == Wrap32(res) && len == Wrap32(old(len) + FUSE_WRITE_OUT_SIZE) && error == old(error)
      ensures res >= 0 && op == ReadOp ==>
        len == Wrap32(old(len) + res) && error == old(error) && writeSize == old(writeSize)
    {
      if res < 0 {
        error := res;
        completions := completions + 1;
      } else if op == WriteOp {
        writeSize := Wrap32(res);
        len := Wrap32(len + FUSE_WRITE_OUT_SIZE);
        completions := completions + 1;
      } else {
        len := Wrap32(len + res);
        completions := completions + 1;
      }
      freed := true;
    }
  }

  /**
   * A read that fails with EIO, as written: the failure goes unnoticed,
   * the reply of a bare header loses five bytes of length and carries no
   * error, and the request completes once.
   */
  method ReadErrorLostAsWritten() returns (len: nat, error: int, completions: nat)
    ensures len == OUT_HEADER_LEN - Errno.EIO && error == 0 && completions == 1
  {
    var r := new RwRequest(ReadOp, OUT_HEADER_LEN);
    var _ := r.HandleEventAsWritten(-Errno.EIO, 0);
    len, error, completions := r.len, r.error, r.completions;
  }

  /** The same read handled with every failure recognised: the reply is the bare header with -EIO. */
  method ReadErrorReported() returns (len: nat, error: int, completions: nat)
    ensures len == OUT_HEADER_LEN && error == -Errno.EIO && completions == 1
  {
    var r := new RwRequest(ReadOp, OUT_HEADER_LEN);
    var _ := r.HandleEvent(-Errno.EIO);
    len, error, completions := r.len, r.error, r.completions;
  }

}
