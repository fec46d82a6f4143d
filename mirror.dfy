/**
 * The lookup-count bookkeeping and request handlers of the io_uring
 * mirror backend (`dpfs_uring/mirror_impl.c`): `forget_one`,
 * `do_lookup`, readdir, open/release, create, unlink and the INIT hook.
 * System calls and io_uring completions are parameters: each is the
 * value the call returned (a descriptor, a `stat`, or an errno).
 */
module MirrorImpl {
  import opened Common
  import opened Errno
  import opened Chains
  import opened Fuser
  import opened FuseIov
  import FuseReply
  import FuseInit

  /** The parts of `struct stat` the handlers read. */
  datatype Stat = Stat(dev: nat, ino: Uint64, nlink: nat, mode: Uint32)

  /** `struct fuse_entry_param` as `do_lookup` fills it. */
  datatype EntryParam = EntryParam(node: NodeId, generation: int, attr: Stat)

  /** The inode a node id names: the root for `FUSE_ROOT_ID`, otherwise the inode it points to. */
  function Target(f: Mirror, n: NodeId): (i: Inode)
    ensures n.Ptr? ==> i == n.inode
    ensures n.RootId? ==> i == f.root
  {
    if n.RootId? then f.root else n.inode
  }

  /** The inodes filed in a table with buckets `bs`. */
  ghost function Entries(bs: seq<seq<Slot<Inode>>>): set<Inode>
  {
    set h, k | 0 <= h < |bs| && 0 <= k < |bs[h]| :: bs[h][k].item
  }

  /** The root and every inode filed in the table: what a handler may update. */
  ghost function Tracked(f: Mirror): set<Inode>
    reads f.inodes
  {
    {f.root} + Entries(f.inodes.buckets)
  }

  /** The bucket an inode number hashes to. */
  ghost function Bucket(f: Mirror, ino: nat): seq<Slot<Inode>>
    reads f.inodes
    requires f.inodes.Valid()
  {
    f.inodes.buckets[ino % |f.inodes.buckets|]
  }

  /** The buckets `bs` with inode `i` pushed on the head of the bucket of `ino`. */
  ghost function Filed(bs: seq<seq<Slot<Inode>>>, ino: nat, i: Inode): seq<seq<Slot<Inode>>>
    requires |bs| > 0
  {
    bs[ino % |bs| := [Slot(ino, i)] + bs[ino % |bs|]]
  }

  /** A lookup's effect on the buckets: a new inode is pushed on its bucket, a known one changes nothing. */
  ghost predicate Refiled(bs: seq<seq<Slot<Inode>>>, bs': seq<seq<Slot<Inode>>>, ino: nat, i: Inode, isNew: bool)
  {
    |bs| > 0 && bs' == if isNew then Filed(bs, ino, i) else bs
  }

  /** Pushing an inode on a bucket adds exactly that inode to the entries. */
  lemma EntriesPush(bs: seq<seq<Slot<Inode>>>, h: nat, ino: nat, i: Inode)
    requires h < |bs|
    ensures Entries(bs[h := [Slot(ino, i)] + bs[h]]) == Entries(bs) + {i}
  {
    var bs' := bs[h := [Slot(ino, i)] + bs[h]];
    forall x | x in Entries(bs')
      ensures x in Entries(bs) + {i}
    {
      var g, k :| 0 <= g < |bs'| && 0 <= k < |bs'[g]| && bs'[g][k].item == x;
      if g == h && k > 0 {
        assert x == bs[h][k - 1].item;
      }
    }
    forall x | x in Entries(bs)
      ensures x in Entries(bs')
    {
      var g, k :| 0 <= g < |bs| && 0 <= k < |bs[g]| && bs[g][k].item == x;
      if g == h {
        assert x == bs'[h][k + 1].item;
      } else {
        assert x == bs'[g][k].item;
      }
    }
    assert i == bs'[h][0].item;
  }

  /** Unlinking from a bucket adds no inode to the entries. */
  lemma EntriesUnlink(bs: seq<seq<Slot<Inode>>>, h: nat, ino: nat)
    requires h < |bs|
    ensures Entries(bs[h := Unlink(bs[h], ino)]) <= Entries(bs)
  {
    var bs' := bs[h := Unlink(bs[h], ino)];
    var j := FirstIndex(bs[h], ino);
    forall x | x in Entries(bs')
      ensures x in Entries(bs)
    {
      var g, k :| 0 <= g < |bs'| && 0 <= k < |bs'[g]| && bs'[g][k].item == x;
      if g == h && j < |bs[h]| {
        if k < j {
          assert x == bs[h][k].item;
        } else {
          assert x == bs[h][k + 1].item;
        }
      } else {
        assert x == bs[g][k].item;
      }
    }
  }

  /** The inode `Find` returns from a bucket of the table is one of its entries. */
  lemma FoundIsTracked(f: Mirror, ino: nat)
    requires f.inodes.Valid() && Find(Bucket(f, ino), ino).Some?
    ensures Find(Bucket(f, ino), ino).value in Tracked(f)
  {
    var h := ino % |f.inodes.buckets|;
    var k := FirstIndex(Bucket(f, ino), ino);
    assert f.inodes.buckets[h][k].item == Find(Bucket(f, ino), ino).value;
  }

  /** What `inode_destroy` hands to `close`: the descriptor of the erased inode, when it holds one (> 0). */
  function Destroyed(r: Option<Inode>): (fds: seq<int>)
    reads if r.Some? then {r.value} else {}
    ensures |fds| <= 1 && (fds != [] <==> r.Some? && r.value.fd > 0)
    ensures fds != [] ==> fds[0] == r.value.fd
  {
    if r.Some? && r.value.fd > 0 then [r.value.fd] else []
  }

  /**
   * `inode_table_erase` (with `inode_destroy`): the first inode filed
   * under `ino` is unlinked from its chain and destroyed, which closes its
   * descriptor; true exactly when there was one.
   */
  method EraseInode(f: Mirror, ino: nat) returns (erased: bool)
    requires f.inodes.Valid()
    modifies f`closed, f.inodes
    ensures f.inodes.Valid() && |f.inodes.buckets| == old(|f.inodes.buckets|)
    ensures erased <==> old(Find(Bucket(f, ino), ino)).Some?
    ensures f.inodes.buckets == old(f.inodes.buckets)[ino % |f.inodes.buckets| := Unlink(old(Bucket(f, ino)), ino)]
    ensures old(f.inodes.Unique()) ==> f.inodes.Unique()
    ensures f.closed == old(f.closed) + old(Destroyed(Find(Bucket(f, ino), ino)))
  {
    var r := f.inodes.Remove(ino);
    if r.Some? && r.value.fd > 0 {
      f.closed := f.closed + [r.value.fd];
    }
    erased := r.Some?;
  }

  /**
   * `forget_one`: the kernel drops `n` references. More than the inode
   * holds is fatal (the process exits); otherwise the count drops by `n`
   * and an inode whose count reaches zero is erased from the table, under
   * its source inode number, and the descriptor of the inode erased is
   * closed.
   */
  method ForgetOne(f: Mirror, n: NodeId, count: nat) returns (aborted: bool)
    requires f.Valid() && f.InoToInodePtr(n).Some?
    modifies f`closed, f.inodes, Target(f, n)
    ensures f.Valid() && |f.inodes.buckets| == old(|f.inodes.buckets|)
    ensures aborted <==> count > old(Target(f, n).nlookup)
    ensures aborted ==> unchanged(f.inodes, Target(f, n))
    ensures !aborted ==> Target(f, n).nlookup == old(Target(f, n).nlookup) - count
    ensures !aborted && Target(f, n).nlookup == 0 ==>
      f.inodes.buckets == old(f.inodes.buckets)[Target(f, n).srcIno % |f.inodes.buckets|
        := Unlink(old(Bucket(f, Target(f, n).srcIno)), Target(f, n).srcIno)]
    ensures !aborted && Target(f, n).nlookup > 0 ==> f.inodes.buckets == old(f.inodes.buckets)
    ensures !aborted && Target(f, n).nlookup == 0 ==>
      f.closed == old(f.closed) + old(Destroyed(Find(Bucket(f, Target(f, n).srcIno), Target(f, n).srcIno)))
    ensures aborted || Target(f, n).nlookup > 0 ==> f.closed == old(f.closed)
    ensures old(f.inodes.Unique()) ==> f.inodes.Unique()
    ensures Target(f, n).fd == old(Target(f, n).fd) && Target(f, n).nopen == old(Target(f, n).nopen)
    ensures Target(f, n).generation == old(Target(f, n).generation)
    ensures Target(f, n).srcIno == old(Target(f, n).srcIno)
    ensures Tracked(f) <= old(Tracked(f))
  {
    var i := Target(f, n);
    if count > i.nlookup {
      return true;
    }
    i.nlookup := i.nlookup - count;
    if i.nlookup == 0 {
      EntriesUnlink(f.inodes.buckets, i.srcIno % |f.inodes.buckets|, i.srcIno);
      KeyedUnlink(f.inodes.buckets, i.srcIno % |f.inodes.buckets|, i.srcIno);
      var _ := EraseInode(f, i.srcIno);
    }
    return false;
  }

  /**
   * The part of `do_lookup` under the table mutex: find the inode filed
   * under `st.ino`, or file a new one, and count the lookup. `newfd` is
   * the `O_PATH` descriptor just opened. When the allocation fails the
   * return is ENOMEM with the mutex still held, as written.
   */
  method BindInode(f: Mirror, newfd: int, st: Stat, allocOk: bool) returns (err: nat, e: EntryParam)
    requires f.Valid() && !f.locked && newfd >= 0
    modifies f, f.inodes, Tracked(f)
    ensures f.Valid() && |f.inodes.buckets| == old(|f.inodes.buckets|)
    ensures err == 0 || err == ENOMEM
    ensures f.locked <==> err == ENOMEM
    ensures err == ENOMEM <==> Find(old(Bucket(f, st.ino)), st.ino).None? && !allocOk
    ensures err != 0 ==> f.inodes.buckets == old(f.inodes.buckets) && f.closed == old(f.closed)
    ensures err != 0 ==> unchanged(old(Tracked(f)))
    ensures err == 0 ==> LookupDone(f, newfd, st, e)
    ensures err == 0 && !fresh(e.node.inode) ==>
      && e.node.inode.nlookup == old(e.node.inode.nlookup) + 1
      && e.node.inode.generation == old(e.node.inode.generation) && e.node.inode.nopen == old(e.node.inode.nopen)
      && (old(e.node.inode.fd) > 0 ==> e.node.inode.fd == old(e.node.inode.fd) && f.closed == old(f.closed) + [newfd])
      && (old(e.node.inode.fd) <= 0 ==> e.node.inode.fd == newfd && e.node.inode.srcIno == st.ino && f.closed == old(f.closed))
    ensures err == 0 && fresh(e.node.inode) ==>
      && e.node.inode.nlookup == 1 && e.node.inode.fd == newfd && e.node.inode.nopen == 0
      && e.node.inode.srcIno == st.ino && e.generation == 0 && f.closed == old(f.closed)
    ensures Tracked(f) <= old(Tracked(f)) + (if err == 0 then {e.node.inode} else {})
    ensures err == 0 ==> fresh(e.node.inode) || e.node.inode in old(Tracked(f))
    ensures err == 0 ==> Refiled(old(f.inodes.buckets), f.inodes.buckets, st.ino, e.node.inode, fresh(e.node.inode))
    ensures err == 0 ==> unchanged(old(Tracked(f)) - {e.node.inode})
    ensures old(f.inodes.Unique()) ==> f.inodes.Unique()
  {
    f.locked := true;
    var r := FileInode(f, st.ino, allocOk);
    if r.None? {
      return ENOMEM, EntryParam(RootId, 0, st);
    }
    var i := r.value;
    e := EntryParam(Ptr(i), i.generation, st);
    CountLookup(f, i, newfd, st);
    err := 0;
  }

  /**
   * `inode_table_getsert` on the mirror's table, with what it means for
   * the set of tracked inodes: an inode already filed is one of them, and
   * a new one is the only addition.
   */
  method FileInode(f: Mirror, ino: nat, allocOk: bool) returns (r: Option<Inode>)
    requires f.Valid()
    modifies f.inodes
    ensures f.Valid() && |f.inodes.buckets| == old(|f.inodes.buckets|)
    ensures r.None? <==> Find(old(Bucket(f, ino)), ino).None? && !allocOk
    ensures r.None? ==> f.inodes.buckets == old(f.inodes.buckets)
    ensures r.Some? ==> Find(Bucket(f, ino), ino) == r && r.value.ino == ino
    ensures r.Some? && !fresh(r.value) ==> r.value in old(Tracked(f)) && f.inodes.buckets == old(f.inodes.buckets)
    ensures r.Some? && fresh(r.value) ==>
      r.value.fd == -1 && r.value.nlookup == 0 && r.value.nopen == 0 && r.value.generation == 0
      && f.inodes.buckets == Filed(old(f.inodes.buckets), ino, r.value)
    ensures Tracked(f) <= old(Tracked(f)) + (if r.Some? then {r.value} else {})
    ensures old(f.inodes.Unique()) ==> f.inodes.Unique()
  {
    ghost var bs := f.inodes.buckets;
    if Find(Bucket(f, ino), ino).Some? {
      FoundIsTracked(f, ino);
    }
    r := Getsert(f.inodes, ino, allocOk);
    if r.Some? && f.inodes.buckets != bs {
      EntriesPush(bs, ino % |bs|, ino, r.value);
    }
  }

  /**
   * Counting a lookup on the inode found or filed: a live descriptor
   * (> 0) is kept and the new one closed; otherwise (a new inode, or one
   * released early by unlink) the new descriptor and the source identity
   * are recorded. The mutex is released either way.
   */
  method CountLookup(f: Mirror, i: Inode, newfd: int, st: Stat)
    modifies f, i
    ensures !f.locked && i.nlookup == old(i.nlookup) + 1
    ensures i.generation == old(i.generation) && i.nopen == old(i.nopen)
    ensures old(i.fd) > 0 ==> i.fd == old(i.fd) && i.srcIno == old(i.srcIno) && f.closed == old(f.closed) + [newfd]
    ensures old(i.fd) <= 0 ==> i.fd == newfd && i.srcIno == st.ino && i.srcDev == st.dev && f.closed == old(f.closed)
  {
    if i.fd > 0 {
      f.locked := false;
      i.nlookup := i.nlookup + 1;
      f.closed := f.closed + [newfd];
    } else {
      i.srcIno := st.ino;
      i.srcDev := st.dev;
      i.nlookup := i.nlookup + 1;
      i.fd := newfd;
      f.locked := false;
    }
  }

  /**
   * `do_lookup` as written. `openRes` and `statRes` are what `openat` and
   * `fstatat` returned, `allocOk` whether `inode_new` got memory. A failed
   * `fstatat` closes the new descriptor; the ENOTSUP and EIO returns keep
   * it open; the ENOMEM return leaves the table mutex `f->m` held.
   */
  method DoLookupAsWritten(f: Mirror, openRes: Sys<int>, statRes: Sys<Stat>, allocOk: bool)
    returns (err: nat, e: EntryParam)
    requires f.Valid() && !f.locked && (openRes.Ok? ==> openRes.value >= 0)
    modifies f, f.inodes, Tracked(f)
    ensures f.Valid() && |f.inodes.buckets| == old(|f.inodes.buckets|)
    ensures f.locked <==> err == ENOMEM && openRes.Ok? && statRes.Ok?
    ensures err != 0 ==> f.inodes.buckets == old(f.inodes.buckets) && unchanged(old(Tracked(f)))
    ensures err == 0 ==> LookupPassed(f, openRes, statRes)
    ensures openRes.Fail? ==> err == openRes.errno && f.closed == old(f.closed)
    ensures openRes.Ok? && statRes.Fail? ==> err == statRes.errno && f.closed == old(f.closed) + [openRes.value]
    ensures LookupChecked(f, openRes, statRes) && statRes.value.dev != f.srcDev ==> err == ENOTSUP
    ensures LookupChecked(f, openRes, statRes) && statRes.value.dev == f.srcDev && statRes.value.ino == FUSE_ROOT_ID ==>
      err == EIO
    ensures LookupPassed(f, openRes, statRes) ==>
      (err == ENOMEM <==> Find(old(Bucket(f, statRes.value.ino)), statRes.value.ino).None? && !allocOk)
    ensures LookupPassed(f, openRes, statRes) ==> err == 0 || err == ENOMEM
    ensures err == 0 ==> LookupDone(f, openRes.value, statRes.value, e)
    ensures err == 0 && !fresh(e.node.inode) ==>
      && e.node.inode.nlookup == old(e.node.inode.nlookup) + 1
      && e.node.inode.generation == old(e.node.inode.generation) && e.node.inode.nopen == old(e.node.inode.nopen)
      && (old(e.node.inode.fd) > 0 ==>
            e.node.inode.fd == old(e.node.inode.fd) && f.closed == old(f.closed) + [openRes.value])
      && (old(e.node.inode.fd) <= 0 ==>
            e.node.inode.fd == openRes.value && e.node.inode.srcIno == statRes.value.ino && f.closed == old(f.closed))
    ensures err == 0 && fresh(e.node.inode) ==>
      && e.node.inode.nlookup == 1 && e.node.inode.fd == openRes.value && e.node.inode.nopen == 0
      && e.node.inode.srcIno == statRes.value.ino && e.generation == 0 && f.closed == old(f.closed)
    ensures Tracked(f) <= old(Tracked(f)) + (if err == 0 then {e.node.inode} else {})
    ensures err == 0 ==> fresh(e.node.inode) || e.node.inode in old(Tracked(f))
    ensures err == 0 ==>
      Refiled(old(f.inodes.buckets), f.inodes.buckets, statRes.value.ino, e.node.inode, fresh(e.node.inode))
    ensures err == 0 ==> unchanged(old(Tracked(f)) - {e.node.inode})
    ensures old(f.inodes.Unique()) ==> f.inodes.Unique()
  {
    if openRes.Fail? {
      return openRes.errno, EntryParam(RootId, 0, Stat(0, 0, 0, 0));
    }
    var newfd := openRes.value;
    if statRes.Fail? {
      f.closed := f.closed + [newfd];
      return statRes.errno, EntryParam(RootId, 0, Stat(0, 0, 0, 0));
    }
    var st := statRes.value;
    if st.dev != f.srcDev {
      return ENOTSUP, EntryParam(RootId, 0, st);
    } else if st.ino == FUSE_ROOT_ID {
      return EIO, EntryParam(RootId, 0, st);
    }
    err, e := BindInode(f, newfd, st, allocOk);
  }

  /** Both system calls of a lookup succeeded. */
  predicate LookupChecked(f: Mirror, openRes: Sys<int>, statRes: Sys<Stat>)
  {
    openRes.Ok? && statRes.Ok?
  }

  /** A lookup passed every check before the table: the entry is on the source device and is not inode 1. */
  predicate LookupPassed(f: Mirror, openRes: Sys<int>, statRes: Sys<Stat>)
  {
    LookupChecked(f, openRes, statRes) && statRes.value.dev == f.srcDev && statRes.value.ino != FUSE_ROOT_ID
  }

  /**
   * What a successful lookup leaves behind: the entry names an inode
   * filed under the source inode number, with the `stat` and generation,
   * and the inode holds a descriptor and at least one lookup.
   */
  ghost predicate LookupDone(f: Mirror, newfd: int, st: Stat, e: EntryParam)
    reads f.inodes, if e.node.Ptr? then {e.node.inode} else {}
    requires f.inodes.Valid()
  {
    && e.node.Ptr? && e.attr == st
    && e.node.inode.ino == st.ino
    && Find(Bucket(f, st.ino), st.ino) == Some(e.node.inode)
    && e.node.inode.nlookup >= 1
    && e.generation == e.node.inode.generation
    && (e.node.inode.fd == newfd || e.node.inode.fd > 0)
  }

  /**
   * `do_lookup` with the mutex released on the ENOMEM path as on every
   * other: no return leaves `f->m` held.
   */
  method DoLookup(f: Mirror, openRes: Sys<int>, statRes: Sys<Stat>, allocOk: bool)
    returns (err: nat, e: EntryParam)
    requires f.Valid() && !f.locked && (openRes.Ok? ==> openRes.value >= 0)
    modifies f, f.inodes, Tracked(f)
    ensures f.Valid() && !f.locked && |f.inodes.buckets| == old(|f.inodes.buckets|)
    ensures err != 0 ==> f.inodes.buckets == old(f.inodes.buckets) && unchanged(old(Tracked(f)))
    ensures err == 0 ==> LookupPassed(f, openRes, statRes)
    ensures openRes.Fail? ==> err == openRes.errno && f.closed == old(f.closed)
    ensures openRes.Ok? && statRes.Fail? ==> err == statRes.errno && f.closed == old(f.closed) + [openRes.value]
    ensures LookupChecked(f, openRes, statRes) && statRes.value.dev != f.srcDev ==> err == ENOTSUP
    ensures LookupChecked(f, openRes, statRes) && statRes.value.dev == f.srcDev && statRes.value.ino == FUSE_ROOT_ID ==>
      err == EIO
    ensures LookupPassed(f, openRes, statRes) ==>
      (err == ENOMEM <==> Find(old(Bucket(f, statRes.value.ino)), statRes.value.ino).None? && !allocOk)
    ensures LookupPassed(f, openRes, statRes) ==> err == 0 || err == ENOMEM
    ensures err == 0 ==> LookupDone(f, openRes.value, statRes.value, e)
    ensures err == 0 && !fresh(e.node.inode) ==>
      && e.node.inode.nlookup == old(e.node.inode.nlookup) + 1
      && e.node.inode.generation == old(e.node.inode.generation) && e.node.inode.nopen == old(e.node.inode.nopen)
      && (old(e.node.inode.fd) > 0 ==>
            e.node.inode.fd == old(e.node.inode.fd) && f.closed == old(f.closed) + [openRes.value])
      && (old(e.node.inode.fd) <= 0 ==>
            e.node.inode.fd == openRes.value && e.node.inode.srcIno == statRes.value.ino && f.closed == old(f.closed))
    ensures err == 0 && fresh(e.node.inode) ==>
      && e.node.inode.nlookup == 1 && e.node.inode.fd == openRes.value && e.node.inode.nopen == 0
      && e.node.inode.srcIno == statRes.value.ino && e.generation == 0 && f.closed == old(f.closed)
    ensures Tracked(f) <= old(Tracked(f)) + (if err == 0 then {e.node.inode} else {})
    ensures err == 0 ==> fresh(e.node.inode) || e.node.inode in old(Tracked(f))
    ensures err == 0 ==>
      Refiled(old(f.inodes.buckets), f.inodes.buckets, statRes.value.ino, e.node.inode, fresh(e.node.inode))
    ensures err == 0 ==> unchanged(old(Tracked(f)) - {e.node.inode})
    ensures old(f.inodes.Unique()) ==> f.inodes.Unique()
  {
    err, e := DoLookupAsWritten(f, openRes, statRes, allocOk);
    f.locked := false;
  }

  /** `is_dot_or_dotdot` on a NUL-terminated name: the name is "." or "..". */
  function IsDotOrDotdot(name: seq<Byte>): (r: bool)
    ensures r <==> name == [DOT] || name == [DOT, DOT]
  {
    |name| >= 1 && name[0] == DOT && (|name| == 1 || (name[1] == DOT && |name| == 2))
  }

  const DOT: Byte := 46

  // Open flags (asm-generic/fcntl.h, as on x86-64).
  const O_RDONLY: bv32 := 0
  const O_WRONLY: bv32 := 1
  const O_RDWR: bv32 := 2
  const O_ACCMODE: bv32 := 3
  const O_CREAT: bv32 := 0x40
  const O_APPEND: bv32 := 0x400
  const O_DIRECT: bv32 := 0x4000
  const O_NOFOLLOW: bv32 := 0x20000

  /** `fi.flags &= ~O_DIRECT` when the configuration rejects direct I/O. */
  function DropDirect(flags: bv32, rejectDirectio: bool): (r: bv32)
    ensures r & O_DIRECT == (if rejectDirectio then 0 else flags & O_DIRECT)
    ensures r & !O_DIRECT == flags & !O_DIRECT
  {
    if rejectDirectio then flags & !O_DIRECT else flags
  }

  /**
   * The flags `fuser_mirror_open` opens with: `O_DIRECT` dropped when
   * direct I/O is rejected, and with a metadata timeout a write-only open
   * widened to read-write (the writeback cache reads) and `O_APPEND`
   * cleared (the kernel handles appends). The source clears `O_APPEND`
   * only when it is set, which is the same as clearing it unconditionally.
   */
  function OpenFlags(flags: bv32, cached: bool, rejectDirectio: bool): (r: bv32)
    ensures r & O_DIRECT == (if rejectDirectio then 0 else flags & O_DIRECT)
    ensures r & O_APPEND == (if cached then 0 else flags & O_APPEND)
    ensures r & O_ACCMODE == (if cached && flags & O_ACCMODE == O_WRONLY then O_RDWR else flags & O_ACCMODE)
    ensures r & !(O_DIRECT | O_APPEND | O_ACCMODE) == flags & !(O_DIRECT | O_APPEND | O_ACCMODE)
  {
    var f0: bv32 := if rejectDirectio then flags & !O_DIRECT else flags;
    var f1: bv32 := if cached && f0 & O_ACCMODE == O_WRONLY then (f0 & !O_ACCMODE) | O_RDWR else f0;
    if cached then f1 & !O_APPEND else f1
  }

  /** `flags & ~O_NOFOLLOW`: the mirror always follows the final symlink of the path it reopens. */
  function WithoutNofollow(flags: bv32): (r: bv32)
    ensures r & O_NOFOLLOW == 0 && r & !O_NOFOLLOW == flags & !O_NOFOLLOW
  {
    flags & !O_NOFOLLOW
  }

  /** The flags the io_uring create opens with: `O_CREAT` added and `O_NOFOLLOW` removed. */
  function CreateFlags(flags: bv32, rejectDirectio: bool): (r: bv32)
    ensures r & O_CREAT == O_CREAT && r & O_NOFOLLOW == 0
    ensures r & O_DIRECT == (if rejectDirectio then 0 else flags & O_DIRECT)
    ensures r & !(O_CREAT | O_NOFOLLOW | O_DIRECT) == flags & !(O_CREAT | O_NOFOLLOW | O_DIRECT)
  {
    (DropDirect(flags, rejectDirectio) | O_CREAT) & !O_NOFOLLOW
  }

  /**
   * The open completion (`fuser_mirror_open_cb`, and the synchronous
   * path): a failed open is reported; otherwise the inode gains an open,
   * the page cache is kept exactly when metadata may be cached, and
   * flushing is skipped exactly for an uncached read-only open.
   */
  method OpenDone(f: Mirror, i: Inode, flags: bv32, res: int, hdr: FuseReply.OutHeader)
    returns (hdr': FuseReply.OutHeader, fi: FuseReply.FileInfo)
    requires res < U64
    modifies i
    ensures res < 0 ==> hdr' == hdr.(error := res) && unchanged(i)
    ensures res >= 0 ==>
      && hdr' == FuseReply.ReplyOpen(hdr, fi).0 && i.nopen == old(i.nopen) + 1
      && fi.fh == res && fi.keepCache == f.cached
      && fi.noflush == (!f.cached && flags & O_ACCMODE == O_RDONLY)
    ensures i.nlookup == old(i.nlookup) && i.fd == old(i.fd) && i.generation == old(i.generation)
  {
    fi := FuseReply.NoFileInfo;
    if res < 0 {
      return hdr.(error := res), fi;
    }
    i.nopen := i.nopen + 1;
    fi := fi.(fh := res, keepCache := f.cached, noflush := !f.cached && flags & O_ACCMODE == O_RDONLY);
    hdr' := FuseReply.ReplyOpen(hdr, fi).0;
  }

  /**
   * `fuser_mirror_open`: an unknown inode is -EINVAL; otherwise the file
   * is opened again through `/proc/self/fd` with `OpenFlags` minus
   * `O_NOFOLLOW` (`res` is what that open returned) and completes as
   * `OpenDone`.
   */
  method Open(f: Mirror, n: NodeId, flags: bv32, res: int, hdr: FuseReply.OutHeader)
    returns (hdr': FuseReply.OutHeader, openedWith: bv32, fi: FuseReply.FileInfo)
    requires res < U64
    modifies Target(f, n)
    ensures f.InoToInodePtr(n).None? ==> hdr' == hdr.(error := -EINVAL) && unchanged(Target(f, n))
    ensures f.InoToInodePtr(n).Some? ==> openedWith == WithoutNofollow(OpenFlags(flags, f.cached, f.rejectDirectio))
    ensures f.InoToInodePtr(n).Some? && res < 0 ==> hdr' == hdr.(error := res) && unchanged(Target(f, n))
    ensures f.InoToInodePtr(n).Some? && res >= 0 ==>
      && hdr' == FuseReply.ReplyOpen(hdr, fi).0 && Target(f, n).nopen == old(Target(f, n).nopen) + 1
      && fi.fh == res && fi.keepCache == f.cached
      && fi.noflush == (!f.cached && OpenFlags(flags, f.cached, f.rejectDirectio) & O_ACCMODE == O_RDONLY)
    ensures Target(f, n).nlookup == old(Target(f, n).nlookup) && Target(f, n).fd == old(Target(f, n).fd)
  {
    fi := FuseReply.NoFileInfo;
    openedWith := 0;
    var p := f.InoToInodePtr(n);
    if p.None? {
      return hdr.(error := -EINVAL), openedWith, fi;
    }
    var fl := OpenFlags(flags, f.cached, f.rejectDirectio);
    openedWith := WithoutNofollow(fl);
    hdr', fi := OpenDone(f, p.value, fl, res, hdr);
  }

  /** With a metadata timeout nothing is ever opened write-only or for appending. */
  lemma CachedOpenReadable(flags: bv32, rejectDirectio: bool)
    ensures OpenFlags(flags, true, rejectDirectio) & O_ACCMODE != O_WRONLY
    ensures OpenFlags(flags, true, rejectDirectio) & O_APPEND == 0
  {
  }

  /**
   * `fuser_mirror_release`: an unknown inode is -EINVAL; otherwise it
   * loses an open and the handle is closed.
   */
  method Release(f: Mirror, n: NodeId, fh: int, hdr: FuseReply.OutHeader) returns (hdr': FuseReply.OutHeader)
    modifies f, Target(f, n)
    ensures old(f.InoToInodePtr(n)).None? ==> hdr' == hdr.(error := -EINVAL) && unchanged(f, Target(f, n))
    ensures old(f.InoToInodePtr(n)).Some? ==>
      hdr' == hdr && Target(f, n).nopen == old(Target(f, n).nopen) - 1 && f.closed == old(f.closed) + [fh]
    ensures Target(f, n).nlookup == old(Target(f, n).nlookup) && Target(f, n).fd == old(Target(f, n).fd)
  {
    var p := f.InoToInodePtr(n);
    if p.None? {
      return hdr.(error := -EINVAL);
    }
    var i := p.value;
    i.nopen := i.nopen - 1;
    f.closed := f.closed + [fh];
    return hdr;
  }

  /** The completion callbacks a request can register with io_uring. */
  datatype Callback = GenericCb | CreateCb

  /** The callback the io_uring `fuser_mirror_create` registers, as written. */
  const CREATE_CALLBACK_AS_WRITTEN: Callback := GenericCb

  /** The callback create needs: the one that looks the new file up and replies with entry and open. */
  const CREATE_CALLBACK: Callback := CreateCb

  /**
   * A create completing through callback `cb`. `res` is the `openat`
   * result; the lookup inputs are as for `DoLookup`. The generic
   * callback only reports a failure, so a successful create sends a bare
   * header, counts no open and leaves the new descriptor unowned;
   * `fuser_mirror_create_cb` looks the file up, counts the open and
   * replies with an entry and an open whose handle is the descriptor.
   */
  method CreateDone(f: Mirror, cb: Callback, res: int, openRes: Sys<int>, statRes: Sys<Stat>,
                    allocOk: bool, minor: nat, hdr: FuseReply.OutHeader)
    returns (hdr': FuseReply.OutHeader, e: EntryParam, fi: FuseReply.FileInfo)
    requires f.Valid() && !f.locked && (openRes.Ok? ==> openRes.value >= 0) && res < U64
    modifies f, f.inodes, Tracked(f)
    ensures f.Valid() && !f.locked
    ensures res < 0 ==> hdr' == hdr.(error := res) && f.inodes.buckets == old(f.inodes.buckets)
    ensures res < 0 ==> unchanged(old(Tracked(f)))
    ensures cb == GenericCb && res >= 0 ==> hdr' == hdr && f.inodes.buckets == old(f.inodes.buckets)
    ensures cb == GenericCb && res >= 0 ==> unchanged(old(Tracked(f)))
    ensures cb == CreateCb && res >= 0 && !LookupPassed(f, openRes, statRes) ==> hdr'.error < 0
    ensures old(LookupAllocates(f, cb, res, openRes, statRes, allocOk)) ==>
      && hdr' == FuseReply.ReplyCreate(hdr, minor, fi).0 && fi.fh == res
      && LookupDone(f, openRes.value, statRes.value, e)
      && e.node.inode.nopen == (if fresh(e.node.inode) then 0 else old(e.node.inode.nopen)) + 1
  {
    e := EntryParam(RootId, 0, Stat(0, 0, 0, 0));
    fi := FuseReply.NoFileInfo;
    if res < 0 {
      return hdr.(error := res), e, fi;
    }
    if cb == GenericCb {
      return hdr, e, fi;
    }
    fi := fi.(fh := res);
    var err;
    err, e := DoLookup(f, openRes, statRes, allocOk);
    if err != 0 {
      return hdr.(error := -(err as int)), e, fi;
    }
    var i := e.node.inode;
    i.nopen := i.nopen + 1;
    hdr' := FuseReply.ReplyCreate(hdr, minor, fi).0;
  }

  /**
   * The create completed through the looking-up callback, and the lookup
   * found the new file's inode or could allocate one.
   */
  ghost predicate LookupAllocates(f: Mirror, cb: Callback, res: int, openRes: Sys<int>, statRes: Sys<Stat>,
                                  allocOk: bool)
    reads f.inodes
    requires f.inodes.Valid()
  {
    cb == CreateCb && res >= 0 && LookupFinds(f, openRes, statRes, allocOk)
  }

  /**
   * `fuser_mirror_unlink`, synchronous path. An unknown parent is
   * -EINVAL. Without a metadata timeout the name is first probed
   * (`UnlinkProbe`; a lookup error is the reply). Finally `unlinkat`
   * runs; `unlinkErrno` is its errno when it failed.
   */
  method UnlinkName(f: Mirror, parent: NodeId, openRes: Sys<int>, statRes: Sys<Stat>, allocOk: bool,
                    unlinkErrno: Option<Errnum>, hdr: FuseReply.OutHeader)
    returns (hdr': FuseReply.OutHeader, e: EntryParam)
    requires f.Valid() && !f.locked && (openRes.Ok? ==> openRes.value >= 0)
    modifies f, f.inodes, Tracked(f)
    ensures f.Valid() && !f.locked
    ensures old(f.InoToInodePtr(parent)).None? ==> hdr' == hdr.(error := -EINVAL) && e.node.RootId?
    ensures old(f.InoToInodePtr(parent)).None? || f.cached ==> unchanged(f.inodes, old(Tracked(f)))
    ensures old(f.InoToInodePtr(parent)).Some? && (f.cached || e.node.Ptr?) ==>
      hdr' == (if unlinkErrno.Some? then hdr.(error := -(unlinkErrno.value as int)) else hdr)
    ensures old(f.InoToInodePtr(parent)).Some? && !f.cached && !LookupPassed(f, openRes, statRes) ==> hdr'.error < 0
    ensures old(f.InoToInodePtr(parent)).Some? && !f.cached && old(LookupFinds(f, openRes, statRes, allocOk)) ==>
      e.node.Ptr?
    ensures e.node.Ptr? ==>
      old(f.InoToInodePtr(parent)).Some? && !f.cached && LookupPassed(f, openRes, statRes) && ProbedBy(e, statRes)
    ensures e.node.Ptr? ==> e.node.inode.nlookup == (if fresh(e.node.inode) then 0 else old(e.node.inode.nlookup))
    ensures e.node.Ptr? && !fresh(e.node.inode) ==>
      if statRes.value.nlink == 1 && (old(e.node.inode.fd) > 0 || openRes.value > 0) && old(e.node.inode.nopen) == 0
      then e.node.inode.fd == -ENOENT && e.node.inode.generation == old(e.node.inode.generation) + 1
      else e.node.inode.generation == old(e.node.inode.generation)
  {
    e := EntryParam(RootId, 0, Stat(0, 0, 0, 0));
    var ip := f.InoToInodePtr(parent);
    if ip.None? {
      return hdr.(error := -EINVAL), e;
    }
    if !f.cached {
      var err;
      err, e := UnlinkProbe(f, openRes, statRes, allocOk);
      if err != 0 {
        return hdr.(error := -(err as int)), e;
      }
    }
    hdr' := if unlinkErrno.Some? then hdr.(error := -(unlinkErrno.value as int)) else hdr;
  }

  /** The probe found the unlinked name's inode: the lookup passed and the entry names that inode. */
  predicate ProbedBy(e: EntryParam, statRes: Sys<Stat>)
  {
    e.node.Ptr? && statRes.Ok? && e.node.inode.ino == statRes.value.ino
  }

  /**
   * The probe of `fuser_mirror_unlink`: look the name up, run
   * `EarlyRelease` on the inode found when the name is its last link,
   * and give the lookup back with `forget_one(…, 1)`; a lookup error
   * comes back as `err`, and then no entry is named.
   */
  method UnlinkProbe(f: Mirror, openRes: Sys<int>, statRes: Sys<Stat>, allocOk: bool)
    returns (err: nat, e: EntryParam)
    requires f.Valid() && !f.locked && (openRes.Ok? ==> openRes.value >= 0)
    modifies f, f.inodes, Tracked(f)
    ensures f.Valid() && !f.locked
    ensures err != 0 ==> e.node.RootId? && f.inodes.buckets == old(f.inodes.buckets) && unchanged(old(Tracked(f)))
    ensures err == 0 <==> e.node.Ptr?
    ensures !LookupPassed(f, openRes, statRes) ==> err != 0
    ensures old(LookupFinds(f, openRes, statRes, allocOk)) ==> err == 0
    ensures err == 0 ==> LookupPassed(f, openRes, statRes) && ProbedBy(e, statRes)
    ensures err == 0 ==> e.node.inode.nlookup == (if fresh(e.node.inode) then 0 else old(e.node.inode.nlookup))
    ensures err == 0 && !fresh(e.node.inode) ==>
      if statRes.value.nlink == 1 && (old(e.node.inode.fd) > 0 || openRes.value > 0) && old(e.node.inode.nopen) == 0
      then e.node.inode.fd == -ENOENT && e.node.inode.generation == old(e.node.inode.generation) + 1
      else e.node.inode.generation == old(e.node.inode.generation)
    ensures err == 0 && fresh(e.node.inode) ==>
      e.node.inode.generation == (if statRes.value.nlink == 1 && openRes.value > 0 then 1 else 0)
  {
    err, e := DoLookup(f, openRes, statRes, allocOk);
    if err != 0 {
      return err, EntryParam(RootId, 0, Stat(0, 0, 0, 0));
    }
    FoundIsTracked(f, statRes.value.ino);
    GiveBack(f, e.node, statRes.value.nlink == 1);
  }

  /** A lookup that passes its checks and finds the inode or can allocate one. */
  ghost predicate LookupFinds(f: Mirror, openRes: Sys<int>, statRes: Sys<Stat>, allocOk: bool)
    reads f.inodes
    requires f.inodes.Valid()
  {
    && LookupPassed(f, openRes, statRes)
    && (Find(Bucket(f, statRes.value.ino), statRes.value.ino).Some? || allocOk)
  }

  /**
   * The end of the unlink probe: `EarlyRelease` on the inode the probe
   * looked up, then `forget_one(…, 1)` for the probe's own lookup.
   */
  method GiveBack(f: Mirror, n: NodeId, lastLink: bool)
    requires f.Valid() && n.Ptr? && n.inode.nlookup >= 1 && n.inode.fd != -1
    modifies f, f.inodes, n.inode
    ensures f.Valid() && f.locked == old(f.locked) && Tracked(f) <= old(Tracked(f))
    ensures n.inode.nlookup == old(n.inode.nlookup) - 1
    ensures lastLink && old(n.inode.fd) > 0 && old(n.inode.nopen) == 0 ==>
      n.inode.fd == -ENOENT && n.inode.generation == old(n.inode.generation) + 1
    ensures !(lastLink && old(n.inode.fd) > 0 && old(n.inode.nopen) == 0) ==>
      n.inode.fd == old(n.inode.fd) && n.inode.generation == old(n.inode.generation)
  {
    EarlyRelease(f, n.inode, lastLink);
    var aborted := ForgetOne(f, n, 1);
  }

  /**
   * The early release in `fuser_mirror_unlink`: on the last link of an
   * inode with a live descriptor (> 0) and no opens, close the descriptor,
   * mark it `-ENOENT` so the next lookup opens afresh, and bump the
   * generation so the kernel tells the new file from the old.
   */
  method EarlyRelease(f: Mirror, i: Inode, lastLink: bool)
    modifies f, i
    ensures lastLink && old(i.fd) > 0 && old(i.nopen) == 0 ==>
      i.fd == -ENOENT && i.generation == old(i.generation) + 1 && f.closed == old(f.closed) + [old(i.fd)]
    ensures !(lastLink && old(i.fd) > 0 && old(i.nopen) == 0) ==>
      i.fd == old(i.fd) && i.generation == old(i.generation) && f.closed == old(f.closed)
    ensures i.nlookup == old(i.nlookup) && i.nopen == old(i.nopen) && i.srcIno == old(i.srcIno)
    ensures f.locked == old(f.locked)
  {
    if lastLink && i.fd > 0 && i.nopen == 0 {
      f.closed := f.closed + [i.fd];
      i.fd := -ENOENT;
      i.generation := i.generation + 1;
    }
  }

  /**
   * The INIT hook `fuser_mirror_init`: export support and flock locks
   * when offered, the writeback cache when offered and metadata may be
   * cached, never splicing. When `seteuid`/`setegid` fail (`idErrno` is
   * their errno) the header carries the error and the session is not
   * marked ready.
   */
  function InitHook(cached: bool, idErrno: Option<nat>): (h: FuseInit.InitHook)
    ensures h.result == 0 && h.drop == {FuseInit.SpliceRead, FuseInit.SpliceWrite}
    ensures FuseInit.ExportSupport in h.addIfCapable && FuseInit.FlockLocks in h.addIfCapable
    ensures FuseInit.WritebackCache in h.addIfCapable <==> cached
    ensures h.setsInitDone <==> idErrno.None?
    ensures h.hdrError == (if idErrno.Some? then -(idErrno.value as int) else 0)
  {
    FuseInit.InitHook(
      {FuseInit.ExportSupport, FuseInit.FlockLocks} + (if cached then {FuseInit.WritebackCache} else {}),
      {FuseInit.SpliceRead, FuseInit.SpliceWrite},
      if idErrno.Some? then -(idErrno.value as int) else 0,
      0,
      idErrno.None?)
  }

  /** After the mirror's hook, `want` holds the writeback cache exactly when it was offered and caching is on. */
  lemma InitHookWant(cached: bool, idErrno: Option<nat>, capable: set<FuseInit.Cap>)
    ensures var w := FuseInit.HookWant(InitHook(cached, idErrno), capable, capable * FuseInit.DEFAULT_WANT);
      && (FuseInit.WritebackCache in w <==> cached && FuseInit.WritebackCache in capable)
      && (FuseInit.ExportSupport in w <==> FuseInit.ExportSupport in capable)
      && (FuseInit.FlockLocks in w <==> FuseInit.FlockLocks in capable)
      && FuseInit.SpliceRead !in w && FuseInit.SpliceWrite !in w
      && w <= capable
  {
  }
}
