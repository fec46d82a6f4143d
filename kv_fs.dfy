/**
 * The metadata side of the RAMCloud key-value backend (dpfs_kv/main.cpp).
 * The file system is one flat directory under the root node 1. Every file
 * is an object of the inode table keyed by the 64-bit FNV-1a hash of its
 * name, and its bytes are an object of the data table under the same key.
 *
 * The two RAMCloud tables are the fields of `RamCloud`; every remote call
 * that can fail has its outcome as a parameter. The replies are modelled
 * as the header the FUSE layer sends back plus the entry or attribute
 * parameters handed to `fuse_ll_reply_entry`/`fuse_ll_reply_attr`, with
 * `None` for a field the handler leaves uninitialised.
 */
module KvFs {
  import opened Common
  import opened Errno
  import FuseReply

  /** `MAX_FILE_NAME`: the size of the name field of an inode object, terminator included. */
  const MAX_FILE_NAME: nat := 128
  const ENAMETOOLONG: int := 36

  const FNV_BASIS: Uint64 := 14695981039346656037
  const FNV_PRIME: bv64 := 1099511628211

  const S_IFMT: bv32 := 0xF000
  const S_IFREG: bv32 := 0x8000
  const S_IFDIR: bv32 := 0x4000

  /** The node id of the root directory. */
  const ROOT: Uint64 := 1

  /** The `valid` bits of a SETATTR that this backend acts on. */
  const FUSE_SET_ATTR_MODE: bv32 := 1
  const FUSE_SET_ATTR_UID: bv32 := 2
  const FUSE_SET_ATTR_GID: bv32 := 4
  const FUSE_SET_ATTR_SIZE: bv32 := 8

  /* ---------------------------------------------------------------- */
  /* Keys                                                              */
  /* ---------------------------------------------------------------- */

  /**
   * A byte of the name as it enters `hash ^ *str`: `char` is signed, so a
   * byte from 0x80 up is sign-extended to 64 bits.
   */
  function CharBits(c: Byte): bv64
  {
    if c < 0x80 then c as bv64 else (c + 0xFFFF_FFFF_FFFF_FF00) as bv64
  }

  /** No terminating zero inside. */
  predicate NoNul(s: seq<Byte>)
  {
    forall i :: 0 <= i < |s| ==> s[i] != 0
  }

  /**
   * `fnv1a_hash(str, hash)`: the bytes up to the first zero are folded in,
   * each XORed into the hash which is then multiplied by the FNV prime
   * modulo 2^64.
   */
  function Fnv1a(s: seq<Byte>, h: Uint64): Uint64
  {
    if |s| == 0 || s[0] == 0 then h else Fnv1a(s[1..], Step(h, CharBits(s[0])))
  }

  /** One FNV-1a round: XOR the byte in, multiply by the prime modulo 2^64. */
  function Step(h: Uint64, x: bv64): Uint64
  {
    (((h as bv64) ^ x) * FNV_PRIME) as int
  }

  /** Hashing a concatenation continues from the hash of the first part. */
  lemma {:induction false} Fnv1aAppend(s: seq<Byte>, t: seq<Byte>, h: Uint64)
    requires NoNul(s)
    ensures Fnv1a(s + t, h) == Fnv1a(t, Fnv1a(s, h))
  {
    if |s| > 0 {
      assert (s + t)[0] == s[0];
      assert (s + t)[1..] == s[1..] + t;
      Fnv1aAppend(s[1..], t, Step(h, CharBits(s[0])));
    } else {
      assert s + t == t;
    }
  }

  /** The hash stops at the terminator: what follows it is never read. */
  lemma Fnv1aStopsAtNul(s: seq<Byte>, t: seq<Byte>, h: Uint64)
    requires NoNul(s)
    ensures Fnv1a(s + [0] + t, h) == Fnv1a(s, h)
  {
    assert s + [0] + t == s + ([0] + t);
    Fnv1aAppend(s, [0] + t, h);
  }

  /** FNV-1a as Fowler, Noll and Vo define it: for each octet, XOR it in, then multiply by the prime. */
  function FnvStandard(s: seq<Byte>): Uint64
  {
    if s == [] then FNV_BASIS else Step(FnvStandard(s[..|s| - 1]), s[|s| - 1] as bv64)
  }

  /** For names of 7-bit characters `fnv1a_hash` is the standard FNV-1a hash. */
  lemma {:induction false} Fnv1aIsStandard(s: seq<Byte>)
    requires SevenBitName(s)
    ensures Fnv1a(s, FNV_BASIS) == FnvStandard(s)
  {
    if |s| > 0 {
      var p, c := s[..|s| - 1], s[|s| - 1];
      SevenBitPrefix(s);
      Fnv1aIsStandard(p);
      Fnv1aLast(p, c, FNV_BASIS);
      SevenBit(c);
    }
  }

  /** A name without terminator whose bytes are all below 0x80. */
  predicate SevenBitName(s: seq<Byte>)
  {
    NoNul(s) && forall i :: 0 <= i < |s| ==> s[i] < 0x80
  }

  lemma SevenBitPrefix(s: seq<Byte>)
    requires |s| > 0 && SevenBitName(s)
    ensures SevenBitName(s[..|s| - 1]) && s == s[..|s| - 1] + [s[|s| - 1]] && s[|s| - 1] != 0 && s[|s| - 1] < 0x80
  {
    assert forall i :: 0 <= i < |s| - 1 ==> s[..|s| - 1][i] == s[i];
  }

  /** The last byte of a name without terminator is the last round. */
  lemma Fnv1aLast(p: seq<Byte>, c: Byte, h: Uint64)
    requires NoNul(p) && c != 0
    ensures Fnv1a(p + [c], h) == Step(Fnv1a(p, h), CharBits(c))
  {
    Fnv1aAppend(p, [c], h);
    assert [c][1..] == [];
  }

  lemma SevenBit(c: Byte)
    requires c < 0x80
    ensures CharBits(c) == c as bv64
  {
  }

  /** The object key of the file named `name` in both tables, and its inode number. */
  function Key(name: seq<Byte>): Uint64
  {
    Fnv1a(name, FNV_BASIS)
  }

  /* ---------------------------------------------------------------- */
  /* Objects and replies                                               */
  /* ---------------------------------------------------------------- */

  /** The fields of `struct stat` this backend sets or reads. */
  datatype Stat = Stat(dev: int, ino: Uint64, mode: bv32, nlink: int, uid: Uint32, gid: Uint32,
                       rdev: int, size: int, blksize: int, blocks: int)

  /** Attributes handed to a reply: all set, or only `st_ino` with the rest uninitialised. */
  datatype Attr = Filled(st: Stat) | InoOnly(ino: Uint64)

  /** `struct RamCloudInode`: the attributes and the name of a file. */
  datatype Inode = Inode(attr: Stat, name: seq<Byte>)

  /** `struct fuse_entry_param`; `None` marks a field left uninitialised. */
  datatype EntryParam = EntryParam(ino: Uint64, generation: Option<int>, attr: Attr,
                                   attrTimeout: Option<int>, entryTimeout: Option<int>)

  /** The header of an entry reply and the entry parameters sent, if any. */
  datatype EntryReply = EntryReply(hdr: FuseReply.OutHeader, entry: Option<EntryParam>)

  /** What a handler answering with attributes returns, sends, and the attributes sent. */
  datatype AttrReply = AttrReply(ret: int, hdr: FuseReply.OutHeader, attr: Option<Attr>)

  /** How a read of an inode object ends: the object, no such object, a failed call, or an object of the wrong size. */
  datatype ReadOutcome = Found(inode: Inode) | Missing | RpcFailed | BadSize

  /** A read of key `key` from the inode table, given whether the call itself succeeds. */
  function InodeRead(inodes: map<Uint64, Inode>, key: Uint64, rpcOk: bool): (o: ReadOutcome)
    ensures o.Found? <==> rpcOk && key in inodes
    ensures o.Found? ==> o.inode == inodes[key]
    ensures !o.BadSize?
  {
    if !rpcOk then RpcFailed else if key in inodes then Found(inodes[key]) else Missing
  }

  /** The inode `mknod` creates: a regular file of size 0, with the node id its key. */
  function NewInode(name: seq<Byte>): (n: Inode)
    ensures n.attr.ino == Key(name) && n.attr.mode == S_IFREG && n.attr.size == 0 && n.name == name
  {
    Inode(Stat(0, Key(name), S_IFREG, 0, 0, 0, 0, 0, 1, 1), name)
  }

  /** The entry `mknod` replies with. */
  function NewEntry(name: seq<Byte>): EntryParam
  {
    EntryParam(Key(name), Some(0), Filled(NewInode(name).attr), Some(1), Some(1))
  }

  /** The attributes `getattr` reports for the root directory. */
  function RootStat(): (st: Stat)
    ensures st.ino == ROOT && st.mode & S_IFMT == S_IFDIR
  {
    Stat(0, ROOT, S_IFDIR, 0, 0, 0, 0, 128, 1, 1)
  }

  /* ---------------------------------------------------------------- */
  /* SETATTR                                                           */
  /* ---------------------------------------------------------------- */

  function Has(valid: bv32, bit: bv32): bool
  {
    valid & bit != 0
  }

  /** `off_t` of a `uint64_t` size. */
  function ToOffT(x: Uint64): int
  {
    if x < 0x8000_0000_0000_0000 then x else x - U64
  }

  /**
   * `st_size / 512 + (st_size % 512 == 0 ? 0 : 1)` with C's division,
   * which rounds toward zero.
   */
  function Blocks(size: int): int
  {
    if size >= 0 then size / 512 + (if size % 512 == 0 then 0 else 1)
    else -((-size) / 512) + (if (-size) % 512 == 0 then 0 else 1)
  }

  /** A size from zero up takes the fewest 512-byte blocks that hold it. */
  lemma BlocksCover(size: int)
    requires size >= 0
    ensures Blocks(size) >= 0
    ensures size == 0 ==> Blocks(size) == 0
    ensures size > 0 ==> Blocks(size) * 512 >= size && (Blocks(size) - 1) * 512 < size
  {
  }

  /** The attributes after a SETATTR with the flags `valid` and the new values in `s`. */
  function Masked(a: Stat, s: Stat, valid: bv32): Stat
  {
    var a1 := if Has(valid, FUSE_SET_ATTR_MODE) then a.(mode := s.mode) else a;
    var a2 := if Has(valid, FUSE_SET_ATTR_UID) then a1.(uid := s.uid) else a1;
    var a3 := if Has(valid, FUSE_SET_ATTR_GID) then a2.(gid := s.gid) else a2;
    if Has(valid, FUSE_SET_ATTR_SIZE) then a3.(size := s.size, blocks := Blocks(s.size)) else a3
  }

  /**
   * Each of mode, uid, gid and size takes its new value exactly when its
   * flag is set, the block count follows the size, and no other field
   * changes.
   */
  lemma MaskedFields(a: Stat, s: Stat, valid: bv32)
    ensures var r := Masked(a, s, valid);
      && r.mode == (if Has(valid, FUSE_SET_ATTR_MODE) then s.mode else a.mode)
      && r.uid == (if Has(valid, FUSE_SET_ATTR_UID) then s.uid else a.uid)
      && r.gid == (if Has(valid, FUSE_SET_ATTR_GID) then s.gid else a.gid)
      && r.size == (if Has(valid, FUSE_SET_ATTR_SIZE) then s.size else a.size)
      && r.blocks == (if Has(valid, FUSE_SET_ATTR_SIZE) then Blocks(s.size) else a.blocks)
      && r.(mode := a.mode, uid := a.uid, gid := a.gid, size := a.size, blocks := a.blocks) == a
  {
  }

  /** Applying the same SETATTR twice changes nothing more. */
  lemma MaskedIdempotent(a: Stat, s: Stat, valid: bv32)
    ensures Masked(Masked(a, s, valid), s, valid) == Masked(a, s, valid)
  {
    MaskedFields(a, s, valid);
    MaskedFields(Masked(a, s, valid), s, valid);
  }

  /* ---------------------------------------------------------------- */
  /* The reply to a LOOKUP and a GETATTR, once the inode read completes */
  /* ---------------------------------------------------------------- */

  /**
   * `AsyncLookupOp::completed` as written: no object gives a negative entry
   * (node id 0, timeouts 1); a found object is replied with an inner
   * `fuse_entry_param` that shadows the outer one, so its timeouts and
   * generation are uninitialised.
   */
  function LookupReplyAsWritten(o: ReadOutcome, h: FuseReply.OutHeader, minor: nat): (r: EntryReply)
    ensures o.Found? ==> r.entry.Some? && r.entry.value.attrTimeout.None? && r.entry.value.entryTimeout.None?
  {
    match o
    case Missing => EntryReply(FuseReply.ReplyEntry(h, minor, 0), Some(EntryParam(0, None, InoOnly(0), Some(1), Some(1))))
    case RpcFailed => EntryReply(h.(error := -EIO), None)
    case BadSize => EntryReply(h.(error := -EIO), None)
    case Found(n) => EntryReply(FuseReply.ReplyEntry(h, minor, n.attr.ino), Some(EntryParam(n.attr.ino, None, Filled(n.attr), None, None)))
  }

  /** `AsyncLookupOp::completed` with the found object filled into the outer entry, whose timeouts are 1. */
  function LookupReply(o: ReadOutcome, h: FuseReply.OutHeader, minor: nat): (r: EntryReply)
    ensures r.entry.Some? ==> r.entry.value.attrTimeout == Some(1) && r.entry.value.entryTimeout == Some(1)
    ensures r.entry.None? <==> o.RpcFailed? || o.BadSize?
    ensures r.entry.None? ==> r.hdr == h.(error := -EIO)
  {
    match o
    case Missing => EntryReply(FuseReply.ReplyEntry(h, minor, 0), Some(EntryParam(0, None, InoOnly(0), Some(1), Some(1))))
    case RpcFailed => EntryReply(h.(error := -EIO), None)
    case BadSize => EntryReply(h.(error := -EIO), None)
    case Found(n) => EntryReply(FuseReply.ReplyEntry(h, minor, n.attr.ino), Some(EntryParam(n.attr.ino, None, Filled(n.attr), Some(1), Some(1))))
  }

  /** `fuse_lookup`: the name's key is read from the inode table; the request completes when the read does. */
  function Lookup(inodes: map<Uint64, Inode>, name: seq<Byte>, rpcOk: bool, h: FuseReply.OutHeader, minor: nat): (r: (int, EntryReply))
    ensures r.0 == EWOULDBLOCK
  {
    (EWOULDBLOCK, LookupReply(InodeRead(inodes, Key(name), rpcOk), h, minor))
  }

  /** The lookup before the fix, for comparison. */
  function LookupAsWritten(inodes: map<Uint64, Inode>, name: seq<Byte>, rpcOk: bool, h: FuseReply.OutHeader, minor: nat): (r: (int, EntryReply))
    ensures r.0 == EWOULDBLOCK
  {
    (EWOULDBLOCK, LookupReplyAsWritten(InodeRead(inodes, Key(name), rpcOk), h, minor))
  }

  /** Every successful lookup as written sends validity times that were never set. */
  lemma LookupAsWrittenUninitialisedTimeouts(inodes: map<Uint64, Inode>, name: seq<Byte>, h: FuseReply.OutHeader, minor: nat)
    requires Key(name) in inodes
    ensures var e := LookupAsWritten(inodes, name, true, h, minor).1.entry;
      e.Some? && e.value.attr == Filled(inodes[Key(name)].attr) && e.value.attrTimeout.None? && e.value.entryTimeout.None?
  {
  }

  /**
   * `fuse_getattr`: the root is answered at once with fixed attributes;
   * any other node is read from the inode table, and a missing object is
   * answered with attributes of which only `st_ino` (0) is set.
   */
  function Getattr(inodes: map<Uint64, Inode>, nodeid: Uint64, rpcOk: bool, h: FuseReply.OutHeader, minor: nat): (r: AttrReply)
    ensures nodeid == ROOT ==> r == AttrReply(0, FuseReply.ReplyAttr(h, minor), Some(Filled(RootStat())))
    ensures nodeid != ROOT ==> r.ret == EWOULDBLOCK
    ensures nodeid != ROOT && rpcOk && nodeid in inodes ==>
      r.attr == Some(Filled(inodes[nodeid].attr)) && r.hdr == FuseReply.ReplyAttr(h, minor)
    ensures nodeid != ROOT && rpcOk && nodeid !in inodes ==> r.attr == Some(InoOnly(0))
    ensures !rpcOk && nodeid != ROOT ==> r.attr.None? && r.hdr == h.(error := -EIO)
  {
    if nodeid == ROOT then AttrReply(0, FuseReply.ReplyAttr(h, minor), Some(Filled(RootStat())))
    else
      match InodeRead(inodes, nodeid, rpcOk)
      case Missing => AttrReply(EWOULDBLOCK, FuseReply.ReplyAttr(h, minor), Some(InoOnly(0)))
      case Found(n) => AttrReply(EWOULDBLOCK, FuseReply.ReplyAttr(h, minor), Some(Filled(n.attr)))
      case _ => AttrReply(EWOULDBLOCK, h.(error := -EIO), None)
  }

  /* ---------------------------------------------------------------- */
  /* STATFS                                                            */
  /* ---------------------------------------------------------------- */

  /** The `struct statvfs` fields `fuse_statfs` sets. */
  datatype StatVfs = StatVfs(bsize: nat, frsize: nat, blocks: nat, bfree: nat, bavail: nat, files: nat,
                             ffree: nat, favail: nat, fsid: nat, flag: nat, namemax: nat)

  /** `fuse_statfs`: fixed figures, with names of up to `MAX_FILE_NAME` bytes announced. */
  function Statfs(): (s: StatVfs)
    ensures s.namemax == MAX_FILE_NAME
  {
    StatVfs(1, 4096, 1024 * 1024, 1024, 1024, 1024, 1024, 1024, 1, 0, MAX_FILE_NAME)
  }

  /* ---------------------------------------------------------------- */
  /* MKNOD                                                             */
  /* ---------------------------------------------------------------- */

  /** How `fuse_mknod` judges its request before writing the inode. */
  datatype MknodVerdict = BadParent | NotRegular | NameTooLong | Overflow | Accept

  /**
   * The checks as written: the parent must be the root and the mode a
   * regular file; the name is then copied with `strcpy` into the 128-byte
   * field, which a name of 128 bytes or more overruns.
   */
  function MknodCheckAsWritten(nodeid: Uint64, mode: bv32, name: seq<Byte>): (v: MknodVerdict)
    ensures v != NameTooLong
    ensures v == Accept <==> nodeid == ROOT && mode & S_IFMT == S_IFREG && |name| + 1 <= MAX_FILE_NAME
  {
    if nodeid != ROOT then BadParent
    else if mode & S_IFMT != S_IFREG then NotRegular
    else if |name| + 1 > MAX_FILE_NAME then Overflow
    else Accept
  }

  /** The checks corrected: a name without room for its terminator is refused. */
  function MknodCheck(nodeid: Uint64, mode: bv32, name: seq<Byte>): (v: MknodVerdict)
    ensures v != Overflow
    ensures v == Accept <==> nodeid == ROOT && mode & S_IFMT == S_IFREG && |name| < MAX_FILE_NAME
  {
    if nodeid != ROOT then BadParent
    else if mode & S_IFMT != S_IFREG then NotRegular
    else if |name| >= MAX_FILE_NAME then NameTooLong
    else Accept
  }

  /** A name as long as `statfs` allows overruns the name field in `mknod` as written; corrected it is refused. */
  lemma NameMaxOverflows(name: seq<Byte>)
    requires |name| == Statfs().namemax
    ensures MknodCheckAsWritten(ROOT, S_IFREG, name) == Overflow
    ensures MknodCheck(ROOT, S_IFREG, name) == NameTooLong
  {
  }

  /** The two checks agree on every request except those whose name overruns the field. */
  lemma MknodChecksAgree(nodeid: Uint64, mode: bv32, name: seq<Byte>)
    ensures MknodCheckAsWritten(nodeid, mode, name) == Overflow <==> MknodCheck(nodeid, mode, name) == NameTooLong
    ensures MknodCheckAsWritten(nodeid, mode, name) != Overflow ==> MknodCheckAsWritten(nodeid, mode, name) == MknodCheck(nodeid, mode, name)
  {
  }

  /** The two RAMCloud tables this backend uses. */
  class RamCloud {
    /** The inode table: attributes and name, keyed by inode number. */
    var inodes: map<Uint64, Inode>
    /** The data table: the bytes of each file, under the same key. */
    var data: map<Uint64, seq<Byte>>

    constructor ()
      ensures inodes == map[] && data == map[]
    {
      inodes, data := map[], map[];
    }

    /**
     * `fuse_mknod` with a verdict: a refused request stores its error; an
     * accepted one writes the new inode under the name's key (or stores
     * -EIO when the write fails) and replies with its entry.
     */
    method MknodWith(v: MknodVerdict, name: seq<Byte>, writeOk: bool, h: FuseReply.OutHeader, minor: nat)
      returns (ret: int, r: EntryReply)
      requires v != Overflow
      modifies this`inodes
      ensures ret == 0
      ensures v == BadParent ==> r == EntryReply(h.(error := -EIO), None) && inodes == old(inodes)
      ensures v == NotRegular ==> r == EntryReply(h.(error := -EINVAL), None) && inodes == old(inodes)
      ensures v == NameTooLong ==> r == EntryReply(h.(error := -ENAMETOOLONG), None) && inodes == old(inodes)
      ensures v == Accept && !writeOk ==> r == EntryReply(h.(error := -EIO), None) && inodes == old(inodes)
      ensures v == Accept && writeOk ==>
        && inodes == old(inodes)[Key(name) := NewInode(name)]
        && r == EntryReply(FuseReply.ReplyEntry(h, minor, Key(name)), Some(NewEntry(name)))
    {
      ret := 0;
      if v == BadParent {
        return 0, EntryReply(h.(error := -EIO), None);
      }
      if v == NotRegular {
        return 0, EntryReply(h.(error := -EINVAL), None);
      }
      if v == NameTooLong {
        return 0, EntryReply(h.(error := -ENAMETOOLONG), None);
      }
      var inode := NewInode(name);
      if !writeOk {
        return 0, EntryReply(h.(error := -EIO), None);
      }
      inodes := inodes[inode.attr.ino := inode];
      r := EntryReply(FuseReply.ReplyEntry(h, minor, inode.attr.ino), Some(NewEntry(name)));
    }

    /** `fuse_mknod` as written; a name that overruns the field stops the model, as the overrun is undefined. */
    method MknodAsWritten(nodeid: Uint64, mode: bv32, name: seq<Byte>, writeOk: bool, h: FuseReply.OutHeader, minor: nat)
      returns (overflow: bool, ret: int, r: EntryReply)
      modifies this`inodes
      ensures overflow <==> nodeid == ROOT && mode & S_IFMT == S_IFREG && |name| >= MAX_FILE_NAME
      ensures overflow ==> inodes == old(inodes)
      ensures !overflow && MknodCheck(nodeid, mode, name) == Accept && writeOk ==>
        inodes == old(inodes)[Key(name) := NewInode(name)] && ret == 0 && r.entry == Some(NewEntry(name))
    {
      var v := MknodCheckAsWritten(nodeid, mode, name);
      if v == Overflow {
        return true, 0, EntryReply(h, None);
      }
      overflow := false;
      ret, r := MknodWith(v, name, writeOk, h, minor);
    }

    /** `fuse_mknod` corrected: a name of `MAX_FILE_NAME` bytes or more is refused with -ENAMETOOLONG. */
    method Mknod(nodeid: Uint64, mode: bv32, name: seq<Byte>, writeOk: bool, h: FuseReply.OutHeader, minor: nat)
      returns (ret: int, r: EntryReply)
      modifies this`inodes
      ensures ret == 0
      ensures MknodCheck(nodeid, mode, name) != Accept || !writeOk ==>
        inodes == old(inodes) && r.entry.None? && r.hdr.error < 0
      ensures MknodCheck(nodeid, mode, name) == Accept && writeOk ==>
        && inodes == old(inodes)[Key(name) := NewInode(name)]
        && r == EntryReply(FuseReply.ReplyEntry(h, minor, Key(name)), Some(NewEntry(name)))
    {
      ret, r := MknodWith(MknodCheck(nodeid, mode, name), name, writeOk, h, minor);
    }

    /**
     * `fuse_setattr`: the inode is read (a missing one is -ENOENT, a failed
     * read -EIO), the flagged fields are replaced and the inode written
     * back (-EIO when that fails), and the new attributes are replied.
     */
    method Setattr(nodeid: Uint64, s: Stat, valid: bv32, readOk: bool, writeOk: bool, h: FuseReply.OutHeader, minor: nat)
      returns (r: AttrReply)
      modifies this`inodes
      ensures r.ret == 0
      ensures !readOk ==> r == AttrReply(0, h.(error := -EIO), None) && inodes == old(inodes)
      ensures readOk && nodeid !in old(inodes) ==> r == AttrReply(0, h.(error := -ENOENT), None) && inodes == old(inodes)
      ensures readOk && nodeid in old(inodes) && !writeOk ==> r == AttrReply(0, h.(error := -EIO), None) && inodes == old(inodes)
      ensures readOk && nodeid in old(inodes) && writeOk ==>
        var n := old(inodes)[nodeid];
        && inodes == old(inodes)[nodeid := n.(attr := Masked(n.attr, s, valid))]
        && r == AttrReply(0, FuseReply.ReplyAttr(h, minor), Some(Filled(Masked(n.attr, s, valid))))
    {
      var o := InodeRead(inodes, nodeid, readOk);
      if o.RpcFailed? {
        return AttrReply(0, h.(error := -EIO), None);
      }
      if o.Missing? {
        return AttrReply(0, h.(error := -ENOENT), None);
      }
      var n := o.inode;
      var attr := Masked(n.attr, s, valid);
      if !writeOk {
        return AttrReply(0, h.(error := -EIO), None);
      }
      inodes := inodes[nodeid := n.(attr := attr)];
      r := AttrReply(0, FuseReply.ReplyAttr(h, minor), Some(Filled(attr)));
    }

    /**
     * `fuse_unlink`: both objects under the name's key are removed, and
     * -EIO is stored when either removal reports a failure.
     */
    method Unlink(name: seq<Byte>, inodeOk: bool, dataOk: bool, h: FuseReply.OutHeader) returns (ret: int, h': FuseReply.OutHeader)
      modifies this
      ensures ret == 0
      ensures inodes == (if inodeOk then old(inodes) - {Key(name)} else old(inodes))
      ensures data == (if dataOk then old(data) - {Key(name)} else old(data))
      ensures h' == if inodeOk && dataOk then h else h.(error := -EIO)
    {
      var key := Key(name);
      if inodeOk {
        inodes := inodes - {key};
      }
      if dataOk {
        data := data - {key};
      }
      ret := 0;
      h' := if inodeOk && dataOk then h else h.(error := -EIO);
    }
  }

  /** A file made by `mknod` is found by a lookup of its name, with the attributes it was made with. */
  method MknodThenLookup(rc: RamCloud, name: seq<Byte>, h: FuseReply.OutHeader, minor: nat)
    returns (e: EntryReply)
    requires |name| < MAX_FILE_NAME
    modifies rc`inodes
    ensures e.entry.Some? && e.entry.value.ino == Key(name) && e.entry.value.attr == Filled(NewInode(name).attr)
    ensures e.hdr == FuseReply.ReplyEntry(h, minor, Key(name))
  {
    var ret, made := rc.Mknod(ROOT, S_IFREG, name, true, h, minor);
    var l := Lookup(rc.inodes, name, true, h, minor);
    e := l.1;
  }

  /** A file made by `mknod` answers GETATTR on its node id, unless that id is the root's. */
  method MknodThenGetattr(rc: RamCloud, name: seq<Byte>, h: FuseReply.OutHeader, minor: nat)
    returns (a: AttrReply)
    requires |name| < MAX_FILE_NAME && Key(name) != ROOT
    modifies rc`inodes
    ensures a.attr == Some(Filled(NewInode(name).attr)) && a.ret == EWOULDBLOCK
  {
    var ret, made := rc.Mknod(ROOT, S_IFREG, name, true, h, minor);
    a := Getattr(rc.inodes, Key(name), true, h, minor);
  }

  /** After an unlink that succeeds, a lookup of the name gives a negative entry. */
  method UnlinkThenLookup(rc: RamCloud, name: seq<Byte>, h: FuseReply.OutHeader, minor: nat)
    returns (e: EntryReply)
    modifies rc
    ensures e.entry == Some(EntryParam(0, None, InoOnly(0), Some(1), Some(1)))
  {
    var ret, h' := rc.Unlink(name, true, true, h);
    var l := Lookup(rc.inodes, name, true, h, minor);
    e := l.1;
  }

  /** A SETATTR followed by a GETATTR of the same node reports the masked attributes. */
  method SetattrThenGetattr(rc: RamCloud, nodeid: Uint64, s: Stat, valid: bv32, h: FuseReply.OutHeader, minor: nat)
    returns (a: AttrReply)
    requires nodeid in rc.inodes && nodeid != ROOT
    modifies rc`inodes
    ensures a.attr == Some(Filled(Masked(old(rc.inodes)[nodeid].attr, s, valid)))
  {
    var r := rc.Setattr(nodeid, s, valid, true, true, h, minor);
    a := Getattr(rc.inodes, nodeid, true, h, minor);
  }
}
