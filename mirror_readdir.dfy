/**
 * `fuser_mirror_readdir` of the io_uring mirror backend: the directory
 * stream is read entry by entry, "." and ".." are skipped, and each other
 * entry is appended to the reply through the iovec cursor until one does
 * not fit. The stream is a parameter: the entries `readdir(3)` returns
 * from the (possibly seeked) position, then how it ends.
 */
module MirrorReaddir {
  import opened Common
  import opened Errno
  import opened FuseIov
  import opened Fuser
  import opened MirrorImpl
  import opened Chains
  import FuseReply

  /** One `struct dirent` as `readdir` returns it. */
  datatype DirEntry = DirEntry(name: seq<Byte>, ino: Uint64, dtype: Byte, off: int)

  /** `d_off` is a signed 64-bit offset and a name fits `namelen`. */
  predicate WellFormed(e: DirEntry)
  {
    -0x8000_0000_0000_0000 <= e.off < 0x8000_0000_0000_0000 && |e.name| < U32
  }

  /** A well-formed entry: every entry the stream yields is one. */
  type Entry = e: DirEntry | WellFormed(e) witness DirEntry([], 0, 0, 0)

  /** An open directory handle (`struct directory`): the stream position readdir last reached. */
  class Directory {
    var offset: int

    constructor (offset: int)
      ensures this.offset == offset
    {
      this.offset := offset;
    }
  }

  /** `st_mode = d_type << 12`: the type nibble in the mode's `S_IFMT` bits. */
  function EntryMode(e: Entry): (m: Uint32)
    ensures DirentType(m) == e.dtype % 16
  {
    e.dtype * 0x1000
  }

  /** The `fuse_dirent` record of an entry. */
  function Record(e: Entry): (r: seq<Byte>)
    ensures |r| == DirentAlign(FUSE_NAME_OFFSET + |e.name|)
  {
    Dirent(e.ino, e.off, e.name, EntryMode(e))
  }

  /** The kernel reads back every field of an entry's record; the type is `d_type` kept to four bits. */
  lemma RecordParses(e: Entry)
    ensures ParseDirent(Record(e)) == Some(DirentFields(e.ino, e.off % U64, |e.name|, e.dtype % 16, e.name))
  {
    DirentRoundTrip(e.ino, e.off, e.name, EntryMode(e));
  }

  /** The entries other than "." and "..", in stream order. */
  function NonDots(es: seq<Entry>): (r: seq<Entry>)
    ensures |r| <= |es|
  {
    if es == [] then []
    else if IsDotOrDotdot(es[0].name) then NonDots(es[1..])
    else [es[0]] + NonDots(es[1..])
  }

  /** The records of `es`, back to back. */
  function Records(es: seq<Entry>): (r: seq<Byte>)
  {
    if es == [] then [] else Record(es[0]) + Records(es[1..])
  }

  lemma {:induction false} RecordsAppend(a: seq<Entry>, e: Entry)
    ensures Records(a + [e]) == Records(a) + Record(e)
  {
    if a == [] {
      assert [] + [e] == [e];
    } else {
      RecordsAppend(a[1..], e);
      assert (a + [e])[1..] == a[1..] + [e];
    }
  }

  /**
   * What the loop leaves behind: the bytes appended, the entries counted,
   * the stream entries read, and whether it stopped on an entry that did
   * not fit (`full`) rather than at the end of the stream.
   */
  datatype Fill = Fill(bytes: seq<Byte>, count: nat, read: nat, full: bool)

  /** The loop of `fuser_mirror_readdir` without lookups, over `room` free bytes. */
  function FillPlain(es: seq<Entry>, room: nat): (r: Fill)
    ensures |r.bytes| <= room && r.read <= |es|
    ensures r.full ==> r.read >= 1
    ensures !r.full ==> r.read == |es|
    decreases |es|
  {
    if es == [] then Fill([], 0, 0, false)
    else if IsDotOrDotdot(es[0].name) then
      var r := FillPlain(es[1..], room);
      r.(read := r.read + 1)
    else if room < |Record(es[0])| then Fill([], 0, 1, true)
    else
      var r := FillPlain(es[1..], room - |Record(es[0])|);
      Fill(Record(es[0]) + r.bytes, r.count + 1, r.read + 1, r.full)
  }

  /**
   * Readdir emits the longest run of non-dot entries, from the first on,
   * whose records fit: their records back to back, counted one by one;
   * it stops early only when the next record would not fit.
   */
  lemma {:induction false} FillPlainSpec(es: seq<Entry>, room: nat)
    ensures FillMatches(es, room)
    decreases |es|
  {
    if es != [] {
      var e := es[0];
      if IsDotOrDotdot(e.name) {
        FillPlainSpec(es[1..], room);
        FillDot(es, room);
      } else if room < |Record(e)| {
        FillNoRoom(es, room);
      } else {
        FillPlainSpec(es[1..], room - |Record(e)|);
        FillFits(es, room);
      }
    }
  }

  /** The fill is the non-dot entries' longest fitting run, as `FillPlainSpec` states. */
  ghost predicate FillMatches(es: seq<Entry>, room: nat)
  {
    var r := FillPlain(es, room);
    && r.count <= |NonDots(es)|
    && r.bytes == Records(NonDots(es)[..r.count])
    && (r.full <==> r.count < |NonDots(es)|)
    && (r.full ==> |r.bytes| + |Record(NonDots(es)[r.count])| > room)
  }

  lemma FillDot(es: seq<Entry>, room: nat)
    requires es != [] && IsDotOrDotdot(es[0].name) && FillMatches(es[1..], room)
    ensures FillMatches(es, room)
  {
    assert NonDots(es) == NonDots(es[1..]);
  }

  lemma FillNoRoom(es: seq<Entry>, room: nat)
    requires es != [] && !IsDotOrDotdot(es[0].name) && room < |Record(es[0])|
    ensures FillMatches(es, room)
  {
    assert NonDots(es) == [es[0]] + NonDots(es[1..]);
    assert NonDots(es)[..0] == [];
  }

  lemma FillFits(es: seq<Entry>, room: nat)
    requires es != [] && !IsDotOrDotdot(es[0].name) && room >= |Record(es[0])|
    requires FillMatches(es[1..], room - |Record(es[0])|)
    ensures FillMatches(es, room)
  {
    var e, nd := es[0], NonDots(es[1..]);
    var r := FillPlain(es[1..], room - |Record(e)|);
    assert FillPlain(es, room) == Fill(Record(e) + r.bytes, r.count + 1, r.read + 1, r.full);
    assert NonDots(es) == [e] + nd;
    var L := nd[..r.count];
    assert NonDots(es)[..r.count + 1] == [e] + L;
    RecordsCons(e, L);
    assert r.full ==> NonDots(es)[r.count + 1] == nd[r.count];
  }

  lemma RecordsCons(e: Entry, L: seq<Entry>)
    ensures Records([e] + L) == Record(e) + Records(L)
  {
    assert ([e] + L)[1..] == L;
  }

  /** Neither "." nor ".." survives the filter, and every other entry does, in order. */
  lemma {:induction false} NonDotsExact(es: seq<Entry>)
    ensures forall k :: 0 <= k < |NonDots(es)| ==> !IsDotOrDotdot(NonDots(es)[k].name)
    ensures |NonDots(es)| == |es| - CountDots(es)
  {
    if es != [] {
      NonDotsExact(es[1..]);
      if !IsDotOrDotdot(es[0].name) {
        assert forall k :: 1 <= k < |NonDots(es)| ==> NonDots(es)[k] == NonDots(es[1..])[k - 1];
      }
    }
  }

  /** How many entries of `es` are "." or "..". */
  function CountDots(es: seq<Entry>): (n: nat)
    ensures n <= |es|
  {
    if es == [] then 0 else (if IsDotOrDotdot(es[0].name) then 1 else 0) + CountDots(es[1..])
  }

  /** With no more bytes appended than the request asked for, the 32-bit `rem` arithmetic is exact. */
  lemma RemExact(size: nat, written: nat)
    requires written <= size < U32
    ensures Wrap32(size - written) == size - written
    ensures Wrap32(size - Wrap32(size - written)) == written
  {
  }

  /**
   * The loop of `fuser_mirror_readdir` without `plus`: after seeking to
   * `off` when the directory is elsewhere, every entry the stream yields
   * is read until one does not fit. `rem` starts at `size` and loses each
   * appended record's length in 32-bit arithmetic.
   */
  method FillEntries(d: Directory, cur: IovCursor, off: int, size: Uint32, es: seq<Entry>,
                     ghost room0: nat, ghost lens0: seq<nat>, ghost c0: seq<Byte>, ghost p0: nat)
    returns (rem: Uint32, count: nat, full: bool, ghost written: seq<Byte>, ghost read: nat)
    requires cur.Valid() && room0 == cur.bytesUnused && lens0 == Lens(cur.iovec)
    requires c0 == cur.Contents() && p0 == cur.Used()
    modifies d, cur
    ensures FillPlain(es, room0) == Fill(written, count, read, full)
    ensures Filled(d, cur, off, size, es, lens0, c0, p0, read, written, rem)
  {
    if off != d.offset {
      d.offset := off;
    }
    rem := size;
    var k := 0;
    count := 0;
    full := false;
    ghost var bytes: seq<Byte> := [];
    ghost var wraps := 0;
    FillingStart(d, cur, off, size, es, room0, lens0, c0, p0);
    while k < |es|
      invariant k <= |es| && !full && Progress(es, room0, bytes, count, k)
      invariant Filling(d, cur, off, size, es, lens0, c0, p0, k, bytes, rem, wraps)
      decreases |es| - k
    {
      rem, count, full, k, bytes, wraps := ReadEntry(d, cur, off, size, es, k, rem, count, room0, lens0, c0, p0, bytes, wraps);
      if full {
        break;
      }
    }
    FillingDone(d, cur, off, size, es, room0, lens0, c0, p0, k, bytes, count, rem, wraps, full);
    written, read := bytes, k;
  }

  /**
   * One pass of that loop, for the entry `es[k]`: the directory offset
   * moves to the entry's `d_off`; "." and ".." are skipped; any other
   * entry is appended and counted, or, when it does not fit, ends the
   * loop (`full`).
   */
  method ReadEntry(d: Directory, cur: IovCursor, off: int, size: Uint32, es: seq<Entry>, k: nat, rem: Uint32, count: nat,
                   ghost room0: nat, ghost lens0: seq<nat>, ghost c0: seq<Byte>, ghost p0: nat, ghost bytes: seq<Byte>,
                   ghost wraps: int)
    returns (rem': Uint32, count': nat, full: bool, k': nat, ghost bytes': seq<Byte>, ghost wraps': int)
    requires k < |es| && Progress(es, room0, bytes, count, k) && p0 + room0 == |c0|
    requires Filling(d, cur, off, size, es, lens0, c0, p0, k, bytes, rem, wraps)
    modifies d, cur
    ensures k' == k + 1 && Filling(d, cur, off, size, es, lens0, c0, p0, k', bytes', rem', wraps')
    ensures !full ==> Progress(es, room0, bytes', count', k')
    ensures full ==> FillPlain(es, room0) == Fill(bytes', count', k', true)
  {
    rem', count', full, k', bytes', wraps' := rem, count, false, k + 1, bytes, wraps;
    d.offset := es[k].off;
    if IsDotOrDotdot(es[k].name) {
      ProgressDot(es, room0, bytes, count, k);
      return;
    }
    var n := AppendRecord(cur, es[k], c0, p0, bytes);
    if n == 0 {
      ProgressFull(es, room0, bytes, count, k);
      full := true;
      return;
    }
    ghost var rec := Record(es[k]);
    ProgressFits(es, room0, bytes, count, k);
    rem', wraps' := Sub32(rem, n, size, bytes, rec, wraps);
    bytes' := bytes + rec;
    count' := count + 1;
  }

  /**
   * `fuser_mirror_readdir` without `plus`. `off` is the requested offset,
   * `size` the requested byte count (`in_read->size`, 32 bits), `es` the
   * entries the stream yields and `endErr` the errno of the `readdir`
   * call that ended it (`None` at a clean end). An error is reported only
   * when nothing was added; otherwise the header length grows by
   * `size - rem`.
   */
  method ReaddirPlain(d: Directory, cur: IovCursor, off: int, size: Uint32, es: seq<Entry>,
                      endErr: Option<Errnum>, hdr: FuseReply.OutHeader)
    returns (hdr': FuseReply.OutHeader, count: nat)
    requires cur.Valid() && hdr.len < U32
    modifies d, cur
    ensures var F := FillPlain(es, old(cur.bytesUnused));
      && cur.Valid() && Lens(cur.iovec) == old(Lens(cur.iovec))
      && cur.bytesUnused == old(cur.bytesUnused) - |F.bytes|
      && cur.Contents() == Overwrite(old(cur.Contents()), old(cur.Used()), F.bytes)
      && count == F.count
      && d.offset == (if F.read == 0 then off else es[F.read - 1].off)
      && (if !F.full && endErr.Some? && Wrap32(size - |F.bytes|) == size
          then hdr' == hdr.(error := -(endErr.value as int))
          else hdr' == hdr.(len := Wrap32(hdr.len + Wrap32(size - Wrap32(size - |F.bytes|)))))
  {
    var rem, full;
    ghost var written, read;
    rem, count, full, written, read := FillEntries(d, cur, off, size, es, cur.bytesUnused, Lens(cur.iovec), cur.Contents(), cur.Used());
    var err: int := 0;
    if !full && endErr.Some? {
      err := endErr.value;
    }
    if err != 0 && rem == size {
      hdr' := hdr.(error := -err);
    } else {
      hdr' := hdr.(len := Wrap32(hdr.len + Wrap32(size - rem)));
    }
  }

  /**
   * The state of the readdir loop after `k` entries were read: the
   * cursor holds `bytes` past its starting position, `rem` is `size`
   * less their length modulo 2^32, and the directory offset is that of
   * the last entry read (or the requested one before any).
   */
  ghost predicate Filling(d: Directory, cur: IovCursor, off: int, size: Uint32, es: seq<Entry>, lens0: seq<nat>,
                          c0: seq<Byte>, p0: nat, k: nat, bytes: seq<Byte>, rem: Uint32, wraps: int)
    reads d, cur
  {
    && k <= |es| && Wrote(cur, lens0, c0, p0, bytes)
    && rem == size - |bytes| + wraps * U32
    && d.offset == (if k == 0 then off else es[k - 1].off)
  }

  /**
   * After the loop: the cursor holds `bytes` past its starting position,
   * `rem` is `size` less their length as a 32-bit value, and the
   * directory offset is that of the last entry read.
   */
  ghost predicate Filled(d: Directory, cur: IovCursor, off: int, size: Uint32, es: seq<Entry>, lens0: seq<nat>,
                         c0: seq<Byte>, p0: nat, k: nat, bytes: seq<Byte>, rem: Uint32)
    reads d, cur
  {
    && k <= |es| && Wrote(cur, lens0, c0, p0, bytes) && rem == Wrap32(size - |bytes|)
    && d.offset == (if k == 0 then off else es[k - 1].off)
  }

  /** The loop state before any entry is read. */
  lemma FillingStart(d: Directory, cur: IovCursor, off: int, size: Uint32, es: seq<Entry>, room0: nat, lens0: seq<nat>,
                     c0: seq<Byte>, p0: nat)
    requires cur.Valid() && room0 == cur.bytesUnused && lens0 == Lens(cur.iovec)
    requires c0 == cur.Contents() && p0 == cur.Used() && d.offset == off
    ensures Progress(es, room0, [], 0, 0)
    ensures Filling(d, cur, off, size, es, lens0, c0, p0, 0, [], size, 0)
  {
    assert es[0..] == es;
    assert Overwrite(c0, p0, []) == c0;
    var r := FillPlain(es, room0);
    assert [] + r.bytes == r.bytes;
  }

  /** What the loop state means once the loop is over. */
  lemma FillingDone(d: Directory, cur: IovCursor, off: int, size: Uint32, es: seq<Entry>, room0: nat, lens0: seq<nat>,
                    c0: seq<Byte>, p0: nat, k: nat, bytes: seq<Byte>, count: nat, rem: Uint32, wraps: int, full: bool)
    requires Filling(d, cur, off, size, es, lens0, c0, p0, k, bytes, rem, wraps)
    requires full ==> FillPlain(es, room0) == Fill(bytes, count, k, true)
    requires !full ==> k == |es| && Progress(es, room0, bytes, count, k)
    ensures FillPlain(es, room0) == Fill(bytes, count, k, full)
    ensures Filled(d, cur, off, size, es, lens0, c0, p0, k, bytes, rem)
  {
    if !full {
      ProgressEnd(es, room0, bytes, count, k);
    }
    WrapIsMod(size - |bytes|, wraps, rem);
  }

  /** `fuse_add_direntry` of one entry, after `bytes` were appended at `p0` of the original contents `c0`. */
  method AppendRecord(cur: IovCursor, e: Entry, ghost c0: seq<Byte>, ghost p0: nat, ghost bytes: seq<Byte>)
    returns (n: nat)
    requires cur.Valid() && p0 + |bytes| <= |c0| && cur.bytesUnused == |c0| - p0 - |bytes|
    requires cur.Contents() == Overwrite(c0, p0, bytes)
    modifies cur
    ensures cur.Valid() && Lens(cur.iovec) == old(Lens(cur.iovec))
    ensures n == 0 <==> old(cur.bytesUnused) < |Record(e)|
    ensures n == 0 ==> cur.bytesUnused == old(cur.bytesUnused) && cur.Contents() == old(cur.Contents())
    ensures n != 0 ==>
      && n == |Record(e)| && cur.bytesUnused == old(cur.bytesUnused) - n
      && cur.Contents() == Overwrite(c0, p0, bytes + Record(e))
  {
    n := cur.AddDirentry(e.name, e.ino, EntryMode(e), e.off);
    if n != 0 {
      OverwriteTwice(c0, p0, bytes, p0 + |bytes|, Record(e));
    }
  }

  /**
   * `rem -= written` on the 32-bit `rem`: it stays `size` less the bytes
   * appended, up to a multiple `wraps` of 2^32.
   */
  method Sub32(rem: Uint32, n: nat, ghost size: int, ghost bytes: seq<Byte>, ghost rec: seq<Byte>, ghost wraps: int)
    returns (r: Uint32, ghost wraps': int)
    requires rem == size - |bytes| + wraps * U32 && n == |rec|
    ensures r == size - |bytes + rec| + wraps' * U32
  {
    r := Wrap32(rem - n);
    wraps' := wraps - (rem - n) / U32;
  }

  /** A 32-bit value that differs from `x` by a multiple of 2^32 is `x` modulo 2^32. */
  lemma WrapIsMod(x: int, wraps: int, r: Uint32)
    requires r == x + wraps * U32
    ensures r == Wrap32(x)
  {
  }

  /**
   * The loop has appended `bytes` for `count` entries after reading `k`,
   * and what the rest of the stream adds completes the whole fill.
   */
  ghost predicate Progress(es: seq<Entry>, room0: nat, bytes: seq<Byte>, count: nat, k: nat)
  {
    && k <= |es| && |bytes| <= room0
    && FillPlain(es, room0) == Joined(bytes, count, k, FillPlain(es[k..], room0 - |bytes|))
  }

  lemma ProgressDot(es: seq<Entry>, room0: nat, bytes: seq<Byte>, count: nat, k: nat)
    requires k < |es| && Progress(es, room0, bytes, count, k) && IsDotOrDotdot(es[k].name)
    ensures Progress(es, room0, bytes, count, k + 1)
  {
    FillPlainAt(es, k, room0 - |bytes|);
  }

  lemma ProgressFits(es: seq<Entry>, room0: nat, bytes: seq<Byte>, count: nat, k: nat)
    requires k < |es| && Progress(es, room0, bytes, count, k) && !IsDotOrDotdot(es[k].name)
    requires |bytes| + |Record(es[k])| <= room0
    ensures Progress(es, room0, bytes + Record(es[k]), count + 1, k + 1)
  {
    var rec, room := Record(es[k]), room0 - |bytes|;
    FillPlainAt(es, k, room);
    var r := FillPlain(es[k + 1..], room - |rec|);
    assert room0 - |bytes + rec| == room - |rec|;
    JoinedStep(bytes, rec, count, k, r);
  }

  lemma ProgressFull(es: seq<Entry>, room0: nat, bytes: seq<Byte>, count: nat, k: nat)
    requires k < |es| && Progress(es, room0, bytes, count, k) && !IsDotOrDotdot(es[k].name)
    requires room0 - |bytes| < |Record(es[k])|
    ensures FillPlain(es, room0) == Fill(bytes, count, k + 1, true)
  {
    FillPlainAt(es, k, room0 - |bytes|);
    assert bytes + [] == bytes;
  }

  lemma ProgressEnd(es: seq<Entry>, room0: nat, bytes: seq<Byte>, count: nat, k: nat)
    requires k == |es| && Progress(es, room0, bytes, count, k)
    ensures FillPlain(es, room0) == Fill(bytes, count, k, false)
  {
    assert es[k..] == [];
    assert bytes + [] == bytes;
  }

  /** A fill of the rest of the stream after `bytes`, `count` entries and `read` reads. */
  function Joined(bytes: seq<Byte>, count: nat, read: nat, r: Fill): Fill
  {
    Fill(bytes + r.bytes, count + r.count, read + r.read, r.full)
  }

  lemma JoinedStep(bytes: seq<Byte>, rec: seq<Byte>, count: nat, k: nat, r: Fill)
    ensures Joined(bytes, count, k, Fill(rec + r.bytes, r.count + 1, r.read + 1, r.full))
         == Joined(bytes + rec, count + 1, k + 1, r)
  {
  }

  /** One step of the fill at position `k` of the stream. */
  lemma FillPlainAt(es: seq<Entry>, k: nat, room: nat)
    requires k < |es|
    ensures FillPlain(es[k..], room) ==
      if IsDotOrDotdot(es[k].name) then
        var r := FillPlain(es[k + 1..], room);
        r.(read := r.read + 1)
      else if room < |Record(es[k])| then Fill([], 0, 1, true)
      else
        var r := FillPlain(es[k + 1..], room - |Record(es[k])|);
        Fill(Record(es[k]) + r.bytes, r.count + 1, r.read + 1, r.full)
  {
    assert es[k..][1..] == es[k + 1..];
  }

  /** The `fuse_direntplus` record of an entry whose lookup returned `st`, after the entry reply `eo`. */
  function PlusRecord(eo: seq<Byte>, e: Entry, st: Stat): (r: seq<Byte>)
    requires |eo| == ENTRY_OUT_SIZE
    ensures |r| == DirentAlign(FUSE_NAME_OFFSET_DIRENTPLUS + |e.name|) && r[..ENTRY_OUT_SIZE] == eo
  {
    DirentPlus(eo, st.ino, e.off, e.name, st.mode)
  }

  /**
   * The `plus` branch of the readdir loop for one entry that is not a
   * dot: `do_lookup` of the name (its `openat`/`fstatat` outcomes and
   * whether an inode can be allocated are parameters), then
   * `fuse_add_direntry_plus` with the entry reply `eo` that `fill_entry`
   * makes of the lookup. When the record does not fit, `forget_one(…, 1)`
   * takes back the lookup just counted, so the buffer-full exit leaves
   * every lookup count as it was, and the table too unless a known inode
   * had no lookups left; only the descriptor the lookup recorded survives.
   */
  method PlusEntry(f: Mirror, cur: IovCursor, e: Entry, eo: seq<Byte>, openRes: Sys<int>, statRes: Sys<Stat>,
                   allocOk: bool, ghost lens0: seq<nat>, ghost c0: seq<Byte>, ghost p0: nat, ghost bytes: seq<Byte>)
    returns (err: nat, n: nat, node: Inode, ghost n0: Option<nat>)
    requires f.Valid() && !f.locked && (openRes.Ok? ==> openRes.value >= 0) && |eo| == ENTRY_OUT_SIZE
    requires Wrote(cur, lens0, c0, p0, bytes)
    modifies f, f.inodes, Tracked(f), cur
    ensures f.Valid() && !f.locked
    ensures err != 0 ==>
      n == 0 && f.inodes.buckets == old(f.inodes.buckets) && unchanged(old(Tracked(f))) && unchanged(cur)
    ensures err == 0 ==>
      && LookupPassed(f, openRes, statRes) && (n0.None? <==> fresh(node))
      && (n0.Some? ==> n0.value == old(node.nlookup))
      && (n == 0 <==> old(cur.bytesUnused) < |PlusRecord(eo, e, statRes.value)|)
      && Wrote(cur, lens0, c0, p0, if n == 0 then bytes else bytes + PlusRecord(eo, e, statRes.value))
    ensures err == 0 && n == 0 ==> Undone(f, node, old(f.inodes.buckets), n0)
    ensures err == 0 && n != 0 ==> LookedUp(f, node, openRes.value, statRes.value, old(f.inodes.buckets), n0)
  {
    err, node, n0 := PlusLookup(f, openRes, statRes, allocOk);
    if err != 0 {
      n := 0;
      return;
    }
    n := AppendOrForget(f, cur, e, eo, node, statRes.value, old(f.inodes.buckets), n0, lens0, c0, p0, bytes);
  }

  /**
   * A lookup of `node` with descriptor `newfd` and `stat` result `st`
   * succeeded on top of the buckets `bs0`: it filed a new inode (`n0` is
   * `None`) with one lookup, or found a known one that had `n0` lookups
   * and counted one more.
   */
  ghost predicate LookedUp(f: Mirror, node: Inode, newfd: int, st: Stat, bs0: seq<seq<Slot<Inode>>>, n0: Option<nat>)
    reads f.inodes, node
  {
    && f.inodes.Valid() && newfd >= 0
    && LookupDone(f, newfd, st, EntryParam(Ptr(node), node.generation, st))
    && (n0.None? ==> node.srcIno == st.ino && node.nlookup == 1 && |bs0| > 0 && f.inodes.buckets == Filed(bs0, st.ino, node))
    && (n0.Some? ==> node.nlookup == n0.value + 1 && f.inodes.buckets == bs0)
  }

  /** `do_lookup` as the `plus` branch uses it, with what it did to the table summed up by `LookedUp`. */
  method PlusLookup(f: Mirror, openRes: Sys<int>, statRes: Sys<Stat>, allocOk: bool)
    returns (err: nat, node: Inode, ghost n0: Option<nat>)
    requires f.Valid() && !f.locked && (openRes.Ok? ==> openRes.value >= 0)
    modifies f, f.inodes, Tracked(f)
    ensures f.Valid() && !f.locked && (node in old(Tracked(f)) || fresh(node))
    ensures err != 0 ==> f.inodes.buckets == old(f.inodes.buckets) && unchanged(old(Tracked(f)))
    ensures err == 0 ==>
      && LookupPassed(f, openRes, statRes) && (n0.None? <==> fresh(node))
      && (n0.Some? ==> n0.value == old(node.nlookup))
      && LookedUp(f, node, openRes.value, statRes.value, old(f.inodes.buckets), n0)
      && unchanged(old(Tracked(f)) - {node})
  {
    var ep;
    err, ep := DoLookup(f, openRes, statRes, allocOk);
    if err != 0 {
      node, n0 := f.root, None;
      return;
    }
    node := ep.node.inode;
    n0 := if fresh(node) then None else Some(old(node.nlookup));
  }

  /**
   * The buffer-full exit took back the lookup of `node`: a new inode
   * (`n0` is `None`) has no lookups and is out of the table again; a known
   * one has its `n0` lookups back, and the table is as it was unless that
   * left it with none.
   */
  ghost predicate Undone(f: Mirror, node: Inode, bs0: seq<seq<Slot<Inode>>>, n0: Option<nat>)
    reads f.inodes, node
  {
    && node.nlookup == (if n0.None? then 0 else n0.value)
    && (n0.None? || n0.value > 0 ==> f.inodes.buckets == bs0)
  }

  /**
   * `fuse_add_direntry_plus` after the lookup of `node` returned `st`,
   * then, when it does not fit, `forget_one(…, 1)` on `node`.
   */
  method AppendOrForget(f: Mirror, cur: IovCursor, e: Entry, eo: seq<Byte>, node: Inode, st: Stat,
                        ghost bs0: seq<seq<Slot<Inode>>>, ghost n0: Option<nat>,
                        ghost lens0: seq<nat>, ghost c0: seq<Byte>, ghost p0: nat, ghost bytes: seq<Byte>)
    returns (n: nat)
    requires f.Valid() && |eo| == ENTRY_OUT_SIZE && Wrote(cur, lens0, c0, p0, bytes)
    requires exists newfd :: LookedUp(f, node, newfd, st, bs0, n0)
    modifies f`closed, cur, f.inodes, node
    ensures f.Valid()
    ensures n == 0 <==> old(cur.bytesUnused) < |PlusRecord(eo, e, st)|
    ensures Wrote(cur, lens0, c0, p0, if n == 0 then bytes else bytes + PlusRecord(eo, e, st))
    ensures n == 0 ==> Undone(f, node, bs0, n0)
    ensures n != 0 ==> unchanged(f.inodes, node)
  {
    n := AppendPlus(cur, eo, e, st, lens0, c0, p0, bytes);
    if n == 0 {
      ghost var bs1 := f.inodes.buckets;
      var _ := ForgetOne(f, Ptr(node), 1);
      if n0.None? {
        FiledUnlink(bs0, bs1, f.inodes.buckets, st.ino, node);
      }
    }
  }

  /** `fuse_add_direntry_plus` of one entry whose lookup returned `st`, after `bytes` were appended. */
  method AppendPlus(cur: IovCursor, eo: seq<Byte>, e: Entry, st: Stat,
                    ghost lens0: seq<nat>, ghost c0: seq<Byte>, ghost p0: nat, ghost bytes: seq<Byte>)
    returns (n: nat)
    requires |eo| == ENTRY_OUT_SIZE && Wrote(cur, lens0, c0, p0, bytes)
    modifies cur
    ensures n == 0 <==> old(cur.bytesUnused) < |PlusRecord(eo, e, st)|
    ensures n != 0 ==> n == |PlusRecord(eo, e, st)|
    ensures Wrote(cur, lens0, c0, p0, if n == 0 then bytes else bytes + PlusRecord(eo, e, st))
  {
    n := cur.AddDirentryPlus(eo, e.name, st.ino, st.mode, e.off);
    if n != 0 {
      OverwriteTwice(c0, p0, bytes, p0 + |bytes|, PlusRecord(eo, e, st));
    }
  }

  /** Unlinking the inode a lookup just filed gives back the buckets from before it. */
  lemma FiledUnlink(bs0: seq<seq<Slot<Inode>>>, bs1: seq<seq<Slot<Inode>>>, bs2: seq<seq<Slot<Inode>>>, ino: nat,
                    i: Inode)
    requires |bs0| > 0 && bs1 == Filed(bs0, ino, i)
    requires bs2 == bs1[ino % |bs1| := Unlink(bs1[ino % |bs1|], ino)]
    ensures bs2 == bs0
  {
    UnlinkHead(bs0[ino % |bs0|], ino, i);
  }
}
