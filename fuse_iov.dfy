/**
 * The reply cursor of the FUSE request layer (`struct iov`, `iov_init`,
 * `iov_write_buf`) and the directory-entry records written through it
 * (`fuse_add_direntry`, `fuse_add_direntry_plus`).
 *
 * Each output iovec is one element of an array of byte sequences; a
 * write replaces elements with sequences of the same length, which is
 * what a memcpy into `iov_base` does.
 */
module FuseIov {
  import opened Common

  /** The lengths of the iovecs, in order. */
  function Lens(vs: seq<seq<Byte>>): (ls: seq<nat>)
    ensures |ls| == |vs|
  {
    seq(|vs|, k requires 0 <= k < |vs| => |vs[k]|)
  }

  /** Total capacity of an iovec array: the sum of its lengths. */
  function TotalLen(vs: seq<seq<Byte>>): nat
  {
    Sum(Lens(vs))
  }

  /** The bytes of all iovecs, concatenated in order. */
  function Flat(vs: seq<seq<Byte>>): seq<Byte>
  {
    if vs == [] then [] else Flat(vs[..|vs| - 1]) + vs[|vs| - 1]
  }

  lemma LensPrefix(vs: seq<seq<Byte>>, k: nat)
    requires k <= |vs|
    ensures Lens(vs[..k]) == Lens(vs)[..k]
  {
  }

  lemma {:induction false} FlatLength(vs: seq<seq<Byte>>)
    ensures |Flat(vs)| == TotalLen(vs)
  {
    if vs != [] {
      var n := |vs| - 1;
      FlatLength(vs[..n]);
      assert Lens(vs) == Lens(vs[..n]) + [|vs[n]|];
      SumAppend(Lens(vs[..n]), |vs[n]|);
    }
  }

  lemma {:induction false} FlatConcat(a: seq<seq<Byte>>, b: seq<seq<Byte>>)
    ensures Flat(a + b) == Flat(a) + Flat(b)
  {
    if b == [] {
      assert a + b == a;
    } else {
      var n := |b| - 1;
      FlatConcat(a, b[..n]);
      assert (a + b)[..|a + b| - 1] == a + b[..n];
      assert (a + b)[|a + b| - 1] == b[n];
    }
  }

  /** `s` with the bytes from position `p` on replaced by `w`. */
  function Overwrite(s: seq<Byte>, p: nat, w: seq<Byte>): (r: seq<Byte>)
    requires p + |w| <= |s|
    ensures |r| == |s|
  {
    s[..p] + w + s[p + |w|..]
  }

  /** After an overwrite the span holds `w` and every other byte is unchanged. */
  lemma OverwriteFrame(s: seq<Byte>, p: nat, w: seq<Byte>)
    requires p + |w| <= |s|
    ensures Overwrite(s, p, w)[p..p + |w|] == w
    ensures forall k :: 0 <= k < |s| && (k < p || p + |w| <= k) ==> Overwrite(s, p, w)[k] == s[k]
  {
  }

  /** Two writes side by side are one write of their concatenation. */
  lemma OverwriteTwice(s: seq<Byte>, p: nat, w1: seq<Byte>, q: nat, w2: seq<Byte>)
    requires q == p + |w1| && q + |w2| <= |s|
    ensures Overwrite(Overwrite(s, p, w1), q, w2) == Overwrite(s, p, w1 + w2)
  {
    var t := Overwrite(s, p, w1);
    assert t[..p + |w1|] == s[..p] + w1;
    assert t[p + |w1| + |w2|..] == s[p + |w1| + |w2|..];
  }

  lemma FlatMiddle(A: seq<seq<Byte>>, v: seq<Byte>, B: seq<seq<Byte>>)
    ensures Flat(A + [v] + B) == Flat(A) + v + Flat(B)
  {
    FlatConcat(A + [v], B);
    FlatConcat(A, [v]);
    assert [v][..0] == [];
  }

  lemma SpliceMiddle(fa: seq<Byte>, v: seq<Byte>, fb: seq<Byte>, b: nat, w: seq<Byte>)
    requires b + |w| <= |v|
    ensures Overwrite(fa + v + fb, |fa| + b, w) == fa + (v[..b] + w + v[b + |w|..]) + fb
  {
    var s := fa + v + fb;
    assert s[..|fa| + b] == fa + v[..b];
    assert s[|fa| + b + |w|..] == v[b + |w|..] + fb;
  }

  /** The flat contents around iovec `i`. */
  lemma FlatAt(vs: seq<seq<Byte>>, i: nat)
    requires i < |vs|
    ensures Flat(vs) == Flat(vs[..i]) + vs[i] + Flat(vs[i + 1..])
  {
    SplitAround(vs, i);
    FlatMiddle(vs[..i], vs[i], vs[i + 1..]);
  }

  lemma SplitAround(vs: seq<seq<Byte>>, i: nat)
    requires i < |vs|
    ensures vs == vs[..i] + [vs[i]] + vs[i + 1..]
  {
  }

  /** The flat contents after iovec `i` is replaced by `x`. */
  lemma FlatUpdateAt(vs: seq<seq<Byte>>, i: nat, x: seq<Byte>)
    requires i < |vs|
    ensures Flat(vs[i := x]) == Flat(vs[..i]) + x + Flat(vs[i + 1..])
  {
    var us := vs[i := x];
    FlatAt(us, i);
    assert us[..i] == vs[..i] && us[i + 1..] == vs[i + 1..];
  }

  /** Replacing iovec `i` by a same-length sequence overwrites its span of the flat contents. */
  lemma FlatSplice(vs: seq<seq<Byte>>, i: nat, b: nat, w: seq<Byte>)
    requires i < |vs| && b + |w| <= |vs[i]|
    ensures Sum(Lens(vs)[..i]) + b + |w| <= |Flat(vs)|
    ensures Flat(vs[i := vs[i][..b] + w + vs[i][b + |w|..]]) == Overwrite(Flat(vs), Sum(Lens(vs)[..i]) + b, w)
  {
    var v := vs[i];
    FlatAt(vs, i);
    FlatUpdateAt(vs, i, v[..b] + w + v[b + |w|..]);
    FlatLength(vs[..i]);
    LensPrefix(vs, i);
    SpliceMiddle(Flat(vs[..i]), v, Flat(vs[i + 1..]), b, w);
  }

  /** Replacing an iovec by one of the same length keeps the lengths. */
  lemma LensUpdate(vs: seq<seq<Byte>>, i: nat, x: seq<Byte>)
    requires i < |vs| && |x| == |vs[i]|
    ensures Lens(vs[i := x]) == Lens(vs)
  {
  }

  /** One pass of the copy loop: `c` more bytes of `buf` land right after the ones already copied. */
  lemma WriteStep(vs: seq<seq<Byte>>, L: seq<nat>, i: nat, b: nat, c0: seq<Byte>, p0: nat, buf: seq<Byte>, done: nat, c: nat)
    requires Lens(vs) == L && i < |vs| && b + c <= |vs[i]| && done + c <= |buf|
    requires Sum(L[..i]) + b == p0 + done && p0 + |buf| <= |c0|
    requires Flat(vs) == Overwrite(c0, p0, buf[..done])
    ensures Lens(vs[i := vs[i][..b] + buf[done..done + c] + vs[i][b + c..]]) == L
    ensures Flat(vs[i := vs[i][..b] + buf[done..done + c] + vs[i][b + c..]]) == Overwrite(c0, p0, buf[..done + c])
  {
    var w := buf[done..done + c];
    LensUpdate(vs, i, vs[i][..b] + w + vs[i][b + c..]);
    FlatSplice(vs, i, b, w);
    OverwriteTwice(c0, p0, buf[..done], p0 + done, w);
    assert buf[..done] + w == buf[..done + c];
  }

  /** Moving to the next iovec adds the length of the one just filled. */
  lemma IndexAdvance(L: seq<nat>, i: nat)
    requires i < |L|
    ensures Sum(L[..i + 1]) == Sum(L[..i]) + L[i]
  {
    assert L[..i + 1] == L[..i] + [L[i]];
    SumAppend(L[..i], L[i]);
  }

  /**
   * The state of the copy loop after `done` bytes: the lengths are those of
   * the start, the cursor `i`/`b` sits `done` bytes past `p0`, and the flat
   * contents are the original ones with `buf[..done]` written at `p0`.
   */
  ghost predicate CopyInv(vs: seq<seq<Byte>>, L: seq<nat>, c0: seq<Byte>, p0: nat, buf: seq<Byte>,
                          i: nat, b: nat, done: nat)
  {
    && done <= |buf| && p0 + |buf| <= Sum(L) && |c0| == Sum(L)
    && Lens(vs) == L
    && i <= |L| && (i < |L| ==> b <= L[i]) && (i == |L| ==> b == 0)
    && Sum(L[..i]) + b == p0 + done
    && Flat(vs) == Overwrite(c0, p0, buf[..done])
  }

  /** While bytes remain, the cursor is inside the iovec array. */
  lemma CopyInBounds(vs: seq<seq<Byte>>, L: seq<nat>, c0: seq<Byte>, p0: nat, buf: seq<Byte>,
                     i: nat, b: nat, done: nat)
    requires CopyInv(vs, L, c0, p0, buf, i, b, done) && done < |buf|
    ensures i < |vs|
  {
    assert L[..|L|] == L;
  }

  /** One pass of the loop keeps `CopyInv`, moving to the next iovec when the current one fills. */
  lemma CopyStep(vs: seq<seq<Byte>>, L: seq<nat>, c0: seq<Byte>, p0: nat, buf: seq<Byte>,
                 i: nat, b: nat, done: nat, c: nat, vs': seq<seq<Byte>>, i': nat, b': nat)
    requires CopyInv(vs, L, c0, p0, buf, i, b, done) && done < |buf| && i < |vs|
    requires c == Min(|buf| - done, |vs[i]| - b)
    requires vs' == vs[i := vs[i][..b] + buf[done..done + c] + vs[i][b + c..]]
    requires if b + c == |vs[i]| then i' == i + 1 && b' == 0 else i' == i && b' == b + c
    ensures CopyInv(vs', L, c0, p0, buf, i', b', done + c)
  {
    WriteStep(vs, L, i, b, c0, p0, buf, done, c);
    if b + c == |vs[i]| {
      IndexAdvance(L, i);
    }
  }

  /** When every byte is copied, `CopyInv` says `buf` sits at `p0` and the cursor just past it. */
  lemma CopyDone(vs: seq<seq<Byte>>, L: seq<nat>, c0: seq<Byte>, p0: nat, buf: seq<Byte>, i: nat, b: nat)
    requires CopyInv(vs, L, c0, p0, buf, i, b, |buf|)
    ensures Lens(vs) == L && p0 + |buf| <= |c0|
    ensures i <= |vs| && (i < |vs| ==> b <= |vs[i]|) && (i == |vs| ==> b == 0)
    ensures Sum(L[..i]) + b == p0 + |buf|
    ensures Flat(vs) == Overwrite(c0, p0, buf)
  {
    assert buf[..|buf|] == buf;
  }

  /**
   * What the copy loop of `iov_write_buf` computes: the iovecs and the
   * cursor after copying `buf[done..]` from iovec `i`, byte `b` on, moving
   * to the next iovec whenever one fills.
   */
  function CopyRun(vs: seq<seq<Byte>>, i: nat, b: nat, buf: seq<Byte>, done: nat): (r: (seq<seq<Byte>>, nat, nat))
    requires done <= |buf|
    decreases |buf| - done, |vs| - i
  {
    if done == |buf| || i >= |vs| || b > |vs[i]| then (vs, i, b)
    else
      var c := Min(|buf| - done, |vs[i]| - b);
      var vs' := vs[i := vs[i][..b] + buf[done..done + c] + vs[i][b + c..]];
      if b + c == |vs[i]| then CopyRun(vs', i + 1, 0, buf, done + c)
      else CopyRun(vs', i, b + c, buf, done + c)
  }

  /**
   * From any state of the copy, `CopyRun` writes the rest of `buf` in order
   * right after what is already copied, and leaves the cursor just past it.
   */
  lemma {:induction false} CopyRunSpec(vs: seq<seq<Byte>>, L: seq<nat>, c0: seq<Byte>, p0: nat, buf: seq<Byte>,
                                       i: nat, b: nat, done: nat)
    requires CopyInv(vs, L, c0, p0, buf, i, b, done)
    ensures CopyInv(CopyRun(vs, i, b, buf, done).0, L, c0, p0, buf,
                    CopyRun(vs, i, b, buf, done).1, CopyRun(vs, i, b, buf, done).2, |buf|)
    decreases |buf| - done, |vs| - i
  {
    if done < |buf| {
      CopyInBounds(vs, L, c0, p0, buf, i, b, done);
      var c := Min(|buf| - done, |vs[i]| - b);
      var vs' := vs[i := vs[i][..b] + buf[done..done + c] + vs[i][b + c..]];
      var i', b' := if b + c == |vs[i]| then i + 1 else i, if b + c == |vs[i]| then 0 else b + c;
      CopyStep(vs, L, c0, p0, buf, i, b, done, c, vs', i', b');
      CopyRunSpec(vs', L, c0, p0, buf, i', b', done + c);
      CopyRunStep(vs, i, b, buf, done, c, vs', i', b');
    }
  }

  /** One unfolding of `CopyRun`, with the next state given explicitly. */
  lemma CopyRunStep(vs: seq<seq<Byte>>, i: nat, b: nat, buf: seq<Byte>, done: nat,
                    c: nat, vs': seq<seq<Byte>>, i': nat, b': nat)
    requires done < |buf| && i < |vs| && b <= |vs[i]|
    requires c == Min(|buf| - done, |vs[i]| - b)
    requires vs' == vs[i := vs[i][..b] + buf[done..done + c] + vs[i][b + c..]]
    requires if b + c == |vs[i]| then i' == i + 1 && b' == 0 else i' == i && b' == b + c
    ensures CopyRun(vs, i, b, buf, done) == CopyRun(vs', i', b', buf, done + c)
  {
  }

  /**
   * The copy loop of `iov_write_buf`, with the source position advancing as
   * bytes are copied. The C loop runs until `size` is 0 and relies on the
   * caller's `bytes_unused` check to stay inside the array; here the loop
   * also stops at the end of the array, which `CopyRunSpec` shows never
   * happens early when the bytes fit.
   */
  method CopyAcross(vs0: seq<seq<Byte>>, i0: nat, b0: nat, buf: seq<Byte>) returns (vs: seq<seq<Byte>>, i: nat, b: nat)
    requires i0 < |vs0| ==> b0 <= |vs0[i0]|
    ensures (vs, i, b) == CopyRun(vs0, i0, b0, buf, 0)
  {
    ghost var result := CopyRun(vs0, i0, b0, buf, 0);
    vs, i, b := vs0, i0, b0;
    var rem: nat := |buf|;
    var done: nat := 0;
    while rem != 0 && i < |vs|
      invariant done + rem == |buf| && |vs| == |vs0| && (i < |vs| ==> b <= |vs[i]|)
      invariant CopyRun(vs, i, b, buf, done) == result
      decreases rem, |vs| - i
    {
      var v := vs[i];
      var toCpy := Min(rem, |v| - b);
      var vs' := vs[i := v[..b] + buf[done..done + toCpy] + v[b + toCpy..]];
      var i', b' := i, b + toCpy;
      if b + toCpy == |v| {
        i', b' := i + 1, 0;
      }
      CopyRunStep(vs, i, b, buf, done, toCpy, vs', i', b');
      vs, i, b := vs', i', b';
      rem := rem - toCpy;
      done := done + toCpy;
    }
  }

  /**
   * The write cursor over the output iovecs of one request (`struct iov`).
   * `Pos()` is the flat offset of the cursor; everything before it has
   * been written, `bytesUnused` counts what is left.
   */
  class IovCursor {
    /** The output iovecs; a write replaces an element by one of the same length. */
    var iovec: seq<seq<Byte>>
    var iovIdx: nat
    var bufIdx: nat
    var totalSize: nat
    var bytesUnused: nat

    ghost predicate Valid()
      reads this
    {
      && totalSize == TotalLen(iovec) && |Flat(iovec)| == totalSize
      && bytesUnused <= totalSize
      && iovIdx <= |iovec|
      && (iovIdx < |iovec| ==> bufIdx <= |iovec[iovIdx]|)
      && (iovIdx == |iovec| ==> bufIdx == 0)
      && Sum(Lens(iovec)[..iovIdx]) + bufIdx == totalSize - bytesUnused
    }

    /** Bytes written so far. */
    function Used(): nat
      reads this
      requires bytesUnused <= totalSize
    {
      totalSize - bytesUnused
    }

    ghost function Contents(): seq<Byte>
      reads this
    {
      Flat(iovec)
    }

    /** `iov_init`: total and unused are the sum of the lengths, both indices 0. */
    constructor (iovs: seq<seq<Byte>>)
      ensures Valid() && iovec == iovs
      ensures totalSize == TotalLen(iovs) && bytesUnused == totalSize
      ensures iovIdx == 0 && bufIdx == 0 && Used() == 0
    {
      iovec := iovs;
      iovIdx := 0;
      bufIdx := 0;
      var total := 0;
      for i := 0 to |iovs|
        invariant total == Sum(Lens(iovs)[..i])
      {
        assert Lens(iovs)[..i + 1] == Lens(iovs)[..i] + [|iovs[i]|];
        SumAppend(Lens(iovs)[..i], |iovs[i]|);
        total := total + |iovs[i]|;
      }
      assert Lens(iovs)[..|iovs|] == Lens(iovs);
      totalSize := total;
      bytesUnused := total;
      new;
      assert Lens(iovec)[..0] == [];
      FlatLength(iovec);
    }

    /**
     * `iov_write_buf`, with the source position advancing as bytes are
     * copied: when fewer than `|buf|` bytes are unused nothing changes and
     * the result is 0; otherwise `buf` lands at the cursor, in order and
     * across iovec boundaries, and the cursor moves by `|buf|`.
     */
    method WriteBuf(buf: seq<Byte>) returns (n: nat)
      requires Valid()
      modifies this
      ensures Valid() && Lens(iovec) == old(Lens(iovec)) && totalSize == old(totalSize)
      ensures old(bytesUnused) < |buf| ==>
        n == 0 && iovec == old(iovec) && bytesUnused == old(bytesUnused)
        && iovIdx == old(iovIdx) && bufIdx == old(bufIdx)
      ensures old(bytesUnused) >= |buf| ==>
        n == |buf| && bytesUnused == old(bytesUnused) - |buf|
        && Contents() == Overwrite(old(Contents()), old(Used()), buf)
    {
      if bytesUnused < |buf| {
        return 0;
      }
      ghost var c0, p0, L := Flat(iovec), totalSize - bytesUnused, Lens(iovec);
      FlatLength(iovec);
      assert Overwrite(c0, p0, buf[..0]) == c0;
      var vs, i, b := CopyAcross(iovec, iovIdx, bufIdx, buf);
      CopyRunSpec(iovec, L, c0, p0, buf, iovIdx, bufIdx, 0);
      CopyDone(vs, L, c0, p0, buf, i, b);
      FlatLength(vs);
      iovec, iovIdx, bufIdx := vs, i, b;
      bytesUnused := bytesUnused - |buf|;
      return |buf|;
    }

    /**
     * `fuse_add_direntry`: 0 and nothing written when the padded record
     * does not fit; otherwise the record is written at the cursor.
     */
    method AddDirentry(name: seq<Byte>, ino: Uint64, mode: Uint32, off: int) returns (n: nat)
      requires Valid() && -0x8000_0000_0000_0000 <= off < 0x8000_0000_0000_0000
      modifies this
      ensures Valid() && Lens(iovec) == old(Lens(iovec))
      ensures old(bytesUnused) < DirentAlign(FUSE_NAME_OFFSET + |name|) ==>
        n == 0 && iovec == old(iovec) && bytesUnused == old(bytesUnused)
      ensures old(bytesUnused) >= DirentAlign(FUSE_NAME_OFFSET + |name|) ==>
        n == DirentAlign(FUSE_NAME_OFFSET + |name|)
        && bytesUnused == old(bytesUnused) - n
        && Contents() == Overwrite(old(Contents()), old(Used()), Dirent(ino, off, name, mode))
    {
      var padded := DirentAlign(FUSE_NAME_OFFSET + |name|);
      if bytesUnused < padded {
        return 0;
      }
      n := WriteBuf(Dirent(ino, off, name, mode));
    }

    /**
     * `fuse_add_direntry_plus`: the same, for a record made of the
     * 128-byte `fuse_entry_out` followed by the directory entry.
     */
    method AddDirentryPlus(entryOut: seq<Byte>, name: seq<Byte>, ino: Uint64, mode: Uint32, off: int) returns (n: nat)
      requires Valid() && |entryOut| == ENTRY_OUT_SIZE
      requires -0x8000_0000_0000_0000 <= off < 0x8000_0000_0000_0000
      modifies this
      ensures Valid() && Lens(iovec) == old(Lens(iovec))
      ensures old(bytesUnused) < DirentAlign(FUSE_NAME_OFFSET_DIRENTPLUS + |name|) ==>
        n == 0 && iovec == old(iovec) && bytesUnused == old(bytesUnused)
      ensures old(bytesUnused) >= DirentAlign(FUSE_NAME_OFFSET_DIRENTPLUS + |name|) ==>
        n == DirentAlign(FUSE_NAME_OFFSET_DIRENTPLUS + |name|)
        && bytesUnused == old(bytesUnused) - n
        && Contents() == Overwrite(old(Contents()), old(Used()), DirentPlus(entryOut, ino, off, name, mode))
    {
      var padded := DirentAlign(FUSE_NAME_OFFSET_DIRENTPLUS + |name|);
      if bytesUnused < padded {
        return 0;
      }
      n := WriteBuf(DirentPlus(entryOut, ino, off, name, mode));
    }
  }

  /**
   * The cursor has written `bytes` from position `p0` of its original
   * contents `c0`, and its iovec lengths are still `lens0`.
   */
  ghost predicate Wrote(cur: IovCursor, lens0: seq<nat>, c0: seq<Byte>, p0: nat, bytes: seq<Byte>)
    reads cur
  {
    && cur.Valid() && Lens(cur.iovec) == lens0
    && p0 + |bytes| + cur.bytesUnused == |c0| && cur.Contents() == Overwrite(c0, p0, bytes)
  }

  /**
   * `iov_write_buf` as written: each chunk is copied from the start of
   * `buf`, because the source pointer is never advanced. `i`/`b` are the
   * cursor indices and `rem` the bytes still to copy.
   */
  function WriteBufAsWritten(vs: seq<seq<Byte>>, i: nat, b: nat, buf: seq<Byte>, rem: nat): (r: seq<seq<Byte>>)
    requires rem <= |buf|
    ensures Lens(r) == Lens(vs)
    decreases rem, |vs| - i
  {
    if rem == 0 || i >= |vs| || b > |vs[i]| then vs
    else
      var toCpy := Min(rem, |vs[i]| - b);
      var vs' := vs[i := vs[i][..b] + buf[..toCpy] + vs[i][b + toCpy..]];
      assert Lens(vs') == Lens(vs);
      if b + toCpy == |vs[i]| then WriteBufAsWritten(vs', i + 1, 0, buf, rem - toCpy)
      else WriteBufAsWritten(vs', i, b + toCpy, buf, rem - toCpy)
  }

  /**
   * Three bytes written into two empty two-byte iovecs: the code as
   * written leaves 1,2,1 where 1,2,3 belongs.
   */
  lemma WriteBufAsWrittenRepeatsStart()
    ensures Flat(WriteBufAsWritten([[0, 0], [0, 0]], 0, 0, [1, 2, 3], 3)) == [1, 2, 1, 0]
    ensures Overwrite(Flat([[0, 0], [0, 0]]), 0, [1, 2, 3]) == [1, 2, 3, 0]
  {
    var vs: seq<seq<Byte>> := [[0, 0], [0, 0]];
    var buf: seq<Byte> := [1, 2, 3];
    var vs1: seq<seq<Byte>> := [[1, 2], [0, 0]];
    var vs2: seq<seq<Byte>> := [[1, 2], [1, 0]];
    assert Min(3, 2) == 2 && Min(1, 2) == 1;
    assert buf[..2] == [1, 2] && buf[..1] == [1];
    assert vs[0][..0] + buf[..2] + vs[0][2..] == [1, 2];
    assert vs[0 := vs[0][..0] + buf[..2] + vs[0][2..]] == vs1;
    assert WriteBufAsWritten(vs, 0, 0, buf, 3) == WriteBufAsWritten(vs1, 1, 0, buf, 1);
    assert vs1[1][..0] + buf[..1] + vs1[1][1..] == [1, 0];
    assert vs1[1 := vs1[1][..0] + buf[..1] + vs1[1][1..]] == vs2;
    assert WriteBufAsWritten(vs1, 1, 0, buf, 1) == WriteBufAsWritten(vs2, 1, 1, buf, 0);
    assert Flat(vs2) == Flat(vs2[..1]) + [1, 0];
    assert Flat(vs2[..1]) == Flat([]) + [1, 2];
    assert Flat(vs) == Flat(vs[..1]) + [0, 0];
    assert Flat(vs[..1]) == Flat([]) + [0, 0];
  }

  const FUSE_NAME_OFFSET: nat := 24
  /** `sizeof(struct fuse_entry_out)`. */
  const ENTRY_OUT_SIZE: nat := 128
  const FUSE_NAME_OFFSET_DIRENTPLUS: nat := ENTRY_OUT_SIZE + FUSE_NAME_OFFSET

  /** `FUSE_DIRENT_ALIGN`: round up to a multiple of 8. */
  function DirentAlign(x: nat): (r: nat)
    ensures r % 8 == 0 && x <= r < x + 8
  {
    (x + 7) / 8 * 8
  }

  /** A multiple of 8 in front does not change the padding. */
  lemma AlignShift(x: nat)
    ensures DirentAlign(x + ENTRY_OUT_SIZE) == DirentAlign(x) + ENTRY_OUT_SIZE
  {
    assert x + ENTRY_OUT_SIZE + 7 == (x + 7) + 16 * 8;
  }

  /**
   * `(st_mode & S_IFMT) >> 12`: the file-type nibble, bits 12 to 15 of the
   * mode (`S_IFMT` is 0170000).
   */
  function DirentType(mode: Uint32): (t: nat)
    ensures t < 16
  {
    mode / 0x1000 % 16
  }

  /**
   * The fixed 24-byte head of a `struct fuse_dirent`: ino, off, namelen,
   * type. It is given byte by byte, so that a record's head is worked out
   * only where one of its bytes is read; `DirentHeadBytes` gives it whole.
   */
  function DirentHead(ino: Uint64, off: Uint64, namelen: Uint32, typ: nat): (h: seq<Byte>)
    requires typ < 16
    ensures |h| == FUSE_NAME_OFFSET
  {
    Pow256Widths();
    seq(FUSE_NAME_OFFSET, i requires 0 <= i < FUSE_NAME_OFFSET =>
      (LeBytes(ino, 8) + LeBytes(off, 8) + LeBytes(namelen, 4) + LeBytes(typ, 4))[i])
  }

  /** The head is the four fields, least significant byte first, end to end. */
  lemma DirentHeadBytes(ino: Uint64, off: Uint64, namelen: Uint32, typ: nat)
    requires typ < 16
    ensures Pow256(4) == U32 && Pow256(8) == U64
    ensures DirentHead(ino, off, namelen, typ) == LeBytes(ino, 8) + LeBytes(off, 8) + LeBytes(namelen, 4) + LeBytes(typ, 4)
  {
    Pow256Widths();
  }

  /** Each field of the head sits at its fixed offset. */
  lemma DirentHeadFields(ino: Uint64, off: Uint64, namelen: Uint32, typ: nat)
    requires typ < 16
    ensures LeValue(DirentHead(ino, off, namelen, typ)[..8]) == ino
    ensures LeValue(DirentHead(ino, off, namelen, typ)[8..16]) == off
    ensures LeValue(DirentHead(ino, off, namelen, typ)[16..20]) == namelen
    ensures LeValue(DirentHead(ino, off, namelen, typ)[20..24]) == typ
  {
    DirentHeadBytes(ino, off, namelen, typ);
    var h := DirentHead(ino, off, namelen, typ);
    assert h[..8] == LeBytes(ino, 8);
    assert h[8..16] == LeBytes(off, 8);
    assert h[16..20] == LeBytes(namelen, 4);
    assert h[20..] == LeBytes(typ, 4);
    assert h[20..24] == h[20..];
    LeRoundTrip(ino, 8);
    LeRoundTrip(off, 8);
    LeRoundTrip(namelen, 4);
    LeRoundTrip(typ, 4);
  }

  /**
   * A `struct fuse_dirent` record: ino, off (two's complement), namelen,
   * type, the name, then zero padding up to the next multiple of 8.
   */
  function Dirent(ino: Uint64, off: int, name: seq<Byte>, mode: Uint32): (r: seq<Byte>)
    requires -0x8000_0000_0000_0000 <= off < 0x8000_0000_0000_0000
    ensures |r| == DirentAlign(FUSE_NAME_OFFSET + |name|)
    ensures r[..FUSE_NAME_OFFSET] == DirentHead(ino, off % U64, |name| % U32, DirentType(mode))
    ensures r[FUSE_NAME_OFFSET..FUSE_NAME_OFFSET + |name|] == name
    ensures forall k :: FUSE_NAME_OFFSET + |name| <= k < |r| ==> r[k] == 0
  {
    var entlen := FUSE_NAME_OFFSET + |name|;
    DirentHead(ino, off % U64, |name| % U32, DirentType(mode)) + name + Zeros(DirentAlign(entlen) - entlen)
  }

  /** A `struct fuse_direntplus` record: the entry reply, then the directory entry. */
  function DirentPlus(entryOut: seq<Byte>, ino: Uint64, off: int, name: seq<Byte>, mode: Uint32): (r: seq<Byte>)
    requires |entryOut| == ENTRY_OUT_SIZE && -0x8000_0000_0000_0000 <= off < 0x8000_0000_0000_0000
    ensures |r| == DirentAlign(FUSE_NAME_OFFSET_DIRENTPLUS + |name|)
    ensures r[..ENTRY_OUT_SIZE] == entryOut
    ensures r[FUSE_NAME_OFFSET_DIRENTPLUS..FUSE_NAME_OFFSET_DIRENTPLUS + |name|] == name
    ensures forall k :: FUSE_NAME_OFFSET_DIRENTPLUS + |name| <= k < |r| ==> r[k] == 0
  {
    var d := Dirent(ino, off, name, mode);
    AlignShift(FUSE_NAME_OFFSET + |name|);
    var r := entryOut + d;
    assert r[ENTRY_OUT_SIZE..] == d;
    r
  }

  /** The fields a reader of a `fuse_dirent` sees. */
  datatype DirentFields = DirentFields(ino: nat, off: nat, namelen: nat, typ: nat, name: seq<Byte>)

  /** How the kernel reads a `fuse_dirent` record. */
  function ParseDirent(r: seq<Byte>): Option<DirentFields>
  {
    if |r| < FUSE_NAME_OFFSET then None
    else
      var namelen := LeValue(r[16..20]);
      if |r| < FUSE_NAME_OFFSET + namelen then None
      else Some(DirentFields(LeValue(r[..8]), LeValue(r[8..16]), namelen, LeValue(r[20..24]),
                             r[FUSE_NAME_OFFSET..FUSE_NAME_OFFSET + namelen]))
  }

  /** A record made of a head, a name of the length the head gives, and padding parses back to its parts. */
  lemma ParseHeadName(h: seq<Byte>, name: seq<Byte>, pad: seq<Byte>)
    requires |h| == FUSE_NAME_OFFSET && LeValue(h[16..20]) == |name|
    ensures ParseDirent(h + name + pad)
         == Some(DirentFields(LeValue(h[..8]), LeValue(h[8..16]), |name|, LeValue(h[20..24]), name))
  {
    var r := h + name + pad;
    assert r[..8] == h[..8] && r[8..16] == h[8..16] && r[16..20] == h[16..20] && r[20..24] == h[20..24];
    assert r[FUSE_NAME_OFFSET..FUSE_NAME_OFFSET + |name|] == name;
  }

  /** Every field of a record reads back as written. */
  lemma DirentRoundTrip(ino: Uint64, off: int, name: seq<Byte>, mode: Uint32)
    requires -0x8000_0000_0000_0000 <= off < 0x8000_0000_0000_0000 && |name| < U32
    ensures ParseDirent(Dirent(ino, off, name, mode))
         == Some(DirentFields(ino, off % U64, |name|, DirentType(mode), name))
  {
    var h := DirentHead(ino, off % U64, |name|, DirentType(mode));
    var entlen := FUSE_NAME_OFFSET + |name|;
    DirentHeadFields(ino, off % U64, |name|, DirentType(mode));
    ParseHeadName(h, name, Zeros(DirentAlign(entlen) - entlen));
    DirentParts(ino, off, name, mode);
  }

  /** A record is its head, the name, and the padding. */
  lemma DirentParts(ino: Uint64, off: int, name: seq<Byte>, mode: Uint32)
    requires -0x8000_0000_0000_0000 <= off < 0x8000_0000_0000_0000 && |name| < U32
    ensures Dirent(ino, off, name, mode)
         == DirentHead(ino, off % U64, |name|, DirentType(mode)) + name
            + Zeros(DirentAlign(FUSE_NAME_OFFSET + |name|) - (FUSE_NAME_OFFSET + |name|))
  {
    assert |name| % U32 == |name|;
  }
}
