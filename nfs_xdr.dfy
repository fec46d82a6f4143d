/**
 * The NFSv4 helpers of the NFS backend (virtionfs/nfs_v4.c): 64-bit byte
 * order, owner strings, the decoding of the fattr4 and statfs attribute
 * lists a GETATTR returns, the search of a compound result, the status
 * mapping, and the attribute list sent with a create.
 *
 * Attribute values are XDR (RFC 4506): 32-bit words and 64-bit hypers
 * big-endian (section 4.5), strings as a length word, the bytes, and zero
 * padding to a multiple of 4 (section 4.11). The host is little-endian.
 */
module NfsXdr {
  import opened Common
  import opened Errno

  const VNFS_BLKSIZE: nat := 8192
  /** The last NFSv4 status whose number is also the Linux errno of the same meaning. */
  const NFS4ERR_MLINK: nat := 31

  // ----- Byte order -----------------------------------------------------

  /** The value a little-endian host reads from memory holding the bytes of `x` most significant first. */
  function Swap64(x: Uint64): Uint64
  {
    Pow256Widths();
    LeValueBound(BeBytes(x, 8));
    LeValue(BeBytes(x, 8))
  }

  /**
   * `nfs_hton64` (and `nfs_ntoh64`, whose code is the same): byte `i` of
   * `val`, least significant first, goes to memory byte `7 - i` of the
   * result, which the host then reads little-endian.
   */
  method Hton64(val: Uint64) returns (res: Uint64)
    ensures Pow256(8) == U64 && LeBytes(res, 8) == BeBytes(val, 8)
    ensures res == Swap64(val)
  {
    Pow256Widths();
    var ptr: seq<Byte> := Zeros(8);
    var v: nat := val;
    var i := 0;
    while i < 8
      invariant 0 <= i <= 8 && |ptr| == 8
      invariant v < Pow256(8 - i) && BeBytes(val, 8)[..8 - i] == BeBytes(v, 8 - i)
      invariant ptr[8 - i..] == BeBytes(val, 8)[8 - i..]
    {
      HtonStep(val, v, 8 - i, ptr);
      ptr := ptr[7 - i := v % 256];
      v := v / 256;
      i := i + 1;
    }
    assert ptr == BeBytes(val, 8);
    LeValueBound(ptr);
    res := LeValue(ptr);
    LeBytesOfValue(ptr);
  }

  /** One turn of the loop of `nfs_hton64`: the low byte of what is left goes one place further forward. */
  lemma HtonStep(val: nat, v: nat, k: nat, ptr: seq<Byte>)
    requires 1 <= k <= 8 && |ptr| == 8 && val < Pow256(8) && v < Pow256(k)
    requires BeBytes(val, 8)[..k] == BeBytes(v, k) && ptr[k..] == BeBytes(val, 8)[k..]
    ensures v / 256 < Pow256(k - 1)
    ensures BeBytes(val, 8)[..k - 1] == BeBytes(v / 256, k - 1)
    ensures ptr[k - 1 := v % 256][k - 1..] == BeBytes(val, 8)[k - 1..]
  {
    var full := BeBytes(val, 8);
    assert BeBytes(v, k) == BeBytes(v / 256, k - 1) + [v % 256];
    assert full[..k - 1] == full[..k][..k - 1];
    assert full[k - 1] == full[..k][k - 1] == v % 256;
    assert ptr[k - 1 := v % 256][k - 1..] == [v % 256] + ptr[k..];
    assert full[k - 1..] == [full[k - 1]] + full[k..];
  }

  lemma {:induction false} ReverseInvolutive(s: seq<Byte>)
    ensures Reverse(Reverse(s)) == s
  {
    forall k | 0 <= k < |s|
      ensures Reverse(Reverse(s))[k] == s[k]
    {
      ReverseAt(Reverse(s), k);
      ReverseAt(s, |s| - 1 - k);
    }
  }

  /** Swapping twice gives the value back: `nfs_ntoh64(nfs_hton64(x)) == x`. */
  lemma Swap64Involutive(x: Uint64)
    ensures Swap64(Swap64(x)) == x
  {
    Pow256Widths();
    var y := Swap64(x);
    LeBytesOfValue(BeBytes(x, 8));
    BeIsReversedLe(y, 8);
    BeIsReversedLe(x, 8);
    ReverseInvolutive(LeBytes(x, 8));
    LeRoundTrip(x, 8);
  }

  /** Eight bytes copied from the wire and swapped are the XDR hyper they encode. */
  lemma SwapOfMemory(b: seq<Byte>)
    requires |b| == 8
    ensures Pow256(8) == U64 && LeValue(b) < U64 && Swap64(LeValue(b)) == BeValue(b)
  {
    Pow256Widths();
    LeBytesOfValue(b);
    BeBytesOfValue(b);
    var z := BeValue(b);
    BeIsReversedLe(LeValue(b), 8);
    BeIsReversedLe(z, 8);
    ReverseInvolutive(LeBytes(z, 8));
    LeRoundTrip(z, 8);
  }

  lemma {:induction false} BeValueConcat(a: seq<Byte>, b: seq<Byte>)
    ensures BeValue(a + b) == BeValue(a) * Pow256(|b|) + BeValue(b)
  {
    if b != [] {
      var n := |b| - 1;
      BeValueConcat(a, b[..n]);
      assert (a + b)[..|a + b| - 1] == a + b[..n];
      var A, P, B := BeValue(a), Pow256(n), BeValue(b[..n]);
      calc {
        BeValue(a + b);
        256 * (A * P + B) + b[n];
        { Regroup(A, P, B, b[n]); }
        A * (256 * P) + (256 * B + b[n]);
        { assert Pow256(|b|) == 256 * P; assert BeValue(b) == 256 * B + b[n]; }
        A * Pow256(|b|) + BeValue(b);
      }
    } else {
      assert a + b == a;
    }
  }

  lemma Regroup(a: int, p: int, b: int, c: int)
    ensures 256 * (a * p + b) + c == a * (256 * p) + (256 * b + c)
  {
  }

  /** A 32-bit XDR word. */
  function Word(b: seq<Byte>): Uint32
    requires |b| == 4
  {
    Pow256Widths();
    BeValueBound(b);
    BeValue(b)
  }

  /**
   * `nfs_pntoh64`: the first big-endian word shifted up by 32 bits, or-ed
   * with the second; the XDR unsigned hyper of section 4.5 of RFC 4506.
   */
  function Pntoh64(b: seq<Byte>): (r: Uint64)
    requires |b| >= 8
    ensures r == BeValue(b[..8])
  {
    BeValueConcat(b[..4], b[4..8]);
    assert b[..4] + b[4..8] == b[..8];
    Pow256Widths();
    Word(b[..4]) * U32 + Word(b[4..8])
  }

  // ----- Owner strings --------------------------------------------------

  predicate IsDigit(c: Byte)
  {
    48 <= c <= 57
  }

  predicate AllDigits(s: seq<Byte>)
  {
    forall k :: 0 <= k < |s| ==> IsDigit(s[k])
  }

  /** The decimal value of a string of digits. */
  function Decimal(s: seq<Byte>): nat
    requires AllDigits(s)
  {
    if s == [] then 0 else 10 * Decimal(s[..|s| - 1]) + (s[|s| - 1] - 48)
  }

  /**
   * The uid or gid an owner string stands for: its value when it is all
   * digits (0 when empty), kept to 32 bits, and 65534 (`nobody`) otherwise.
   */
  function Ugid(s: seq<Byte>): Uint32
  {
    if AllDigits(s) then Decimal(s) % U32 else 65534
  }

  /**
   * `nfs_get_ugid`: the loop over the `slen` bytes of an owner string,
   * stopping at the first non-digit.
   */
  method GetUgid(buf: seq<Byte>) returns (ugid: Uint32)
    ensures ugid == Ugid(buf)
  {
    var acc: Uint32 := 0;
    var i := 0;
    while i < |buf|
      invariant i <= |buf| && AllDigits(buf[..i]) && acc == Decimal(buf[..i]) % U32
    {
      if !IsDigit(buf[i]) {
        return 65534;
      }
      assert buf[..i + 1][..i] == buf[..i];
      ghost var d := Decimal(buf[..i]);
      assert Decimal(buf[..i + 1]) == 10 * d + (buf[i] - 48);
      ModStep(d, buf[i] - 48);
      acc := (acc * 10 + (buf[i] - 48)) % U32;
      i := i + 1;
    }
    assert buf[..i] == buf;
    return acc;
  }

  lemma ModStep(d: nat, c: nat)
    ensures ((d % U32) * 10 + c) % U32 == (10 * d + c) % U32
  {
    var q, r := d / U32, d % U32;
    var m := r * 10 + c;
    var q2, r2 := m / U32, m % U32;
    ModUnique32(10 * d + c, 10 * q + q2, r2);
  }

  /** The remainder modulo 2^32 is the one a decomposition names. */
  lemma ModUnique32(a: int, k: int, r: int)
    requires 0 <= r < 0x1_0000_0000 && a == 0x1_0000_0000 * k + r
    ensures a % U32 == r
  {
  }

  /** The decimal digits of `n`, most significant first (`"%d"` of a non-negative value). */
  function Digits(n: nat): (s: seq<Byte>)
    ensures |s| >= 1
  {
    if n < 10 then [48 + n] else Digits(n / 10) + [48 + n % 10]
  }

  /** The digits of `n` read back give `n`. */
  lemma {:induction false} DigitsDecimal(n: nat)
    ensures AllDigits(Digits(n)) && Decimal(Digits(n)) == n
  {
    if n >= 10 {
      DigitsDecimal(n / 10);
      var s := Digits(n);
      assert s[..|s| - 1] == Digits(n / 10);
    }
  }

  function Pow10(k: nat): (p: nat)
    ensures p >= 1
  {
    if k == 0 then 1 else 10 * Pow10(k - 1)
  }

  /** A value below 10^k has at most `k` digits. */
  lemma {:induction false} DigitsLength(n: nat, k: nat)
    requires 1 <= k && n < Pow10(k)
    ensures |Digits(n)| <= k
  {
    if n >= 10 {
      DigitsLength(n / 10, k - 1);
    }
  }

  // ----- Attribute decoding ---------------------------------------------

  /**
   * How a decode ends: with the value, `Short` (the -1 of a failed length
   * check), or `Overrun` (a read outside the buffer, which C leaves
   * undefined).
   */
  datatype Parse<T> = Parsed(value: T) | Short | Overrun {
    predicate IsFailure()
    {
      !Parsed?
    }

    function PropagateFailure<U>(): Parse<U>
      requires IsFailure()
    {
      if Short? then Short else Overrun
    }

    function Extract(): T
      requires Parsed?
    {
      value
    }
  }

  /** The decoder's position in the buffer and the `len` it believes is left. */
  datatype Cur = Cur(pos: int, len: int)

  /** The `int len` parameter made from an unsigned buffer length. */
  function IntLen(n: nat): int
  {
    if n % U32 < 0x8000_0000 then n % U32 else n % U32 - U32
  }

  lemma IntLenSmall(n: nat)
    requires n < 0x8000_0000
    ensures IntLen(n) == n
  {
  }

  /** `CHECK_GETATTR_BUF_SPACE(len, n)`, then the `n` bytes at the cursor. */
  function Take(buf: seq<Byte>, c: Cur, n: nat): (r: Parse<seq<Byte>>)
    ensures r.Parsed? ==> |r.value| == n
  {
    if c.len < n then Short
    else if c.pos < 0 || c.pos + n > |buf| then Overrun
    else Parsed(buf[c.pos..c.pos + n])
  }

  /** `CHECK_GETATTR_BUF_SPACE(len, n)`, then `buf += n` without reading. */
  function Skip(c: Cur, n: nat): Parse<Cur>
  {
    if c.len < n then Short else Parsed(Cur(c.pos + n, c.len - n))
  }

  /** A 32-bit field: `ntohl` of the next word. */
  function Get32(buf: seq<Byte>, c: Cur): Parse<(Uint32, Cur)>
  {
    var b :- Take(buf, c, 4);
    Parsed((Word(b), Cur(c.pos + 4, c.len - 4)))
  }

  /** A 64-bit field: `nfs_pntoh64` of the next two words. */
  function Get64(buf: seq<Byte>, c: Cur): Parse<(Uint64, Cur)>
  {
    var b :- Take(buf, c, 8);
    Parsed((Pntoh64(b), Cur(c.pos + 8, c.len - 8)))
  }

  /** An nfstime4: one check for 12 bytes, then the seconds (a hyper) and the nanoseconds (a word). */
  function GetTime(buf: seq<Byte>, c: Cur): Parse<((Uint64, Uint32), Cur)>
  {
    var b :- Take(buf, c, 12);
    Parsed(((Pntoh64(b), Word(b[8..])), Cur(c.pos + 12, c.len - 12)))
  }

  /** The zero bytes that follow an XDR string of `n` bytes. */
  function Pad(n: nat): nat
  {
    (4 - n % 4) % 4
  }

  /** The padding completes the string to a multiple of 4. */
  lemma PadAligns(n: nat)
    ensures Pad(n) < 4 && (4 + n + Pad(n)) % 4 == 0
  {
    var r := n % 4;
    assert n == 4 * (n / 4) + r;
  }

  /**
   * An owner or owner_group string turned into an id: the length word, a
   * check that `len` covers the body, the body read by `nfs_get_ugid`,
   * then a check and skip of the padding. `bodyCounted` says whether the
   * body is taken off `len`; the source does not take it off. A length
   * of 2^31 or more is a negative `int slen` in the source, which passes
   * the check and moves the cursor out of the buffer.
   */
  function GetOwner(buf: seq<Byte>, c: Cur, bodyCounted: bool): Parse<(Uint32, Cur)>
  {
    var l :- Get32(buf, c);
    var slen := l.0;
    if !bodyCounted && slen >= 0x8000_0000 then Overrun
    else
      var body :- Take(buf, l.1, slen);
      var c2 := Cur(l.1.pos + slen, if bodyCounted then l.1.len - slen else l.1.len);
      var c3 :- Skip(c2, Pad(slen));
      Parsed((Ugid(body), c3))
  }

  /** The attributes decoded before the modify time. */
  datatype Head = Head(ftype: Uint32, size: Uint64, ino: Uint64, mode: Uint32, nlink: Uint32,
                       uid: Uint32, gid: Uint32, spaceUsed: Uint64,
                       atime: (Uint64, Uint32), ctime: (Uint64, Uint32))

  /** The fixed-size attributes at the start: type, size, fileid, mode and numlinks. */
  function ParseFixed(buf: seq<Byte>, c: Cur): Parse<((Uint32, Uint64, Uint64, Uint32, Uint32), Cur)>
  {
    var t :- Get32(buf, c);
    var size :- Get64(buf, t.1);
    var ino :- Get64(buf, size.1);
    var mode :- Get32(buf, ino.1);
    var nlink :- Get32(buf, mode.1);
    Parsed(((t.0, size.0, ino.0, mode.0, nlink.0), nlink.1))
  }

  /** The owner and the group. */
  function ParseOwners(buf: seq<Byte>, c: Cur, bodyCounted: bool): Parse<((Uint32, Uint32), Cur)>
  {
    var uid :- GetOwner(buf, c, bodyCounted);
    var gid :- GetOwner(buf, uid.1, bodyCounted);
    Parsed(((uid.0, gid.0), gid.1))
  }

  /** Space used, access time and change time. */
  function ParseUsage(buf: seq<Byte>, c: Cur): Parse<((Uint64, (Uint64, Uint32), (Uint64, Uint32)), Cur)>
  {
    var used :- Get64(buf, c);
    var at :- GetTime(buf, used.1);
    var ct :- GetTime(buf, at.1);
    Parsed(((used.0, at.0, ct.0), ct.1))
  }

  /** `nfs_parse_attributes` up to the modify time, starting with `len` the buffer length. */
  function ParseHead(buf: seq<Byte>, bodyCounted: bool): Parse<(Head, Cur)>
  {
    var x :- ParseFixed(buf, Cur(0, IntLen(|buf|)));
    var o :- ParseOwners(buf, x.1, bodyCounted);
    var u :- ParseUsage(buf, o.1);
    var fx := x.0;
    Parsed((Head(fx.0, fx.1, fx.2, fx.3, fx.4, o.0.0, o.0.1, u.0.0, u.0.1, u.0.2), u.1))
  }

  /** The `struct fuse_attr` fields the decoder fills in. */
  datatype FuseAttr = FuseAttr(ino: Uint64, size: Uint64, blocks: Uint64,
                               atime: Uint64, mtime: Uint64, ctime: Uint64,
                               atimensec: Uint32, mtimensec: Uint32, ctimensec: Uint32,
                               mode: bv32, nlink: Uint32, uid: Uint32, gid: Uint32,
                               rdev: Uint32, blksize: Uint32)

  const S_IFMT: bv32 := 0xF000

  /** The `S_IF*` bits of an NF4 file type (NF4REG 1 to NF4FIFO 7); none for any other type. */
  function TypeBits(ftype: Uint32): bv32
  {
    match ftype
    case 1 => 0x8000
    case 2 => 0x4000
    case 3 => 0x6000
    case 4 => 0x2000
    case 5 => 0xA000
    case 6 => 0xC000
    case 7 => 0x1000
    case _ => 0
  }

  /** The decoded mode with the type bits or-ed in. */
  function TypedMode(ftype: Uint32, mode: bv32): bv32
  {
    mode | TypeBits(ftype)
  }

  /** `(space_used + VNFS_BLKSIZE - 1) / VNFS_BLKSIZE` in 64-bit arithmetic. */
  function Blocks(spaceUsed: Uint64): Uint64
  {
    ((spaceUsed + VNFS_BLKSIZE - 1) % U64) / VNFS_BLKSIZE
  }

  /** `nfs_parse_attributes`, with or without the string bodies taken off `len`. */
  function ParseAttributesWith(buf: seq<Byte>, bodyCounted: bool): Parse<FuseAttr>
  {
    var h :- ParseHead(buf, bodyCounted);
    var m :- GetTime(buf, h.1);
    var hd := h.0;
    Parsed(FuseAttr(hd.ino, hd.size, Blocks(hd.spaceUsed), hd.atime.0, m.0.0, hd.ctime.0,
                    hd.atime.1, m.0.1, hd.ctime.1, TypedMode(hd.ftype, hd.mode as bv32), hd.nlink,
                    hd.uid, hd.gid, 0, VNFS_BLKSIZE))
  }

  // ----- Encoding, for the round trip -----------------------------------

  /** An XDR word. */
  function W32(x: Uint32): (b: seq<Byte>)
    ensures |b| == 4
  {
    Pow256Widths();
    BeBytes(x, 4)
  }

  /** An XDR unsigned hyper. */
  function H64(x: Uint64): (b: seq<Byte>)
    ensures |b| == 8
  {
    Pow256Widths();
    BeBytes(x, 8)
  }

  /** An XDR string: length word, bytes, zero padding to a multiple of 4. */
  function XdrString(s: seq<Byte>): (b: seq<Byte>)
    requires |s| < U32
    ensures |b| == 4 + |s| + Pad(|s|)
  {
    W32(|s|) + s + Zeros(Pad(|s|))
  }

  /** An XDR nfstime4: seconds, then nanoseconds. */
  function XdrTime(t: (Uint64, Uint32)): (b: seq<Byte>)
    ensures |b| == 12
  {
    H64(t.0) + W32(t.1)
  }

  /** The fattr4 values a server sends for the requested attributes. */
  datatype Fattr = Fattr(ftype: Uint32, size: Uint64, fileid: Uint64, mode: Uint32, numlinks: Uint32,
                         owner: seq<Byte>, group: seq<Byte>, spaceUsed: Uint64,
                         atime: (Uint64, Uint32), ctime: (Uint64, Uint32), mtime: (Uint64, Uint32))

  /** Owner strings short enough for the source's `int` length. */
  predicate Sendable(f: Fattr)
  {
    |f.owner| < 0x8000_0000 && |f.group| < 0x8000_0000
  }

  /** The attribute values before the modify time, in bitmap order. */
  function EncodeHead(f: Fattr): seq<Byte>
    requires Sendable(f)
  {
    W32(f.ftype) + (H64(f.size) + (H64(f.fileid) + (W32(f.mode) + (W32(f.numlinks) +
      (XdrString(f.owner) + (XdrString(f.group) + (H64(f.spaceUsed) + (XdrTime(f.atime) + XdrTime(f.ctime)))))))))
  }

  /** The whole attribute list. */
  function EncodeAttrs(f: Fattr): seq<Byte>
    requires Sendable(f)
  {
    EncodeHead(f) + XdrTime(f.mtime)
  }

  /** What the decoder should make of `f`. */
  function AttrOf(f: Fattr): FuseAttr
  {
    FuseAttr(f.fileid, f.size, Blocks(f.spaceUsed), f.atime.0, f.mtime.0, f.ctime.0,
             f.atime.1, f.mtime.1, f.ctime.1, TypedMode(f.ftype, f.mode as bv32), f.numlinks,
             Ugid(f.owner), Ugid(f.group), 0, VNFS_BLKSIZE)
  }

  function HeadOf(f: Fattr): Head
  {
    Head(f.ftype, f.size, f.fileid, f.mode, f.numlinks, Ugid(f.owner), Ugid(f.group), f.spaceUsed, f.atime, f.ctime)
  }

  /** How far the source's `len` runs ahead of the bytes left: the string bodies it never takes off. */
  function Extra(f: Fattr, bodyCounted: bool): nat
  {
    if bodyCounted then 0 else |f.owner| + |f.group|
  }

  lemma Get32Of(buf: seq<Byte>, c: Cur, x: Uint32, rest: seq<Byte>)
    requires 0 <= c.pos <= |buf| && buf[c.pos..] == W32(x) + rest && c.len >= 4
    ensures Get32(buf, c) == Parsed((x, Cur(c.pos + 4, c.len - 4))) && buf[c.pos + 4..] == rest
  {
    Pow256Widths();
    assert buf[c.pos..c.pos + 4] == W32(x);
    BeRoundTrip(x, 4);
  }

  lemma Get64Of(buf: seq<Byte>, c: Cur, x: Uint64, rest: seq<Byte>)
    requires 0 <= c.pos <= |buf| && buf[c.pos..] == H64(x) + rest && c.len >= 8
    ensures Get64(buf, c) == Parsed((x, Cur(c.pos + 8, c.len - 8))) && buf[c.pos + 8..] == rest
  {
    Pow256Widths();
    assert buf[c.pos..c.pos + 8] == H64(x);
    assert H64(x)[..8] == H64(x);
    BeRoundTrip(x, 8);
  }

  lemma GetTimeOf(buf: seq<Byte>, c: Cur, t: (Uint64, Uint32), rest: seq<Byte>)
    requires 0 <= c.pos <= |buf| && buf[c.pos..] == XdrTime(t) + rest && c.len >= 12
    ensures GetTime(buf, c) == Parsed((t, Cur(c.pos + 12, c.len - 12))) && buf[c.pos + 12..] == rest
  {
    Pow256Widths();
    var b := buf[c.pos..c.pos + 12];
    assert b == XdrTime(t);
    assert b[..8] == H64(t.0) && b[8..] == W32(t.1);
    BeRoundTrip(t.0, 8);
    BeRoundTrip(t.1, 4);
  }

  lemma GetOwnerOf(buf: seq<Byte>, c: Cur, s: seq<Byte>, rest: seq<Byte>, bodyCounted: bool, next: Cur)
    requires |s| < 0x8000_0000
    requires 0 <= c.pos <= |buf| && buf[c.pos..] == XdrString(s) + rest && c.len >= |XdrString(s)|
    requires next == Cur(c.pos + |XdrString(s)|, c.len - |XdrString(s)| + (if bodyCounted then 0 else |s|))
    ensures GetOwner(buf, c, bodyCounted) == Parsed((Ugid(s), next))
    ensures buf[next.pos..] == rest
  {
    var body := s + Zeros(Pad(|s|)) + rest;
    assert buf[c.pos..] == W32(|s|) + body;
    Get32Of(buf, c, |s|, body);
    assert buf[c.pos + 4..c.pos + 4 + |s|] == s;
    assert buf[c.pos + |XdrString(s)|..] == rest;
  }

  /** The fixed-size values read back. */
  lemma FixedParses(buf: seq<Byte>, c: Cur, f: Fattr, rest: seq<Byte>)
    requires 0 <= c.pos <= |buf| && c.len >= 28
    requires buf[c.pos..] == W32(f.ftype) + (H64(f.size) + (H64(f.fileid) + (W32(f.mode) + (W32(f.numlinks) + rest))))
    ensures ParseFixed(buf, c) == Parsed(((f.ftype, f.size, f.fileid, f.mode, f.numlinks), Cur(c.pos + 28, c.len - 28)))
    ensures buf[c.pos + 28..] == rest
  {
    var r4 := W32(f.numlinks) + rest;
    var r3 := W32(f.mode) + r4;
    var r2 := H64(f.fileid) + r3;
    var r1 := H64(f.size) + r2;
    var p, n := c.pos, c.len;
    Get32Of(buf, c, f.ftype, r1);
    Get64Of(buf, Cur(p + 4, n - 4), f.size, r2);
    Get64Of(buf, Cur(p + 12, n - 12), f.fileid, r3);
    Get32Of(buf, Cur(p + 20, n - 20), f.mode, r4);
    Get32Of(buf, Cur(p + 24, n - 24), f.numlinks, rest);
  }

  /** Both strings read back, `len` running ahead by their bodies when those are not taken off. */
  lemma OwnersParse(buf: seq<Byte>, c: Cur, f: Fattr, rest: seq<Byte>, bodyCounted: bool, next: Cur)
    requires Sendable(f) && 0 <= c.pos <= |buf|
    requires c.len >= |XdrString(f.owner)| + |XdrString(f.group)|
    requires buf[c.pos..] == XdrString(f.owner) + (XdrString(f.group) + rest)
    requires next == Cur(c.pos + |XdrString(f.owner)| + |XdrString(f.group)|,
                         c.len - |XdrString(f.owner)| - |XdrString(f.group)| + Extra(f, bodyCounted))
    ensures ParseOwners(buf, c, bodyCounted) == Parsed(((Ugid(f.owner), Ugid(f.group)), next))
    ensures buf[next.pos..] == rest
  {
    var so, sg := |XdrString(f.owner)|, |XdrString(f.group)|;
    var c1 := Cur(c.pos + so, c.len - so + (if bodyCounted then 0 else |f.owner|));
    GetOwnerOf(buf, c, f.owner, XdrString(f.group) + rest, bodyCounted, c1);
    GetOwnerOf(buf, c1, f.group, rest, bodyCounted, next);
  }

  /** Space used and the two times read back. */
  lemma UsageParses(buf: seq<Byte>, c: Cur, f: Fattr, rest: seq<Byte>)
    requires 0 <= c.pos <= |buf| && c.len >= 32
    requires buf[c.pos..] == H64(f.spaceUsed) + (XdrTime(f.atime) + (XdrTime(f.ctime) + rest))
    ensures ParseUsage(buf, c) == Parsed(((f.spaceUsed, f.atime, f.ctime), Cur(c.pos + 32, c.len - 32)))
    ensures buf[c.pos + 32..] == rest
  {
    var p, n := c.pos, c.len;
    Get64Of(buf, c, f.spaceUsed, XdrTime(f.atime) + (XdrTime(f.ctime) + rest));
    GetTimeOf(buf, Cur(p + 8, n - 8), f.atime, XdrTime(f.ctime) + rest);
    GetTimeOf(buf, Cur(p + 20, n - 20), f.ctime, rest);
  }

  /**
   * On a buffer that starts with the encoded values, the decoder reaches
   * the modify time with every value read back, the cursor just past
   * them, and `len` ahead of the bytes left by `Extra`.
   */
  lemma HeadParses(f: Fattr, rest: seq<Byte>, bodyCounted: bool)
    requires Sendable(f) && |EncodeHead(f) + rest| < 0x8000_0000
    ensures ParseHead(EncodeHead(f) + rest, bodyCounted)
         == Parsed((HeadOf(f), Cur(|EncodeHead(f)|, |rest| + Extra(f, bodyCounted))))
  {
    HeadLength(f);
    var n := |EncodeHead(f) + rest|;
    IntLenSmall(n);
    var so := |XdrString(f.owner)| + |XdrString(f.group)|;
    var c1 := Cur(28, n - 28);
    var c2 := Cur(28 + so, n - 28 - so + Extra(f, bodyCounted));
    var c3 := Cur(60 + so, n - 60 - so + Extra(f, bodyCounted));
    HeadFixed(f, rest, IntLen(n));
    HeadOwners(f, rest, bodyCounted, c1, c2);
    HeadUsage(f, rest, c2, c3);
    HeadFromStages(EncodeHead(f) + rest, bodyCounted, (f.ftype, f.size, f.fileid, f.mode, f.numlinks), c1,
                   (Ugid(f.owner), Ugid(f.group)), c2, (f.spaceUsed, f.atime, f.ctime), c3);
    assert c3 == Cur(|EncodeHead(f)|, |rest| + Extra(f, bodyCounted));
  }

  lemma HeadLength(f: Fattr)
    requires Sendable(f)
    ensures |EncodeHead(f)| == 60 + |XdrString(f.owner)| + |XdrString(f.group)|
  {
  }

  /** The first stage on an encoded head. */
  lemma HeadFixed(f: Fattr, rest: seq<Byte>, len: int)
    requires Sendable(f) && len == |EncodeHead(f) + rest|
    ensures ParseFixed(EncodeHead(f) + rest, Cur(0, len))
         == Parsed(((f.ftype, f.size, f.fileid, f.mode, f.numlinks), Cur(28, len - 28)))
  {
    var buf := EncodeHead(f) + rest;
    var owners := XdrString(f.owner) + (XdrString(f.group) + (H64(f.spaceUsed) + (XdrTime(f.atime) + (XdrTime(f.ctime) + rest))));
    assert buf[0..] == W32(f.ftype) + (H64(f.size) + (H64(f.fileid) + (W32(f.mode) + (W32(f.numlinks) + owners))));
    FixedParses(buf, Cur(0, len), f, owners);
  }

  /** The second stage on an encoded head. */
  lemma HeadOwners(f: Fattr, rest: seq<Byte>, bodyCounted: bool, c1: Cur, c2: Cur)
    requires Sendable(f) && c1 == Cur(28, |EncodeHead(f) + rest| - 28)
    requires c2 == Cur(28 + |XdrString(f.owner)| + |XdrString(f.group)|,
                       c1.len - |XdrString(f.owner)| - |XdrString(f.group)| + Extra(f, bodyCounted))
    ensures ParseOwners(EncodeHead(f) + rest, c1, bodyCounted) == Parsed(((Ugid(f.owner), Ugid(f.group)), c2))
  {
    var buf := EncodeHead(f) + rest;
    var usage := H64(f.spaceUsed) + (XdrTime(f.atime) + (XdrTime(f.ctime) + rest));
    assert buf[28..] == XdrString(f.owner) + (XdrString(f.group) + usage);
    OwnersParse(buf, c1, f, usage, bodyCounted, c2);
  }

  /** The third stage on an encoded head. */
  lemma HeadUsage(f: Fattr, rest: seq<Byte>, c2: Cur, c3: Cur)
    requires Sendable(f) && c2.pos == 28 + |XdrString(f.owner)| + |XdrString(f.group)| && c2.len >= 32
    requires c3 == Cur(c2.pos + 32, c2.len - 32)
    ensures ParseUsage(EncodeHead(f) + rest, c2) == Parsed(((f.spaceUsed, f.atime, f.ctime), c3))
  {
    var buf := EncodeHead(f) + rest;
    assert buf[c2.pos..] == H64(f.spaceUsed) + (XdrTime(f.atime) + (XdrTime(f.ctime) + rest));
    UsageParses(buf, c2, f, rest);
  }

  /** `ParseHead` is its three stages run one after the other. */
  lemma HeadFromStages(buf: seq<Byte>, bodyCounted: bool,
                       x: (Uint32, Uint64, Uint64, Uint32, Uint32), c1: Cur,
                       o: (Uint32, Uint32), c2: Cur,
                       u: (Uint64, (Uint64, Uint32), (Uint64, Uint32)), c3: Cur)
    requires ParseFixed(buf, Cur(0, IntLen(|buf|))) == Parsed((x, c1))
    requires ParseOwners(buf, c1, bodyCounted) == Parsed((o, c2))
    requires ParseUsage(buf, c2) == Parsed((u, c3))
    ensures ParseHead(buf, bodyCounted) == Parsed((Head(x.0, x.1, x.2, x.3, x.4, o.0, o.1, u.0, u.1, u.2), c3))
  {
  }

  /**
   * Decoding what a server encodes gives the attributes back, with the
   * type bits in the mode, the owner strings turned into ids, blocks of
   * 8192 bytes and no `rdev`; with or without the string bodies taken
   * off `len`, and whatever follows the list.
   */
  lemma AttributesRoundTrip(f: Fattr, rest: seq<Byte>, bodyCounted: bool)
    requires Sendable(f) && |EncodeAttrs(f) + rest| < 0x8000_0000
    ensures ParseAttributesWith(EncodeAttrs(f) + rest, bodyCounted) == Parsed(AttrOf(f))
  {
    var buf := EncodeAttrs(f) + rest;
    assert buf == EncodeHead(f) + (XdrTime(f.mtime) + rest);
    HeadParses(f, XdrTime(f.mtime) + rest, bodyCounted);
    var h := |EncodeHead(f)|;
    var c := Cur(h, |buf| - h + Extra(f, bodyCounted));
    assert buf[h..] == XdrTime(f.mtime) + rest;
    GetTimeOf(buf, c, f.mtime, rest);
    AttributesFromParts(buf, bodyCounted, HeadOf(f), c, f.mtime, Cur(c.pos + 12, c.len - 12));
  }

  /** `ParseAttributesWith` is the head, then the modify time. */
  lemma AttributesFromParts(buf: seq<Byte>, bodyCounted: bool, hd: Head, c: Cur, m: (Uint64, Uint32), c2: Cur)
    requires ParseHead(buf, bodyCounted) == Parsed((hd, c))
    requires GetTime(buf, c) == Parsed((m, c2))
    ensures ParseAttributesWith(buf, bodyCounted)
         == Parsed(FuseAttr(hd.ino, hd.size, Blocks(hd.spaceUsed), hd.atime.0, m.0, hd.ctime.0,
                            hd.atime.1, m.1, hd.ctime.1, TypedMode(hd.ftype, hd.mode as bv32), hd.nlink,
                            hd.uid, hd.gid, 0, VNFS_BLKSIZE))
  {
  }

  /**
   * As written, a list cut short inside the modify time, by no more than
   * the owner and group string lengths, passes every length check and is
   * read past its end; with the bodies taken off `len` the same list is
   * refused with -1.
   */
  lemma AttributesAsWrittenReadPastEnd(f: Fattr, k: nat)
    requires Sendable(f) && |EncodeAttrs(f)| < 0x8000_0000
    requires 0 < k <= 12 && k <= |f.owner| + |f.group|
    ensures ParseAttributesWith(EncodeAttrs(f)[..|EncodeAttrs(f)| - k], false) == Overrun
    ensures ParseAttributesWith(EncodeAttrs(f)[..|EncodeAttrs(f)| - k], true) == Short
  {
    var cut := XdrTime(f.mtime)[..12 - k];
    var buf := EncodeAttrs(f)[..|EncodeAttrs(f)| - k];
    assert buf == EncodeHead(f) + cut;
    HeadParses(f, cut, false);
    HeadParses(f, cut, true);
  }

  // ----- Reading only inside the buffer ----------------------------------

  /** `len` is exactly the number of bytes left after the cursor (negative only past the end). */
  predicate Exact(buf: seq<Byte>, c: Cur)
  {
    0 <= c.pos && c.pos + c.len == |buf|
  }

  /** From an exact cursor a field is read or refused, never read outside the buffer. */
  lemma TakeExact(buf: seq<Byte>, c: Cur, n: nat)
    requires Exact(buf, c)
    ensures Take(buf, c, n) == (if c.len < n then Short else Parsed(buf[c.pos..c.pos + n]))
  {
  }

  lemma FixedExact(buf: seq<Byte>, c: Cur)
    requires Exact(buf, c)
    ensures !ParseFixed(buf, c).Overrun?
    ensures ParseFixed(buf, c).Parsed? ==> Exact(buf, ParseFixed(buf, c).value.1)
  {
    TakeExact(buf, c, 4);
    TakeExact(buf, Cur(c.pos + 4, c.len - 4), 8);
    TakeExact(buf, Cur(c.pos + 12, c.len - 12), 8);
    TakeExact(buf, Cur(c.pos + 20, c.len - 20), 4);
    TakeExact(buf, Cur(c.pos + 24, c.len - 24), 4);
  }

  lemma OwnerExact(buf: seq<Byte>, c: Cur)
    requires Exact(buf, c)
    ensures !GetOwner(buf, c, true).Overrun?
    ensures GetOwner(buf, c, true).Parsed? ==> Exact(buf, GetOwner(buf, c, true).value.1)
  {
    TakeExact(buf, c, 4);
    if c.len >= 4 {
      var l := Get32(buf, c).value;
      TakeExact(buf, l.1, l.0);
    }
  }

  lemma OwnersExact(buf: seq<Byte>, c: Cur)
    requires Exact(buf, c)
    ensures !ParseOwners(buf, c, true).Overrun?
    ensures ParseOwners(buf, c, true).Parsed? ==> Exact(buf, ParseOwners(buf, c, true).value.1)
  {
    OwnerExact(buf, c);
    if GetOwner(buf, c, true).Parsed? {
      OwnerExact(buf, GetOwner(buf, c, true).value.1);
    }
  }

  lemma UsageExact(buf: seq<Byte>, c: Cur)
    requires Exact(buf, c)
    ensures !ParseUsage(buf, c).Overrun?
    ensures ParseUsage(buf, c).Parsed? ==> Exact(buf, ParseUsage(buf, c).value.1)
  {
    TakeExact(buf, c, 8);
    TakeExact(buf, Cur(c.pos + 8, c.len - 8), 12);
    TakeExact(buf, Cur(c.pos + 20, c.len - 20), 12);
  }

  /**
   * With the string bodies taken off `len`, no list of fewer than 2^31
   * bytes is ever read outside: every field is either decoded or
   * refused with -1.
   */
  lemma AttributesNeverOverrun(buf: seq<Byte>)
    requires |buf| < 0x8000_0000
    ensures !ParseAttributesWith(buf, true).Overrun?
  {
    IntLenSmall(|buf|);
    var c0 := Cur(0, IntLen(|buf|));
    FixedExact(buf, c0);
    if ParseFixed(buf, c0).Parsed? {
      var c1 := ParseFixed(buf, c0).value.1;
      OwnersExact(buf, c1);
      if ParseOwners(buf, c1, true).Parsed? {
        var c2 := ParseOwners(buf, c1, true).value.1;
        UsageExact(buf, c2);
        if ParseUsage(buf, c2).Parsed? {
          TakeExact(buf, ParseUsage(buf, c2).value.1, 12);
        }
      }
    }
  }

  // ----- Mode and blocks ---------------------------------------------------

  /**
   * The type bits of an NF4 type land in the `S_IFMT` field of the mode
   * and the permission bits are kept.
   */
  lemma TypedModeBits(ftype: Uint32, mode: bv32)
    requires mode & S_IFMT == 0
    ensures TypedMode(ftype, mode) & S_IFMT == TypeBits(ftype)
    ensures TypedMode(ftype, mode) & !S_IFMT == mode
  {
    TypeBitsInField(ftype);
    OrDisjoint(mode, TypeBits(ftype));
  }

  /** An unknown type leaves the mode as decoded. */
  lemma UnknownTypeKeepsMode(ftype: Uint32, mode: bv32)
    requires ftype < 1 || ftype > 7
    ensures TypedMode(ftype, mode) == mode
  {
    assert TypeBits(ftype) == 0;
  }

  lemma TypeBitsInField(ftype: Uint32)
    ensures TypeBits(ftype) & !S_IFMT == 0
  {
  }

  lemma OrDisjoint(m: bv32, t: bv32)
    requires m & S_IFMT == 0 && t & !S_IFMT == 0
    ensures (m | t) & S_IFMT == t && (m | t) & !S_IFMT == m
  {
  }

  /** When `space_used + 8191` fits in 64 bits, `blocks` is the least number of 8192-byte blocks holding it. */
  lemma BlocksCeil(spaceUsed: Uint64)
    requires spaceUsed + VNFS_BLKSIZE - 1 < U64
    ensures Blocks(spaceUsed) * VNFS_BLKSIZE >= spaceUsed
    ensures spaceUsed == 0 || (Blocks(spaceUsed) - 1) * VNFS_BLKSIZE < spaceUsed
  {
  }

  /** The 64-bit sum wraps for the last 8191 values, and then `blocks` is 0. */
  lemma BlocksWraps(spaceUsed: Uint64)
    requires spaceUsed + VNFS_BLKSIZE - 1 >= U64
    ensures Blocks(spaceUsed) == 0
  {
  }

  // ----- Statfs -----------------------------------------------------------

  /** The `struct fuse_kstatfs` fields the statfs decoder fills in. */
  datatype KStatfs = KStatfs(blocks: Uint64, bfree: Uint64, bavail: Uint64, files: Uint64, ffree: Uint64,
                             bsize: Uint32, namelen: Uint32, frsize: Uint32)

  /** A 64-bit field copied out with `memcpy` and turned around by `nfs_ntoh64`. */
  function GetMem64(buf: seq<Byte>, c: Cur): Parse<(Uint64, Cur)>
  {
    var b :- Take(buf, c, 8);
    Pow256Widths();
    LeValueBound(b);
    Parsed((Swap64(LeValue(b)), Cur(c.pos + 8, c.len - 8)))
  }

  /**
   * `nfs_parse_statfs`: files free, files total, maximum name length,
   * then space available, free and total, each space value divided by the
   * 8192-byte fragment size; -1 as soon as fewer bytes remain than the
   * next field needs.
   */
  function ParseStatfs(buf: seq<Byte>): Parse<KStatfs>
  {
    var ffree :- GetMem64(buf, Cur(0, IntLen(|buf|)));
    var files :- GetMem64(buf, ffree.1);
    var namelen :- Get32(buf, files.1);
    var avail :- GetMem64(buf, namelen.1);
    var free :- GetMem64(buf, avail.1);
    var total :- GetMem64(buf, free.1);
    Parsed(KStatfs(total.0 / VNFS_BLKSIZE, free.0 / VNFS_BLKSIZE, avail.0 / VNFS_BLKSIZE, files.0, ffree.0,
                   VNFS_BLKSIZE, namelen.0, VNFS_BLKSIZE))
  }

  /** The statfs attribute values a server sends, in bitmap order. */
  datatype Fsstat = Fsstat(filesFree: Uint64, filesTotal: Uint64, maxName: Uint32,
                           spaceAvail: Uint64, spaceFree: Uint64, spaceTotal: Uint64)

  function EncodeStatfs(v: Fsstat): seq<Byte>
  {
    H64(v.filesFree) + (H64(v.filesTotal) + (W32(v.maxName) + (H64(v.spaceAvail) + (H64(v.spaceFree) + H64(v.spaceTotal)))))
  }

  function StatfsOf(v: Fsstat): KStatfs
  {
    KStatfs(v.spaceTotal / VNFS_BLKSIZE, v.spaceFree / VNFS_BLKSIZE, v.spaceAvail / VNFS_BLKSIZE,
            v.filesTotal, v.filesFree, VNFS_BLKSIZE, v.maxName, VNFS_BLKSIZE)
  }

  /** A hyper copied to memory and swapped is the hyper. */
  lemma GetMem64Of(buf: seq<Byte>, c: Cur, x: Uint64, rest: seq<Byte>, next: Cur)
    requires 0 <= c.pos <= |buf| && buf[c.pos..] == H64(x) + rest && c.len >= 8
    requires next == Cur(c.pos + 8, c.len - 8)
    ensures GetMem64(buf, c) == Parsed((x, next)) && buf[next.pos..] == rest
  {
    var b := H64(x);
    assert buf[c.pos..c.pos + 8] == b && buf[next.pos..] == rest;
    assert Take(buf, c, 8) == Parsed(b);
    SwapOfMemory(b);
    Pow256Widths();
    BeRoundTrip(x, 8);
  }

  /** `ParseStatfs` from the values of its six fields, read one after the other from the start. */
  lemma StatfsFromFields(buf: seq<Byte>, v: Fsstat, n: int)
    requires n == IntLen(|buf|)
    requires GetMem64(buf, Cur(0, n)) == Parsed((v.filesFree, Cur(8, n - 8)))
    requires GetMem64(buf, Cur(8, n - 8)) == Parsed((v.filesTotal, Cur(16, n - 16)))
    requires Get32(buf, Cur(16, n - 16)) == Parsed((v.maxName, Cur(20, n - 20)))
    requires GetMem64(buf, Cur(20, n - 20)) == Parsed((v.spaceAvail, Cur(28, n - 28)))
    requires GetMem64(buf, Cur(28, n - 28)) == Parsed((v.spaceFree, Cur(36, n - 36)))
    requires GetMem64(buf, Cur(36, n - 36)) == Parsed((v.spaceTotal, Cur(44, n - 44)))
    ensures ParseStatfs(buf) == Parsed(StatfsOf(v))
  {
  }

  /**
   * Decoding what a server encodes gives the values back, the space
   * values in 8192-byte blocks and both block sizes 8192, whatever
   * follows the list.
   */
  lemma StatfsRoundTrip(v: Fsstat, rest: seq<Byte>)
    requires |EncodeStatfs(v) + rest| < 0x8000_0000
    ensures ParseStatfs(EncodeStatfs(v) + rest) == Parsed(StatfsOf(v))
  {
    var buf := EncodeStatfs(v) + rest;
    var r5 := H64(v.spaceTotal) + rest;
    var r4 := H64(v.spaceFree) + r5;
    var r3 := H64(v.spaceAvail) + r4;
    var r2 := W32(v.maxName) + r3;
    var r1 := H64(v.filesTotal) + r2;
    assert buf[0..] == H64(v.filesFree) + r1;
    var n := |buf|;
    IntLenSmall(n);
    GetMem64Of(buf, Cur(0, n), v.filesFree, r1, Cur(8, n - 8));
    GetMem64Of(buf, Cur(8, n - 8), v.filesTotal, r2, Cur(16, n - 16));
    Get32Of(buf, Cur(16, n - 16), v.maxName, r3);
    GetMem64Of(buf, Cur(20, n - 20), v.spaceAvail, r4, Cur(28, n - 28));
    GetMem64Of(buf, Cur(28, n - 28), v.spaceFree, r5, Cur(36, n - 36));
    GetMem64Of(buf, Cur(36, n - 36), v.spaceTotal, rest, Cur(44, n - 44));
    StatfsFromFields(buf, v, n);
  }

  /**
   * A statfs list shorter than the 44 bytes of its six fields is refused
   * with -1, a longer one decoded; it is never read outside.
   */
  lemma StatfsShortExactly(buf: seq<Byte>)
    requires |buf| < 0x8000_0000
    ensures ParseStatfs(buf).Short? <==> |buf| < 44
    ensures !ParseStatfs(buf).Overrun?
  {
    var n := |buf|;
    IntLenSmall(n);
    TakeExact(buf, Cur(0, n), 8);
    TakeExact(buf, Cur(8, n - 8), 8);
    TakeExact(buf, Cur(16, n - 16), 4);
    TakeExact(buf, Cur(20, n - 20), 8);
    TakeExact(buf, Cur(28, n - 28), 8);
    TakeExact(buf, Cur(36, n - 36), 8);
  }

  /** `nfs_parse_fileid`: the hyper at the start of the buffer; -1 when fewer than 8 bytes are given. */
  function ParseFileid(buf: seq<Byte>): Parse<Uint64>
  {
    var f :- Get64(buf, Cur(0, IntLen(|buf|)));
    Parsed(f.0)
  }

  /**
   * The fileid a server sends is the one decoded, whatever follows; a
   * buffer shorter than a hyper is refused and never overrun.
   */
  lemma FileidRoundTrip(x: Uint64, rest: seq<Byte>)
    requires |H64(x) + rest| < 0x8000_0000
    ensures ParseFileid(H64(x) + rest) == Parsed(x)
  {
    var buf := H64(x) + rest;
    IntLenSmall(|buf|);
    assert buf[0..] == H64(x) + rest;
    Get64Of(buf, Cur(0, |buf|), x, rest);
  }

  lemma FileidShortExactly(buf: seq<Byte>)
    requires |buf| < 0x8000_0000
    ensures ParseFileid(buf).Short? <==> |buf| < 8
    ensures !ParseFileid(buf).Overrun?
  {
    IntLenSmall(|buf|);
    TakeExact(buf, Cur(0, |buf|), 8);
  }

  // ----- Compound results and status --------------------------------------

  /**
   * `nfs4_find_op`: the index of the first result of operation `op`, or
   * -1 when there is none. The count is cast to `int`, so it is taken to
   * be below 2^31.
   */
  method FindOp(resops: seq<int>, op: int) returns (i: int)
    requires |resops| < 0x8000_0000
    ensures i == -1 <==> op !in resops
    ensures i != -1 ==> 0 <= i < |resops| && resops[i] == op && op !in resops[..i]
  {
    i := 0;
    while i < |resops|
      invariant 0 <= i <= |resops| && op !in resops[..i]
    {
      if resops[i] == op {
        break;
      }
      assert resops[..i + 1] == resops[..i] + [resops[i]];
      i := i + 1;
    }
    if i == |resops| {
      assert resops[..i] == resops;
      return -1;
    }
  }

  /**
   * `nfs_error_to_fuse_error`: the NFSv4 statuses up to NFS4ERR_MLINK
   * carry the Linux errno of the same meaning (section 13 of RFC 7530),
   * any other becomes -ENOSYS.
   */
  function ErrorToFuse(status: Uint32): int
  {
    if status <= NFS4ERR_MLINK then status else -ENOSYS
  }

  /** The `out_hdr->error` of an NFS callback for a failed compound, as written: the mapping negated. */
  function ReplyErrorAsWritten(status: Uint32): int
  {
    -ErrorToFuse(status)
  }

  /**
   * As written, every status past NFS4ERR_MLINK (NFS4ERR_STALE, 70, for
   * one) is answered with the positive value ENOSYS, which the FUSE
   * protocol does not accept as an error.
   */
  lemma ReplyErrorAsWrittenPositive(status: Uint32)
    requires status > NFS4ERR_MLINK
    ensures ReplyErrorAsWritten(status) == ENOSYS && ReplyErrorAsWritten(status) > 0
  {
  }

  /**
   * The reply error with the unknown statuses kept negative: negative for
   * every failure, the value written for the statuses that share their
   * number with an errno, and its sign flipped for the others.
   */
  function ReplyError(status: Uint32): (e: int)
    ensures status != 0 ==> e < 0
    ensures status <= NFS4ERR_MLINK ==> e == ReplyErrorAsWritten(status)
    ensures status > NFS4ERR_MLINK ==> e == -ReplyErrorAsWritten(status)
  {
    if status <= NFS4ERR_MLINK then -(status as int) else -ENOSYS
  }

  // ----- Attributes of a create -------------------------------------------

  /** `S_IFREG | S_IRUSR | S_IWUSR | S_IRGRP | S_IWGRP`. */
  const CREATE_MODE: Uint32 := 0x81B0
  /** `CREATE_ATTRS_SIZE`, the buffer allocated, and `64 + sizeof(uint32_t)`, the length reported. */
  const CREATE_ATTRS_SIZE: nat := 68

  /** A `uint32_t` passed for `%d`: the `int` with the same bits. */
  function AsInt32(u: Uint32): int
  {
    if u < 0x8000_0000 then u else u - U32
  }

  /** `"%d"`: a minus sign for a negative value, then the decimal digits. */
  function PrintInt(x: int): (s: seq<Byte>)
  {
    if x < 0 then [45] + Digits(-x) else Digits(x)
  }

  /** `"%d"` of any `int` takes at most 11 characters. */
  lemma PrintIntLength(u: Uint32)
    ensures 1 <= |PrintInt(AsInt32(u))| <= 11
  {
    assert Pow10(10) == 10_000_000_000;
    var x := AsInt32(u);
    if x < 0 {
      DigitsLength(-x, 10);
    } else {
      DigitsLength(x, 10);
    }
  }

  /** The owner string of an id: its `"%d"`. */
  function IdString(u: Uint32): (s: seq<Byte>)
    ensures 1 <= |s| <= 11
  {
    PrintIntLength(u);
    PrintInt(AsInt32(u))
  }

  /** The attribute values of a create: the mode, then owner and group as XDR strings. */
  function CreateAttrsOf(owner: seq<Byte>, group: seq<Byte>): (b: seq<Byte>)
    requires |owner| <= 11 && |group| <= 11
    ensures |b| == 4 + |XdrString(owner)| + |XdrString(group)|
  {
    W32(CREATE_MODE) + XdrString(owner) + XdrString(group)
  }

  /** The attribute values of a create for the caller's ids, at most 36 bytes of them. */
  function CreateAttrs(uid: Uint32, gid: Uint32): (b: seq<Byte>)
    ensures |b| <= 36
  {
    IdFieldSize(IdString(uid));
    IdFieldSize(IdString(gid));
    CreateAttrsOf(IdString(uid), IdString(gid))
  }

  /** An id string of 1 to 11 characters takes 8 to 16 bytes. */
  lemma IdFieldSize(s: seq<Byte>)
    requires 1 <= |s| <= 11
    ensures 8 <= |XdrString(s)| <= 16
  {
    PadAligns(|s|);
  }

  /** An XDR string is a whole number of words: one starting on a word boundary ends on one. */
  lemma XdrStringAligned(s: seq<Byte>, at: nat)
    requires |s| < U32 && at % 4 == 0
    ensures (at + |XdrString(s)|) % 4 == 0
  {
    PadAligns(|s|);
    var n := 4 + |s| + Pad(|s|);
    ModUnique4(n, n / 4, 0);
    ModUnique4(at, at / 4, 0);
    ModUnique4(at + n, at / 4 + n / 4, 0);
  }

  /** The remainder modulo 4 is the one a decomposition names. */
  lemma ModUnique4(a: int, k: int, r: int)
    requires 0 <= r < 4 && a == 4 * k + r
    ensures a % 4 == r
  {
  }

  /** `n` rounded up to a multiple of 4: `(n + 3) & ~0x03` on a non-negative `int`. */
  function RoundUp4(n: nat): nat
  {
    (n + 3) / 4 * 4
  }

  /** `b` copied over `s` at `at`. */
  function Write(s: seq<Byte>, at: nat, b: seq<Byte>): (r: seq<Byte>)
    requires at + |b| <= |s|
    ensures |r| == |s|
  {
    s[..at] + b + s[at + |b|..]
  }

  /**
   * One id written by `nfs4_fill_create_attrs` into the zeroed rest of the
   * buffer: `snprintf` puts the digits and a NUL four bytes on, the length
   * word goes in front, and `i` moves past them, rounded up to 4.
   */
  method PutId(str: seq<Byte>, i: nat, id: Uint32, ghost done: seq<Byte>) returns (str': seq<Byte>, i': nat)
    requires i == |done| && i % 4 == 0 && i + 16 <= |str| == CREATE_ATTRS_SIZE
    requires str == done + Zeros(|str| - i)
    ensures i' == i + |XdrString(IdString(id))| && |str'| == |str|
    ensures str' == done + XdrString(IdString(id)) + Zeros(|str| - i')
  {
    var s := IdString(id);
    var l := |s|;
    assert l + 1 <= CREATE_ATTRS_SIZE - 4 - i;
    str' := Write(str, i + 4, s + [0]);
    str' := Write(str', i, W32(l));
    i' := i + 4 + l;
    i' := RoundUp4(i');
    ghost var k := |str| - i;
    PutIdOnZeros(done, s, k);
    PadRound(i, l);
  }

  lemma PutIdOnZeros(done: seq<Byte>, s: seq<Byte>, k: nat)
    requires |s| < U32 && 4 + |s| + 1 <= k && 4 + |s| + Pad(|s|) <= k
    ensures Write(Write(done + Zeros(k), |done| + 4, s + [0]), |done|, W32(|s|))
         == done + XdrString(s) + Zeros(k - |XdrString(s)|)
  {
    var w := Write(Write(done + Zeros(k), |done| + 4, s + [0]), |done|, W32(|s|));
    var e := done + XdrString(s) + Zeros(k - |XdrString(s)|);
    assert |w| == |e|;
    forall j | 0 <= j < |w|
      ensures w[j] == e[j]
    {
      if j < |done| {
      } else if j < |done| + 4 {
        assert w[j] == W32(|s|)[j - |done|];
        assert e[j] == XdrString(s)[j - |done|];
      } else if j < |done| + 4 + |s| {
        assert w[j] == s[j - |done| - 4];
        assert e[j] == XdrString(s)[j - |done|];
      } else {
        assert w[j] == 0;
      }
    }
  }

  lemma PadRound(i: nat, l: nat)
    requires i % 4 == 0
    ensures RoundUp4(i + 4 + l) == i + 4 + l + Pad(l)
  {
    var q, r := l / 4, l % 4;
    assert l == 4 * q + r;
    assert i + 4 + l + 3 == 4 * (i / 4 + 1 + q) + (r + 3);
  }

  /**
   * `nfs4_fill_create_attrs`: a zeroed 68-byte buffer holding the mode
   * and the caller's uid and gid as owner strings, or -ENOMEM when the
   * buffer cannot be had. `reportUsed` says whether the length reported
   * is the bytes written, `i`; the source reports all 68.
   */
  method FillCreateAttrs(uid: Uint32, gid: Uint32, allocOk: bool, reportUsed: bool)
    returns (ret: int, vals: seq<Byte>, attrLen: nat)
    ensures !allocOk ==> ret == -ENOMEM && vals == []
    ensures allocOk ==> ret == 0 && vals == CreateAttrs(uid, gid) + Zeros(CREATE_ATTRS_SIZE - |CreateAttrs(uid, gid)|)
    ensures allocOk ==> attrLen == if reportUsed then |CreateAttrs(uid, gid)| else CREATE_ATTRS_SIZE
  {
    if !allocOk {
      return -ENOMEM, [], 0;
    }
    attrLen := CREATE_ATTRS_SIZE;
    var str := Zeros(CREATE_ATTRS_SIZE);
    str := Write(str, 0, W32(CREATE_MODE));
    var i := 4;
    ghost var done := W32(CREATE_MODE);
    assert str == done + Zeros(CREATE_ATTRS_SIZE - i);
    IdFieldSize(IdString(uid));
    XdrStringAligned(IdString(uid), i);
    str, i := PutId(str, i, uid, done);
    done := done + XdrString(IdString(uid));
    IdFieldSize(IdString(gid));
    str, i := PutId(str, i, gid, done);
    done := done + XdrString(IdString(gid));
    assert done == CreateAttrsOf(IdString(uid), IdString(gid));
    if reportUsed {
      attrLen := i;
    }
    return 0, str, attrLen;
  }

  /** The owner strings made from ids below 2^31 read back as those ids. */
  lemma IdStringRoundTrip(u: Uint32)
    requires u < 0x8000_0000
    ensures Ugid(IdString(u)) == u
  {
    DigitsDecimal(u);
  }

  /** An id of 2^31 or more is printed negative and reads back as `nobody`. */
  lemma IdStringNegative(u: Uint32)
    requires u >= 0x8000_0000
    ensures IdString(u)[0] == 45 && Ugid(IdString(u)) == 65534
  {
    assert !IsDigit(IdString(u)[0]);
  }

  /** Attributes with only the two strings set, for decoding them. */
  function StringsFattr(owner: seq<Byte>, group: seq<Byte>): Fattr
  {
    Fattr(0, 0, 0, CREATE_MODE, 0, owner, group, 0, (0, 0), (0, 0), (0, 0))
  }

  /** The mode word, two strings and `rest` decode to the mode, the strings' ids, and a cursor at `rest`. */
  lemma ModeAndStringsDecode(b: seq<Byte>, owner: seq<Byte>, group: seq<Byte>, rest: seq<Byte>, next: Cur)
    requires |owner| <= 11 && |group| <= 11 && b == CreateAttrsOf(owner, group) + rest
    requires next == Cur(|b| - |rest|, |rest|)
    ensures Get32(b, Cur(0, |b|)) == Parsed((CREATE_MODE, Cur(4, |b| - 4)))
    ensures ParseOwners(b, Cur(4, |b| - 4), true) == Parsed(((Ugid(owner), Ugid(group)), next))
  {
    var strs := XdrString(owner) + (XdrString(group) + rest);
    assert b == W32(CREATE_MODE) + strs;
    ModeDecode(b, strs);
    OwnersParse(b, Cur(4, |b| - 4), StringsFattr(owner, group), rest, true, next);
  }

  /** The mode word at the head of an attribute list. */
  lemma ModeDecode(b: seq<Byte>, strs: seq<Byte>)
    requires b == W32(CREATE_MODE) + strs
    ensures Get32(b, Cur(0, |b|)) == Parsed((CREATE_MODE, Cur(4, |b| - 4)))
  {
    Get32Of(b, Cur(0, |b|), CREATE_MODE, strs);
  }

  /**
   * With the length reported being the bytes written, a decoder of mode,
   * owner and owner_group finds the mode and both ids and ends exactly at
   * the end of the list.
   */
  lemma CreateAttrsDecode(uid: Uint32, gid: Uint32)
    requires uid < 0x8000_0000 && gid < 0x8000_0000
    ensures Get32(CreateAttrs(uid, gid), Cur(0, |CreateAttrs(uid, gid)|))
         == Parsed((CREATE_MODE, Cur(4, |CreateAttrs(uid, gid)| - 4)))
    ensures ParseOwners(CreateAttrs(uid, gid), Cur(4, |CreateAttrs(uid, gid)| - 4), true)
         == Parsed(((uid, gid), Cur(|CreateAttrs(uid, gid)|, 0)))
  {
    var b := CreateAttrs(uid, gid);
    assert b == CreateAttrsOf(IdString(uid), IdString(gid)) + [];
    ModeAndStringsDecode(b, IdString(uid), IdString(gid), [], Cur(|b|, 0));
    IdStringRoundTrip(uid);
    IdStringRoundTrip(gid);
  }

  /**
   * As written, the 68 bytes reported hold at least 32 zero bytes after
   * the last attribute, which the same decoder leaves unread; `owner` and
   * `group` are any strings `IdString` can produce.
   */
  lemma CreateAttrsAsWrittenUnread(owner: seq<Byte>, group: seq<Byte>, vals: seq<Byte>, k: nat)
    requires 1 <= |owner| <= 11 && 1 <= |group| <= 11
    requires vals == CreateAttrsOf(owner, group) + Zeros(k) && |vals| == CREATE_ATTRS_SIZE
    ensures ParseOwners(vals, Cur(4, CREATE_ATTRS_SIZE - 4), true)
         == Parsed(((Ugid(owner), Ugid(group)), Cur(CREATE_ATTRS_SIZE - k, k)))
    ensures k >= 32
  {
    IdFieldSize(owner);
    IdFieldSize(group);
    ModeAndStringsDecode(vals, owner, group, Zeros(k), Cur(CREATE_ATTRS_SIZE - k, k));
  }
}
