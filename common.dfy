/**
 * Shared vocabulary of the DPFS model: bytes, optional values, sums of
 * iovec lengths, and the fixed-width integer encodings used on the wire
 * (host little-endian for FUSE structs and the RVFS frame, big-endian for
 * XDR).
 */
module Common {
  /** One octet of a buffer. */
  type Byte = b: int | 0 <= b < 256

  datatype Option<T> = None | Some(value: T)

  /** The C macro `MIN(x, y)`: `x < y ? x : y`. */
  function Min(x: int, y: int): (r: int)
    ensures r <= x && r <= y && (r == x || r == y)
  {
    if x < y then x else y
  }

  /** Sum of a sequence of lengths, accumulated from the front. */
  function Sum(s: seq<nat>): nat
  {
    if s == [] then 0 else Sum(s[..|s| - 1]) + s[|s| - 1]
  }

  lemma SumAppend(s: seq<nat>, x: nat)
    ensures Sum(s + [x]) == Sum(s) + x
  {
    assert (s + [x])[..|s + [x]| - 1] == s;
  }

  lemma {:induction false} SumPrefixMono(s: seq<nat>, i: nat, j: nat)
    requires i <= j <= |s|
    ensures Sum(s[..i]) <= Sum(s[..j])
    decreases j - i
  {
    if i < j {
      SumPrefixMono(s, i, j - 1);
      assert s[..j] == s[..j - 1] + [s[j - 1]];
      SumAppend(s[..j - 1], s[j - 1]);
    }
  }

  /** Replacing one element changes the sum by the difference. */
  lemma {:induction false} SumUpdate(s: seq<nat>, i: nat, v: nat)
    requires i < |s|
    ensures Sum(s[i := v]) + s[i] == Sum(s) + v
    decreases |s|
  {
    var t, n := s[i := v], |s|;
    if i == n - 1 {
      assert t[..n - 1] == s[..n - 1];
    } else {
      assert t[..n - 1] == s[..n - 1][i := v];
      SumUpdate(s[..n - 1], i, v);
    }
  }

  /** All zeros sum to zero. */
  lemma {:induction false} SumZero(s: seq<nat>)
    requires forall k :: 0 <= k < |s| ==> s[k] == 0
    ensures Sum(s) == 0
    decreases |s|
  {
    if s != [] {
      SumZero(s[..|s| - 1]);
    }
  }

  /** 256^n: the number of values an n-byte unsigned field holds. */
  function Pow256(n: nat): (r: nat)
    ensures r >= 1
  {
    if n == 0 then 1 else 256 * Pow256(n - 1)
  }

  const U16: nat := 0x1_0000
  const U32: nat := 0x1_0000_0000
  const U64: nat := 0x1_0000_0000_0000_0000

  /** C fixed-width unsigned integers. */
  type Uint16 = x: int | 0 <= x < 0x1_0000
  type Uint32 = x: int | 0 <= x < 0x1_0000_0000
  type Uint64 = x: int | 0 <= x < 0x1_0000_0000_0000_0000

  /** Conversion of an integer to `uint32_t`: the value modulo 2^32. */
  function Wrap32(x: int): Uint32
  {
    x % U32
  }

  lemma Pow256Widths()
    ensures Pow256(4) == U32 && Pow256(8) == U64
  {
    assert Pow256(2) == 65536;
  }

  /** `n` bytes of `x`, least significant first (the host layout of a struct field). */
  function LeBytes(x: nat, n: nat): (r: seq<Byte>)
    requires x < Pow256(n)
    ensures |r| == n
  {
    if n == 0 then [] else [x % 256] + LeBytes(x / 256, n - 1)
  }

  /** The unsigned value of little-endian bytes. */
  function LeValue(s: seq<Byte>): (v: nat)
  {
    if s == [] then 0 else s[0] + 256 * LeValue(s[1..])
  }

  lemma {:induction false} LeValueBound(s: seq<Byte>)
    ensures LeValue(s) < Pow256(|s|)
  {
    if s != [] { LeValueBound(s[1..]); }
  }

  lemma {:induction false} LeRoundTrip(x: nat, n: nat)
    requires x < Pow256(n)
    ensures LeValue(LeBytes(x, n)) == x
  {
    if n > 0 {
      LeRoundTrip(x / 256, n - 1);
      assert LeBytes(x, n)[1..] == LeBytes(x / 256, n - 1);
    }
  }

  lemma {:induction false} LeBytesOfValue(s: seq<Byte>)
    ensures LeValue(s) < Pow256(|s|) && LeBytes(LeValue(s), |s|) == s
  {
    LeValueBound(s);
    if s != [] {
      var v := LeValue(s[1..]);
      LeBytesOfValue(s[1..]);
      DivModByte(s[0], v);
      assert LeBytes(LeValue(s), |s|) == [s[0]] + LeBytes(v, |s| - 1);
      assert s == [s[0]] + s[1..];
    }
  }

  /** Splitting `b + 256 * v` back into its low byte and the rest. */
  lemma DivModByte(b: Byte, v: nat)
    ensures (b + 256 * v) % 256 == b && (b + 256 * v) / 256 == v
  {
  }

  /** `n` bytes of `x`, most significant first (network byte order, XDR). */
  function BeBytes(x: nat, n: nat): (r: seq<Byte>)
    requires x < Pow256(n)
    ensures |r| == n
  {
    if n == 0 then [] else BeBytes(x / 256, n - 1) + [x % 256]
  }

  /** The unsigned value of big-endian bytes. */
  function BeValue(s: seq<Byte>): (v: nat)
  {
    if s == [] then 0 else 256 * BeValue(s[..|s| - 1]) + s[|s| - 1]
  }

  lemma {:induction false} BeValueBound(s: seq<Byte>)
    ensures BeValue(s) < Pow256(|s|)
  {
    if s != [] { BeValueBound(s[..|s| - 1]); }
  }

  lemma {:induction false} BeRoundTrip(x: nat, n: nat)
    requires x < Pow256(n)
    ensures BeValue(BeBytes(x, n)) == x
  {
    if n > 0 {
      BeRoundTrip(x / 256, n - 1);
      var s := BeBytes(x, n);
      assert s[..|s| - 1] == BeBytes(x / 256, n - 1);
    }
  }

  /** Reading a big-endian field back gives the same bytes. */
  lemma {:induction false} BeBytesOfValue(s: seq<Byte>)
    ensures BeValue(s) < Pow256(|s|) && BeBytes(BeValue(s), |s|) == s
  {
    BeValueBound(s);
    if s != [] {
      BeBytesOfValue(s[..|s| - 1]);
      assert s == s[..|s| - 1] + [s[|s| - 1]];
    }
  }

  /** The same bytes in the opposite order. */
  function Reverse(s: seq<Byte>): (r: seq<Byte>)
    ensures |r| == |s|
  {
    if s == [] then [] else Reverse(s[1..]) + [s[0]]
  }

  lemma {:induction false} ReverseAt(s: seq<Byte>, k: nat)
    requires k < |s|
    ensures Reverse(s)[k] == s[|s| - 1 - k]
  {
    if k < |s| - 1 { ReverseAt(s[1..], k); }
  }

  /** Big-endian bytes are the little-endian bytes reversed. */
  lemma {:induction false} BeIsReversedLe(x: nat, n: nat)
    requires x < Pow256(n)
    ensures BeBytes(x, n) == Reverse(LeBytes(x, n))
  {
    if n > 0 {
      BeIsReversedLe(x / 256, n - 1);
      assert LeBytes(x, n)[1..] == LeBytes(x / 256, n - 1);
    }
  }

  /** C's `a & b` on non-negative integers, bit by bit from the lowest. */
  function BitAnd(a: nat, b: nat): nat
  {
    if a == 0 || b == 0 then 0
    else 2 * BitAnd(a / 2, b / 2) + (if a % 2 == 1 && b % 2 == 1 then 1 else 0)
  }

  /** `n` is 2^k for some k. */
  predicate IsPow2(n: nat)
  {
    n == 1 || (n > 1 && n % 2 == 0 && IsPow2(n / 2))
  }

  lemma {:induction false} BitAndSelf(a: nat)
    ensures BitAnd(a, a) == a
  {
    if a > 0 { BitAndSelf(a / 2); }
  }

  /** The queue-depth test `qd & (qd - 1)` is zero exactly for powers of two. */
  lemma {:induction false} PowerOfTwoTest(n: nat)
    requires n >= 1
    ensures BitAnd(n, n - 1) == 0 <==> IsPow2(n)
  {
    if n > 1 {
      if n % 2 == 1 {
        BitAndSelf(n / 2);
        assert (n - 1) / 2 == n / 2;
      } else {
        PowerOfTwoTest(n / 2);
        assert (n - 1) / 2 == n / 2 - 1;
      }
    }
  }

  /** A run of `n` zero bytes. */
  function Zeros(n: nat): (r: seq<Byte>)
    ensures |r| == n && forall k :: 0 <= k < n ==> r[k] == 0
  {
    seq(n, _ => 0)
  }
}

/** Linux errno values used by the request handlers (asm-generic/errno*.h). */
module Errno {
  const EPERM: int := 1
  const ENOENT: int := 2
  const EIO: int := 5
  const EAGAIN: int := 11
  /** The "not finished yet" return of an asynchronous handler. */
  const EWOULDBLOCK: int := EAGAIN
  const ENOMEM: int := 12
  const EBUSY: int := 16
  const EINVAL: int := 22
  const ENOSYS: int := 38
  const EPROTO: int := 71
  const ENOTSUP: int := 95
  const EISCONN: int := 106
  const EREMOTEIO: int := 121
  /** stdio's `EOF` is -1, so `-EOF` in a reply is +1. */
  const EOF: int := -1

  /** An errno value, as a failed call leaves it: always positive. */
  type Errnum = n: int | n > 0 witness 1

  /** The result of a system call: its value, or the errno it failed with. */
  datatype Sys<T> = Ok(value: T) | Fail(errno: Errnum)
}
