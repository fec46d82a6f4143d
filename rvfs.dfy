/** The RVFS transport: a FUSE request that the DPU side (dpfs_rvfs/dpu.cpp) lays out in an eRPC
    message, and the host HAL (dpfs_hal/src/rvfs.cpp) that maps it back onto io vectors, hands it
    to the file-system handler and returns the response. */
module Rvfs {
  import opened Common
  import opened Errno

  /** `sizeof(int)`: the width of an io-vector count on the wire. */
  const INT_SIZE: nat := 4
  /** `sizeof(size_t)`: the width of an io-vector length on the wire. */
  const SIZE_T_SIZE: nat := 8
  /** `rpc_msg::iov` holds 256 data pages and 3 pages of request overhead. */
  const IOV_SLOTS: nat := 256 + 3
  /** Each virtio-fs request takes at least this many descriptors. */
  const VIRTIO_FS_MIN_DESCS: nat := 3
  /** Capacity of each preallocated eRPC buffer, `(2 << 20) + 4096`. */
  const MSG_BUF_SIZE: nat := 2 * 1048576 + 4096
  /** 2^31: the first value a C `int` cannot hold. */
  const I32: nat := 0x8000_0000

  /** A FUSE request as the transport carries it: the bytes of each input io vector and the
      length of each output io vector. */
  datatype Request = Request(ins: seq<seq<Byte>>, outLens: seq<nat>)

  predicate InsEncodable(ins: seq<seq<Byte>>)
  {
    forall i :: 0 <= i < |ins| ==> |ins[i]| < U64
  }

  predicate LensEncodable(ls: seq<nat>)
  {
    forall i :: 0 <= i < |ls| ==> ls[i] < U64
  }

  /** What the sender can write: both counts fit an `int`, every length a `size_t`. */
  predicate Encodable(r: Request)
  {
    |r.ins| < I32 && |r.outLens| < I32 && InsEncodable(r.ins) && LensEncodable(r.outLens)
  }

  /** What the host's iovec table has room for. */
  predicate Fits(r: Request)
  {
    |r.ins| + |r.outLens| <= IOV_SLOTS
  }

  /** A non-negative `int` in host byte order. */
  function IntBytes(n: nat): (r: seq<Byte>)
    requires n < I32
    ensures |r| == INT_SIZE
  {
    Pow256Widths();
    LeBytes(n, INT_SIZE)
  }

  /** A `size_t` in host byte order. */
  function SizeBytes(n: nat): (r: seq<Byte>)
    requires n < U64
    ensures |r| == SIZE_T_SIZE
  {
    Pow256Widths();
    LeBytes(n, SIZE_T_SIZE)
  }

  /** Each input io vector as its `size_t` length followed by its bytes. */
  function EncodeIns(ins: seq<seq<Byte>>): seq<Byte>
    requires InsEncodable(ins)
  {
    if ins == [] then [] else SizeBytes(|ins[0]|) + ins[0] + EncodeIns(ins[1..])
  }

  /** Each output io vector as its `size_t` length alone. */
  function EncodeLens(ls: seq<nat>): seq<Byte>
    requires LensEncodable(ls)
  {
    if ls == [] then [] else SizeBytes(ls[0]) + EncodeLens(ls[1..])
  }

  /** The request message: `in_iovcnt`, the inputs, `out_iovcnt`, the output lengths. */
  function Encode(r: Request): seq<Byte>
    requires Encodable(r)
  {
    IntBytes(|r.ins|) + EncodeIns(r.ins) + IntBytes(|r.outLens|) + EncodeLens(r.outLens)
  }

  lemma {:induction false} EncodeInsConcat(a: seq<seq<Byte>>, b: seq<seq<Byte>>)
    requires InsEncodable(a) && InsEncodable(b)
    ensures InsEncodable(a + b) && EncodeIns(a + b) == EncodeIns(a) + EncodeIns(b)
    decreases |a|
  {
    assert InsEncodable(a + b) by {
      forall i | 0 <= i < |a + b| ensures |(a + b)[i]| < U64 {
        if i < |a| { assert (a + b)[i] == a[i]; } else { assert (a + b)[i] == b[i - |a|]; }
      }
    }
    if a == [] {
      assert a + b == b;
    } else {
      var tl := a[1..];
      assert InsEncodable(tl) by {
        forall i | 0 <= i < |tl| ensures |tl[i]| < U64 { assert tl[i] == a[i + 1]; }
      }
      assert (a + b)[0] == a[0] && (a + b)[1..] == tl + b;
      EncodeInsConcat(tl, b);
      assert EncodeIns(a + b) == SizeBytes(|a[0]|) + a[0] + EncodeIns(tl + b);
    }
  }

  lemma {:induction false} EncodeLensConcat(a: seq<nat>, b: seq<nat>)
    requires LensEncodable(a) && LensEncodable(b)
    ensures LensEncodable(a + b) && EncodeLens(a + b) == EncodeLens(a) + EncodeLens(b)
    decreases |a|
  {
    assert LensEncodable(a + b) by {
      forall i | 0 <= i < |a + b| ensures (a + b)[i] < U64 {
        if i < |a| { assert (a + b)[i] == a[i]; } else { assert (a + b)[i] == b[i - |a|]; }
      }
    }
    if a == [] {
      assert a + b == b;
    } else {
      var tl := a[1..];
      assert LensEncodable(tl) by {
        forall i | 0 <= i < |tl| ensures tl[i] < U64 { assert tl[i] == a[i + 1]; }
      }
      assert (a + b)[0] == a[0] && (a + b)[1..] == tl + b;
      EncodeLensConcat(tl, b);
      assert EncodeLens(a + b) == SizeBytes(a[0]) + EncodeLens(tl + b);
    }
  }

  /** The signed `int` stored at `p`. */
  function IntAt(b: seq<Byte>, p: nat): int
    requires p + INT_SIZE <= |b|
  {
    var v := LeValue(b[p..p + INT_SIZE]);
    if v < I32 then v else v - U32
  }

  /** The `size_t` stored at `p`. */
  function SizeAt(b: seq<Byte>, p: nat): nat
    requires p + SIZE_T_SIZE <= |b|
  {
    LeValue(b[p..p + SIZE_T_SIZE])
  }

  /** Puts `xs` in front of the items of a partial read, keeping its end position. */
  function Prepend<T>(xs: seq<T>, o: Option<(seq<T>, nat)>): Option<(seq<T>, nat)>
  {
    match o
    case None => None
    case Some(t) => Some((xs + t.0, t.1))
  }

  lemma PrependNothing<T>(o: Option<(seq<T>, nat)>)
    ensures Prepend([], o) == o
  {
    if o.Some? {
      assert [] + o.value.0 == o.value.0;
    }
  }

  lemma PrependTwice<T>(xs: seq<T>, ys: seq<T>, o: Option<(seq<T>, nat)>)
    ensures Prepend(xs, Prepend(ys, o)) == Prepend(xs + ys, o)
  {
    if o.Some? {
      assert xs + (ys + o.value.0) == xs + ys + o.value.0;
    }
  }

  /** Appending a length moves no earlier offset and puts the new one after all the others. */
  lemma SumsKept(ls: seq<nat>, x: nat)
    ensures Sum((ls + [x])[..|ls|]) == Sum(ls) && Sum(ls + [x]) == Sum(ls) + x
    ensures forall k :: 0 <= k <= |ls| ==> Sum((ls + [x])[..k]) == Sum(ls[..k])
  {
    forall k | 0 <= k <= |ls| ensures Sum((ls + [x])[..k]) == Sum(ls[..k]) {
      assert (ls + [x])[..k] == ls[..k];
    }
    assert ls[..|ls|] == ls;
    SumAppend(ls, x);
  }

  /** `n` input io vectors read from position `p`, and the position after them; `None` when a
      length or the bytes it announces run past the end of the message. */
  function InsFrom(b: seq<Byte>, p: nat, n: nat): Option<(seq<seq<Byte>>, nat)>
    decreases n
  {
    if n == 0 then Some(([], p))
    else if p + SIZE_T_SIZE > |b| then None
    else
      var q := p + SIZE_T_SIZE + SizeAt(b, p);
      if q > |b| then None
      else Prepend([b[p + SIZE_T_SIZE..q]], InsFrom(b, q, n - 1))
  }

  /** `n` output lengths read from position `p`, and the position after them. */
  function LensFrom(b: seq<Byte>, p: nat, n: nat): Option<(seq<nat>, nat)>
    decreases n
  {
    if n == 0 then Some(([], p))
    else if p + SIZE_T_SIZE > |b| then None
    else Prepend([SizeAt(b, p)], LensFrom(b, p + SIZE_T_SIZE, n - 1))
  }

  /** The request a message carries, as the host reads it; `None` where the host's reading would
      leave the message or the iovec table (a negative count, a count past the table, a length
      past the end). */
  function Decode(b: seq<Byte>): Option<Request>
  {
    if |b| < INT_SIZE then None
    else
      var n := IntAt(b, 0);
      if n < 0 || n > IOV_SLOTS then None
      else match InsFrom(b, INT_SIZE, n)
        case None => None
        case Some(t) => DecodeOuts(b, n, t.0, t.1)
  }

  /** The rest of `Decode` once `n` inputs `ins` have been read up to position `p`. */
  function DecodeOuts(b: seq<Byte>, n: nat, ins: seq<seq<Byte>>, p: nat): Option<Request>
  {
    if p + INT_SIZE > |b| then None
    else
      var m := IntAt(b, p);
      if m < 0 || n + m > IOV_SLOTS then None
      else match LensFrom(b, p + INT_SIZE, m)
        case None => None
        case Some(u) => Some(Request(ins, u.0))
  }

  /** A window of `b` holding `x + y` holds `x` and then `y`. */
  lemma Window(b: seq<Byte>, p: nat, x: seq<Byte>, y: seq<Byte>)
    requires p + |x| + |y| <= |b| && b[p..p + |x| + |y|] == x + y
    ensures b[p..p + |x|] == x && b[p + |x|..p + |x| + |y|] == y
  {
    assert b[p..p + |x|] == b[p..p + |x| + |y|][..|x|];
    assert b[p + |x|..p + |x| + |y|] == b[p..p + |x| + |y|][|x|..];
  }

  /** A buffer that starts with `x + y + z + w` holds each of the four where it belongs. */
  lemma Split4(b: seq<Byte>, x: seq<Byte>, y: seq<Byte>, z: seq<Byte>, w: seq<Byte>)
    requires |x| + |y| + |z| + |w| <= |b| && b[..|x| + |y| + |z| + |w|] == x + y + z + w
    ensures b[..|x|] == x && b[|x|..|x| + |y|] == y
    ensures b[|x| + |y|..|x| + |y| + |z|] == z && b[|x| + |y| + |z|..|x| + |y| + |z| + |w|] == w
  {
    var e := b[..|x| + |y| + |z| + |w|];
    assert b[..|x|] == e[..|x|];
    assert b[|x|..|x| + |y|] == e[|x|..|x| + |y|];
    assert b[|x| + |y|..|x| + |y| + |z|] == e[|x| + |y|..|x| + |y| + |z|];
    assert b[|x| + |y| + |z|..|x| + |y| + |z| + |w|] == e[|x| + |y| + |z|..];
  }

  lemma IntAtBytes(b: seq<Byte>, p: nat, n: nat)
    requires n < I32 && p + INT_SIZE <= |b| && b[p..p + INT_SIZE] == IntBytes(n)
    ensures IntAt(b, p) == n
  {
    Pow256Widths();
    LeRoundTrip(n, INT_SIZE);
  }

  lemma SizeAtBytes(b: seq<Byte>, p: nat, n: nat)
    requires n < U64 && p + SIZE_T_SIZE <= |b| && b[p..p + SIZE_T_SIZE] == SizeBytes(n)
    ensures SizeAt(b, p) == n
  {
    Pow256Widths();
    LeRoundTrip(n, SIZE_T_SIZE);
  }

  /** Encoded inputs sitting at `p` are read back as themselves. */
  lemma {:induction false} InsFromEncoded(b: seq<Byte>, p: nat, ins: seq<seq<Byte>>)
    requires InsEncodable(ins)
    requires p + |EncodeIns(ins)| <= |b| && b[p..p + |EncodeIns(ins)|] == EncodeIns(ins)
    ensures InsFrom(b, p, |ins|) == Some((ins, p + |EncodeIns(ins)|))
    decreases |ins|
  {
    if ins != [] {
      var x, tl := ins[0], ins[1..];
      var q := p + SIZE_T_SIZE + |x|;
      assert InsEncodable(tl) by {
        forall i | 0 <= i < |tl| ensures |tl[i]| < U64 { assert tl[i] == ins[i + 1]; }
      }
      InputAt(b, p, x, EncodeIns(tl));
      InsFromEncoded(b, q, tl);
      assert InsFrom(b, p, |ins|) == Prepend([x], InsFrom(b, q, |tl|));
      assert [x] + tl == ins;
    }
  }

  /** One encoded input at `p`: its length, then its bytes, then whatever follows. */
  lemma InputAt(b: seq<Byte>, p: nat, x: seq<Byte>, rest: seq<Byte>)
    requires |x| < U64
    requires p + SIZE_T_SIZE + |x| + |rest| <= |b|
    requires b[p..p + SIZE_T_SIZE + |x| + |rest|] == SizeBytes(|x|) + x + rest
    ensures SizeAt(b, p) == |x| && b[p + SIZE_T_SIZE..p + SIZE_T_SIZE + |x|] == x
    ensures b[p + SIZE_T_SIZE + |x|..p + SIZE_T_SIZE + |x| + |rest|] == rest
  {
    Split4(b[p..], SizeBytes(|x|), x, rest, []);
    assert b[p..][..SIZE_T_SIZE] == b[p..p + SIZE_T_SIZE];
    assert b[p..][SIZE_T_SIZE..SIZE_T_SIZE + |x|] == b[p + SIZE_T_SIZE..p + SIZE_T_SIZE + |x|];
    assert b[p..][SIZE_T_SIZE + |x|..SIZE_T_SIZE + |x| + |rest|] ==
      b[p + SIZE_T_SIZE + |x|..p + SIZE_T_SIZE + |x| + |rest|];
    SizeAtBytes(b, p, |x|);
  }

  lemma {:induction false} LensFromEncoded(b: seq<Byte>, p: nat, ls: seq<nat>)
    requires LensEncodable(ls)
    requires p + |EncodeLens(ls)| <= |b| && b[p..p + |EncodeLens(ls)|] == EncodeLens(ls)
    ensures LensFrom(b, p, |ls|) == Some((ls, p + |EncodeLens(ls)|))
    decreases |ls|
  {
    if ls != [] {
      Window(b, p, SizeBytes(ls[0]), EncodeLens(ls[1..]));
      SizeAtBytes(b, p, ls[0]);
      LensFromEncoded(b, p + SIZE_T_SIZE, ls[1..]);
      assert [ls[0]] + ls[1..] == ls;
    }
  }

  /** Whatever the host reads as inputs is the encoding of those inputs, in place. */
  lemma {:induction false} InsFromIsEncoded(b: seq<Byte>, p: nat, n: nat)
    requires p <= |b| && InsFrom(b, p, n).Some?
    ensures var t := InsFrom(b, p, n).value;
      |t.0| == n && InsEncodable(t.0) && t.1 == p + |EncodeIns(t.0)| && t.1 <= |b| &&
      b[p..t.1] == EncodeIns(t.0)
    decreases n
  {
    if n > 0 {
      var len := SizeAt(b, p);
      var q := p + SIZE_T_SIZE + len;
      InsFromIsEncoded(b, q, n - 1);
      var rest := InsFrom(b, q, n - 1).value;
      var x := b[p + SIZE_T_SIZE..q];
      SizeHeader(b, p);
      EncodeInsCons(x, rest.0);
      assert b[p..rest.1] == b[p..p + SIZE_T_SIZE] + x + b[q..rest.1];
    }
  }

  /** The eight bytes at `p` are the encoding of the `size_t` they hold. */
  lemma SizeHeader(b: seq<Byte>, p: nat)
    requires p + SIZE_T_SIZE <= |b|
    ensures SizeAt(b, p) < U64 && b[p..p + SIZE_T_SIZE] == SizeBytes(SizeAt(b, p))
  {
    LeBytesOfValue(b[p..p + SIZE_T_SIZE]);
    Pow256Widths();
  }

  lemma EncodeInsCons(x: seq<Byte>, ins: seq<seq<Byte>>)
    requires |x| < U64 && InsEncodable(ins)
    ensures InsEncodable([x] + ins) && EncodeIns([x] + ins) == SizeBytes(|x|) + x + EncodeIns(ins)
  {
    var xs := [x] + ins;
    assert xs[0] == x && xs[1..] == ins;
    assert InsEncodable(xs) by {
      forall i | 0 <= i < |xs| ensures |xs[i]| < U64 {
        if i > 0 { assert xs[i] == ins[i - 1]; }
      }
    }
  }

  lemma EncodeLensCons(len: nat, ls: seq<nat>)
    requires len < U64 && LensEncodable(ls)
    ensures LensEncodable([len] + ls) && EncodeLens([len] + ls) == SizeBytes(len) + EncodeLens(ls)
  {
    var xs := [len] + ls;
    assert xs[0] == len && xs[1..] == ls;
    assert LensEncodable(xs) by {
      forall i | 0 <= i < |xs| ensures xs[i] < U64 {
        if i > 0 { assert xs[i] == ls[i - 1]; }
      }
    }
  }

  lemma {:induction false} LensFromIsEncoded(b: seq<Byte>, p: nat, n: nat)
    requires p <= |b| && LensFrom(b, p, n).Some?
    ensures var t := LensFrom(b, p, n).value;
      |t.0| == n && LensEncodable(t.0) && t.1 == p + |EncodeLens(t.0)| && t.1 <= |b| &&
      b[p..t.1] == EncodeLens(t.0)
    decreases n
  {
    if n > 0 {
      LensFromIsEncoded(b, p + SIZE_T_SIZE, n - 1);
      var rest := LensFrom(b, p + SIZE_T_SIZE, n - 1).value;
      SizeHeader(b, p);
      EncodeLensCons(SizeAt(b, p), rest.0);
      assert b[p..rest.1] == b[p..p + SIZE_T_SIZE] + b[p + SIZE_T_SIZE..rest.1];
    }
  }

  /** The input count of an encoded request, read where the host looks for it. */
  lemma EncodedCount(b: seq<Byte>, r: Request)
    requires Encodable(r) && |Encode(r)| <= |b| && b[..|Encode(r)|] == Encode(r)
    ensures |b| >= INT_SIZE && IntAt(b, 0) == |r.ins|
  {
    Split4(b, IntBytes(|r.ins|), EncodeIns(r.ins), IntBytes(|r.outLens|), EncodeLens(r.outLens));
    IntAtBytes(b, 0, |r.ins|);
  }

  /** The inputs of an encoded request follow its count. */
  lemma EncodedIns(b: seq<Byte>, r: Request)
    requires Encodable(r) && |Encode(r)| <= |b| && b[..|Encode(r)|] == Encode(r)
    ensures InsFrom(b, INT_SIZE, |r.ins|) == Some((r.ins, INT_SIZE + |EncodeIns(r.ins)|))
  {
    EncodedInsBytes(b, r);
    InsFromEncoded(b, INT_SIZE, r.ins);
  }

  /** The bytes of the inputs of an encoded request lie right after its count. */
  lemma EncodedInsBytes(b: seq<Byte>, r: Request)
    requires Encodable(r) && |Encode(r)| <= |b| && b[..|Encode(r)|] == Encode(r)
    ensures INT_SIZE + |EncodeIns(r.ins)| <= |b| && b[INT_SIZE..INT_SIZE + |EncodeIns(r.ins)|] == EncodeIns(r.ins)
  {
    Split4(b, IntBytes(|r.ins|), EncodeIns(r.ins), IntBytes(|r.outLens|), EncodeLens(r.outLens));
  }

  /** The output count and lengths of an encoded request follow its inputs. */
  lemma EncodedTail(b: seq<Byte>, r: Request)
    requires Encodable(r) && |Encode(r)| <= |b| && b[..|Encode(r)|] == Encode(r)
    ensures var p := INT_SIZE + |EncodeIns(r.ins)|;
      p + INT_SIZE + |EncodeLens(r.outLens)| <= |b| &&
      b[p..p + INT_SIZE] == IntBytes(|r.outLens|) &&
      b[p + INT_SIZE..p + INT_SIZE + |EncodeLens(r.outLens)|] == EncodeLens(r.outLens)
  {
    Split4(b, IntBytes(|r.ins|), EncodeIns(r.ins), IntBytes(|r.outLens|), EncodeLens(r.outLens));
  }

  /** A buffer that starts with an encoded request reads back as that request, when it fits the
      table, whatever follows it. */
  lemma DecodeEncoded(b: seq<Byte>, r: Request)
    requires Encodable(r) && |Encode(r)| <= |b| && b[..|Encode(r)|] == Encode(r)
    ensures Decode(b) == if Fits(r) then Some(r) else None
  {
    EncodedCount(b, r);
    EncodedIns(b, r);
    EncodedTail(b, r);
    var n, p := |r.ins|, INT_SIZE + |EncodeIns(r.ins)|;
    if n <= IOV_SLOTS {
      assert Decode(b) == DecodeOuts(b, n, r.ins, p);
      IntAtBytes(b, p, |r.outLens|);
      if Fits(r) {
        LensFromEncoded(b, p + INT_SIZE, r.outLens);
        assert DecodeOuts(b, n, r.ins, p) == Some(Request(r.ins, r.outLens));
      }
    }
  }

  /** The host reads back every request that fits its table, whatever follows it in the buffer. */
  lemma DecodeEncode(r: Request, rest: seq<Byte>)
    requires Encodable(r)
    ensures Decode(Encode(r) + rest) == if Fits(r) then Some(r) else None
  {
    assert (Encode(r) + rest)[..|Encode(r)|] == Encode(r);
    DecodeEncoded(Encode(r) + rest, r);
  }

  /** A non-negative `int` on the wire is the encoding of its value. */
  lemma IntHeader(b: seq<Byte>, p: nat)
    requires p + INT_SIZE <= |b| && IntAt(b, p) >= 0
    ensures IntAt(b, p) < I32 && b[p..p + INT_SIZE] == IntBytes(IntAt(b, p))
  {
    LeBytesOfValue(b[p..p + INT_SIZE]);
    Pow256Widths();
  }

  /** Four pieces lying one after another at the start of `b` make up its prefix. */
  lemma Join4(b: seq<Byte>, x: seq<Byte>, y: seq<Byte>, z: seq<Byte>, w: seq<Byte>)
    requires |x| + |y| + |z| + |w| <= |b|
    requires b[..|x|] == x && b[|x|..|x| + |y|] == y
    requires b[|x| + |y|..|x| + |y| + |z|] == z && b[|x| + |y| + |z|..|x| + |y| + |z| + |w|] == w
    ensures b[..|x| + |y| + |z| + |w|] == x + y + z + w
  {
    var k := |x| + |y| + |z| + |w|;
    assert b[..k] == b[..|x|] + b[|x|..|x| + |y|] + b[|x| + |y|..|x| + |y| + |z|] + b[|x| + |y| + |z|..k];
  }

  /** ... and a message it accepts is exactly such a request followed by anything. */
  lemma DecodeIsEncoded(b: seq<Byte>)
    requires Decode(b).Some?
    ensures var r := Decode(b).value;
      Encodable(r) && Fits(r) && |Encode(r)| <= |b| && b[..|Encode(r)|] == Encode(r)
  {
    var n := IntAt(b, 0);
    var t := InsFrom(b, INT_SIZE, n).value;
    var m := IntAt(b, t.1);
    var u := LensFrom(b, t.1 + INT_SIZE, m).value;
    assert Decode(b).value == Request(t.0, u.0);
    InsFromIsEncoded(b, INT_SIZE, n);
    LensFromIsEncoded(b, t.1 + INT_SIZE, m);
    IntHeader(b, 0);
    IntHeader(b, t.1);
    Join4(b, IntBytes(n), EncodeIns(t.0), IntBytes(m), EncodeLens(u.0));
  }

  /** Together: the host accepts `b` as `r` exactly when `b` starts with the encoding of `r`. */
  lemma DecodeIffEncoded(b: seq<Byte>, r: Request)
    ensures Decode(b) == Some(r) <==>
      Encodable(r) && Fits(r) && |Encode(r)| <= |b| && b[..|Encode(r)|] == Encode(r)
  {
    if Decode(b) == Some(r) {
      DecodeIsEncoded(b);
    }
    if Encodable(r) && Fits(r) && |Encode(r)| <= |b| && b[..|Encode(r)|] == Encode(r) {
      DecodeEncoded(b, r);
    }
  }

  /** How many `msg->iov` entries the walk of `req_handler` as written stores: one per input and
      one per output, with no bound on the table. `None` where the walk reads past the message,
      which includes a negative count: compared with the `size_t` index it is a count near 2^64;
      and where the `int` sum of the two counts overflows. */
  function StoresAsWritten(b: seq<Byte>): Option<nat>
  {
    if |b| < INT_SIZE then None
    else
      var n := IntAt(b, 0);
      if n < 0 then None
      else match InsFrom(b, INT_SIZE, n)
        case None => None
        case Some(t) =>
          if t.1 + INT_SIZE > |b| then None
          else
            var m := IntAt(b, t.1);
            if n + m < 0 || n + m >= I32 then None
            else if m <= 0 then Some(n)
            else match LensFrom(b, t.1 + INT_SIZE, m)
              case None => None
              case Some(_) => Some(n + m)
  }

  /** The walk reads a negative output count whose sum with the input count is not negative: the
      second loop then stores nothing, while `Decode` refuses the message. */
  predicate NegativeOutCount(b: seq<Byte>)
  {
    |b| >= INT_SIZE && IntAt(b, 0) >= 0 && InsFrom(b, INT_SIZE, IntAt(b, 0)).Some? &&
    var p := InsFrom(b, INT_SIZE, IntAt(b, 0)).value.1;
    p + INT_SIZE <= |b| && IntAt(b, p) < 0
  }

  /** On a message `Decode` accepts, the walk as written stores one entry per iovec, all inside
      the table. */
  lemma DecodeStoresInTable(b: seq<Byte>)
    requires Decode(b).Some?
    ensures var r := Decode(b).value;
      StoresAsWritten(b) == Some(|r.ins| + |r.outLens|) && |r.ins| + |r.outLens| <= IOV_SLOTS
  {
    var n := IntAt(b, 0);
    var t := InsFrom(b, INT_SIZE, n).value;
    var m := IntAt(b, t.1);
    var u := LensFrom(b, t.1 + INT_SIZE, m).value;
    assert Decode(b).value == Request(t.0, u.0);
    InsFromIsEncoded(b, INT_SIZE, n);
    LensFromIsEncoded(b, t.1 + INT_SIZE, m);
  }

  /** `Decode` refuses a message only where the walk as written reads past the message, stores
      past the table, or meets a negative output count. */
  lemma DecodeRefusesOverruns(b: seq<Byte>)
    requires Decode(b).None?
    ensures StoresAsWritten(b).None? || StoresAsWritten(b).value > IOV_SLOTS || NegativeOutCount(b)
  {
    if |b| >= INT_SIZE && 0 <= IntAt(b, 0) <= IOV_SLOTS && InsFrom(b, INT_SIZE, IntAt(b, 0)).Some? {
      var n := IntAt(b, 0);
      var t := InsFrom(b, INT_SIZE, n).value;
      assert DecodeOuts(b, n, t.0, t.1).None?;
      if t.1 + INT_SIZE <= |b| && IntAt(b, t.1) == 0 {
        assert LensFrom(b, t.1 + INT_SIZE, 0).Some?;
      }
    }
  }

  /** On a buffer that starts with an encoded request, the walk as written stores an entry for
      each of its iovecs, unless the `int` sum of its counts overflows. */
  lemma StoresEncoded(b: seq<Byte>, r: Request)
    requires Encodable(r) && |Encode(r)| <= |b| && b[..|Encode(r)|] == Encode(r)
    ensures StoresAsWritten(b) ==
      if |r.ins| + |r.outLens| < I32 then Some(|r.ins| + |r.outLens|) else None
  {
    EncodedCount(b, r);
    EncodedIns(b, r);
    var p := INT_SIZE + |EncodeIns(r.ins)|;
    EncodedOutCount(b, r);
    if |r.outLens| > 0 {
      EncodedTail(b, r);
      LensFromEncoded(b, p + INT_SIZE, r.outLens);
    }
  }

  /** The output count of an encoded request, read where the walk looks for it. */
  lemma EncodedOutCount(b: seq<Byte>, r: Request)
    requires Encodable(r) && |Encode(r)| <= |b| && b[..|Encode(r)|] == Encode(r)
    ensures var p := INT_SIZE + |EncodeIns(r.ins)|; p + INT_SIZE <= |b| && IntAt(b, p) == |r.outLens|
  {
    EncodedTail(b, r);
    IntAtBytes(b, INT_SIZE + |EncodeIns(r.ins)|, |r.outLens|);
  }

  /** An encodable request that does not fit the table: the walk as written stores an entry for
      each of its iovecs, past the end of the table, unless the `int` sum of its counts
      overflows; `Decode` refuses it. */
  lemma OversizedRequestOverrunsAsWritten(r: Request, rest: seq<Byte>)
    requires Encodable(r) && !Fits(r)
    ensures StoresAsWritten(Encode(r) + rest) ==
      if |r.ins| + |r.outLens| < I32 then Some(|r.ins| + |r.outLens|) else None
    ensures Decode(Encode(r) + rest) == None
  {
    var b := Encode(r) + rest;
    assert b[..|Encode(r)|] == Encode(r);
    StoresEncoded(b, r);
    DecodeEncoded(b, r);
  }

  /** A request of 260 empty input iovecs: the walk as written stores `iov[259]`, one entry past
      the table of `IOV_SLOTS` entries. */
  lemma TwoHundredSixtyInputsOverrun()
    ensures var r := Request(seq(260, _ => []), []);
      StoresAsWritten(Encode(r)) == Some(IOV_SLOTS + 1) && Decode(Encode(r)) == None
  {
    var r := Request(seq(260, _ => []), []);
    assert Encode(r) + [] == Encode(r);
    OversizedRequestOverrunsAsWritten(r, []);
  }

  /** Which buffer an iovec points into; `NoBuf` is the zeroed slot `iov{{0}}` starts with. */
  datatype Buf = NoBuf | ReqBuf | RespBuf

  /** An iovec as an offset and a length within one of the message's two buffers. */
  datatype Iov = Iov(buf: Buf, base: nat, len: nat)

  /** Input `i` of the table views exactly bytes `x` of the request buffer `b`. */
  predicate Views(v: Iov, b: seq<Byte>, x: seq<Byte>)
  {
    v.buf == ReqBuf && v.base + v.len <= |b| && b[v.base..v.base + v.len] == x
  }

  /** The first `|ins|` slots of table `a` view the inputs `ins` in the request buffer `b`. */
  predicate InsViewed(a: seq<Iov>, b: seq<Byte>, ins: seq<seq<Byte>>)
  {
    |ins| <= |a| && forall k :: 0 <= k < |ins| ==> Views(a[k], b, ins[k])
  }

  /** From slot `n` on, table `a` lays the outputs `lens` end to end from the start of the
      response buffer. */
  predicate OutsLaid(a: seq<Iov>, n: nat, lens: seq<nat>)
  {
    n + |lens| <= |a| && forall k :: 0 <= k < |lens| ==> a[n + k] == Iov(RespBuf, Sum(lens[..k]), lens[k])
  }

  lemma InsStep(a: seq<Iov>, b: seq<Byte>, ins: seq<seq<Byte>>, v: Iov, x: seq<Byte>)
    requires InsViewed(a, b, ins) && |ins| < |a| && Views(v, b, x)
    ensures InsViewed(a[|ins| := v], b, ins + [x])
  {
  }

  lemma OutsStep(a: seq<Iov>, n: nat, lens: seq<nat>, len: nat)
    requires OutsLaid(a, n, lens) && n + |lens| < |a|
    ensures OutsLaid(a[n + |lens| := Iov(RespBuf, Sum(lens), len)], n, lens + [len])
    ensures Sum(lens + [len]) == Sum(lens) + len
  {
    var a', lens' := a[n + |lens| := Iov(RespBuf, Sum(lens), len)], lens + [len];
    SumsKept(lens, len);
    forall k | 0 <= k < |lens'| ensures a'[n + k] == Iov(RespBuf, Sum(lens'[..k]), lens'[k]) {
      if k < |lens| {
        assert a'[n + k] == a[n + k] && lens'[k] == lens[k];
      } else {
        assert lens'[..k] == lens;
      }
    }
  }

  lemma InsKept(a: seq<Iov>, a': seq<Iov>, b: seq<Byte>, ins: seq<seq<Byte>>)
    requires InsViewed(a, b, ins) && |a'| == |a| && forall k :: 0 <= k < |ins| ==> a'[k] == a[k]
    ensures InsViewed(a', b, ins)
  {
  }

  /** One more output length read at `p` extends the lengths read so far. */
  lemma LensStep(b: seq<Byte>, p0: nat, p: nat, k: nat, lens: seq<nat>)
    requires k > 0 && p + SIZE_T_SIZE <= |b| && LensFrom(b, p0, |lens| + k) == Prepend(lens, LensFrom(b, p, k))
    ensures LensFrom(b, p0, |lens| + k) ==
      Prepend(lens + [SizeAt(b, p)], LensFrom(b, p + SIZE_T_SIZE, k - 1))
  {
    PrependTwice(lens, [SizeAt(b, p)], LensFrom(b, p + SIZE_T_SIZE, k - 1));
  }

  /** A length that would run past the end of the message leaves the whole read undone. */
  lemma LensCut(b: seq<Byte>, p0: nat, p: nat, k: nat, lens: seq<nat>)
    requires k > 0 && p + SIZE_T_SIZE > |b| && LensFrom(b, p0, |lens| + k) == Prepend(lens, LensFrom(b, p, k))
    ensures LensFrom(b, p0, |lens| + k).None?
  {
  }

  /** A pooled eRPC message: its request and response buffers and the iovec table. */
  class RpcMsg {
    var req: seq<Byte>
    var resp: seq<Byte>
    /** The eRPC request handle being served, while the message is in use. */
    var reqh: nat
    const iov: array<Iov>
    var inIovcnt: int
    var outIovcnt: int

    /** `req0` and `resp0` are whatever the freshly allocated buffers hold. */
    constructor (req0: seq<Byte>, resp0: seq<Byte>)
      ensures req == req0 && resp == resp0 && reqh == 0 && inIovcnt == 0 && outIovcnt == 0
      ensures fresh(iov) && iov.Length == IOV_SLOTS
      ensures forall i :: 0 <= i < IOV_SLOTS ==> iov[i] == Iov(NoBuf, 0, 0)
    {
      req, resp, reqh := req0, resp0, 0;
      iov := new Iov[IOV_SLOTS](_ => Iov(NoBuf, 0, 0));
      inIovcnt, outIovcnt := 0, 0;
    }

    /** The table holds request `r` read from `b`: the inputs view their bytes in `b`, the outputs
        lie one after another from the start of the response buffer. */
    ghost predicate Loaded(b: seq<Byte>, r: Request)
      reads this, iov
    {
      inIovcnt == |r.ins| && outIovcnt == |r.outLens| &&
      InsViewed(iov[..], b, r.ins) && OutsLaid(iov[..], |r.ins|, r.outLens)
    }

    /** The length the FUSE reply declares: the `len` field of the `fuse_out_header` at the start
        of the first output iovec; `None` where that read or eRPC's resize would fail. */
    function ReplyLen(): Option<nat>
      reads this, iov
    {
      if !(0 <= inIovcnt < iov.Length) then None
      else
        var v := iov[inIovcnt];
        var b := if v.buf == ReqBuf then req else resp;
        if v.buf == NoBuf || v.base + 4 > |b| then None
        else
          var len := LeValue(b[v.base..v.base + 4]);
          if len > |resp| then None else Some(len)
    }

    /** The first loop of `req_handler`: each input iovec views its bytes in the message. */
    method LoadIns(b: seq<Byte>, n: nat) returns (ok: bool, ins: seq<seq<Byte>>, p: nat)
      requires iov.Length == IOV_SLOTS && n <= IOV_SLOTS && INT_SIZE <= |b|
      modifies iov
      ensures ok <==> InsFrom(b, INT_SIZE, n).Some?
      ensures ok ==> InsFrom(b, INT_SIZE, n) == Some((ins, p)) && |ins| == n && InsViewed(iov[..], b, ins)
    {
      p := INT_SIZE;
      var i: nat := 0;
      ins := [];
      PrependNothing(InsFrom(b, p, n));
      while i < n
        invariant i <= n && |ins| == i
        invariant InsFrom(b, INT_SIZE, n) == Prepend(ins, InsFrom(b, p, n - i))
        invariant InsViewed(iov[..], b, ins)
      {
        if p + SIZE_T_SIZE > |b| {
          return false, ins, p;
        }
        var len := SizeAt(b, p);
        var q := p + SIZE_T_SIZE + len;
        if q > |b| {
          return false, ins, p;
        }
        var x := b[p + SIZE_T_SIZE..q];
        ghost var a := iov[..];
        iov[i] := Iov(ReqBuf, p + SIZE_T_SIZE, len);
        assert iov[..] == a[i := Iov(ReqBuf, p + SIZE_T_SIZE, len)];
        InsStep(a, b, ins, iov[i], x);
        PrependTwice(ins, [x], InsFrom(b, q, n - i - 1));
        ins := ins + [x];
        p, i := q, i + 1;
      }
      assert ins + [] == ins;
      ok := true;
    }

    /** One iteration of the second loop: the next output iovec starts where the earlier ones end
        in the response buffer. */
    method LayOut(n: nat, lens: seq<nat>, off: nat, len: nat)
      requires OutsLaid(iov[..], n, lens) && n + |lens| < iov.Length && off == Sum(lens)
      modifies iov
      ensures OutsLaid(iov[..], n, lens + [len]) && off + len == Sum(lens + [len])
      ensures forall k :: 0 <= k < n ==> iov[k] == old(iov[k])
    {
      ghost var a := iov[..];
      iov[n + |lens|] := Iov(RespBuf, off, len);
      assert iov[..] == a[n + |lens| := Iov(RespBuf, off, len)];
      OutsStep(a, n, lens, len);
    }

    /** The second loop: the output iovecs lie one after another from the start of the response
        buffer, and the slots before them are left alone. */
    method LoadOuts(b: seq<Byte>, p0: nat, n: nat, m: nat) returns (ok: bool, lens: seq<nat>)
      requires iov.Length == IOV_SLOTS && n + m <= IOV_SLOTS
      modifies iov
      ensures ok <==> LensFrom(b, p0, m).Some?
      ensures ok ==> LensFrom(b, p0, m).value.0 == lens && |lens| == m && OutsLaid(iov[..], n, lens)
      ensures forall k :: 0 <= k < n ==> iov[k] == old(iov[k])
    {
      var p: nat := p0;
      var j: nat := 0;
      var off: nat := 0;
      lens := [];
      PrependNothing(LensFrom(b, p, m));
      while j < m
        invariant j <= m && |lens| == j && off == Sum(lens)
        invariant LensFrom(b, p0, m) == Prepend(lens, LensFrom(b, p, m - j))
        invariant forall k :: 0 <= k < n ==> iov[k] == old(iov[k])
        invariant OutsLaid(iov[..], n, lens)
      {
        if p + SIZE_T_SIZE > |b| {
          LensCut(b, p0, p, m - j, lens);
          return false, lens;
        }
        var len := SizeAt(b, p);
        LayOut(n, lens, off, len);
        LensStep(b, p0, p, m - j, lens);
        lens := lens + [len];
        p, j, off := p + SIZE_T_SIZE, j + 1, off + len;
      }
      ok := true;
    }

    /** The host half of `req_handler`: walk the message with a cursor and fill the table. */
    method LoadIovs(b: seq<Byte>) returns (ok: bool)
      requires iov.Length == IOV_SLOTS
      modifies this, iov
      ensures req == old(req) && resp == old(resp) && reqh == old(reqh)
      ensures ok <==> Decode(b).Some?
      ensures ok ==> Loaded(b, Decode(b).value)
    {
      if |b| < INT_SIZE {
        return false;
      }
      inIovcnt := IntAt(b, 0);
      if inIovcnt < 0 || inIovcnt > IOV_SLOTS {
        return false;
      }
      var n: nat := inIovcnt;
      var okIns, ins, p := LoadIns(b, n);
      if !okIns || p + INT_SIZE > |b| {
        return false;
      }
      outIovcnt := IntAt(b, p);
      if outIovcnt < 0 || n + outIovcnt > IOV_SLOTS {
        return false;
      }
      ghost var viewed := iov[..];
      var okOuts, lens := LoadOuts(b, p + INT_SIZE, n, outIovcnt);
      if !okOuts {
        return false;
      }
      InsKept(viewed, iov[..], b, ins);
      assert Decode(b) == Some(Request(ins, lens));
      return true;
    }
  }

  /** How one incoming request ended. */
  datatype Served =
    | PoolEmpty     // no free message: `avail.back()` on an empty vector
    | Malformed     // the table walk would leave the message or the table
    | Pending       // the handler returned EWOULDBLOCK and completes later
    | Replied       // completed at once and the response was enqueued
    | BadReply      // completed at once, but the reply header could not be read

  /** The host HAL: the pool of free messages, and the responses handed to eRPC. */
  class Hal {
    var avail: seq<RpcMsg>
    /** Enqueued responses in order: the request handle and the bytes sent back. */
    var sent: seq<(nat, seq<Byte>)>
    /** Messages released by `Destroy`, in the order it released them. */
    var freed: seq<RpcMsg>

    ghost predicate Valid()
      reads this
    {
      forall m :: m in avail ==> m.iov.Length == IOV_SLOTS
    }

    constructor ()
      ensures avail == [] && sent == [] && freed == []
    {
      avail, sent, freed := [], [], [];
    }

    /** `dpfs_hal_async_complete`: size the response to the reply header's length, enqueue it and
        return the message to the pool. The completion status is ignored. A reply whose header
        cannot be read (`ok` false) is not enqueued, but the message still returns to the pool. */
    method AsyncComplete(m: RpcMsg, status: bool) returns (ok: bool)
      requires Valid() && m.iov.Length == IOV_SLOTS
      modifies this
      ensures Valid() && freed == old(freed)
      ensures ok <==> m.ReplyLen().Some?
      ensures ok ==> sent == old(sent) + [(m.reqh, m.resp[..m.ReplyLen().value])]
      ensures !ok ==> sent == old(sent)
      ensures avail == old(avail) + [m]
    {
      var len := m.ReplyLen();
      ok := len.Some?;
      if ok {
        sent := sent + [(m.reqh, m.resp[..len.value])];
      }
      avail := avail + [m];
    }

    /** Everything `req_handler` does once the table is loaded: run the file-system handler,
        whose effect is given as the bytes `written` it leaves in the response buffer and its
        return value `ret`, and complete at once unless it returned EWOULDBLOCK. */
    method Serve(m: RpcMsg, b: seq<Byte>, ret: int, written: seq<Byte>) returns (o: Served)
      requires Valid() && m.iov.Length == IOV_SLOTS
      modifies this, m, m.iov
      ensures Valid() && freed == old(freed) && m.req == old(m.req) && m.reqh == old(m.reqh)
      ensures o == Malformed <==> Decode(b).None?
      ensures o != Malformed ==> Decode(b).Some? && m.Loaded(b, Decode(b).value) && m.resp == written
      ensures o == Pending <==> Decode(b).Some? && ret == EWOULDBLOCK
      ensures o == Replied ==> (m.ReplyLen().Some? &&
        sent == old(sent) + [(m.reqh, written[..m.ReplyLen().value])])
      ensures o != Replied ==> sent == old(sent)
      ensures o == Replied || o == BadReply ==> avail == old(avail) + [m]
      ensures o == Malformed || o == Pending ==> avail == old(avail)
      ensures o == Replied || o == BadReply <==>
        Decode(b).Some? && ret != EWOULDBLOCK
    {
      var ok := m.LoadIovs(b);
      if !ok {
        return Malformed;
      }
      m.resp := written;
      if ret == EWOULDBLOCK {
        return Pending;
      }
      var done := AsyncComplete(m, ret == 0);
      o := if done then Replied else BadReply;
    }

    /** `req_handler` as written: it takes the last free message and walks that message's own
        request buffer, which nothing has filled, instead of the request eRPC delivered. */
    method ReqHandlerAsWritten(reqh: nat, request: seq<Byte>, ret: int, written: seq<Byte>)
      returns (o: Served, m: RpcMsg?)
      requires Valid()
      modifies this, avail, set x | x in avail :: x.iov
      ensures Valid() && freed == old(freed)
      ensures o == PoolEmpty <==> old(avail) == []
      ensures o == PoolEmpty ==> m == null && sent == old(sent) && avail == old(avail)
      ensures o != PoolEmpty ==> m == old(avail[|avail| - 1]) && m.reqh == reqh && m.req == old(m.req)
      ensures o != PoolEmpty ==>
        (o == Malformed <==> Decode(old(m.req)).None?) &&
        (o != Malformed ==> m.Loaded(old(m.req), Decode(old(m.req)).value))
      ensures o == Malformed || o == Pending ==> avail == old(avail[..|avail| - 1]) && sent == old(sent)
      ensures o == BadReply ==> avail == old(avail) && sent == old(sent)
      ensures o == Replied ==> (m.ReplyLen().Some? && m.resp == written &&
        avail == old(avail) && sent == old(sent) + [(reqh, written[..m.ReplyLen().value])])
    {
      if |avail| == 0 {
        return PoolEmpty, null;
      }
      m := avail[|avail| - 1];
      avail := avail[..|avail| - 1];
      m.reqh := reqh;
      o := Serve(m, m.req, ret, written);
    }

    /** `req_handler` walking the request it was handed: the table views that request's bytes. */
    method ReqHandler(reqh: nat, request: seq<Byte>, ret: int, written: seq<Byte>)
      returns (o: Served, m: RpcMsg?)
      requires Valid()
      modifies this, avail, set x | x in avail :: x.iov
      ensures Valid() && freed == old(freed)
      ensures o == PoolEmpty <==> old(avail) == []
      ensures o == PoolEmpty ==> m == null && sent == old(sent) && avail == old(avail)
      ensures o != PoolEmpty ==> m == old(avail[|avail| - 1]) && m.reqh == reqh && m.req == request
      ensures o != PoolEmpty ==>
        (o == Malformed <==> Decode(request).None?) &&
        (o != Malformed ==> m.Loaded(request, Decode(request).value) && m.resp == written)
      ensures o == Malformed || o == Pending ==> avail == old(avail[..|avail| - 1]) && sent == old(sent)
      ensures o == BadReply ==> avail == old(avail) && sent == old(sent)
      ensures o == Replied ==> (m.ReplyLen().Some? && m.resp == written &&
        avail == old(avail) && sent == old(sent) + [(reqh, written[..m.ReplyLen().value])])
    {
      if |avail| == 0 {
        return PoolEmpty, null;
      }
      m := avail[|avail| - 1];
      avail := avail[..|avail| - 1];
      m.reqh, m.req := reqh, request;
      o := Serve(m, request, ret, written);
    }

    /** `dpfs_hal_destroy`: release the free messages from the back of the pool. */
    method Destroy()
      modifies this
      ensures avail == [] && sent == old(sent)
      ensures |freed| == |old(freed)| + |old(avail)|
      ensures freed[..|old(freed)|] == old(freed)
      ensures forall k :: |old(freed)| <= k < |freed| ==> freed[k] == old(avail)[|old(avail)| - 1 - (k - |old(freed)|)]
    {
      ghost var f0, a0 := freed, avail;
      while |avail| > 0
        invariant |avail| <= |a0| && avail == a0[..|avail|] && sent == old(sent)
        invariant |freed| == |f0| + |a0| - |avail| && freed[..|f0|] == f0
        invariant forall k :: |f0| <= k < |freed| ==> freed[k] == a0[|a0| - 1 - (k - |f0|)]
      {
        freed := freed + [avail[|avail| - 1]];
        avail := avail[..|avail| - 1];
      }
    }
  }

  /** The `[rvfs]` table of the configuration file, as far as `dpfs_hal_new` looks at it. */
  datatype Config = Config(
    parsed: bool, hasSection: bool,
    remoteUri: Option<string>, dpuUri: Option<string>, queueDepth: Option<int>)

  /** `dpfs_hal_new`'s checks: a parsed file with an `[rvfs]` table, both URIs, and a queue
      depth that is a power of two. */
  function ConfigOk(c: Config): (ok: bool)
    ensures ok <==> (c.parsed && c.hasSection && c.remoteUri.Some? && c.dpuUri.Some? &&
                     c.queueDepth.Some? && c.queueDepth.value >= 1 && IsPow2(c.queueDepth.value))
  {
    if !c.parsed || !c.hasSection || c.remoteUri.None? || c.dpuUri.None? || c.queueDepth.None? then false
    else
      var qd := c.queueDepth.value;
      if qd < 1 then false
      else
        PowerOfTwoTest(qd);
        BitAnd(qd, qd - 1) == 0
  }

  /** Messages preallocated for queue depth `qd` as written: `qd / VIRTIO_FS_MIN_DESCS`. */
  function PreallocAsWritten(qd: nat): nat
  {
    qd / VIRTIO_FS_MIN_DESCS
  }

  /** Queue depths 1 and 2 pass the checks yet leave the pool empty, so the first request takes
      `back()` of an empty vector. */
  lemma SmallQueueDepthEmptyPool(c: Config)
    requires c.parsed && c.hasSection && c.remoteUri.Some? && c.dpuUri.Some?
    requires c.queueDepth == Some(2) || c.queueDepth == Some(1)
    ensures ConfigOk(c) && PreallocAsWritten(c.queueDepth.value) == 0
  {
    assert IsPow2(2);
  }

  /** One message per request the queue can hold, rounding up. */
  function Prealloc(qd: nat): nat
  {
    (qd + VIRTIO_FS_MIN_DESCS - 1) / VIRTIO_FS_MIN_DESCS
  }

  /** The rounded-up count serves every depth the checks accept with at least one message and
      differs from the written one only by that rounding. */
  lemma PreallocCovers(qd: nat)
    requires qd >= 1
    ensures Prealloc(qd) >= 1 && VIRTIO_FS_MIN_DESCS * Prealloc(qd) >= qd
    ensures PreallocAsWritten(qd) <= Prealloc(qd) <= PreallocAsWritten(qd) + 1
  {
  }

  /** `dpfs_hal_new` after the connection is up: validate, then fill the pool with messages whose
      buffers hold `req0` and `resp0`, the contents of a fresh eRPC allocation. The eRPC session
      is not modelled. */
  method New(c: Config, req0: seq<Byte>, resp0: seq<Byte>) returns (h: Hal?)
    requires |req0| == MSG_BUF_SIZE && |resp0| == MSG_BUF_SIZE
    ensures h != null <==> ConfigOk(c)
    ensures h != null ==> fresh(h) && h.Valid() && h.sent == [] && h.freed == []
    ensures h != null ==> |h.avail| == Prealloc(c.queueDepth.value)
    ensures h != null ==> forall i :: 0 <= i < |h.avail| ==>
      fresh(h.avail[i]) && h.avail[i].req == req0 && h.avail[i].resp == resp0
    ensures h != null ==> forall i, j :: 0 <= i < j < |h.avail| ==> h.avail[i] != h.avail[j]
  {
    if !ConfigOk(c) {
      return null;
    }
    h := new Hal();
    var count := Prealloc(c.queueDepth.value);
    var i := 0;
    while i < count
      invariant 0 <= i <= count && |h.avail| == i && fresh(h)
      invariant h.Valid() && h.sent == [] && h.freed == []
      invariant forall k :: 0 <= k < i ==> fresh(h.avail[k]) && h.avail[k].req == req0 && h.avail[k].resp == resp0
      invariant forall k, l :: 0 <= k < l < i ==> h.avail[k] != h.avail[l]
    {
      var m := new RpcMsg(req0, resp0);
      h.avail := h.avail + [m];
      i := i + 1;
    }
  }

  /** A zero-filled request buffer reads as a request with no io vectors at all. */
  lemma ZeroBufferIsEmptyRequest()
    ensures Decode(Zeros(2 * INT_SIZE)) == Some(Request([], []))
  {
    var b := Zeros(2 * INT_SIZE);
    assert b[..INT_SIZE] == IntBytes(0);
    IntAtBytes(b, 0, 0);
    assert b[INT_SIZE..2 * INT_SIZE] == IntBytes(0);
    IntAtBytes(b, INT_SIZE, 0);
  }
}
