/** The DPU side of RVFS (dpfs_rvfs/dpu.cpp): the file-system handler that the virtio-fs HAL
    calls on the DPU. It writes each FUSE request into an eRPC message in the layout of
    `Rvfs.Encode`, sends it to the host, and when the response arrives copies it into the
    request's output io vectors and completes the request. */
module RvfsDpu {
  import opened Common
  import opened Errno
  import opened Rvfs
  import opened FuseIov

  /** `DPFS_RVFS_MAX_REQRESP_SIZE`: the size of each message buffer on the DPU. */
  const MAX_REQRESP_SIZE: nat := 2 * 1048576 + 4 * 4096

  /** One store or `memcpy` into the buffer at `p`. */
  method Put(a: array<Byte>, p: nat, bytes: seq<Byte>)
    requires p + |bytes| <= a.Length
    modifies a
    ensures a[..p] == old(a[..p]) && a[p..p + |bytes|] == bytes
  {
    var k := 0;
    while k < |bytes|
      invariant k <= |bytes|
      invariant a[..p] == old(a[..p]) && a[p..p + k] == bytes[..k]
    {
      a[p + k] := bytes[k];
      assert a[p..p + k + 1] == a[p..p + k] + [bytes[k]];
      k := k + 1;
    }
  }

  /** One input io vector: its length as a `size_t`, then its bytes. */
  method PutInput(a: array<Byte>, p: nat, x: seq<Byte>)
    requires |x| < U64 && p + SIZE_T_SIZE + |x| <= a.Length
    modifies a
    ensures a[..p + SIZE_T_SIZE + |x|] == old(a[..p]) + SizeBytes(|x|) + x
  {
    Put(a, p, SizeBytes(|x|));
    assert a[..p + SIZE_T_SIZE] == old(a[..p]) + SizeBytes(|x|) by {
      assert a[..p + SIZE_T_SIZE] == a[..p] + a[p..p + SIZE_T_SIZE];
    }
    Put(a, p + SIZE_T_SIZE, x);
    assert a[..p + SIZE_T_SIZE + |x|] == a[..p + SIZE_T_SIZE] + a[p + SIZE_T_SIZE..p + SIZE_T_SIZE + |x|];
  }

  /** The first loop of `fuse_handler`: after the input count, each input's length and bytes. */
  method PutIns(a: array<Byte>, ins: seq<seq<Byte>>, room: nat) returns (p: nat)
    requires InsEncodable(ins) && INT_SIZE + |EncodeIns(ins)| + room <= a.Length
    modifies a
    ensures p == INT_SIZE + |EncodeIns(ins)|
    ensures a[..p] == old(a[..INT_SIZE]) + EncodeIns(ins)
  {
    p := INT_SIZE;
    var i := 0;
    ghost var count := a[..INT_SIZE];
    while i < |ins|
      invariant i <= |ins| && InsEncodable(ins[..i]) && p == INT_SIZE + |EncodeIns(ins[..i])|
      invariant p + |EncodeIns(ins[i..])| + room <= a.Length
      invariant a[..p] == count + EncodeIns(ins[..i])
    {
      var x := ins[i];
      InputStep(ins, i);
      PutInput(a, p, x);
      p, i := p + SIZE_T_SIZE + |x|, i + 1;
    }
    assert ins[..i] == ins;
  }

  /** The second loop: after the output count, each output's length. */
  method PutLens(a: array<Byte>, p0: nat, ls: seq<nat>) returns (p: nat)
    requires LensEncodable(ls) && p0 + |EncodeLens(ls)| <= a.Length
    modifies a
    ensures p == p0 + |EncodeLens(ls)| && a[..p] == old(a[..p0]) + EncodeLens(ls)
  {
    p := p0;
    var j := 0;
    while j < |ls|
      invariant j <= |ls| && LensEncodable(ls[..j]) && p == p0 + |EncodeLens(ls[..j])|
      invariant p + |EncodeLens(ls[j..])| <= a.Length
      invariant a[..p] == old(a[..p0]) + EncodeLens(ls[..j])
    {
      LengthStep(ls, j);
      ghost var done := a[..p];
      Put(a, p, SizeBytes(ls[j]));
      assert a[..p + SIZE_T_SIZE] == a[..p] + a[p..p + SIZE_T_SIZE];
      assert done + SizeBytes(ls[j]) == old(a[..p0]) + EncodeLens(ls[..j + 1]);
      p, j := p + SIZE_T_SIZE, j + 1;
    }
    assert ls[..j] == ls;
  }

  /** `struct rpc_msg` of the DPU: the two eRPC buffers and what the response must go back to. */
  class DpuMsg {
    const req: array<Byte>
    const resp: array<Byte>
    /** The size the request buffer was resized to before sending. */
    var reqLen: nat
    /** The lengths of the request's output io vectors, `out_iov` and `out_iovcnt`. */
    var outLens: seq<nat>
    /** The HAL's completion context of the request. */
    var context: nat

    constructor ()
      ensures fresh(req) && fresh(resp) && req.Length == MAX_REQRESP_SIZE && resp.Length == MAX_REQRESP_SIZE
      ensures req != resp && reqLen == MAX_REQRESP_SIZE && outLens == [] && context == 0
    {
      req := new Byte[MAX_REQRESP_SIZE];
      resp := new Byte[MAX_REQRESP_SIZE];
      reqLen, outLens, context := MAX_REQRESP_SIZE, [], 0;
    }

    /** The request half of `fuse_handler`: the counts and io vectors written one after another
        from the start of the buffer, which is then resized to what was written. */
    method Fill(r: Request)
      requires Encodable(r) && |Encode(r)| <= req.Length
      modifies this, req
      ensures reqLen == |Encode(r)| && req[..reqLen] == Encode(r)
      ensures outLens == old(outLens) && context == old(context)
    {
      var n, m := |r.ins|, |r.outLens|;
      Put(req, 0, IntBytes(n));
      var p := PutIns(req, r.ins, INT_SIZE + |EncodeLens(r.outLens)|);
      Put(req, p, IntBytes(m));
      assert req[..p + INT_SIZE] == req[..p] + req[p..p + INT_SIZE];
      p := PutLens(req, p + INT_SIZE, r.outLens);
      reqLen := p;
    }
  }

  /** Moving the cursor past input `i`: the encoding of the first `i + 1` inputs is that of the
      first `i` followed by input `i`, and what is left shrinks by as much. */
  lemma InputStep(ins: seq<seq<Byte>>, i: nat)
    requires InsEncodable(ins) && i < |ins|
    ensures InsEncodable(ins[..i]) && InsEncodable(ins[..i + 1]) && InsEncodable(ins[i..]) && InsEncodable(ins[i + 1..])
    ensures EncodeIns(ins[..i + 1]) == EncodeIns(ins[..i]) + SizeBytes(|ins[i]|) + ins[i]
    ensures |EncodeIns(ins[i..])| == SIZE_T_SIZE + |ins[i]| + |EncodeIns(ins[i + 1..])|
  {
    assert ins[..i + 1] == ins[..i] + [ins[i]];
    EncodeInsConcat(ins[..i], [ins[i]]);
    assert EncodeIns([ins[i]]) == SizeBytes(|ins[i]|) + ins[i] + EncodeIns([]);
    assert ins[i..][1..] == ins[i + 1..];
  }

  lemma LengthStep(ls: seq<nat>, j: nat)
    requires LensEncodable(ls) && j < |ls|
    ensures LensEncodable(ls[..j]) && LensEncodable(ls[..j + 1]) && LensEncodable(ls[j..]) && LensEncodable(ls[j + 1..])
    ensures EncodeLens(ls[..j + 1]) == EncodeLens(ls[..j]) + SizeBytes(ls[j])
    ensures |EncodeLens(ls[j..])| == SIZE_T_SIZE + |EncodeLens(ls[j + 1..])|
  {
    assert ls[..j + 1] == ls[..j] + [ls[j]];
    EncodeLensConcat(ls[..j], [ls[j]]);
    assert EncodeLens([ls[j]]) == SizeBytes(ls[j]) + EncodeLens([]);
    assert ls[j..][1..] == ls[j + 1..];
  }

  /** The DPU's view of the RVFS connection: the free messages, the requests handed to eRPC and
      the completions handed back to the HAL. */
  class DpuState {
    var avail: seq<DpuMsg>
    /** `enqueue_request` calls in order: the message and the request bytes it sends. */
    var sent: seq<(DpuMsg, seq<Byte>)>
    /** `dpfs_hal_async_complete` calls in order: the completion context and the bytes copied
        into each output io vector. */
    var completed: seq<(nat, seq<seq<Byte>>)>

    ghost predicate Valid()
      reads this
    {
      forall m :: m in avail ==>
        m.req.Length == MAX_REQRESP_SIZE && m.resp.Length == MAX_REQRESP_SIZE && m.req != m.resp
    }

    /** `main` declares the state with an empty pool and never fills it before serving. */
    constructor ()
      ensures avail == [] && sent == [] && completed == [] && Valid()
    {
      avail, sent, completed := [], [], [];
    }

    /** Encode, send and remember where the response goes, as `fuse_handler` does once it has
        a message. */
    method Send(m: DpuMsg, ins: seq<seq<Byte>>, outLens: seq<nat>, ctx: nat)
      requires Encodable(Request(ins, outLens)) && |Encode(Request(ins, outLens))| <= m.req.Length
      modifies this, m, m.req
      ensures avail == old(avail) && completed == old(completed)
      ensures sent == old(sent) + [(m, Encode(Request(ins, outLens)))]
      ensures m.reqLen == |Encode(Request(ins, outLens))| && m.req[..m.reqLen] == Encode(Request(ins, outLens))
      ensures m.outLens == outLens && m.context == ctx
    {
      m.Fill(Request(ins, outLens));
      sent := sent + [(m, m.req[..m.reqLen])];
      m.context, m.outLens := ctx, outLens;
    }

    /** `fuse_handler` as written: it reads `avail.back()` before looking at whether the pool is
        empty. On an empty pool that read is undefined, and the pool starts empty. */
    method FuseHandlerAsWritten(ins: seq<seq<Byte>>, outLens: seq<nat>, ctx: nat) returns (defined: bool, ret: int)
      requires Valid()
      requires Encodable(Request(ins, outLens)) && |Encode(Request(ins, outLens))| <= MAX_REQRESP_SIZE
      modifies this, set m | m in avail :: m, set m | m in avail :: m.req
      ensures Valid() && completed == old(completed)
      ensures defined <==> old(avail) != []
      ensures !defined ==> avail == old(avail) && sent == old(sent)
      ensures defined ==> ret == EWOULDBLOCK && avail == old(avail[..|avail| - 1])
      ensures defined ==> var m := old(avail[|avail| - 1]);
        sent == old(sent) + [(m, Encode(Request(ins, outLens)))] && m.outLens == outLens && m.context == ctx
    {
      if avail == [] {
        return false, 0;
      }
      var m := avail[|avail| - 1];
      assert m in avail;
      avail := avail[..|avail| - 1];
      Send(m, ins, outLens, ctx);
      return true, EWOULDBLOCK;
    }

    /** `fuse_handler` taking a message from the pool when there is one and allocating a new
        one otherwise, as its comment intends. */
    method FuseHandler(ins: seq<seq<Byte>>, outLens: seq<nat>, ctx: nat) returns (ret: int, m: DpuMsg)
      requires Valid()
      requires Encodable(Request(ins, outLens)) && |Encode(Request(ins, outLens))| <= MAX_REQRESP_SIZE
      modifies this, set m | m in avail :: m, set m | m in avail :: m.req
      ensures Valid() && completed == old(completed) && ret == EWOULDBLOCK
      ensures old(avail) == [] ==> fresh(m) && avail == []
      ensures old(avail) != [] ==> m == old(avail[|avail| - 1]) && avail == old(avail[..|avail| - 1])
      ensures sent == old(sent) + [(m, Encode(Request(ins, outLens)))] && m.outLens == outLens && m.context == ctx
      ensures m.req.Length == MAX_REQRESP_SIZE && m.resp.Length == MAX_REQRESP_SIZE && m.req != m.resp
    {
      if avail == [] {
        m := new DpuMsg();
      } else {
        m := avail[|avail| - 1];
        assert m in avail;
        avail := avail[..|avail| - 1];
      }
      Send(m, ins, outLens, ctx);
      return EWOULDBLOCK, m;
    }

    /** `response_func`: copy the response, from its start, into the output io vectors one after
        another, complete the request and return the message to the pool. */
    method ResponseFunc(m: DpuMsg) returns (outs: seq<seq<Byte>>)
      requires Valid() && m.req.Length == MAX_REQRESP_SIZE && m.resp.Length == MAX_REQRESP_SIZE && m.req != m.resp
      requires Sum(m.outLens) <= m.resp.Length
      modifies this
      ensures Lens(outs) == m.outLens && Flat(outs) == m.resp[..Sum(m.outLens)]
      ensures completed == old(completed) + [(m.context, outs)]
      ensures avail == old(avail) + [m] && sent == old(sent) && Valid()
    {
      var ls := m.outLens;
      var off: nat := 0;
      var i := 0;
      outs := [];
      SumPrefixMono(ls, 0, |ls|);
      while i < |ls|
        invariant i <= |ls| && |outs| == i && Lens(outs) == ls[..i]
        invariant off == Sum(ls[..i]) && off <= Sum(ls) && Flat(outs) == m.resp[..off]
        invariant unchanged(this)
      {
        SumPrefixMono(ls, i + 1, |ls|);
        assert ls[..i + 1] == ls[..i] + [ls[i]];
        SumAppend(ls[..i], ls[i]);
        assert ls[..|ls|] == ls;
        assert off + ls[i] == Sum(ls[..i + 1]);
        assert Sum(ls[..i + 1]) <= Sum(ls);
        var x := m.resp[off..off + ls[i]];
        assert (outs + [x])[..i] == outs;
        assert m.resp[..off + ls[i]] == m.resp[..off] + x;
        outs := outs + [x];
        off, i := off + ls[i], i + 1;
      }
      assert ls[..i] == ls;
      completed := completed + [(m.context, outs)];
      avail := avail + [m];
    }
  }

  /** The `[rvfs]` table as `main` of the DPU program reads it. */
  datatype DpuConfig = DpuConfig(
    pathGiven: bool, parsed: bool, hasSection: bool, remoteUri: Option<string>, dpuUri: Option<string>)

  /** `main` goes on to connect only with a configuration path, a parsed file, an `[rvfs]` table
      and both URIs; otherwise it returns -1. */
  function MainStatus(c: DpuConfig): (status: int)
    ensures status == 0 || status == -1
    ensures status == 0 <==> (c.pathGiven && c.parsed && c.hasSection && c.remoteUri.Some? && c.dpuUri.Some?)
  {
    if !c.pathGiven || !c.parsed || !c.hasSection || c.remoteUri.None? || c.dpuUri.None? then -1 else 0
  }
}
