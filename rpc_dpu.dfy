/** The older eRPC program on the DPU (dpfs_rpc_dpu/main.cpp). Its `fuse_handler` sends only the
    input io vectors, as a count followed by (length, bytes) per input, and its `response_func`
    copies a message of the same layout into the output io vectors. */
module RpcDpu {
  import opened Common
  import opened Errno
  import opened Rvfs
  import opened RvfsDpu

  /** `QD`: the queue depth the program asks the HAL for. */
  const QD: nat := 64
  /** The size of each request and response buffer, `(2 << 20) + 4096`. */
  const MSG_SIZE: nat := 2 * 1048576 + 4096

  /** A request of this program: `in_iovcnt`, then each input's `size_t` length and bytes. */
  function EncodeInputs(ins: seq<seq<Byte>>): (r: seq<Byte>)
    requires InsEncodable(ins) && |ins| < I32
    ensures |r| == INT_SIZE + |EncodeIns(ins)|
  {
    IntBytes(|ins|) + EncodeIns(ins)
  }

  /** What `response_func` reads back from a buffer: the count, then that many inputs. `None`
      when the count is negative or the inputs run past the buffer, where the C loop reads
      memory it does not own. */
  function DecodeInputs(b: seq<Byte>): Option<seq<seq<Byte>>>
  {
    if |b| < INT_SIZE then None
    else
      var n := IntAt(b, 0);
      if n < 0 then None
      else match InsFrom(b, INT_SIZE, n)
        case None => None
        case Some(t) => Some(t.0)
  }

  /** A buffer that starts with an encoding reads back as the inputs encoded, whatever follows. */
  lemma DecodeInputsEncoded(b: seq<Byte>, ins: seq<seq<Byte>>)
    requires InsEncodable(ins) && |ins| < I32
    requires |EncodeInputs(ins)| <= |b| && b[..|EncodeInputs(ins)|] == EncodeInputs(ins)
    ensures DecodeInputs(b) == Some(ins)
  {
    var e := EncodeIns(ins);
    Split4(b, IntBytes(|ins|), e, [], []);
    IntAtBytes(b, 0, |ins|);
    assert INT_SIZE + |e| <= |b| && b[INT_SIZE..INT_SIZE + |e|] == e;
    InsFromEncoded(b, INT_SIZE, ins);
  }

  /** Whatever reads back as inputs starts with their encoding. */
  lemma DecodeInputsIsEncoded(b: seq<Byte>)
    requires DecodeInputs(b).Some?
    ensures var ins := DecodeInputs(b).value;
      InsEncodable(ins) && |ins| < I32 &&
      |EncodeInputs(ins)| <= |b| && b[..|EncodeInputs(ins)|] == EncodeInputs(ins)
  {
    var n := IntAt(b, 0);
    IntHeader(b, 0);
    InsFromIsEncoded(b, INT_SIZE, n);
    var ins := DecodeInputs(b).value;
    Join4(b, IntBytes(n), EncodeIns(ins), [], []);
  }

  /** Reading back is exactly recognising an encoding at the start of the buffer. */
  lemma DecodeInputsIff(b: seq<Byte>, ins: seq<seq<Byte>>)
    ensures DecodeInputs(b) == Some(ins) <==>
      (InsEncodable(ins) && |ins| < I32 &&
       |EncodeInputs(ins)| <= |b| && b[..|EncodeInputs(ins)|] == EncodeInputs(ins))
  {
    if DecodeInputs(b) == Some(ins) {
      DecodeInputsIsEncoded(b);
    }
    if InsEncodable(ins) && |ins| < I32 && |EncodeInputs(ins)| <= |b| &&
       b[..|EncodeInputs(ins)|] == EncodeInputs(ins) {
      DecodeInputsEncoded(b, ins);
    }
  }

  /** The decoding loop of `response_func`: a cursor walks the buffer, taking each length and
      then that many bytes. */
  method ReadInputs(a: array<Byte>) returns (r: Option<seq<seq<Byte>>>)
    ensures r == DecodeInputs(a[..])
  {
    ghost var b := a[..];
    if a.Length < INT_SIZE {
      return None;
    }
    var n := IntAt(a[..], 0);
    if n < 0 {
      return None;
    }
    var p: nat := INT_SIZE;
    var i: nat := 0;
    var ins: seq<seq<Byte>> := [];
    PrependNothing(InsFrom(b, p, n));
    while i < n
      invariant i <= n && |ins| == i
      invariant InsFrom(b, INT_SIZE, n) == Prepend(ins, InsFrom(b, p, n - i))
    {
      if p + SIZE_T_SIZE > a.Length {
        return None;
      }
      var len := SizeAt(a[..], p);
      var q := p + SIZE_T_SIZE + len;
      if q > a.Length {
        return None;
      }
      var x := a[p + SIZE_T_SIZE..q];
      PrependTwice(ins, [x], InsFrom(b, q, n - i - 1));
      ins := ins + [x];
      p, i := q, i + 1;
    }
    assert ins + [] == ins;
    return Some(ins);
  }

  /** `struct rpc_msg` of this program. The output io vectors and the completion context start
      out null (`None`). */
  class RpcMsg {
    const req: array<Byte>
    const resp: array<Byte>
    /** `out_iov` with `out_iovcnt`: the lengths of the output io vectors. */
    var outIov: Option<seq<nat>>
    /** `completion_context`. */
    var context: Option<nat>

    constructor ()
      ensures fresh(req) && fresh(resp) && req.Length == MSG_SIZE && resp.Length == MSG_SIZE
      ensures req != resp && outIov == None && context == None
    {
      req := new Byte[MSG_SIZE];
      resp := new Byte[MSG_SIZE];
      outIov, context := None, None;
    }
  }

  /** The tag handed to `enqueue_request`, which eRPC gives back to `response_func`. */
  datatype Tag = StateTag | MsgTag(m: RpcMsg)

  /** `struct rpc_state`: the free messages, the requests handed to eRPC with their tags, and
      the completions handed to the HAL with the bytes given to each output io vector. */
  class RpcState {
    var avail: seq<RpcMsg>
    var sent: seq<(Tag, RpcMsg)>
    var completed: seq<(Option<nat>, seq<seq<Byte>>)>

    ghost predicate Valid()
      reads this
    {
      forall m :: m in avail ==> m.req.Length == MSG_SIZE && m.resp.Length == MSG_SIZE && m.req != m.resp
    }

    constructor ()
      ensures avail == [] && sent == [] && completed == [] && Valid()
    {
      avail, sent, completed := [], [], [];
    }

    /** The start-up loop of `main`: `QD / VIRTIO_FS_MIN_DESCS` new messages go into the pool. */
    method Prealloc()
      requires Valid()
      modifies this
      ensures |avail| == |old(avail)| + QD / VIRTIO_FS_MIN_DESCS && avail[..|old(avail)|] == old(avail)
      ensures forall k :: |old(avail)| <= k < |avail| ==> fresh(avail[k])
      ensures forall j, k :: |old(avail)| <= j < k < |avail| ==> avail[j] != avail[k]
      ensures sent == old(sent) && completed == old(completed) && Valid()
    {
      var i := 0;
      while i < QD / VIRTIO_FS_MIN_DESCS
        invariant i <= QD / VIRTIO_FS_MIN_DESCS && |avail| == |old(avail)| + i
        invariant avail[..|old(avail)|] == old(avail)
        invariant forall k :: |old(avail)| <= k < |avail| ==> fresh(avail[k])
        invariant forall j, k :: |old(avail)| <= j < k < |avail| ==> avail[j] != avail[k]
        invariant sent == old(sent) && completed == old(completed) && Valid()
      {
        var m := new RpcMsg();
        avail := avail + [m];
        i := i + 1;
      }
    }

    /** `fuse_handler` as written. It takes the last free message without looking at whether
        there is one, writes the inputs into its request buffer, and enqueues it with the state
        as tag. It stores neither the output io vectors nor the completion context, and
        returns 0. */
    method FuseHandlerAsWritten(ins: seq<seq<Byte>>, outLens: seq<nat>, ctx: nat) returns (defined: bool, ret: int)
      requires Valid() && InsEncodable(ins) && |ins| < I32 && |EncodeInputs(ins)| <= MSG_SIZE
      modifies this, set m | m in avail :: m.req
      ensures Valid() && completed == old(completed)
      ensures defined <==> old(avail) != []
      ensures !defined ==> avail == old(avail) && sent == old(sent)
      ensures defined ==> ret == 0 && avail == old(avail[..|avail| - 1])
      ensures defined ==> var m := old(avail[|avail| - 1]);
        sent == old(sent) + [(StateTag, m)] && m.req[..|EncodeInputs(ins)|] == EncodeInputs(ins) &&
        m.outIov == old(m.outIov) && m.context == old(m.context)
    {
      if avail == [] {
        return false, 0;
      }
      var m := avail[|avail| - 1];
      assert m in avail;
      avail := avail[..|avail| - 1];
      Put(m.req, 0, IntBytes(|ins|));
      var p := PutIns(m.req, ins, 0);
      sent := sent + [(StateTag, m)];
      return true, 0;
    }

    /** `fuse_handler` as its response side needs it: a message from the pool, or a new one when
        the pool is empty; the output io vectors and completion context kept in the message;
        the message itself as tag; and completion deferred, as the HAL's `EWOULDBLOCK`. */
    method FuseHandler(ins: seq<seq<Byte>>, outLens: seq<nat>, ctx: nat) returns (ret: int, m: RpcMsg)
      requires Valid() && InsEncodable(ins) && |ins| < I32 && |EncodeInputs(ins)| <= MSG_SIZE
      modifies this, set m | m in avail :: m, set m | m in avail :: m.req
      ensures Valid() && completed == old(completed) && ret == EWOULDBLOCK
      ensures old(avail) == [] ==> fresh(m) && avail == []
      ensures old(avail) != [] ==> m == old(avail[|avail| - 1]) && avail == old(avail[..|avail| - 1])
      ensures m.req.Length == MSG_SIZE && m.resp.Length == MSG_SIZE && m.req != m.resp
      ensures sent == old(sent) + [(MsgTag(m), m)] && m.req[..|EncodeInputs(ins)|] == EncodeInputs(ins)
      ensures m.outIov == Some(outLens) && m.context == Some(ctx)
    {
      if avail == [] {
        m := new RpcMsg();
      } else {
        m := avail[|avail| - 1];
        assert m in avail;
        avail := avail[..|avail| - 1];
      }
      Put(m.req, 0, IntBytes(|ins|));
      var p := PutIns(m.req, ins, 0);
      m.outIov, m.context := Some(outLens), Some(ctx);
      sent := sent + [(MsgTag(m), m)];
      return EWOULDBLOCK, m;
    }

    /** `response_func` as written, given the message: it decodes the message's REQUEST buffer
        into the output io vectors, completes the request and returns the message to the pool.
        `None` stands for a decode that runs off the buffer, where nothing is recorded. */
    method ResponseFuncAsWritten(m: RpcMsg) returns (outs: Option<seq<seq<Byte>>>)
      requires Valid() && m.req.Length == MSG_SIZE && m.resp.Length == MSG_SIZE && m.req != m.resp
      modifies this
      ensures outs == DecodeInputs(m.req[..]) && sent == old(sent)
      ensures outs.None? ==> avail == old(avail) && completed == old(completed)
      ensures outs.Some? ==> completed == old(completed) + [(m.context, outs.value)] && avail == old(avail) + [m]
      ensures Valid()
    {
      outs := ReadInputs(m.req);
      if outs.Some? {
        completed := completed + [(m.context, outs.value)];
        avail := avail + [m];
      }
    }

    /** `response_func` reading the response buffer, which is what the host answered. */
    method ResponseFunc(m: RpcMsg) returns (outs: Option<seq<seq<Byte>>>)
      requires Valid() && m.req.Length == MSG_SIZE && m.resp.Length == MSG_SIZE && m.req != m.resp
      modifies this
      ensures outs == DecodeInputs(m.resp[..]) && sent == old(sent)
      ensures outs.None? ==> avail == old(avail) && completed == old(completed)
      ensures outs.Some? ==> completed == old(completed) + [(m.context, outs.value)] && avail == old(avail) + [m]
      ensures Valid()
    {
      outs := ReadInputs(m.resp);
      if outs.Some? {
        completed := completed + [(m.context, outs.value)];
        avail := avail + [m];
      }
    }
  }
}
