/** The low-level virtio-fs emulation layer (virtiofs_emu_lowlevel/virtiofs_emu_ll.c): the check
    of a new emulation's parameters, and the dispatch of each FUSE request to the handler
    registered for its opcode, with the per-opcode call counters kept in debug builds. Its
    polling loops are the ones of module `PollLoop`. */
module EmuLl {
  import opened Common
  import opened Errno
  import opened FuseOps

  /** `sizeof(struct fuse_out_header)`. */
  const OUT_HEADER_SIZE: nat := 16
  /** `VIRTIOFS_EMU_LL_FUSE_HANDLERS_LEN`: one slot per opcode, and slot 0 unused. */
  const HANDLERS_LEN: nat := MAX_OPCODE + 1
  /** The controller the layer asks SNAP for: two queues of depth 64. */
  const NUM_QUEUES: nat := 2
  const QUEUE_DEPTH: nat := 64

  /** The fields of `fuse_in_header` the layer reads, and those of `fuse_out_header` it writes. */
  datatype InHeader = InHeader(opcode: int, unique: nat)
  datatype OutHeader = OutHeader(len: nat, error: int, unique: nat)

  /** `virtiofs_emu_ll_fuse_unknown`: a reply of a bare header that answers the same request
      (`unique`) with -ENOSYS. */
  function FuseUnknown(h: InHeader): (r: OutHeader)
    ensures r.unique == h.unique && r.error == -ENOSYS
    ensures r.len == OUT_HEADER_SIZE
  {
    OutHeader(OUT_HEADER_SIZE, -ENOSYS, h.unique)
  }

  /** How the dispatcher disposes of a request: refused with -EINVAL, handed to the handler
      registered for its opcode, or answered by the unknown handler. */
  datatype Outcome = Invalid | Called(opcode: int) | Unknown(reply: OutHeader)

  /** Whether the outcome writes into the first output io vector. A registered handler is
      given the output io vectors and replies through them, as the unknown handler does. */
  predicate WritesReply(o: Outcome)
  {
    o.Called? || o.Unknown?
  }

  /** The value the dispatcher returns, given what the called handler returned. */
  function Ret(o: Outcome, handlerRet: int): (ret: int)
    ensures o == Invalid ==> ret == -EINVAL
    ensures o.Called? ==> ret == handlerRet
    ensures o.Unknown? ==> ret == 0
  {
    match o
    case Invalid => -EINVAL
    case Called(_) => handlerRet
    case Unknown(_) => 0
  }

  /** `virtiofs_emu_ll_handle_fuse_req` as written: the "in and out both have an io vector"
      test looks at `in_iovcnt` twice. */
  function DispatchAsWritten(inCnt: int, outCnt: int, h: InHeader, handlers: set<int>): Outcome
  {
    if inCnt < 1 || inCnt < 1 then Invalid
    else if h.opcode < 1 || h.opcode > MAX_OPCODE then Invalid
    else if h.opcode in handlers then Called(h.opcode)
    else Unknown(FuseUnknown(h))
  }

  /** The dispatcher with both counts checked. */
  function Dispatch(inCnt: int, outCnt: int, h: InHeader, handlers: set<int>): (o: Outcome)
    ensures o == Invalid <==> inCnt < 1 || outCnt < 1 || h.opcode < 1 || h.opcode > MAX_OPCODE
    ensures o.Called? <==> o != Invalid && h.opcode in handlers
    ensures o.Unknown? <==> o != Invalid && h.opcode !in handlers
    ensures o.Called? ==> o.opcode == h.opcode
    ensures o.Unknown? ==> o.reply.unique == h.unique && o.reply.error == -ENOSYS
  {
    if inCnt < 1 || outCnt < 1 then Invalid
    else if h.opcode < 1 || h.opcode > MAX_OPCODE then Invalid
    else if h.opcode in handlers then Called(h.opcode)
    else Unknown(FuseUnknown(h))
  }

  /** With both counts checked, a reply is only written into an output io vector that exists,
      and the opcode of a dispatched request indexes the handler table. */
  lemma DispatchInBounds(inCnt: int, outCnt: int, h: InHeader, handlers: set<int>)
    ensures WritesReply(Dispatch(inCnt, outCnt, h, handlers)) ==> inCnt >= 1 && outCnt >= 1
    ensures Dispatch(inCnt, outCnt, h, handlers) != Invalid ==> 0 < h.opcode < HANDLERS_LEN
  {
  }

  /** The two dispatchers differ only when there is no output io vector. */
  lemma DispatchAsWrittenAgrees(inCnt: int, outCnt: int, h: InHeader, handlers: set<int>)
    ensures outCnt >= 1 ==> DispatchAsWritten(inCnt, outCnt, h, handlers) == Dispatch(inCnt, outCnt, h, handlers)
    ensures outCnt < 1 && DispatchAsWritten(inCnt, outCnt, h, handlers) != Invalid ==>
      WritesReply(DispatchAsWritten(inCnt, outCnt, h, handlers))
  {
  }

  /** As written, a request with no output io vector reaches the unknown handler, which
      writes its reply through `fuse_out_iov[0]`. */
  lemma DispatchAsWrittenWritesPastEnd()
    ensures var o := DispatchAsWritten(1, 0, InHeader(FUSE_READLINK, 7), {});
      WritesReply(o) && o == Unknown(OutHeader(OUT_HEADER_SIZE, -ENOSYS, 7))
  {
  }

  /** The call counters after one dispatched request for `op`: all cleared first on
      FUSE_INIT, then the opcode's own counter incremented as a `uint32_t`. */
  function Counted(c: seq<nat>, op: nat): (r: seq<nat>)
    requires op < |c|
    ensures |r| == |c|
  {
    if op == FUSE_INIT then seq(|c|, k => 0)[op := 1]
    else c[op := Wrap32(c[op] + 1)]
  }

  /** The counters add up to the calls since the last FUSE_INIT: one after FUSE_INIT, one more
      than before after any other opcode whose counter has not reached 2^32 - 1. */
  lemma CountedSum(c: seq<nat>, op: nat)
    requires op < |c| && c[op] + 1 < U32
    ensures Sum(Counted(c, op)) == if op == FUSE_INIT then 1 else Sum(c) + 1
  {
    var r := Counted(c, op);
    if op == FUSE_INIT {
      ClearedSum(|c|, op);
      assert Sum(r) == 1;
    } else {
      BumpedSum(c, op);
      assert Sum(r) == Sum(c) + 1;
    }
  }

  lemma BumpedSum(c: seq<nat>, op: nat)
    requires op < |c| && c[op] + 1 < U32
    ensures Sum(c[op := Wrap32(c[op] + 1)]) == Sum(c) + 1
  {
    assert Wrap32(c[op] + 1) == c[op] + 1;
    SumUpdate(c, op, c[op] + 1);
  }

  lemma ClearedSum(n: nat, op: nat)
    requires op < n
    ensures Sum(seq(n, k => 0)[op := 1]) == 1
  {
    var z: seq<nat> := seq(n, k => 0);
    SumZero(z);
    SumUpdate(z, op, 1);
  }

  /** The counters leave every other opcode alone, apart from the clearing on FUSE_INIT. */
  lemma CountedOthers(c: seq<nat>, op: nat, other: nat)
    requires op < |c| && other < |c| && other != op
    ensures Counted(c, op)[other] == if op == FUSE_INIT then 0 else c[other]
  {
  }

  /** The parameters `virtiofs_emu_ll_new` looks at. */
  datatype EmuParams = EmuParams(
    emuManager: Option<string>, pfId: int, vfId: int, nthreads: nat, pollingInterval: nat, tag: string)

  /** The checks of `virtiofs_emu_ll_new`: an emulation manager, a physical function number of
      at least 0 and a virtual function number of at least -1 (-1: none). */
  predicate ParamsOk(p: EmuParams)
  {
    p.emuManager != None && p.pfId >= 0 && p.vfId >= -1
  }

  /** What the layer asks SNAP's controller for. */
  datatype CtrlAttr = CtrlAttr(
    emuManager: string, nthreads: nat, tag: string, pfId: int, vfId: int, numQueues: nat, queueDepth: nat)

  /** `struct virtiofs_emu_ll`. */
  class Emu {
    /** The opcodes that have a handler: the table copied from the parameters. */
    const handlers: set<int>
    const nthreads: nat
    const pollingInterval: nat
    const attr: CtrlAttr
    /** `handlers_call_cnts` (debug builds only). */
    const callCnts: array<nat>

    /** `virtiofs_emu_ll_new`: `None` when a parameter is refused or SNAP's logger, device list
        or controller fails to start (`loggerOk`, `pciOk`, `ctrlOk`); otherwise an emulation
        with the handler table copied in, zeroed counters, and a controller of two queues of
        depth 64 for the given device. */
    static method New(p: EmuParams, table: set<int>, loggerOk: bool, pciOk: bool, ctrlOk: bool)
      returns (emu: Option<Emu>)
      ensures emu.Some? <==> ParamsOk(p) && loggerOk && pciOk && ctrlOk
      ensures emu.Some? ==> var e := emu.value;
        fresh(e) && fresh(e.callCnts) && e.handlers == table && e.nthreads == p.nthreads &&
        e.pollingInterval == p.pollingInterval &&
        e.callCnts.Length == HANDLERS_LEN && (forall k :: 0 <= k < HANDLERS_LEN ==> e.callCnts[k] == 0) &&
        e.attr == CtrlAttr(p.emuManager.value, p.nthreads, p.tag, p.pfId, p.vfId, NUM_QUEUES, QUEUE_DEPTH)
    {
      if p.emuManager.None? || p.pfId < 0 || p.vfId < -1 {
        return None;
      }
      var attr := CtrlAttr(p.emuManager.value, p.nthreads, p.tag, p.pfId, p.vfId, NUM_QUEUES, QUEUE_DEPTH);
      var e := new Emu(table, p.nthreads, p.pollingInterval, attr);
      if !loggerOk || !pciOk || !ctrlOk {
        return None;
      }
      return Some(e);
    }

    constructor (table: set<int>, nthreads: nat, interval: nat, attr: CtrlAttr)
      ensures handlers == table && this.nthreads == nthreads && pollingInterval == interval
      ensures this.attr == attr && fresh(callCnts) && callCnts.Length == HANDLERS_LEN
      ensures forall k :: 0 <= k < HANDLERS_LEN ==> callCnts[k] == 0
    {
      handlers, this.nthreads, pollingInterval, this.attr := table, nthreads, interval, attr;
      callCnts := new nat[HANDLERS_LEN](_ => 0);
    }

    /** `virtiofs_emu_ll_handle_fuse_req` with both counts checked, the handler's own return
        value given as `handlerRet`. A dispatched request is counted when one thread polls
        (the counters are not shared safely between threads). */
    method HandleFuseReq(inCnt: int, outCnt: int, h: InHeader, handlerRet: int) returns (ret: int)
      requires callCnts.Length == HANDLERS_LEN
      modifies callCnts
      ensures ret == Ret(Dispatch(inCnt, outCnt, h, handlers), handlerRet)
      ensures Dispatch(inCnt, outCnt, h, handlers) != Invalid && nthreads <= 1 ==>
        callCnts[..] == Counted(old(callCnts[..]), h.opcode)
      ensures Dispatch(inCnt, outCnt, h, handlers) == Invalid || nthreads > 1 ==>
        callCnts[..] == old(callCnts[..])
    {
      var o := Dispatch(inCnt, outCnt, h, handlers);
      if o == Invalid {
        return -EINVAL;
      }
      ret := Ret(o, handlerRet);
      if nthreads <= 1 {
        var op := h.opcode;
        if op == FUSE_INIT {
          forall k | 0 <= k < callCnts.Length {
            callCnts[k] := 0;
          }
        }
        callCnts[op] := Wrap32(callCnts[op] + 1);
        assert callCnts[..] == Counted(old(callCnts[..]), op);
      }
    }
  }
}
