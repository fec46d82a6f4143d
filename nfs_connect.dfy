/**
 * The connection boot of the NFS backend (dpfs_nfs/vnfs_connect.c).
 * Connections come up one after the other. Each sends EXCHANGE_ID, then
 * CREATE_SESSION (sections 18.35 and 18.36 of RFC 5661). The first one
 * then looks up the exported directory's file handle and sends
 * RECLAIM_COMPLETE (section 18.51). Every reply arrives in a callback
 * that works on connection `conn_cntr` and starts the next step; a
 * connection that is up bumps `conn_cntr` and starts the next one.
 */
module NfsConnect {
  import opened Common
  import opened ExportPath
  import opened NfsSlots
  import opened NfsInodes
  import opened Chains

  const NFS4_OK: int := 0
  /** `NFS4ERR_COMPLETE_ALREADY` (section 15.1.15.6 of RFC 5661). */
  const NFS4ERR_COMPLETE_ALREADY: int := 10054
  const FUSE_ROOT_ID: nat := 1
  /** `default_verifier`: the eight characters '0' to '7'. */
  const DEFAULT_VERIFIER: seq<char> := "01234567"

  /*
   * The compound `lookup_true_rootfh` sends.
   */

  /**
   * The operations `lookup_true_rootfh` fills in, as written: one
   * trailing '/' is chopped, and the number of slashes left decides how
   * many LOOKUPs follow PUTROOTFH, each naming the next `strtok` token.
   */
  function RootOpsAsWritten(exportPath: seq<char>): (ops: seq<Op>)
    requires exportPath != []
    ensures |ops| == 3 + Slashes(Chopped(exportPath))
  {
    var s := Chopped(exportPath);
    [Sequence, PutRootFh] + Lookups(Tokens(s), Slashes(s)) + [GetFh]
  }

  /**
   * `lookup_true_rootfh` building its compound, as written: the
   * operation array holds 3 + `count` operations, all of which are filled.
   */
  method RootLookupAsWritten(exportPath: seq<char>) returns (op: array<Op>)
    requires exportPath != []
    ensures fresh(op) && op.Length == 3 + Slashes(Chopped(exportPath))
    ensures op[..] == RootOpsAsWritten(exportPath)
  {
    var s := Chopped(exportPath);
    var count := CountSlashes(s);
    op := BuildCompound(s, count);
  }

  /**
   * The body of `lookup_true_rootfh` once `count` is known: SEQUENCE,
   * PUTROOTFH, `count` LOOKUPs of successive `strtok` tokens of `s`, GETFH.
   */
  method BuildCompound(s: seq<char>, count: nat) returns (op: array<Op>)
    ensures fresh(op) && op.Length == 3 + count
    ensures op[..] == [Sequence, PutRootFh] + Lookups(Tokens(s), count) + [GetFh]
  {
    op := new Op[3 + count](_ => Unset);
    op[0] := Sequence;
    op[1] := PutRootFh;
    ghost var before := op[..];
    var i := FillLookups(op, 2, count + 2, s, Tokens(s));
    FilledSplice(before, 2, i, Tokens(s));
    ghost var filled := op[..];
    op[i] := GetFh;
    CompoundEnds(before, Lookups(Tokens(s), count), filled, op[..]);
  }

  /** Closing the compound: the filled middle between SEQUENCE, PUTROOTFH and GETFH. */
  lemma CompoundEnds(before: seq<Op>, lk: seq<Op>, filled: seq<Op>, a: seq<Op>)
    requires |before| == |lk| + 3 && before[0] == Sequence && before[1] == PutRootFh
    requires filled == before[..2] + lk + before[|lk| + 2..]
    requires a == filled[|lk| + 2 := GetFh]
    ensures a == [Sequence, PutRootFh] + lk + [GetFh]
  {
    assert before[..2] == [Sequence, PutRootFh];
  }

  /**
   * For an export spelt "/c0/…/cn", with or without one trailing '/',
   * the compound as written walks down exactly the components.
   */
  lemma RootOpsAsWrittenOnPaths(cs: seq<seq<char>>, exportPath: seq<char>)
    requires Components(cs)
    requires exportPath == Join(cs) + ['/'] || (cs != [] && exportPath == Join(cs))
    ensures exportPath != [] && RootOpsAsWritten(exportPath) == RootCompound(cs)
  {
    ChoppedJoin(cs, exportPath);
    JoinSlashes(cs);
    JoinTokens(cs);
  }

  /**
   * As written, an export with an empty component sends a LOOKUP of a
   * NULL name: "/a//b" has three slashes but only two tokens.
   */
  lemma RootOpsAsWrittenNullLookup(a: seq<char>, b: seq<char>)
    requires Component(a) && Component(b)
    ensures RootOpsAsWritten("/" + a + "//" + b) == [Sequence, PutRootFh, Lookup(Some(a)), Lookup(Some(b)), Lookup(None), GetFh]
  {
    var p := "/" + a + "//" + b;
    EmptyComponentPath(a, b);
    var ts := [a, b];
    assert Lookups(ts, 3) == [Lookup(Some(a)), Lookup(Some(b)), Lookup(None)] by {
      assert Lookups(ts, 1) == [Lookup(Some(a))];
      assert Lookups(ts, 2) == [Lookup(Some(a)), Lookup(Some(b))];
    }
    assert RootOpsAsWritten(p) == [Sequence, PutRootFh] + Lookups(ts, 3) + [GetFh];
  }

  /** "/a//b" is not chopped, has three slashes and two tokens. */
  lemma EmptyComponentPath(a: seq<char>, b: seq<char>)
    requires Component(a) && Component(b)
    ensures var p := "/" + a + "//" + b; p != [] && Chopped(p) == p && Slashes(p) == 3 && Tokens(p) == [a, b]
  {
    var p := "/" + a + "//" + b;
    var jb := ['/'] + b;
    SlashedComponent(b);
    var t := ['/'] + jb;
    assert p == ['/'] + (a + t);
    assert p[|p| - 1] == b[|b| - 1];
    assert Slashes(p) == 3 by {
      assert p[1..] == a + t;
      SlashesAppend(a, t);
      assert t[1..] == jb;
    }
    assert Tokens(p) == [a, b] by {
      TokensSkipSlash(a + t);
      TokensCons(a, t);
      TokensSkipSlash(jb);
    }
  }

  /**
   * As written, an export without a leading slash loses its last
   * component: "a/b" has one slash, so only "a" is looked up.
   */
  lemma RootOpsAsWrittenRelative(a: seq<char>, b: seq<char>)
    requires Component(a) && Component(b)
    ensures RootOpsAsWritten(a + "/" + b) == [Sequence, PutRootFh, Lookup(Some(a)), GetFh]
  {
    RelativePath(a, b);
    assert Lookups([a, b], 1) == [Lookup(Some(a))];
  }

  /** "a/b" is not chopped, has one slash and two tokens. */
  lemma RelativePath(a: seq<char>, b: seq<char>)
    requires Component(a) && Component(b)
    ensures var q := a + "/" + b; q != [] && Chopped(q) == q && Slashes(q) == 1 && Tokens(q) == [a, b]
  {
    var jb := ['/'] + b;
    SlashedComponent(b);
    var q := a + jb;
    assert a + "/" + b == q;
    assert q[|q| - 1] == b[|b| - 1];
    SlashesAppend(a, jb);
    TokensCons(a, jb);
  }

  /** A path of one component: one slash, one token. */
  lemma SlashedComponent(b: seq<char>)
    requires Component(b)
    ensures Slashes(['/'] + b) == 1 && Tokens(['/'] + b) == [b]
  {
    assert (['/'] + b)[1..] == b;
    TokensSkipSlash(b);
    assert b + [] == b;
    TokensCons(b, []);
  }

  /**
   * `lookup_true_rootfh` sizing the array by the tokens `strtok` will
   * return rather than by the slashes: one LOOKUP per token.
   */
  method RootLookup(exportPath: seq<char>) returns (op: array<Op>)
    requires exportPath != []
    ensures fresh(op) && op.Length == 3 + |Tokens(Chopped(exportPath))|
    ensures op[..] == RootCompound(Tokens(Chopped(exportPath)))
  {
    var s := Chopped(exportPath);
    var count := CountTokens(s);
    op := BuildCompound(s, count);
  }

  /** Counting the tokens with the same `strtok` calls that later fill the LOOKUPs. */
  method CountTokens(s: seq<char>) returns (count: nat)
    ensures count == |Tokens(s)|
  {
    var r := NextToken(s);
    count := 0;
    while r.token.Some?
      invariant |Pending(r)| + count == |Tokens(s)|
      invariant r.token.None? ==> r.rest == []
      decreases |r.rest|, r.token.Some?
    {
      assert Pending(NextToken(r.rest)) == Tokens(r.rest);
      r := NextToken(r.rest);
      count := count + 1;
    }
  }

  /** Every LOOKUP of the corrected compound names a path component; none is NULL. */
  lemma RootCompoundNamesTokens(exportPath: seq<char>, j: nat)
    requires exportPath != [] && 2 <= j < 2 + |Tokens(Chopped(exportPath))|
    ensures RootCompound(Tokens(Chopped(exportPath)))[j].Lookup?
    ensures RootCompound(Tokens(Chopped(exportPath)))[j].name.Some?
    ensures Component(RootCompound(Tokens(Chopped(exportPath)))[j].name.value)
  {
    var toks := Tokens(Chopped(exportPath));
    LookupsAt(toks, |toks|, j - 2);
    TokensComponents(Chopped(exportPath));
    assert RootCompound(toks)[j] == Lookups(toks, |toks|)[j - 2];
  }

  /*
   * The boot state machine.
   */

  /** `enum vnfs_conn_state`. */
  datatype ConnState = Uninit | Established | Closed | ShouldClose

  /**
   * `struct vnfs_conn`, as far as the boot touches it: its id, its
   * state, whether it holds a libnfs RPC context, and its session slots.
   */
  datatype Conn = Conn(id: nat, state: ConnState, rpc: bool, session: Option<Session>)

  /** What libnfs does for a new connection: create the context, mount, start the service thread. */
  datatype Libnfs = Libnfs(initOk: bool, mountOk: bool, threadOk: bool)

  /** The EXCHANGE_ID reply fields the boot keeps. */
  datatype ExchangeReply = ExchangeReply(clientid: nat, sequenceid: nat, majorId: seq<Byte>, scope: seq<Byte>)

  /** The request a step hands to `rpc_nfs4_compound_async`, if any. */
  datatype Request =
    | NoRequest
    | ExchangeId(verifier: seq<char>)
    | CreateSession(clientid: nat, seqid: nat)
    | Compound(ops: seq<Op>)
    /** BIND_CONN_TO_SESSION (section 18.34 of RFC 5661), sent only by the older virtionfs boot. */
    | BindConn(sessionid: seq<Byte>)

  /** `struct virtionfs`, as far as the boot touches it. */
  class Vnfs {
    const nthreads: nat
    const conns: array<Conn>
    var connCntr: nat
    /** `first_exchangeid`, deep-copied from connection 0's reply. */
    var firstExchange: Option<ExchangeReply>
    const inodes: ChainTable<NfsInode>
    const exportPath: seq<char>

    /**
     * What the boot keeps: every connection below `conn_cntr` is up,
     * with its own id and a session; once connection 0 is up, the first
     * reply is saved and the root inode is filed.
     */
    ghost predicate Valid()
      reads this, conns, inodes
    {
      && conns.Length == nthreads && connCntr <= nthreads
      && inodes.Valid() && Keyed(inodes)
      && (forall j :: 0 <= j < connCntr ==> Up(conns[j], j))
      && (connCntr > 0 ==> firstExchange.Some? && RootFiled(inodes))
    }

    /** `vnfs_init_connections` on the zeroed boot state: connection 0 starts. */
    constructor (nthreads: nat, exportPath: seq<char>, inodes: ChainTable<NfsInode>)
      requires 0 < nthreads && inodes.Valid() && Keyed(inodes)
      ensures this.nthreads == nthreads && this.exportPath == exportPath && this.inodes == inodes
      ensures connCntr == 0 && firstExchange.None? && fresh(conns)
      ensures Valid()
    {
      this.nthreads := nthreads;
      this.exportPath := exportPath;
      this.inodes := inodes;
      conns := new Conn[nthreads](j => Conn(0, Uninit, false, None));
      connCntr := 0;
      firstExchange := None;
    }

    /**
     * `vnfs_init_connections` for connection `conn_cntr`: the record is
     * zeroed with its id; a context that cannot be created, mounted or
     * served marks it SHOULD_CLOSE and returns -1; otherwise EXCHANGE_ID
     * is sent with the default verifier.
     */
    method InitConnection(env: Libnfs) returns (ret: int, req: Request)
      requires connCntr < conns.Length
      modifies conns
      ensures ret == 0 <==> env.initOk && env.mountOk && env.threadOk
      ensures ret == 0 ==> req == ExchangeId(DEFAULT_VERIFIER)
      ensures ret != 0 ==> ret == -1 && req == NoRequest
      ensures conns[connCntr] == Conn(connCntr, if ret == 0 then Uninit else ShouldClose, ret == 0, None)
      ensures forall j :: 0 <= j < conns.Length && j != connCntr ==> conns[j] == old(conns[j])
    {
      conns[connCntr] := Conn(connCntr, Uninit, false, None);
      if !env.initOk {
        conns[connCntr] := conns[connCntr].(state := ShouldClose);
        return -1, NoRequest;
      }
      conns[connCntr] := conns[connCntr].(rpc := true);
      if !env.mountOk || !env.threadOk {
        conns[connCntr] := conns[connCntr].(state := ShouldClose, rpc := false);
        return -1, NoRequest;
      }
      return 0, ExchangeId(DEFAULT_VERIFIER);
    }

    /**
     * `vnfs_conn_up`: connection `conn_cntr` is ESTABLISHED and the
     * counter moves on; while connections remain, the next one starts.
     */
    method ConnUp(env: Libnfs) returns (req: Request)
      requires Valid() && connCntr < nthreads
      requires conns[connCntr].id == connCntr && conns[connCntr].session.Some?
      requires firstExchange.Some? && RootFiled(inodes)
      modifies this`connCntr, conns
      ensures Valid()
      ensures connCntr == old(connCntr) + 1
      ensures conns[old(connCntr)] == old(conns[connCntr]).(state := Established)
      ensures connCntr < nthreads ==>
        conns[connCntr].id == connCntr && conns[connCntr].session.None?
        && (req == NoRequest || req == ExchangeId(DEFAULT_VERIFIER))
      ensures connCntr == nthreads ==> req == NoRequest
      ensures forall j :: 0 <= j < conns.Length && j != old(connCntr) && j != connCntr ==> conns[j] == old(conns[j])
    {
      conns[connCntr] := conns[connCntr].(state := Established);
      connCntr := connCntr + 1;
      req := NoRequest;
      if connCntr < nthreads {
        var ret;
        ret, req := InitConnection(env);
      }
    }

    /**
     * `exchangeid_cb`: a failed reply leaves everything as it is (the
     * destroy it calls has an empty body). Connection 0 keeps a deep copy
     * of the reply and creates the session; a later connection creates a
     * session only when `trunkOk`, the server's verdict on client-id
     * trunking with the first reply.
     */
    method ExchangeIdCb(rpcOk: bool, status: int, reply: ExchangeReply, trunkOk: bool) returns (req: Request)
      requires Valid() && connCntr < nthreads
      modifies this`firstExchange
      ensures Valid()
      ensures !rpcOk || status != NFS4_OK ==> req == NoRequest && firstExchange == old(firstExchange)
      ensures rpcOk && status == NFS4_OK && connCntr == 0 ==>
        firstExchange == Some(reply) && req == CreateSession(reply.clientid, reply.sequenceid)
      ensures rpcOk && status == NFS4_OK && connCntr > 0 ==>
        firstExchange == old(firstExchange)
        && req == (if trunkOk then CreateSession(reply.clientid, reply.sequenceid) else NoRequest)
    {
      if !rpcOk || status != NFS4_OK {
        return NoRequest;
      }
      if connCntr == 0 {
        firstExchange := Some(reply);
        return CreateSession(reply.clientid, reply.sequenceid);
      }
      if trunkOk {
        return CreateSession(reply.clientid, reply.sequenceid);
      }
      return NoRequest;
    }

    /**
     * `create_session_cb`: the session gets `ca_maxrequests` zeroed
     * slots. Connection 0 goes on to look up the exported directory;
     * every later connection is up right away.
     */
    method CreateSessionCb(rpcOk: bool, status: int, maxRequests: Uint32, env: Libnfs) returns (req: Request)
      requires Valid() && connCntr < nthreads && conns[connCntr].id == connCntr
      requires connCntr > 0 ==> firstExchange.Some?
      requires exportPath != []
      modifies this`connCntr, conns
      ensures Valid()
      ensures !rpcOk || status != NFS4_OK ==> req == NoRequest && connCntr == old(connCntr) && conns[..] == old(conns[..])
      ensures rpcOk && status == NFS4_OK ==>
        conns[old(connCntr)].session.Some?
        && fresh(conns[old(connCntr)].session.value)
        && conns[old(connCntr)].session.value.slots.Length == maxRequests
        && (forall j :: 0 <= j < maxRequests ==> conns[old(connCntr)].session.value.slots[j] == SessionSlot(0, false))
      ensures rpcOk && status == NFS4_OK && old(connCntr) == 0 ==>
        connCntr == 0 && req == Compound(RootCompound(Tokens(Chopped(exportPath))))
      ensures rpcOk && status == NFS4_OK && old(connCntr) > 0 ==>
        connCntr == old(connCntr) + 1 && conns[old(connCntr)].state == Established
    {
      if !rpcOk || status != NFS4_OK {
        return NoRequest;
      }
      var session := new Session(maxRequests);
      conns[connCntr] := conns[connCntr].(session := Some(session));
      if connCntr == 0 {
        var op := RootLookup(exportPath);
        return Compound(op[..]);
      }
      req := ConnUp(env);
    }

    /**
     * `lookup_true_rootfh_cb`: the root inode, with the file handle
     * GETFH returned, is filed under `FUSE_ROOT_ID`, and
     * RECLAIM_COMPLETE follows.
     */
    method LookupRootCb(rpcOk: bool, status: int, fhLen: nat) returns (req: Request, root: Option<NfsInode>)
      requires Valid() && connCntr == 0 < nthreads
      modifies inodes
      ensures Valid() && connCntr == 0
      ensures !rpcOk || status != NFS4_OK ==> req == NoRequest && root.None? && inodes.buckets == old(inodes.buckets)
      ensures rpcOk && status == NFS4_OK ==>
        req == Compound([Sequence, ReclaimComplete])
        && root.Some? && fresh(root.value) && root.value.fhLen == fhLen
        && Find(inodes.buckets[FUSE_ROOT_ID % |inodes.buckets|], FUSE_ROOT_ID) == root
    {
      if !rpcOk || status != NFS4_OK {
        return NoRequest, None;
      }
      var rooti := new NfsInode(FUSE_ROOT_ID);
      rooti.fhLen := fhLen;
      inodes.Insert(FUSE_ROOT_ID, rooti);
      return Compound([Sequence, ReclaimComplete]), Some(rooti);
    }

    /**
     * `reclaim_complete_cb`: NFS4_OK and NFS4ERR_COMPLETE_ALREADY both
     * bring connection 0 up; any other status leaves it as it is.
     */
    method ReclaimCompleteCb(rpcOk: bool, status: int, env: Libnfs) returns (req: Request)
      requires Valid() && connCntr == 0 < nthreads && conns[0].id == 0 && conns[0].session.Some?
      requires firstExchange.Some? && RootFiled(inodes)
      modifies this`connCntr, conns
      ensures Valid()
      ensures rpcOk && (status == NFS4_OK || status == NFS4ERR_COMPLETE_ALREADY) <==> connCntr == 1
      ensures connCntr == 1 ==> conns[0].state == Established
      ensures connCntr == 0 ==> req == NoRequest && conns[..] == old(conns[..])
    {
      if !rpcOk || (status != NFS4_OK && status != NFS4ERR_COMPLETE_ALREADY) {
        return NoRequest;
      }
      req := ConnUp(env);
    }
  }

  /** The root inode is filed under `FUSE_ROOT_ID`. */
  ghost predicate RootFiled(t: ChainTable<NfsInode>)
    reads t
    requires t.Valid()
  {
    Find(t.buckets[FUSE_ROOT_ID % |t.buckets|], FUSE_ROOT_ID).Some?
  }

  /** Connection `j` is up: ESTABLISHED, with its id and a session. */
  predicate Up(c: Conn, j: nat)
  {
    c.state == Established && c.id == j && c.session.Some?
  }
}
