/**
 * The older connection boot of the virtionfs backend
 * (virtionfs/vnfs_connect.c). Connection 0 sends EXCHANGE_ID, creates
 * the one session every connection shares, looks up the exported
 * directory and files it as the root inode; every later connection
 * sends EXCHANGE_ID and binds itself to that session with
 * BIND_CONN_TO_SESSION (section 18.34 of RFC 5661). Every callback works
 * on connection `conn_cntr`; `vnfs_conn_boot_done` moves the counter on
 * and starts the next connection.
 */
module VnfsConnect {
  import opened Common
  import opened ExportPath
  import opened NfsInodes
  import opened Chains
  import NfsConnect

  /*
   * The compound `lookup_true_rootfh` sends.
   */

  /**
   * The operations as written: the slashes are counted on the export
   * as stored, trailing slash included, while the tokens come from the
   * chopped copy; the LOOKUP loop stops at index `count + 1`, so it fills
   * `count - 1` LOOKUPs, and the slot after GETFH is never filled
   * although the array of 3 + `count` operations is sent whole.
   */
  function RootOpsAsWritten(exportPath: seq<char>): (ops: seq<Op>)
    requires exportPath != []
    ensures |ops| == 3 + Slashes(exportPath)
  {
    var count := Slashes(exportPath);
    var n := if count == 0 then 0 else count - 1;
    [Sequence, PutRootFh] + Lookups(Tokens(Chopped(exportPath)), n) + [GetFh]
      + (if count == 0 then [] else [Unset])
  }

  /**
   * For an export spelt "/c0/…/cn" the compound as written never looks
   * up the last component, so GETFH returns the handle of its parent,
   * and a stray unfilled operation follows GETFH.
   */
  lemma RootOpsAsWrittenDropsLast(cs: seq<seq<char>>)
    requires Components(cs) && cs != []
    ensures Join(cs) != []
    ensures RootOpsAsWritten(Join(cs)) == [Sequence, PutRootFh] + Lookups(cs, |cs| - 1) + [GetFh, Unset]
    ensures RootOpsAsWritten(Join(cs)) != RootCompound(cs)
  {
    PathShape(cs);
    CountedOps(Join(cs), cs);
    var ops := RootOpsAsWritten(Join(cs));
    assert ops[|ops| - 1] != RootCompound(cs)[|cs| + 2];
  }

  /** The as-written compound of an export with at least one slash. */
  lemma CountedOps(p: seq<char>, toks: seq<seq<char>>)
    requires p != [] && Slashes(p) >= 1 && Tokens(Chopped(p)) == toks
    ensures RootOpsAsWritten(p) == [Sequence, PutRootFh] + Lookups(toks, Slashes(p) - 1) + [GetFh, Unset]
  {
  }

  /** "/c0/…/cn" is not chopped; its slashes are counted once per component, its tokens are the components. */
  lemma PathShape(cs: seq<seq<char>>)
    requires Components(cs) && cs != []
    ensures Join(cs) != [] && Chopped(Join(cs)) == Join(cs)
    ensures Slashes(Join(cs)) == |cs| && Tokens(Join(cs)) == cs
  {
    JoinLast(cs);
    ChoppedJoin(cs, Join(cs));
    JoinSlashes(cs);
    JoinTokens(cs);
  }

  /**
   * With one trailing slash, "/c0/…/cn/", every component is looked up,
   * but the unfilled operation still follows GETFH.
   */
  lemma RootOpsAsWrittenTrailingSlash(cs: seq<seq<char>>)
    requires Components(cs)
    ensures RootOpsAsWritten(Join(cs) + ['/']) == RootCompound(cs) + [Unset]
  {
    var e := Join(cs) + ['/'];
    ChoppedJoin(cs, e);
    JoinSlashes(cs);
    JoinTokens(cs);
    SlashesAppendSlash(Join(cs));
  }

  /** A trailing slash adds one to the count. */
  lemma {:induction false} SlashesAppendSlash(s: seq<char>)
    ensures Slashes(s + ['/']) == Slashes(s) + 1
  {
    if s != [] {
      assert (s + ['/'])[1..] == s[1..] + ['/'];
      SlashesAppendSlash(s[1..]);
    } else {
      assert Slashes(['/'][1..]) == 0;
    }
  }

  /** `default_verifier`: the eight characters '0' to '7'. */
  const DEFAULT_VERIFIER: seq<char> := "01234567"

  /**
   * The verifier connection `cntr` was meant to send: the default one
   * with its first byte replaced by `conn_cntr`, truncated to a char.
   */
  function ConnVerifier(cntr: nat): (v: seq<char>)
    ensures |v| == 8 && v[1..] == DEFAULT_VERIFIER[1..]
    ensures v[0] as int == cntr % 256
  {
    [(cntr % 256) as char] + DEFAULT_VERIFIER[1..]
  }

  /** Up to 256 connections, every connection presents its own verifier. */
  lemma ConnVerifiersDiffer(c1: nat, c2: nat)
    requires c1 < 256 && c2 < 256 && c1 != c2
    ensures ConnVerifier(c1) != ConnVerifier(c2)
  {
    assert ConnVerifier(c1)[0] != ConnVerifier(c2)[0];
  }

  /*
   * The boot state machine.
   */

  /** The connection states the file uses. */
  datatype ConnState = Uninit | Error

  /** A connection's libnfs context pointer: NULL, live, or destroyed and dangling. */
  datatype Ctx = NullCtx | LiveCtx | FreedCtx

  /** `struct vnfs_conn`, as far as the boot touches it. */
  datatype Conn = Conn(state: ConnState, nfs: Ctx, rpc: bool)

  /** How `vnfs_new_connection` ends. */
  datatype Start =
    | Sent(mounted: seq<char>, req: NfsConnect.Request)
    | Failed
    /** The code goes on with a NULL libnfs context and dereferences it. */
    | NullContext

  /** `nfs_destroy_context` on a connection's pointer, which stays as it was. */
  function Destroyed(c: Ctx): (d: Ctx)
    ensures d != LiveCtx && (c != LiveCtx ==> d == c)
  {
    if c == LiveCtx then FreedCtx else c
  }

  /** `struct virtionfs`, as far as the older boot touches it. */
  class VirtioNfs {
    const nthreads: nat
    const conns: array<Conn>
    var connCntr: nat
    /** `vnfs->export`, which the as-written root lookup consumes. */
    var exportPath: seq<char>
    /** The file-level `default_verifier`, which the as-written `exchangeid` overwrites. */
    var defaultVerifier: seq<char>
    var sessionid: Option<seq<Byte>>
    var firstExchange: Option<NfsConnect.ExchangeReply>
    /** Whether the service thread of the main context `vnfs->nfs` runs. */
    var mainThread: bool
    const inodes: ChainTable<NfsInode>

    /**
     * What the boot keeps: once connection 0 is through, the first
     * reply and the session id are saved and the root inode is filed.
     */
    ghost predicate Valid()
      reads this, inodes
    {
      && conns.Length == nthreads && connCntr <= nthreads
      && inodes.Valid() && Keyed(inodes)
      && (connCntr > 0 ==> firstExchange.Some? && sessionid.Some? && NfsConnect.RootFiled(inodes))
    }

    /** The zeroed boot state, with the export to mount and look up. */
    constructor (nthreads: nat, exportPath: seq<char>, inodes: ChainTable<NfsInode>)
      requires inodes.Valid() && Keyed(inodes)
      ensures this.nthreads == nthreads && this.exportPath == exportPath && this.inodes == inodes
      ensures fresh(conns) && conns.Length == nthreads && forall j :: 0 <= j < nthreads ==> conns[j] == Conn(Uninit, NullCtx, false)
      ensures connCntr == 0 && defaultVerifier == DEFAULT_VERIFIER && mainThread
      ensures sessionid.None? && firstExchange.None?
      ensures Valid()
    {
      this.nthreads := nthreads;
      this.exportPath := exportPath;
      this.inodes := inodes;
      conns := new Conn[nthreads](j => Conn(Uninit, NullCtx, false));
      connCntr := 0;
      defaultVerifier := DEFAULT_VERIFIER;
      sessionid := None;
      firstExchange := None;
      mainThread := true;
    }

    /**
     * `vnfs_destroy_connection`: the connection loses its RPC context,
     * its libnfs context is destroyed (the pointer is kept), and the
     * service thread of the main context, not the connection's, stops.
     * The state it is passed is never stored.
     */
    method Destroy()
      requires connCntr < conns.Length
      modifies conns, this`mainThread
      ensures conns[connCntr] == old(conns[connCntr]).(rpc := false, nfs := Destroyed(old(conns[connCntr].nfs)))
      ensures !mainThread
      ensures forall j :: 0 <= j < conns.Length && j != connCntr ==> conns[j] == old(conns[j])
    {
      conns[connCntr] := conns[connCntr].(rpc := false, nfs := Destroyed(conns[connCntr].nfs));
      mainThread := false;
    }

    /**
     * `exchangeid` as written: `memcpy(default_verifier, v, 8)` copies the
     * uninitialised stack array `v` (here `stack`) over the default
     * verifier, `v[0] = conn_cntr` changes only `v`, and the overwritten
     * default verifier is sent: what goes out is whatever was on the
     * stack, the same for every connection.
     */
    method ExchangeIdAsWritten(stack: seq<char>) returns (req: NfsConnect.Request)
      requires |stack| == 8
      modifies this`defaultVerifier
      ensures defaultVerifier == stack
      ensures req == NfsConnect.ExchangeId(stack)
    {
      defaultVerifier := stack;
      req := NfsConnect.ExchangeId(defaultVerifier);
    }

    /** `exchangeid` sending the copy it marks with `conn_cntr`, leaving the default verifier alone. */
    method ExchangeId() returns (req: NfsConnect.Request)
      ensures req == NfsConnect.ExchangeId(ConnVerifier(connCntr))
    {
      var v := DEFAULT_VERIFIER;
      v := v[0 := (connCntr % 256) as char];
      assert v == [(connCntr % 256) as char] + DEFAULT_VERIFIER[1..];
      req := NfsConnect.ExchangeId(v);
    }

    /**
     * `vnfs_new_connection` as written: it tests the connection's stale
     * `nfs` pointer instead of the context it has just created. A zeroed
     * record fails whatever libnfs does; a stale pointer lets a failed
     * `nfs_init_context` through to a NULL dereference.
     */
    method NewConnectionAsWritten(env: NfsConnect.Libnfs, stack: seq<char>) returns (r: Start)
      requires connCntr < conns.Length && |stack| == 8
      modifies conns, this`defaultVerifier
      ensures old(conns[connCntr].nfs) == NullCtx ==>
        r == Failed && conns[connCntr] == old(conns[connCntr]).(state := Error)
      ensures old(conns[connCntr].nfs) != NullCtx && !env.initOk ==>
        r == NullContext && conns[connCntr] == old(conns[connCntr]).(nfs := NullCtx)
      ensures old(conns[connCntr].nfs) != NullCtx && env.initOk && !(env.mountOk && env.threadOk) ==>
        r == Failed && conns[connCntr] == Conn(Error, FreedCtx, false)
      ensures old(conns[connCntr].nfs) != NullCtx && env.initOk && env.mountOk && env.threadOk ==>
        r == Sent(exportPath, NfsConnect.ExchangeId(stack)) && defaultVerifier == stack
        && conns[connCntr] == old(conns[connCntr]).(nfs := LiveCtx, rpc := true)
      ensures forall j :: 0 <= j < conns.Length && j != connCntr ==> conns[j] == old(conns[j])
    {
      if conns[connCntr].nfs == NullCtx {
        conns[connCntr] := conns[connCntr].(state := Error);
        return Failed;
      }
      if !env.initOk {
        conns[connCntr] := conns[connCntr].(nfs := NullCtx);
        return NullContext;
      }
      conns[connCntr] := conns[connCntr].(nfs := LiveCtx, rpc := true);
      if !env.mountOk || !env.threadOk {
        conns[connCntr] := Conn(Error, Destroyed(conns[connCntr].nfs), false);
        return Failed;
      }
      var req := ExchangeIdAsWritten(stack);
      return Sent(exportPath, req);
    }

    /**
     * `vnfs_new_connection` testing the context it has just created, and
     * sending this connection's own verifier.
     */
    method NewConnection(env: NfsConnect.Libnfs) returns (r: Start)
      requires connCntr < conns.Length
      modifies conns
      ensures !env.initOk ==> r == Failed && conns[connCntr] == old(conns[connCntr]).(state := Error)
      ensures env.initOk && !(env.mountOk && env.threadOk) ==>
        r == Failed && conns[connCntr] == Conn(Error, FreedCtx, false)
      ensures env.initOk && env.mountOk && env.threadOk ==>
        r == Sent(exportPath, NfsConnect.ExchangeId(ConnVerifier(connCntr)))
        && conns[connCntr] == old(conns[connCntr]).(nfs := LiveCtx, rpc := true)
      ensures forall j :: 0 <= j < conns.Length && j != connCntr ==> conns[j] == old(conns[j])
    {
      if !env.initOk {
        conns[connCntr] := conns[connCntr].(state := Error);
        return Failed;
      }
      conns[connCntr] := conns[connCntr].(nfs := LiveCtx, rpc := true);
      if !env.mountOk || !env.threadOk {
        conns[connCntr] := Conn(Error, Destroyed(conns[connCntr].nfs), false);
        return Failed;
      }
      var req := ExchangeId();
      return Sent(exportPath, req);
    }

    /**
     * The slash count of `lookup_true_rootfh` as written: it walks
     * `vnfs->export` itself, so the stored export is empty afterwards.
     */
    method CountSlashesConsuming() returns (count: nat)
      modifies this`exportPath
      ensures count == Slashes(old(exportPath)) && exportPath == []
    {
      ghost var e := exportPath;
      count := 0;
      while exportPath != []
        invariant count + Slashes(exportPath) == Slashes(e)
        decreases |exportPath|
      {
        if exportPath[0] == '/' {
          count := count + 1;
        }
        exportPath := exportPath[1..];
      }
    }

    /**
     * `lookup_true_rootfh` as written: the export is consumed by the
     * slash count and the compound is `RootOpsAsWritten`.
     */
    method LookupTrueRootFhAsWritten() returns (req: NfsConnect.Request)
      requires exportPath != []
      modifies this`exportPath
      ensures exportPath == []
      ensures req == NfsConnect.Compound(RootOpsAsWritten(old(exportPath)))
    {
      var s := Chopped(exportPath);
      var count := CountSlashesConsuming();
      var op := BuildAsWritten(s, count);
      req := NfsConnect.Compound(op[..]);
    }

    /**
     * `lookup_true_rootfh` counting on a copy, sized by the tokens: the
     * stored export is left as it is and the compound walks down the path.
     */
    method LookupTrueRootFh() returns (req: NfsConnect.Request)
      requires exportPath != []
      ensures req == NfsConnect.Compound(RootCompound(Tokens(Chopped(exportPath))))
    {
      var op := NfsConnect.RootLookup(exportPath);
      req := NfsConnect.Compound(op[..]);
    }

    /**
     * `vnfs_conn_boot_done`: the counter moves on; while connections
     * remain, the next one starts.
     */
    method BootDone(env: NfsConnect.Libnfs) returns (r: Option<Start>)
      requires Valid() && connCntr < nthreads
      requires firstExchange.Some? && sessionid.Some? && NfsConnect.RootFiled(inodes)
      modifies this`connCntr, conns
      ensures Valid() && connCntr == old(connCntr) + 1
      ensures connCntr < nthreads <==> r.Some?
      ensures forall j :: 0 <= j < conns.Length && j != connCntr ==> conns[j] == old(conns[j])
    {
      connCntr := connCntr + 1;
      r := None;
      if connCntr < nthreads {
        var s := NewConnection(env);
        r := Some(s);
      }
    }

    /**
     * `exchangeid_cb`: a failed reply destroys the connection. Connection
     * 0 saves the reply and creates the session; a later connection binds
     * to the session when `trunkOk`, the server's verdict on session
     * trunking with the first reply, and otherwise does nothing.
     */
    method ExchangeIdCb(rpcOk: bool, status: int, reply: NfsConnect.ExchangeReply, trunkOk: bool)
      returns (req: NfsConnect.Request)
      requires Valid() && connCntr < nthreads
      modifies conns, this`mainThread, this`firstExchange
      ensures Valid()
      ensures !rpcOk || status != NfsConnect.NFS4_OK ==>
        req == NfsConnect.NoRequest && !mainThread && firstExchange == old(firstExchange)
      ensures rpcOk && status == NfsConnect.NFS4_OK ==> conns[..] == old(conns[..])
      ensures rpcOk && status == NfsConnect.NFS4_OK && connCntr == 0 ==>
        firstExchange == Some(reply) && req == NfsConnect.CreateSession(reply.clientid, reply.sequenceid)
      ensures rpcOk && status == NfsConnect.NFS4_OK && connCntr > 0 ==>
        firstExchange == old(firstExchange)
        && req == (if trunkOk then NfsConnect.BindConn(sessionid.value) else NfsConnect.NoRequest)
    {
      if !rpcOk || status != NfsConnect.NFS4_OK {
        Destroy();
        return NfsConnect.NoRequest;
      }
      if connCntr == 0 {
        firstExchange := Some(reply);
        return NfsConnect.CreateSession(reply.clientid, reply.sequenceid);
      }
      if trunkOk {
        return NfsConnect.BindConn(sessionid.value);
      }
      return NfsConnect.NoRequest;
    }

    /**
     * `create_session_cb`: a failed reply destroys the connection;
     * otherwise the session id is saved and the root lookup is sent.
     */
    method CreateSessionCb(rpcOk: bool, status: int, sid: seq<Byte>) returns (req: NfsConnect.Request)
      requires Valid() && connCntr == 0 < nthreads && exportPath != []
      modifies conns, this`mainThread, this`sessionid
      ensures Valid() && exportPath == old(exportPath)
      ensures !rpcOk || status != NfsConnect.NFS4_OK ==>
        req == NfsConnect.NoRequest && !mainThread && sessionid == old(sessionid)
      ensures rpcOk && status == NfsConnect.NFS4_OK ==>
        sessionid == Some(sid) && conns[..] == old(conns[..])
        && req == NfsConnect.Compound(RootCompound(Tokens(Chopped(exportPath))))
    {
      if !rpcOk || status != NfsConnect.NFS4_OK {
        Destroy();
        return NfsConnect.NoRequest;
      }
      sessionid := Some(sid);
      req := LookupTrueRootFh();
    }

    /**
     * `lookup_true_rootfh_cb`: a failed reply destroys the connection;
     * otherwise the root inode, with the handle GETFH returned, is filed
     * under `FUSE_ROOT_ID` and connection 0 is done.
     */
    method LookupRootCb(rpcOk: bool, status: int, fhLen: nat, env: NfsConnect.Libnfs)
      returns (root: Option<NfsInode>, next: Option<Start>)
      requires Valid() && connCntr == 0 < nthreads
      requires firstExchange.Some? && sessionid.Some?
      modifies inodes, conns, this`mainThread, this`connCntr
      ensures Valid()
      ensures !rpcOk || status != NfsConnect.NFS4_OK ==>
        root.None? && next.None? && connCntr == 0 && !mainThread && inodes.buckets == old(inodes.buckets)
      ensures rpcOk && status == NfsConnect.NFS4_OK ==>
        root.Some? && fresh(root.value) && root.value.fhLen == fhLen && connCntr == 1
        && Find(inodes.buckets[NfsConnect.FUSE_ROOT_ID % |inodes.buckets|], NfsConnect.FUSE_ROOT_ID) == root
        && (next.Some? <==> 1 < nthreads)
    {
      if !rpcOk || status != NfsConnect.NFS4_OK {
        Destroy();
        return None, None;
      }
      var rooti := new NfsInode(NfsConnect.FUSE_ROOT_ID);
      rooti.fhLen := fhLen;
      inodes.Insert(NfsConnect.FUSE_ROOT_ID, rooti);
      root := Some(rooti);
      next := BootDone(env);
    }

    /**
     * `bind_conn_cb`: a failed reply, or a binding without the fore
     * channel, destroys the connection; a binding to the saved session
     * finishes the connection; a binding to another session leaves the
     * boot where it is.
     */
    method BindConnCb(rpcOk: bool, status: int, fore: bool, sid: seq<Byte>, env: NfsConnect.Libnfs)
      returns (next: Option<Start>)
      requires Valid() && 0 < connCntr < nthreads
      modifies conns, this`mainThread, this`connCntr
      ensures Valid()
      ensures !rpcOk || status != NfsConnect.NFS4_OK || !fore ==>
        next.None? && connCntr == old(connCntr) && !mainThread
      ensures rpcOk && status == NfsConnect.NFS4_OK && fore && Some(sid) == sessionid ==>
        connCntr == old(connCntr) + 1 && (next.Some? <==> connCntr < nthreads)
      ensures rpcOk && status == NfsConnect.NFS4_OK && fore && Some(sid) != sessionid ==>
        next.None? && connCntr == old(connCntr) && conns[..] == old(conns[..])
    {
      if !rpcOk || status != NfsConnect.NFS4_OK || !fore {
        Destroy();
        return None;
      }
      next := None;
      if Some(sid) == sessionid {
        next := BootDone(env);
      }
    }
  }

  /**
   * The body of `lookup_true_rootfh` as written once `count` is known:
   * the array holds 3 + `count` operations, the LOOKUP loop runs while
   * the index is below `count + 1`, and GETFH goes where it stops.
   */
  method BuildAsWritten(s: seq<char>, count: nat) returns (op: array<Op>)
    ensures fresh(op) && op.Length == 3 + count
    ensures op[..] == [Sequence, PutRootFh] + Lookups(Tokens(s), if count == 0 then 0 else count - 1) + [GetFh]
                      + (if count == 0 then [] else [Unset])
  {
    op := new Op[3 + count](_ => Unset);
    op[0] := Sequence;
    op[1] := PutRootFh;
    ghost var before := op[..];
    var i := FillLookups(op, 2, count + 1, s, Tokens(s));
    FilledSplice(before, 2, i, Tokens(s));
    ghost var filled := op[..];
    op[i] := GetFh;
    AsWrittenEnds(before, Lookups(Tokens(s), i - 2), filled, op[..]);
    assert before[i + 1..] == if count == 0 then [] else [Unset];
  }

  /** Closing the as-written compound: GETFH right after the LOOKUPs, whatever follows it untouched. */
  lemma AsWrittenEnds(before: seq<Op>, lk: seq<Op>, filled: seq<Op>, a: seq<Op>)
    requires |before| >= |lk| + 3 && before[0] == Sequence && before[1] == PutRootFh
    requires filled == before[..2] + lk + before[|lk| + 2..]
    requires a == filled[|lk| + 2 := GetFh]
    ensures a == [Sequence, PutRootFh] + lk + [GetFh] + before[|lk| + 3..]
  {
    assert before[..2] == [Sequence, PutRootFh];
  }
}
