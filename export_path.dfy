/**
 * Turning the exported path into the compound that finds its file
 * handle: SEQUENCE, PUTROOTFH, one LOOKUP per path component, GETFH.
 * Both NFS backends chop one trailing '/', count slashes to size the
 * operation array, and take the components from successive
 * `strtok(…, "/")` calls. This module holds the string side: the slash
 * count, `strtok`, well-formed paths, and the loop that fills the LOOKUPs.
 */
module ExportPath {
  import opened Common

  /** One slot of the operation array; `Unset` is a slot nothing wrote. */
  datatype Op = Unset | Sequence | PutRootFh | Lookup(name: Option<seq<char>>) | GetFh | ReclaimComplete

  /** No character of `c` is a '/'. */
  predicate SlashFree(c: seq<char>)
  {
    forall k :: 0 <= k < |c| ==> c[k] != '/'
  }

  /** A path component: a non-empty run of non-slash characters. */
  predicate Component(c: seq<char>)
  {
    c != [] && SlashFree(c)
  }

  /** The number of '/' characters in `s`. */
  function Slashes(s: seq<char>): (n: nat)
    ensures n <= |s|
    ensures n == 0 <==> SlashFree(s)
  {
    if s == [] then 0 else (if s[0] == '/' then 1 else 0) + Slashes(s[1..])
  }

  /**
   * The export after one trailing '/' is chopped off; the source reads
   * the last character, so the export is never empty.
   */
  function Chopped(e: seq<char>): (s: seq<char>)
    requires e != []
    ensures |e| - 1 <= |s| <= |e| && s == e[..|s|]
    ensures |s| < |e| <==> e[|e| - 1] == '/'
  {
    if e[|e| - 1] == '/' then e[..|e| - 1] else e
  }

  /** What is left of `s` once its leading slashes are skipped. */
  function SkipSlashes(s: seq<char>): (r: seq<char>)
    ensures |r| <= |s| && (r != [] ==> r[0] != '/')
  {
    if s != [] && s[0] == '/' then SkipSlashes(s[1..]) else s
  }

  /** Skipping leaves a suffix, and what it skipped is slashes only. */
  lemma {:induction false} SkipSlashesSuffix(s: seq<char>)
    ensures SkipSlashes(s) == s[|s| - |SkipSlashes(s)|..]
    ensures forall k :: 0 <= k < |s| - |SkipSlashes(s)| ==> s[k] == '/'
  {
    if s != [] && s[0] == '/' {
      SkipSlashesSuffix(s[1..]);
      assert s[1..][|s| - 1 - |SkipSlashes(s)|..] == s[|s| - |SkipSlashes(s)|..];
      forall k | 1 <= k < |s| - |SkipSlashes(s)|
        ensures s[k] == '/'
      {
        assert s[1..][k - 1] == s[k];
      }
    }
  }

  /** The length of the run of non-slash characters at the head of `s`. */
  function TokenLen(s: seq<char>): (n: nat)
    ensures n <= |s| && (n < |s| ==> s[n] == '/')
  {
    if s == [] || s[0] == '/' then 0 else 1 + TokenLen(s[1..])
  }

  /** The run `TokenLen` measures holds no slash. */
  lemma {:induction false} TokenLenSlashFree(s: seq<char>)
    ensures SlashFree(s[..TokenLen(s)])
  {
    if s != [] && s[0] != '/' {
      TokenLenSlashFree(s[1..]);
      assert s[..TokenLen(s)] == [s[0]] + s[1..][..TokenLen(s[1..])];
    }
  }

  /** One `strtok(…, "/")` call: the token it returns and where the next call resumes. */
  datatype Strtok = Strtok(token: Option<seq<char>>, rest: seq<char>)

  /**
   * `strtok` on the text `s` that remains: leading slashes are skipped,
   * the token runs to the next '/', which is overwritten and skipped.
   * Once nothing is left, later calls return NULL too.
   */
  function NextToken(s: seq<char>): (r: Strtok)
    ensures r.token.None? ==> r.rest == []
    ensures r.token.Some? ==> r.token.value != [] && |r.rest| < |s|
  {
    var t := SkipSlashes(s);
    if t == [] then Strtok(None, [])
    else
      var n := TokenLen(t);
      Strtok(Some(t[..n]), if n < |t| then t[n + 1..] else [])
  }

  /** `strtok` returns NULL exactly when nothing but slashes remains; otherwise a path component. */
  lemma NextTokenSpec(s: seq<char>)
    ensures NextToken(s).token.None? <==> forall k :: 0 <= k < |s| ==> s[k] == '/'
    ensures NextToken(s).token.Some? ==> Component(NextToken(s).token.value)
  {
    var t := SkipSlashes(s);
    SkipSlashesSuffix(s);
    if t != [] {
      assert s[|s| - |t|] == t[0];
      TokenLenSlashFree(t);
    }
  }

  /** Every token successive `strtok` calls return on `s`, in order. */
  function Tokens(s: seq<char>): (ts: seq<seq<char>>)
    decreases |s|
  {
    var r := NextToken(s);
    if r.token.None? then [] else [r.token.value] + Tokens(r.rest)
  }

  /** Every token is a path component. */
  lemma {:induction false} TokensComponents(s: seq<char>)
    ensures Components(Tokens(s))
    decreases |s|
  {
    var r := NextToken(s);
    NextTokenSpec(s);
    if r.token.Some? {
      TokensComponents(r.rest);
    }
  }

  /** The tokens still to come: the current one, if any, then those of the rest. */
  function Pending(r: Strtok): seq<seq<char>>
  {
    if r.token.None? then [] else [r.token.value] + Tokens(r.rest)
  }

  /** The suffix of `ts` from index `k`, empty once `k` runs past the end. */
  function From(ts: seq<seq<char>>, k: nat): seq<seq<char>>
  {
    if k <= |ts| then ts[k..] else []
  }

  /** The LOOKUPs for `n` `strtok` results: a NULL name once the tokens run out. */
  function Lookups(ts: seq<seq<char>>, n: nat): (ops: seq<Op>)
    ensures |ops| == n
  {
    if n == 0 then [] else Lookups(ts, n - 1) + [Lookup(TokenAt(ts, n - 1))]
  }

  /** The `j`-th LOOKUP names the `j`-th token, or NULL past the last one. */
  lemma {:induction false} LookupsAt(ts: seq<seq<char>>, n: nat, j: nat)
    requires j < n
    ensures Lookups(ts, n)[j] == Lookup(TokenAt(ts, j))
  {
    if j < n - 1 {
      LookupsAt(ts, n - 1, j);
    }
  }

  /** The compound that walks from the server's root down `names`. */
  function RootCompound(names: seq<seq<char>>): (ops: seq<Op>)
    ensures |ops| == |names| + 3
  {
    [Sequence, PutRootFh] + Lookups(names, |names|) + [GetFh]
  }

  /** The path "/c0/c1/…" spelt by the components `cs`. */
  function Join(cs: seq<seq<char>>): (p: seq<char>)
  {
    if cs == [] then [] else ['/'] + cs[0] + Join(cs[1..])
  }

  /** Every element of `cs` is a path component. */
  predicate Components(cs: seq<seq<char>>)
  {
    forall j :: 0 <= j < |cs| ==> Component(cs[j])
  }

  /**
   * The slash-count loop: walks a pointer over the string and counts
   * each '/' it passes.
   */
  method CountSlashes(s: seq<char>) returns (count: nat)
    ensures count == Slashes(s)
  {
    count := 0;
    var k := 0;
    while k < |s|
      invariant k <= |s| && count + Slashes(s[k..]) == Slashes(s)
    {
      assert s[k..][1..] == s[k + 1..];
      if s[k] == '/' {
        count := count + 1;
      }
      k := k + 1;
    }
  }

  /** The `j`-th `strtok` result: the `j`-th token, or NULL past the last one. */
  function TokenAt(toks: seq<seq<char>>, j: nat): Option<seq<char>>
  {
    if j < |toks| then Some(toks[j]) else None
  }

  /** The state after the first `strtok` call on `s` and `j` calls after it. */
  function StrtokAfter(s: seq<char>, j: nat): Strtok
  {
    if j == 0 then NextToken(s) else NextToken(StrtokAfter(s, j - 1).rest)
  }

  /**
   * The operation array once the LOOKUP loop has written slots `start`
   * up to `i` of `before`, slot `start + j` getting `TokenAt(toks, j)`.
   */
  function Filled(before: seq<Op>, start: nat, i: nat, toks: seq<seq<char>>): (a: seq<Op>)
    requires start <= i <= |before|
    ensures |a| == |before|
    decreases i - start
  {
    if i == start then before else Filled(before, start, i - 1, toks)[i - 1 := Lookup(TokenAt(toks, i - 1 - start))]
  }

  /**
   * The LOOKUP loop: from slot `start` while the index is below `end`,
   * each slot gets a LOOKUP of the current `strtok` result, and `strtok`
   * runs again; the first call is on `s`, whose tokens are `toks`.
   */
  method FillLookups(op: array<Op>, start: nat, end: nat, s: seq<char>, ghost toks: seq<seq<char>>) returns (next: nat)
    requires start <= op.Length && end <= op.Length && toks == Tokens(s)
    modifies op
    ensures next == if start <= end then end else start
    ensures start <= next <= |old(op[..])|
    ensures op[..] == Filled(old(op[..]), start, next, toks)
  {
    ghost var before := op[..];
    var r := NextToken(s);
    next := start;
    ghost var k := 0;
    while next < end
      invariant start <= next <= op.Length && (next <= end || next == start) && next == start + k
      invariant op[..] == Filled(before, start, next, toks)
      invariant r == StrtokAfter(s, k)
    {
      StrtokNext(s, k, r);
      StrtokAfterToken(s, k);
      assert r.token == TokenAt(toks, k);
      op[next] := Lookup(r.token);
      r := NextToken(r.rest);
      next := next + 1;
      k := k + 1;
    }
  }

  /** The call after the `k`-th is the `k + 1`-th. */
  lemma StrtokNext(s: seq<char>, k: nat, r: Strtok)
    requires r == StrtokAfter(s, k)
    ensures NextToken(r.rest) == StrtokAfter(s, k + 1)
  {
  }

  /** The `j`-th `strtok` result is the `j`-th token, or NULL once they run out. */
  lemma StrtokAfterToken(s: seq<char>, j: nat)
    ensures StrtokAfter(s, j).token == TokenAt(Tokens(s), j)
  {
    StrtokAfterPending(s, j);
    PendingHead(StrtokAfter(s, j), Tokens(s), j);
  }

  /** After the `j`-th call, what is pending is the tokens from the `j`-th on. */
  lemma {:induction false} StrtokAfterPending(s: seq<char>, j: nat)
    ensures Pending(StrtokAfter(s, j)) == From(Tokens(s), j)
  {
    if j == 0 {
      FromZero(Tokens(s));
    } else {
      StrtokAfterPending(s, j - 1);
      PendingNext(StrtokAfter(s, j - 1), Tokens(s), j - 1);
    }
  }

  /** All the tokens are pending before the first one is taken. */
  lemma FromZero(toks: seq<seq<char>>)
    ensures From(toks, 0) == toks
  {
    assert toks[0..] == toks;
  }

  /** When the pending tokens are those from the `k`-th on, the next call leaves those from the `k + 1`-th on. */
  lemma PendingNext(r: Strtok, toks: seq<seq<char>>, k: nat)
    requires Pending(r) == From(toks, k) && (r.token.None? ==> r.rest == [])
    ensures Pending(NextToken(r.rest)) == From(toks, k + 1)
  {
    if r.token.Some? {
      assert toks[k + 1..] == toks[k..][1..];
    }
  }

  /** When the pending tokens are those from the `k`-th on, the current result is the `k`-th token. */
  lemma PendingHead(r: Strtok, toks: seq<seq<char>>, k: nat)
    requires Pending(r) == From(toks, k)
    ensures r.token == TokenAt(toks, k)
  {
    if r.token.Some? {
      assert toks[k..][0] == r.token.value;
    }
  }

  /** What the LOOKUP loop leaves: the LOOKUPs of the tokens in slots `start` up to `i`, the rest as before. */
  lemma {:induction false} FilledSplice(before: seq<Op>, start: nat, i: nat, toks: seq<seq<char>>)
    requires start <= i <= |before|
    ensures Filled(before, start, i, toks) == before[..start] + Lookups(toks, i - start) + before[i..]
    decreases i - start
  {
    if i > start {
      FilledSplice(before, start, i - 1, toks);
      assert before[i - 1..] == [before[i - 1]] + before[i..];
    }
  }

  /** `strtok` skips the slashes in front of a token, so a leading '/' changes nothing. */
  lemma TokensSkipSlash(s: seq<char>)
    ensures Tokens(['/'] + s) == Tokens(s)
  {
    assert (['/'] + s)[1..] == s;
    assert NextToken(['/'] + s) == NextToken(s);
  }

  /** A well-formed path "/c0/c1/…" has one slash per component. */
  lemma {:induction false} JoinSlashes(cs: seq<seq<char>>)
    requires Components(cs)
    ensures Slashes(Join(cs)) == |cs|
  {
    if cs != [] {
      JoinSlashes(cs[1..]);
      SlashesAppend(cs[0], Join(cs[1..]));
      assert (['/'] + cs[0] + Join(cs[1..]))[1..] == cs[0] + Join(cs[1..]);
    }
  }

  /** A slash-free prefix adds no slashes. */
  lemma {:induction false} SlashesAppend(c: seq<char>, t: seq<char>)
    requires SlashFree(c)
    ensures Slashes(c + t) == Slashes(t)
  {
    if c != [] {
      assert (c + t)[0] == c[0];
      assert (c + t)[1..] == c[1..] + t;
      SlashesAppend(c[1..], t);
    } else {
      assert c + t == t;
    }
  }

  /** A well-formed path is taken apart by `strtok` into exactly its components. */
  lemma {:induction false} JoinTokens(cs: seq<seq<char>>)
    requires Components(cs)
    ensures Tokens(Join(cs)) == cs
  {
    if cs != [] {
      var c, tail := cs[0], Join(cs[1..]);
      assert Join(cs) == ['/'] + (c + tail);
      TokensSkipSlash(c + tail);
      TokensCons(c, tail);
      JoinTokens(cs[1..]);
    }
  }

  /** A component followed by nothing or by a '/' is the first token. */
  lemma TokensCons(c: seq<char>, tail: seq<char>)
    requires Component(c) && (tail == [] || tail[0] == '/')
    ensures Tokens(c + tail) == [c] + Tokens(tail)
  {
    var p := c + tail;
    assert SkipSlashes(p) == p by {
      assert p[0] == c[0];
    }
    TokenLenPrefix(c, tail);
    assert p[..|c|] == c;
    if tail != [] {
      assert p[|c| + 1..] == tail[1..];
      assert tail == ['/'] + tail[1..];
      TokensSkipSlash(tail[1..]);
    }
  }

  /** The token at the head of "c/…" is `c`. */
  lemma {:induction false} TokenLenPrefix(c: seq<char>, tail: seq<char>)
    requires SlashFree(c) && (tail == [] || tail[0] == '/')
    ensures TokenLen(c + tail) == |c|
  {
    if c != [] {
      assert (c + tail)[0] == c[0];
      assert (c + tail)[1..] == c[1..] + tail;
      TokenLenPrefix(c[1..], tail);
    } else {
      assert c + tail == tail;
    }
  }

  /** The last character of a non-empty well-formed path ends its last component. */
  lemma {:induction false} JoinLast(cs: seq<seq<char>>)
    requires Components(cs) && cs != []
    ensures Join(cs) != [] && Join(cs)[|Join(cs)| - 1] != '/'
  {
    var c := cs[0];
    if cs[1..] == [] {
      assert Join(cs) == ['/'] + c;
    } else {
      JoinLast(cs[1..]);
      assert Join(cs) == (['/'] + c) + Join(cs[1..]);
    }
  }

  /** Chopping one trailing '/' from a well-formed path, with or without it, gives the path. */
  lemma ChoppedJoin(cs: seq<seq<char>>, e: seq<char>)
    requires Components(cs)
    requires e == Join(cs) + ['/'] || (cs != [] && e == Join(cs))
    ensures e != [] && Chopped(e) == Join(cs)
  {
    if e == Join(cs) + ['/'] {
      assert e[..|e| - 1] == Join(cs);
    } else {
      JoinLast(cs);
    }
  }
}
