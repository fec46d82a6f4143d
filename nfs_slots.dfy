/**
 * The NFSv4.1 session slot table of the NFS backend
 * (dpfs_nfs/dpfs_nfs.c): every request claims a free slot, bumps the
 * slot's sequence id and names it in its SEQUENCE operation (sections
 * 2.10.6.1 and 18.46 of RFC 5661); the reply's callback gives the slot
 * back.
 */
module NfsSlots {
  import opened Common

  /** `struct vnfs_slot`: the slot's last sequence id (a 32-bit counter) and whether a request holds it. */
  datatype SessionSlot = SessionSlot(seqid: Uint32, inUse: bool)

  /** Index of the first slot not in use; `|s|` when every slot is. */
  function FirstFree(s: seq<SessionSlot>): (i: nat)
    ensures i <= |s|
    ensures forall j :: 0 <= j < i ==> s[j].inUse
    ensures i < |s| ==> !s[i].inUse
  {
    if s == [] then 0 else if !s[0].inUse then 0 else 1 + FirstFree(s[1..])
  }

  /** Index of the first slot in use; `|s|` when none is. */
  function LowestInUse(s: seq<SessionSlot>): (i: nat)
    ensures i <= |s|
    ensures forall j :: 0 <= j < i ==> !s[j].inUse
    ensures i < |s| ==> s[i].inUse
  {
    if s == [] then 0 else if s[0].inUse then 0 else 1 + LowestInUse(s[1..])
  }

  /** Index of the last slot in use; -1 when none is. */
  function HighestInUse(s: seq<SessionSlot>): (i: int)
    ensures -1 <= i < |s|
    ensures i >= 0 ==> s[i].inUse
    ensures forall j :: i < j < |s| ==> !s[j].inUse
  {
    if s == [] then -1
    else if s[|s| - 1].inUse then |s| - 1
    else HighestInUse(s[..|s| - 1])
  }

  /** The in-use flags of the slots. */
  function Flags(s: seq<SessionSlot>): (f: seq<bool>)
    ensures |f| == |s| && forall j :: 0 <= j < |s| ==> f[j] == s[j].inUse
  {
    seq(|s|, j requires 0 <= j < |s| => s[j].inUse)
  }

  /** How many slots are in use. */
  function InUseCount(s: seq<SessionSlot>): (n: nat)
    ensures n <= |s|
  {
    if s == [] then 0 else (if s[|s| - 1].inUse then 1 else 0) + InUseCount(s[..|s| - 1])
  }

  /** The slot table after claiming slot `i`: in use, with its sequence id one further. */
  function Claimed(s: seq<SessionSlot>, i: nat): (r: seq<SessionSlot>)
    requires i < |s|
    ensures |r| == |s| && r[i].inUse && r[i].seqid == (s[i].seqid + 1) % U32
    ensures forall j :: 0 <= j < |s| && j != i ==> r[j] == s[j]
  {
    s[i := SessionSlot((s[i].seqid + 1) % U32, true)]
  }

  /** The slot table after slot `i` is given back. */
  function Freed(s: seq<SessionSlot>, i: nat): (r: seq<SessionSlot>)
    requires i < |s|
    ensures |r| == |s| && !r[i].inUse && r[i].seqid == s[i].seqid
    ensures forall j :: 0 <= j < |s| && j != i ==> r[j] == s[j]
  {
    s[i := s[i].(inUse := false)]
  }

  /** Changing the in-use flag of one slot changes the count by one. */
  lemma {:induction false} InUseCountUpdate(s: seq<SessionSlot>, i: nat, x: SessionSlot)
    requires i < |s|
    ensures InUseCount(s[i := x]) == InUseCount(s) - (if s[i].inUse then 1 else 0) + (if x.inUse then 1 else 0)
  {
    var last := |s| - 1;
    if i < last {
      assert s[i := x][..last] == s[..last][i := x];
      InUseCountUpdate(s[..last], i, x);
    } else {
      assert s[i := x][..last] == s[..last];
    }
  }

  /** Claiming a free slot puts exactly one more slot in use. */
  lemma ClaimCount(s: seq<SessionSlot>, i: nat)
    requires i < |s| && !s[i].inUse
    ensures InUseCount(Claimed(s, i)) == InUseCount(s) + 1
  {
    InUseCountUpdate(s, i, Claimed(s, i)[i]);
  }

  /**
   * Claiming a free slot and giving it back leaves every in-use flag as
   * it was, with that slot's sequence id advanced by one.
   */
  lemma ClaimThenFree(s: seq<SessionSlot>, i: nat)
    requires i < |s| && !s[i].inUse
    ensures Flags(Freed(Claimed(s, i), i)) == Flags(s)
    ensures Freed(Claimed(s, i), i)[i].seqid == (s[i].seqid + 1) % U32
  {
    var r := Freed(Claimed(s, i), i);
    forall j | 0 <= j < |s|
      ensures Flags(r)[j] == Flags(s)[j]
    {
    }
  }

  /** The arguments of the SEQUENCE operation a request starts with. */
  datatype SequenceArgs = SequenceArgs(slotid: nat, highestSlotid: int, sequenceid: Uint32, cachethis: bool)

  /** The slots of one connection's session (`struct vnfs_session`). */
  class Session {
    var slots: array<SessionSlot>

    /** `create_session_cb`: `nslots` zeroed slots. */
    constructor (nslots: nat)
      ensures fresh(slots) && slots.Length == nslots
      ensures forall j :: 0 <= j < nslots ==> slots[j] == SessionSlot(0, false)
    {
      slots := new SessionSlot[nslots](_ => SessionSlot(0, false));
    }

    /**
     * The slot scan of `vnfs4_op_sequence`: the first slot not in use is
     * claimed and its index returned; `None` when every slot is in use
     * (the poller then sleeps and scans again).
     */
    method ClaimSlot() returns (r: Option<nat>)
      modifies slots
      ensures r.None? <==> FirstFree(old(slots[..])) == slots.Length
      ensures r.None? ==> slots[..] == old(slots[..])
      ensures r.Some? ==> r.value == FirstFree(old(slots[..])) && r.value < slots.Length
                          && slots[..] == old(slots[..])[r.value := old(slots[r.value]).(inUse := true)]
    {
      var i := 0;
      while i < slots.Length
        invariant i <= slots.Length && forall j :: 0 <= j < i ==> slots[j].inUse
      {
        if !slots[i].inUse {
          assert FirstFree(slots[..]) == i by {
            FirstFreeAt(slots[..], i);
          }
          slots[i] := slots[i].(inUse := true);
          return Some(i);
        }
        i := i + 1;
      }
      FirstFreeAt(slots[..], i);
      return None;
    }

    /**
     * The `sa_highest_slotid` loop as written: it counts down from
     * `nslots`, so its first read (`beyond`) lies one past the array,
     * and it overwrites its result at every slot in use, so it ends at
     * the lowest one.
     */
    method HighestAsWritten(beyond: bool, prior: int) returns (highest: int, readPastEnd: bool)
      ensures readPastEnd
      ensures LowestInUse(slots[..]) < slots.Length ==> highest == LowestInUse(slots[..])
    {
      highest := if beyond then slots.Length else prior;
      readPastEnd := true;
      var i := slots.Length - 1;
      while i >= 0
        invariant -1 <= i < slots.Length
        invariant (exists j :: i < j < slots.Length && slots[j].inUse) ==> highest == MinInUseAbove(slots[..], i)
      {
        if slots[i].inUse {
          highest := i;
        }
        i := i - 1;
      }
      if LowestInUse(slots[..]) < slots.Length {
        assert slots[LowestInUse(slots[..])].inUse;
        MinInUseIsLowest(slots[..]);
      }
    }

    /** The `sa_highest_slotid` loop counting up over the slots, ending at the last one in use. */
    method Highest() returns (highest: int)
      ensures highest == HighestInUse(slots[..])
    {
      highest := -1;
      var i := 0;
      while i < slots.Length
        invariant i <= slots.Length && highest == HighestInUse(slots[..i])
      {
        assert slots[..i + 1][..i] == slots[..i];
        if slots[i].inUse {
          highest := i;
        }
        i := i + 1;
      }
      assert slots[..i] == slots[..];
    }

    /**
     * `vnfs4_op_sequence` as written: claims the first free slot,
     * advances its sequence id and reports the lowest slot in use as the
     * highest.
     */
    method SequenceAsWritten(cachethis: bool, beyond: bool, prior: int) returns (r: Option<SequenceArgs>)
      modifies slots
      ensures r.None? <==> FirstFree(old(slots[..])) == slots.Length
      ensures r.None? ==> slots[..] == old(slots[..])
      ensures r.Some? ==> && r.value.slotid == FirstFree(old(slots[..])) < slots.Length
                          && slots[..] == Claimed(old(slots[..]), r.value.slotid)
                          && r.value.sequenceid == slots[r.value.slotid].seqid
                          && r.value.highestSlotid == LowestInUse(slots[..])
    {
      var claimed := ClaimSlot();
      if claimed.None? {
        return None;
      }
      var id := claimed.value;
      var highest, _ := HighestAsWritten(beyond, prior);
      slots[id] := SessionSlot((slots[id].seqid + 1) % U32, true);
      assert slots[..] == Claimed(old(slots[..]), id);
      r := Some(SequenceArgs(id, highest, slots[id].seqid, cachethis));
    }

    /**
     * `vnfs4_op_sequence` with the highest slot computed as its comment
     * says: the first free slot is claimed, its sequence id advanced and
     * sent, and the highest slot in use, at least the claimed one, is
     * reported.
     */
    method Sequence(cachethis: bool) returns (r: Option<SequenceArgs>)
      modifies slots
      ensures r.None? <==> FirstFree(old(slots[..])) == slots.Length
      ensures r.None? ==> slots[..] == old(slots[..])
      ensures r.Some? ==> && r.value.slotid == FirstFree(old(slots[..])) < slots.Length
                          && slots[..] == Claimed(old(slots[..]), r.value.slotid)
                          && r.value.sequenceid == slots[r.value.slotid].seqid
                          && r.value.highestSlotid == HighestInUse(slots[..]) >= r.value.slotid
                          && r.value.cachethis == cachethis
    {
      var claimed := ClaimSlot();
      if claimed.None? {
        return None;
      }
      var id := claimed.value;
      var highest := Highest();
      slots[id] := SessionSlot((slots[id].seqid + 1) % U32, true);
      assert slots[..] == Claimed(old(slots[..]), id);
      r := Some(SequenceArgs(id, highest, slots[id].seqid, cachethis));
    }

    /**
     * What every RPC callback does first, and `vnfs4_handle_sequence`
     * with the slot id of the SEQUENCE reply: the slot is given back.
     */
    method Release(slotid: nat)
      requires slotid < slots.Length
      modifies slots
      ensures slots[..] == Freed(old(slots[..]), slotid)
    {
      slots[slotid] := slots[slotid].(inUse := false);
    }
  }

  /** The first free slot is the first whose flag is clear. */
  lemma FirstFreeAt(s: seq<SessionSlot>, i: nat)
    requires i <= |s| && (forall j :: 0 <= j < i ==> s[j].inUse) && (i < |s| ==> !s[i].inUse)
    ensures FirstFree(s) == i
  {
  }

  /** The smallest index above `i` of a slot in use (`|s|` when there is none). */
  function MinInUseAbove(s: seq<SessionSlot>, i: int): (m: int)
    requires -1 <= i < |s|
    ensures i < m <= |s|
    ensures m < |s| ==> s[m].inUse
    ensures forall j :: i < j < m ==> !s[j].inUse
    decreases |s| - i
  {
    if i + 1 == |s| then |s| else if s[i + 1].inUse then i + 1 else MinInUseAbove(s, i + 1)
  }

  /**
   * Three slots, the first two in use: the loop as written reports slot
   * 0, while the highest slot in use is 1.
   */
  lemma LowestIsNotHighest()
    ensures LowestInUse([SessionSlot(1, true), SessionSlot(1, true), SessionSlot(0, false)]) == 0
    ensures HighestInUse([SessionSlot(1, true), SessionSlot(1, true), SessionSlot(0, false)]) == 1
  {
    var s := [SessionSlot(1, true), SessionSlot(1, true), SessionSlot(0, false)];
    assert s[..2][..1] == [SessionSlot(1, true)];
  }

  /** Taken from the start, the smallest index of a slot in use is the lowest. */
  lemma MinInUseIsLowest(s: seq<SessionSlot>)
    ensures MinInUseAbove(s, -1) == LowestInUse(s)
  {
  }

  /**
   * A request handler between claiming its slot and sending: when the
   * node id is unknown (`found` false) it replies -ENOENT. As written
   * (create, fsync, write, …) the slot is not given back.
   */
  method FailAfterClaimAsWritten(s: Session, found: bool) returns (sent: bool)
    requires FirstFree(s.slots[..]) < s.slots.Length
    modifies s.slots
    ensures sent == found
    ensures InUseCount(s.slots[..]) == InUseCount(old(s.slots[..])) + 1
  {
    var r := s.Sequence(false);
    ClaimCount(old(s.slots[..]), r.value.slotid);
    sent := found;
  }

  /** The same handler giving the slot back on the error path: nothing stays claimed. */
  method FailAfterClaim(s: Session, found: bool) returns (sent: bool)
    requires FirstFree(s.slots[..]) < s.slots.Length
    modifies s.slots
    ensures sent == found
    ensures !found ==> Flags(s.slots[..]) == Flags(old(s.slots[..]))
    ensures found ==> InUseCount(s.slots[..]) == InUseCount(old(s.slots[..])) + 1
  {
    var r := s.Sequence(false);
    ClaimCount(old(s.slots[..]), r.value.slotid);
    ClaimThenFree(old(s.slots[..]), r.value.slotid);
    if !found {
      s.Release(r.value.slotid);
      return false;
    }
    return true;
  }
}
