/**
 * The intrusive circular doubly linked list of virtiofuser_aio/list.h.
 * Every node carries `next` and `prev`; a list is a ring of nodes that
 * starts at its head node, so that an empty list is a head whose links
 * point at itself.
 *
 * The ring is described by the ghost sequence `r` of its nodes, head
 * first: `r[i].next == r[i+1]` and `r[i+1].prev == r[i]`, and the last node
 * links back to the head. Each operation is proved against the sequence
 * it leaves behind.
 */
module IntrusiveList {
  /** `struct list_head`: the two links a node carries. */
  class ListHead {
    var next: ListHead?
    var prev: ListHead?

    /** A node whose links are not set yet. */
    constructor ()
      ensures next == null && prev == null
    {
      next, prev := null, null;
    }
  }

  /** The nodes of `r` form a ring in this order, each node once. */
  ghost predicate Ring(r: seq<ListHead>)
    reads r
  {
    |r| >= 1 &&
    (forall i, j :: 0 <= i < j < |r| ==> r[i] != r[j]) &&
    (forall i :: 0 <= i < |r| - 1 ==> r[i].next == r[i + 1] && r[i + 1].prev == r[i]) &&
    r[|r| - 1].next == r[0] && r[0].prev == r[|r| - 1]
  }

  /** The index of the node after `r[k]` on the ring. */
  function Succ(r: seq<ListHead>, k: nat): nat
    requires k < |r|
  {
    if k + 1 < |r| then k + 1 else 0
  }

  /** The ring with `e` placed right after `r[k]`. */
  function InsertAfter(r: seq<ListHead>, k: nat, e: ListHead): seq<ListHead>
    requires k < |r|
  {
    r[..k + 1] + [e] + r[k + 1..]
  }

  /** The ring without `r[k]`. */
  function RemoveAt(r: seq<ListHead>, k: nat): seq<ListHead>
    requires k < |r|
  {
    r[..k] + r[k + 1..]
  }

  /** On a ring, every node's neighbours link back to it and lie on the ring. */
  lemma RingLinks(r: seq<ListHead>, i: nat)
    requires Ring(r) && i < |r|
    ensures r[i].next != null && r[i].prev != null
    ensures r[i].next in r && r[i].prev in r
    ensures r[i].next.prev == r[i] && r[i].prev.next == r[i]
  {
    if i + 1 < |r| {
      assert r[i].next == r[i + 1];
    } else {
      assert r[i].next == r[0];
    }
    if i > 0 {
      assert r[i - 1].next == r[i];
    } else {
      assert r[i].prev == r[|r| - 1];
    }
  }

  /** `init_list_head`: both links point at the node itself, a ring of one. */
  method InitListHead(list: ListHead)
    modifies list
    ensures list.next == list && list.prev == list
    ensures Ring([list])
  {
    list.next := list;
    list.prev := list;
  }

  /** `list_empty`: the head's `next` is the head. */
  function ListEmpty(head: ListHead): bool
    reads head
  {
    head.next == head
  }

  /** A list is empty exactly when its ring holds the head alone. */
  lemma ListEmptyIff(r: seq<ListHead>)
    requires Ring(r)
    ensures ListEmpty(r[0]) <==> |r| == 1
  {
    if |r| > 1 {
      assert r[0].next == r[1];
      assert r[0] != r[1];
    }
  }

  /**
   * `list_add`: `e` is linked in between `prev` and `next`, two neighbours
   * on a ring. Afterwards `prev.next == e == next.prev` and the ring holds
   * `e` right after `prev`.
   */
  method ListAdd(e: ListHead, prev: ListHead, next: ListHead, ghost r: seq<ListHead>, ghost k: nat)
    requires Ring(r) && k < |r| && prev == r[k] && next == r[Succ(r, k)] && e !in r
    modifies e, prev, next
    ensures prev.next == e && e.prev == prev && e.next == next && next.prev == e
    ensures Ring(InsertAfter(r, k, e))
  {
    next.prev := e;
    e.next := next;
    e.prev := prev;
    prev.next := e;
    InsertAfterRing(r, k, e);
  }

  /** The links `ListAdd` leaves behind make a ring of the nodes with `e` after `r[k]`. */
  lemma InsertAfterRing(r: seq<ListHead>, k: nat, e: ListHead)
    requires |r| >= 1 && k < |r| && e !in r
    requires forall i, j :: 0 <= i < j < |r| ==> r[i] != r[j]
    requires forall i :: 0 <= i < |r| - 1 && i != k ==> r[i].next == r[i + 1] && r[i + 1].prev == r[i]
    requires k < |r| - 1 || r[|r| - 1].next == e
    requires k == |r| - 1 || r[|r| - 1].next == r[0]
    requires k < |r| - 1 || r[0].prev == e
    requires k == |r| - 1 || r[0].prev == r[|r| - 1]
    requires r[k].next == e && e.prev == r[k] && e.next == r[Succ(r, k)] && r[Succ(r, k)].prev == e
    ensures Ring(InsertAfter(r, k, e))
  {
    var s := InsertAfter(r, k, e);
    assert |s| == |r| + 1;
    forall i | 0 <= i < |s| - 1
      ensures s[i].next == s[i + 1] && s[i + 1].prev == s[i]
    {
      if i < k {
        assert s[i] == r[i] && s[i + 1] == r[i + 1];
      } else if i == k {
        assert s[i] == r[k] && s[i + 1] == e;
      } else if i == k + 1 {
        assert s[i] == e && s[i + 1] == r[k + 1];
      } else {
        assert s[i] == r[i - 1] && s[i + 1] == r[i];
      }
    }
    forall i, j | 0 <= i < j < |s|
      ensures s[i] != s[j]
    {
      if i <= k && j <= k {
        assert s[i] == r[i] && s[j] == r[j];
      } else if i <= k && j > k + 1 {
        assert s[i] == r[i] && s[j] == r[j - 1];
      } else if i > k + 1 {
        assert s[i] == r[i - 1] && s[j] == r[j - 1];
      } else if j == k + 1 {
        assert s[j] == e && s[i] == r[i];
      } else {
        assert i == k + 1 && s[i] == e && s[j] == r[j - 1];
      }
    }
    if k == |r| - 1 {
      assert s[|s| - 1] == e && s[0] == r[0];
    } else {
      assert s[|s| - 1] == r[|r| - 1] && s[0] == r[0];
    }
  }

  /** `list_add_head`: `e` becomes the first node after the head. */
  method ListAddHead(e: ListHead, head: ListHead, ghost r: seq<ListHead>)
    requires Ring(r) && head == r[0] && e !in r
    modifies e, head, head.next
    ensures head.next == e && e.prev == head && e.next == old(head.next)
    ensures Ring([head, e] + r[1..])
  {
    RingLinks(r, 0);
    ListAdd(e, head, head.next, r, 0);
    assert InsertAfter(r, 0, e) == [head, e] + r[1..];
  }

  /** `list_add_tail`: `e` becomes the last node, just before the head. */
  method ListAddTail(e: ListHead, head: ListHead, ghost r: seq<ListHead>)
    requires Ring(r) && head == r[0] && e !in r
    modifies e, head, head.prev
    ensures head.prev == e && e.next == head && e.prev == old(head.prev)
    ensures Ring(r + [e])
  {
    RingLinks(r, 0);
    ListAdd(e, head.prev, head, r, |r| - 1);
    assert InsertAfter(r, |r| - 1, e) == r + [e];
  }

  /**
   * `list_del`: the neighbours of `entry` are linked to each other and the
   * entry's own links are left as they were. A ring of more than one node
   * loses `entry`; a ring of one is unchanged.
   */
  method ListDel(entry: ListHead, ghost r: seq<ListHead>, ghost k: nat)
    requires Ring(r) && k < |r| && entry == r[k]
    modifies entry.prev, entry.next
    ensures entry.next == old(entry.next) && entry.prev == old(entry.prev)
    ensures entry.next != null && entry.prev != null
    ensures old(entry.next).prev == old(entry.prev) && old(entry.prev).next == old(entry.next)
    ensures |r| == 1 ==> Ring(r)
    ensures |r| > 1 ==> Ring(RemoveAt(r, k)) && entry !in RemoveAt(r, k)
  {
    RingLinks(r, k);
    var prev := entry.prev;
    var next := entry.next;
    next.prev := prev;
    prev.next := next;
    if |r| > 1 {
      RemoveAtRing(r, k);
    }
  }

  /** The links `ListDel` leaves behind make a ring of the other nodes. */
  lemma RemoveAtRing(r: seq<ListHead>, k: nat)
    requires |r| > 1 && k < |r|
    requires forall i, j :: 0 <= i < j < |r| ==> r[i] != r[j]
    requires forall i :: 0 <= i < |r| - 1 && i + 1 != k && i != k ==> r[i].next == r[i + 1] && r[i + 1].prev == r[i]
    requires k == |r| - 1 || k == 0 || (r[|r| - 1].next == r[0] && r[0].prev == r[|r| - 1])
    requires var p := if k == 0 then |r| - 1 else k - 1; r[p].next == r[Succ(r, k)] && r[Succ(r, k)].prev == r[p]
    ensures Ring(RemoveAt(r, k)) && r[k] !in RemoveAt(r, k)
  {
    var s := RemoveAt(r, k);
    assert |s| == |r| - 1;
    forall i | 0 <= i < |s| - 1
      ensures s[i].next == s[i + 1] && s[i + 1].prev == s[i]
    {
      if i + 1 < k {
        assert s[i] == r[i] && s[i + 1] == r[i + 1];
      } else if i + 1 == k {
        assert s[i] == r[k - 1] && s[i + 1] == r[k + 1];
      } else {
        assert s[i] == r[i + 1] && s[i + 1] == r[i + 2];
      }
    }
    forall i, j | 0 <= i < j < |s|
      ensures s[i] != s[j]
    {
      if j < k {
        assert s[i] == r[i] && s[j] == r[j];
      } else if i < k {
        assert s[i] == r[i] && s[j] == r[j + 1];
      } else {
        assert s[i] == r[i + 1] && s[j] == r[j + 1];
      }
    }
    if k == 0 {
      assert s[0] == r[1] && s[|s| - 1] == r[|r| - 1];
    } else if k == |r| - 1 {
      assert s[0] == r[0] && s[|s| - 1] == r[|r| - 2];
    } else {
      assert s[0] == r[0] && s[|s| - 1] == r[|r| - 1];
    }
    forall i | 0 <= i < |s|
      ensures s[i] != r[k]
    {
      if i < k {
        assert s[i] == r[i];
      } else {
        assert s[i] == r[i + 1];
      }
    }
  }

  /** `list_del` undoes `list_add_tail`: the ring is the one before, and `e` still links to its old neighbours. */
  method AddTailThenDel(e: ListHead, head: ListHead, ghost r: seq<ListHead>)
    requires Ring(r) && head == r[0] && e !in r
    modifies e, head, head.prev
    ensures Ring(r) && e.next == head && e.prev == old(head.prev)
  {
    ListAddTail(e, head, r);
    ListDel(e, r + [e], |r|);
    assert RemoveAt(r + [e], |r|) == r;
  }
}
