/**
 * The chained hash table of inodes (`struct inode_table`) shared by the
 * io_uring and Linux AIO mirror backends and the NFS backend: an array
 * of `size` bucket heads, each a singly linked chain through the
 * inodes' `next` fields. A bucket is modelled as the sequence of the
 * slots on its chain, head first; a slot pairs the key the table
 * compares (`ino` or `fileid`, which never changes after creation) with
 * a reference to the backend's own inode object.
 */
module Chains {
  import opened Common

  /** One link of a chain: the inode's key and the inode. */
  datatype Slot<T> = Slot(key: nat, item: T)

  /** Index of the first slot of `chain` whose key is `k`; `|chain|` when there is none. */
  function FirstIndex<T>(chain: seq<Slot<T>>, k: nat): (j: nat)
    ensures j <= |chain|
    ensures forall i :: 0 <= i < j ==> chain[i].key != k
    ensures j < |chain| ==> chain[j].key == k
    decreases |chain|
  {
    if chain == [] then 0
    else if chain[0].key == k then 0
    else 1 + FirstIndex(chain[1..], k)
  }

  /** The inode of the first slot of `chain` whose key is `k`, if any. */
  function Find<T>(chain: seq<Slot<T>>, k: nat): (r: Option<T>)
    ensures r.Some? ==> Slot(k, r.value) in chain
    ensures r.None? <==> forall i :: 0 <= i < |chain| ==> chain[i].key != k
  {
    var j := FirstIndex(chain, k);
    if j < |chain| then Some(chain[j].item) else None
  }

  /** `chain` without its first slot whose key is `k`; the others keep their order. */
  function Unlink<T>(chain: seq<Slot<T>>, k: nat): (r: seq<Slot<T>>)
    ensures Find(chain, k).None? ==> r == chain
    ensures Find(chain, k).Some? ==> |r| == |chain| - 1
    ensures forall s :: s in r ==> s in chain
  {
    var j := FirstIndex(chain, k);
    if j < |chain| then chain[..j] + chain[j + 1..] else chain
  }

  /** No two slots of `chain` share a key. */
  ghost predicate KeysDistinct<T>(chain: seq<Slot<T>>)
  {
    forall i, j :: 0 <= i < j < |chain| ==> chain[i].key != chain[j].key
  }

  /** Unlinking the only slot with key `k` leaves none behind. */
  lemma UnlinkLeavesNone<T>(chain: seq<Slot<T>>, k: nat)
    requires KeysDistinct(chain)
    ensures Find(Unlink(chain, k), k).None?
    ensures KeysDistinct(Unlink(chain, k))
  {
    var j := FirstIndex(chain, k);
    if j < |chain| {
      var r := chain[..j] + chain[j + 1..];
      forall i | 0 <= i < |r|
        ensures r[i].key != k
      {
        if i < j { assert r[i] == chain[i]; } else { assert r[i] == chain[i + 1]; }
      }
    }
  }

  /** Unlinking from one bucket of a table whose buckets have distinct keys keeps them distinct. */
  lemma UnlinkKeepsDistinct<T>(bs: seq<seq<Slot<T>>>, h: nat, k: nat, bs': seq<seq<Slot<T>>>)
    requires h < |bs| && forall g :: 0 <= g < |bs| ==> KeysDistinct(bs[g])
    requires bs' == bs[h := Unlink(bs[h], k)]
    ensures forall g :: 0 <= g < |bs'| ==> KeysDistinct(bs'[g])
    ensures Find(Unlink(bs[h], k), k).None?
  {
    UnlinkLeavesNone(bs[h], k);
  }

  /** Putting a slot with a fresh key at the head keeps the keys distinct, and its inode is found first. */
  lemma PushFresh<T>(chain: seq<Slot<T>>, k: nat, e: T)
    requires KeysDistinct(chain) && Find(chain, k).None?
    ensures KeysDistinct([Slot(k, e)] + chain)
    ensures Find([Slot(k, e)] + chain, k) == Some(e)
  {
    assert FirstIndex([Slot(k, e)] + chain, k) == 0;
  }

  /** Putting a slot at the head makes it the one found for its key, even over an older one. */
  lemma PushShadows<T>(chain: seq<Slot<T>>, k: nat, e: T, k': nat)
    ensures Find([Slot(k, e)] + chain, k') == if k == k' then Some(e) else Find(chain, k')
  {
    if k != k' {
      var c := [Slot(k, e)] + chain;
      assert c[1..] == chain;
    }
  }

  /** Unlinking a key from a chain headed by a slot with that key restores the rest of the chain. */
  lemma UnlinkHead<T>(chain: seq<Slot<T>>, k: nat, e: T)
    ensures Unlink([Slot(k, e)] + chain, k) == chain
  {
    assert FirstIndex([Slot(k, e)] + chain, k) == 0;
    assert ([Slot(k, e)] + chain)[1..] == chain;
  }

  class ChainTable<T(==)> {
    /** `array[h]` for `h < size`, each as the slots of its chain. */
    var buckets: seq<seq<Slot<T>>>

    /** Every slot sits in the bucket of its key's hash. */
    ghost predicate Valid()
      reads this
    {
      |buckets| > 0 &&
      forall h, i :: 0 <= h < |buckets| && 0 <= i < |buckets[h]| ==> buckets[h][i].key % |buckets| == h
    }

    /** Within every bucket (and so in the whole table) no key appears twice. */
    ghost predicate Unique()
      reads this
    {
      forall h :: 0 <= h < |buckets| ==> KeysDistinct(buckets[h])
    }

    /** `inode_table_init`: `size` empty buckets. */
    constructor (size: nat)
      requires size > 0
      ensures Valid() && Unique()
      ensures |buckets| == size && forall h :: 0 <= h < size ==> buckets[h] == []
    {
      buckets := seq(size, _ => []);
    }

    /** `inode_table_hash`. */
    function Hash(k: nat): (h: nat)
      reads this
      requires Valid()
      ensures h < |buckets| && h == k % |buckets|
    {
      k % |buckets|
    }

    /** A slot with key `k` can only be in bucket `Hash(k)`. */
    lemma AbsentElsewhere(k: nat)
      requires Valid()
      ensures forall h, i :: 0 <= h < |buckets| && 0 <= i < |buckets[h]| && h != k % |buckets| ==>
        buckets[h][i].key != k
    {
    }

    /**
     * `inode_table_get`: the inode of the first slot of bucket
     * `key % size` with the key, or nothing, in which case no bucket holds
     * the key.
     */
    method Get(k: nat) returns (r: Option<T>)
      requires Valid()
      ensures r == Find(buckets[k % |buckets|], k)
      ensures r.None? ==> forall h, i :: 0 <= h < |buckets| && 0 <= i < |buckets[h]| ==> buckets[h][i].key != k
    {
      AbsentElsewhere(k);
      var c := buckets[Hash(k)];
      var i := 0;
      while i < |c|
        invariant i <= |c|
        invariant forall j :: 0 <= j < i ==> c[j].key != k
      {
        if c[i].key == k {
          return Some(c[i].item);
        }
        i := i + 1;
      }
      return None;
    }

    /**
     * `inode_table_insert`: the inode becomes the head of the bucket of
     * its key and the old chain follows it; there is no check for an
     * existing key.
     */
    method Insert(k: nat, e: T)
      requires Valid()
      modifies this
      ensures Valid() && |buckets| == old(|buckets|)
      ensures buckets == old(buckets)[k % |buckets| := [Slot(k, e)] + old(buckets)[k % |buckets|]]
      ensures Find(buckets[k % |buckets|], k) == Some(e)
      ensures old(Unique()) && Find(old(buckets)[k % |buckets|], k).None? ==> Unique()
    {
      var h := Hash(k);
      PushShadows(buckets[h], k, e, k);
      if Unique() && Find(buckets[h], k).None? {
        PushFresh(buckets[h], k, e);
      }
      buckets := buckets[h := [Slot(k, e)] + buckets[h]];
    }

    /**
     * `inode_table_remove`: unlinks the first slot with the key from its
     * chain and returns its inode, or returns nothing and changes nothing.
     */
    method Remove(k: nat) returns (r: Option<T>)
      requires Valid()
      modifies this
      ensures Valid() && |buckets| == old(|buckets|)
      ensures r == Find(old(buckets)[k % |buckets|], k)
      ensures buckets == old(buckets)[k % |buckets| := Unlink(old(buckets)[k % |buckets|], k)]
      ensures old(Unique()) ==> Unique() && Find(buckets[k % |buckets|], k).None?
    {
      var h := Hash(k);
      var c := buckets[h];
      if Unique() {
        UnlinkKeepsDistinct(buckets, h, k, buckets[h := Unlink(c, k)]);
      }
      var i := 0;
      while i < |c|
        invariant i <= |c|
        invariant forall j :: 0 <= j < i ==> c[j].key != k
      {
        if c[i].key == k {
          assert FirstIndex(c, k) == i;
          buckets := buckets[h := c[..i] + c[i + 1..]];
          return Some(c[i].item);
        }
        i := i + 1;
      }
      return None;
    }

    /** `inode_table_clear` and the chain walk of `inode_table_destroy`: every bucket ends up empty. */
    method Clear()
      requires Valid()
      modifies this
      ensures Valid() && Unique() && |buckets| == old(|buckets|)
      ensures forall h :: 0 <= h < |buckets| ==> buckets[h] == []
    {
      var h := 0;
      while h < |buckets|
        invariant h <= |buckets| && |buckets| == old(|buckets|) && Valid()
        invariant forall g :: 0 <= g < h ==> buckets[g] == []
      {
        buckets := buckets[h := []];
        h := h + 1;
      }
    }
  }
}
