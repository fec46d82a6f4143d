/**
 * The NFS backend's inode table (virtionfs/inode.c): the chained table
 * of `Chains`, keyed by the NFSv4 `fileid`, holding inodes whose file
 * handle is filled in later. Memory the table code allocates and frees
 * is recorded as a list of blocks, so that what `inode_table_destroy`
 * frees can be compared with what was allocated.
 */
module NfsInodes {
  import opened Common
  import opened Chains

  const INODE_TABLE_SIZE: nat := 8192

  /** An NFS inode; `fileid` is its key and never changes. */
  class NfsInode {
    const fileid: nat
    /** `fh.nfs_fh4_len`: 0 means no file handle yet. */
    var fhLen: nat
    var generation: nat
    var nlookup: nat
    /**
     * The `dpfs_nfs` backend's inode (dpfs_nfs/inode.h) adds the open
     * count, an `atomic_size_t`, and the file handle OPEN returned.
     */
    var nopen: Uint64
    var fhOpenLen: nat

    /** `inode_new`: a zeroed inode, with the key and no file handle. */
    constructor (fileid: nat)
      ensures this.fileid == fileid && fhLen == 0 && generation == 0 && nlookup == 0
      ensures nopen == 0 && fhOpenLen == 0
    {
      this.fileid := fileid;
      fhLen := 0;
      generation := 0;
      nlookup := 0;
      nopen := 0;
      fhOpenLen := 0;
    }
  }

  /** A block of memory the table code hands to `free`: an inode, the bucket array, or the table struct. */
  datatype Block = InodeBlock(inode: NfsInode) | ArrayBlock | TableBlock

  /** Every slot of the table is keyed by its inode's `fileid`. */
  ghost predicate Keyed(t: ChainTable<NfsInode>)
    reads t
  {
    forall h, j :: 0 <= h < |t.buckets| && 0 <= j < |t.buckets[h]| ==> t.buckets[h][j].item.fileid == t.buckets[h][j].key
  }

  /**
   * `inode_table_init` on a caller's table struct: the bucket array is
   * the only block it allocates; when that fails (`allocOk` false) the
   * result is -1 and there is no table.
   */
  method Init(allocOk: bool) returns (ret: int, t: Option<ChainTable<NfsInode>>, allocs: seq<Block>)
    ensures allocOk <==> ret == 0
    ensures ret == -1 ==> t.None? && allocs == []
    ensures ret == 0 ==> && t.Some? && fresh(t.value) && t.value.Valid() && t.value.Unique() && Keyed(t.value)
                         && |t.value.buckets| == INODE_TABLE_SIZE
                         && (forall h :: 0 <= h < INODE_TABLE_SIZE ==> t.value.buckets[h] == [])
                         && allocs == [ArrayBlock]
  {
    if !allocOk {
      return -1, None, [];
    }
    var table := new ChainTable<NfsInode>(INODE_TABLE_SIZE);
    return 0, Some(table), [ArrayBlock];
  }

  /**
   * `inode_table_getsert`, under the table lock: the inode filed under
   * `fileid`, or a new one with no file handle put at the head of its
   * bucket; when the allocation fails nothing is inserted. Whatever is
   * returned is afterwards what `get` finds, and no key is filed twice.
   */
  method Getsert(t: ChainTable<NfsInode>, fileid: nat, allocOk: bool) returns (r: Option<NfsInode>)
    requires t.Valid() && Keyed(t)
    modifies t
    ensures t.Valid() && Keyed(t) && |t.buckets| == old(|t.buckets|)
    ensures old(Find(t.buckets[fileid % |t.buckets|], fileid)).Some? ==>
      r == old(Find(t.buckets[fileid % |t.buckets|], fileid)) && t.buckets == old(t.buckets)
    ensures old(Find(t.buckets[fileid % |t.buckets|], fileid)).None? && !allocOk ==>
      r.None? && t.buckets == old(t.buckets)
    ensures old(Find(t.buckets[fileid % |t.buckets|], fileid)).None? && allocOk ==>
      && r.Some? && fresh(r.value) && r.value.fhLen == 0 && r.value.nlookup == 0 && r.value.generation == 0
      && r.value.nopen == 0 && r.value.fhOpenLen == 0
      && t.buckets == old(t.buckets)[fileid % |t.buckets| := [Slot(fileid, r.value)] + old(t.buckets)[fileid % |t.buckets|]]
    ensures r.Some? ==> Find(t.buckets[fileid % |t.buckets|], fileid) == r && r.value.fileid == fileid
    ensures old(t.Unique()) ==> t.Unique()
  {
    r := t.Get(fileid);
    if r.Some? {
      ghost var j := FirstIndex(t.buckets[fileid % |t.buckets|], fileid);
      assert t.buckets[fileid % |t.buckets|][j].item == r.value;
      return;
    }
    if !allocOk {
      return;
    }
    var i := new NfsInode(fileid);
    t.Insert(fileid, i);
    r := Some(i);
  }

  /** The inode blocks of a chain, head first. */
  function ChainBlocks(c: seq<Slot<NfsInode>>): (r: seq<Block>)
    ensures |r| == |c|
    ensures forall j :: 0 <= j < |c| ==> r[j] == InodeBlock(c[j].item)
  {
    if c == [] then [] else [InodeBlock(c[0].item)] + ChainBlocks(c[1..])
  }

  /** The inode blocks of every chain, bucket by bucket. */
  function TableBlocks(bs: seq<seq<Slot<NfsInode>>>): (r: seq<Block>)
    ensures |bs| > 0 ==> r == TableBlocks(bs[..|bs| - 1]) + ChainBlocks(bs[|bs| - 1])
  {
    if bs == [] then [] else TableBlocks(bs[..|bs| - 1]) + ChainBlocks(bs[|bs| - 1])
  }

  /** `x` sits on one of the chains. */
  ghost predicate OnChains(bs: seq<seq<Slot<NfsInode>>>, x: NfsInode)
  {
    exists h, j :: 0 <= h < |bs| && 0 <= j < |bs[h]| && bs[h][j].item == x
  }

  /** Every block of the table is an inode on one of its chains. */
  lemma {:induction false} TableBlocksOnChains(bs: seq<seq<Slot<NfsInode>>>, b: Block)
    requires b in TableBlocks(bs)
    ensures b.InodeBlock? && OnChains(bs, b.inode)
  {
    var last := |bs| - 1;
    if b in ChainBlocks(bs[last]) {
      var j :| 0 <= j < |bs[last]| && ChainBlocks(bs[last])[j] == b;
      assert bs[last][j].item == b.inode;
    } else {
      TableBlocksOnChains(bs[..last], b);
      var h, j :| 0 <= h < last && 0 <= j < |bs[..last][h]| && bs[..last][h][j].item == b.inode;
      assert bs[h][j].item == b.inode;
    }
  }

  /** Every inode on one of the chains is among the blocks of the table. */
  lemma {:induction false} OnChainsInTableBlocks(bs: seq<seq<Slot<NfsInode>>>, x: NfsInode)
    requires OnChains(bs, x)
    ensures InodeBlock(x) in TableBlocks(bs)
  {
    var last := |bs| - 1;
    var h, j :| 0 <= h < |bs| && 0 <= j < |bs[h]| && bs[h][j].item == x;
    if h == last {
      assert ChainBlocks(bs[last])[j] == InodeBlock(x);
    } else {
      assert bs[..last][h][j].item == x;
      OnChainsInTableBlocks(bs[..last], x);
    }
  }

  /**
   * The walk of one bucket in `inode_table_destroy`: the head is freed,
   * then every inode after it, in chain order.
   */
  method FreeChain(c: seq<Slot<NfsInode>>) returns (freed: seq<Block>)
    ensures freed == ChainBlocks(c)
  {
    freed := [];
    if c != [] {
      freed := [InodeBlock(c[0].item)];
      var next := 1;
      while next < |c|
        invariant 1 <= next <= |c| && freed == ChainBlocks(c[..next])
      {
        assert ChainBlocks(c[..next + 1]) == ChainBlocks(c[..next]) + [InodeBlock(c[next].item)];
        freed := freed + [InodeBlock(c[next].item)];
        next := next + 1;
      }
      assert c[..next] == c;
    }
  }

  /**
   * `inode_table_destroy` as written: every inode on every chain, then
   * the bucket array, then the table struct itself, although
   * `inode_table_init` works on a struct its caller provides.
   */
  method DestroyAsWritten(t: ChainTable<NfsInode>) returns (freed: seq<Block>)
    ensures freed == TableBlocks(t.buckets) + [ArrayBlock, TableBlock]
  {
    freed := FreeChains(t);
    freed := freed + [ArrayBlock, TableBlock];
  }

  /** `inode_table_destroy` freeing only what the table code allocated: the inodes and the bucket array. */
  method Destroy(t: ChainTable<NfsInode>) returns (freed: seq<Block>)
    ensures freed == TableBlocks(t.buckets) + [ArrayBlock]
  {
    freed := FreeChains(t);
    freed := freed + [ArrayBlock];
  }

  /** The loop over the buckets of `inode_table_destroy`. */
  method FreeChains(t: ChainTable<NfsInode>) returns (freed: seq<Block>)
    ensures freed == TableBlocks(t.buckets)
  {
    freed := [];
    var h := 0;
    while h < |t.buckets|
      invariant h <= |t.buckets| && freed == TableBlocks(t.buckets[..h])
    {
      var c := FreeChain(t.buckets[h]);
      assert t.buckets[..h + 1][..h] == t.buckets[..h];
      freed := freed + c;
      h := h + 1;
    }
    assert t.buckets[..h] == t.buckets;
  }

  /**
   * A table just made by `Init` and then destroyed: as written, the
   * table struct is freed although `Init` never allocated it.
   */
  lemma DestroyAsWrittenFreesForeign(allocs: seq<Block>, freed: seq<Block>, t: ChainTable<NfsInode>)
    requires allocs == [ArrayBlock]
    requires freed == TableBlocks(t.buckets) + [ArrayBlock, TableBlock]
    ensures TableBlock in freed && TableBlock !in allocs
  {
    assert freed[|freed| - 1] == TableBlock;
  }

  /**
   * Corrected, destroy frees exactly the bucket array `Init` allocated
   * and the inodes on the chains, and nothing else.
   */
  lemma DestroyFreesOwned(allocs: seq<Block>, freed: seq<Block>, t: ChainTable<NfsInode>, b: Block)
    requires allocs == [ArrayBlock]
    requires freed == TableBlocks(t.buckets) + [ArrayBlock]
    ensures b in freed <==> b in allocs || (b.InodeBlock? && OnChains(t.buckets, b.inode))
  {
    if b in TableBlocks(t.buckets) {
      TableBlocksOnChains(t.buckets, b);
    }
    if b.InodeBlock? && OnChains(t.buckets, b.inode) {
      OnChainsInTableBlocks(t.buckets, b.inode);
    }
  }
}
