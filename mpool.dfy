/**
 * The grow-only chunk pool of virtionfs (virtionfs/mpool.c): a singly
 * linked free list threaded through the free chunks, with `head` its
 * first chunk. `mpool_free` pushes a chunk on the head and `mpool_alloc`
 * pops it again (last in, first out); an empty pool is first refilled with
 * `alloc_size` fresh chunks. The pool never gives memory back while it lives.
 *
 * The free list is the sequence `free`, head first, so that `free[i+1]` is
 * the `next` of `free[i]`. The chunks handed out and not yet given back are
 * the ghost set `out`. `malloc` is modelled by `avail`, the number of calls
 * that still succeed before memory runs out.
 */
module Mpool {
  import opened Common

  /** A chunk of `chunk_size` bytes, known by its address. */
  class Chunk {
  }

  /** What `mpool_alloc` ends with: a chunk, NULL, or a call of itself on the same empty pool that never ends. */
  datatype AllocResult = Got(c: Chunk) | Null | Diverges

  /** The `uint64_t` value `alloc_size - 1`: the number of chunks a refill puts on the free list. */
  function RefillCount(allocSize: Uint64): Uint64
  {
    (allocSize - 1) % U64
  }

  /** `struct mpool`. */
  class Pool {
    var chunkSize: Uint64
    var allocSize: Uint64
    var free: seq<Chunk>
    ghost var out: set<Chunk>

    /** No chunk is twice on the free list, and none is both free and handed out. */
    ghost predicate Valid()
      reads this
    {
      (forall i, j :: 0 <= i < j < |free| ==> free[i] != free[j]) &&
      (forall i :: 0 <= i < |free| ==> free[i] !in out)
    }

    /** A pool record before `mpool_init`, with an empty free list. */
    constructor ()
      ensures free == [] && out == {} && Valid()
    {
      chunkSize, allocSize, free, out := 0, 0, [], {};
    }

    /** `mpool_free`: the chunk becomes the head, its `next` the old head. */
    method Free(e: Chunk)
      modifies this`free, this`out
      ensures free == [e] + old(free) && out == old(out) - {e}
      ensures old(Valid()) && e in old(out) ==> Valid()
    {
      free := [e] + free;
      out := out - {e};
    }

    /**
     * The head branch of `mpool_alloc` as written: the head is returned,
     * but taken off the list only when it has a successor.
     */
    method TakeHeadAsWritten() returns (c: Chunk)
      requires |free| > 0
      modifies this`free, this`out
      ensures c == old(free)[0] && out == old(out) + {c}
      ensures free == if |old(free)| == 1 then old(free) else old(free)[1..]
    {
      c := free[0];
      if |free| > 1 {
        free := free[1..];
      }
      out := out + {c};
    }

    /** The head branch corrected: the head always leaves the list. */
    method TakeHead() returns (c: Chunk)
      requires |free| > 0 && Valid()
      modifies this`free, this`out
      ensures c == old(free)[0] && free == old(free)[1..] && out == old(out) + {c}
      ensures c !in old(out) && c !in free && Valid()
    {
      c := free[0];
      free := free[1..];
      out := out + {c};
    }

    /**
     * The refill loop of `mpool_alloc`: up to `n` fresh chunks are pushed,
     * stopping at the first failing `malloc`; `left` is what remains of
     * `avail`.
     */
    method Refill(n: nat, avail: nat) returns (pushed: nat, left: nat)
      requires free == [] && Valid()
      modifies this`free
      ensures pushed == Min(n, avail) && left == avail - pushed && |free| == pushed
      ensures forall i :: 0 <= i < |free| ==> fresh(free[i])
      ensures Valid()
    {
      pushed, left := 0, avail;
      while pushed < n && left > 0
        invariant pushed <= n && pushed + left == avail && |free| == pushed
        invariant forall i :: 0 <= i < |free| ==> fresh(free[i])
        invariant Valid()
        decreases n - pushed
      {
        var c := new Chunk;
        left := left - 1;
        free := [c] + free;
        pushed := pushed + 1;
      }
    }

    /**
     * `mpool_alloc` as written. A pool with one free chunk hands it out and
     * keeps it; a refill that runs out of memory falls back on the head
     * branch, and with `alloc_size` 1 on a call of itself on the same empty
     * pool.
     */
    method AllocAsWritten(avail: nat) returns (r: AllocResult)
      modifies this`free, this`out
      ensures !r.Got? ==> free == old(free) && out == old(out)
      ensures |old(free)| == 0 ==> (r.Got? <==> avail > 0)
      ensures |old(free)| > 0 ==>
        r == Got(old(free)[0]) && free == (if |old(free)| == 1 then old(free) else old(free)[1..])
      ensures |old(free)| == 0 && RefillCount(allocSize) > 0 && avail == 0 ==> r == Null && free == []
      ensures |old(free)| == 0 && RefillCount(allocSize) == 0 ==>
        if avail == 0 then r == Diverges else r.Got? && fresh(r.c) && free == []
      ensures |old(free)| == 0 && avail > RefillCount(allocSize) ==>
        r.Got? && fresh(r.c) && |free| == RefillCount(allocSize) && r.c !in free
      ensures |old(free)| == 0 && avail == 1 && RefillCount(allocSize) > 0 ==>
        r.Got? && free == [r.c]
    {
      if |free| > 0 {
        var c := TakeHeadAsWritten();
        return Got(c);
      }
      var pushed, left := Refill(RefillCount(allocSize), avail);
      if left == 0 {
        if pushed > 0 {
          var c := TakeHeadAsWritten();
          return Got(c);
        }
        return if RefillCount(allocSize) > 0 then Null else Diverges;
      }
      var c := new Chunk;
      out := out + {c};
      r := Got(c);
    }

    /**
     * `mpool_alloc` corrected: the chunk returned always leaves the free
     * list and was not handed out before, and an empty pool that cannot
     * grow gives NULL.
     */
    method Alloc(avail: nat) returns (r: AllocResult)
      requires Valid()
      modifies this`free, this`out
      ensures Valid() && !r.Diverges?
      ensures |old(free)| > 0 ==> r == Got(old(free)[0]) && free == old(free)[1..]
      ensures r.Null? <==> |old(free)| == 0 && avail == 0
      ensures r.Null? ==> free == old(free) && out == old(out)
      ensures r.Got? ==> r.c !in old(out) && r.c !in free && out == old(out) + {r.c}
      ensures |old(free)| == 0 && avail > RefillCount(allocSize) ==>
        r.Got? && fresh(r.c) && |free| == RefillCount(allocSize)
    {
      if |free| > 0 {
        var c := TakeHead();
        return Got(c);
      }
      var pushed, left := Refill(RefillCount(allocSize), avail);
      if left == 0 {
        if pushed > 0 {
          var c := TakeHead();
          return Got(c);
        }
        return Null;
      }
      var c := new Chunk;
      out := out + {c};
      r := Got(c);
    }

    /**
     * `mpool_init` as written: `size` is not used; one allocation fills
     * the pool and its chunk goes straight back. With exactly one
     * successful `malloc` that chunk ends up on the list twice, its `next`
     * pointing at itself.
     */
    method InitAsWritten(size: Uint64, chunkSize: Uint64, allocSize: Uint64, avail: nat) returns (ret: int)
      requires Valid()
      modifies this
      ensures this.chunkSize == chunkSize && this.allocSize == allocSize
      ensures ret == 0 || ret == -1
      ensures ret == 0 <==> avail > 0
      ensures ret == -1 ==> free == []
      ensures allocSize > 0 && avail > RefillCount(allocSize) ==> |free| == allocSize
      ensures RefillCount(allocSize) > 0 && avail == 1 ==> |free| == 2 && free[0] == free[1]
    {
      this.chunkSize, this.allocSize, free := chunkSize, allocSize, [];
      var r := AllocAsWritten(avail);
      if !r.Got? {
        // NULL; the endless self-call of an empty pool with `alloc_size` 1 is cut short here
        return -1;
      }
      Free(r.c);
      ret := 0;
    }

    /** `mpool_init` with the corrected allocation: 0 with a valid, non-empty free list, or -1 and nothing allocated. */
    method Init(size: Uint64, chunkSize: Uint64, allocSize: Uint64, avail: nat) returns (ret: int)
      requires Valid()
      modifies this
      ensures this.chunkSize == chunkSize && this.allocSize == allocSize && Valid() && out == old(out)
      ensures ret == 0 || ret == -1
      ensures ret == 0 <==> avail > 0
      ensures ret == 0 ==> |free| >= 1
      ensures ret == -1 ==> free == []
      ensures avail > RefillCount(allocSize) ==> |free| == RefillCount(allocSize) + 1
    {
      this.chunkSize, this.allocSize, free := chunkSize, allocSize, [];
      var r := Alloc(avail);
      if r.Null? {
        return -1;
      }
      Free(r.c);
      ret := 0;
    }

    /**
     * `mpool_destroy`: the free list is walked from the head and every
     * chunk on it freed, in list order; chunks still handed out are not.
     */
    method Destroy() returns (freed: seq<Chunk>)
      requires Valid()
      ensures freed == free
      ensures forall c :: c in out ==> c !in freed
    {
      freed := [];
      var i := 0;
      while i < |free|
        invariant i <= |free| && freed == free[..i]
      {
        freed := freed + [free[i]];
        i := i + 1;
      }
    }
  }

  /** Whatever was on the list before, a freed chunk is the next one allocated, and the pool is as before. */
  method FreeThenAlloc(p: Pool, e: Chunk, avail: nat) returns (a: AllocResult)
    requires p.Valid() && e in p.out
    modifies p
    ensures a == Got(e) && p.free == old(p.free) && p.out == old(p.out) && p.Valid()
  {
    p.Free(e);
    a := p.Alloc(avail);
  }

  /**
   * A pool whose refill gets one chunk: as written, two allocations in a
   * row hand out the same chunk.
   */
  method DoubleHandout(p: Pool) returns (a: AllocResult, b: AllocResult)
    requires p.Valid() && p.free == [] && RefillCount(p.allocSize) > 0
    modifies p
    ensures a.Got? && a == b
  {
    a := p.AllocAsWritten(1);
    b := p.AllocAsWritten(0);
  }

  /** With `alloc_size` 1 and no memory left, `mpool_alloc` as written never returns; corrected it gives NULL. */
  method NoMemorySizeOne(p: Pool) returns (asWritten: AllocResult, corrected: AllocResult)
    requires p.Valid() && p.free == [] && p.allocSize == 1
    modifies p
    ensures asWritten == Diverges && corrected == Null
  {
    asWritten := p.AllocAsWritten(0);
    corrected := p.Alloc(0);
  }
}
