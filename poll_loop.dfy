/** The polling loops that drive a virtio-fs controller. dpfs_hal/src/snap.c
    (`dpfs_hal_loop*`) and virtiofs_emu_lowlevel/virtiofs_emu_ll.c (`virtiofs_emu_ll_loop*`)
    contain the same three functions line for line, and both are modelled here once. The
    controller, the signal handler and the worker threads are outside the model: what they
    answer comes in as parameters. */
module PollLoop {
  import opened Common

  /** Which loop the entry point runs. */
  datatype Mode = SingleThreaded | MultiThreaded

  /** One thread, or none configured, runs the single-threaded loop; more run the
      multithreaded one. */
  function LoopMode(nthreads: nat): (m: Mode)
    ensures m == SingleThreaded <==> nthreads <= 1
    ensures m == MultiThreaded <==> nthreads >= 2
  {
    if nthreads <= 1 then SingleThreaded else MultiThreaded
  }

  /** With a zero interval, how many of the first `n` iterations poll MMIO: those where the
      `uint32_t` counter, read before it is incremented, is a multiple of 10000. */
  function MmioPolls(n: nat): nat
  {
    if n == 0 then 0 else MmioPolls(n - 1) + (if (n - 1) % U32 % 10000 == 0 then 1 else 0)
  }

  /** Until the counter wraps, MMIO is polled on the first iteration and every 10000th after. */
  lemma {:induction false} MmioPollsBeforeWrap(n: nat)
    requires n <= U32
    ensures MmioPolls(n) == (n + 9999) / 10000
  {
    if n > 0 {
      MmioPollsBeforeWrap(n - 1);
      var k := n - 1;
      assert k % U32 == k;
      var q, r := k / 10000, k % 10000;
      assert k == 10000 * q + r;
      assert (k + 9999) / 10000 == q + (if r == 0 then 0 else 1);
      assert (n + 9999) / 10000 == q + 1;
    }
  }

  /** Incrementing the `uint32_t` counter keeps it the iteration number modulo 2^32. */
  lemma CounterStep(n: nat)
    ensures (n % U32 + 1) % U32 == (n + 1) % U32
  {
    var q := n / U32;
    assert n == q * U32 + n % U32;
    if n % U32 + 1 == U32 {
      assert n + 1 == (q + 1) * U32;
    } else {
      assert n + 1 == q * U32 + (n % U32 + 1);
    }
  }

  /** `dpfs_hal_loop_singlethreaded`. The environment: `keep_running` reads true at the first
      `stop` checks of the loop condition and false from then on (only the signal handler
      writes it), and the controller reports itself suspended from the `lag`-th check after
      suspension was requested. Returned: the I/O polls, the MMIO polls and the number of
      suspension requests. */
  method RunSingle(interval: nat, stop: nat, lag: nat) returns (io: nat, mmio: nat, suspends: nat)
    ensures io == stop + 1 + lag
    ensures suspends == 1
    ensures mmio == if interval > 0 then io else MmioPolls(io)
  {
    var suspending := false;
    var count: nat := 0;
    var requestedAt: Option<nat> := None;
    io, mmio, suspends := 0, 0, 0;
    while io < stop || !(requestedAt.Some? && io >= requestedAt.value + 1 + lag)
      invariant io <= stop + 1 + lag && count == if interval > 0 then 0 else io % U32
      invariant mmio == if interval > 0 then io else MmioPolls(io)
      invariant io <= stop ==> !suspending && suspends == 0 && requestedAt == None
      invariant io > stop ==> suspending && suspends == 1 && requestedAt == Some(stop)
      decreases stop + 1 + lag - io
    {
      if interval > 0 {
        mmio := mmio + 1;
      } else {
        if count % 10000 == 0 {
          mmio := mmio + 1;
        }
        CounterStep(io);
        count := (count + 1) % U32;
      }
      if !(io < stop) && !suspending {
        suspends := suspends + 1;
        suspending := true;
        requestedAt := Some(io);
      }
      io := io + 1;
    }
  }

  /** The state of one entry of `tdatas`: never started (its `pthread_t` unset), running, or
      cancelled or finished and joined. */
  datatype Slot = Unset | Running | Joined

  /** The slots a run of `nthreads` starts with: the main thread's entry 0 and all others unset. */
  function NoThreads(nthreads: nat): (s: seq<Slot>)
    ensures |s| == nthreads && forall i :: 0 <= i < nthreads ==> s[i] == Unset
  {
    seq(nthreads, i => Unset)
  }

  /** `dpfs_hal_loop_multithreaded` as written, up to the first cancel or join of a thread that
      is not running, which is undefined. `created[i]` is what `pthread_create` does for entry
      `i`. When creating entry `i` fails, entries `i - 1` down to 0 are cancelled and joined,
      but entry 0 never held a thread. */
  method RunMultiAsWritten(nthreads: nat, created: seq<bool>) returns (defined: bool, slots: seq<Slot>)
    requires |created| == nthreads
    ensures |slots| == nthreads
    ensures defined <==> forall i :: 1 <= i < nthreads ==> created[i]
    ensures defined ==> forall i :: 1 <= i < nthreads ==> slots[i] == Joined
  {
    slots := NoThreads(nthreads);
    var i := 1;
    while i < nthreads
      invariant 1 <= i || nthreads == 0
      invariant |slots| == nthreads && forall k :: 1 <= k < i && k < nthreads ==> created[k]
      invariant forall k :: 1 <= k < i && k < nthreads ==> slots[k] == Running
      invariant forall k :: i <= k < nthreads || k == 0 ==> 0 <= k < nthreads ==> slots[k] == Unset
    {
      if created[i] {
        slots := slots[i := Running];
      } else {
        var j := i - 1;
        while j >= 1
          invariant 0 <= j < i && |slots| == nthreads
          invariant slots[0] == Unset
        {
          slots := slots[j := Joined];
          j := j - 1;
        }
        // Entry 0 is cancelled and joined next, and it holds no thread.
        return false, slots;
      }
      i := i + 1;
    }
    i := 1;
    while i < nthreads
      invariant 1 <= i || nthreads == 0
      invariant |slots| == nthreads
      invariant forall k :: 1 <= k < i && k < nthreads ==> slots[k] == Joined
      invariant forall k :: i <= k < nthreads && 1 <= k ==> slots[k] == Running
    {
      slots := slots[i := Joined];
      i := i + 1;
    }
    defined := true;
  }

  /** The multithreaded loop as intended: a failed `pthread_create` cancels and joins only the
      threads started so far and starts no more, and the final join waits only for threads
      still running. Every join is of a running thread, and none is left running. */
  method RunMulti(nthreads: nat, created: seq<bool>) returns (slots: seq<Slot>, joins: seq<nat>)
    requires |created| == nthreads
    ensures |slots| == nthreads && (nthreads > 0 ==> slots[0] == Unset)
    ensures forall i :: 0 <= i < nthreads ==> slots[i] != Running
    ensures forall i :: 1 <= i < nthreads ==> (slots[i] == Joined <==> i in joins)
    ensures forall a, b :: 0 <= a < b < |joins| ==> joins[a] != joins[b]
    ensures (forall i :: 1 <= i < nthreads ==> created[i]) ==>
      forall i :: 1 <= i < nthreads ==> slots[i] == Joined
    ensures forall i :: 1 <= i < nthreads && slots[i] == Joined ==> created[i]
    ensures forall i, k :: 1 <= i <= k < nthreads && !created[i] ==> slots[k] == Unset
  {
    slots := NoThreads(nthreads);
    joins := [];
    var i := 1;
    while i < nthreads
      invariant 1 <= i || nthreads == 0
      invariant |slots| == nthreads && (nthreads > 0 ==> slots[0] == Unset)
      invariant forall k :: 1 <= k < i && k < nthreads ==> slots[k] == Running && created[k]
      invariant forall k :: i <= k < nthreads ==> slots[k] == Unset
      invariant joins == []
    {
      if !created[i] {
        break;
      }
      slots := slots[i := Running];
      i := i + 1;
    }
    // Cancelled after a failure, or joined after the main loop: either way each running
    // thread is joined once, from the highest entry down.
    var j := nthreads - 1;
    while j >= 1
      invariant j < nthreads || nthreads == 0
      invariant |slots| == nthreads && (nthreads > 0 ==> slots[0] == Unset)
      invariant forall k :: 1 <= k <= j && k < nthreads ==> slots[k] != Joined && k !in joins
      invariant forall k :: j < k < nthreads && 1 <= k ==> slots[k] != Running && (slots[k] == Joined <==> k in joins)
      invariant forall k :: 1 <= k < nthreads ==> (slots[k] == Unset <==> k >= i)
      invariant forall k :: 1 <= k < i && k < nthreads ==> created[k]
      invariant i < nthreads ==> !created[i]
      invariant forall k :: k in joins ==> j < k < nthreads
      invariant forall a, b :: 0 <= a < b < |joins| ==> joins[a] != joins[b]
      invariant (forall k :: 1 <= k < nthreads ==> created[k]) ==> i >= nthreads
    {
      if slots[j] == Running {
        slots := slots[j := Joined];
        joins := joins + [j];
      }
      j := j - 1;
    }
  }

}
