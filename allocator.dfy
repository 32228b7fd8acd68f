/** The harness's allocation-accounting allocator: `xmalloc` and `xfree` keep
    two global `size_t` counters (live blocks, live bytes), `xmalloc` may fail
    on purpose when random failures are switched on, and the cleanup step
    reports a leak while either counter is non-zero. */
module Allocator {
  import opened Common

  /** `size_t` is 64 bits wide; arithmetic on it wraps modulo 2^64. */
  const SizeRange: nat := 0x1_0000_0000_0000_0000
  type SizeT = x: nat | x < SizeRange

  /** `rand_alloc_fail_odds`: a failure is injected when `rand() % 3 == 0`. */
  const FailOdds: nat := 3

  /** Address of a block as handed to the caller (just past its size header). */
  type Addr = nat

  /** The two global counters, `total_allocs` and `total_mem`. */
  datatype Counters = Counters(allocs: SizeT, mem: SizeT)

  /** Counters after one successful `xmalloc(size)`. */
  function AfterAlloc(c: Counters, size: SizeT): Counters
  {
    Counters((c.allocs + 1) % SizeRange, (c.mem + size) % SizeRange)
  }

  /** Counters after `xfree` of a block whose header records `size`. */
  function AfterFree(c: Counters, size: SizeT): Counters
  {
    Counters((c.allocs - 1) % SizeRange, (c.mem - size) % SizeRange)
  }

  /** `xmalloc` counts one more block and `size` more bytes; a counter that
      would reach 2^64 starts again from zero. */
  lemma AllocWraps(c: Counters, size: SizeT)
    ensures AfterAlloc(c, size).allocs == if c.allocs == SizeRange - 1 then 0 else c.allocs + 1
    ensures AfterAlloc(c, size).mem ==
      if c.mem + size < SizeRange then c.mem + size else c.mem + size - SizeRange
  {
    Wrap(c.allocs + 1);
    Wrap(c.mem + size);
  }

  /** `xfree` counts one block and `size` bytes fewer; a counter that would
      drop below zero continues from 2^64. */
  lemma FreeWraps(c: Counters, size: SizeT)
    ensures AfterFree(c, size).allocs == if c.allocs == 0 then SizeRange - 1 else c.allocs - 1
    ensures AfterFree(c, size).mem ==
      if size <= c.mem then c.mem - size else c.mem + SizeRange - size
  {
    Wrap(c.allocs - 1);
    Wrap(c.mem - size);
  }

  /** The condition on which `cleanup_test_allocator` reports a failed test. */
  predicate LeakReported(c: Counters): (leak: bool)
    ensures leak <==> c != Counters(0, 0)
  {
    c.allocs > 0 || c.mem > 0
  }

  /** Whether `xmalloc` injects a failure, given the value `rand()` returned. */
  predicate InjectedFailure(randomFailures: bool, roll: nat): (fail: bool)
    ensures fail ==> randomFailures
  {
    randomFailures && roll % FailOdds == 0
  }

  /** With random failures on, exactly one of any three consecutive values of
      `rand()` injects a failure: the odds are one in three. */
  lemma {:induction false} FailureOdds(roll: nat)
    ensures InjectedFailure(true, roll) || InjectedFailure(true, roll + 1) ||
      InjectedFailure(true, roll + 2)
    ensures !(InjectedFailure(true, roll) && InjectedFailure(true, roll + 1))
    ensures !(InjectedFailure(true, roll + 1) && InjectedFailure(true, roll + 2))
    ensures !(InjectedFailure(true, roll) && InjectedFailure(true, roll + 2))
  {
    var q, m := roll / 3, roll % 3;
    assert roll == 3 * q + m;
    if m == 0 {
      assert roll + 1 == 3 * q + 1 && roll + 2 == 3 * q + 2;
    } else if m == 1 {
      assert roll + 2 == 3 * (q + 1);
    } else {
      assert roll + 1 == 3 * (q + 1) && roll + 2 == 3 * (q + 1) + 1;
    }
  }

  /** Total of the size headers of the live blocks. */
  ghost function HeapBytes(heap: map<Addr, SizeT>): nat
    decreases |heap|
  {
    if heap == map[] then 0
    else
      var a :| a in heap;
      heap[a] + HeapBytes(heap - {a})
  }

  /** What the counters hold when they account exactly for `heap`. */
  ghost function Accounted(heap: map<Addr, SizeT>): Counters
  {
    Counters(|heap| % SizeRange, HeapBytes(heap) % SizeRange)
  }

  /** Freeing a block takes exactly its recorded size off the total, whichever
      block it is. */
  lemma {:induction false} HeapBytesRemove(heap: map<Addr, SizeT>, a: Addr)
    requires a in heap
    ensures HeapBytes(heap) == heap[a] + HeapBytes(heap - {a})
    decreases |heap|
  {
    var b :| b in heap && HeapBytes(heap) == heap[b] + HeapBytes(heap - {b});
    if b != a {
      var rest := heap - {a} - {b};
      assert heap - {b} - {a} == rest;
      HeapBytesRemove(heap - {b}, a);
      HeapBytesRemove(heap - {a}, b);
    }
  }

  /** Recording a new block adds exactly its size to the total. */
  lemma HeapBytesAdd(heap: map<Addr, SizeT>, a: Addr, size: SizeT)
    requires a !in heap
    ensures HeapBytes(heap[a := size]) == HeapBytes(heap) + size
  {
    assert heap[a := size] - {a} == heap;
    HeapBytesRemove(heap[a := size], a);
  }

  /** An allocation followed by the free of that block restores both counters,
      wrap-around included. */
  lemma FreeUndoesAlloc(c: Counters, size: SizeT)
    ensures AfterFree(AfterAlloc(c, size), size) == c
  {
    ModAddSub(c.allocs, 1);
    ModAddSub(c.mem, size);
  }

  lemma ModAddSub(x: nat, s: nat)
    requires x < SizeRange && s < SizeRange
    ensures ((x + s) % SizeRange - s) % SizeRange == x
  {
    if x + s >= SizeRange {
      assert (x + s) % SizeRange == x + s - SizeRange;
    }
  }

  lemma ModStep(x: nat, s: int)
    ensures (x % SizeRange + s) % SizeRange == (x + s) % SizeRange
  {
    var q := x / SizeRange;
    assert x == q * SizeRange + x % SizeRange;
    ModShift(x % SizeRange + s, q);
  }

  lemma ModShift(y: int, q: nat)
    ensures (y + q * SizeRange) % SizeRange == y % SizeRange
    decreases q
  {
    if q > 0 {
      ModShift(y, q - 1);
      assert y + q * SizeRange == (y + (q - 1) * SizeRange) + SizeRange;
    }
  }

  /** Counting a new block as `xmalloc` does keeps the counters exact. */
  lemma AllocAccounted(heap: map<Addr, SizeT>, a: Addr, size: SizeT)
    requires a !in heap
    ensures Accounted(heap[a := size]) == AfterAlloc(Accounted(heap), size)
  {
    var n, bytes := |heap|, HeapBytes(heap);
    AddedBlock(heap, a, size);
    AllocStep(n, bytes, size);
    assert Accounted(heap) == Counters(n % SizeRange, bytes % SizeRange);
    assert Accounted(heap[a := size]) == Counters((n + 1) % SizeRange, (bytes + size) % SizeRange);
  }

  lemma AddedBlock(heap: map<Addr, SizeT>, a: Addr, size: SizeT)
    requires a !in heap
    ensures |heap[a := size]| == |heap| + 1
    ensures HeapBytes(heap[a := size]) == HeapBytes(heap) + size
  {
    HeapBytesAdd(heap, a, size);
  }

  lemma AllocStep(n: nat, bytes: nat, size: SizeT)
    ensures Counters((n + 1) % SizeRange, (bytes + size) % SizeRange) ==
      AfterAlloc(Counters(n % SizeRange, bytes % SizeRange), size)
  {
    ModStep(n, 1);
    ModStep(bytes, size);
  }

  /** A value within one wrap of `[0, 2^64)` comes back into range by adding
      or subtracting 2^64 once. */
  lemma Wrap(x: int)
    requires -(SizeRange as int) <= x < 2 * SizeRange
    ensures x % SizeRange ==
      if x < 0 then x + SizeRange else if x < SizeRange then x else x - SizeRange
  {
  }

  /** Discounting a block by its recorded size, as `xfree` does, keeps the
      counters exact. */
  lemma FreeAccounted(heap: map<Addr, SizeT>, a: Addr)
    requires a in heap
    ensures Accounted(heap - {a}) == AfterFree(Accounted(heap), heap[a])
  {
    var after := heap - {a};
    assert Accounted(heap) == Counters((|after| + 1) % SizeRange, (HeapBytes(after) + heap[a]) % SizeRange) by {
      HeapBytesRemove(heap, a);
      assert |after| == |heap| - 1;
    }
    FreeStep(|after|, HeapBytes(after), heap[a]);
  }

  lemma FreeStep(n: nat, bytes: nat, size: SizeT)
    ensures Counters(n % SizeRange, bytes % SizeRange) ==
      AfterFree(Counters((n + 1) % SizeRange, (bytes + size) % SizeRange), size)
  {
    ModStep(n + 1, -1);
    ModStep(bytes + size, -(size as int));
  }

  /** The leak check is exact while fewer than 2^64 blocks are live: it fires
      if and only if some block has not been freed. */
  lemma LeakReportedExactly(heap: map<Addr, SizeT>)
    requires |heap| < SizeRange
    ensures LeakReported(Accounted(heap)) <==> heap != map[]
  {
    if heap == map[] {
      assert HeapBytes(heap) == 0;
    } else {
      assert |heap| % SizeRange == |heap|;
    }
  }

  /** The allocator's globals and the size headers of the blocks it handed out. */
  class TestAllocator {
    var totalAllocs: SizeT
    var totalMem: SizeT
    var randAllocFail: bool
    /** Whether `__malloc`/`__free` point at `xmalloc`/`xfree` (else NULL). */
    var hooked: bool
    /** The size header stored in front of every live block. */
    var heap: map<Addr, SizeT>

    function Totals(): Counters
      reads this
    {
      Counters(totalAllocs, totalMem)
    }

    /** The counters account exactly for the live blocks. */
    ghost predicate Valid()
      reads this
    {
      Totals() == Accounted(heap)
    }

    /** The static initial values of the globals. */
    constructor ()
      ensures Valid()
      ensures Totals() == Counters(0, 0) && heap == map[]
      ensures !randAllocFail && !hooked
    {
      totalAllocs, totalMem := 0, 0;
      randAllocFail, hooked := false, false;
      heap := map[];
    }

    /** `init_test_allocator`: installs the hooks; the counters are kept. */
    method Init(randomFailures: bool)
      modifies this
      ensures randAllocFail == randomFailures && hooked
      ensures Totals() == old(Totals()) && heap == old(heap)
    {
      randAllocFail := randomFailures;
      hooked := true;
    }

    /** `xmalloc(size)`. `roll` is the value `rand()` returns and `block` the
        address the system `malloc` hands back (it is never a live block). */
    method Malloc(size: SizeT, roll: nat, block: Addr) returns (p: Option<Addr>)
      requires Valid()
      requires block !in heap
      modifies this
      ensures Valid()
      ensures randAllocFail == old(randAllocFail) && hooked == old(hooked)
      ensures InjectedFailure(randAllocFail, roll) ==>
        p == None && Totals() == old(Totals()) && heap == old(heap)
      ensures !InjectedFailure(randAllocFail, roll) ==>
        p == Some(block) && heap == old(heap)[block := size] &&
        Totals() == AfterAlloc(old(Totals()), size)
    {
      if randAllocFail && roll % FailOdds == 0 {
        return None;
      }
      AllocAccounted(heap, block, size);
      heap := heap[block := size];
      totalAllocs := (totalAllocs + 1) % SizeRange;
      totalMem := (totalMem + size) % SizeRange;
      p := Some(block);
    }

    /** `xfree(ptr)`: NULL is ignored; otherwise the size recorded in the
        block's header is taken off the byte count. */
    method Free(ptr: Option<Addr>)
      requires Valid()
      requires ptr.Some? ==> ptr.value in heap
      modifies this
      ensures Valid()
      ensures randAllocFail == old(randAllocFail) && hooked == old(hooked)
      ensures ptr == None ==> Totals() == old(Totals()) && heap == old(heap)
      ensures ptr.Some? ==>
        heap == old(heap) - {ptr.value} &&
        Totals() == AfterFree(old(Totals()), old(heap)[ptr.value])
    {
      if ptr.Some? {
        var a := ptr.value;
        var size := heap[a];
        FreeAccounted(heap, a);
        heap := heap - {a};
        totalMem := (totalMem - size) % SizeRange;
        totalAllocs := (totalAllocs - 1) % SizeRange;
      }
    }

    /** `cleanup_test_allocator`: with a leak the process exits with status 1
        (`ok` false, nothing else happens); otherwise the hooks are cleared. */
    method Cleanup() returns (ok: bool)
      modifies this
      ensures ok <==> !LeakReported(old(Totals()))
      ensures Totals() == old(Totals()) && heap == old(heap)
      ensures randAllocFail == old(randAllocFail)
      ensures hooked == (old(hooked) && !ok)
      ensures old(Valid()) && |old(heap)| < SizeRange ==> (ok <==> old(heap) == map[])
    {
      if Valid() && |heap| < SizeRange {
        LeakReportedExactly(heap);
      }
      if totalAllocs > 0 || totalMem > 0 {
        return false;
      }
      hooked := false;
      ok := true;
    }
  }
}
