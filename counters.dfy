/** The throughput counters: an `Arc<AtomicU64>` that tasks bump with
    `fetch_add(1, Relaxed)` and a reporter drains with `swap(0, Relaxed)`.
    The model is single-threaded; the ghost `window` counts the increments
    since the last drain, which the 64-bit value only holds modulo 2^64
    because `fetch_add` wraps. */
module Counters {
  import opened Bytes

  class Counter {
    var value: U64
    /** Increments since the counter was created or last drained. */
    ghost var window: nat

    ghost predicate Valid()
      reads this
    {
      value == window % U64_MODULUS
    }

    /** `AtomicU64::new(0)`. */
    constructor ()
      ensures Valid() && value == 0 && window == 0
    {
      value := 0;
      window := 0;
    }

    /** `fetch_add(1, Relaxed)`: wraps to 0 after `u64::MAX`. */
    method Increment()
      requires Valid()
      modifies this
      ensures Valid() && window == old(window) + 1
      ensures value == (old(value) + 1) % U64_MODULUS
    {
      value := if value == U64_MODULUS - 1 then 0 else value + 1;
      window := window + 1;
    }

    /** `k` successive `fetch_add(1, Relaxed)` calls, as the other tasks make
        them while the reporter sleeps. */
    method IncrementTimes(k: nat)
      requires Valid()
      modifies this
      ensures Valid() && window == old(window) + k
    {
      var i := 0;
      while i < k
        invariant 0 <= i <= k
        invariant Valid() && window == old(window) + i
      {
        Increment();
        i := i + 1;
      }
    }

    /** `swap(0, Relaxed)`: returns what was accumulated and restarts at 0. */
    method Drain() returns (n: U64)
      requires Valid()
      modifies this
      ensures Valid() && value == 0 && window == 0
      ensures n == old(value) && n == old(window) % U64_MODULUS
    {
      n := value;
      value := 0;
      window := 0;
    }
  }
}
