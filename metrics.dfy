/** The request counter of `apiConfig`: the file-server middleware counts
    each request it passes on, the reset handler zeroes the count, and the
    metrics pages report it. The count is a Go `int`, modelled as on a
    64-bit platform (`int` is 32 bits wide on 32-bit platforms). */
module Metrics {

  const MinInt64: int := -0x8000_0000_0000_0000
  const MaxInt64: int := 0x7fff_ffff_ffff_ffff

  /** Values a 64-bit signed integer can hold. */
  predicate IsInt64(n: int)
  {
    MinInt64 <= n <= MaxInt64
  }

  /** Go's `n++` on a 64-bit `int`: two's-complement addition of one, which
      wraps from the largest value to the smallest. */
  function WrappingIncrement(n: int): (r: int)
    requires IsInt64(n)
    ensures IsInt64(r)
    ensures (r - (n + 1)) % 0x1_0000_0000_0000_0000 == 0
  {
    if n == MaxInt64 then MinInt64 else n + 1
  }

  /** The increment is the one 64-bit value congruent to `n + 1`; below the
      largest value that is `n + 1` itself, so a count that starts at 0 stays
      exact and non-negative for its first 2^63 - 1 requests. */
  lemma WrappingIncrementExact(n: int, r: int)
    requires IsInt64(n) && IsInt64(r)
    requires (r - (n + 1)) % 0x1_0000_0000_0000_0000 == 0
    ensures r == WrappingIncrement(n)
    ensures n < MaxInt64 ==> r == n + 1
  {
  }

  class ApiConfig {
    /** Requests served under /app/ since start-up or the last reset. */
    var fileserverHits: int

    /** The count is a 64-bit value. */
    ghost predicate Valid()
      reads this
    {
      IsInt64(fileserverHits)
    }

    /** `&apiConfig{}`: the count starts at Go's zero value. */
    constructor ()
      ensures Valid() && fileserverHits == 0
    {
      fileserverHits := 0;
    }

    /** `middlewareMetrics`: counts one request before passing it on. */
    method MiddlewareMetrics()
      requires Valid()
      modifies this
      ensures Valid() && fileserverHits == WrappingIncrement(old(fileserverHits))
      ensures 0 <= old(fileserverHits) < MaxInt64 ==>
        fileserverHits == old(fileserverHits) + 1 && fileserverHits > 0
    {
      fileserverHits := WrappingIncrement(fileserverHits);
    }

    /** `handleReset`: forgets every counted request. */
    method HandleReset()
      requires Valid()
      modifies this
      ensures Valid() && fileserverHits == 0
    {
      fileserverHits := 0;
    }

    /** `handleMetrics` and `adminMetrics`: report the count without changing it. */
    method HandleMetrics() returns (hits: int)
      requires Valid()
      ensures hits == fileserverHits && IsInt64(hits)
    {
      hits := fileserverHits;
    }
  }
}
