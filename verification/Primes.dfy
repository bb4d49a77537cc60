/** The table sizes: the least listed prime that is large enough, found by binary search. */
module Primes {

  const PRIMES: seq<nat> := [
    5, 53, 97, 193, 389, 769, 1543, 3079, 6151, 12289, 24593, 49157, 98317, 196613, 393241,
    786433, 1572869, 3145739, 6291469, 12582917, 25165843, 50331653, 100663319, 201326611,
    402653189, 805306457, 1610612741, 3221225473, 4294967291]

  const MAX_BUCKETS: nat := 4294967291

  /** `r` is the least listed size not below `n`, or the largest one if there is none. */
  ghost predicate IsNextPrime(n: nat, r: nat) {
    && r in PRIMES
    && (n <= MAX_BUCKETS ==> n <= r && forall p | p in PRIMES && n <= p :: r <= p)
    && (n > MAX_BUCKETS ==> r == MAX_BUCKETS)
  }

  ghost predicate Sorted(s: seq<nat>) {
    forall i, j | 0 <= i < j < |s| :: s[i] < s[j]
  }

  lemma PrimesSorted()
    ensures |PRIMES| == 29 && Sorted(PRIMES)
  {
    forall i, j | 0 <= i < j < |PRIMES|
      ensures PRIMES[i] < PRIMES[j]
    {
      AscendingFrom(i, j);
    }
  }

  lemma {:induction false} AscendingFrom(i: nat, j: nat)
    requires i < j < |PRIMES|
    ensures PRIMES[i] < PRIMES[j]
    decreases j
  {
    assert PRIMES[j - 1] < PRIMES[j];
    if i < j - 1 {
      AscendingFrom(i, j - 1);
    }
  }

  method LowerBound(s: seq<nat>, n: nat) returns (first: nat)
    requires Sorted(s)
    ensures first <= |s|
    ensures forall i | 0 <= i < first :: s[i] < n
    ensures forall i | first <= i < |s| :: n <= s[i]
  {
    first := 0;
    var len := |s|;
    while len > 0
      invariant 0 <= len && 0 <= first && first + len <= |s|
      invariant forall i | 0 <= i < first :: s[i] < n
      invariant forall i | first + len <= i < |s| :: n <= s[i]
    {
      var half := len / 2;
      if s[first + half] < n {
        first := first + half + 1;
        len := len - half - 1;
      } else {
        len := half;
      }
    }
  }

  method NextPrime(n: nat) returns (r: nat)
    ensures IsNextPrime(n, r)
  {
    PrimesSorted();
    var pos := LowerBound(PRIMES, n);
    r := if pos == |PRIMES| then PRIMES[|PRIMES| - 1] else PRIMES[pos];
    forall p | p in PRIMES && n <= p
      ensures pos < |PRIMES| && r <= p
    {
      var i :| 0 <= i < |PRIMES| && PRIMES[i] == p;
    }
  }
}
