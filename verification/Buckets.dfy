/** The whole bucket array: the order in which iteration visits it, and where the nodes go
    when the array grows. */
module Buckets {
  import opened Chains
  import opened Reversal

  function Bucket<K>(hash: K -> nat, k: K, n: nat): nat
    requires n > 0
  {
    hash(k) % n
  }

  /** `c` may stand in bucket `b` of an array of `n` buckets. */
  ghost predicate GoodChain<K, V>(c: seq<Node<K, V>>, b: nat, hash: K -> nat, n: nat)
    requires n > 0
  {
    && Distinct(c)
    && Grouped(c)
    && forall i | 0 <= i < |c| :: Bucket(hash, c[i].val.key, n) == b
  }

  ghost predicate GoodChains<K, V>(chains: seq<seq<Node<K, V>>>, hash: K -> nat, n: nat)
    requires n > 0
  {
    forall b | 0 <= b < |chains| :: GoodChain(chains[b], b, hash, n)
  }

  /** All nodes in iteration order. */
  ghost function Flatten<T>(chains: seq<seq<T>>): seq<T> {
    if chains == [] then [] else Flatten(chains[..|chains| - 1]) + chains[|chains| - 1]
  }

  lemma {:induction false} FlattenConcat<T>(a: seq<seq<T>>, b: seq<seq<T>>)
    ensures Flatten(a + b) == Flatten(a) + Flatten(b)
  {
    if b == [] {
      assert a + b == a;
    } else {
      var b', last := b[..|b| - 1], b[|b| - 1];
      FlattenConcat(a, b');
      assert (a + b)[..|a + b| - 1] == a + b';
      assert Flatten(a + b) == Flatten(a + b') + last;
    }
  }

  lemma {:induction false} FlattenSplit<T>(chains: seq<seq<T>>, b: nat)
    requires b < |chains|
    ensures Flatten(chains) == Flatten(chains[..b]) + chains[b] + Flatten(chains[b + 1..])
    ensures Flatten(chains[..b + 1]) == Flatten(chains[..b]) + chains[b]
  {
    assert chains[..b + 1][..b] == chains[..b];
    FlattenConcat(chains[..b + 1], chains[b + 1..]);
    assert chains == chains[..b + 1] + chains[b + 1..];
  }

  lemma {:induction false} FlattenUpdate<T>(chains: seq<seq<T>>, b: nat, c: seq<T>)
    requires b < |chains|
    ensures Flatten(chains[b := c]) == Flatten(chains[..b]) + c + Flatten(chains[b + 1..])
  {
    FlattenSplit(chains[b := c], b);
    assert chains[b := c][..b] == chains[..b];
    assert chains[b := c][b + 1..] == chains[b + 1..];
  }

  /** Where a node of bucket `b` stands in iteration order. */
  lemma {:induction false} FlattenAt<T>(chains: seq<seq<T>>, b: nat, i: nat)
    requires b < |chains| && i < |chains[b]|
    ensures |Flatten(chains[..b])| + i < |Flatten(chains)|
    ensures Flatten(chains)[|Flatten(chains[..b])| + i] == chains[b][i]
  {
    FlattenSplit(chains, b);
  }

  lemma {:induction false} FlattenFind<T>(chains: seq<seq<T>>, p: nat) returns (b: nat, i: nat)
    requires p < |Flatten(chains)|
    ensures b < |chains| && i < |chains[b]|
    ensures p == |Flatten(chains[..b])| + i && chains[b][i] == Flatten(chains)[p]
  {
    var init := chains[..|chains| - 1];
    if p < |Flatten(init)| {
      b, i := FlattenFind(init, p);
      assert chains[..b] == init[..b];
    } else {
      b, i := |chains| - 1, p - |Flatten(init)|;
    }
  }

  lemma {:induction false} FlattenEmpty<T>(chains: seq<seq<T>>)
    requires forall b | 0 <= b < |chains| :: chains[b] == []
    ensures Flatten(chains) == []
  {
    if chains != [] {
      FlattenEmpty(chains[..|chains| - 1]);
    }
  }

  // ----- what well-placed chains add up to -----

  lemma {:induction false} FlattenBuckets<K, V>(chains: seq<seq<Node<K, V>>>, hash: K -> nat, n: nat)
    requires n > 0 && GoodChains(chains, hash, n)
    ensures forall p | 0 <= p < |Flatten(chains)| ::
              Bucket(hash, Flatten(chains)[p].val.key, n) < |chains|
  {
    forall p | 0 <= p < |Flatten(chains)|
      ensures Bucket(hash, Flatten(chains)[p].val.key, n) < |chains|
    {
      var b, i := FlattenFind(chains, p);
      assert GoodChain(chains[b], b, hash, n);
    }
  }

  /** Iteration order repeats no node and keeps equal keys together across the whole table. */
  lemma {:induction false} FlattenGood<K, V>(chains: seq<seq<Node<K, V>>>, hash: K -> nat, n: nat)
    requires n > 0 && GoodChains(chains, hash, n)
    ensures Distinct(Flatten(chains)) && Grouped(Flatten(chains))
  {
    if chains != [] {
      var init, last := chains[..|chains| - 1], chains[|chains| - 1];
      assert GoodChains(init, hash, n) by {
        assert forall b | 0 <= b < |init| :: init[b] == chains[b];
      }
      FlattenGood(init, hash, n);
      FlattenBuckets(init, hash, n);
      assert GoodChain(last, |chains| - 1, hash, n);
      ConcatGood(Flatten(init), last);
    }
  }

  lemma {:induction false} ConcatGood<K, V>(a: seq<Node<K, V>>, c: seq<Node<K, V>>)
    requires Distinct(a) && Grouped(a) && Distinct(c) && Grouped(c)
    requires forall i, j | 0 <= i < |a| && 0 <= j < |c| :: a[i].val.key != c[j].val.key
    ensures Distinct(a + c) && Grouped(a + c)
  {
    var d := a + c;
    forall i, j | 0 <= i < j < |d| && StartsRun(d, j)
      ensures d[i].val.key != d[j].val.key
    {
      if j < |a| {
        assert StartsRun(a, j);
      } else if i >= |a| {
        assert StartsRun(c, j - |a|);
      }
    }
    forall i, j | 0 <= i < j < |d|
      ensures d[i] != d[j]
    {
      if i < |a| <= j {
        assert a[i].val.key != c[j - |a|].val.key;
      }
    }
  }

  lemma {:induction false} FlattenNoKey<K, V>(chains: seq<seq<Node<K, V>>>, k: K)
    requires forall b | 0 <= b < |chains| :: !HasKey(chains[b], k)
    ensures Only(Flatten(chains), k) == []
  {
    if chains != [] {
      var init, last := chains[..|chains| - 1], chains[|chains| - 1];
      FlattenNoKey(init, k);
      OnlyAbsent(last, k);
      OnlyConcat(Flatten(init), last, k);
    }
  }

  /** All the nodes with key `k` are in the bucket of `k`. */
  lemma {:induction false} OnlyFlatten<K, V>(chains: seq<seq<Node<K, V>>>, hash: K -> nat, k: K)
    requires |chains| > 0 && GoodChains(chains, hash, |chains|)
    ensures Only(Flatten(chains), k) == Only(chains[Bucket(hash, k, |chains|)], k)
  {
    var b := Bucket(hash, k, |chains|);
    forall b' | 0 <= b' < |chains| && b' != b
      ensures !HasKey(chains[b'], k)
    {
      assert GoodChain(chains[b'], b', hash, |chains|);
    }
    var before, after := chains[..b], chains[b + 1..];
    FlattenSplit(chains, b);
    OnlyConcat(Flatten(before) + chains[b], Flatten(after), k);
    OnlyConcat(Flatten(before), chains[b], k);
    FlattenNoKey(before, k);
    FlattenNoKey(after, k);
  }

  // ----- growing -----

  /** The nodes of `s` that belong in bucket `b` of `n`, in order. */
  ghost function InBucket<K, V>(s: seq<Node<K, V>>, b: nat, hash: K -> nat, n: nat): seq<Node<K, V>>
    requires n > 0
  {
    if s == [] then []
    else
      var rest := InBucket(s[..|s| - 1], b, hash, n);
      if Bucket(hash, s[|s| - 1].val.key, n) == b then rest + [s[|s| - 1]] else rest
  }

  /** The array of `n` buckets after every node of `s`, in order, is pushed in front of its bucket. */
  ghost function Rehashed<K, V>(s: seq<Node<K, V>>, hash: K -> nat, n: nat): (r: seq<seq<Node<K, V>>>)
    requires n > 0
    ensures |r| == n
  {
    if s == [] then seq(n, _ => [])
    else
      var r, x := Rehashed(s[..|s| - 1], hash, n), s[|s| - 1];
      var b := Bucket(hash, x.val.key, n);
      r[b := [x] + r[b]]
  }

  /** A rehashed bucket is what belongs there, in the reverse of the old iteration order. */
  lemma {:induction false} RehashedBucket<K, V>(s: seq<Node<K, V>>, b: nat, hash: K -> nat, n: nat)
    requires b < n
    ensures Rehashed(s, hash, n)[b] == Reverse(InBucket(s, b, hash, n))
  {
    if s != [] {
      var s', x := s[..|s| - 1], s[|s| - 1];
      RehashedBucket(s', b, hash, n);
      ReverseAppend(InBucket(s', b, hash, n), x);
    }
  }

  lemma {:induction false} RehashedBuckets<K, V>(s: seq<Node<K, V>>, hash: K -> nat, n: nat)
    requires n > 0
    ensures forall b | 0 <= b < n :: Rehashed(s, hash, n)[b] == Reverse(InBucket(s, b, hash, n))
  {
    forall b | 0 <= b < n
      ensures Rehashed(s, hash, n)[b] == Reverse(InBucket(s, b, hash, n))
    {
      RehashedBucket(s, b, hash, n);
    }
  }

  /** Rehashing loses no node and makes none up. */
  lemma {:induction false} RehashedKeepsNodes<K, V>(s: seq<Node<K, V>>, hash: K -> nat, n: nat)
    requires n > 0
    ensures multiset(Flatten(Rehashed(s, hash, n))) == multiset(s)
  {
    var r := Rehashed(s, hash, n);
    if s == [] {
      FlattenEmpty(r);
    } else {
      var s', x := s[..|s| - 1], s[|s| - 1];
      var r', b := Rehashed(s', hash, n), Bucket(hash, x.val.key, n);
      RehashedKeepsNodes(s', hash, n);
      FlattenPush(r', b, x);
      assert multiset(s) == multiset(s') + multiset{x} by {
        assert s == s' + [x];
      }
    }
  }

  lemma {:induction false} FlattenPush<T>(chains: seq<seq<T>>, b: nat, x: T)
    requires b < |chains|
    ensures multiset(Flatten(chains[b := [x] + chains[b]])) == multiset(Flatten(chains)) + multiset{x}
  {
    FlattenSplit(chains, b);
    FlattenUpdate(chains, b, [x] + chains[b]);
    OneMore(Flatten(chains[..b]), chains[b], Flatten(chains[b + 1..]), x);
  }

  lemma OneMore<T>(a: seq<T>, c: seq<T>, d: seq<T>, x: T)
    ensures multiset(a + ([x] + c) + d) == multiset(a + c + d) + multiset{x}
  {
  }

  /** Everything in a rehashed bucket came from `s` and belongs there. */
  lemma {:induction false} RehashedFrom<K, V>(s: seq<Node<K, V>>, b: nat, hash: K -> nat, n: nat)
    requires b < n
    ensures forall i | 0 <= i < |Rehashed(s, hash, n)[b]| ::
              var x := Rehashed(s, hash, n)[b][i]; x in s && Bucket(hash, x.val.key, n) == b
  {
    if s != [] {
      RehashedFrom(s[..|s| - 1], b, hash, n);
    }
  }

  /** Rehashing a table in iteration order gives good chains: runs of equal keys stay runs. */
  lemma {:induction false} RehashedGood<K, V>(s: seq<Node<K, V>>, hash: K -> nat, n: nat)
    requires n > 0 && Distinct(s) && Grouped(s)
    ensures GoodChains(Rehashed(s, hash, n), hash, n)
  {
    if s != [] {
      var s', x := s[..|s| - 1], s[|s| - 1];
      assert s == s' + [x];
      FrontGood(s', x);
      RehashedGood(s', hash, n);
      PushedGood(s', x, hash, n);
    }
  }

  lemma FrontGood<K, V>(s: seq<Node<K, V>>, x: Node<K, V>)
    requires Distinct(s + [x]) && Grouped(s + [x])
    ensures Distinct(s) && Grouped(s)
  {
    SliceGrouped(s + [x], 0, |s|);
    assert (s + [x])[0..|s|] == s;
  }

  /** The bucket that gets the next node stays good. */
  lemma {:induction false} PushedGood<K, V>(s: seq<Node<K, V>>, x: Node<K, V>, hash: K -> nat, n: nat)
    requires n > 0 && Distinct(s + [x]) && Grouped(s + [x]) && GoodChains(Rehashed(s, hash, n), hash, n)
    ensures var b := Bucket(hash, x.val.key, n); GoodChain([x] + Rehashed(s, hash, n)[b], b, hash, n)
  {
    var c, b := Rehashed(s, hash, n)[Bucket(hash, x.val.key, n)], Bucket(hash, x.val.key, n);
    RehashedFrom(s, b, hash, n);
    LastIsNew(s, x);
    assert GoodChain(c, b, hash, n);
    if HasKey(c, x.val.key) {
      var i :| 0 <= i < |c| && c[i].val.key == x.val.key;
      RunContinues(s, x, c[i]);
      NewestLeads(s, hash, n);
    }
    PushGrouped(x, c);
    PushDistinct(x, c);
  }

  lemma LastIsNew<T>(s: seq<T>, x: T)
    requires Distinct(s + [x])
    ensures x !in s
  {
    assert (s + [x])[|s|] == x;
    assert forall i | 0 <= i < |s| :: (s + [x])[i] == s[i];
  }

  lemma PushDistinct<T>(x: T, c: seq<T>)
    requires x !in c && Distinct(c)
    ensures Distinct([x] + c)
  {
  }

  /** In a grouped list the last node continues the run of its key, if there is one. */
  lemma RunContinues<K, V>(s: seq<Node<K, V>>, x: Node<K, V>, y: Node<K, V>)
    requires Grouped(s + [x]) && y in s && y.val.key == x.val.key
    ensures s[|s| - 1].val.key == x.val.key
  {
    var all := s + [x];
    var m :| 0 <= m < |s| && s[m] == y;
    assert all[m] == y && all[|s|] == x && all[|s| - 1] == s[|s| - 1];
    assert !StartsRun(all, |s|);
  }

  /** The node rehashed last stands in front. */
  lemma NewestLeads<K, V>(s: seq<Node<K, V>>, hash: K -> nat, n: nat)
    requires n > 0 && s != []
    ensures var c := Rehashed(s, hash, n)[Bucket(hash, s[|s| - 1].val.key, n)]; c != [] && c[0] == s[|s| - 1]
  {
  }
}
