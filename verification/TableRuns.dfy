/** What the table means: every run of its operations is a run of an abstract multiset of
    entries, and what `==` between two tables decides. */
module TableRuns {
  import opened Chains
  import opened Buckets
  import opened Primes
  import opened ChainOps
  import opened TableRecord
  import opened HashTable

  // ----- lookups read the multiset -----

  /** The nodes found under `k` carry exactly the entries of the multiset that have this key. */
  lemma {:induction false} FoundIsHeld<K, V>(s: seq<Node<K, V>>, k: K, e: Entry<K, V>)
    ensures multiset(Vals(Only(s, k)))[e] == if e.key == k then multiset(Vals(s))[e] else 0
  {
    if s != [] {
      FoundIsHeld(s[1..], k, e);
      assert Vals(s) == [s[0].val] + Vals(s[1..]);
      assert s[0].val.key == k ==> Vals(Only(s, k)) == [s[0].val] + Vals(Only(s[1..], k));
    }
  }

  lemma {:induction false} ErasedIsHeld<K, V>(s: seq<Node<K, V>>, k: K, e: Entry<K, V>)
    ensures multiset(Vals(Without(s, k)))[e] == if e.key == k then 0 else multiset(Vals(s))[e]
  {
    if s != [] {
      ErasedIsHeld(s[1..], k, e);
      assert Vals(s) == [s[0].val] + Vals(s[1..]);
      assert s[0].val.key != k ==> Vals(Without(s, k)) == [s[0].val] + Vals(Without(s[1..], k));
    }
  }

  ghost predicate KeyIn<K(!new), V(!new)>(m: multiset<Entry<K, V>>, k: K) {
    exists e :: e in m && e.key == k
  }

  lemma {:induction false} FoundIffHeld<K(!new), V(!new)>(s: seq<Node<K, V>>, k: K)
    ensures Only(s, k) != [] <==> KeyIn(multiset(Vals(s)), k)
  {
    OnlyAbsent(s, k);
    if HasKey(s, k) {
      var i :| 0 <= i < |s| && s[i].val.key == k;
      assert Vals(s)[i] in multiset(Vals(s));
    }
    if KeyIn(multiset(Vals(s)), k) {
      var e :| e in multiset(Vals(s)) && e.key == k;
      var i :| 0 <= i < |Vals(s)| && Vals(s)[i] == e;
      assert s[i].val.key == k;
    }
  }

  // ----- every run refines the multiset -----

  datatype Op<K, V> =
    | InsertUnique(e: Entry<K, V>)
    | InsertEqual(e: Entry<K, V>)
    | FindOrInsert(e: Entry<K, V>)
    | PutUnique(e: Entry<K, V>)  // the two insertions that do not grow the table
    | PutEqual(e: Entry<K, V>)
    | Erase(k: K)
    | EraseHeld(p: nat)          // the key is the one stored in the node at position `p`
    | EraseOne(p: nat)           // the iterator stands at position `p`, or at the end
    | EraseSpan(p: nat, q: nat)  // the range between two iterators
    | Resize(hint: nat)
    | Clear

  /** In some order of the entries, those from position `p` up to `q` are gone. */
  ghost predicate SpanErased<E(!new)>(m: multiset<E>, p: nat, q: nat, m': multiset<E>) {
    exists s: seq<E> :: SpanOf(s, m, p, q, m')
  }

  ghost predicate SpanOf<E>(s: seq<E>, m: multiset<E>, p: nat, q: nat, m': multiset<E>) {
    multiset(s) == m && p <= q <= |s| && m' == multiset(s[..p] + s[q..])
  }

  lemma SpanErasedLess<E(!new)>(m: multiset<E>, p: nat, q: nat, m': multiset<E>)
    requires SpanErased(m, p, q, m')
    ensures m' <= m && |m'| == |m| - (q - p)
  {
    var s :| SpanOf(s, m, p, q, m');
    assert s == s[..p] + s[p..q] + s[q..];
    assert m == m' + multiset(s[p..q]);
    assert |multiset(s[p..q])| == q - p;
  }

  /** No entry with key `k` is left, and all others are. */
  ghost predicate KeyErased<K(!new), V(!new)>(m: multiset<Entry<K, V>>, k: K, m': multiset<Entry<K, V>>) {
    forall e :: m'[e] == if e.key == k then 0 else m[e]
  }

  /** The operation may insert an entry with a key that is held already. */
  predicate MayRepeat<K, V>(op: Op<K, V>) {
    op.InsertEqual? || op.PutEqual?
  }

  /** The operation inserts without growing the table. */
  predicate MayCrowd<K, V>(op: Op<K, V>) {
    op.PutUnique? || op.PutEqual?
  }

  /** What an operation does to the multiset of entries. */
  ghost predicate Step<K(!new), V(!new)>(op: Op<K, V>, m: multiset<Entry<K, V>>, m': multiset<Entry<K, V>>) {
    match op
    case InsertUnique(e) => m' == if KeyIn(m, e.key) then m else m + multiset{e}
    case InsertEqual(e) => m' == m + multiset{e}
    case FindOrInsert(e) => m' == if KeyIn(m, e.key) then m else m + multiset{e}
    case PutUnique(e) => m' == if KeyIn(m, e.key) then m else m + multiset{e}
    case PutEqual(e) => m' == m + multiset{e}
    case Erase(k) => KeyErased(m, k, m')
    case EraseHeld(p) => if p < |m| then exists e :: e in m && KeyErased(m, e.key, m') else m' == m
    case EraseOne(p) => if p < |m| then SpanErased(m, p, p + 1, m') else m' == m
    case EraseSpan(p, q) => if p <= q <= |m| then SpanErased(m, p, q, m') else m' == m
    case Resize(_) => m' == m
    case Clear => m' == multiset{}
  }

  ghost predicate UniqueKeys<K(!new), V(!new)>(m: multiset<Entry<K, V>>) {
    && (forall e, f | e in m && f in m && e.key == f.key :: e == f)
    && forall e | e in m :: m[e] == 1
  }

  /** Without the equal-key insertions keys stay unique. */
  lemma UniqueKept<K(!new), V(!new)>(op: Op<K, V>, m: multiset<Entry<K, V>>, m': multiset<Entry<K, V>>)
    requires Step(op, m, m') && !MayRepeat(op) && UniqueKeys(m)
    ensures UniqueKeys(m')
  {
    match op
    case Erase(k) => UniqueWithout(m, k, m');
    case EraseHeld(p) =>
      if p < |m| {
        var e :| e in m && KeyErased(m, e.key, m');
        UniqueWithout(m, e.key, m');
      }
    case EraseOne(p) =>
      if p < |m| {
        SpanErasedLess(m, p, p + 1, m');
        UniqueLess(m, m');
      }
    case EraseSpan(p, q) =>
      if p <= q <= |m| {
        SpanErasedLess(m, p, q, m');
        UniqueLess(m, m');
      }
    case _ =>
  }

  lemma UniqueLess<K(!new), V(!new)>(m: multiset<Entry<K, V>>, m': multiset<Entry<K, V>>)
    requires UniqueKeys(m) && m' <= m
    ensures UniqueKeys(m')
  {
    assert forall e | e in m' :: e in m && m'[e] == m[e];
  }

  lemma UniqueWithout<K(!new), V(!new)>(m: multiset<Entry<K, V>>, k: K, m': multiset<Entry<K, V>>)
    requires UniqueKeys(m) && KeyErased(m, k, m')
    ensures UniqueKeys(m')
  {
    assert forall e | e in m' :: e in m && m'[e] == m[e];
  }

  /** Steps an iterator from the beginning to a position. */
  method Advance<K(==), V(==)>(t: HashTable<K, V>, p: nat) returns (x: Node?<K, V>)
    requires t.Valid() && p <= |t.Order()|
    ensures AtNode(t.Order(), p, x)
  {
    x := t.Begin();
    for i := 0 to p
      invariant AtNode(t.Order(), i, x)
    {
      x := t.Increment(x, i);
    }
  }

  method PerformSpan<K(==, !new), V(==, !new)>(t: HashTable<K, V>, p: nat, q: nat)
    requires t.Valid()
    modifies t, t.nodes
    ensures t.Valid() && t.nodes == old(t.nodes) && t.hash == old(t.hash) && |t.buckets| == old(|t.buckets|)
    ensures Step(EraseSpan(p, q), old(t.Bag()), t.Bag())
    ensures if p <= q <= old(|t.Order()|) then t.Order() == old(t.Order())[..p] + old(t.Order())[q..]
            else t.Order() == old(t.Order())
    ensures t.numElements <= old(t.numElements)
  {
    ghost var was := t.Order();
    assert |multiset(Vals(was))| == t.numElements;
    if p <= q <= t.numElements {
      var first, last;
      first := Advance(t, p);
      last := Advance(t, q);
      t.EraseRange(first, last, p, q);
      SpanIsErased(was, p, q);
    }
  }

  lemma SpanIsErased<K(!new), V(!new)>(s: seq<Node<K, V>>, p: nat, q: nat)
    requires p <= q <= |s|
    ensures SpanErased(multiset(Vals(s)), p, q, multiset(Vals(s[..p] + s[q..])))
  {
    assert Vals(s[..p] + s[q..]) == Vals(s)[..p] + Vals(s)[q..];
    assert SpanOf(Vals(s), multiset(Vals(s)), p, q, multiset(Vals(s[..p] + s[q..])));
  }

  method PerformOne<K(==, !new), V(==, !new)>(t: HashTable<K, V>, p: nat)
    requires t.Valid()
    modifies t, t.nodes
    ensures t.Valid() && t.nodes == old(t.nodes) && t.hash == old(t.hash) && |t.buckets| == old(|t.buckets|)
    ensures Step(EraseOne(p), old(t.Bag()), t.Bag())
    ensures if p < old(|t.Order()|) then t.Order() == old(t.Order())[..p] + old(t.Order())[p + 1..]
            else t.Order() == old(t.Order())
    ensures t.numElements <= old(t.numElements)
  {
    ghost var was := t.Order();
    assert |multiset(Vals(was))| == t.numElements;
    if p <= t.numElements {
      var x := Advance(t, p);
      t.EraseAt(x, p);
      if p < |was| {
        SpanIsErased(was, p, p + 1);
      }
    }
  }

  lemma KeyIsErased<K(!new), V(!new)>(s: seq<Node<K, V>>, k: K)
    ensures KeyErased(multiset(Vals(s)), k, multiset(Vals(Without(s, k))))
  {
    forall e: Entry<K, V>
      ensures multiset(Vals(Without(s, k)))[e] == if e.key == k then 0 else multiset(Vals(s))[e]
    {
      ErasedIsHeld(s, k, e);
    }
  }

  method PerformErase<K(==, !new), V(==, !new)>(t: HashTable<K, V>, k: K, alias: Node?<K, V>)
    requires t.Valid() && (alias != null ==> alias.val.key == k)
    modifies t, t.nodes
    ensures t.Valid() && t.nodes == old(t.nodes) && t.hash == old(t.hash) && |t.buckets| == old(|t.buckets|)
    ensures KeyErased(old(t.Bag()), k, t.Bag()) && t.Order() == Without(old(t.Order()), k)
    ensures t.numElements <= old(t.numElements)
  {
    KeyIsErased(t.Order(), k);
    var erased := t.EraseKey(k, alias);
  }

  /** Erases by a key that lies in the table, which the caller reaches through an iterator. */
  method PerformHeld<K(==, !new), V(==, !new)>(t: HashTable<K, V>, p: nat)
    requires t.Valid()
    modifies t, t.nodes
    ensures t.Valid() && t.nodes == old(t.nodes) && t.hash == old(t.hash) && |t.buckets| == old(|t.buckets|)
    ensures Step(EraseHeld(p), old(t.Bag()), t.Bag())
    ensures t.numElements <= old(t.numElements)
  {
    ghost var was := t.Order();
    assert |multiset(Vals(was))| == t.numElements;
    if p < t.numElements {
      var x := Advance(t, p);
      assert Vals(was)[p] == x.val && x.val in multiset(Vals(was));
      PerformErase(t, x.val.key, x);
    }
  }

  /** The insertions. */
  method PerformInsert<K(==, !new), V(==, !new)>(t: HashTable<K, V>, op: Op<K, V>)
    requires t.Valid() && (op.InsertUnique? || op.InsertEqual? || op.FindOrInsert? || op.PutUnique? || op.PutEqual?)
    modifies t, t.nodes
    ensures t.Valid() && fresh(t.nodes - old(t.nodes)) && t.hash == old(t.hash)
    ensures Step(op, old(t.Bag()), t.Bag())
    ensures !MayCrowd(op) ==> t.Roomy()
  {
    FoundIffHeld(t.Order(), op.e.key);
    match op
    case InsertUnique(e) => var r, inserted := t.InsertUnique(e);
    case InsertEqual(e) => var r := t.InsertEqual(e);
    case FindOrInsert(e) => var r := t.FindOrInsert(e);
    case PutUnique(e) => var r, inserted := t.InsertUniqueNoresize(e);
    case PutEqual(e) => var r := t.InsertEqualNoresize(e);
  }

  /** Runs one operation. */
  method Perform<K(==, !new), V(==, !new)>(t: HashTable<K, V>, op: Op<K, V>)
    requires t.Valid()
    modifies t, t.nodes
    ensures t.Valid() && fresh(t.nodes - old(t.nodes)) && t.hash == old(t.hash)
    ensures Step(op, old(t.Bag()), t.Bag())
    ensures old(t.Roomy()) && !MayCrowd(op) ==> t.Roomy()
  {
    match op
    case Erase(k) => PerformErase(t, k, null);
    case EraseHeld(p) => PerformHeld(t, p);
    case EraseOne(p) => PerformOne(t, p);
    case EraseSpan(p, q) => PerformSpan(t, p, q);
    case Resize(hint) => t.Resize(hint);
    case Clear => t.Clear();
    case _ => PerformInsert(t, op);
  }

  /** Runs a list of operations, recording the multiset after each. */
  method Run<K(==, !new), V(==, !new)>(t: HashTable<K, V>, ops: seq<Op<K, V>>)
    returns (ghost trace: seq<multiset<Entry<K, V>>>)
    requires t.Valid()
    modifies t, t.nodes
    ensures t.Valid() && |trace| == |ops| + 1 && trace[0] == old(t.Bag()) && trace[|ops|] == t.Bag()
    ensures forall i | 0 <= i < |ops| :: Step(ops[i], trace[i], trace[i + 1])
    ensures old(t.Roomy()) && (forall op | op in ops :: !MayCrowd(op)) ==>
              t.Roomy() && (t.numElements <= MAX_BUCKETS ==> t.numElements <= |t.buckets|)
    ensures UniqueKeys(old(t.Bag())) && (forall op | op in ops :: !MayRepeat(op)) ==> UniqueKeys(t.Bag())
  {
    trace := [t.Bag()];
    for i := 0 to |ops|
      invariant t.Valid() && fresh(t.nodes - old(t.nodes)) && |trace| == i + 1
      invariant trace[0] == old(t.Bag()) && trace[i] == t.Bag()
      invariant forall j | 0 <= j < i :: Step(ops[j], trace[j], trace[j + 1])
      invariant old(t.Roomy()) && (forall op | op in ops :: !MayCrowd(op)) ==> t.Roomy()
    {
      Perform(t, ops[i]);
      trace := trace + [t.Bag()];
    }
    if UniqueKeys(trace[0]) && forall op | op in ops :: !MayRepeat(op) {
      UniqueAlong(ops, trace, |ops|);
    }
  }

  lemma {:induction false} UniqueAlong<K(!new), V(!new)>(ops: seq<Op<K, V>>, trace: seq<multiset<Entry<K, V>>>, n: nat)
    requires |trace| == |ops| + 1 && UniqueKeys(trace[0]) && n <= |ops|
    requires forall i | 0 <= i < |ops| :: Step(ops[i], trace[i], trace[i + 1]) && !MayRepeat(ops[i])
    ensures UniqueKeys(trace[n])
  {
    if n > 0 {
      UniqueAlong(ops, trace, n - 1);
      UniqueKept(ops[n - 1], trace[n - 1], trace[n]);
    }
  }

  // ----- what == decides -----

  /** Distinct values, all found in a list of the same length, are all of that list. */
  lemma {:induction false} CoverIsPermutation<T>(v1: seq<T>, v2: seq<T>)
    requires Distinct(v1) && Covers(v1, v2)
    ensures multiset(v1) == multiset(v2)
  {
    forall v | v in v1
      ensures multiset(v1)[v] == 1
    {
      DistinctOnce(v1, v);
    }
    var m1, m2 := multiset(v1), multiset(v2);
    assert m1 <= m2 by {
      assert forall v | v in m1 :: v in v1 && v in m2;
    }
    assert m2 == m1 + (m2 - m1);
    assert |m2| == |m1| + |m2 - m1|;
  }

  lemma {:induction false} DistinctOnce<T>(s: seq<T>, v: T)
    requires Distinct(s) && v in s
    ensures multiset(s)[v] == 1
  {
    var i :| 0 <= i < |s| && s[i] == v;
    assert s == s[..i] + [v] + s[i + 1..];
    assert v !in s[..i] && v !in s[i + 1..];
  }

  /** The values of one bucket are those of the whole table that hash there. */
  lemma {:induction false} BucketBag<K, V>(chains: seq<seq<Node<K, V>>>, hash: K -> nat, b: nat, e: Entry<K, V>)
    requires b < |chains| && GoodChains(chains, hash, |chains|)
    ensures multiset(Vals(chains[b]))[e] == if Bucket(hash, e.key, |chains|) == b then multiset(Vals(Flatten(chains)))[e] else 0
  {
    FlattenSplit(chains, b);
    var before, after := Flatten(chains[..b]), Flatten(chains[b + 1..]);
    assert Vals(Flatten(chains)) == Vals(before) + Vals(chains[b]) + Vals(after);
    forall i | 0 <= i < |chains[b]|
      ensures Bucket(hash, Vals(chains[b])[i].key, |chains|) == b
    {
      assert GoodChain(chains[b], b, hash, |chains|);
    }
    if Bucket(hash, e.key, |chains|) == b {
      NotElsewhere(chains, hash, b, e);
    }
  }

  lemma {:induction false} NotElsewhere<K, V>(chains: seq<seq<Node<K, V>>>, hash: K -> nat, b: nat, e: Entry<K, V>)
    requires b < |chains| && GoodChains(chains, hash, |chains|) && Bucket(hash, e.key, |chains|) == b
    ensures e !in Vals(Flatten(chains[..b])) && e !in Vals(Flatten(chains[b + 1..]))
  {
    forall p | 0 <= p < |Flatten(chains[..b])|
      ensures Flatten(chains[..b])[p].val != e
    {
      var b', i := FlattenFind(chains[..b], p);
      assert GoodChain(chains[b'], b', hash, |chains|);
    }
    var after := chains[b + 1..];
    forall p | 0 <= p < |Flatten(after)|
      ensures Flatten(after)[p].val != e
    {
      var b', i := FlattenFind(after, p);
      assert GoodChain(chains[b + 1 + b'], b + 1 + b', hash, |chains|);
    }
  }

  ghost predicate AllCover<K, V>(c1: seq<seq<Node<K, V>>>, c2: seq<seq<Node<K, V>>>) {
    |c1| == |c2| && forall n | 0 <= n < |c1| :: Covers(Vals(c1[n]), Vals(c2[n]))
  }

  /** Between chains of one hash function and one number of buckets, the comparison of all buckets is equality
      of contents as soon as the left ones repeat no value. */
  lemma {:induction false} EqualsDecides<K, V>(c1: seq<seq<Node<K, V>>>, c2: seq<seq<Node<K, V>>>, hash: K -> nat)
    requires |c1| == |c2| > 0 && GoodChains(c1, hash, |c1|) && GoodChains(c2, hash, |c2|)
    requires Distinct(Vals(Flatten(c1)))
    ensures AllCover(c1, c2) <==> multiset(Vals(Flatten(c1))) == multiset(Vals(Flatten(c2)))
  {
    if AllCover(c1, c2) {
      forall b | 0 <= b < |c1|
        ensures multiset(Vals(c1[b])) == multiset(Vals(c2[b]))
      {
        BucketDistinct(c1, b);
        CoverIsPermutation(Vals(c1[b]), Vals(c2[b]));
      }
      SumOfBuckets(c1, c2);
    }
    if multiset(Vals(Flatten(c1))) == multiset(Vals(Flatten(c2))) {
      forall b | 0 <= b < |c1|
        ensures Covers(Vals(c1[b]), Vals(c2[b]))
      {
        SameBucket(c1, c2, hash, b);
      }
    }
  }

  /** So for two tables of one hash function, of which the left one repeats no value, `==` says yes exactly when
      they have equally many buckets and the same contents. */
  method EqualsExact<K(==), V(==)>(t1: HashTable<K, V>, t2: HashTable<K, V>) returns (b: bool)
    requires t1.Valid() && t2.Valid() && t1.hash == t2.hash && Distinct(Vals(t1.Order()))
    ensures b <==> |t1.buckets| == |t2.buckets| && t1.Bag() == t2.Bag()
  {
    b := t1.Equals(t2);
    if |t1.chains| == |t2.chains| {
      EqualsDecides(t1.chains, t2.chains, t1.hash);
    }
  }

  /** Equal contents are not enough: two tables with the same single entry, one of which has been grown. */
  method EqualsMissesGrowth(hash: nat -> nat) returns (t1: HashTable<nat, char>, t2: HashTable<nat, char>, b: bool)
    ensures t1.Valid() && t2.Valid() && t1.hash == t2.hash && t1.Bag() == t2.Bag() == multiset{Entry(1, 'a')}
    ensures !b
  {
    t1 := TableOfOne(hash, 'a');
    t2 := TableGrown(hash);
    SmallestSize(|t1.chains|);
    b := t1.Equals(t2);
  }

  method TableGrown(hash: nat -> nat) returns (t: HashTable<nat, char>)
    ensures fresh(t) && t.Valid() && t.hash == hash && |t.chains| > 5
    ensures t.Bag() == multiset{Entry(1, 'a')}
  {
    t := TableOfOne(hash, 'a');
    t.Resize(6);
  }

  method TableOfOne(hash: nat -> nat, x: char) returns (t: HashTable<nat, char>)
    ensures fresh(t) && fresh(t.nodes) && t.Valid() && t.hash == hash && IsNextPrime(0, |t.chains|)
    ensures t.Bag() == multiset{Entry(1, x)}
  {
    t := new HashTable(0, hash);
    var r := t.InsertEqualNoresize(Entry(1, x));
  }

  lemma SmallestSize(r: nat)
    requires IsNextPrime(0, r)
    ensures r <= 5
  {
    assert PRIMES[0] == 5 && PRIMES[0] in PRIMES;
  }

  lemma {:induction false} BucketDistinct<K, V>(chains: seq<seq<Node<K, V>>>, b: nat)
    requires b < |chains| && Distinct(Vals(Flatten(chains)))
    ensures Distinct(Vals(chains[b]))
  {
    var off := |Flatten(chains[..b])|;
    FlattenSplit(chains, b);
    assert forall i | 0 <= i < |chains[b]| :: Vals(Flatten(chains))[off + i] == Vals(chains[b])[i];
  }

  lemma {:induction false} SumOfBuckets<K, V>(c1: seq<seq<Node<K, V>>>, c2: seq<seq<Node<K, V>>>)
    requires |c1| == |c2| && forall b | 0 <= b < |c1| :: multiset(Vals(c1[b])) == multiset(Vals(c2[b]))
    ensures multiset(Vals(Flatten(c1))) == multiset(Vals(Flatten(c2)))
  {
    if c1 != [] {
      var n := |c1| - 1;
      SumOfBuckets(c1[..n], c2[..n]);
      assert Vals(Flatten(c1)) == Vals(Flatten(c1[..n])) + Vals(c1[n]);
      assert Vals(Flatten(c2)) == Vals(Flatten(c2[..n])) + Vals(c2[n]);
    }
  }

  lemma {:induction false} SameBucket<K, V>(c1: seq<seq<Node<K, V>>>, c2: seq<seq<Node<K, V>>>, hash: K -> nat, b: nat)
    requires |c1| == |c2| && b < |c1| && GoodChains(c1, hash, |c1|) && GoodChains(c2, hash, |c2|)
    requires multiset(Vals(Flatten(c1))) == multiset(Vals(Flatten(c2)))
    ensures Covers(Vals(c1[b]), Vals(c2[b]))
  {
    var m1, m2 := multiset(Vals(c1[b])), multiset(Vals(c2[b]));
    forall e | e in Vals(c1[b]) + Vals(c2[b])
      ensures m1[e] == m2[e]
    {
      BucketBag(c1, hash, b, e);
      BucketBag(c2, hash, b, e);
    }
    assert forall e | e in m1 || e in m2 :: e in Vals(c1[b]) + Vals(c2[b]);
    assert m1 == m2 && |m1| == |m2|;
    assert forall e | e in Vals(c1[b]) :: e in m2;
  }

  /** Lists that keep every key where it was, so that a table holding one may hold the other. */
  ghost predicate SameKeys<K, V>(v1: seq<Entry<K, V>>, v2: seq<Entry<K, V>>) {
    |v1| == |v2| && forall i | 0 <= i < |v1| :: v1[i].key == v2[i].key
  }

  /** Exactly when a bucket repeats no value does the comparison of buckets mean equal contents,
      whatever the other bucket holds. The mapped type only needs two values. */
  lemma {:induction false} CoversExact<K(!new), V(!new)>(v1: seq<Entry<K, V>>, a: V, b: V)
    requires a != b
    ensures Distinct(v1) <==> forall v2 | SameKeys(v1, v2) :: Covers(v1, v2) ==> multiset(v1) == multiset(v2)
  {
    if Distinct(v1) {
      forall v2 | SameKeys(v1, v2) && Covers(v1, v2)
        ensures multiset(v1) == multiset(v2)
      {
        CoverIsPermutation(v1, v2);
      }
    } else {
      var i, j :| 0 <= i < j < |v1| && v1[i] == v1[j];
      var other := Entry(v1[j].key, if v1[j].mapped == a then b else a);
      FooledBy(v1, i, j, other);
      assert SameKeys(v1, v1[j := other]);
    }
  }

  /** Replacing one of two equal values is not noticed. */
  lemma {:induction false} FooledBy<T>(v1: seq<T>, i: nat, j: nat, x: T)
    requires i < j < |v1| && v1[i] == v1[j] && x != v1[j]
    ensures Covers(v1, v1[j := x]) && multiset(v1) != multiset(v1[j := x])
    ensures x !in v1 ==> !Covers(v1[j := x], v1)
  {
    var v2 := v1[j := x];
    forall v | v in v1
      ensures v in v2
    {
      var k :| 0 <= k < |v1| && v1[k] == v;
      assert v2[if k == j then i else k] == v;
    }
    assert v1 == v1[..j] + [v1[j]] + v1[j + 1..] && v2 == v1[..j] + [x] + v1[j + 1..];
    assert multiset(v2)[x] == multiset(v1)[x] + 1;
    assert v2[j] == x;
  }

  /** With repeated values `==` is not even symmetric. */
  lemma CoversNotSymmetric()
    ensures var twice, both := [Entry(1, 'a'), Entry(1, 'a')], [Entry(1, 'a'), Entry(1, 'b')];
            Covers(twice, both) && !Covers(both, twice)
  {
    var twice, both := [Entry(1, 'a'), Entry(1, 'a')], [Entry(1, 'a'), Entry(1, 'b')];
    assert both[0] == twice[0];
    assert both[1] in both && both[1] !in twice;
  }

  /** A table that holds two entries with one key. */
  method TableOfTwo(hash: nat -> nat, x: char, y: char) returns (t: HashTable<nat, char>)
    ensures fresh(t) && t.Valid() && t.hash == hash && IsNextPrime(0, |t.chains|)
    ensures t.Bag() == multiset{Entry(1, x), Entry(1, y)}
  {
    t := TableOfOne(hash, x);
    var r := t.InsertEqualNoresize(Entry(1, y));
  }

  lemma NextPrimeUnique(n: nat, r: nat, r': nat)
    requires IsNextPrime(n, r) && IsNextPrime(n, r')
    ensures r == r'
  {
  }

  /** A table that holds the same entry twice, one that holds it once, and what the two comparisons answer. */
  method EqualsNotSymmetric(hash: nat -> nat) returns (there: bool, back: bool)
    ensures there && !back
  {
    var twice := TableOfTwo(hash, 'a', 'a');
    var both := TableOfTwo(hash, 'a', 'b');
    there := twice.Equals(both);
    back := both.Equals(twice);
    NextPrimeUnique(0, |twice.chains|, |both.chains|);
    TwiceCovered(twice.chains, both.chains, hash);
  }

  lemma TwiceCovered(c1: seq<seq<Node<nat, char>>>, c2: seq<seq<Node<nat, char>>>, hash: nat -> nat)
    requires |c1| == |c2| > 0 && GoodChains(c1, hash, |c1|) && GoodChains(c2, hash, |c2|)
    requires multiset(Vals(Flatten(c1))) == multiset{Entry(1, 'a'), Entry(1, 'a')}
    requires multiset(Vals(Flatten(c2))) == multiset{Entry(1, 'a'), Entry(1, 'b')}
    ensures AllCover(c1, c2) && !AllCover(c2, c1)
  {
    forall n | 0 <= n < |c1| ensures Covers(Vals(c1[n]), Vals(c2[n])) {
      BucketHolds(c1, hash, n, 'a', 'a');
      BucketHolds(c2, hash, n, 'a', 'b');
      TwiceOnce(Vals(c1[n]), Vals(c2[n]), n == Bucket(hash, 1, |c1|));
    }
    var b := Bucket(hash, 1, |c1|);
    BucketHolds(c1, hash, b, 'a', 'a');
    BucketHolds(c2, hash, b, 'a', 'b');
    OnceTwice(Vals(c1[b]), Vals(c2[b]));
  }

  lemma TwiceOnce(v1: seq<Entry<nat, char>>, v2: seq<Entry<nat, char>>, here: bool)
    requires |v1| == |v2|
    requires multiset(v1) == if here then multiset{Entry(1, 'a'), Entry(1, 'a')} else multiset{}
    requires multiset(v2) == if here then multiset{Entry(1, 'a'), Entry(1, 'b')} else multiset{}
    ensures Covers(v1, v2)
  {
    forall e | e in v1 ensures e in v2 {
      assert e in multiset(v1);
      assert e in multiset(v2);
    }
  }

  lemma OnceTwice(v1: seq<Entry<nat, char>>, v2: seq<Entry<nat, char>>)
    requires multiset(v1) == multiset{Entry(1, 'a'), Entry(1, 'a')} && multiset(v2) == multiset{Entry(1, 'a'), Entry(1, 'b')}
    ensures !Covers(v2, v1)
  {
    var e := Entry(1, 'b');
    assert e in multiset(v2) && e !in multiset(v1);
    assert e in v2 && e !in v1;
  }

  /** Both entries have the same key, so one bucket holds them and the others nothing. */
  lemma BucketHolds(c: seq<seq<Node<nat, char>>>, hash: nat -> nat, n: nat, x: char, y: char)
    requires n < |c| && GoodChains(c, hash, |c|) && multiset(Vals(Flatten(c))) == multiset{Entry(1, x), Entry(1, y)}
    ensures multiset(Vals(c[n])) == if n == Bucket(hash, 1, |c|) then multiset{Entry(1, x), Entry(1, y)} else multiset{}
    ensures |c[n]| == if n == Bucket(hash, 1, |c|) then 2 else 0
  {
    var m := if n == Bucket(hash, 1, |c|) then multiset{Entry(1, x), Entry(1, y)} else multiset{};
    forall e: Entry<nat, char> ensures multiset(Vals(c[n]))[e] == m[e] {
      BucketBag(c, hash, n, e);
    }
    assert multiset(Vals(c[n])) == m;
    assert |multiset(Vals(c[n]))| == |Vals(c[n])|;
  }
}
