/** The chained hash table itself: nodes relinked in place, a vector of bucket heads and an
    element count. Ghost state names the chains and records every node taken and given back. */
module HashTable {
  import opened Chains
  import opened Buckets
  import opened Reversal
  import opened Primes
  import opened ChainOps
  import opened TableRecord

  class HashTable<K(==), V(==)> {
    var hash: K -> nat
    var buckets: seq<Node?<K, V>>
    var numElements: nat

    ghost var chains: seq<seq<Node<K, V>>>
    ghost var nodes: set<Node<K, V>>  // every node the table ever took
    ghost var freed: set<Node<K, V>>  // those it gave back

    ghost predicate Valid()
      reads this, nodes
    {
      && |buckets| == |chains|
      && Kept(chains, hash, numElements, nodes, freed)
      && AllLinked(buckets, chains)
    }

    /** There are at most as many elements as buckets, as far as there are sizes to choose from. */
    predicate Roomy()
      reads this
    {
      numElements <= |buckets| || MAX_BUCKETS <= |buckets|
    }

    ghost function Order(): seq<Node<K, V>>
      reads this
    {
      Flatten(chains)
    }

    /** The nodes with key `k`, in iteration order. */
    ghost function Matches(k: K): seq<Node<K, V>>
      reads this
    {
      Only(Flatten(chains), k)
    }

    ghost function Bag(): multiset<Entry<K, V>>
      reads this
    {
      multiset(Vals(Flatten(chains)))
    }

    constructor (n: nat, hash: K -> nat)
      ensures Valid() && this.hash == hash
      ensures numElements == 0 && Order() == [] && fresh(nodes)
      ensures IsNextPrime(n, |buckets|)
    {
      var count := NextPrime(n);
      this.hash := hash;
      buckets := seq(count, _ => null);
      numElements := 0;
      chains := seq(count, _ => []);
      nodes, freed := {}, {};
      new;
      EmptyKept<K, V>(hash, count);
    }

    /** Puts the chain `c` into bucket `n`, every other bucket being as recorded. */
    method Install(n: nat, head: Node?<K, V>, count: nat, ghost c: seq<Node<K, V>>,
                   ghost gained: set<Node<K, V>>, ghost lost: set<Node<K, V>>)
      requires |buckets| == |chains| && n < |buckets|
      requires Kept(chains, hash, numElements, nodes, freed)
      requires AllLinked(buckets[n := null], chains[n := []])
      requires Linked(head, c) && GoodChain(c, n, hash, |chains|)
      requires gained !! nodes && lost <= SetOf(chains[n])
      requires SetOf(c) == SetOf(chains[n]) - lost + gained
      requires count == numElements - |chains[n]| + |c|
      modifies this`buckets, this`chains, this`nodes, this`freed, this`numElements
      ensures Valid() && nodes == old(nodes) + gained && freed == old(freed) + lost
      ensures buckets == old(buckets)[n := head] && chains == old(chains)[n := c] && numElements == count
    {
      BucketChanged(chains, hash, numElements, nodes, freed, n, c, gained, lost);
      LinkBucket(buckets[n := null], chains[n := []], n, head, c);
      assert buckets[n := null][n := head] == buckets[n := head];
      assert chains[n := []][n := c] == chains[n := c];
      chains := chains[n := c];
      buckets := buckets[n := head];
      nodes, freed := nodes + gained, freed + lost;
      numElements := count;
    }

    // ----- looking up -----

    method Find(k: K) returns (r: Node?<K, V>)
      requires Valid()
      ensures r == if Matches(k) == [] then null else Matches(k)[0]
    {
      var n := Bucket(hash, k, |buckets|);
      ghost var i;
      r, i := FindIn(buckets[n], chains[n], k);
      OnlyFlatten(chains, hash, k);
      OnlyFrom(chains[n], i, k);
    }

    method Count(k: K) returns (r: nat)
      requires Valid()
      ensures r == |Matches(k)|
    {
      var n := Bucket(hash, k, |buckets|);
      r := CountIn(buckets[n], chains[n], k);
      OnlyFlatten(chains, hash, k);
    }

    // ----- inserting -----

    /** Takes the new node `r` into its bucket, `head` now leading that bucket's chain. */
    method TakeIn(n: nat, head: Node?<K, V>, r: Node<K, V>)
      requires |buckets| == |chains| && n < |buckets|
      requires Kept(chains, hash, numElements, nodes, freed)
      requires AllLinked(buckets[n := null], chains[n := []])
      requires n == Bucket(hash, r.val.key, |chains|) && r !in nodes
      requires Linked(head, Inserted(chains[n], r))
      modifies this`buckets, this`chains, this`nodes, this`freed, this`numElements
      ensures Valid() && nodes == old(nodes) + {r} && freed == old(freed)
      ensures chains == old(chains)[n := Inserted(old(chains)[n], r)] && |buckets| == old(|buckets|)
      ensures numElements == old(numElements) + 1
      ensures Bag() == old(Bag()) + multiset{r.val}
    {
      ghost var c := Inserted(chains[n], r);
      ChainHeld(chains, n);
      InsertGood(chains, hash, n, r);
      InsertedVals(chains[n], r);
      OrderGained(chains, n, c, r.val);
      Install(n, head, numElements + 1, c, {r}, {});
    }

    method InsertUniqueNoresize(obj: Entry<K, V>) returns (r: Node<K, V>, inserted: bool)
      requires Valid()
      modifies this`buckets, this`chains, this`nodes, this`freed, this`numElements
      ensures Valid() && r.val.key == obj.key && |buckets| == old(|buckets|) && freed == old(freed)
      ensures inserted == (old(Matches(obj.key)) == [])
      ensures !inserted ==> r == old(Matches(obj.key))[0] && unchanged(this)
      ensures inserted ==> fresh(r) && r.val == obj && nodes == old(nodes) + {r}
      ensures inserted ==> Bag() == old(Bag()) + multiset{obj} && numElements == old(numElements) + 1
      ensures var n := Bucket(hash, obj.key, |chains|);
              inserted ==> chains == old(chains)[n := [r] + old(chains)[n]]
    {
      var n := Bucket(hash, obj.key, |buckets|);
      var first := buckets[n];
      var cur;
      ghost var i;
      cur, i := FindIn(first, chains[n], obj.key);
      OnlyFlatten(chains, hash, obj.key);
      OnlyFrom(chains[n], i, obj.key);
      if cur != null {
        return cur, false;
      }
      inserted := true;
      r := new Node(obj);
      r.next := first;
      LinkFront(r, chains[n]);
      LinkBucket(buckets, chains, n, null, []);
      TakeIn(n, r, r);
    }

    method InsertEqualNoresize(obj: Entry<K, V>) returns (r: Node<K, V>)
      requires Valid()
      modifies this`buckets, this`chains, this`nodes, this`freed, this`numElements, nodes
      ensures Valid() && fresh(r) && r.val == obj && |buckets| == old(|buckets|)
      ensures nodes == old(nodes) + {r} && freed == old(freed)
      ensures numElements == old(numElements) + 1 && Bag() == old(Bag()) + multiset{obj}
      ensures var n := Bucket(hash, obj.key, |chains|);
              chains == old(chains)[n := Inserted(old(chains)[n], r)]
    {
      var n := Bucket(hash, obj.key, |buckets|);
      var first := buckets[n];
      ghost var c := chains[n];
      var cur;
      ghost var i;
      cur, i := FindIn(first, c, obj.key);
      LinkBucket(buckets, chains, n, null, []);
      NodesWithout(chains, hash, n);
      ChainHeld(chains, n);
      r := new Node(obj);
      assert forall x | x in c :: x in nodes;
      assert GoodChain(c, n, hash, |chains|);
      assert i == FirstAt(c, obj.key);
      var head := LinkBehind(first, cur, r, c, i);
      TakeIn(n, head, r);
    }

    /** Links the new node behind `cur`, or in front of the chain. */
    method LinkBehind(first: Node?<K, V>, cur: Node?<K, V>, r: Node<K, V>, ghost c: seq<Node<K, V>>, ghost i: nat)
      returns (head: Node?<K, V>)
      requires Linked(first, c) && Distinct(c) && AtNode(c, i, cur) && i == FirstAt(c, r.val.key) && r !in c
      modifies cur, r
      ensures Linked(head, Inserted(c, r))
    {
      if cur != null {
        SpliceAfter(first, cur, r, c, i);
        head := first;
      } else {
        r.next := first;
        LinkFront(r, c);
        head := r;
      }
    }

    // ----- erasing -----

    /** Erases every entry with key `k`. When the caller's key lives inside the node `alias`, the
        storage is given back only after the last comparison with it. */
    method EraseKey(k: K, alias: Node?<K, V>) returns (erased: nat)
      requires Valid()
      requires alias != null ==> alias.val.key == k
      modifies this`buckets, this`chains, this`nodes, this`freed, this`numElements, nodes
      ensures Valid() && |buckets| == old(|buckets|) && nodes == old(nodes)
      ensures erased == |old(Matches(k))|
      ensures Order() == Without(old(Order()), k) && numElements == old(numElements) - erased
    {
      var n := Bucket(hash, k, |buckets|);
      ghost var c := chains[n];
      LinkBucket(buckets, chains, n, null, []);
      NodesWithout(chains, hash, n);
      ChainHeld(chains, n);
      OrderWithout(chains, hash, k);
      assert GoodChain(c, n, hash, |chains|);
      WithoutGood(c, k, n, hash, |chains|);
      var head;
      ghost var dead;
      head, erased, dead := EraseKeyIn(buckets[n], k, alias, c);
      Install(n, head, numElements - erased, Without(c, k), {}, dead);
    }

    /** Erases positions `i` up to `j` of bucket `n`, given the nodes standing there. */
    method EraseBucket(n: nat, first: Node<K, V>, last: Node?<K, V>, ghost i: nat, ghost j: nat)
      requires Valid() && n < |buckets|
      requires i < j && AtNode(chains[n], i, first) && AtNode(chains[n], j, last)
      modifies this`buckets, this`chains, this`nodes, this`freed, this`numElements, nodes
      ensures Valid() && nodes == old(nodes) && freed == old(freed) + SetOf(old(chains)[n][i..j])
      ensures chains == old(chains)[n := old(chains)[n][..i] + old(chains)[n][j..]]
      ensures |buckets| == old(|buckets|) && numElements == old(numElements) - (j - i)
    {
      ghost var c := chains[n];
      LinkBucket(buckets, chains, n, null, []);
      NodesWithout(chains, hash, n);
      ChainHeld(chains, n);
      assert GoodChain(c, n, hash, |chains|);
      CutGood(c, i, j, n, hash, |chains|);
      assert SetOf(c[i..j]) <= SetOf(c);
      var head, erased;
      ghost var dead;
      head, erased, dead := EraseStretch(buckets[n], first, last, c, i, j);
      Install(n, head, numElements - erased, c[..i] + c[j..], {}, dead);
    }

    /** Erases the first `j` nodes of bucket `n`, up to `last`. */
    method EraseBucketFront(n: nat, last: Node?<K, V>, ghost j: nat)
      requires Valid() && n < |buckets| && AtNode(chains[n], j, last)
      modifies this`buckets, this`chains, this`nodes, this`freed, this`numElements
      ensures Valid() && nodes == old(nodes) && freed == old(freed) + SetOf(old(chains)[n][..j])
      ensures chains == old(chains)[n := old(chains)[n][j..]]
      ensures |buckets| == old(|buckets|) && numElements == old(numElements) - j
    {
      ghost var c := chains[n];
      LinkBucket(buckets, chains, n, null, []);
      ChainHeld(chains, n);
      assert GoodChain(c, n, hash, |chains|);
      TailGood(c, j, n, hash, |chains|);
      var head, erased;
      ghost var dead;
      head, erased, dead := EraseFront(buckets[n], last, c, j);
      Install(n, head, numElements - erased, c[j..], {}, dead);
    }

    /** Erases the one node an iterator stands on, found at position `p`; the end iterator is ignored. */
    method EraseAt(x: Node?<K, V>, ghost p: nat)
      requires Valid() && AtNode(Order(), p, x)
      modifies this`buckets, this`chains, this`nodes, this`freed, this`numElements, nodes
      ensures Valid() && nodes == old(nodes) && |buckets| == old(|buckets|)
      ensures Order() == if x == null then old(Order()) else old(Order())[..p] + old(Order())[p + 1..]
      ensures freed == old(freed) + (if x == null then {} else {x})
    {
      if x != null {
        ghost var i := Locate(chains, hash, p);
        var n := Bucket(hash, x.val.key, |buckets|);
        OrderCut(chains, n, i, i + 1);
        EraseNode(n, x, i);
      }
    }

    /** Erases the node at position `i` of bucket `n`. */
    method EraseNode(n: nat, x: Node<K, V>, ghost i: nat)
      requires Valid() && n < |buckets| && i < |chains[n]| && chains[n][i] == x
      modifies this`buckets, this`chains, this`nodes, this`freed, this`numElements, nodes
      ensures Valid() && nodes == old(nodes) && freed == old(freed) + {x} && |buckets| == old(|buckets|)
      ensures chains == old(chains)[n := old(chains)[n][..i] + old(chains)[n][i + 1..]]
    {
      ghost var c := chains[n];
      LinkBucket(buckets, chains, n, null, []);
      NodesWithout(chains, hash, n);
      ChainHeld(chains, n);
      assert GoodChain(c, n, hash, |chains|);
      CutGood(c, i, i + 1, n, hash, |chains|);
      assert c[i..i + 1] == [x] && SetOf([x]) == {x};
      var head;
      ghost var dead;
      head, dead := EraseNodeIn(buckets[n], x, c, i);
      Install(n, head, numElements - 1, c[..i] + c[i + 1..], {}, dead);
    }

    /** Erases what iteration visits from `first`, at position `p`, until `last`, at position `q`. */
    method EraseRange(first: Node?<K, V>, last: Node?<K, V>, ghost p: nat, ghost q: nat)
      requires Valid() && AtNode(Order(), p, first) && AtNode(Order(), q, last) && p <= q
      modifies this`buckets, this`chains, this`nodes, this`freed, this`numElements, nodes
      ensures Valid() && nodes == old(nodes) && |buckets| == old(|buckets|)
      ensures Order() == old(Order())[..p] + old(Order())[q..]
    {
      if first == last {
        SamePlace(chains, hash, p, q, first);
        return;
      }
      if last == null {
        ghost var i := Locate(chains, hash, p);
        var f := Bucket(hash, first.val.key, |buckets|);
        EraseToEnd(f, first, i);
      } else {
        EraseBetween(first, last, p, q);
      }
    }

    /** The range erase up to a node. */
    method EraseBetween(first: Node<K, V>, last: Node<K, V>, ghost p: nat, ghost q: nat)
      requires Valid() && AtNode(Order(), p, first) && AtNode(Order(), q, last) && p < q
      modifies this`buckets, this`chains, this`nodes, this`freed, this`numElements, nodes
      ensures Valid() && nodes == old(nodes) && |buckets| == old(|buckets|)
      ensures Order() == old(Order())[..p] + old(Order())[q..]
    {
      ghost var i, j;
      i := Locate(chains, hash, p);
      j := Locate(chains, hash, q);
      var f := Bucket(hash, first.val.key, |buckets|);
      var l := Bucket(hash, last.val.key, |buckets|);
      InOrder(chains, f, i, l, j);
      EraseSpan(f, l, first, last, i, j);
    }

    /** The range erase between two nodes. */
    method EraseSpan(f: nat, l: nat, first: Node<K, V>, last: Node<K, V>, ghost i: nat, ghost j: nat)
      requires Valid() && f <= l < |buckets| && (f == l ==> i < j)
      requires i < |chains[f]| && chains[f][i] == first && j < |chains[l]| && chains[l][j] == last
      modifies this`buckets, this`chains, this`nodes, this`freed, this`numElements, nodes
      ensures Valid() && nodes == old(nodes) && |buckets| == old(|buckets|)
      ensures var p, q := |Flatten(old(chains)[..f])| + i, |Flatten(old(chains)[..l])| + j;
              p <= |old(Order())| && q <= |old(Order())| && Order() == old(Order())[..p] + old(Order())[q..]
    {
      if f == l {
        EraseWithin(f, first, last, i, j);
      } else {
        EraseAcross(f, l, first, last, i, j);
      }
    }

    /** The range erase inside one bucket. */
    method EraseWithin(n: nat, first: Node<K, V>, last: Node<K, V>, ghost i: nat, ghost j: nat)
      requires Valid() && n < |buckets| && i < j < |chains[n]| && chains[n][i] == first && chains[n][j] == last
      modifies this`buckets, this`chains, this`nodes, this`freed, this`numElements, nodes
      ensures Valid() && nodes == old(nodes) && |buckets| == old(|buckets|)
      ensures var p, q := |Flatten(old(chains)[..n])| + i, |Flatten(old(chains)[..n])| + j;
              p <= |old(Order())| && q <= |old(Order())| && Order() == old(Order())[..p] + old(Order())[q..]
    {
      OrderCut(chains, n, i, j);
      EraseBucket(n, first, last, i, j);
    }

    /** The range erase up to the end of the table. */
    method EraseToEnd(f: nat, first: Node<K, V>, ghost i: nat)
      requires Valid() && f < |buckets| && i < |chains[f]| && chains[f][i] == first
      modifies this`buckets, this`chains, this`nodes, this`freed, this`numElements, nodes
      ensures Valid() && nodes == old(nodes) && |buckets| == old(|buckets|)
      ensures var p, q := |Flatten(old(chains)[..f])| + i, |old(Order())|;
              p <= q && Order() == old(Order())[..p] + old(Order())[q..]
    {
      OrderAtEnd(chains, f, i);
      EraseFrom(f, first, |buckets|, i);
    }

    /** The range erase over several buckets. */
    method EraseAcross(f: nat, l: nat, first: Node<K, V>, last: Node<K, V>, ghost i: nat, ghost j: nat)
      requires Valid() && f < l < |buckets| && i < |chains[f]| && chains[f][i] == first
      requires j < |chains[l]| && chains[l][j] == last
      modifies this`buckets, this`chains, this`nodes, this`freed, this`numElements, nodes
      ensures Valid() && nodes == old(nodes) && |buckets| == old(|buckets|)
      ensures var p, q := |Flatten(old(chains)[..f])| + i, |Flatten(old(chains)[..l])| + j;
              p <= |old(Order())| && q <= |old(Order())| && Order() == old(Order())[..p] + old(Order())[q..]
    {
      ghost var was := chains;
      EraseFrom(f, first, l, i);
      OrderRangeDone(chains, was, f, i, l, j);
      EraseBucketFront(l, last, j);
    }

    /** Erases the rest of bucket `f` from first on, and every bucket between `f` and `l`. */
    method EraseFrom(f: nat, first: Node<K, V>, l: nat, ghost i: nat)
      requires Valid() && f < l <= |buckets| && i < |chains[f]| && chains[f][i] == first
      modifies this`buckets, this`chains, this`nodes, this`freed, this`numElements, nodes
      ensures Valid() && nodes == old(nodes) && |buckets| == old(|buckets|)
      ensures RangeCut(chains, old(chains), f, i, l)
      ensures l == |chains| ==> Order() == Flatten(old(chains)[..f]) + old(chains)[f][..i]
    {
      ghost var was := chains;
      EraseBucket(f, first, null, i, |chains[f]|);
      assert was[f][..i] + was[f][|was[f]|..] == was[f][..i];
      for n := f + 1 to l
        invariant Valid() && nodes == old(nodes) && |buckets| == old(|buckets|)
        invariant RangeCut(chains, was, f, i, n)
      {
        assert chains[n..][0] == was[n..][0];
        EraseBucketFront(n, null, |chains[n]|);
        RangeCutStep(chains, was, f, i, n);
      }
      if l == |chains| {
        RangeCutToEnd(chains, was, f, i);
      }
    }

    /** Gives every node back. */
    method Clear()
      requires Valid()
      modifies this`buckets, this`chains, this`freed, this`numElements
      ensures Valid() && Order() == [] && numElements == 0
      ensures freed == nodes && |buckets| == old(|buckets|)
    {
      if numElements == 0 {
        EmptyNodes(chains);
        assert forall x | x in nodes :: x in freed || x in nodes - freed;
        return;
      }
      assert forall b | 0 <= b < |chains| :: GoodChain(chains[b], b, hash, |chains|);
      ghost var dead := EraseAll(buckets, chains);
      EmptyRecord<K, V>(hash, |chains|, nodes);
      buckets := seq(|buckets|, _ => null);
      chains := seq(|chains|, _ => []);
      freed := nodes;
      numElements := 0;
    }

    // ----- growing -----

    /** Takes over a relinked array. */
    method SwapIn(tmp: seq<Node?<K, V>>, ghost grown: seq<seq<Node<K, V>>>)
      requires |tmp| == |grown| && Kept(grown, hash, numElements, nodes, freed) && AllLinked(tmp, grown)
      modifies this`buckets, this`chains
      ensures Valid() && buckets == tmp && chains == grown
    {
      chains := grown;
      buckets := tmp;
    }

    method Grow(n: nat)
      requires Valid() && n > 0
      modifies this`buckets, this`chains, nodes
      ensures Valid() && |buckets| == n && chains == Rehashed(old(Order()), hash, n)
      ensures multiset(Order()) == multiset(old(Order())) && Bag() == old(Bag())
      ensures forall b | 0 <= b < n :: chains[b] == Reverse(InBucket(old(Order()), b, hash, n))
    {
      ghost var was := Flatten(chains);
      ghost var grown := Rehashed(was, hash, n);
      FlattenGood(chains, hash, |chains|);
      ResizedKept(chains, hash, numElements, nodes, freed, n);
      var tmp := RelinkAll(buckets, hash, n, chains);
      SwapIn(tmp, grown);
      RehashedBuckets(was, hash, n);
    }

    /** Makes room for `hint` elements by relinking every node into a larger array. */
    method Resize(hint: nat)
      requires Valid()
      modifies this`buckets, this`chains, nodes
      ensures Valid() && multiset(Order()) == multiset(old(Order())) && Bag() == old(Bag())
      ensures |buckets| == old(|buckets|) ==> chains == old(chains) && buckets == old(buckets)
      ensures |buckets| != old(|buckets|) ==> hint > old(|buckets|) && IsNextPrime(hint, |buckets|)
      ensures |buckets| >= old(|buckets|) && (hint <= |buckets| || MAX_BUCKETS <= |buckets|)
      ensures |buckets| != old(|buckets|) ==> chains == Rehashed(old(Order()), hash, |chains|)
      ensures |buckets| != old(|buckets|) ==>
                forall b | 0 <= b < |chains| :: chains[b] == Reverse(InBucket(old(Order()), b, hash, |chains|))
    {
      var oldN := |buckets|;
      if hint > oldN {
        var n := NextPrime(hint);
        if n > oldN {
          Grow(n);
        }
      }
    }

    // ----- the entry points that grow the table first -----

    method InsertUnique(obj: Entry<K, V>) returns (r: Node<K, V>, inserted: bool)
      requires Valid()
      modifies this`buckets, this`chains, this`nodes, this`freed, this`numElements, nodes
      ensures Valid() && r.val.key == obj.key
      ensures inserted == (old(Matches(obj.key)) == [])
      ensures !inserted ==> r in old(Matches(obj.key)) && Bag() == old(Bag())
      ensures inserted ==> fresh(r) && r.val == obj && Bag() == old(Bag()) + multiset{obj}
      ensures numElements == old(numElements) + if inserted then 1 else 0
      ensures fresh(nodes - old(nodes)) && numElements <= old(numElements) + 1 && |buckets| >= old(|buckets|)
      ensures Roomy()
    {
      ghost var was := Order();
      Resize(numElements + 1);
      SameMatches(was, Order(), obj.key);
      r, inserted := InsertUniqueNoresize(obj);
    }

    method InsertEqual(obj: Entry<K, V>) returns (r: Node<K, V>)
      requires Valid()
      modifies this`buckets, this`chains, this`nodes, this`freed, this`numElements, nodes
      ensures Valid() && fresh(r) && r.val == obj
      ensures numElements == old(numElements) + 1 && Bag() == old(Bag()) + multiset{obj}
      ensures fresh(nodes - old(nodes)) && numElements <= old(numElements) + 1 && |buckets| >= old(|buckets|)
      ensures Roomy()
    {
      Resize(numElements + 1);
      r := InsertEqualNoresize(obj);
    }

    /** The entry found under the key of `obj`, which is inserted if there is none. */
    method FindOrInsert(obj: Entry<K, V>) returns (r: Node<K, V>)
      requires Valid()
      modifies this`buckets, this`chains, this`nodes, this`freed, this`numElements, nodes
      ensures Valid() && r.val.key == obj.key
      ensures old(Matches(obj.key)) != [] ==> r in old(Matches(obj.key)) && Bag() == old(Bag())
      ensures old(Matches(obj.key)) == [] ==> fresh(r) && r.val == obj && Bag() == old(Bag()) + multiset{obj}
      ensures fresh(nodes - old(nodes)) && numElements <= old(numElements) + 1 && |buckets| >= old(|buckets|)
      ensures Roomy()
    {
      ghost var was := Order();
      Resize(numElements + 1);
      SameMatches(was, Order(), obj.key);
      var inserted;
      r, inserted := InsertUniqueNoresize(obj);
    }

    // ----- iterating -----

    /** The first node in bucket `b` or a later one. */
    method FirstFrom(b: nat) returns (r: Node?<K, V>)
      requires Valid() && b <= |buckets|
      ensures AtNode(Order(), |Flatten(chains[..b])|, r)
    {
      var n := b;
      while n < |buckets| && buckets[n] == null
        invariant b <= n <= |buckets|
        invariant Flatten(chains[..n]) == Flatten(chains[..b])
      {
        FlattenSplit(chains, n);
        n := n + 1;
      }
      if n < |buckets| {
        FlattenAt(chains, n, 0);
        r := buckets[n];
      } else {
        assert chains[..n] == chains;
        r := null;
      }
    }

    method Begin() returns (r: Node?<K, V>)
      requires Valid()
      ensures AtNode(Order(), 0, r)
    {
      r := FirstFrom(0);
    }

    /** Steps an iterator standing at position `p` to position `p + 1`. */
    method Increment(x: Node<K, V>, ghost p: nat) returns (r: Node?<K, V>)
      requires Valid() && p < |Order()| && Order()[p] == x
      ensures AtNode(Order(), p + 1, r)
    {
      ghost var i := Locate(chains, hash, p);
      ghost var b := Bucket(hash, x.val.key, |chains|);
      FlattenSplit(chains, b);
      assert x == chains[b][i];
      r := x.next;
      if r != null {
        FlattenAt(chains, b, i + 1);
      } else {
        var bucket := Bucket(hash, x.val.key, |buckets|);
        r := FirstFrom(bucket + 1);
      }
    }

    /** The positions of the nodes with key `k`: from `first` until `last`. */
    method EqualRange(k: K) returns (first: Node?<K, V>, last: Node?<K, V>, ghost p: nat, ghost q: nat)
      requires Valid()
      ensures AtNode(Order(), p, first) && AtNode(Order(), q, last) && p <= q
      ensures Order()[p..q] == Matches(k)
      ensures Matches(k) == [] ==> first == null && last == null
    {
      var n := Bucket(hash, k, |buckets|);
      ghost var i;
      first, i := FindIn(buckets[n], chains[n], k);
      if first == null {
        OnlyFlatten(chains, hash, k);
        OnlyFrom(chains[n], i, k);
        return null, null, |Order()|, |Order()|;
      }
      last, p, q := RangeFrom(k, n, first, i);
    }

    /** The range that starts at the first node with the key. */
    method RangeFrom(k: K, n: nat, first: Node<K, V>, ghost i: nat) returns (last: Node?<K, V>, ghost p: nat, ghost q: nat)
      requires Valid() && n == Bucket(hash, k, |chains|) && i < |chains[n]| && chains[n][i] == first && first.val.key == k
      requires forall x | 0 <= x < i :: chains[n][x].val.key != k
      ensures AtNode(Order(), p, first) && AtNode(Order(), q, last) && p < q
      ensures Order()[p..q] == Matches(k)
    {
      ghost var j;
      last, j := EndOfRun(first, k, chains[n], i);
      p, q := |Flatten(chains[..n])| + i, |Flatten(chains[..n])| + j;
      RunPlaced(chains, hash, k, first, last, i, j);
      if last == null {
        last := FirstFrom(n + 1);
      }
    }

    /** The iteration idiom: from the beginning, step until the end. */
    method Traverse() returns (visited: seq<Node<K, V>>)
      requires Valid()
      ensures visited == Order() && Distinct(visited)
    {
      visited := [];
      FlattenGood(chains, hash, |chains|);
      var it := Begin();
      while it != null
        invariant AtNode(Order(), |visited|, it) && visited == Order()[..|visited|]
        decreases |Order()| - |visited|
      {
        ghost var p := |visited|;
        visited := visited + [it];
        it := Increment(it, p);
      }
    }

    // ----- copying and comparing -----

    constructor Copy(other: HashTable<K, V>)
      requires other.Valid()
      ensures Valid() && fresh(nodes) && freed == {} && hash == other.hash
      ensures |buckets| == |other.buckets| && numElements == other.numElements
      ensures Vals(Order()) == Vals(other.Order())
    {
      hash := other.hash;
      var copies;
      ghost var cs;
      copies, cs := CopyAll(other.buckets, other.chains);
      buckets, chains := copies, cs;
      nodes, freed := NodesOf(cs), {};
      numElements := other.numElements;
      new;
      CopiedGood(other.chains, cs, hash);
      CopiedOrder(other.chains, cs);
    }

    /** Copy assignment: everything held is given back, then the other table is copied. */
    method Assign(other: HashTable<K, V>)
      requires Valid() && other.Valid()
      modifies this
      ensures Valid() && fresh(nodes - old(nodes)) && Vals(Order()) == old(Vals(other.Order()))
      ensures this != other ==> hash == other.hash && |buckets| == |other.buckets| && freed == old(nodes)
      ensures this == other ==> unchanged(this)
    {
      if other != this {
        Clear();
        var copies;
        ghost var cs;
        copies, cs := CopyAll(other.buckets, other.chains);
        CopiedGood(other.chains, cs, other.hash);
        CopiedOrder(other.chains, cs);
        TakeCopy(other.hash, copies, other.numElements, cs);
      }
    }

    method TakeCopy(hash': K -> nat, copies: seq<Node?<K, V>>, count: nat, ghost cs: seq<seq<Node<K, V>>>)
      requires |copies| == |cs| > 0 && AllLinked(copies, cs) && GoodChains(cs, hash', |cs|)
      requires count == |Flatten(cs)| && freed == nodes && NodesOf(cs) !! nodes
      modifies this
      ensures Valid() && hash == hash' && buckets == copies && chains == cs
      ensures nodes == old(nodes) + NodesOf(cs) && freed == old(freed)
    {
      hash := hash';
      buckets, chains := copies, cs;
      nodes := nodes + NodesOf(cs);
      numElements := count;
    }

    /** Bucket by bucket: equally long, and the values of this table found in the other. */
    method Equals(other: HashTable<K, V>) returns (b: bool)
      requires Valid() && other.Valid()
      ensures b == (|chains| == |other.chains| &&
                    forall n | 0 <= n < |chains| :: Covers(Vals(chains[n]), Vals(other.chains[n])))
    {
      if |buckets| != |other.buckets| {
        return false;
      }
      for n := 0 to |buckets|
        invariant forall m | 0 <= m < n :: Covers(Vals(chains[m]), Vals(other.chains[m]))
      {
        var same := CoveredBy(buckets[n], other.buckets[n], chains[n], other.chains[n]);
        if !same {
          return false;
        }
      }
      b := true;
    }
  }
}
