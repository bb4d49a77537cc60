/** The ghost record a table keeps of its nodes: which are linked, which were given back, and
    how the record changes when one bucket's chain does. */
module TableRecord {
  import opened Chains
  import opened Buckets
  import opened Reversal
  import opened ChainOps

  /** The nodes standing in some chain. */
  ghost function NodesOf<K, V>(chains: seq<seq<Node<K, V>>>): set<Node<K, V>> {
    set b, i | 0 <= b < |chains| && 0 <= i < |chains[b]| :: chains[b][i]
  }

  ghost predicate AllLinked<K, V>(buckets: seq<Node?<K, V>>, chains: seq<seq<Node<K, V>>>)
    requires |buckets| == |chains|
    reads NodesOf(chains)
  {
    forall b | 0 <= b < |chains| :: Linked(buckets[b], chains[b])
  }

  lemma LinkBucket<K, V>(buckets: seq<Node?<K, V>>, chains: seq<seq<Node<K, V>>>,
                         b: nat, head: Node?<K, V>, c: seq<Node<K, V>>)
    requires |buckets| == |chains| && b < |chains|
    requires AllLinked(buckets, chains) && Linked(head, c)
    ensures AllLinked(buckets[b := head], chains[b := c])
  {
  }

  /** What the ghost record of a table must say, apart from the links in memory. */
  ghost predicate Kept<K, V>(chains: seq<seq<Node<K, V>>>, hash: K -> nat, count: nat,
                             nodes: set<Node<K, V>>, freed: set<Node<K, V>>)
  {
    && |chains| > 0
    && GoodChains(chains, hash, |chains|)
    && count == |Flatten(chains)|
    && freed <= nodes
    && NodesOf(chains) == nodes - freed
  }

  /** Emptying a bucket leaves the nodes of the others. */
  lemma {:induction false} NodesWithout<K, V>(chains: seq<seq<Node<K, V>>>, hash: K -> nat, b: nat)
    requires b < |chains| && GoodChains(chains, hash, |chains|)
    ensures NodesOf(chains[b := []]) == NodesOf(chains) - SetOf(chains[b])
  {
    var chains' := chains[b := []];
    forall b', i | 0 <= b' < |chains| && b' != b && 0 <= i < |chains[b']|
      ensures chains[b'][i] in NodesOf(chains) && chains[b'][i] !in SetOf(chains[b])
    {
      assert GoodChain(chains[b], b, hash, |chains|) && GoodChain(chains[b'], b', hash, |chains|);
    }
    forall b', i | 0 <= b' < |chains| && b' != b && 0 <= i < |chains[b']|
      ensures chains[b'][i] in NodesOf(chains')
    {
      assert chains'[b'][i] == chains[b'][i];
    }
    assert forall i | 0 <= i < |chains[b]| :: chains[b][i] in SetOf(chains[b]);
  }

  lemma {:induction false} NodesWith<K, V>(chains: seq<seq<Node<K, V>>>, b: nat, c: seq<Node<K, V>>)
    requires b < |chains|
    ensures NodesOf(chains[b := c]) == NodesOf(chains[b := []]) + SetOf(c)
  {
    var with, without := chains[b := c], chains[b := []];
    forall b', i | 0 <= b' < |with| && 0 <= i < |with[b']|
      ensures with[b'][i] in NodesOf(without) + SetOf(c)
    {
      assert b' != b ==> with[b'][i] == without[b'][i];
    }
    forall b', i | 0 <= b' < |without| && 0 <= i < |without[b']|
      ensures without[b'][i] in NodesOf(with)
    {
      assert with[b'][i] == without[b'][i];
    }
    forall i | 0 <= i < |c|
      ensures c[i] in NodesOf(with)
    {
      assert with[b][i] == c[i];
    }
  }

  lemma SetOfConcat<T>(a: seq<T>, b: seq<T>)
    ensures SetOf(a + b) == SetOf(a) + SetOf(b)
  {
  }

  lemma {:induction false} ChainHeld<K, V>(chains: seq<seq<Node<K, V>>>, b: nat)
    requires b < |chains|
    ensures SetOf(chains[b]) <= NodesOf(chains)
    ensures forall x | x in chains[b] :: x in NodesOf(chains)
    ensures |chains[b]| <= |Flatten(chains)|
  {
    FlattenSplit(chains, b);
  }

  /** Changing one bucket keeps the record, when it says which nodes came and which went. */
  lemma {:induction false} BucketChanged<K, V>(
      chains: seq<seq<Node<K, V>>>, hash: K -> nat, count: nat, nodes: set<Node<K, V>>, freed: set<Node<K, V>>,
      b: nat, c: seq<Node<K, V>>, gained: set<Node<K, V>>, lost: set<Node<K, V>>)
    requires Kept(chains, hash, count, nodes, freed)
    requires b < |chains| && GoodChain(c, b, hash, |chains|)
    requires gained !! nodes && lost <= SetOf(chains[b])
    requires SetOf(c) == SetOf(chains[b]) - lost + gained
    ensures |chains[b]| <= count
    ensures Kept(chains[b := c], hash, count - |chains[b]| + |c|, nodes + gained, freed + lost)
  {
    FlattenSplit(chains, b);
    FlattenUpdate(chains, b, c);
    NodesWithout(chains, hash, b);
    NodesWith(chains, b, c);
    ChainHeld(chains, b);
  }

  lemma {:induction false} InsertGood<K, V>(chains: seq<seq<Node<K, V>>>, hash: K -> nat, b: nat, r: Node<K, V>)
    requires |chains| > 0 && GoodChains(chains, hash, |chains|)
    requires b == Bucket(hash, r.val.key, |chains|) && r !in chains[b]
    ensures GoodChain(Inserted(chains[b], r), b, hash, |chains|)
    ensures SetOf(Inserted(chains[b], r)) == SetOf(chains[b]) + {r}
    ensures |Inserted(chains[b], r)| == |chains[b]| + 1
  {
    var c := chains[b];
    var i := FirstAt(c, r.val.key);
    assert GoodChain(c, b, hash, |chains|);
    if i == |c| {
      PushGrouped(r, c);
      SetOfConcat([r], c);
    } else {
      InsertedBehind(c, i, r, b, hash, |chains|);
    }
  }

  lemma {:induction false} InsertedBehind<K, V>(c: seq<Node<K, V>>, i: nat, r: Node<K, V>, b: nat, hash: K -> nat, n: nat)
    requires n > 0 && GoodChain(c, b, hash, n) && i < |c| && c[i].val.key == r.val.key
    requires b == Bucket(hash, r.val.key, n) && r !in c
    ensures var d := c[..i + 1] + [r] + c[i + 1..]; GoodChain(d, b, hash, n) && SetOf(d) == SetOf(c) + {r} && |d| == |c| + 1
  {
    InsertAfterGrouped(c, i, r);
    InsertSet(c[..i + 1], r, c[i + 1..]);
    assert c == c[..i + 1] + c[i + 1..];
    var d := c[..i + 1] + [r] + c[i + 1..];
    assert forall x | 0 <= x < |d| :: d[x] == if x <= i then c[x] else if x == i + 1 then r else c[x - 1];
  }

  lemma InsertSet<T>(a: seq<T>, r: T, b: seq<T>)
    requires Distinct(a + b) && r !in a + b
    ensures SetOf(a + [r] + b) == SetOf(a + b) + {r} && Distinct(a + [r] + b)
  {
    var d := a + [r] + b;
    assert forall i | 0 <= i < |a| :: d[i] == (a + b)[i];
    assert forall i | |a| < i < |d| :: d[i] == (a + b)[i - 1];
    assert forall i | 0 <= i < |a + b| :: (a + b)[i] == d[if i < |a| then i else i + 1];
    assert d[|a|] == r;
  }

  /** Cutting positions `i` up to `j` out of a good chain. */
  lemma {:induction false} CutGood<K, V>(c: seq<Node<K, V>>, i: nat, j: nat, b: nat, hash: K -> nat, n: nat)
    requires n > 0 && GoodChain(c, b, hash, n) && i <= j <= |c|
    ensures GoodChain(c[..i] + c[j..], b, hash, n)
    ensures SetOf(c[..i] + c[j..]) == SetOf(c) - SetOf(c[i..j])
  {
    CutGrouped(c, i, j);
    var d := c[..i] + c[j..];
    assert forall x | 0 <= x < |d| :: d[x] == c[if x < i then x else x - i + j];
    forall x | 0 <= x < |c|
      ensures c[x] in d <==> c[x] !in c[i..j]
    {
      if x < i {
        assert d[x] == c[x];
      } else if j <= x {
        assert d[x - j + i] == c[x];
      } else {
        assert c[i..j][x - i] == c[x];
      }
    }
  }

  lemma {:induction false} TailGood<K, V>(c: seq<Node<K, V>>, j: nat, b: nat, hash: K -> nat, n: nat)
    requires n > 0 && GoodChain(c, b, hash, n) && j <= |c|
    ensures GoodChain(c[j..], b, hash, n) && |c[j..]| == |c| - j
    ensures SetOf(c[..j]) <= SetOf(c) && SetOf(c[j..]) == SetOf(c) - SetOf(c[..j])
  {
    CutGood(c, 0, j, b, hash, n);
    assert c[..0] + c[j..] == c[j..] && c[0..j] == c[..j];
  }

  lemma {:induction false} WithoutGood<K, V>(c: seq<Node<K, V>>, k: K, b: nat, hash: K -> nat, n: nat)
    requires n > 0 && GoodChain(c, b, hash, n)
    ensures GoodChain(Without(c, k), b, hash, n)
    ensures SetOf(Without(c, k)) == SetOf(c) - Holding(c, k)
    ensures |Without(c, k)| + |Only(c, k)| == |c|
  {
    var i := FirstAt(c, k);
    if i == |c| {
      OnlyAbsent(c, k);
    } else {
      var j := i;
      while j < |c| && c[j].val.key == k
        invariant i <= j <= |c| && forall m | i <= m < j :: c[m].val.key == k
      {
        j := j + 1;
      }
      RunIsAll(c, i, j, k);
      CutGood(c, i, j, b, hash, n);
      OnlyHolds(c, k, i, j);
    }
  }

  lemma {:induction false} OnlyHolds<K, V>(c: seq<Node<K, V>>, k: K, i: nat, j: nat)
    requires Grouped(c) && i < j <= |c|
    requires forall m | 0 <= m < i :: c[m].val.key != k
    requires forall m | i <= m < j :: c[m].val.key == k
    requires j < |c| ==> c[j].val.key != k
    ensures SetOf(c[i..j]) == Holding(c, k)
  {
    AbsentPastRun(c, i, j, k);
    assert forall y | j <= y < |c| :: c[y] == c[j..][y - j];
    forall x | 0 <= x < |c| && c[x].val.key == k
      ensures c[x] in c[i..j]
    {
      assert i <= x < j;
      assert c[i..j][x - i] == c[x];
    }
  }

  lemma {:induction false} EmptyKept<K, V>(hash: K -> nat, n: nat)
    requires n > 0
    ensures Kept<K, V>(seq(n, _ => []), hash, 0, {}, {})
    ensures Flatten<Node<K, V>>(seq(n, _ => [])) == []
    ensures AllLinked<K, V>(seq(n, _ => null), seq(n, _ => []))
  {
    FlattenEmpty<Node<K, V>>(seq(n, _ => []));
    assert NodesOf<K, V>(seq(n, _ => [])) == {};
  }

  /** Iteration order after one bucket changes, and the values it then shows. */
  lemma {:induction false} OrderChanged<K, V>(chains: seq<seq<Node<K, V>>>, b: nat, c: seq<Node<K, V>>)
    requires b < |chains|
    ensures multiset(Vals(Flatten(chains[b := c]))) + multiset(Vals(chains[b]))
         == multiset(Vals(Flatten(chains))) + multiset(Vals(c))
  {
    FlattenSplit(chains, b);
    FlattenUpdate(chains, b, c);
    var before, after := Flatten(chains[..b]), Flatten(chains[b + 1..]);
    assert Vals(before + chains[b] + after) == Vals(before) + Vals(chains[b]) + Vals(after);
    assert Vals(before + c + after) == Vals(before) + Vals(c) + Vals(after);
  }

  lemma {:induction false} OrderGained<K, V>(chains: seq<seq<Node<K, V>>>, b: nat, c: seq<Node<K, V>>, v: Entry<K, V>)
    requires b < |chains| && multiset(Vals(c)) == multiset(Vals(chains[b])) + multiset{v}
    ensures multiset(Vals(Flatten(chains[b := c]))) == multiset(Vals(Flatten(chains))) + multiset{v}
  {
    OrderChanged(chains, b, c);
    var after, before, x := multiset(Vals(Flatten(chains[b := c]))), multiset(Vals(Flatten(chains))), multiset(Vals(chains[b]));
    assert after + x == before + (x + multiset{v});
    assert after + x - x == after && before + (x + multiset{v}) - x == before + multiset{v};
  }

  lemma {:induction false} InsertedVals<K, V>(c: seq<Node<K, V>>, r: Node<K, V>)
    ensures multiset(Vals(Inserted(c, r))) == multiset(Vals(c)) + multiset{r.val}
  {
    var i := FirstAt(c, r.val.key);
    if i == |c| {
      assert Vals([r] + c) == [r.val] + Vals(c);
    } else {
      assert Vals(c[..i + 1] + [r] + c[i + 1..]) == Vals(c[..i + 1]) + [r.val] + Vals(c[i + 1..]);
      assert c == c[..i + 1] + c[i + 1..];
      assert Vals(c) == Vals(c[..i + 1]) + Vals(c[i + 1..]);
    }
  }

  /** Erasing a key from its bucket erases it from the whole iteration order. */
  lemma {:induction false} OrderWithout<K, V>(chains: seq<seq<Node<K, V>>>, hash: K -> nat, k: K)
    requires |chains| > 0 && GoodChains(chains, hash, |chains|)
    ensures var b := Bucket(hash, k, |chains|);
            Flatten(chains[b := Without(chains[b], k)]) == Without(Flatten(chains), k)
    ensures Only(Flatten(chains), k) == Only(chains[Bucket(hash, k, |chains|)], k)
  {
    var b := Bucket(hash, k, |chains|);
    OnlyFlatten(chains, hash, k);
    forall b' | 0 <= b' < |chains| && b' != b
      ensures !HasKey(chains[b'], k)
    {
      assert GoodChain(chains[b'], b', hash, |chains|);
    }
    var before, after := chains[..b], chains[b + 1..];
    FlattenSplit(chains, b);
    FlattenUpdate(chains, b, Without(chains[b], k));
    OnlyConcat(Flatten(before) + chains[b], Flatten(after), k);
    OnlyConcat(Flatten(before), chains[b], k);
    FlattenKeepsAll(before, k);
    FlattenKeepsAll(after, k);
  }

  lemma {:induction false} FlattenKeepsAll<K, V>(chains: seq<seq<Node<K, V>>>, k: K)
    requires forall b | 0 <= b < |chains| :: !HasKey(chains[b], k)
    ensures Without(Flatten(chains), k) == Flatten(chains)
  {
    FlattenNoKey(chains, k);
    OnlyAbsent(Flatten(chains), k);
  }

  // ----- moving every node to a larger array -----

  lemma {:induction false} FlattenNodes<K, V>(chains: seq<seq<Node<K, V>>>)
    ensures SetOf(Flatten(chains)) == NodesOf(chains)
  {
    forall p | 0 <= p < |Flatten(chains)|
      ensures Flatten(chains)[p] in NodesOf(chains)
    {
      var b, i := FlattenFind(chains, p);
    }
    forall b, i | 0 <= b < |chains| && 0 <= i < |chains[b]|
      ensures chains[b][i] in Flatten(chains)
    {
      FlattenAt(chains, b, i);
    }
  }

  lemma {:induction false} RehashedNodes<K, V>(s: seq<Node<K, V>>, hash: K -> nat, n: nat)
    requires n > 0
    ensures NodesOf(Rehashed(s, hash, n)) == SetOf(s)
  {
    var r := Flatten(Rehashed(s, hash, n));
    FlattenNodes(Rehashed(s, hash, n));
    RehashedKeepsNodes(s, hash, n);
    assert forall x :: x in r <==> x in multiset(r);
    assert forall x :: x in s <==> x in multiset(s);
  }

  /** One node goes from the front of an old bucket to the front of a new one. */
  method Relink<K, V>(x: Node<K, V>, old': seq<Node?<K, V>>, tmp: seq<Node?<K, V>>, b: nat, b': nat,
                      ghost left: seq<seq<Node<K, V>>>, ghost done: seq<seq<Node<K, V>>>)
    returns (old'': seq<Node?<K, V>>, tmp': seq<Node?<K, V>>)
    requires |old'| == |left| && |tmp| == |done| && b < |left| && b' < |done|
    requires AllLinked(old', left) && AllLinked(tmp, done)
    requires old'[b] == x && left[b] != [] && x !in NodesOf(done) && x !in NodesOf(left[b := left[b][1..]])
    modifies x
    ensures |old''| == |old'| && |tmp'| == |tmp|
    ensures AllLinked(old'', left[b := left[b][1..]]) && AllLinked(tmp', done[b' := [x] + done[b']])
  {
    LinkTail(x, left[b]);
    LinkBucket(old', left, b, x.next, left[b][1..]);
    old'' := old'[b := x.next];
    x.next := tmp[b'];
    LinkFront(x, done[b']);
    LinkBucket(tmp, done, b', x, [x] + done[b']);
    tmp' := tmp[b' := x];
  }

  lemma {:induction false} FlattenTakeFirst<T>(chains: seq<seq<T>>, b: nat)
    requires b < |chains| && chains[b] != [] && (forall x | 0 <= x < b :: chains[x] == [])
    ensures Flatten(chains) == [chains[b][0]] + Flatten(chains[b := chains[b][1..]])
  {
    FlattenSplit(chains, b);
    FlattenUpdate(chains, b, chains[b][1..]);
    FlattenEmpty(chains[..b]);
  }

  lemma RehashedPush<K, V>(s: seq<Node<K, V>>, x: Node<K, V>, hash: K -> nat, n: nat)
    requires n > 0
    ensures var b, r := Bucket(hash, x.val.key, n), Rehashed(s, hash, n);
            Rehashed(s + [x], hash, n) == r[b := [x] + r[b]]
  {
    assert (s + [x])[..|s + [x]| - 1] == s;
  }

  /** Between two moves: the nodes of `left` are still linked in the old array, those of `done` are
      linked in the new one, and buckets before `b` are empty. */
  ghost predicate Relinking<K, V>(chains: seq<seq<Node<K, V>>>, old': seq<Node?<K, V>>, tmp: seq<Node?<K, V>>, b: nat, hash: K -> nat,
                                  n: nat, left: seq<seq<Node<K, V>>>, done: seq<Node<K, V>>)
    requires n > 0
    reads NodesOf(left), NodesOf(Rehashed(done, hash, n))
  {
    && |old'| == |left| == |chains| && |tmp| == n
    && (forall x | 0 <= x < b && x < |left| :: left[x] == [])
    && done + Flatten(left) == Flatten(chains)
    && AllLinked(old', left) && AllLinked(tmp, Rehashed(done, hash, n))
  }

  /** Empties the old array front to back, pushing each node in front of its new bucket. */
  method RelinkAll<K, V>(buckets: seq<Node?<K, V>>, hash: K -> nat, n: nat, ghost chains: seq<seq<Node<K, V>>>)
    returns (tmp: seq<Node?<K, V>>)
    requires n > 0 && |buckets| == |chains| && AllLinked(buckets, chains) && Distinct(Flatten(chains))
    modifies NodesOf(chains)
    ensures |tmp| == n && AllLinked(tmp, Rehashed(Flatten(chains), hash, n))
  {
    tmp := seq(n, _ => null);
    var old' := buckets;
    ghost var left, done := chains, [];
    for b := 0 to |buckets|
      invariant Relinking(chains, old', tmp, b, hash, n, left, done)
    {
      old', tmp, left, done := RelinkBucket(old', tmp, b, hash, n, chains, left, done);
    }
    FlattenEmpty(left);
    assert done + [] == done;
  }

  /** Moves all nodes of bucket `b`. */
  method RelinkBucket<K, V>(was: seq<Node?<K, V>>, given: seq<Node?<K, V>>, b: nat, hash: K -> nat, n: nat,
                            ghost chains: seq<seq<Node<K, V>>>, ghost left0: seq<seq<Node<K, V>>>, ghost done0: seq<Node<K, V>>)
    returns (old': seq<Node?<K, V>>, tmp: seq<Node?<K, V>>, ghost left: seq<seq<Node<K, V>>>, ghost done: seq<Node<K, V>>)
    requires n > 0 && b < |chains| && Distinct(Flatten(chains))
    requires Relinking(chains, was, given, b, hash, n, left0, done0)
    modifies NodesOf(chains)
    ensures Relinking(chains, old', tmp, b + 1, hash, n, left, done)
  {
    old', tmp, left, done := was, given, left0, done0;
    var first := old'[b];
    while first != null
      invariant Relinking(chains, old', tmp, b, hash, n, left, done) && first == old'[b]
      decreases |left[b]|
    {
      old', tmp, left, done := RelinkFirst(first, old', tmp, b, hash, n, chains, left, done);
      first := old'[b];
    }
  }

  /** What is left is part of what there was. */
  lemma StillHeld<K, V>(chains: seq<seq<Node<K, V>>>, left: seq<seq<Node<K, V>>>, done: seq<Node<K, V>>, b: nat)
    requires done + Flatten(left) == Flatten(chains) && b < |left|
    ensures left[b] != [] ==> left[b][0] in NodesOf(chains)
  {
    FlattenNodes(chains);
    FlattenNodes(left);
    if left[b] != [] {
      assert left[b][0] in NodesOf(left);
      assert left[b][0] in Flatten(left);
    }
  }

  /** Moves the first node that is left. */
  method RelinkFirst<K, V>(first: Node<K, V>, was: seq<Node?<K, V>>, given: seq<Node?<K, V>>, b: nat, hash: K -> nat, n: nat,
                           ghost chains: seq<seq<Node<K, V>>>, ghost left0: seq<seq<Node<K, V>>>, ghost done0: seq<Node<K, V>>)
    returns (old': seq<Node?<K, V>>, tmp: seq<Node?<K, V>>, ghost left: seq<seq<Node<K, V>>>, ghost done: seq<Node<K, V>>)
    requires n > 0 && b < |chains| && Distinct(Flatten(chains))
    requires Relinking(chains, was, given, b, hash, n, left0, done0) && first == was[b]
    modifies NodesOf(chains)
    ensures Relinking(chains, old', tmp, b, hash, n, left, done)
    ensures left0[b] != [] && left == left0[b := left0[b][1..]]
  {
    StillHeld(chains, left0, done0, b);
    left := left0[b := left0[b][1..]];
    FlattenTakeFirst(left0, b);
    MovedOnce(chains, done0, first, left, hash, n);
    RehashedPush(done0, first, hash, n);
    ghost var x: Node<K, V> := first;
    done := done0 + [x];
    old', tmp := Relink(first, was, given, b, Bucket(hash, first.val.key, n), left0, Rehashed(done0, hash, n));
  }

  lemma {:induction false} MovedOnce<K, V>(chains: seq<seq<Node<K, V>>>, done: seq<Node<K, V>>, x: Node<K, V>,
                                           left: seq<seq<Node<K, V>>>, hash: K -> nat, n: nat)
    requires n > 0 && Distinct(Flatten(chains)) && Flatten(chains) == done + ([x] + Flatten(left))
    ensures x !in NodesOf(Rehashed(done, hash, n)) && x !in NodesOf(left) && x in NodesOf(chains)
    ensures done + ([x] + Flatten(left)) == done + [x] + Flatten(left)
  {
    FlattenNodes(left);
    FlattenNodes(chains);
    RehashedNodes(done, hash, n);
    var all := Flatten(chains);
    assert all[|done|] == x;
    assert forall i | 0 <= i < |done| :: all[i] == done[i];
    assert forall i | 0 <= i < |Flatten(left)| :: all[|done| + 1 + i] == Flatten(left)[i];
  }

  // ----- emptying and copying the whole array -----

  /** Gives every node back, bucket by bucket. */
  method EraseAll<K, V>(buckets: seq<Node?<K, V>>, ghost chains: seq<seq<Node<K, V>>>)
    returns (ghost dead: set<Node<K, V>>)
    requires |buckets| == |chains| && AllLinked(buckets, chains)
    requires forall b | 0 <= b < |chains| :: Distinct(chains[b])
    ensures dead == NodesOf(chains)
  {
    dead := {};
    for b := 0 to |buckets|
      invariant dead == NodesOf(chains[..b])
    {
      var cur, erased;
      ghost var more;
      cur, erased, more := EraseFront(buckets[b], null, chains[b], |chains[b]|);
      assert chains[b][..|chains[b]|] == chains[b];
      NodesPrefix(chains, b);
      dead := dead + more;
    }
    assert chains[..|buckets|] == chains;
  }

  lemma NodesPrefix<K, V>(chains: seq<seq<Node<K, V>>>, b: nat)
    requires b < |chains|
    ensures NodesOf(chains[..b + 1]) == NodesOf(chains[..b]) + SetOf(chains[b])
  {
    var longer, shorter := chains[..b + 1], chains[..b];
    forall b', i | 0 <= b' < |longer| && 0 <= i < |longer[b']|
      ensures longer[b'][i] in NodesOf(shorter) + SetOf(chains[b])
    {
      assert b' < b ==> shorter[b'][i] == longer[b'][i];
    }
    forall b', i | 0 <= b' < |shorter| && 0 <= i < |shorter[b']|
      ensures shorter[b'][i] in NodesOf(longer)
    {
      assert longer[b'][i] == shorter[b'][i];
    }
    forall i | 0 <= i < |chains[b]|
      ensures chains[b][i] in NodesOf(longer)
    {
      assert longer[b][i] == chains[b][i];
    }
  }

  /** Two arrays hold the same values in the same places. */
  ghost predicate SameVals<K, V>(chains: seq<seq<Node<K, V>>>, chains': seq<seq<Node<K, V>>>) {
    && |chains| == |chains'|
    && forall b | 0 <= b < |chains| :: Vals(chains'[b]) == Vals(chains[b]) && Distinct(chains'[b])
  }

  method CopyAll<K, V>(buckets: seq<Node?<K, V>>, ghost chains: seq<seq<Node<K, V>>>)
    returns (copies: seq<Node?<K, V>>, ghost chains': seq<seq<Node<K, V>>>)
    requires |buckets| == |chains| && AllLinked(buckets, chains)
    ensures |copies| == |chains'| && AllLinked(copies, chains') && SameVals(chains, chains')
    ensures fresh(NodesOf(chains'))
  {
    copies, chains' := [], [];
    for b := 0 to |buckets|
      invariant |copies| == |chains'| == b && AllLinked(copies, chains')
      invariant SameVals(chains[..b], chains') && fresh(NodesOf(chains'))
    {
      var copy;
      ghost var c;
      copy, c := CopyChain(buckets[b], chains[b]);
      NodesPrefix(chains' + [c], b);
      assert (chains' + [c])[..b] == chains' && (chains' + [c])[..b + 1] == chains' + [c];
      copies, chains' := copies + [copy], chains' + [c];
    }
    assert chains[..|buckets|] == chains;
  }

  lemma ValsKeys<K, V>(c: seq<Node<K, V>>, c': seq<Node<K, V>>)
    requires Vals(c) == Vals(c')
    ensures |c| == |c'| && forall i | 0 <= i < |c| :: c[i].val == c'[i].val
  {
    assert |Vals(c)| == |Vals(c')|;
    forall i | 0 <= i < |c|
      ensures c[i].val == c'[i].val
    {
      assert Vals(c)[i] == c[i].val && Vals(c')[i] == c'[i].val;
    }
  }

  lemma {:induction false} CopiedGood<K, V>(chains: seq<seq<Node<K, V>>>, chains': seq<seq<Node<K, V>>>, hash: K -> nat)
    requires |chains| > 0 && GoodChains(chains, hash, |chains|) && SameVals(chains, chains')
    ensures GoodChains(chains', hash, |chains|)
  {
    forall b | 0 <= b < |chains'|
      ensures GoodChain(chains'[b], b, hash, |chains|)
    {
      var c, c' := chains[b], chains'[b];
      ValsKeys(c, c');
      assert GoodChain(c, b, hash, |chains|);
      forall i, j | 0 <= i < j < |c'| && StartsRun(c', j)
        ensures c'[i].val.key != c'[j].val.key
      {
        assert StartsRun(c, j);
      }
    }
  }

  lemma {:induction false} CopiedOrder<K, V>(chains: seq<seq<Node<K, V>>>, chains': seq<seq<Node<K, V>>>)
    requires SameVals(chains, chains')
    ensures Vals(Flatten(chains')) == Vals(Flatten(chains)) && |Flatten(chains')| == |Flatten(chains)|
  {
    if chains != [] {
      var n := |chains| - 1;
      CopiedOrder(chains[..n], chains'[..n]);
      ValsKeys(chains[n], chains'[n]);
      assert Vals(Flatten(chains[..n]) + chains[n]) == Vals(Flatten(chains[..n])) + Vals(chains[n]);
      assert Vals(Flatten(chains'[..n]) + chains'[n]) == Vals(Flatten(chains'[..n])) + Vals(chains'[n]);
    }
  }

  // ----- stretches of the iteration order -----

  /** Iteration order after cutting positions `i` up to `j` out of bucket `b`. */
  lemma {:induction false} OrderCut<K, V>(chains: seq<seq<Node<K, V>>>, b: nat, i: nat, j: nat)
    requires b < |chains| && i <= j <= |chains[b]|
    ensures var off := |Flatten(chains[..b])|;
            && off + j <= |Flatten(chains)|
            && Flatten(chains[b := chains[b][..i] + chains[b][j..]])
            == Flatten(chains)[..off + i] + Flatten(chains)[off + j..]
  {
    var c, off := chains[b], |Flatten(chains[..b])|;
    FlattenSplit(chains, b);
    FlattenUpdate(chains, b, c[..i] + c[j..]);
    CutInside(Flatten(chains[..b]), c, Flatten(chains[b + 1..]), i, j);
  }

  lemma CutInside<T>(a: seq<T>, c: seq<T>, d: seq<T>, i: nat, j: nat)
    requires i <= j <= |c|
    ensures |a| + j <= |a + c + d|
    ensures (a + c + d)[..|a| + i] + (a + c + d)[|a| + j..] == a + (c[..i] + c[j..]) + d
  {
    assert (a + c + d)[..|a| + i] == a + c[..i];
    assert (a + c + d)[|a| + j..] == c[j..] + d;
  }

  lemma {:induction false} EmptyNodes<K, V>(chains: seq<seq<Node<K, V>>>)
    requires Flatten(chains) == []
    ensures NodesOf(chains) == {} && forall b | 0 <= b < |chains| :: chains[b] == []
  {
    forall b | 0 <= b < |chains|
      ensures chains[b] == []
    {
      FlattenSplit(chains, b);
    }
  }

  /** The buckets after a range erase: bucket `f` keeps its first `i` nodes, bucket `l` loses its
      first `j`, and the buckets between are empty. `upTo` of them have been dealt with. */
  ghost predicate RangeCut<K, V>(chains: seq<seq<Node<K, V>>>, was: seq<seq<Node<K, V>>>,
                                 f: nat, i: nat, upTo: nat)
    requires f < |was| && i <= |was[f]|
  {
    && |chains| == |was| && f < upTo <= |was|
    && chains[..f] == was[..f] && chains[f] == was[f][..i] && chains[upTo..] == was[upTo..]
    && forall b | f < b < upTo :: chains[b] == []
  }

  /** Iteration order after the buckets up to `l` are cut and `j` nodes are dropped from bucket `l`. */
  lemma {:induction false} OrderRangeCut<K, V>(chains: seq<seq<Node<K, V>>>, was: seq<seq<Node<K, V>>>,
                                               f: nat, i: nat, l: nat)
    requires f < |was| && i <= |was[f]| && RangeCut(chains, was, f, i, l)
    ensures |Flatten(was[..f])| + i <= |Flatten(was[..l])|
    ensures Flatten(was) == Flatten(was[..l]) + Flatten(was[l..])
    ensures Flatten(chains[..l]) == Flatten(was)[..|Flatten(was[..f])| + i]
    ensures Flatten(chains) == Flatten(was)[..|Flatten(was[..f])| + i] + Flatten(was[l..])
  {
    RangeCutPrefix(chains, was, f, i, l);
    assert chains == chains[..l] + was[l..] && was == was[..l] + was[l..];
    FlattenConcat(chains[..l], was[l..]);
    FlattenConcat(was[..l], was[l..]);
  }

  lemma {:induction false} RangeCutPrefix<K, V>(chains: seq<seq<Node<K, V>>>, was: seq<seq<Node<K, V>>>,
                                                f: nat, i: nat, l: nat)
    requires f < |was| && i <= |was[f]| && RangeCut(chains, was, f, i, l)
    ensures |Flatten(was[..f])| + i <= |Flatten(was[..l])|
    ensures Flatten(chains[..l]) == Flatten(was[..l])[..|Flatten(was[..f])| + i]
  {
    assert chains[..l] == chains[..f + 1] + chains[f + 1..l];
    FlattenConcat(chains[..f + 1], chains[f + 1..l]);
    FlattenEmpty(chains[f + 1..l]);
    FlattenSplit(chains, f);
    assert was[..l] == was[..f + 1] + was[f + 1..l];
    FlattenConcat(was[..f + 1], was[f + 1..l]);
    FlattenSplit(was, f);
  }

  /** Iteration order tells which of two places comes first. */
  lemma {:induction false} InOrder<T>(chains: seq<seq<T>>, f: nat, i: nat, l: nat, j: nat)
    requires f < |chains| && i < |chains[f]| && l < |chains| && j < |chains[l]|
    requires |Flatten(chains[..f])| + i < |Flatten(chains[..l])| + j
    ensures f < l || (f == l && i < j)
  {
    if l < f {
      assert chains[..f][..l] == chains[..l];
      FlattenSplit(chains[..f], l);
    }
  }

  lemma {:induction false} OrderRangeDone<K, V>(chains: seq<seq<Node<K, V>>>, was: seq<seq<Node<K, V>>>,
                                                f: nat, i: nat, l: nat, j: nat)
    requires f < |was| && i <= |was[f]| && RangeCut(chains, was, f, i, l)
    requires l < |was| && j <= |was[l]|
    ensures chains[l] == was[l]
    ensures |Flatten(was[..f])| + i <= |Flatten(was)| && |Flatten(was[..l])| + j <= |Flatten(was)|
    ensures Flatten(chains[l := chains[l][j..]])
         == Flatten(was)[..|Flatten(was[..f])| + i] + Flatten(was)[|Flatten(was[..l])| + j..]
  {
    OrderRangeCut(chains, was, f, i, l);
    assert chains[l..][0] == was[l..][0];
    FlattenUpdate(chains, l, chains[l][j..]);
    FlattenSplit(was, l);
    assert chains[l + 1..] == chains[l..][1..] && was[l + 1..] == was[l..][1..];
    var before, after := Flatten(was[..l]), Flatten(was[l + 1..]);
    assert (before + was[l] + after)[|before| + j..] == was[l][j..] + after;
  }

  lemma RangeCutStep<K, V>(chains: seq<seq<Node<K, V>>>, was: seq<seq<Node<K, V>>>, f: nat, i: nat, n: nat)
    requires f < n < |was| == |chains| && i <= |was[f]| && chains[n] == []
    requires RangeCut(chains[n := was[n]], was, f, i, n)
    ensures RangeCut(chains, was, f, i, n + 1)
  {
    var before := chains[n := was[n]];
    assert before[..f] == chains[..f] && before[f] == chains[f];
    assert before[n..][1..] == chains[n + 1..] && was[n..][1..] == was[n + 1..];
    assert forall b | f < b < n :: chains[b] == before[b];
  }

  lemma {:induction false} RangeCutToEnd<K, V>(chains: seq<seq<Node<K, V>>>, was: seq<seq<Node<K, V>>>, f: nat, i: nat)
    requires f < |was| && i <= |was[f]| && RangeCut(chains, was, f, i, |was|)
    ensures Flatten(chains) == Flatten(was[..f]) + was[f][..i]
  {
    FlattenSplit(chains, f);
    FlattenEmpty(chains[f + 1..]);
  }

  lemma {:induction false} OrderAtEnd<T>(chains: seq<seq<T>>, f: nat, i: nat)
    requires f < |chains| && i <= |chains[f]|
    ensures |Flatten(chains[..f])| + i <= |Flatten(chains)|
    ensures Flatten(chains)[..|Flatten(chains[..f])| + i] == Flatten(chains[..f]) + chains[f][..i]
  {
    FlattenSplit(chains, f);
  }

  /** An iterator stands in one place only. */
  lemma SamePlace<K, V>(chains: seq<seq<Node<K, V>>>, hash: K -> nat, p: nat, q: nat, x: Node?<K, V>)
    requires |chains| > 0 && GoodChains(chains, hash, |chains|)
    requires AtNode(Flatten(chains), p, x) && AtNode(Flatten(chains), q, x)
    ensures p == q && Flatten(chains)[..p] + Flatten(chains)[q..] == Flatten(chains)
  {
    FlattenGood(chains, hash, |chains|);
    OnePlace(Flatten(chains), p, q, x);
  }

  lemma OnePlace<K, V>(s: seq<Node<K, V>>, p: nat, q: nat, x: Node?<K, V>)
    requires Distinct(s) && AtNode(s, p, x) && AtNode(s, q, x)
    ensures p == q && s[..p] + s[q..] == s
  {
  }

  /** The node at position `p` of the iteration order stands in the bucket of its key. */
  lemma {:induction false} Locate<K, V>(chains: seq<seq<Node<K, V>>>, hash: K -> nat, p: nat) returns (i: nat)
    requires |chains| > 0 && GoodChains(chains, hash, |chains|) && p < |Flatten(chains)|
    ensures var x := Flatten(chains)[p];
            var b := Bucket(hash, x.val.key, |chains|);
            AtNode(chains[b], i, x) && i < |chains[b]| && p == |Flatten(chains[..b])| + i
  {
    var b;
    b, i := FlattenFind(chains, p);
    assert GoodChain(chains[b], b, hash, |chains|);
  }

  lemma {:induction false} EmptyRecord<K, V>(hash: K -> nat, n: nat, nodes: set<Node<K, V>>)
    requires n > 0
    ensures Kept<K, V>(seq(n, _ => []), hash, 0, nodes, nodes)
    ensures Flatten<Node<K, V>>(seq(n, _ => [])) == []
    ensures AllLinked<K, V>(seq(n, _ => null), seq(n, _ => []))
  {
    EmptyKept<K, V>(hash, n);
  }

  /** Rehashing keeps the multiset of values. */
  lemma {:induction false} RehashedVals<K, V>(s: seq<Node<K, V>>, hash: K -> nat, n: nat)
    requires n > 0
    ensures multiset(Vals(Flatten(Rehashed(s, hash, n)))) == multiset(Vals(s))
  {
    if s == [] {
      FlattenEmpty(Rehashed(s, hash, n));
    } else {
      var s', x := s[..|s| - 1], s[|s| - 1];
      var r, b := Rehashed(s', hash, n), Bucket(hash, x.val.key, n);
      RehashedVals(s', hash, n);
      assert Vals([x] + r[b]) == [x.val] + Vals(r[b]);
      OrderGained(r, b, [x] + r[b], x.val);
      assert Vals(s) == Vals(s') + [x.val];
    }
  }

  lemma {:induction false} ResizedKept<K, V>(chains: seq<seq<Node<K, V>>>, hash: K -> nat, count: nat,
                                             nodes: set<Node<K, V>>, freed: set<Node<K, V>>, n: nat)
    requires n > 0 && Kept(chains, hash, count, nodes, freed)
    ensures var r := Rehashed(Flatten(chains), hash, n);
            && Kept(r, hash, count, nodes, freed)
            && multiset(Flatten(r)) == multiset(Flatten(chains))
            && multiset(Vals(Flatten(r))) == multiset(Vals(Flatten(chains)))
  {
    var s := Flatten(chains);
    FlattenGood(chains, hash, |chains|);
    RehashedGood(s, hash, n);
    RehashedKeepsNodes(s, hash, n);
    RehashedNodes(s, hash, n);
    FlattenNodes(chains);
    RehashedVals(s, hash, n);
    assert |multiset(Flatten(Rehashed(s, hash, n)))| == |multiset(s)|;
  }

  /** Growing reverses each run of equal keys, and keeps it a run. */
  lemma {:induction false} MatchesReversed<K, V>(s: seq<Node<K, V>>, k: K, hash: K -> nat, n: nat)
    requires n > 0 && Distinct(s) && Grouped(s)
    ensures Only(Flatten(Rehashed(s, hash, n)), k) == Reverse(Only(s, k))
  {
    RehashedGood(s, hash, n);
    OnlyFlatten(Rehashed(s, hash, n), hash, k);
    OnlyRehashed(s, k, hash, n);
  }

  lemma {:induction false} OnlyRehashed<K, V>(s: seq<Node<K, V>>, k: K, hash: K -> nat, n: nat)
    requires n > 0
    ensures Only(Rehashed(s, hash, n)[Bucket(hash, k, n)], k) == Reverse(Only(s, k))
  {
    if s == [] {
      assert Rehashed(s, hash, n)[Bucket(hash, k, n)] == [];
    } else {
      var s', x := s[..|s| - 1], s[|s| - 1];
      OnlyRehashed(s', k, hash, n);
      OnlyLast(s, k);
      var c := Rehashed(s', hash, n)[Bucket(hash, k, n)];
      OnlyPush(x, c, k);
      if x.val.key == k {
        ReverseAppend(Only(s', k), x);
        assert Rehashed(s, hash, n)[Bucket(hash, k, n)] == [x] + c;
      }
    }
  }

  lemma {:induction false} OnlyLast<K, V>(s: seq<Node<K, V>>, k: K)
    requires s != []
    ensures var s', x := s[..|s| - 1], s[|s| - 1];
            Only(s, k) == if x.val.key == k then Only(s', k) + [x] else Only(s', k)
  {
    assert s == s[..|s| - 1] + [s[|s| - 1]];
    OnlyStep(s, |s| - 1, k);
    assert s[..|s|] == s;
  }

  lemma {:induction false} OnlyPush<K, V>(x: Node<K, V>, c: seq<Node<K, V>>, k: K)
    ensures Only([x] + c, k) == if x.val.key == k then [x] + Only(c, k) else Only(c, k)
  {
    assert ([x] + c)[1..] == c;
  }

  lemma {:induction false} OnlyCounts<K, V>(s: seq<Node<K, V>>, k: K, x: Node<K, V>)
    ensures multiset(Only(s, k))[x] == if x.val.key == k then multiset(s)[x] else 0
  {
    if s != [] {
      OnlyCounts(s[1..], k, x);
      assert s == [s[0]] + s[1..];
    }
  }

  /** The nodes with one key are the same ones in any rearrangement. */
  lemma {:induction false} SameMatches<K, V>(s: seq<Node<K, V>>, t: seq<Node<K, V>>, k: K)
    requires multiset(s) == multiset(t)
    ensures multiset(Only(s, k)) == multiset(Only(t, k))
    ensures Only(s, k) == [] <==> Only(t, k) == []
    ensures forall x | x in Only(t, k) :: x in Only(s, k)
  {
    var a, b := Only(s, k), Only(t, k);
    forall x | x in a + b
      ensures multiset(a)[x] == multiset(b)[x]
    {
      OnlyCounts(s, k, x);
      OnlyCounts(t, k, x);
    }
    assert forall x | x in multiset(a) || x in multiset(b) :: x in a + b;
    assert multiset(a) == multiset(b);
    assert forall x | x in a :: x in multiset(b);
    assert forall x | x in b :: x in multiset(a);
  }

  lemma {:induction false} OnlyHeld<K, V>(s: seq<Node<K, V>>, k: K)
    ensures forall x | x in Only(s, k) :: x in s && x.val.key == k
  {
    if s != [] {
      OnlyHeld(s[1..], k);
    }
  }

  /** The run of key `k` in its bucket is all of `k` in iteration order. */
  lemma {:induction false} RunInOrder<K, V>(chains: seq<seq<Node<K, V>>>, hash: K -> nat, k: K, i: nat, j: nat)
    requires |chains| > 0 && GoodChains(chains, hash, |chains|)
    requires var c := chains[Bucket(hash, k, |chains|)];
             && i < j <= |c|
             && (forall m | 0 <= m < i :: c[m].val.key != k)
             && (forall m | i <= m < j :: c[m].val.key == k)
             && (j < |c| ==> c[j].val.key != k)
    ensures var b := Bucket(hash, k, |chains|);
            var off := |Flatten(chains[..b])|;
            && off + j <= |Flatten(chains)|
            && Flatten(chains)[off + i..off + j] == Only(Flatten(chains), k)
            && Flatten(chains)[off + i] == chains[b][i]
            && (j < |chains[b]| ==> off + j < |Flatten(chains)| && Flatten(chains)[off + j] == chains[b][j])
            && (j == |chains[b]| ==> off + j == |Flatten(chains[..b + 1])|)
  {
    var b := Bucket(hash, k, |chains|);
    RunOfBucket(chains, hash, k, i, j);
    StretchInOrder(chains, b, i, j);
  }

  /** The same, for the nodes at both ends of the run. */
  lemma {:induction false} RunPlaced<K, V>(chains: seq<seq<Node<K, V>>>, hash: K -> nat, k: K,
                                           first: Node<K, V>, last: Node?<K, V>, i: nat, j: nat)
    requires |chains| > 0 && GoodChains(chains, hash, |chains|)
    requires var c := chains[Bucket(hash, k, |chains|)];
             && i < j && AtNode(c, i, first) && AtNode(c, j, last)
             && (forall m | 0 <= m < i :: c[m].val.key != k)
             && (forall m | i <= m < j :: c[m].val.key == k)
             && (j < |c| ==> c[j].val.key != k)
    ensures var n, all := Bucket(hash, k, |chains|), Flatten(chains);
            var p, q := |Flatten(chains[..n])| + i, |Flatten(chains[..n])| + j;
            && AtNode(all, p, first) && q <= |all| && all[p..q] == Only(all, k)
            && (if last != null then AtNode(all, q, last) else q == |Flatten(chains[..n + 1])|)
  {
    RunInOrder(chains, hash, k, i, j);
  }

  /** Where a stretch of a bucket stands in iteration order. */
  lemma {:induction false} StretchInOrder<T>(chains: seq<seq<T>>, b: nat, i: nat, j: nat)
    requires b < |chains| && i < j <= |chains[b]|
    ensures var off := |Flatten(chains[..b])|;
            && off + j <= |Flatten(chains)|
            && Flatten(chains)[off + i..off + j] == chains[b][i..j]
            && Flatten(chains)[off + i] == chains[b][i]
            && (j < |chains[b]| ==> off + j < |Flatten(chains)| && Flatten(chains)[off + j] == chains[b][j])
            && (j == |chains[b]| ==> off + j == |Flatten(chains[..b + 1])|)
  {
    FlattenSplit(chains, b);
    Inside(Flatten(chains), Flatten(chains[..b]), chains[b], Flatten(chains[b + 1..]), i, j);
  }

  lemma {:induction false} RunOfBucket<K, V>(chains: seq<seq<Node<K, V>>>, hash: K -> nat, k: K, i: nat, j: nat)
    requires |chains| > 0 && GoodChains(chains, hash, |chains|)
    requires var c := chains[Bucket(hash, k, |chains|)];
             && i < j <= |c|
             && (forall m | 0 <= m < i :: c[m].val.key != k)
             && (forall m | i <= m < j :: c[m].val.key == k)
             && (j < |c| ==> c[j].val.key != k)
    ensures Only(Flatten(chains), k) == chains[Bucket(hash, k, |chains|)][i..j]
  {
    var c := chains[Bucket(hash, k, |chains|)];
    assert GoodChain(c, Bucket(hash, k, |chains|), hash, |chains|);
    OnlyFlatten(chains, hash, k);
    RunIsAll(c, i, j, k);
  }

  lemma Inside<T>(all: seq<T>, a: seq<T>, c: seq<T>, d: seq<T>, i: nat, j: nat)
    requires all == a + c + d && i < j <= |c|
    ensures |a| + j <= |all| && all[|a| + i..|a| + j] == c[i..j] && all[|a| + i] == c[i]
    ensures j < |c| ==> |a| + j < |all| && all[|a| + j] == c[j]
  {
  }
}
