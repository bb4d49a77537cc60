/** The loops over one bucket's chain: searching, splicing and unlinking nodes in place. */
module ChainOps {
  import opened Chains

  /** The node that stands at position `i`, or null past the end. */
  ghost predicate AtNode<K, V>(c: seq<Node<K, V>>, i: nat, x: Node?<K, V>) {
    i <= |c| && x == if i < |c| then c[i] else null
  }

  /** Reading the link of a node, which may not have been given back. */
  function NextOf<K, V>(x: Node<K, V>, ghost dead: set<Node<K, V>>): (r: Node?<K, V>)
    requires x !in dead
    reads x
    ensures r == x.next
  {
    x.next
  }

  /** None of these nodes has been given back. */
  ghost predicate Alive<K, V>(c: seq<Node<K, V>>, dead: set<Node<K, V>>) {
    forall i | 0 <= i < |c| :: c[i] !in dead
  }

  method FindIn<K(==), V>(head: Node?<K, V>, ghost c: seq<Node<K, V>>, k: K)
    returns (r: Node?<K, V>, ghost i: nat)
    requires Linked(head, c)
    ensures AtNode(c, i, r)
    ensures forall x | 0 <= x < i :: c[x].val.key != k
    ensures i < |c| ==> c[i].val.key == k
  {
    r, i := head, 0;
    while r != null && r.val.key != k
      invariant AtNode(c, i, r)
      invariant forall x | 0 <= x < i :: c[x].val.key != k
      decreases |c| - i
    {
      assert r == c[i];
      r, i := r.next, i + 1;
    }
  }

  /** The first node behind `first`, at position `i`, whose key is not `k`. */
  method EndOfRun<K(==), V>(first: Node<K, V>, k: K, ghost c: seq<Node<K, V>>, ghost i: nat)
    returns (r: Node?<K, V>, ghost j: nat)
    requires i < |c| && c[i] == first && first.val.key == k && Linked(c[0], c)
    ensures i < j && AtNode(c, j, r)
    ensures forall m | i <= m < j :: c[m].val.key == k
    ensures j < |c| ==> c[j].val.key != k
  {
    r, j := first.next, i + 1;
    while r != null && r.val.key == k
      invariant i < j && AtNode(c, j, r)
      invariant forall m | i <= m < j :: c[m].val.key == k
      decreases |c| - j
    {
      assert r == c[j];
      r, j := r.next, j + 1;
    }
  }

  method CountIn<K(==), V>(head: Node?<K, V>, ghost c: seq<Node<K, V>>, k: K) returns (r: nat)
    requires Linked(head, c)
    ensures r == |Only(c, k)|
  {
    r := 0;
    var cur := head;
    ghost var i := 0;
    while cur != null
      invariant AtNode(c, i, cur)
      invariant r == |Only(c[..i], k)|
      decreases |c| - i
    {
      assert cur == c[i];
      OnlyStep(c, i, k);
      if cur.val.key == k {
        r := r + 1;
      }
      cur, i := cur.next, i + 1;
    }
    assert c[..i] == c;
  }

  lemma LinkTail<K, V>(first: Node<K, V>, c: seq<Node<K, V>>)
    requires Linked(first, c)
    ensures Linked(first.next, c[1..])
  {
    assert first == c[0];
    forall i | 0 <= i < |c[1..]|
      ensures c[1..][i].next == if i + 1 < |c[1..]| then c[1..][i + 1] else null
    {
      assert c[1..][i].next == c[i + 1].next;
    }
  }

  lemma LinkFrom<K, V>(head: Node?<K, V>, c: seq<Node<K, V>>, i: nat, x: Node?<K, V>)
    requires Linked(head, c) && AtNode(c, i, x)
    ensures Linked(x, c[i..])
  {
    forall y | 0 <= y < |c[i..]|
      ensures c[i..][y].next == if y + 1 < |c[i..]| then c[i..][y + 1] else null
    {
      assert c[i..][y].next == c[i + y].next;
    }
  }

  /** Links the fresh node `r` right after `cur`, which stands at position `i`. */
  method SpliceAfter<K, V>(head: Node?<K, V>, cur: Node<K, V>, r: Node<K, V>, ghost c: seq<Node<K, V>>, ghost i: nat)
    requires Linked(head, c) && Distinct(c) && i < |c| && c[i] == cur && r !in c
    modifies cur, r
    ensures Linked(head, c[..i + 1] + [r] + c[i + 1..])
  {
    r.next := cur.next;
    cur.next := r;
    ghost var d := c[..i + 1] + [r] + c[i + 1..];
    forall x | 0 <= x < |d|
      ensures d[x].next == if x + 1 < |d| then d[x + 1] else null
    {
      assert x <= i ==> d[x] == c[x];
      assert x > i + 1 ==> d[x] == c[x - 1] && c[x - 1] != cur;
    }
  }

  /** Unlinks the node after `cur`, which stands at position `i`. */
  method UnlinkAfter<K, V>(head: Node?<K, V>, cur: Node<K, V>, ghost c: seq<Node<K, V>>, ghost i: nat, ghost dead: set<Node<K, V>>)
    requires Linked(head, c) && Distinct(c) && i + 1 < |c| && c[i] == cur && c[i] !in dead && c[i + 1] !in dead
    modifies cur
    ensures Linked(head, c[..i + 1] + c[i + 2..]) && Distinct(c[..i + 1] + c[i + 2..])
  {
    assert cur.next == c[i + 1];
    var next := NextOf(cur, dead);
    cur.next := NextOf(next, dead);
    ghost var d := c[..i + 1] + c[i + 2..];
    forall x | 0 <= x < |d|
      ensures d[x].next == if x + 1 < |d| then d[x + 1] else null
    {
      assert x <= i ==> d[x] == c[x];
      assert x > i ==> d[x] == c[x + 1];
    }
  }

  // ----- erasing a key whose storage may be inside the table -----

  ghost function Holding<K, V>(c: seq<Node<K, V>>, k: K): set<Node<K, V>> {
    set x | x in c && x.val.key == k
  }

  /** The comparison of a node's key with the caller's key. The key may be stored inside the
      node `alias`, so neither that node nor `x` may have been given back yet. */
  function SameKey<K(==), V>(x: Node<K, V>, k: K, alias: Node?<K, V>, ghost dead: set<Node<K, V>>): (b: bool)
    requires x !in dead
    requires alias != null ==> alias !in dead && alias.val.key == k
    ensures b <==> x.val.key == k
  {
    if alias == null then x.val.key == k else x.val.key == alias.val.key
  }

  /** The nodes kept so far, without the one at `s` (0 stands for none). */
  ghost function Clean<T>(kept: seq<T>, s: nat): seq<T>
    requires s == 0 || s < |kept|
  {
    if s == 0 then kept else kept[..s] + kept[s + 1..]
  }

  /** `kept + rest` is what hangs off `first`; `cur` ends `kept` and `next` begins `rest`. */
  ghost predicate Scanning<K, V>(first: Node<K, V>, cur: Node<K, V>, next: Node?<K, V>,
                                 kept: seq<Node<K, V>>, rest: seq<Node<K, V>>)
    reads kept + rest
  {
    && kept != [] && kept[0] == first && cur == kept[|kept| - 1]
    && next == (if rest == [] then null else rest[0])
    && Linked(first, kept + rest) && Distinct(kept + rest)
  }

  /** The node the key is stored in is the one at `s` in `kept`, behind `saved`. */
  ghost predicate SavedAt<K, V>(kept: seq<Node<K, V>>, s: nat, saved: Node?<K, V>, alias: Node?<K, V>) {
    if s == 0 then saved == null
    else s < |kept| && saved == kept[s - 1] && alias == kept[s]
  }

  lemma StepOver<K, V>(first: Node<K, V>, cur: Node<K, V>, next: Node<K, V>,
                       kept: seq<Node<K, V>>, rest: seq<Node<K, V>>)
    requires Scanning(first, cur, next, kept, rest)
    ensures Scanning(first, next, next.next, kept + [next], rest[1..])
    ensures kept + [next] + rest[1..] == kept + rest && next in kept + rest
  {
    assert kept + [next] + rest[1..] == kept + rest;
    assert (kept + rest)[|kept|] == next;
  }

  /** Unlinks the next node, gives it back and goes on behind it. */
  method CutOut<K, V>(first: Node<K, V>, cur: Node<K, V>, next: Node<K, V>,
                      ghost kept: seq<Node<K, V>>, ghost rest: seq<Node<K, V>>, ghost dead: set<Node<K, V>>)
    returns (next': Node?<K, V>, ghost dead': set<Node<K, V>>)
    requires Scanning(first, cur, next, kept, rest) && Alive(kept + rest, dead)
    modifies cur
    ensures Scanning(first, cur, next', kept, rest[1..])
    ensures dead' == dead + {next} && Alive(kept + rest[1..], dead')
  {
    ghost var q, i := kept + rest, |kept| - 1;
    assert q[i] == cur && q[i + 1] == next;
    assert q[..i + 1] + q[i + 2..] == kept + rest[1..];
    UnlinkAfter(first, cur, q, i, dead);
    dead' := dead + {next};
    assert (kept + rest[1..])[i] == cur;
    next' := NextOf(cur, dead');
    AliveCut(q, i + 1, dead);
  }

  lemma AliveCut<K, V>(c: seq<Node<K, V>>, i: nat, dead: set<Node<K, V>>)
    requires Alive(c, dead) && Distinct(c) && i < |c|
    ensures Alive(c[..i] + c[i + 1..], dead + {c[i]})
  {
  }

  lemma NotBefore<T>(seen: seq<T>, rest: seq<T>)
    requires Distinct(seen + rest) && rest != []
    ensures rest[0] !in seen && seen + rest == seen + [rest[0]] + rest[1..]
  {
    var all := seen + rest;
    assert all[|seen|] == rest[0];
    assert forall i | 0 <= i < |seen| :: all[i] == seen[i];
  }

  /** What the scan has done with the nodes seen so far. */
  ghost predicate Tally<K, V>(first: Node<K, V>, seen: seq<Node<K, V>>, k: K, alias: Node?<K, V>,
                              kept: seq<Node<K, V>>, s: nat, dead: set<Node<K, V>>, erased: nat)
  {
    && (s == 0 || s < |kept|)
    && Clean(kept, s) == [first] + Without(seen, k)
    && dead == Holding(seen, k) - {alias}
    && erased + (if s == 0 then 0 else 1) == |Only(seen, k)|
    && (s == 0 <==> alias !in seen)
  }

  lemma TallyCut<K, V>(first: Node<K, V>, seen: seq<Node<K, V>>, k: K, alias: Node?<K, V>, x: Node<K, V>,
                       kept: seq<Node<K, V>>, s: nat, dead: set<Node<K, V>>, erased: nat)
    requires Tally(first, seen, k, alias, kept, s, dead, erased)
    requires x.val.key == k && x != alias
    ensures Tally(first, seen + [x], k, alias, kept, s, dead + {x}, erased + 1)
  {
    OnlyConcat(seen, [x], k);
  }

  lemma TallyKeep<K, V>(first: Node<K, V>, seen: seq<Node<K, V>>, k: K, alias: Node?<K, V>, x: Node<K, V>,
                        kept: seq<Node<K, V>>, s: nat, dead: set<Node<K, V>>, erased: nat)
    requires Tally(first, seen, k, alias, kept, s, dead, erased) && kept != []
    requires x.val.key != k && x != alias
    ensures Tally(first, seen + [x], k, alias, kept + [x], s, dead, erased)
  {
    OnlyConcat(seen, [x], k);
    assert s > 0 ==> (kept + [x])[s + 1..] == kept[s + 1..] + [x];
    assert Clean(kept + [x], s) == Clean(kept, s) + [x];
  }

  lemma TallySave<K, V>(first: Node<K, V>, seen: seq<Node<K, V>>, k: K, x: Node<K, V>,
                        kept: seq<Node<K, V>>, s: nat, dead: set<Node<K, V>>, erased: nat)
    requires Tally(first, seen, k, x, kept, s, dead, erased) && kept != []
    requires x.val.key == k && x !in seen
    ensures Tally(first, seen + [x], k, x, kept + [x], |kept|, dead, erased)
  {
    OnlyConcat(seen, [x], k);
    assert Clean(kept + [x], |kept|) == kept;
  }

  lemma SavedGrows<K, V>(kept: seq<Node<K, V>>, s: nat, saved: Node?<K, V>, alias: Node?<K, V>, x: Node<K, V>)
    requires SavedAt(kept, s, saved, alias) && kept != []
    ensures SavedAt(kept + [x], s, saved, alias)
    ensures SavedAt(kept + [x], |kept|, kept[|kept| - 1], x)
  {
  }

  /** How the scan stands between two nodes: `seen` is behind it, `rest` before it. */
  ghost predicate Scanned<K, V>(first: Node<K, V>, k: K, alias: Node?<K, V>, c: seq<Node<K, V>>,
                                seen: seq<Node<K, V>>, rest: seq<Node<K, V>>, cur: Node<K, V>, next: Node?<K, V>,
                                saved: Node?<K, V>, kept: seq<Node<K, V>>, s: nat, dead: set<Node<K, V>>, erased: nat)
    reads kept + rest
  {
    && c == [first] + (seen + rest) && Distinct(seen + rest)
    && Scanning(first, cur, next, kept, rest) && SavedAt(kept, s, saved, alias)
    && (forall i | 0 <= i < |kept| :: kept[i] in c)
    && Tally(first, seen, k, alias, kept, s, dead, erased) && Alive(kept + rest, dead)
  }

  /** The next node is alive, so is the one the key is stored in, and what is changed is part of the chain. */
  lemma ScanReady<K, V>(first: Node<K, V>, k: K, alias: Node?<K, V>, c: seq<Node<K, V>>,
                        seen: seq<Node<K, V>>, rest: seq<Node<K, V>>, cur: Node<K, V>, x: Node<K, V>,
                        saved: Node?<K, V>, kept: seq<Node<K, V>>, s: nat, dead: set<Node<K, V>>, erased: nat)
    requires Scanned(first, k, alias, c, seen, rest, cur, x, saved, kept, s, dead, erased)
    ensures x !in dead && alias !in dead && cur in SetOf(c) && rest != []
  {
    assert kept[|kept| - 1] == cur && (kept + rest)[|kept|] == x;
  }

  lemma ScanStart<K, V>(first: Node<K, V>, k: K, alias: Node?<K, V>, c: seq<Node<K, V>>)
    requires Linked(first, c) && Distinct(c)
    ensures Scanned(first, k, alias, c, [], c[1..], first, first.next, null, [first], 0, {}, 0)
  {
    assert c == [first] + c[1..] && [] + c[1..] == c[1..];
  }

  /** A node that stays, because its key is another. */
  lemma KeptStep<K, V>(first: Node<K, V>, k: K, alias: Node?<K, V>, c: seq<Node<K, V>>,
                       seen: seq<Node<K, V>>, rest: seq<Node<K, V>>, cur: Node<K, V>, x: Node<K, V>,
                       saved: Node?<K, V>, kept: seq<Node<K, V>>, s: nat, dead: set<Node<K, V>>, erased: nat)
    requires Scanned(first, k, alias, c, seen, rest, cur, x, saved, kept, s, dead, erased) && x.val.key != k && x != alias
    ensures x !in dead
    ensures Scanned(first, k, alias, c, seen + [x], rest[1..], x, x.next, saved, kept + [x], s, dead, erased)
  {
    NotBefore(seen, rest);
    StepOver(first, cur, x, kept, rest);
    SavedGrows(kept, s, saved, alias, x);
    TallyKeep(first, seen, k, alias, x, kept, s, dead, erased);
    StillIn(first, c, seen, rest, x);
  }

  /** The node the key is stored in: it stays for now, and its predecessor is saved. */
  lemma SavedStep<K, V>(first: Node<K, V>, k: K, alias: Node<K, V>, c: seq<Node<K, V>>,
                        seen: seq<Node<K, V>>, rest: seq<Node<K, V>>, cur: Node<K, V>,
                        saved: Node?<K, V>, kept: seq<Node<K, V>>, s: nat, dead: set<Node<K, V>>, erased: nat)
    requires Scanned(first, k, alias, c, seen, rest, cur, alias, saved, kept, s, dead, erased) && alias.val.key == k
    ensures alias !in dead
    ensures Scanned(first, k, alias, c, seen + [alias], rest[1..], alias, alias.next, cur, kept + [alias], |kept|, dead, erased)
  {
    NotBefore(seen, rest);
    StepOver(first, cur, alias, kept, rest);
    SavedGrows(kept, s, saved, alias, alias);
    TallySave(first, seen, k, alias, kept, s, dead, erased);
    StillIn(first, c, seen, rest, alias);
  }

  lemma StillIn<T>(first: T, c: seq<T>, seen: seq<T>, rest: seq<T>, x: T)
    requires c == [first] + (seen + rest) && rest != [] && x == rest[0]
    ensures x in c && c == [first] + (seen + [x] + rest[1..])
  {
    assert c[1 + |seen|] == x;
    assert seen + rest == seen + [x] + rest[1..];
  }

  /** A node that goes. */
  method CutStep<K, V>(first: Node<K, V>, k: K, alias: Node?<K, V>, ghost c: seq<Node<K, V>>,
                       ghost seen: seq<Node<K, V>>, ghost rest: seq<Node<K, V>>, cur: Node<K, V>, x: Node<K, V>,
                       ghost saved: Node?<K, V>, ghost kept: seq<Node<K, V>>, ghost s: nat, ghost dead: set<Node<K, V>>, ghost erased: nat)
    returns (next: Node?<K, V>, ghost dead': set<Node<K, V>>)
    requires Scanned(first, k, alias, c, seen, rest, cur, x, saved, kept, s, dead, erased) && x.val.key == k && x != alias
    modifies cur
    ensures Scanned(first, k, alias, c, seen + [x], rest[1..], cur, next, saved, kept, s, dead', erased + 1)
  {
    NotBefore(seen, rest);
    TallyCut(first, seen, k, alias, x, kept, s, dead, erased);
    next, dead' := CutOut(first, cur, x, kept, rest, dead);
    StillIn(first, c, seen, rest, x);
  }

  /** The scan behind the first node. Nodes with the key are unlinked and given back at once,
      except the one the key is stored in, whose predecessor is saved instead. */
  method EraseBehindFirst<K(==), V>(first: Node<K, V>, k: K, alias: Node?<K, V>, ghost c: seq<Node<K, V>>)
    returns (saved: Node?<K, V>, erased: nat, ghost kept: seq<Node<K, V>>, ghost s: nat, ghost dead: set<Node<K, V>>)
    requires Linked(first, c) && Distinct(c)
    requires alias != null ==> alias.val.key == k
    modifies SetOf(c)
    ensures kept != [] && kept[0] == first && Linked(first, kept) && Distinct(kept)
    ensures forall x | x in kept :: x in c
    ensures SavedAt(kept, s, saved, alias) && Tally(first, c[1..], k, alias, kept, s, dead, erased)
    ensures Alive(kept, dead)
  {
    ghost var seen, rest := [], c[1..];
    var cur: Node<K, V>, next := first, first.next;
    saved, erased, kept, s, dead := null, 0, [first], 0, {};
    ScanStart(first, k, alias, c);
    while next != null
      invariant Scanned(first, k, alias, c, seen, rest, cur, next, saved, kept, s, dead, erased)
      decreases |rest|
    {
      var x: Node<K, V> := next;
      ScanReady(first, k, alias, c, seen, rest, cur, x, saved, kept, s, dead, erased);
      var same := SameKey(x, k, alias, dead);
      if same && x != alias {
        next, dead := CutStep(first, k, alias, c, seen, rest, cur, x, saved, kept, s, dead, erased);
        erased := erased + 1;
      } else {
        if same {
          SavedStep(first, k, alias, c, seen, rest, cur, saved, kept, s, dead, erased);
          saved, s := cur, |kept|;
        } else {
          KeptStep(first, k, alias, c, seen, rest, cur, x, saved, kept, s, dead, erased);
        }
        next := NextOf(x, dead);
        kept, cur := kept + [x], x;
      }
      seen, rest := seen + [x], rest[1..];
    }
    NothingLeft(kept, rest);
    NothingLeft(seen, rest);
  }

  lemma NothingLeft<T>(s: seq<T>, rest: seq<T>)
    requires rest == []
    ensures s + rest == s
  {
  }

  lemma TallyDone<K, V>(first: Node<K, V>, c: seq<Node<K, V>>, k: K, alias: Node?<K, V>,
                        kept: seq<Node<K, V>>, s: nat, dead: set<Node<K, V>>, erased: nat)
    requires c != [] && c[0] == first && Distinct(c)
    requires Tally(first, c[1..], k, alias, kept, s, dead, erased)
    ensures first !in dead && (alias != null ==> alias !in dead)
    ensures first.val.key == k ==> Only(c, k) == [first] + Only(c[1..], k) && Without(c, k) == Without(c[1..], k)
    ensures first.val.key != k ==> Only(c, k) == Only(c[1..], k) && Without(c, k) == [first] + Without(c[1..], k)
    ensures first.val.key == k ==> Holding(c, k) == Holding(c[1..], k) + {first}
    ensures first.val.key != k ==> Holding(c, k) == Holding(c[1..], k)
  {
    assert c == [first] + c[1..];
    assert first !in c[1..] by {
      assert forall i | 0 <= i < |c[1..]| :: c[1..][i] == c[i + 1];
    }
  }

  /** Erases every node with key `k` from the chain, in one pass, even when the key passed in is
      the one stored inside the node `alias`. */
  method EraseKeyIn<K(==), V>(head: Node?<K, V>, k: K, alias: Node?<K, V>, ghost c: seq<Node<K, V>>)
    returns (head': Node?<K, V>, erased: nat, ghost dead: set<Node<K, V>>)
    requires Linked(head, c) && Distinct(c)
    requires alias != null ==> alias.val.key == k
    modifies SetOf(c)
    ensures Linked(head', Without(c, k))
    ensures erased == |Only(c, k)| && dead == Holding(c, k)
  {
    head', erased, dead := head, 0, {};
    if head != null {
      var first: Node<K, V> := head;
      var saved;
      ghost var kept, s;
      saved, erased, kept, s, dead := EraseBehindFirst(first, k, alias, c);
      TallyDone(first, c, k, alias, kept, s, dead, erased);
      var deleteFirst := SameKey(first, k, alias, dead);
      if saved != null {
        assert saved in kept;
        UnlinkAfter(first, saved, kept, s - 1, dead);
        dead := dead + {alias};
        erased := erased + 1;
      }
      if deleteFirst {
        LinkTail(first, Clean(kept, s));
        head' := NextOf(first, dead);
        dead := dead + {first};
        erased := erased + 1;
      }
    }
  }

  // ----- erasing a stretch of a chain -----

  /** Gives nodes back from the front of the chain until `last`. */
  method EraseFront<K, V>(head: Node?<K, V>, last: Node?<K, V>, ghost c: seq<Node<K, V>>, ghost j: nat)
    returns (cur: Node?<K, V>, erased: nat, ghost dead: set<Node<K, V>>)
    requires Linked(head, c) && Distinct(c) && AtNode(c, j, last)
    ensures cur == last && erased == j && dead == SetOf(c[..j])
    ensures Linked(cur, c[j..])
  {
    cur, erased, dead := head, 0, {};
    while cur != last
      invariant erased <= j && AtNode(c, erased, cur) && dead == SetOf(c[..erased])
      decreases j - erased
    {
      assert cur == c[erased] && c[..erased + 1] == c[..erased] + [c[erased]];
      assert cur !in dead by {
        assert forall i | 0 <= i < erased :: c[i] != c[erased];
      }
      var next := NextOf(cur, dead);
      dead := dead + {cur};
      cur := next;
      erased := erased + 1;
    }
    LinkFrom(head, c, j, cur);
  }

  /** The node before the one at position `i`. */
  method Predecessor<K, V>(head: Node<K, V>, first: Node<K, V>, ghost c: seq<Node<K, V>>, ghost i: nat)
    returns (cur: Node<K, V>)
    requires Linked(head, c) && Distinct(c) && 0 < i < |c| && c[i] == first
    ensures cur == c[i - 1]
  {
    cur := head;
    ghost var p := 0;
    while cur.next != first
      invariant 0 <= p < i && cur == c[p]
      decreases i - p
    {
      cur, p := cur.next, p + 1;
    }
    assert c[p + 1] == first;
  }

  /** Gives back the nodes from `first` up to but not including `last`. */
  method EraseStretch<K, V>(head: Node<K, V>, first: Node<K, V>, last: Node?<K, V>,
                            ghost c: seq<Node<K, V>>, ghost i: nat, ghost j: nat)
    returns (head': Node?<K, V>, erased: nat, ghost dead: set<Node<K, V>>)
    requires Linked(head, c) && Distinct(c)
    requires i < j && AtNode(c, i, first) && i < |c| && AtNode(c, j, last)
    modifies SetOf(c)
    ensures Linked(head', c[..i] + c[j..]) && erased == j - i && dead == SetOf(c[i..j])
  {
    if head == first {
      assert c[0] == c[i];
      assert c[..i] + c[j..] == c[j..] && c[i..j] == c[..j];
      head', erased, dead := EraseFront(head, last, c, j);
    } else {
      var cur := Predecessor(head, first, c, i);
      assert c[..i] + (c[i..j] + c[j..]) == c;
      erased, dead := EraseAfter(head, cur, last, c[..i], c[i..j], c[j..]);
      head' := head;
    }
  }

  method EraseAfter<K, V>(head: Node<K, V>, cur: Node<K, V>, last: Node?<K, V>,
                          ghost kept: seq<Node<K, V>>, ghost stretch: seq<Node<K, V>>, ghost tail: seq<Node<K, V>>)
    returns (erased: nat, ghost dead: set<Node<K, V>>)
    requires kept != [] && cur == kept[|kept| - 1] && last == if tail == [] then null else tail[0]
    requires Linked(head, kept + (stretch + tail)) && Distinct(kept + (stretch + tail))
    modifies cur
    ensures Linked(head, kept + tail) && erased == |stretch| && dead == SetOf(stretch)
  {
    erased, dead := 0, {};
    ghost var seen, mid := [], stretch;
    assert (kept + (stretch + tail))[|kept| - 1] == cur;
    var next := cur.next;
    while next != last
      invariant seen + mid == stretch && erased == |seen| && dead == SetOf(seen)
      invariant Scanning(head, cur, next, kept, mid + tail) && Alive(kept + (mid + tail), dead)
      decreases |mid|
    {
      NextUp(mid, tail, next);
      next, dead := CutOut(head, cur, next, kept, mid + tail, dead);
      seen, mid, erased := seen + [mid[0]], mid[1..], erased + 1;
    }
    NotBeyond(kept, mid, tail);
  }

  lemma NextUp<T>(mid: seq<T>, tail: seq<T>, next: T)
    requires mid + tail != [] && next == (mid + tail)[0]
    requires tail != [] ==> next != tail[0]
    ensures mid != [] && mid[0] == next && (mid + tail)[1..] == mid[1..] + tail
  {
    assert mid == [] ==> mid + tail == tail;
  }

  /** In a chain without repeats the stretch is used up once its end is reached. */
  lemma NotBeyond<K, V>(kept: seq<Node<K, V>>, mid: seq<Node<K, V>>, tail: seq<Node<K, V>>)
    requires Distinct(kept + (mid + tail))
    requires (if mid + tail == [] then null else (mid + tail)[0]) == (if tail == [] then null else tail[0])
    ensures mid == [] && mid + tail == tail
  {
    var all := kept + (mid + tail);
    assert mid + tail != [] ==> all[|kept|] == (mid + tail)[0];
    assert tail != [] ==> all[|kept| + |mid|] == tail[0];
  }

  /** Unlinks the one node `x` and gives it back. */
  method EraseNodeIn<K, V>(head: Node<K, V>, x: Node<K, V>, ghost c: seq<Node<K, V>>, ghost i: nat)
    returns (head': Node?<K, V>, ghost dead: set<Node<K, V>>)
    requires Linked(head, c) && Distinct(c) && i < |c| && c[i] == x
    modifies SetOf(c)
    ensures Linked(head', c[..i] + c[i + 1..]) && dead == {x}
  {
    dead := {};
    if head == x {
      assert c[0] == c[i];
      LinkTail(head, c);
      assert c[..0] + c[1..] == c[1..];
      head' := NextOf(head, dead);
    } else {
      var cur := Predecessor(head, x, c, i);
      UnlinkAfter(head, cur, c, i - 1, dead);
      head' := head;
    }
    dead := dead + {x};
  }

  // ----- copying and comparing chains -----

  /** Copies a chain node by node, in order. */
  method CopyChain<K, V>(head: Node?<K, V>, ghost c: seq<Node<K, V>>)
    returns (copy: Node?<K, V>, ghost c': seq<Node<K, V>>)
    requires Linked(head, c)
    ensures Linked(copy, c') && Distinct(c') && Vals(c') == Vals(c)
    ensures forall x | x in c' :: fresh(x)
  {
    copy, c' := null, [];
    if head != null {
      var local := new Node(head.val);
      copy, c' := local, [local];
      var next := head.next;
      while next != null
        invariant 0 < |c'| <= |c| && AtNode(c, |c'|, next) && local == c'[|c'| - 1]
        invariant Linked(copy, c') && Distinct(c') && forall i | 0 <= i < |c'| :: c'[i].val == c[i].val
        invariant Linked(head, c) && forall x | x in c' :: fresh(x)
        decreases |c| - |c'|
      {
        assert next == c[|c'|] && local in c';
        var r := AppendCopy(copy, local, next.val, c');
        c', local, next := c' + [r], r, next.next;
      }
    }
  }

  /** Links a fresh node behind the last one. */
  method AppendCopy<K, V>(head: Node?<K, V>, last: Node<K, V>, val: Entry<K, V>, ghost c: seq<Node<K, V>>) returns (r: Node<K, V>)
    requires Linked(head, c) && Distinct(c) && c != [] && last == c[|c| - 1]
    modifies last
    ensures fresh(r) && r.val == val && Linked(head, c + [r]) && Distinct(c + [r])
  {
    r := new Node(val);
    ghost var n := |c|;
    assert c[..n] + [r] + c[n..] == c + [r];
    SpliceAfter(head, last, r, c, n - 1);
  }

  method SameLength<K, V>(h1: Node?<K, V>, h2: Node?<K, V>, ghost c1: seq<Node<K, V>>, ghost c2: seq<Node<K, V>>)
    returns (b: bool)
    requires Linked(h1, c1) && Linked(h2, c2)
    ensures b == (|c1| == |c2|)
  {
    var cur1, cur2 := h1, h2;
    ghost var i := 0;
    while cur1 != null && cur2 != null
      invariant AtNode(c1, i, cur1) && AtNode(c2, i, cur2)
      decreases |c1| - i
    {
      assert cur1 == c1[i] && cur2 == c2[i];
      cur1, cur2, i := cur1.next, cur2.next, i + 1;
    }
    b := !(cur1 != null || cur2 != null);
  }

  method FindValue<K(==), V(==)>(h: Node?<K, V>, v: Entry<K, V>, ghost c: seq<Node<K, V>>) returns (found: bool)
    requires Linked(h, c)
    ensures found == (v in Vals(c))
  {
    var cur := h;
    found := false;
    ghost var i := 0;
    while cur != null
      invariant AtNode(c, i, cur) && !found
      invariant forall x | 0 <= x < i :: Vals(c)[x] != v
      decreases |c| - i
    {
      assert cur == c[i] && Vals(c)[i] == cur.val;
      if v == cur.val {
        found := true;
        break;
      }
      cur, i := cur.next, i + 1;
    }
  }

  method CoveredBy<K(==), V(==)>(h1: Node?<K, V>, h2: Node?<K, V>, ghost c1: seq<Node<K, V>>, ghost c2: seq<Node<K, V>>)
    returns (b: bool)
    requires Linked(h1, c1) && Linked(h2, c2)
    ensures b == Covers(Vals(c1), Vals(c2))
  {
    b := SameLength(h1, h2, c1, c2);
    if !b {
      return;
    }
    var cur := h1;
    ghost var i := 0;
    while cur != null
      invariant AtNode(c1, i, cur)
      invariant forall x | 0 <= x < i :: Vals(c1)[x] in Vals(c2)
      decreases |c1| - i
    {
      assert cur == c1[i] && Vals(c1)[i] == cur.val;
      var found := FindValue(h2, cur.val, c2);
      if !found {
        return false;
      }
      cur, i := cur.next, i + 1;
    }
  }
}
