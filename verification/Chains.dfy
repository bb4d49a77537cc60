/** Bucket chains of the hash table: the node, what it means for a chain of nodes to be
    linked in memory, and the sequences of nodes the table's operations are specified by. */
module Chains {

  /** A stored value. The table's key extractor is the projection to `key`. */
  datatype Entry<K, V> = Entry(key: K, mapped: V)

  class Node<K, V> {
    const val: Entry<K, V>
    var next: Node?<K, V>

    constructor (val: Entry<K, V>)
      ensures this.val == val && next == null
    {
      this.val := val;
      next := null;
    }
  }

  /** Following `next` from `head` visits exactly the nodes of `c`, then stops. */
  ghost predicate Linked<K, V>(head: Node?<K, V>, c: seq<Node<K, V>>)
    reads c
  {
    && head == (if c == [] then null else c[0])
    && forall i {:trigger c[i].next} | 0 <= i < |c| :: c[i].next == if i + 1 < |c| then c[i + 1] else null
  }

  lemma LinkFront<K, V>(r: Node<K, V>, c: seq<Node<K, V>>)
    requires Linked(r.next, c)
    ensures Linked(r, [r] + c)
  {
    var d := [r] + c;
    forall i | 0 <= i < |d|
      ensures d[i].next == if i + 1 < |d| then d[i + 1] else null
    {
      assert i > 0 ==> d[i].next == c[i - 1].next;
    }
  }

  // ----- one chain -----

  ghost function SetOf<T>(s: seq<T>): set<T> {
    set x | x in s
  }

  ghost function Vals<K, V>(s: seq<Node<K, V>>): seq<Entry<K, V>> {
    seq(|s|, i requires 0 <= i < |s| => s[i].val)
  }

  ghost predicate Distinct<T>(s: seq<T>) {
    forall i, j | 0 <= i < j < |s| :: s[i] != s[j]
  }

  ghost predicate HasKey<K, V>(c: seq<Node<K, V>>, k: K) {
    exists i | 0 <= i < |c| :: c[i].val.key == k
  }

  /** The nodes holding key `k`, in order. */
  ghost function Only<K, V>(c: seq<Node<K, V>>, k: K): seq<Node<K, V>> {
    if c == [] then []
    else if c[0].val.key == k then [c[0]] + Only(c[1..], k)
    else Only(c[1..], k)
  }

  /** The nodes holding other keys, in order. */
  ghost function Without<K, V>(c: seq<Node<K, V>>, k: K): seq<Node<K, V>> {
    if c == [] then []
    else if c[0].val.key == k then Without(c[1..], k)
    else [c[0]] + Without(c[1..], k)
  }

  /** Equally long, and every value of the first somewhere in the second. */
  ghost predicate Covers<T>(v1: seq<T>, v2: seq<T>) {
    |v1| == |v2| && forall v | v in v1 :: v in v2
  }

  /** Where the first node with key `k` stands. */
  ghost function FirstAt<K, V>(c: seq<Node<K, V>>, k: K): (i: nat)
    ensures i <= |c| && (i < |c| ==> c[i].val.key == k)
    ensures forall x | 0 <= x < i :: c[x].val.key != k
  {
    if c == [] || c[0].val.key == k then 0 else 1 + FirstAt(c[1..], k)
  }

  /** The chain with `r` behind the first node that has its key, or in front if there is none. */
  ghost function Inserted<K, V>(c: seq<Node<K, V>>, r: Node<K, V>): seq<Node<K, V>> {
    var i := FirstAt(c, r.val.key);
    if i == |c| then [r] + c else c[..i + 1] + [r] + c[i + 1..]
  }

  ghost predicate StartsRun<K, V>(c: seq<Node<K, V>>, j: nat)
    requires j < |c|
  {
    j == 0 || c[j - 1].val.key != c[j].val.key
  }

  /** Equal keys are contiguous: no key starts a second run. */
  ghost predicate Grouped<K, V>(c: seq<Node<K, V>>) {
    forall i, j | 0 <= i < j < |c| && StartsRun(c, j) :: c[i].val.key != c[j].val.key
  }

  lemma {:induction false} OnlyConcat<K, V>(a: seq<Node<K, V>>, b: seq<Node<K, V>>, k: K)
    ensures Only(a + b, k) == Only(a, k) + Only(b, k)
    ensures Without(a + b, k) == Without(a, k) + Without(b, k)
  {
    if a == [] {
      assert a + b == b;
    } else {
      assert (a + b)[1..] == a[1..] + b;
      OnlyConcat(a[1..], b, k);
    }
  }

  lemma {:induction false} OnlyAll<K, V>(c: seq<Node<K, V>>, k: K)
    requires forall i | 0 <= i < |c| :: c[i].val.key == k
    ensures Only(c, k) == c && Without(c, k) == []
  {
    if c != [] {
      OnlyAll(c[1..], k);
    }
  }

  lemma {:induction false} OnlyAbsent<K, V>(c: seq<Node<K, V>>, k: K)
    ensures Only(c, k) == [] <==> !HasKey(c, k)
    ensures !HasKey(c, k) ==> Without(c, k) == c
  {
    if c != [] {
      assert HasKey(c, k) <==> c[0].val.key == k || HasKey(c[1..], k) by {
        assert forall i | 0 < i < |c| :: c[i] == c[1..][i - 1];
      }
      OnlyAbsent(c[1..], k);
    }
  }

  /** The first node with key `k` heads the list of them. */
  lemma {:induction false} OnlyFrom<K, V>(c: seq<Node<K, V>>, i: nat, k: K)
    requires i <= |c| && forall x | 0 <= x < i :: c[x].val.key != k
    requires i < |c| ==> c[i].val.key == k
    ensures Only(c, k) == Only(c[i..], k)
    ensures if i < |c| then Only(c, k) != [] && Only(c, k)[0] == c[i] else Only(c, k) == []
  {
    assert c == c[..i] + c[i..];
    OnlyConcat(c[..i], c[i..], k);
    OnlyAbsent(c[..i], k);
  }

  lemma {:induction false} OnlyStep<K, V>(c: seq<Node<K, V>>, i: nat, k: K)
    requires i < |c|
    ensures Only(c[..i + 1], k) == Only(c[..i], k) + if c[i].val.key == k then [c[i]] else []
    ensures Without(c[..i + 1], k) == Without(c[..i], k) + if c[i].val.key == k then [] else [c[i]]
  {
    assert c[..i + 1] == c[..i] + [c[i]];
    OnlyConcat(c[..i], [c[i]], k);
  }

  /** In a grouped chain the run that starts at the first node with key `k` is all there is. */
  lemma {:induction false} RunIsAll<K, V>(c: seq<Node<K, V>>, i: nat, j: nat, k: K)
    requires Grouped(c) && i < j <= |c|
    requires !HasKey(c[..i], k)
    requires forall m | i <= m < j :: c[m].val.key == k
    requires j < |c| ==> c[j].val.key != k
    ensures Only(c, k) == c[i..j]
    ensures Without(c, k) == c[..i] + c[j..]
  {
    AbsentPastRun(c, i, j, k);
    OnlyMiddle(c[..i], c[i..j], c[j..], k);
    assert c == c[..i] + c[i..j] + c[j..];
  }

  lemma {:induction false} OnlyMiddle<K, V>(a: seq<Node<K, V>>, m: seq<Node<K, V>>, b: seq<Node<K, V>>, k: K)
    requires !HasKey(a, k) && !HasKey(b, k) && forall i | 0 <= i < |m| :: m[i].val.key == k
    ensures Only(a + m + b, k) == m && Without(a + m + b, k) == a + b
  {
    OnlyConcat(a + m, b, k);
    OnlyConcat(a, m, k);
    OnlyAll(m, k);
    OnlyAbsent(a, k);
    OnlyAbsent(b, k);
  }

  lemma AbsentPastRun<K, V>(c: seq<Node<K, V>>, i: nat, j: nat, k: K)
    requires Grouped(c) && i < j <= |c| && c[i].val.key == k
    requires j < |c| ==> c[j].val.key != k
    ensures !HasKey(c[j..], k)
  {
    var m := j;
    while m < |c|
      invariant j <= m <= |c|
      invariant forall x | j <= x < m :: c[x].val.key != k
    {
      assert m > j ==> StartsRun(c, m) || c[m].val.key == c[m - 1].val.key;
      m := m + 1;
    }
  }

  /** Putting a node in front keeps the chain grouped when its key is new or leads the chain. */
  lemma PushGrouped<K, V>(n: Node<K, V>, c: seq<Node<K, V>>)
    requires Grouped(c)
    requires !HasKey(c, n.val.key) || (c != [] && c[0].val.key == n.val.key)
    ensures Grouped([n] + c)
  {
    var d := [n] + c;
    forall i, j | 0 <= i < j < |d| && StartsRun(d, j)
      ensures d[i].val.key != d[j].val.key
    {
      assert d[j] == c[j - 1];
      if j == 1 {
      } else {
        assert d[j - 1] == c[j - 2];
        assert StartsRun(c, j - 1);
        if i > 0 {
          assert d[i] == c[i - 1];
        } else if HasKey(c, n.val.key) {
          assert c[0].val.key == n.val.key;
        }
      }
    }
  }

  /** Inserting right after a node with the same key keeps the chain grouped. */
  lemma InsertAfterGrouped<K, V>(c: seq<Node<K, V>>, p: nat, n: Node<K, V>)
    requires Grouped(c) && p < |c| && c[p].val.key == n.val.key
    ensures Grouped(c[..p + 1] + [n] + c[p + 1..])
  {
    var d := c[..p + 1] + [n] + c[p + 1..];
    assert forall i | 0 <= i <= p :: d[i] == c[i];
    assert forall i | p + 2 <= i < |d| :: d[i] == c[i - 1];
    forall i, j | 0 <= i < j < |d| && StartsRun(d, j)
      ensures d[i].val.key != d[j].val.key
    {
      if j <= p {
        assert StartsRun(c, j);
      } else {
        assert d[p + 1] == n;
        assert StartsRun(c, j - 1);
      }
    }
  }

  /** A part of a grouped chain is grouped. */
  lemma SliceGrouped<K, V>(c: seq<Node<K, V>>, i: nat, j: nat)
    requires Grouped(c) && i <= j <= |c|
    ensures Grouped(c[i..j])
  {
    var d := c[i..j];
    forall x, y | 0 <= x < y < |d| && StartsRun(d, y)
      ensures d[x].val.key != d[y].val.key
    {
      assert StartsRun(c, i + y);
      assert d[x] == c[i + x];
    }
  }

  /** Cutting a stretch out of a grouped chain leaves it grouped. */
  lemma CutGrouped<K, V>(c: seq<Node<K, V>>, i: nat, j: nat)
    requires Grouped(c) && i <= j <= |c|
    ensures Grouped(c[..i] + c[j..])
  {
    var d := c[..i] + c[j..];
    forall x, y | 0 <= x < y < |d| && StartsRun(d, y)
      ensures d[x].val.key != d[y].val.key
    {
      var y' := if y < i then y else y - i + j;
      var x' := if x < i then x else x - i + j;
      assert d[y] == c[y'] && d[x] == c[x'];
      var z := if y - 1 < i then y - 1 else y - 1 - i + j;
      assert d[y - 1] == c[z] && x' <= z <= y';
      if d[x].val.key == d[y].val.key {
        RunBetween(c, x', y');
      }
    }
  }

  /** Between two nodes with equal keys every key is that key. */
  lemma RunBetween<K, V>(c: seq<Node<K, V>>, x: nat, y: nat)
    requires Grouped(c) && x <= y < |c| && c[x].val.key == c[y].val.key
    ensures forall m | x <= m <= y :: c[m].val.key == c[x].val.key
  {
    var m := y;
    while m > x
      invariant x <= m <= y
      invariant forall q | m <= q <= y :: c[q].val.key == c[x].val.key
    {
      assert !StartsRun(c, m);
      m := m - 1;
    }
  }
}
