/** The singly linked list's node surgery: reversing and splicing what follows a node, in place. */
module ForwardList {
  import opened Chains
  import opened Reversal

  class ListNode {
    var next: ListNode?

    constructor ()
      ensures next == null
    {
      next := null;
    }
  }

  function FirstOf(s: seq<ListNode>): ListNode? {
    if s == [] then null else s[0]
  }

  /** Each node of `s` links to the following one, and the last to `after`. */
  ghost predicate Links(s: seq<ListNode>, after: ListNode?)
    reads s
  {
    forall i {:trigger s[i].next} | 0 <= i < |s| :: s[i].next == if i + 1 < |s| then s[i + 1] else after
  }

  /** A list ends somewhere, and no node occurs in it twice. */
  ghost predicate List(s: seq<ListNode>)
    reads s
  {
    Distinct(s) && Links(s, null)
  }

  /** Moves the node behind `tail` to the front of the list that starts behind `h`. */
  method MoveToFront(h: ListNode, tail: ListNode, temp: ListNode, ghost done: seq<ListNode>, ghost rest: seq<ListNode>)
    requires List([h] + done + rest) && done != [] && tail == done[|done| - 1] && rest != [] && temp == rest[0]
    modifies h, tail, temp
    ensures List([h] + ([temp] + done) + rest[1..])
  {
    ghost var s := [h] + done + rest;
    ghost var s' := [h] + ([temp] + done) + rest[1..];
    assert s[0] == h && s[|done|] == tail && s[|done| + 1] == temp;
    assert forall i | 2 <= i <= |done| + 1 :: s'[i] == s[i - 1];
    assert forall i | |done| + 2 <= i < |s| :: s'[i] == s[i];
    assert h.next == done[0] by {
      assert s[1] == done[0];
    }
    var keep := h.next;
    h.next := temp;
    tail.next := temp.next;
    h.next.next := keep;
    forall i | 0 <= i < |s'|
      ensures s'[i].next == if i + 1 < |s'| then s'[i + 1] else null
    {
      if 2 <= i <= |done| {
        assert s'[i] == s[i - 1] && s[i - 1] != tail && s[i - 1] != h && s[i - 1] != temp;
      }
    }
  }

  /** Reverses the list behind `h` using the same nodes. */
  method ReverseAfter(h: ListNode, ghost c: seq<ListNode>)
    requires List([h] + c)
    modifies h, SetOf(c)
    ensures List([h] + Reverse(c))
  {
    var tail := h.next;
    assert tail == ([h] + c)[0].next;
    assert tail == if c == [] then null else c[0];
    if tail == null {
      assert Reverse(c) == c;
      return;
    }
    assert tail.next == ([h] + c)[1].next;
    ghost var j := 1;
    assert c[..1] == [c[0]] && Reverse(c[..1]) == [c[0]];
    assert [h] + Reverse(c[..1]) + c[1..] == [h] + c;
    var temp := tail.next;
    while temp != null
      invariant 1 <= j <= |c| && tail == c[0]
      invariant List([h] + Reverse(c[..j]) + c[j..])
      invariant temp == if j < |c| then c[j] else null
      decreases |c| - j
    {
      ghost var done := Reverse(c[..j]);
      ReverseAt(c[..j], j - 1);
      MoveToFront(h, tail, temp, done, c[j..]);
      assert c[..j + 1] == c[..j] + [c[j]];
      ReverseAppend(c[..j], c[j]);
      assert c[j..][1..] == c[j + 1..];
      j := j + 1;
      ReverseAt(c[..j], j - 1);
      assert ([h] + Reverse(c[..j]) + c[j..])[j] == tail;
      temp := tail.next;
    }
    assert c[..j] == c && c[j..] == [] && [h] + Reverse(c) + [] == [h] + Reverse(c);
  }

  /** Reversing twice puts every node back. */
  method ReverseAfterTwice(h: ListNode, ghost c: seq<ListNode>)
    requires List([h] + c)
    modifies h, SetOf(c)
    ensures List([h] + c)
  {
    ReverseAfter(h, c);
    ReverseSame(c);
    ReverseAfter(h, Reverse(c));
    ReverseTwice(c);
  }

  lemma ReverseSame(s: seq<ListNode>)
    ensures SetOf(Reverse(s)) == SetOf(s)
  {
    ReverseKeeps(s);
    assert forall x | x in Reverse(s) :: x in multiset(s);
    assert forall x | x in s :: x in multiset(Reverse(s));
  }

  // ----- splicing -----

  /** Splices the nodes behind `begin` up to and including `end` behind `h`; with no end, all of them. */
  method TransferAfter(h: ListNode, begin: ListNode, end: ListNode?) returns (r: ListNode?)
    requires end != h && end != begin
    modifies h, begin, end
    ensures r == end && h.next == old(begin.next)
    ensures begin != h ==> begin.next == if end == null then null else old(end.next)
    ensures end != null ==> end.next == old(if begin == h then end.next else h.next)
  {
    var keep := begin.next;
    if end != null {
      begin.next := end.next;
      end.next := h.next;
    } else {
      begin.next := null;
    }
    h.next := keep;
    r := end;
  }

  lemma ApartDistinct<T>(h: T, t: seq<T>, begin: T, seg: seq<T>, rest: seq<T>)
    requires Distinct([h] + t + [begin] + seg + rest)
    ensures Distinct([h] + seg + t) && Distinct([begin] + rest)
  {
    assert [h] + t + [begin] + seg + rest == [h] + t + [begin] + (seg + rest);
    DropDistinct([h] + t, [begin], seg + rest);
    assert [h] + t + (seg + rest) == [h] + t + seg + rest + [];
    DropDistinct([h] + t + seg, rest, []);
    assert [h] + t + seg + [] == [h] + t + seg && [h] + seg + t + [] == [h] + seg + t;
    SwapDistinct(h, t, seg, []);
    assert [h] + t + [begin] + seg + rest == [] + ([h] + t) + ([begin] + seg + rest);
    DropDistinct([], [h] + t, [begin] + seg + rest);
    assert [] + ([begin] + seg + rest) == [begin] + seg + rest;
    DropDistinct([begin], seg, rest);
  }

  lemma DropDistinct<T>(a: seq<T>, x: seq<T>, b: seq<T>)
    requires Distinct(a + x + b)
    ensures Distinct(a + b)
  {
    assert forall i | 0 <= i < |a + b| :: (a + b)[i] == (a + x + b)[if i < |a| then i else i + |x|];
  }

  lemma SwapDistinct<T>(a: T, x: seq<T>, y: seq<T>, b: seq<T>)
    requires Distinct([a] + x + y + b)
    ensures Distinct([a] + y + x + b)
  {
    var s, s' := [a] + x + y + b, [a] + y + x + b;
    assert forall i | 0 <= i < |s'| ::
        s'[i] == s[if 1 <= i <= |y| then i + |x| else if |y| < i <= |y| + |x| then i - |y| else i];
  }

  lemma Unchain(h: ListNode, s: seq<ListNode>, t: seq<ListNode>)
    requires List([h] + s + t)
    ensures h.next == FirstOf(s + t) && Links(s, FirstOf(t)) && Links(t, null)
  {
    var all := [h] + s + t;
    assert all[0] == h && all[1..] == s + t;
    forall i | 0 <= i < |s| ensures s[i].next == if i + 1 < |s| then s[i + 1] else FirstOf(t) {
      assert all[i + 1] == s[i];
    }
    forall i | 0 <= i < |t| ensures t[i].next == if i + 1 < |t| then t[i + 1] else null {
      assert all[i + 1 + |s|] == t[i];
    }
  }

  lemma Rechain(h: ListNode, s: seq<ListNode>, t: seq<ListNode>)
    requires Distinct([h] + s + t) && h.next == FirstOf(s + t) && Links(s, FirstOf(t)) && Links(t, null)
    ensures List([h] + s + t)
  {
    var all := [h] + s + t;
    forall i | 0 <= i < |all| ensures all[i].next == if i + 1 < |all| then all[i + 1] else null {
      if 1 <= i <= |s| {
        assert all[i] == s[i - 1];
      } else if i > |s| {
        assert all[i] == t[i - 1 - |s|];
      }
    }
  }

  /** The nodes that a splice between two lists writes to are three different ones. */
  lemma ApartNodes(h: ListNode, t: seq<ListNode>, begin: ListNode, seg: seq<ListNode>, rest: seq<ListNode>)
    requires Distinct([h] + t + [begin] + seg + rest) && seg != []
    ensures h !in seg && h !in t && h !in rest && begin !in seg && begin !in t && begin !in rest && h != begin
    ensures seg[|seg| - 1] !in t && seg[|seg| - 1] !in rest && seg[|seg| - 1] !in seg[..|seg| - 1]
  {
    var all, n := [h] + t + [begin] + seg + rest, |t| + 1;
    assert all[0] == h && all[n] == begin && all[n + |seg|] == seg[|seg| - 1];
    assert forall i | 0 <= i < |t| :: all[i + 1] == t[i];
    assert forall i | 0 <= i < |seg| :: all[n + 1 + i] == seg[i];
    assert forall i | 0 <= i < |rest| :: all[n + 1 + |seg| + i] == rest[i];
  }

  /** Between two lists: the stretch goes behind `h`, both remainders stay as they were. */
  method TransferApart(h: ListNode, begin: ListNode, end: ListNode,
                       ghost t: seq<ListNode>, ghost seg: seq<ListNode>, ghost rest: seq<ListNode>)
    requires List([h] + t) && List([begin] + seg + rest) && Distinct([h] + t + [begin] + seg + rest)
    requires seg != [] && end == seg[|seg| - 1]
    modifies h, begin, end
    ensures List([h] + seg + t) && List([begin] + rest)
  {
    assert [h] + t == [h] + t + [] && [begin] + rest == [begin] + rest + [];
    Unchain(h, t, []);
    Unchain(begin, seg, rest);
    ApartDistinct(h, t, begin, seg, rest);
    ApartNodes(h, t, begin, seg, rest);
    var r := TransferAfter(h, begin, end);
    Rechain(h, seg, t);
    Rechain(begin, rest, []);
  }

  lemma LinksConcat(a: seq<ListNode>, b: seq<ListNode>, after: ListNode?)
    ensures Links(a + b, after) <==> Links(a, if b == [] then after else b[0]) && Links(b, after)
  {
    assert forall i | 0 <= i < |a| :: (a + b)[i] == a[i];
    assert forall i | 0 <= i < |b| :: (a + b)[|a| + i] == b[i];
  }

  lemma UnchainThree(h: ListNode, a: seq<ListNode>, b: seq<ListNode>, c: seq<ListNode>)
    requires List([h] + a + b + c) && a != [] && b != []
    ensures h.next == a[0] && Links(a, b[0]) && Links(b, FirstOf(c)) && Links(c, null)
  {
    assert [h] + a + b + c == [h] + a + (b + c);
    Unchain(h, a, b + c);
    LinksConcat(b, c, null);
  }

  lemma RechainThree(h: ListNode, a: seq<ListNode>, b: seq<ListNode>, c: seq<ListNode>)
    requires Distinct([h] + a + b + c) && a != [] && b != []
    requires h.next == a[0] && Links(a, b[0]) && Links(b, FirstOf(c)) && Links(c, null)
    ensures List([h] + a + b + c)
  {
    assert [h] + a + b + c == [h] + a + (b + c);
    LinksConcat(b, c, null);
    Rechain(h, a, b + c);
  }

  /** The nodes that a splice within one list writes to are three different ones. */
  lemma LastApart<T>(h: T, a: seq<T>, b: seq<T>, c: seq<T>)
    requires Distinct([h] + a + b + c) && a != [] && b != []
    ensures h !in a && h !in b && h !in c
    ensures a[|a| - 1] !in a[..|a| - 1] && a[|a| - 1] !in b && a[|a| - 1] !in c
    ensures b[|b| - 1] !in a && b[|b| - 1] !in b[..|b| - 1] && b[|b| - 1] !in c
  {
    var all := [h] + a + b + c;
    assert all[0] == h && all[|a|] == a[|a| - 1] && all[|a| + |b|] == b[|b| - 1];
    assert forall i | 0 <= i < |a| :: all[i + 1] == a[i];
    assert forall i | 0 <= i < |b| :: all[1 + |a| + i] == b[i];
    assert forall i | 0 <= i < |c| :: all[1 + |a| + |b| + i] == c[i];
  }

  /** Within one list, forwards to an earlier place. */
  method TransferForward(h: ListNode, begin: ListNode, end: ListNode,
                         ghost mid: seq<ListNode>, ghost seg: seq<ListNode>, ghost rest: seq<ListNode>)
    requires List([h] + (mid + [begin]) + seg + rest)
    requires seg != [] && end == seg[|seg| - 1]
    modifies h, begin, end
    ensures List([h] + seg + (mid + [begin]) + rest)
  {
    ghost var m := mid + [begin];
    UnchainThree(h, m, seg, rest);
    SwapDistinct(h, m, seg, rest);
    LastApart(h, m, seg, rest);
    var r := TransferAfter(h, begin, end);
    RechainThree(h, seg, m, rest);
  }

  /** Within one list, to a later place. */
  method TransferBackward(h: ListNode, begin: ListNode, end: ListNode,
                          ghost seg: seq<ListNode>, ghost mid: seq<ListNode>, ghost t: seq<ListNode>)
    requires List([begin] + seg + (mid + [h]) + t)
    requires seg != [] && end == seg[|seg| - 1]
    modifies h, begin, end
    ensures List([begin] + (mid + [h]) + seg + t)
  {
    ghost var m := mid + [h];
    UnchainThree(begin, seg, m, t);
    SwapDistinct(begin, seg, m, t);
    LastApart(begin, seg, m, t);
    var r := TransferAfter(h, begin, end);
    RechainThree(begin, m, seg, t);
  }

  /** Splicing a stretch to where it already stands changes no link at all. */
  method TransferNowhere(h: ListNode, end: ListNode?, ghost seg: seq<ListNode>, ghost rest: seq<ListNode>)
    requires List([h] + seg + rest)
    requires if end == null then rest == [] else seg != [] && end == seg[|seg| - 1]
    modifies h, end
    ensures List([h] + seg + rest) && h.next == old(h.next) && (end != null ==> end.next == old(end.next))
  {
    ghost var s := [h] + seg + rest;
    assert s[0] == h && (end != null ==> s[|seg|] == end);
    var r := TransferAfter(h, h, end);
  }

  /** With no end, everything behind `begin` replaces what was behind `h`. */
  method TransferAll(h: ListNode, begin: ListNode, ghost t: seq<ListNode>, ghost seg: seq<ListNode>)
    requires List([h] + t) && List([begin] + seg) && Distinct([h] + t + [begin] + seg)
    modifies h, begin
    ensures List([h] + seg) && List([begin]) && List(t)
  {
    ghost var all, n := [h] + t + [begin] + seg, |t| + 1;
    ghost var s, u, s' := [begin] + seg, [h] + t, [h] + seg;
    assert forall i | 0 <= i < |s| :: s[i] == all[n + i];
    assert forall i | 0 <= i < |u| :: u[i] == all[i];
    assert forall i | 0 <= i < |t| :: t[i] == u[i + 1];
    assert s[0] == begin && u[0] == h;
    assert begin.next == if seg == [] then null else s[1];
    var r := TransferAfter(h, begin, null);
    assert forall i | 1 <= i < |s'| :: s'[i] == s[i];
    forall i | 0 <= i < |s'|
      ensures s'[i].next == if i + 1 < |s'| then s'[i + 1] else null
    {
      assert i >= 1 ==> s[i].next == if i + 1 < |s| then s[i + 1] else null;
    }
    forall i | 0 <= i < |t|
      ensures t[i].next == if i + 1 < |t| then t[i + 1] else null
    {
      assert u[i + 1] == t[i] && u[i + 1].next == if i + 2 < |u| then u[i + 2] else null;
    }
  }

  /** So a splice with no end keeps all nodes reachable exactly when nothing was behind `h`. */
  lemma TransferAllKeepsNodes(h: ListNode, begin: ListNode, t: seq<ListNode>, seg: seq<ListNode>)
    requires Distinct([h] + t + [begin] + seg)
    ensures SetOf([h] + seg) + SetOf([begin]) == SetOf([h] + t) + SetOf([begin] + seg) <==> t == []
  {
    var all := [h] + t + [begin] + seg;
    if t != [] {
      assert all[1] == t[0] && t[0] in SetOf([h] + t);
      assert forall i | 0 <= i < |all| && i != 1 :: all[i] != t[0];
      assert all[0] == h && all[|t| + 1] == begin;
      assert forall i | 0 <= i < |seg| :: seg[i] == all[|t| + 2 + i];
    }
  }

  /** With no end and `begin` further down the list of `h`: what stood between is cut off. */
  method TransferAllForward(h: ListNode, begin: ListNode, ghost mid: seq<ListNode>, ghost seg: seq<ListNode>)
    requires List([h] + (mid + [begin]) + seg)
    modifies h, begin
    ensures List([h] + seg) && List(mid + [begin])
  {
    ghost var m := mid + [begin];
    ghost var s, s' := [h] + m + seg, [h] + seg;
    Pieces([h], m, seg);
    assert s[0] == h && s[|m|] == begin && begin.next == if seg == [] then null else s[|m| + 1];
    var r := TransferAfter(h, begin, null);
    assert forall i | 1 <= i < |s'| :: s'[i] == s[i + |m|];
    assert forall i | 0 <= i < |m| :: m[i] == s[i + 1];
  }

  lemma Pieces<T>(a: seq<T>, b: seq<T>, c: seq<T>)
    requires Distinct(a + b + c)
    ensures Distinct(a + c) && Distinct(b) && Distinct(c)
  {
    DropDistinct(a, b, c);
    assert forall i | 0 <= i < |b| :: b[i] == (a + b + c)[|a| + i];
    assert forall i | 0 <= i < |c| :: c[i] == (a + b + c)[|a| + |b| + i];
  }

  /** From `h` and `begin` together all nodes are then still reached exactly when nothing stood between. */
  lemma TransferAllForwardKeepsNodes(h: ListNode, begin: ListNode, mid: seq<ListNode>, seg: seq<ListNode>)
    requires Distinct([h] + (mid + [begin]) + seg)
    ensures SetOf([h] + seg) + SetOf([begin]) == SetOf([h] + (mid + [begin]) + seg) <==> mid == []
  {
    var all := [h] + (mid + [begin]) + seg;
    if mid != [] {
      assert all[1] == mid[0] && mid[0] in SetOf(all);
      assert all[0] == h && all[|mid| + 1] == begin && forall i | 0 <= i < |seg| :: seg[i] == all[|mid| + 2 + i];
    } else {
      assert all == [h] + [begin] + seg;
    }
  }

  /** A ring does not: its last node links to its first. */
  ghost predicate Ring(c: seq<ListNode>)
    reads c
  {
    c != [] && Distinct(c) && Links(c, c[0])
  }

  /** With no end and `h` further down the list of `begin`: the nodes up to `h` become a ring, which no end
      follows, and what was behind `h` is cut off. */
  method TransferAllBackward(h: ListNode, begin: ListNode, ghost mid: seq<ListNode>, ghost t: seq<ListNode>)
    requires List([begin] + (mid + [h]) + t)
    modifies h, begin
    ensures List([begin]) && Ring(mid + [h]) && List(t)
  {
    ghost var m := mid + [h];
    ghost var s := [begin] + m + t;
    Pieces([begin], m, t);
    assert s[0] == begin && s[1] == m[0] && s[|m|] == h && begin.next == s[1];
    var r := TransferAfter(h, begin, null);
    assert forall i | 0 <= i < |m| :: m[i] == s[i + 1];
    assert forall i | 0 <= i < |t| :: t[i] == s[i + 1 + |m|];
  }

  /** A splice with an end only rearranges: every layout keeps the same nodes. */
  lemma TransferKeepsNodes(h: ListNode, begin: ListNode, a: seq<ListNode>, seg: seq<ListNode>, b: seq<ListNode>)
    ensures multiset([h] + seg + a) + multiset([begin] + b) == multiset([h] + a) + multiset([begin] + seg + b)
    ensures multiset([h] + seg + (a + [begin]) + b) == multiset([h] + (a + [begin]) + seg + b)
    ensures multiset([begin] + (a + [h]) + seg + b) == multiset([begin] + seg + (a + [h]) + b)
  {
    SwapMultiset([h], seg, a + [begin], b);
    SwapMultiset([begin], a + [h], seg, b);
    assert multiset([h] + seg + a) == multiset([h]) + multiset(seg) + multiset(a);
    assert multiset([begin] + seg + b) == multiset([begin]) + multiset(seg) + multiset(b);
  }

  lemma SwapMultiset<T>(w: seq<T>, x: seq<T>, y: seq<T>, z: seq<T>)
    ensures multiset(w + x + y + z) == multiset(w + y + x + z)
  {
    assert multiset(w + x + y + z) == multiset(w) + multiset(x) + multiset(y) + multiset(z);
    assert multiset(w + y + x + z) == multiset(w) + multiset(y) + multiset(x) + multiset(z);
  }
}
