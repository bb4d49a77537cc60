/** Runs of string operations: the strings behave like plain texts with allocators, and the heap
    holds exactly the buffers that some string owns. */
module StringRuns {
  import opened StringStorage

  // ----- what one operation does to the strings it names -----

  /** What a string is to its user. */
  datatype View = View(text: string, alloc: Alloc)

  /** An operation on a first and a second string. Those of the first row construct the second. */
  datatype Act =
    | Make(text: string, a: Alloc) | Copy(a: Alloc) | Move | MoveWith(a: Alloc) | MovePart(pos: nat, n: nat, a: Alloc)
    | MoveAssign | CopyAssign | Append(from: nat, n: nat) | Exchange

  predicate Constructs(act: Act) {
    act.Make? || act.Copy? || act.Move? || act.MoveWith? || act.MovePart?
  }

  /** The operation can be asked for, and does not throw. */
  predicate Succeeds(k: Kind, act: Act, s: View, t: View) {
    match act
    case Make(text, _) => |text| <= k.maxSize
    case MovePart(pos, _, _) => pos <= |s.text|
    case Append(from, n) => from + n <= |t.text| && |s.text| + n <= k.maxSize
    case Exchange => k.onSwap || Same(k, s.alloc, t.alloc)
    case _ => true
  }

  function Part(text: string, pos: nat, n: nat): string
    requires pos <= |text|
  {
    text[pos..pos + if n < |text| - pos then n else |text| - pos]
  }

  function Emptied(v: View): View {
    v.(text := "")
  }

  /** What it means for texts and allocators. Only a move with an unequal allocator leaves open whether
      its source is emptied. `self` says that both strings are one. */
  predicate Effect(k: Kind, act: Act, self: bool, s: View, t: View, s': View, t': View)
    requires Succeeds(k, act, s, t)
  {
    match act
    case Make(text, a) => self && s' == t' == View(text, a)
    case Copy(a) => s' == s && t' == View(s.text, a)
    case Move => s' == Emptied(s) && t' == s
    case MoveWith(a) =>
      && t' == View(s.text, a)
      && (s' == Emptied(s) || (s' == s && !Same(k, s.alloc, a)))
    case MovePart(pos, n, a) =>
      var part := Part(s.text, pos, n);
      && t' == View(part, a)
      && s' == if |part| > LOCAL_CAPACITY && Same(k, s.alloc, a) then Emptied(s) else s
    case MoveAssign =>
      if self then s' == t' == Emptied(s)
      else s' == View(t.text, if k.onMove then t.alloc else s.alloc) && t' == Emptied(t)
    case CopyAssign =>
      if self then s' == t' == s
      else s' == View(t.text, if k.onCopy then t.alloc else s.alloc) && t' == t
    case Append(from, n) =>
      && s' == View(s.text + t.text[from..from + n], s.alloc)
      && t' == if self then s' else t
    case Exchange =>
      && s' == View(t.text, if k.onSwap then t.alloc else s.alloc)
      && t' == View(s.text, if k.onSwap then s.alloc else t.alloc)
  }

  // ----- where strings live, and who owns what -----

  /** Where a string keeps its characters: inside itself, or in a buffer of the heap. */
  datatype Place = Place(local: Buffer, data: Buffer)

  function OwnedAt(p: Place): set<Buffer> {
    if p.data == p.local then {} else {p.data}
  }

  predicate Disjoint(p: Place, q: Place) {
    p.local != q.local && p.data != q.data && p.data != q.local && p.local != q.data
  }

  datatype Item = Item(place: Place, view: View)

  datatype Ledger = Ledger(live: map<Buffer, Alloc>, taken: set<Buffer>)

  /** What the heap knows of a string: its inside is no heap buffer, its heap buffer is alive and from
      an allocator equal to its own. */
  predicate Backed(k: Kind, led: Ledger, it: Item) {
    && it.place.local !in led.taken
    && (it.place.data != it.place.local ==>
          it.place.data in led.live && Same(k, led.live[it.place.data], it.view.alloc))
  }

  /** The whole of what an operation did: to texts, to ownership, and to the heap. */
  ghost predicate Acted(k: Kind, act: Act, self: bool, s: Item, t: Item, led: Ledger, s': Item, t': Item, led': Ledger) {
    && Succeeds(k, act, s.view, t.view) && Effect(k, act, self, s.view, t.view, s'.view, t'.view)
    && s'.place.local == s.place.local && t'.place.local == t.place.local
    && (if self then s' == t' else Disjoint(s'.place, t'.place))
    && Backed(k, led', s') && Backed(k, led', t')
    && Settled(led.live, OwnedAt(s.place) + OwnedAt(t.place), led'.live, OwnedAt(s'.place) + OwnedAt(t'.place))
    && led.taken <= led'.taken && led'.live.Keys <= led'.taken
    && ((OwnedAt(s'.place) + OwnedAt(t'.place)) - (OwnedAt(s.place) + OwnedAt(t.place))) !! led.taken
  }

  ghost function ItemOf(s: Str): Item
    reads s, s.data
    requires s.length <= s.data.Length
  {
    Item(Place(s.local, s.data), View(s.Text(), s.alloc))
  }

  ghost function LedgerOf(h: Heap): Ledger
    reads h
  {
    Ledger(h.live, h.taken)
  }

  /** Move assignment does all that, and no more. */
  method ActMoveAssign(h: Heap, s: Str, t: Str)
    requires s.Valid(h) && t.Valid(h) && (s != t ==> s.Apart(t))
    modifies h, s, s.data, s.local, t, t.data, t.local
    ensures s.Valid(h) && t.Valid(h) && (s != t ==> s.Apart(t))
    ensures Acted(h.kind, MoveAssign, s == t, old(ItemOf(s)), old(ItemOf(t)), old(LedgerOf(h)), ItemOf(s), ItemOf(t), LedgerOf(h))
    ensures fresh(h.taken - old(h.taken))
  {
    s.MoveAssign(h, t);
  }

  /** So does copy assignment. */
  method ActCopyAssign(h: Heap, s: Str, t: Str)
    requires s.Valid(h) && t.Valid(h) && (s != t ==> s.Apart(t))
    modifies h, s, s.data, s.local, t, t.data, t.local
    ensures s.Valid(h) && t.Valid(h) && (s != t ==> s.Apart(t))
    ensures Acted(h.kind, CopyAssign, s == t, old(ItemOf(s)), old(ItemOf(t)), old(LedgerOf(h)), ItemOf(s), ItemOf(t), LedgerOf(h))
    ensures fresh(h.taken - old(h.taken))
  {
    s.Assign(h, t);
  }

  /** So does a swap. */
  method ActSwap(h: Heap, s: Str, t: Str)
    requires s.Valid(h) && t.Valid(h) && (s != t ==> s.Apart(t)) && (h.kind.onSwap || Same(h.kind, s.alloc, t.alloc))
    modifies h, s, s.data, s.local, t, t.data, t.local
    ensures s.Valid(h) && t.Valid(h) && (s != t ==> s.Apart(t))
    ensures Acted(h.kind, Exchange, s == t, old(ItemOf(s)), old(ItemOf(t)), old(LedgerOf(h)), ItemOf(s), ItemOf(t), LedgerOf(h))
    ensures fresh(h.taken - old(h.taken))
  {
    s.Swap(h, t);
  }

  /** What another string owns is not touched. */
  lemma SettledWith(before: map<Buffer, Alloc>, mine: set<Buffer>, after: map<Buffer, Alloc>, mine': set<Buffer>, more: set<Buffer>)
    requires Settled(before, mine, after, mine') && more <= before.Keys && more !! mine
    ensures Settled(before, mine + more, after, mine' + more)
  {
  }

  /** So does appending characters of another string. */
  method ActAppend(h: Heap, s: Str, t: Str, from: nat, n: nat)
    requires s.Valid(h) && t.Valid(h) && s.Apart(t) && s != t && from + n <= t.length && s.length + n <= h.kind.maxSize
    modifies h, s, s.data, s.local
    ensures s.Valid(h) && t.Valid(h) && s.Apart(t)
    ensures Acted(h.kind, Append(from, n), false, old(ItemOf(s)), old(ItemOf(t)), old(LedgerOf(h)), ItemOf(s), ItemOf(t), LedgerOf(h))
    ensures fresh(h.taken - old(h.taken))
  {
    assert t.data[from..from + n] == t.Text()[from..from + n];
    ghost var mine, more := OwnedAt(ItemOf(s).place), OwnedAt(ItemOf(t).place);
    var ok := s.AppendRange(h, t.data, from, n);
    SettledWith(old(h.live), mine, h.live, OwnedAt(ItemOf(s).place), more);
  }

  /** Or characters of the same string. */
  method ActAppendSelf(h: Heap, s: Str, from: nat, n: nat)
    requires s.Valid(h) && from + n <= s.length && s.length + n <= h.kind.maxSize
    modifies h, s, s.data, s.local
    ensures s.Valid(h)
    ensures Acted(h.kind, Append(from, n), true, old(ItemOf(s)), old(ItemOf(s)), old(LedgerOf(h)), ItemOf(s), ItemOf(s), LedgerOf(h))
    ensures fresh(h.taken - old(h.taken))
  {
    assert s.data[from..from + n] == s.Text()[from..from + n];
    var ok := s.AppendRange(h, s.data, from, n);
  }

  /** If the result would be too long, an exception is thrown and nothing happens. */
  method ActAppendFails(h: Heap, s: Str, t: Str, from: nat, n: nat) returns (ok: bool)
    requires s.Valid(h) && t.Valid(h) && (s != t ==> s.Apart(t)) && from + n <= t.length && s.length + n > h.kind.maxSize
    modifies h, s, s.data, s.local
    ensures !ok && s.Valid(h) && ItemOf(s) == old(ItemOf(s)) && LedgerOf(h) == old(LedgerOf(h))
  {
    ok := s.AppendRange(h, t.data, from, n);
  }

  // ----- construction -----

  /** A string about to be constructed. */
  function Unborn(local: Buffer): Item {
    Item(Place(local, local), View("", 0))
  }

  method ActMake(h: Heap, text: string, a: Alloc) returns (t: Str)
    requires h.Valid() && |text| <= h.kind.maxSize
    modifies h
    ensures fresh(t) && fresh(t.local) && t.Valid(h)
    ensures Acted(h.kind, Make(text, a), true, Unborn(t.local), Unborn(t.local), old(LedgerOf(h)), ItemOf(t), ItemOf(t), LedgerOf(h))
    ensures fresh(h.taken - old(h.taken))
  {
    t := new Str.FromText(h, text, a);
  }

  method ActCopy(h: Heap, s: Str, a: Alloc) returns (t: Str)
    requires s.Valid(h)
    modifies h
    ensures fresh(t) && fresh(t.local) && s.Valid(h) && t.Valid(h) && s.Apart(t)
    ensures Acted(h.kind, Copy(a), false, old(ItemOf(s)), Unborn(t.local), old(LedgerOf(h)), ItemOf(s), ItemOf(t), LedgerOf(h))
    ensures fresh(h.taken - old(h.taken))
  {
    t := new Str.CopyOf(h, s, a);
  }

  method ActMove(h: Heap, s: Str) returns (t: Str)
    requires s.Valid(h)
    modifies s, s.local
    ensures fresh(t) && fresh(t.local) && s.Valid(h) && t.Valid(h) && s.Apart(t)
    ensures Acted(h.kind, Move, false, old(ItemOf(s)), Unborn(t.local), LedgerOf(h), ItemOf(s), ItemOf(t), LedgerOf(h))
  {
    t := new Str.Moved(h, s);
  }

  method ActMoveWith(h: Heap, s: Str, a: Alloc) returns (t: Str)
    requires s.Valid(h)
    modifies h, s, s.local
    ensures fresh(t) && fresh(t.local) && s.Valid(h) && t.Valid(h) && s.Apart(t)
    ensures Acted(h.kind, MoveWith(a), false, old(ItemOf(s)), Unborn(t.local), old(LedgerOf(h)), ItemOf(s), ItemOf(t), LedgerOf(h))
    ensures fresh(h.taken - old(h.taken))
  {
    t := new Str.MovedWith(h, s, a);
  }

  method ActMovePart(h: Heap, s: Str, pos: nat, n: nat, a: Alloc) returns (t: Str)
    requires s.Valid(h) && pos <= s.length
    modifies h, s, s.local, s.data
    ensures fresh(t) && fresh(t.local) && s.Valid(h) && t.Valid(h) && s.Apart(t)
    ensures Acted(h.kind, MovePart(pos, n, a), false, old(ItemOf(s)), Unborn(t.local), old(LedgerOf(h)), ItemOf(s), ItemOf(t), LedgerOf(h))
    ensures fresh(h.taken - old(h.taken))
  {
    var limit := if n < s.length - pos then n else s.length - pos;
    ghost var part := s.Text()[pos..pos + limit];
    assert Part(s.Text(), pos, n) == part && |part| == limit;
    t := new Str.MovedPart(h, s, pos, limit, a);
    assert t.Text() == part;
    assert OwnedAt(old(ItemOf(s)).place) + OwnedAt(Unborn(t.local).place) == old(s.Owned());
  }

  /** Nothing is constructed, and nothing else happens, if the part would begin behind the end. */
  method TryMovePart(h: Heap, s: Str, pos: nat, n: nat, a: Alloc) returns (t: Str?)
    requires s.Valid(h)
    modifies h, s, s.local, s.data
    ensures s.Valid(h) && (t != null <==> pos <= old(s.length))
    ensures t != null ==> fresh(t) && fresh(t.local) && t.Valid(h) && s.Apart(t)
    ensures t != null ==> Acted(h.kind, MovePart(pos, n, a), false, old(ItemOf(s)), Unborn(t.local), old(LedgerOf(h)), ItemOf(s), ItemOf(t), LedgerOf(h))
    ensures t == null ==> ItemOf(s) == old(ItemOf(s)) && LedgerOf(h) == old(LedgerOf(h))
    ensures fresh(h.taken - old(h.taken))
  {
    if pos > s.length {
      return null;
    }
    t := ActMovePart(h, s, pos, n, a);
  }

  /** The end of a string. */
  method ActDestroy(h: Heap, s: Str)
    requires s.Valid(h)
    modifies h
    ensures LedgerOf(h) == Ledger(old(h.live) - OwnedAt(old(ItemOf(s)).place), old(h.taken))
  {
    s.Dispose(h);
  }

  // ----- runs -----

  datatype State = State(items: seq<Item>, led: Ledger)

  datatype Call =
    | On(act: Act, i: nat, j: nat)
    | Build(act: Act, i: nat)
    | Begin(text: string, a: Alloc)
    | End(i: nat)

  /** Buffers that no string knows: memory just taken lies inside no string. */
  ghost predicate Strange(items: seq<Item>, bs: set<Buffer>) {
    forall i: nat | i < |items| :: items[i].place.local !in bs
  }

  /** A step of a program. Every string that the call does not name stays as it is. */
  ghost predicate Next(k: Kind, st: State, c: Call, st': State) {
    var n, its, its' := |st.items|, st.items, st'.items;
    && st.led.taken <= st'.led.taken && Strange(its, st'.led.taken - st.led.taken)
    && match c
       case On(act, i, j) =>
         && i < n && j < n && |its'| == n && its' == its[i := its'[i]][j := its'[j]]
         && Acted(k, act, i == j, its[i], its[j], st.led, its'[i], its'[j], st'.led)
       case Build(act, i) =>
         && i < n && |its'| == n + 1 && its' == its[i := its'[i]] + [its'[n]]
         && Strange(its, {its'[n].place.local})
         && Acted(k, act, false, its[i], Unborn(its'[n].place.local), st.led, its'[i], its'[n], st'.led)
       case Begin(text, a) =>
         && |its'| == n + 1 && its' == its + [its'[n]] && Strange(its, {its'[n].place.local})
         && var local := its'[n].place.local;
            Acted(k, Make(text, a), true, Unborn(local), Unborn(local), st.led, its'[n], its'[n], st'.led)
       case End(i) =>
         && i < n && its' == its[..i] + its[i + 1..]
         && st'.led == Ledger(st.led.live - OwnedAt(its[i].place), st.led.taken)
  }

  // ----- ownership -----

  ghost predicate Separate(its: seq<Item>, i: nat, j: nat) {
    i < |its| && j < |its| && i != j ==> Disjoint(its[i].place, its[j].place)
  }

  predicate Owns(its: seq<Item>, i: nat, b: Buffer) {
    i < |its| && b in OwnedAt(its[i].place)
  }

  /** Strings share nothing, every buffer alive has an owner, and every buffer that a string owns is alive
      and its to give back. */
  ghost predicate Books(k: Kind, its: seq<Item>, led: Ledger) {
    && led.live.Keys <= led.taken
    && (forall i: nat, j: nat :: Separate(its, i, j))
    && (forall b | b in led.live :: exists i: nat :: Owns(its, i, b))
    && (forall i: nat | i < |its| :: Backed(k, led, its[i]))
  }

  /** A buffer alive has one owner, whose allocator can take it back. */
  lemma OneOwner(k: Kind, its: seq<Item>, led: Ledger, b: Buffer)
    requires Books(k, its, led) && b in led.live
    ensures exists i: nat :: Owns(its, i, b) && Same(k, led.live[b], its[i].view.alloc) && forall j: nat | Owns(its, j, b) :: j == i
  {
    var i: nat :| Owns(its, i, b);
    forall j: nat | Owns(its, j, b) ensures j == i {
      assert Separate(its, i, j);
    }
  }

  /** When all strings are gone, so is all memory. */
  lemma NothingLeaks(k: Kind, led: Ledger)
    requires Books(k, [], led)
    ensures led.live == map[]
  {
    assert forall b | b in led.live :: exists i: nat :: Owns([], i, b);
  }

  /** A string about to be constructed owns nothing. */
  lemma BooksUnborn(k: Kind, its: seq<Item>, led: Ledger, local: Buffer)
    requires Books(k, its, led) && local !in led.taken && Strange(its, {local})
    ensures Books(k, its + [Unborn(local)], led)
  {
    var its' := its + [Unborn(local)];
    forall i: nat, j: nat ensures Separate(its', i, j) {
      assert Separate(its, i, j);
      assert forall m: nat | m < |its| :: Backed(k, led, its[m]);
    }
    forall b | b in led.live ensures exists i: nat :: Owns(its', i, b) {
      var i: nat :| Owns(its, i, b);
      assert Owns(its', i, b);
    }
  }

  /** A string that the operation does not name stays apart from both that it does. */
  lemma OtherApart(k: Kind, act: Act, its: seq<Item>, led: Ledger, i: nat, j: nat, s: Item, t: Item, led': Ledger, m: nat)
    requires Books(k, its, led) && i < |its| && j < |its| && Acted(k, act, i == j, its[i], its[j], led, s, t, led')
    requires m < |its| && m != i && m != j && its[m].place.local !in led'.taken - led.taken
    ensures Disjoint(its[m].place, s.place) && Disjoint(s.place, its[m].place)
    ensures Disjoint(its[m].place, t.place) && Disjoint(t.place, its[m].place)
    ensures Backed(k, led', its[m])
  {
    assert Separate(its, m, i) && Separate(its, m, j);
    assert Backed(k, led, its[m]) && Backed(k, led, its[i]) && Backed(k, led, its[j]);
    var before, after := OwnedAt(its[i].place) + OwnedAt(its[j].place), OwnedAt(s.place) + OwnedAt(t.place);
    assert s.place.data == s.place.local || s.place.data in before || s.place.data in after - before;
    assert t.place.data == t.place.local || t.place.data in before || t.place.data in after - before;
  }

  /** An operation on two strings leaves the books in order. */
  lemma BooksActed(k: Kind, act: Act, its: seq<Item>, led: Ledger, i: nat, j: nat, s: Item, t: Item, led': Ledger)
    requires Books(k, its, led) && i < |its| && j < |its| && Acted(k, act, i == j, its[i], its[j], led, s, t, led')
    requires Strange(its, led'.taken - led.taken)
    ensures Books(k, its[i := s][j := t], led')
  {
    var its' := its[i := s][j := t];
    forall m: nat | m < |its| && m != i && m != j
      ensures Separate(its', m, i) && Separate(its', i, m) && Separate(its', m, j) && Separate(its', j, m)
      ensures Backed(k, led', its'[m])
    {
      OtherApart(k, act, its, led, i, j, s, t, led', m);
    }
    forall m: nat, n: nat ensures Separate(its', m, n) {
      assert Separate(its, m, n);
    }
    forall b | b in led'.live ensures exists m: nat :: Owns(its', m, b) {
      if b in OwnedAt(t.place) {
        assert Owns(its', j, b);
      } else if b in OwnedAt(s.place) {
        assert Owns(its', i, b);
      } else {
        var m: nat :| Owns(its, m, b);
        assert Owns(its', m, b);
      }
    }
  }

  lemma BooksEnded(k: Kind, its: seq<Item>, led: Ledger, i: nat)
    requires Books(k, its, led) && i < |its|
    ensures Books(k, its[..i] + its[i + 1..], Ledger(led.live - OwnedAt(its[i].place), led.taken))
  {
    var its', led' := its[..i] + its[i + 1..], Ledger(led.live - OwnedAt(its[i].place), led.taken);
    forall m: nat, n: nat ensures Separate(its', m, n) {
      EndedSeparate(k, its, led, i, m, n);
    }
    forall b | b in led'.live ensures exists m: nat :: Owns(its', m, b) {
      var m: nat :| Owns(its, m, b);
      assert Owns(its', if m < i then m else m - 1, b);
    }
    forall m: nat | m < |its'| ensures Backed(k, led', its'[m]) {
      EndedBacked(k, its, led, i, if m < i then m else m + 1);
    }
  }

  lemma EndedBacked(k: Kind, its: seq<Item>, led: Ledger, i: nat, m: nat)
    requires Books(k, its, led) && i < |its| && m < |its| && m != i
    ensures Backed(k, Ledger(led.live - OwnedAt(its[i].place), led.taken), its[m])
  {
    assert Backed(k, led, its[m]) && Separate(its, m, i);
  }

  lemma EndedSeparate(k: Kind, its: seq<Item>, led: Ledger, i: nat, m: nat, n: nat)
    requires Books(k, its, led) && i < |its|
    ensures Separate(its[..i] + its[i + 1..], m, n)
  {
    assert Separate(its, if m < i then m else m + 1, if n < i then n else n + 1);
  }

  /** Every step keeps the books. */
  lemma StepKeepsBooks(k: Kind, st: State, c: Call, st': State)
    requires Books(k, st.items, st.led) && Next(k, st, c, st')
    ensures Books(k, st'.items, st'.led)
  {
    var n, its, its' := |st.items|, st.items, st'.items;
    match c
    case On(act, i, j) =>
      BooksActed(k, act, its, st.led, i, j, its'[i], its'[j], st'.led);
    case Build(act, i) =>
      var local := its'[n].place.local;
      var all := its + [Unborn(local)];
      BooksUnborn(k, its, st.led, local);
      BooksActed(k, act, all, st.led, i, n, its'[i], its'[n], st'.led);
      assert its' == all[i := its'[i]][n := its'[n]];
    case Begin(text, a) =>
      var local := its'[n].place.local;
      var all := its + [Unborn(local)];
      BooksUnborn(k, its, st.led, local);
      BooksActed(k, Make(text, a), all, st.led, n, n, its'[n], its'[n], st'.led);
      assert its' == all[n := its'[n]][n := its'[n]];
    case End(i) =>
      BooksEnded(k, its, st.led, i);
  }

  /** A run from no strings and no memory. */
  ghost predicate Run(k: Kind, states: seq<State>, calls: seq<Call>) {
    && |states| == |calls| + 1 && states[0] == State([], Ledger(map[], {}))
    && forall n | 0 <= n < |calls| :: Next(k, states[n], calls[n], states[n + 1])
  }

  /** So in every state of every run each live buffer has exactly one owner. */
  lemma {:induction false} RunsKeepBooks(k: Kind, states: seq<State>, calls: seq<Call>, n: nat)
    requires Run(k, states, calls) && n < |states|
    ensures Books(k, states[n].items, states[n].led)
  {
    if n > 0 {
      RunsKeepBooks(k, states, calls, n - 1);
      StepKeepsBooks(k, states[n - 1], calls[n - 1], states[n]);
    }
  }

  /** A buffer that was given back is never alive again: it cannot be given back twice. */
  lemma {:induction false} GoneForGood(k: Kind, states: seq<State>, calls: seq<Call>, m: nat, n: nat, b: Buffer)
    requires Run(k, states, calls) && m <= n < |states|
    requires b in states[m].led.taken && b !in states[m].led.live
    ensures b in states[n].led.taken && b !in states[n].led.live
    decreases n
  {
    if m < n {
      GoneForGood(k, states, calls, m, n - 1, b);
      RunsKeepBooks(k, states, calls, n - 1);
      GoneStays(k, states[n - 1], calls[n - 1], states[n], b);
    }
  }

  lemma GoneStays(k: Kind, st: State, c: Call, st': State, b: Buffer)
    requires Books(k, st.items, st.led) && Next(k, st, c, st') && b in st.led.taken && b !in st.led.live
    ensures b in st'.led.taken && b !in st'.led.live
  {
    forall i: nat | i < |st.items| ensures b !in OwnedAt(st.items[i].place) {
      assert Backed(k, st.led, st.items[i]);
    }
  }
}
