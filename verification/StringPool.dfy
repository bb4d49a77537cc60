/** All strings of a program with the heap they share: every call on them is a step of the runs. */
module StringPool {
  import opened StringStorage
  import opened StringRuns

  // ----- one string by itself -----

  /** Everything a string holds. */
  datatype Snap = Snap(local: Buffer, data: Buffer, chars: string, length: nat, capacity: nat, large: bool, alloc: Alloc)

  ghost function SnapOf(s: Str): Snap
    reads s, s.data
  {
    Snap(s.local, s.data, s.data[..], s.length, s.capacity, s.large, s.alloc)
  }

  /** What a string knows by itself: where its characters are, and that they are this text. */
  ghost predicate Sound(k: Kind, n: Snap, it: Item) {
    var inside := n.data == n.local;
    && it.place == Place(n.local, n.data) && n.local.Length == LOCAL_CAPACITY + 1
    && n.large == !inside && |n.chars| == n.data.Length
    && (!inside ==> n.data.Length == n.capacity + 1 && LOCAL_CAPACITY <= n.capacity <= k.maxSize)
    && n.length <= (if inside then LOCAL_CAPACITY else n.capacity) && n.chars[n.length] == NUL
    && it.view == View(n.chars[..n.length], n.alloc)
  }

  /** With what the heap knows of it, that makes it valid. */
  lemma SoundIsValid(h: Heap, s: Str, it: Item)
    requires Sound(h.kind, SnapOf(s), it) && h.Valid() && Backed(h.kind, LedgerOf(h), it)
    ensures s.Valid(h) && ItemOf(s) == it
  {
  }

  lemma ValidIsSound(h: Heap, s: Str)
    requires s.Valid(h)
    ensures Sound(h.kind, SnapOf(s), ItemOf(s))
  {
  }

  // ----- what is noted of all strings -----

  ghost predicate Noted(k: Kind, snaps: seq<Snap>, items: seq<Item>, led: Ledger) {
    && |snaps| == |items|
    && (forall i | 0 <= i < |items| :: Sound(k, snaps[i], items[i]))
    && Books(k, items, led)
  }

  lemma NotedActed(k: Kind, act: Act, snaps: seq<Snap>, items: seq<Item>, led: Ledger, i: nat, j: nat,
                   m: Snap, n: Snap, s: Item, t: Item, led': Ledger)
    requires Noted(k, snaps, items, led) && i < |items| && j < |items| && (i == j ==> m == n)
    requires Acted(k, act, i == j, items[i], items[j], led, s, t, led') && Strange(items, led'.taken - led.taken)
    requires Sound(k, m, s) && Sound(k, n, t)
    ensures Noted(k, snaps[i := m][j := n], items[i := s][j := t], led')
  {
    BooksActed(k, act, items, led, i, j, s, t, led');
  }

  lemma NotedSame(k: Kind, snaps: seq<Snap>, items: seq<Item>, led: Ledger, i: nat, m: Snap)
    requires Noted(k, snaps, items, led) && i < |items| && Sound(k, m, items[i])
    ensures Noted(k, snaps[i := m][i := m], items[i := items[i]][i := items[i]], led)
    ensures items[i := items[i]][i := items[i]] == items
  {
    assert items[i := items[i]] == items;
  }

  lemma NotedBuilt(k: Kind, act: Act, snaps: seq<Snap>, items: seq<Item>, led: Ledger, i: nat,
                   m: Snap, n: Snap, s: Item, t: Item, led': Ledger)
    requires Noted(k, snaps, items, led) && i < |items| && Sound(k, m, s) && Sound(k, n, t)
    requires Acted(k, act, false, items[i], Unborn(t.place.local), led, s, t, led')
    requires Strange(items, led'.taken - led.taken) && Strange(items, {t.place.local})
    ensures Noted(k, snaps[i := m] + [n], items[i := s] + [t], led')
  {
    StepKeepsBooks(k, State(items, led), Build(act, i), State(items[i := s] + [t], led'));
  }

  lemma NotedBegun(k: Kind, text: string, a: Alloc, snaps: seq<Snap>, items: seq<Item>, led: Ledger, n: Snap, t: Item, led': Ledger)
    requires Noted(k, snaps, items, led) && Sound(k, n, t)
    requires Acted(k, Make(text, a), true, Unborn(t.place.local), Unborn(t.place.local), led, t, t, led')
    requires Strange(items, led'.taken - led.taken) && Strange(items, {t.place.local})
    ensures Noted(k, snaps + [n], items + [t], led')
  {
    StepKeepsBooks(k, State(items, led), Begin(text, a), State(items + [t], led'));
  }

  lemma NotedEnded(k: Kind, snaps: seq<Snap>, items: seq<Item>, led: Ledger, i: nat)
    requires Noted(k, snaps, items, led) && i < |items|
    ensures Noted(k, snaps[..i] + snaps[i + 1..], items[..i] + items[i + 1..], Ledger(led.live - OwnedAt(items[i].place), led.taken))
  {
    BooksEnded(k, items, led, i);
  }

  /** Strings and their insides. */
  ghost function Bodies(ss: seq<Str>): set<object> {
    (set k | 0 <= k < |ss| :: ss[k]) + (set k | 0 <= k < |ss| :: ss[k].local)
  }

  ghost function Body(t: Str?): set<object> {
    if t == null then {} else {t, t.local}
  }

  lemma BodiesPlus(ss: seq<Str>, t: Str)
    ensures Bodies(ss + [t]) == Bodies(ss) + Body(t)
  {
    assert (ss + [t])[|ss|] == t && forall k | 0 <= k < |ss| :: (ss + [t])[k] == ss[k];
  }

  lemma BodiesMinus(ss: seq<Str>, i: nat)
    requires i < |ss|
    ensures Bodies(ss[..i] + ss[i + 1..]) <= Bodies(ss)
  {
    var rest := ss[..i] + ss[i + 1..];
    assert forall k | 0 <= k < |rest| :: rest[k] == ss[if k < i then k else k + 1];
  }

  twostate lemma NewOnes(objs: set<object>, new bs: set<Buffer>, new t: Str?)
    requires fresh(bs) && (t != null ==> fresh(t) && fresh(t.local))
    ensures fresh(objs + bs + Body(t) - objs)
  {
    assert Body(t) == {} || Body(t) == {t, t.local};
  }

  class Pool {
    const h: Heap
    var strings: seq<Str>
    ghost var snaps: seq<Snap>
    ghost var items: seq<Item>

    ghost predicate Valid()
      reads this, h, strings, set k | 0 <= k < |strings| :: strings[k].data
    {
      && |snaps| == |strings|
      && (forall k | 0 <= k < |strings| :: SnapOf(strings[k]) == snaps[k])
      && Noted(h.kind, snaps, items, LedgerOf(h))
    }

    ghost function Now(): State
      reads this, h
    {
      State(items, LedgerOf(h))
    }

    constructor (k: Kind)
      ensures Valid() && h.kind == k && fresh(h) && Now() == State([], Ledger(map[], {}))
    {
      h := new Heap(k);
      strings := [];
      snaps := [];
      items := [];
    }

    // ----- the parts of a call -----

    /** Strings other than `i` and `j` are as noted. */
    ghost predicate Others(i: nat, j: nat)
      reads this, strings, set k | 0 <= k < |strings| :: strings[k].data
    {
      |snaps| == |strings| && forall k | 0 <= k < |strings| && k != i && k != j :: SnapOf(strings[k]) == snaps[k]
    }

    /** String `i` is sound, and the others touch none of what belongs to it. */
    ghost predicate Ready(i: nat)
      reads this, h, strings, set k | 0 <= k < |strings| :: strings[k].data
    {
      && |items| == |strings| && i < |strings| && strings[i].Valid(h) && ItemOf(strings[i]) == items[i]
      && (forall k | 0 <= k < |strings| && k != i :: strings[k] != strings[i] && strings[k].Apart(strings[i]))
      && (forall k | 0 <= k < |strings| :: items[k].place.local == strings[k].local)
    }

    lemma GetReady(i: nat)
      requires Valid() && i < |strings|
      ensures Ready(i)
    {
      SoundIsValid(h, strings[i], items[i]);
      forall k | 0 <= k < |strings| ensures items[k].place == Place(strings[k].local, strings[k].data) {
        assert Sound(h.kind, snaps[k], items[k]) && SnapOf(strings[k]) == snaps[k];
      }
      forall k | 0 <= k < |strings| && k != i ensures Disjoint(items[k].place, items[i].place) {
        assert Separate(items, k, i);
      }
    }

    /** What the strings are noted as agrees with what they are. */
    ghost method Put(i: nat, j: nat, m: Snap, n: Snap, s: Item, t: Item)
      requires Others(i, j) && i < |strings| && j < |strings| && |items| == |strings|
      requires m == SnapOf(strings[i]) && n == SnapOf(strings[j])
      modifies this`items, this`snaps
      ensures snaps == old(snaps)[i := m][j := n] && items == old(items)[i := s][j := t]
      ensures forall k | 0 <= k < |strings| :: SnapOf(strings[k]) == snaps[k]
    {
      snaps := snaps[i := m][j := n];
      items := items[i := s][j := t];
    }

    /** Notes what has become of two strings. */
    ghost method Note(act: Act, i: nat, j: nat, led: Ledger, m: Snap, n: Snap, s: Item, t: Item)
      requires i < |strings| && j < |strings| && Others(i, j) && Noted(h.kind, snaps, items, led)
      requires m == SnapOf(strings[i]) && n == SnapOf(strings[j]) && (i == j ==> m == n)
      requires Sound(h.kind, m, s) && Sound(h.kind, n, t)
      requires Acted(h.kind, act, i == j, items[i], items[j], led, s, t, LedgerOf(h))
      requires Strange(items, h.taken - led.taken)
      modifies this`items, this`snaps
      ensures Valid() && items == old(items)[i := s][j := t]
    {
      NotedActed(h.kind, act, snaps, items, led, i, j, m, n, s, t, LedgerOf(h));
      Put(i, j, m, n, s, t);
    }

    /** Notes that a failed call has changed neither text nor owner of string `i`. */
    ghost method NoteNothing(i: nat, m: Snap)
      requires i < |strings| && Others(i, i) && Noted(h.kind, snaps, items, LedgerOf(h))
      requires m == SnapOf(strings[i]) && Sound(h.kind, m, items[i])
      modifies this`items, this`snaps
      ensures Valid() && items == old(items)
    {
      NotedSame(h.kind, snaps, items, LedgerOf(h), i, m);
      Put(i, i, m, m, items[i], items[i]);
    }

    // ----- operations on strings that exist -----

    ghost predicate SoundAt(i: nat)
      reads this, h, strings, set k | 0 <= k < |strings| :: strings[k].data
    {
      i < |strings| && strings[i].length <= strings[i].data.Length
      && Sound(h.kind, SnapOf(strings[i]), ItemOf(strings[i]))
    }

    /** The operation is done, and `led` was the ledger before. */
    ghost predicate DoneBy(act: Act, i: nat, j: nat, led: Ledger)
      reads this, h, strings, set k | 0 <= k < |strings| :: strings[k].data
    {
      && |items| == |strings| && i < |strings| && j < |strings|
      && SoundAt(i) && SoundAt(j) && Others(i, j) && Strange(items, h.taken - led.taken)
      && Acted(h.kind, act, i == j, items[i], items[j], led, ItemOf(strings[i]), ItemOf(strings[j]), LedgerOf(h))
    }

    /** The operation has failed and left everything as it was. */
    ghost predicate Failed(i: nat, led: Ledger)
      reads this, h, strings, set k | 0 <= k < |strings| :: strings[k].data
    {
      && |items| == |strings| && i < |strings| && strings[i].Valid(h) && Others(i, i)
      && ItemOf(strings[i]) == items[i] && LedgerOf(h) == led
    }

    method DoMoveAssign(i: nat, j: nat)
      requires Ready(i) && Ready(j) && Others(i, j)
      modifies h, strings[i], strings[i].data, strings[i].local, strings[j], strings[j].data, strings[j].local
      ensures DoneBy(Act.MoveAssign, i, j, old(LedgerOf(h)))
      ensures fresh(h.taken - old(h.taken))
    {
      ActMoveAssign(h, strings[i], strings[j]);
      ValidIsSound(h, strings[i]);
      ValidIsSound(h, strings[j]);
    }

    method DoCopyAssign(i: nat, j: nat)
      requires Ready(i) && Ready(j) && Others(i, j)
      modifies h, strings[i], strings[i].data, strings[i].local, strings[j], strings[j].data, strings[j].local
      ensures DoneBy(CopyAssign, i, j, old(LedgerOf(h)))
      ensures fresh(h.taken - old(h.taken))
    {
      ActCopyAssign(h, strings[i], strings[j]);
      ValidIsSound(h, strings[i]);
      ValidIsSound(h, strings[j]);
    }

    method DoSwap(i: nat, j: nat)
      requires Ready(i) && Ready(j) && Others(i, j) && (h.kind.onSwap || Same(h.kind, strings[i].alloc, strings[j].alloc))
      modifies h, strings[i], strings[i].data, strings[i].local, strings[j], strings[j].data, strings[j].local
      ensures DoneBy(Exchange, i, j, old(LedgerOf(h)))
      ensures fresh(h.taken - old(h.taken))
    {
      ActSwap(h, strings[i], strings[j]);
      ValidIsSound(h, strings[i]);
      ValidIsSound(h, strings[j]);
    }

    method DoAppend(i: nat, j: nat, from: nat, n: nat)
      requires Ready(i) && Ready(j) && Others(i, i) && i != j
      requires from + n <= strings[j].length && strings[i].length + n <= h.kind.maxSize
      modifies h, strings[i], strings[i].data, strings[i].local
      ensures DoneBy(Act.Append(from, n), i, j, old(LedgerOf(h)))
      ensures fresh(h.taken - old(h.taken))
    {
      ActAppend(h, strings[i], strings[j], from, n);
      ValidIsSound(h, strings[i]);
      ValidIsSound(h, strings[j]);
    }

    method DoAppendSelf(i: nat, from: nat, n: nat)
      requires Ready(i) && Others(i, i) && from + n <= strings[i].length && strings[i].length + n <= h.kind.maxSize
      modifies h, strings[i], strings[i].data, strings[i].local
      ensures DoneBy(Act.Append(from, n), i, i, old(LedgerOf(h)))
      ensures fresh(h.taken - old(h.taken))
    {
      ActAppendSelf(h, strings[i], from, n);
      ValidIsSound(h, strings[i]);
    }

    /** The call that throws. */
    method FailAppend(i: nat, j: nat, from: nat, n: nat) returns (ok: bool)
      requires Ready(i) && Ready(j) && Others(i, i)
      requires from + n <= strings[j].length && strings[i].length + n > h.kind.maxSize
      modifies h, strings[i], strings[i].data, strings[i].local
      ensures !ok && Failed(i, old(LedgerOf(h)))
    {
      ok := ActAppendFails(h, strings[i], strings[j], from, n);
    }

    /** Carries out any of them that can be carried out. */
    method Do(act: Act, i: nat, j: nat) returns (ok: bool)
      requires Ready(i) && Ready(j) && Others(i, i) && !Constructs(act)
      modifies h, strings[i], strings[i].data, strings[i].local, strings[j], strings[j].data, strings[j].local
      ensures ok == Succeeds(h.kind, act, items[i].view, items[j].view)
      ensures ok ==> DoneBy(act, i, j, old(LedgerOf(h)))
      ensures !ok ==> Failed(i, old(LedgerOf(h)))
      ensures fresh(h.taken - old(h.taken))
    {
      ok := true;
      match act
      case MoveAssign => DoMoveAssign(i, j);
      case CopyAssign => DoCopyAssign(i, j);
      case Exchange =>
        ok := h.kind.onSwap || Same(h.kind, strings[i].alloc, strings[j].alloc);
        if ok {
          DoSwap(i, j);
        }
      case Append(from, n) =>
        if from + n > strings[j].length {
          ok := false;
        } else if strings[i].length + n > h.kind.maxSize {
          ok := FailAppend(i, j, from, n);
        } else if i == j {
          DoAppendSelf(i, from, n);
        } else {
          DoAppend(i, j, from, n);
        }
    }

    /** Notes an operation that is done. */
    ghost method NoteBy(act: Act, i: nat, j: nat, led: Ledger)
      requires DoneBy(act, i, j, led) && (i == j <==> strings[i] == strings[j]) && Noted(h.kind, snaps, items, led)
      modifies this`items, this`snaps
      ensures Valid() && Next(h.kind, State(old(items), led), On(act, i, j), Now())
    {
      Note(act, i, j, led, SnapOf(strings[i]), SnapOf(strings[j]), ItemOf(strings[i]), ItemOf(strings[j]));
    }

    /** Operates on two strings. */
    method Operate(act: Act, i: nat, j: nat) returns (ok: bool)
      requires Valid() && i < |strings| && j < |strings| && !Constructs(act)
      modifies this`items, this`snaps, h, strings[i], strings[i].data, strings[i].local, strings[j], strings[j].data, strings[j].local
      ensures Valid() && ok == old(Succeeds(h.kind, act, items[i].view, items[j].view))
      ensures ok ==> Next(h.kind, old(Now()), On(act, i, j), Now())
      ensures !ok ==> Now() == old(Now())
      ensures fresh(h.taken - old(h.taken))
    {
      GetReady(i);
      GetReady(j);
      ok := Do(act, i, j);
      if ok {
        NoteBy(act, i, j, old(LedgerOf(h)));
      } else {
        ValidIsSound(h, strings[i]);
        NoteNothing(i, SnapOf(strings[i]));
      }
    }

    // ----- construction -----

    /** String `t` has been constructed from string `i`. */
    ghost predicate Built(act: Act, i: nat, t: Str, led: Ledger)
      reads this, h, t, t.data, strings, set k | 0 <= k < |strings| :: strings[k].data
    {
      && |items| == |strings| && i < |strings| && strings[i].Valid(h) && t.Valid(h) && Others(i, i)
      && Strange(items, h.taken - led.taken) && Strange(items, {t.local})
      && Acted(h.kind, act, false, items[i], Unborn(t.local), led, ItemOf(strings[i]), ItemOf(t), LedgerOf(h))
    }

    method DoCopy(i: nat, a: Alloc) returns (t: Str)
      requires Ready(i) && Others(i, i)
      modifies h, strings[i], strings[i].data, strings[i].local
      ensures Built(Act.Copy(a), i, t, old(LedgerOf(h))) && fresh(t)
      ensures fresh(h.taken - old(h.taken))
      ensures fresh(t.local)
    {
      t := ActCopy(h, strings[i], a);
    }

    method DoMove(i: nat) returns (t: Str)
      requires Ready(i) && Others(i, i)
      modifies h, strings[i], strings[i].data, strings[i].local
      ensures Built(Act.Move, i, t, old(LedgerOf(h))) && fresh(t)
      ensures fresh(h.taken - old(h.taken))
      ensures fresh(t.local)
    {
      t := ActMove(h, strings[i]);
    }

    method DoMoveWith(i: nat, a: Alloc) returns (t: Str)
      requires Ready(i) && Others(i, i)
      modifies h, strings[i], strings[i].data, strings[i].local
      ensures Built(Act.MoveWith(a), i, t, old(LedgerOf(h))) && fresh(t)
      ensures fresh(h.taken - old(h.taken))
      ensures fresh(t.local)
    {
      t := ActMoveWith(h, strings[i], a);
    }

    method DoMovePart(i: nat, pos: nat, n: nat, a: Alloc) returns (t: Str?)
      requires Ready(i) && Others(i, i)
      modifies h, strings[i], strings[i].data, strings[i].local
      ensures t != null <==> pos <= |items[i].view.text|
      ensures t != null ==> Built(Act.MovePart(pos, n, a), i, t, old(LedgerOf(h))) && fresh(t)
      ensures t == null ==> Failed(i, old(LedgerOf(h)))
      ensures fresh(h.taken - old(h.taken))
      ensures t != null ==> fresh(t.local)
    {
      t := TryMovePart(h, strings[i], pos, n, a);
    }

    /** Constructs a string from string `i`, or finds that it cannot be. */
    method DoBuild(act: Act, i: nat) returns (t: Str?)
      requires Ready(i) && Others(i, i) && Constructs(act) && !act.Make?
      modifies h, strings[i], strings[i].data, strings[i].local
      ensures t != null <==> Succeeds(h.kind, act, items[i].view, items[i].view)
      ensures t != null ==> Built(act, i, t, old(LedgerOf(h))) && fresh(t)
      ensures t == null ==> Failed(i, old(LedgerOf(h)))
      ensures fresh(h.taken - old(h.taken))
      ensures t != null ==> fresh(t.local)
    {
      match act
      case Copy(a) => t := DoCopy(i, a);
      case Move => t := DoMove(i);
      case MoveWith(a) => t := DoMoveWith(i, a);
      case MovePart(pos, n, a) => t := DoMovePart(i, pos, n, a);
    }

    /** Takes in a new string. */
    method TakeIn(i: nat, t: Str, ghost m: Snap, ghost s: Item, ghost n: Snap, ghost it: Item)
      requires |snaps| == |items| == |strings| && i < |strings| && Others(i, i)
      requires m == SnapOf(strings[i]) && n == SnapOf(t)
      modifies this`strings, this`items, this`snaps
      ensures strings == old(strings) + [t] && snaps == old(snaps)[i := m] + [n] && items == old(items)[i := s] + [it]
      ensures forall k | 0 <= k < |strings| :: SnapOf(strings[k]) == snaps[k]
    {
      strings := strings + [t];
      snaps := snaps[i := m] + [n];
      items := items[i := s] + [it];
    }

    /** Takes in a string that was constructed from string `i`. */
    method TakeBuilt(act: Act, i: nat, t: Str, ghost led: Ledger)
      requires Built(act, i, t, led) && Noted(h.kind, snaps, items, led)
      modifies this`strings, this`items, this`snaps
      ensures Valid() && strings == old(strings) + [t]
      ensures Next(h.kind, State(old(items), led), Build(act, i), Now())
    {
      ValidIsSound(h, strings[i]);
      ValidIsSound(h, t);
      ghost var m, n, s, it := SnapOf(strings[i]), SnapOf(t), ItemOf(strings[i]), ItemOf(t);
      NotedBuilt(h.kind, act, snaps, items, led, i, m, n, s, it, LedgerOf(h));
      TakeIn(i, t, m, s, n, it);
    }

    /** Constructs from a string, or finds that it cannot be. */
    method Construct(act: Act, i: nat) returns (t: Str?)
      requires Valid() && i < |strings| && Constructs(act) && !act.Make?
      modifies this`strings, this`items, this`snaps, h, strings[i], strings[i].data, strings[i].local
      ensures Valid() && (t != null <==> old(Succeeds(h.kind, act, items[i].view, items[i].view)))
      ensures t != null ==> Next(h.kind, old(Now()), Build(act, i), Now())
      ensures t != null ==> strings == old(strings) + [t] && fresh(t) && fresh(t.local)
      ensures t == null ==> Now() == old(Now()) && strings == old(strings)
      ensures fresh(h.taken - old(h.taken))
    {
      GetReady(i);
      t := DoBuild(act, i);
      if t != null {
        TakeBuilt(act, i, t, old(LedgerOf(h)));
      } else {
        ValidIsSound(h, strings[i]);
        NoteNothing(i, SnapOf(strings[i]));
      }
    }

    // ----- the first and the last of a string -----

    /** The locals noted are those of the strings. */
    lemma Locals()
      requires Valid()
      ensures forall k | 0 <= k < |strings| :: items[k].place == Place(strings[k].local, strings[k].data)
    {
      forall k | 0 <= k < |strings| ensures items[k].place == Place(strings[k].local, strings[k].data) {
        assert Sound(h.kind, snaps[k], items[k]) && SnapOf(strings[k]) == snaps[k];
      }
    }

    method DoBegin(text: string, a: Alloc) returns (t: Str)
      requires h.Valid() && |text| <= h.kind.maxSize && |items| == |snaps| == |strings|
      requires forall k | 0 <= k < |strings| :: SnapOf(strings[k]) == snaps[k] && items[k].place.local == strings[k].local
      modifies h
      ensures fresh(t) && t.Valid(h) && forall k | 0 <= k < |strings| :: SnapOf(strings[k]) == snaps[k]
      ensures Strange(items, h.taken - old(h.taken)) && Strange(items, {t.local})
      ensures Acted(h.kind, Make(text, a), true, Unborn(t.local), Unborn(t.local), old(LedgerOf(h)), ItemOf(t), ItemOf(t), LedgerOf(h))
      ensures fresh(h.taken - old(h.taken))
      ensures fresh(t.local)
    {
      t := ActMake(h, text, a);
    }

    /** Takes in a string that was constructed from nothing. */
    method TakeBegun(text: string, a: Alloc, t: Str, ghost led: Ledger)
      requires t.Valid(h) && |snaps| == |strings| && Noted(h.kind, snaps, items, led)
      requires forall k | 0 <= k < |strings| :: SnapOf(strings[k]) == snaps[k]
      requires Strange(items, h.taken - led.taken) && Strange(items, {t.local})
      requires Acted(h.kind, Make(text, a), true, Unborn(t.local), Unborn(t.local), led, ItemOf(t), ItemOf(t), LedgerOf(h))
      modifies this`strings, this`items, this`snaps
      ensures Valid() && strings == old(strings) + [t] && items == old(items) + [ItemOf(t)]
    {
      ValidIsSound(h, t);
      NotedBegun(h.kind, text, a, snaps, items, led, SnapOf(t), ItemOf(t), LedgerOf(h));
      strings := strings + [t];
      snaps := snaps + [SnapOf(t)];
      items := items + [ItemOf(t)];
    }

    /** Constructs from characters that are not too many. */
    method Create(text: string, a: Alloc) returns (t: Str)
      requires Valid() && |text| <= h.kind.maxSize
      modifies this`strings, this`items, this`snaps, h
      ensures Valid() && Next(h.kind, old(Now()), Begin(text, a), Now())
      ensures strings == old(strings) + [t] && fresh(t) && fresh(t.local)
      ensures fresh(h.taken - old(h.taken))
    {
      Locals();
      t := DoBegin(text, a);
      TakeBegun(text, a, t, old(LedgerOf(h)));
    }

    /** Takes a string out. */
    method TakeOut(i: nat)
      requires i < |strings| == |snaps| == |items| && forall k | 0 <= k < |strings| :: SnapOf(strings[k]) == snaps[k]
      modifies this`strings, this`items, this`snaps
      ensures snaps == old(snaps)[..i] + old(snaps)[i + 1..] && items == old(items)[..i] + old(items)[i + 1..]
      ensures strings == old(strings)[..i] + old(strings)[i + 1..]
      ensures |snaps| == |strings| && forall k | 0 <= k < |strings| :: SnapOf(strings[k]) == snaps[k]
    {
      ghost var was := strings;
      strings := strings[..i] + strings[i + 1..];
      snaps := snaps[..i] + snaps[i + 1..];
      items := items[..i] + items[i + 1..];
      forall k | 0 <= k < |strings| ensures SnapOf(strings[k]) == snaps[k] {
        assert strings[k] == was[if k < i then k else k + 1];
      }
    }

    /** Lets go of a string whose buffer has been given back. */
    method Drop(i: nat, ghost led: Ledger)
      requires i < |strings| == |snaps| && Noted(h.kind, snaps, items, led)
      requires forall k | 0 <= k < |strings| :: SnapOf(strings[k]) == snaps[k]
      requires LedgerOf(h) == Ledger(led.live - OwnedAt(items[i].place), led.taken)
      modifies this`strings, this`items, this`snaps
      ensures Valid() && items == old(items)[..i] + old(items)[i + 1..]
      ensures strings == old(strings)[..i] + old(strings)[i + 1..]
    {
      NotedEnded(h.kind, snaps, items, led, i);
      TakeOut(i);
    }

    /** Destroys a string. */
    method Finish(i: nat)
      requires Valid() && i < |strings|
      modifies this`strings, this`items, this`snaps, h
      ensures Valid() && Next(h.kind, old(Now()), End(i), Now())
      ensures Bodies(strings) <= old(Bodies(strings)) && h.taken == old(h.taken)
    {
      BodiesMinus(strings, i);
      GetReady(i);
      ActDestroy(h, strings[i]);
      Drop(i, old(LedgerOf(h)));
    }

    // ----- any call -----

    ghost function Footprint(): set<object>
      reads this, strings
    {
      {this, h} + (set k | 0 <= k < |strings| :: strings[k])
      + (set k | 0 <= k < |strings| :: strings[k].data) + (set k | 0 <= k < |strings| :: strings[k].local)
    }

    method PerformOn(act: Act, i: nat, j: nat) returns (ok: bool)
      requires Valid()
      modifies Footprint()
      ensures Valid() && ok == Possible(h.kind, old(items), On(act, i, j))
      ensures ok ==> Next(h.kind, old(Now()), On(act, i, j), Now())
      ensures !ok ==> Now() == old(Now())
      ensures fresh(h.taken - old(h.taken)) && Bodies(strings) == old(Bodies(strings))
    {
      ok := false;
      if i < |strings| && j < |strings| && !Constructs(act) {
        ok := Operate(act, i, j);
      }
    }

    method PerformBuild(act: Act, i: nat) returns (ok: bool, t: Str?)
      requires Valid()
      modifies Footprint()
      ensures Valid() && ok == Possible(h.kind, old(items), Build(act, i))
      ensures ok ==> Next(h.kind, old(Now()), Build(act, i), Now())
      ensures !ok ==> Now() == old(Now())
      ensures fresh(h.taken - old(h.taken))
      ensures Bodies(strings) <= old(Bodies(strings)) + Body(t) && (t != null ==> fresh(t) && fresh(t.local))
    {
      ok, t := false, null;
      if i < |strings| && Constructs(act) && !act.Make? {
        ghost var was := strings;
        t := Construct(act, i);
        ok := t != null;
        if t != null {
          BodiesPlus(was, t);
        }
      }
    }

    /** Constructs from characters, or finds that they are too many. */
    method Start(text: string, a: Alloc) returns (ok: bool, t: Str?)
      requires Valid()
      modifies Footprint()
      ensures Valid() && ok == (|text| <= h.kind.maxSize)
      ensures ok ==> Next(h.kind, old(Now()), Begin(text, a), Now())
      ensures !ok ==> Now() == old(Now())
      ensures fresh(h.taken - old(h.taken))
      ensures Bodies(strings) <= old(Bodies(strings)) + Body(t) && (t != null ==> fresh(t) && fresh(t.local))
    {
      ok, t := |text| <= h.kind.maxSize, null;
      if ok {
        ghost var was := strings;
        t := Create(text, a);
        BodiesPlus(was, t);
      }
    }

    /** Carries out a call, or finds that it cannot be: a step of the runs, or nothing. `t` is the
        string it has made. */
    method Perform(c: Call) returns (ok: bool, t: Str?)
      requires Valid()
      modifies Footprint()
      ensures Valid() && ok == Possible(h.kind, old(items), c)
      ensures ok ==> Next(h.kind, old(Now()), c, Now())
      ensures !ok ==> Now() == old(Now())
      ensures fresh(h.taken - old(h.taken))
      ensures Bodies(strings) <= old(Bodies(strings)) + Body(t) && (t != null ==> fresh(t) && fresh(t.local))
    {
      t := null;
      match c
      case On(act, i, j) => ok := PerformOn(act, i, j);
      case Build(act, i) => ok, t := PerformBuild(act, i);
      case Begin(text, a) => ok, t := Start(text, a);
      case End(i) =>
        ok := i < |strings|;
        if ok {
          Finish(i);
        }
    }

    /** The pool is made of these objects. */
    ghost predicate Within(objs: set<object>)
      reads this
    {
      && this in objs && h in objs && Bodies(strings) <= objs
      && (forall k | 0 <= k < |items| :: items[k].place.data in objs)
    }

    lemma FootprintWithin(objs: set<object>)
      requires Valid() && Within(objs)
      ensures Footprint() <= objs
    {
      Locals();
    }

    lemma InsidesWithin(objs: set<object>)
      requires Valid() && Bodies(strings) <= objs
      ensures forall k | 0 <= k < |items| :: items[k].place.local in objs
    {
      Locals();
      forall k | 0 <= k < |items| ensures items[k].place.local in objs {
        assert items[k].place == Place(strings[k].local, strings[k].data) && strings[k].local in Bodies(strings);
      }
    }

    lemma StillWithin(was: State, c: Call, objs: set<object>)
      requires Valid() && (Next(h.kind, was, c, Now()) || Now() == was) && Books(h.kind, was.items, was.led)
      requires this in objs && h in objs && h.taken - was.led.taken <= objs && Bodies(strings) <= objs
      requires forall k | 0 <= k < |was.items| :: was.items[k].place.data in objs
      ensures Within(objs)
    {
      InsidesWithin(objs);
      PlacesWithin(h.kind, was, c, Now(), objs);
    }

    /** Carries out a call on a pool made of `objs`; it is then made of these and of new objects. */
    method Advance(c: Call, ghost objs: set<object>) returns (ok: bool, ghost objs': set<object>)
      requires Valid() && Within(objs)
      modifies objs
      ensures Valid() && ok == Possible(h.kind, old(items), c)
      ensures ok ==> Next(h.kind, old(Now()), c, Now())
      ensures !ok ==> Now() == old(Now())
      ensures Within(objs') && fresh(objs' - objs)
    {
      FootprintWithin(objs);
      ghost var was := Now();
      assert Books(h.kind, was.items, was.led);
      var t;
      ok, t := Perform(c);
      NewOnes(objs, h.taken - was.led.taken, t);
      objs' := objs + (h.taken - was.led.taken) + Body(t);
      StillWithin(was, c, objs');
    }
  }

  /** The strings a call names exist, and it does not throw. */
  predicate Possible(k: Kind, items: seq<Item>, c: Call) {
    match c
    case On(act, i, j) =>
      i < |items| && j < |items| && !Constructs(act) && Succeeds(k, act, items[i].view, items[j].view)
    case Build(act, i) =>
      i < |items| && Constructs(act) && !act.Make? && Succeeds(k, act, items[i].view, items[i].view)
    case Begin(text, _) => |text| <= k.maxSize
    case End(i) => i < |items|
  }

  // ----- whole programs -----

  /** Where characters are after a step: inside a string, in a buffer just taken, or where some were. */
  lemma PlaceAfter(k: Kind, st: State, c: Call, st': State, m: nat)
    requires Books(k, st.items, st.led) && Next(k, st, c, st') && m < |st'.items|
    ensures var p := st'.items[m].place;
      p.data == p.local || p.data in st'.led.taken - st.led.taken || exists i: nat :: Owns(st.items, i, p.data)
  {
    StepKeepsBooks(k, st, c, st');
    assert Backed(k, st'.led, st'.items[m]);
    var b := st'.items[m].place.data;
    if b in st'.led.live && b in st.led.taken {
      StillLive(k, st, c, st', b);
    }
  }

  lemma PlacesWithin(k: Kind, st: State, c: Call, st': State, objs: set<object>)
    requires Books(k, st.items, st.led) && (Next(k, st, c, st') || st == st') && st'.led.taken - st.led.taken <= objs
    requires forall m | 0 <= m < |st.items| :: st.items[m].place.data in objs
    requires forall m | 0 <= m < |st'.items| :: st'.items[m].place.local in objs
    ensures forall m | 0 <= m < |st'.items| :: st'.items[m].place.data in objs
  {
    if st != st' {
      forall m | 0 <= m < |st'.items| ensures st'.items[m].place.data in objs {
        PlaceAfter(k, st, c, st', m);
      }
    }
  }

  lemma StillLive(k: Kind, st: State, c: Call, st': State, b: Buffer)
    requires Books(k, st.items, st.led) && Next(k, st, c, st') && b in st.led.taken && b in st'.led.live
    ensures b in st.led.live
  {
    if b !in st.led.live {
      GoneStays(k, st, c, st', b);
    }
  }

  /** The states a list of calls goes through, where a call that cannot be made or throws changes nothing. */
  ghost predicate Traced(k: Kind, trace: seq<State>, calls: seq<Call>) {
    && |trace| == |calls| + 1 && trace[0] == State([], Ledger(map[], {}))
    && forall n | 0 <= n < |calls| ::
         if Possible(k, trace[n].items, calls[n]) then Next(k, trace[n], calls[n], trace[n + 1])
         else trace[n + 1] == trace[n]
  }

  /** The calls that are carried out, of the first `n`. */
  ghost function Done(k: Kind, trace: seq<State>, calls: seq<Call>, n: nat): seq<Call>
    requires n <= |calls| < |trace|
  {
    if n == 0 then []
    else Done(k, trace, calls, n - 1) + if Possible(k, trace[n - 1].items, calls[n - 1]) then [calls[n - 1]] else []
  }

  /** The states these lead through. */
  ghost function Reached(k: Kind, trace: seq<State>, calls: seq<Call>, n: nat): seq<State>
    requires n <= |calls| < |trace|
  {
    if n == 0 then [trace[0]]
    else Reached(k, trace, calls, n - 1) + if Possible(k, trace[n - 1].items, calls[n - 1]) then [trace[n]] else []
  }

  /** They are a run, to the state reached by all `n`. */
  lemma {:induction false} TracedIsRun(k: Kind, trace: seq<State>, calls: seq<Call>, n: nat)
    requires Traced(k, trace, calls) && n <= |calls|
    ensures Run(k, Reached(k, trace, calls, n), Done(k, trace, calls, n))
    ensures Reached(k, trace, calls, n)[|Done(k, trace, calls, n)|] == trace[n]
  {
    if n > 0 {
      TracedIsRun(k, trace, calls, n - 1);
    }
  }

  /** Every program is a run: the calls that are carried out, and no others, take an empty pool through
      the states of a run to the state it is in. */
  method Execute(k: Kind, calls: seq<Call>) returns (p: Pool, ghost trace: seq<State>)
    ensures p.Valid() && p.h.kind == k && fresh(p)
    ensures Traced(k, trace, calls) && trace[|calls|] == p.Now()
    ensures Run(k, Reached(k, trace, calls, |calls|), Done(k, trace, calls, |calls|))
  {
    p := new Pool(k);
    trace := [p.Now()];
    ghost var objs: set<object> := {p, p.h};
    for n := 0 to |calls|
      invariant p.Valid() && p.h.kind == k && p.Within(objs) && fresh(p) && fresh(objs)
      invariant Traced(k, trace, calls[..n]) && trace[n] == p.Now()
    {
      var ok;
      ok, objs := p.Advance(calls[n], objs);
      TracedMore(k, trace, calls, n, p.Now());
      trace := trace + [p.Now()];
    }
    assert calls[..|calls|] == calls;
    TracedIsRun(k, trace, calls, |calls|);
  }

  lemma TracedMore(k: Kind, trace: seq<State>, calls: seq<Call>, n: nat, st: State)
    requires n < |calls| && Traced(k, trace, calls[..n])
    requires if Possible(k, trace[n].items, calls[n]) then Next(k, trace[n], calls[n], st) else st == trace[n]
    ensures Traced(k, trace + [st], calls[..n + 1])
  {
  }
}
