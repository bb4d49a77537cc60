/** The control block of a shared pointer under the atomic lock policy. Threads copy, lock, drop
    and hand over owning and weak references in any interleaving; each step is one atomic access
    to a count, or one of the two virtual calls that end a life. */
module SharedCount {

  /** The largest count the 32-bit words can show; incrementing past it traps. */
  const MAX_COUNT: nat := 0xFFFF_FFFF

  datatype Thread =
    | Idle
    | Locking(w: nat, count: nat)   // promoting weak reference `w`, having last seen `count`
    | FastLoading(h: nat)           // releasing `h`: about to read both counts at once
    | FastChecked(h: nat)           // both counts were one
    | Decrementing(h: nat)
    | Disposing
    | DroppingWeak
    | Destroying
    | FastDisposing
    | FastDestroying
  {
    predicate Releases(h': nat) {
      (FastLoading? || FastChecked? || Decrementing?) && this.h == h'
    }
  }

  /** How far the managed object's life has run, and which thread is ending it. */
  datatype Phase = Alive | Ending(t: nat) | Disposed | Dying(t: nat) | Dead

  datatype State = State(
    useCount: nat, weakCount: nat,
    strong: map<nat, nat>, weak: map<nat, nat>,  // live references and the threads that own them
    threads: map<nat, Thread>,
    disposals: nat, destructions: nat, phase: Phase, trapped: bool)
  {
    function At(t: nat): Thread {
      if t in threads then threads[t] else Idle
    }

    function Set(t: nat, p: Thread): State {
      this.(threads := threads[t := p])
    }

    predicate Owns(t: nat, h: nat) { h in strong && strong[h] == t && At(t).Idle? }

    /** Any thread may read a reference that its owner is not taking away. */
    predicate Readable(t: nat, h: nat) { h in strong && !At(strong[h]).Releases(h) && At(t).Idle? }
    predicate OwnsWeak(t: nat, w: nat) { w in weak && weak[w] == t && At(t).Idle? }

    /** So may any thread read a weak reference, and promoting it only reads it. */
    predicate ReadableWeak(t: nat, w: nat) { w in weak && At(t).Idle? }

    /** The owner may take a weak reference away when nobody is in the middle of promoting it. */
    predicate FreeWeak(t: nat, w: nat) {
      OwnsWeak(t, w) && forall u | u in threads :: !(threads[u].Locking? && threads[u].w == w)
    }
  }

  datatype Action =
    | Copy(t: nat, h: nat, h': nat)
    | MakeWeak(t: nat, h: nat, w': nat)
    | CopyWeak(t: nat, w: nat, w': nat)
    | Give(t: nat, h: nat, u: nat)
    | GiveWeak(t: nat, w: nat, u: nat)
    | LockLoad(t: nat, w: nat)
    | LockTry(t: nat, h': nat, spurious: bool)
    | Release(t: nat, h: nat)
    | ReleaseWeak(t: nat, w: nat)
    | Continue(t: nat)

  function AddStrong(s: State, t: nat, h': nat): State {
    if s.useCount == MAX_COUNT then s.(trapped := true)
    else s.(useCount := s.useCount + 1, strong := s.strong[h' := t])
  }

  function AddWeak(s: State, t: nat, w': nat): State {
    if s.weakCount == MAX_COUNT then s.(trapped := true)
    else s.(weakCount := s.weakCount + 1, weak := s.weak[w' := t])
  }

  function Minus(n: nat): nat { if n == 0 then 0 else n - 1 }

  /** The weak count goes down; whoever takes it to zero destroys the block. */
  function DropWeakCount(s: State, t: nat): State {
    if s.weakCount == 1 then s.(weakCount := 0, phase := Dying(t)).Set(t, Destroying)
    else s.(weakCount := Minus(s.weakCount)).Set(t, Idle)
  }

  /** The next step of a release under way. */
  function Step(s: State, t: nat): State {
    match s.At(t)
    case FastLoading(h) =>
      if s.useCount == 1 && s.weakCount == 1 then s.Set(t, FastChecked(h)) else s.Set(t, Decrementing(h))
    case FastChecked(h) =>
      s.(useCount := 0, weakCount := 0, strong := s.strong - {h}, phase := Ending(t)).Set(t, FastDisposing)
    case Decrementing(h) =>
      var s' := s.(useCount := Minus(s.useCount), strong := s.strong - {h});
      if s.useCount == 1 then s'.(phase := Ending(t)).Set(t, Disposing) else s'.Set(t, Idle)
    case Disposing => s.(disposals := s.disposals + 1).Set(t, DroppingWeak)
    case DroppingWeak => DropWeakCount(s.(phase := Disposed), t)
    case Destroying => s.(destructions := s.destructions + 1, phase := Dead).Set(t, Idle)
    case FastDisposing => s.(disposals := s.disposals + 1, phase := Dying(t)).Set(t, FastDestroying)
    case FastDestroying => s.(destructions := s.destructions + 1, phase := Dead).Set(t, Idle)
    case _ => s
  }

  /** One step of one thread; `fast` tells whether the two counts can be read together. A step
      its thread has no right to take changes nothing, and nothing runs after a trap. */
  function Next(fast: bool, s: State, a: Action): State {
    if s.trapped then s
    else
      match a
      case Copy(t, h, h') => if s.Readable(t, h) && h' !in s.strong then AddStrong(s, t, h') else s
      case MakeWeak(t, h, w') => if s.Readable(t, h) && w' !in s.weak then AddWeak(s, t, w') else s
      case CopyWeak(t, w, w') => if s.ReadableWeak(t, w) && w' !in s.weak then AddWeak(s, t, w') else s
      case Give(t, h, u) => if s.Owns(t, h) then s.(strong := s.strong[h := u]) else s
      case GiveWeak(t, w, u) => if s.OwnsWeak(t, w) then s.(weak := s.weak[w := u]) else s
      case LockLoad(t, w) => if s.ReadableWeak(t, w) then s.Set(t, Locking(w, s.useCount)) else s
      case LockTry(t, h', spurious) =>
        if !s.At(t).Locking? || h' in s.strong then s
        else if s.At(t).count == 0 then s.Set(t, Idle)
        else if s.useCount == s.At(t).count && !spurious then AddStrong(s, t, h').Set(t, Idle)
        else s.Set(t, Locking(s.At(t).w, s.useCount))
      case Release(t, h) =>
        if s.Owns(t, h) then s.Set(t, if fast then FastLoading(h) else Decrementing(h)) else s
      case ReleaseWeak(t, w) =>
        if s.FreeWeak(t, w) then DropWeakCount(s.(weak := s.weak - {w}), t) else s
      case Continue(t) => Step(s, t)
  }

  function Run(fast: bool, s: State, acts: seq<Action>): State {
    if acts == [] then s else Next(fast, Run(fast, s, acts[..|acts| - 1]), acts[|acts| - 1])
  }

  /** A new control block: one owning reference `h`, held by thread `t`. */
  function Init(t: nat, h: nat): State {
    State(1, 1, map[h := t], map[], map[], 0, 0, Alive, false)
  }

  // ----- the invariant -----

  ghost predicate ThreadOk(s: State, t: nat) {
    match s.At(t)
    case Idle => true
    case Locking(w, count) => w in s.weak && (count == 0 ==> s.useCount == 0)
    case FastLoading(h) => h in s.strong && s.strong[h] == t
    case FastChecked(h) => h in s.strong && s.strong[h] == t && s.useCount == 1 && s.weakCount == 1
    case Decrementing(h) => h in s.strong && s.strong[h] == t
    case Disposing => s.phase == Ending(t) && s.disposals == 0 && s.weakCount == |s.weak| + 1
    case DroppingWeak => s.phase == Ending(t) && s.disposals == 1 && s.weakCount == |s.weak| + 1
    case FastDisposing => s.phase == Ending(t) && s.disposals == 0 && s.weakCount == |s.weak| == 0
    case Destroying => s.phase == Dying(t)
    case FastDestroying => s.phase == Dying(t)
  }

  ghost predicate PhaseOk(s: State) {
    match s.phase
    case Alive => s.useCount > 0 && s.weakCount == |s.weak| + 1 && s.disposals == s.destructions == 0
    case Ending(t) =>
      && s.useCount == 0 && s.destructions == 0
      && (s.At(t).Disposing? || s.At(t).DroppingWeak? || s.At(t).FastDisposing?)
    case Disposed => s.useCount == 0 && s.weakCount == |s.weak| > 0 && s.disposals == 1 && s.destructions == 0
    case Dying(t) =>
      && s.useCount == 0 && s.weakCount == |s.weak| == 0 && s.disposals == 1 && s.destructions == 0
      && (s.At(t).Destroying? || s.At(t).FastDestroying?)
    case Dead => s.useCount == 0 && s.weakCount == |s.weak| == 0 && s.disposals == s.destructions == 1
  }

  ghost predicate Inv(s: State) {
    && s.useCount == |s.strong| && s.useCount <= MAX_COUNT && s.weakCount <= MAX_COUNT
    && PhaseOk(s)
    && forall t :: ThreadOk(s, t)
  }

  lemma OneKey(m: map<nat, nat>, h: nat, h': nat)
    requires |m| == 1 && h in m && h' in m
    ensures h == h'
  {
    var m' := m - {h};
    assert |m'| == 0 by {
      assert m.Keys == m'.Keys + {h};
    }
    assert h' != h ==> h' in m';
  }

  lemma Removed(m: map<nat, nat>, h: nat)
    requires h in m
    ensures |m - {h}| == |m| - 1
  {
    assert m.Keys == (m - {h}).Keys + {h};
  }

  lemma Added(m: map<nat, nat>, h: nat, t: nat)
    ensures |m[h := t]| == if h in m then |m| else |m| + 1
  {
    assert m[h := t].Keys == m.Keys + {h};
    if h in m {
      assert m[h := t].Keys == m.Keys;
    }
  }

  /** While one thread is about to take both counts to zero, nobody else can change anything. */
  lemma LastReference(s: State, u: nat)
    requires Inv(s) && s.At(u).FastChecked?
    ensures s.weak == map[] && forall h | h in s.strong :: h == s.At(u).h
    ensures s.phase.Alive?
    ensures forall t, h :: !s.Readable(t, h)
    ensures forall t, w :: !s.ReadableWeak(t, w)
  {
    assert ThreadOk(s, u);
    assert |s.weak| == 0;
    forall h | h in s.strong
      ensures h == s.At(u).h
    {
      OneKey(s.strong, s.At(u).h, h);
    }
  }

  lemma AddStrongInv(s: State, t: nat, h: nat, h': nat)
    requires Inv(s) && s.Readable(t, h) && h' !in s.strong
    ensures Inv(AddStrong(s, t, h'))
  {
    var s' := AddStrong(s, t, h');
    Added(s.strong, h', t);
    forall u
      ensures ThreadOk(s', u)
    {
      assert ThreadOk(s, u);
      if s.At(u).FastChecked? {
        LastReference(s, u);
      }
    }
  }

  lemma AddWeakInv(s: State, t: nat, w': nat)
    requires Inv(s) && w' !in s.weak && s.At(t).Idle?
    requires (exists h :: s.Readable(t, h)) || (exists w :: s.ReadableWeak(t, w))
    ensures Inv(AddWeak(s, t, w'))
  {
    var s' := AddWeak(s, t, w');
    Added(s.weak, w', t);
    if w :| s.ReadableWeak(t, w) {
      assert |s.weak| > 0;
    }
    forall u
      ensures ThreadOk(s', u)
    {
      assert ThreadOk(s, u);
      if s.At(u).FastChecked? {
        LastReference(s, u);
      }
    }
  }

  lemma GiveInv(s: State, t: nat, h: nat, u: nat)
    requires Inv(s) && s.Owns(t, h)
    ensures Inv(s.(strong := s.strong[h := u]))
  {
    var s' := s.(strong := s.strong[h := u]);
    Added(s.strong, h, u);
    forall v
      ensures ThreadOk(s', v)
    {
      assert ThreadOk(s, v);
    }
  }

  lemma GiveWeakInv(s: State, t: nat, w: nat, u: nat)
    requires Inv(s) && s.OwnsWeak(t, w)
    ensures Inv(s.(weak := s.weak[w := u]))
  {
    var s' := s.(weak := s.weak[w := u]);
    Added(s.weak, w, u);
    forall v
      ensures ThreadOk(s', v)
    {
      assert ThreadOk(s, v);
    }
  }

  /** A thread that only moves to its next place, its own state being in order there. */
  lemma MoveInv(s: State, t: nat, p: Thread)
    requires Inv(s) && (s.At(t).Idle? || s.At(t).Locking? || s.At(t).FastLoading?)
    requires ThreadOk(s.Set(t, p), t)
    ensures Inv(s.Set(t, p))
  {
    var s' := s.Set(t, p);
    forall u
      ensures ThreadOk(s', u)
    {
      assert ThreadOk(s, u);
    }
  }

  lemma LockTryInv(s: State, t: nat, h': nat, spurious: bool)
    requires Inv(s) && s.At(t).Locking? && h' !in s.strong && !s.trapped
    ensures Inv(Next(false, s, LockTry(t, h', spurious)))
  {
    var s', p := Next(false, s, LockTry(t, h', spurious)), s.At(t);
    assert ThreadOk(s, t);
    if p.count != 0 && s.useCount == p.count && !spurious {
      Added(s.strong, h', t);
      assert |s.weak| > 0;
      forall u
        ensures ThreadOk(s', u)
      {
        assert ThreadOk(s, u);
      }
    } else {
      MoveInv(s, t, s'.At(t));
    }
  }

  lemma ReleaseWeakInv(s: State, t: nat, w: nat)
    requires Inv(s) && s.FreeWeak(t, w)
    ensures Inv(DropWeakCount(s.(weak := s.weak - {w}), t))
  {
    var s' := DropWeakCount(s.(weak := s.weak - {w}), t);
    Removed(s.weak, w);
    assert |s.weak| > 0;
    if s.phase.Ending? {
      assert ThreadOk(s, s.phase.t);
    }
    forall u
      ensures ThreadOk(s', u)
    {
      assert ThreadOk(s, u);
      if s.At(u).FastChecked? {
        LastReference(s, u);
      }
    }
  }

  lemma DroppedInv(s: State, t: nat)
    requires Inv(s) && s.At(t).DroppingWeak?
    ensures Inv(DropWeakCount(s.(phase := Disposed), t))
  {
    var s' := DropWeakCount(s.(phase := Disposed), t);
    assert ThreadOk(s, t);
    forall u
      ensures ThreadOk(s', u)
    {
      assert ThreadOk(s, u);
    }
  }

  lemma DecrementInv(s: State, t: nat)
    requires Inv(s) && s.At(t).Decrementing?
    ensures Inv(Step(s, t))
  {
    var s', h := Step(s, t), s.At(t).h;
    assert ThreadOk(s, t);
    Removed(s.strong, h);
    assert |s.strong| > 0;
    forall u
      ensures ThreadOk(s', u)
    {
      assert ThreadOk(s, u);
      if s.At(u).FastChecked? {
        LastReference(s, u);
      }
    }
  }

  lemma FastStoreInv(s: State, t: nat)
    requires Inv(s) && s.At(t).FastChecked?
    ensures Inv(Step(s, t))
  {
    var s', h := Step(s, t), s.At(t).h;
    assert ThreadOk(s, t);
    Removed(s.strong, h);
    LastReference(s, t);
    forall u
      ensures ThreadOk(s', u)
    {
      assert ThreadOk(s, u);
    }
  }

  /** The two virtual calls. */
  lemma EndingInv(s: State, t: nat)
    requires Inv(s)
    requires s.At(t).Disposing? || s.At(t).FastDisposing? || s.At(t).Destroying? || s.At(t).FastDestroying?
    ensures Inv(Step(s, t))
  {
    var s' := Step(s, t);
    assert ThreadOk(s, t);
    forall u
      ensures ThreadOk(s', u)
    {
      assert ThreadOk(s, u);
    }
  }

  lemma StepInv(s: State, t: nat)
    requires Inv(s)
    ensures Inv(Step(s, t))
  {
    assert ThreadOk(s, t);
    match s.At(t) {
      case FastLoading(h) => MoveInv(s, t, Step(s, t).At(t));
      case FastChecked(h) => FastStoreInv(s, t);
      case Decrementing(h) => DecrementInv(s, t);
      case DroppingWeak => DroppedInv(s, t);
      case Disposing => EndingInv(s, t);
      case FastDisposing => EndingInv(s, t);
      case Destroying => EndingInv(s, t);
      case FastDestroying => EndingInv(s, t);
      case _ =>
    }
  }

  /** The actions on owning references. */
  lemma StrongInv(fast: bool, s: State, a: Action)
    requires Inv(s) && !s.trapped && (a.Copy? || a.Give? || a.Release?)
    ensures Inv(Next(fast, s, a))
  {
    match a
    case Copy(t, h, h') =>
      if s.Readable(t, h) && h' !in s.strong {
        AddStrongInv(s, t, h, h');
      }
    case Give(t, h, u) =>
      if s.Owns(t, h) {
        GiveInv(s, t, h, u);
      }
    case Release(t, h) =>
      if s.Owns(t, h) {
        MoveInv(s, t, if fast then FastLoading(h) else Decrementing(h));
      }
  }

  /** The actions on weak references. */
  lemma WeakInv(fast: bool, s: State, a: Action)
    requires Inv(s) && !s.trapped && (a.MakeWeak? || a.CopyWeak? || a.GiveWeak? || a.ReleaseWeak?)
    ensures Inv(Next(fast, s, a))
  {
    match a
    case MakeWeak(t, h, w') =>
      if s.Readable(t, h) && w' !in s.weak {
        AddWeakInv(s, t, w');
      }
    case CopyWeak(t, w, w') =>
      if s.ReadableWeak(t, w) && w' !in s.weak {
        AddWeakInv(s, t, w');
      }
    case GiveWeak(t, w, u) =>
      if s.OwnsWeak(t, w) {
        GiveWeakInv(s, t, w, u);
      }
    case ReleaseWeak(t, w) =>
      if s.FreeWeak(t, w) {
        ReleaseWeakInv(s, t, w);
      }
  }

  lemma LockInv(fast: bool, s: State, a: Action)
    requires Inv(s) && !s.trapped && (a.LockLoad? || a.LockTry?)
    ensures Inv(Next(fast, s, a))
  {
    match a
    case LockLoad(t, w) =>
      if s.ReadableWeak(t, w) {
        MoveInv(s, t, Locking(w, s.useCount));
      }
    case LockTry(t, h', spurious) =>
      if s.At(t).Locking? && h' !in s.strong {
        LockTryInv(s, t, h', spurious);
      }
  }

  lemma NextInv(fast: bool, s: State, a: Action)
    requires Inv(s)
    ensures Inv(Next(fast, s, a))
  {
    if s.trapped {
    } else if a.Copy? || a.Give? || a.Release? {
      StrongInv(fast, s, a);
    } else if a.LockLoad? || a.LockTry? {
      LockInv(fast, s, a);
    } else if a.Continue? {
      StepInv(s, a.t);
    } else {
      WeakInv(fast, s, a);
    }
  }

  lemma {:induction false} RunInv(fast: bool, t: nat, h: nat, acts: seq<Action>)
    ensures Inv(Run(fast, Init(t, h), acts))
  {
    if acts != [] {
      RunInv(fast, t, h, acts[..|acts| - 1]);
      NextInv(fast, Run(fast, Init(t, h), acts[..|acts| - 1]), acts[|acts| - 1]);
    }
  }

  // ----- the promises, for every run, with or without the fast release -----

  /** The counts are the references: the use count is the number of
      owning references, the weak count the number of weak ones plus one until the object is gone. */
  lemma CountsAreReferences(fast: bool, t: nat, h: nat, acts: seq<Action>)
    ensures var s := Run(fast, Init(t, h), acts);
            s.useCount == |s.strong| && (s.strong != map[] ==> s.weakCount == |s.weak| + 1)
  {
    RunInv(fast, t, h, acts);
    var s := Run(fast, Init(t, h), acts);
    if s.strong != map[] {
      var k :| k in s.strong;
      assert |s.strong| > 0;
    }
  }

  /** The managed object lives as long as an owning reference does, the block as long as any
      reference does, and each is ended at most once, the object first. */
  lemma LifeFollowsReferences(fast: bool, t: nat, h: nat, acts: seq<Action>)
    ensures var s := Run(fast, Init(t, h), acts);
            && s.destructions <= s.disposals <= 1
            && (s.strong != map[] ==> s.disposals == 0)
            && (s.strong != map[] || s.weak != map[] ==> s.destructions == 0)
  {
    RunInv(fast, t, h, acts);
    var s := Run(fast, Init(t, h), acts);
    if s.strong != map[] {
      var k :| k in s.strong;
      assert |s.strong| > 0;
    }
    if s.weak != map[] {
      var k :| k in s.weak;
      assert |s.weak| > 0;
    }
    if s.phase.Ending? {
      assert ThreadOk(s, s.phase.t);
    }
  }

  /** Nothing leaks: when the last reference is gone and no thread is in the middle of a call, the
      object and the block have each been ended exactly once. */
  lemma NothingLeaks(fast: bool, t: nat, h: nat, acts: seq<Action>)
    ensures var s := Run(fast, Init(t, h), acts);
            s.strong == map[] && s.weak == map[] && (forall u :: s.At(u).Idle?) ==>
              s.disposals == 1 && s.destructions == 1
  {
    RunInv(fast, t, h, acts);
  }

  /** Once the block is destroyed no thread can take any further step on it. */
  lemma DeadIsFinal(fast: bool, t: nat, h: nat, acts: seq<Action>, a: Action)
    ensures var s := Run(fast, Init(t, h), acts);
            s.destructions > 0 ==> Next(fast, s, a) == s
  {
    RunInv(fast, t, h, acts);
    var s := Run(fast, Init(t, h), acts);
    assert ThreadOk(s, a.t);
    if s.destructions > 0 {
      assert |s.strong| == 0 && |s.weak| == 0;
    }
  }

  /** Promoting a weak reference yields an owner exactly while the object is alive; giving up is
      right, because an expired object never comes back. */
  lemma LockIsRight(fast: bool, t: nat, h: nat, acts: seq<Action>, u: nat, h': nat)
    ensures var s := Run(fast, Init(t, h), acts);
            var s' := Next(fast, s, LockTry(u, h', false));
            s.At(u).Locking? && h' !in s.strong && !s.trapped ==>
              && (s'.At(u).Idle? && h' in s'.strong ==> s.disposals == 0 && s.phase.Alive?)
              && (s'.At(u).Idle? && h' !in s'.strong && !s'.trapped ==> s.strong == map[])
  {
    RunInv(fast, t, h, acts);
    var s := Run(fast, Init(t, h), acts);
    assert ThreadOk(s, u);
    if s.useCount == 0 {
      assert s.strong == map[];
    }
  }

  /** An expired object never comes back to life. */
  lemma NoResurrection(fast: bool, t: nat, h: nat, acts: seq<Action>, a: Action)
    ensures var s := Run(fast, Init(t, h), acts);
            s.strong == map[] ==> Next(fast, s, a).strong == map[]
  {
    RunInv(fast, t, h, acts);
    var s := Run(fast, Init(t, h), acts);
    assert ThreadOk(s, a.t);
    assert s.strong == map[] ==> s.useCount == 0;
  }
}
