/** Threads that store to one padded cell, exchange it, and run the strong compare-and-exchange of `atomic_ref`
    on it. Each step below is one atomic access. */
module CasThreads {
  import opened PaddedCas

  /** What a call does to the value, and the value it reports to have found. */
  datatype Event<T> =
    | Wrote(t: nat, v: T)
    | Exchanged(t: nat, v: T, found: T)
    | Compared(t: nat, e: T, i: T, equal: bool, found: T)

  /** `e` and `i` are the caller's values; `since` is the number of accesses when the call began, `k` its own. */
  datatype Thread<T> =
    | Idle
    | Trying(e: Rep<T>, i: Rep<T>, since: nat, exp: Rep<T>, tries: nat)
    | Decided(e: Rep<T>, i: Rep<T>, since: nat, outcome: Outcome<T>, tries: nat, k: nat)

  datatype State<T> = State(cell: Rep<T>, threads: map<nat, Thread<T>>, log: seq<Event<T>>) {
    function At(t: nat): Thread<T> {
      if t in threads then threads[t] else Idle
    }

    function Set(t: nat, p: Thread<T>): State<T> {
      this.(threads := threads[t := p])
    }
  }

  datatype Action<T> =
    | Store(t: nat, v: Rep<T>)
    | Exchange(t: nat, v: Rep<T>)
    | Start(t: nat, e: Rep<T>, i: Rep<T>)
    | Try(t: nat)
    | Return(t: nat)

  /** One round of the loop: the machine instruction, then the comparison without the padding. */
  function Attempted<T(==)>(s: State<T>, t: nat): State<T>
    requires s.At(t).Trying?
  {
    var p, n := s.At(t), |s.log|;
    if Matches(Attempt(s.cell, false), p.exp) then
      s.(cell := Clear(p.i), log := s.log + [Compared(t, p.e.value, p.i.value, true, s.cell.value)])
       .Set(t, Decided(p.e, p.i, p.since, Replaced(s.cell), p.tries + 1, n))
    else if Clear(p.exp) != Clear(s.cell) then
      s.(log := s.log + [Compared(t, p.e.value, p.i.value, false, s.cell.value)])
       .Set(t, Decided(p.e, p.i, p.since, Differs(s.cell), p.tries + 1, n))
    else
      s.Set(t, p.(exp := s.cell, tries := p.tries + 1))
  }

  function Next<T(==)>(s: State<T>, a: Action<T>): State<T> {
    var p := s.At(a.t);
    match a
    case Store(t, v) => if p.Idle? then s.(cell := Clear(v), log := s.log + [Wrote(t, v.value)]) else s
    case Exchange(t, v) =>
      if p.Idle? then s.(cell := Clear(v), log := s.log + [Exchanged(t, v.value, s.cell.value)]) else s
    case Start(t, e, i) => if p.Idle? then s.Set(t, Trying(e, i, |s.log|, Clear(e), 0)) else s
    case Try(t) => if p.Trying? then Attempted(s, t) else s
    case Return(t) => if p.Decided? then s.Set(t, Idle) else s
  }

  function Run<T(==)>(s: State<T>, acts: seq<Action<T>>): State<T> {
    if acts == [] then s else Next(Run(s, acts[..|acts| - 1]), acts[|acts| - 1])
  }

  /** The cell may hold padding at first. */
  function Init<T>(cell: Rep<T>): State<T> {
    State(cell, map[], [])
  }

  // ----- the register of values it must behave like -----

  function After<T(==)>(v: T, e: Event<T>): T {
    match e
    case Wrote(_, w) => w
    case Exchanged(_, w, _) => w
    case Compared(_, exp, i, _, _) => if v == exp then i else v
  }

  /** The event reports what happens when the register holds `v`. */
  predicate Legal<T(==)>(v: T, e: Event<T>) {
    match e
    case Wrote(_, _) => true
    case Exchanged(_, _, found) => found == v
    case Compared(_, exp, _, equal, found) => found == v && (equal <==> v == exp)
  }

  function Replay<T(==)>(v: T, log: seq<Event<T>>): T {
    if log == [] then v else After(Replay(v, log[..|log| - 1]), log[|log| - 1])
  }

  ghost predicate LegalHistory<T>(v: T, log: seq<Event<T>>) {
    forall k | 0 <= k < |log| :: Legal(Replay(v, log[..k]), log[k])
  }

  // ----- the invariant -----

  /** Where the loop stands. After one round the cell still holds what it held, padding and all, unless a
      writer has cleared the padding; after two the padding is gone. */
  ghost predicate LoopOk<T>(cell: Rep<T>, e: Rep<T>, exp: Rep<T>, tries: nat) {
    && exp.value == e.value && tries <= 2
    && (tries == 0 ==> exp.pad == 0)
    && (tries == 1 ==> cell == exp || cell.pad == 0)
    && (tries == 2 ==> cell.pad == 0 && exp.pad == 0)
  }

  /** The decision of a call is an access of its own, made while it ran. */
  ghost predicate DecisionOk<T>(log: seq<Event<T>>, t: nat, p: Thread<T>)
    requires p.Decided?
  {
    && p.tries <= 3 && p.since <= p.k < |log|
    && match p.outcome
       case Replaced(before) =>
         before.value == p.e.value && log[p.k] == Compared(t, p.e.value, p.i.value, true, before.value)
       case Differs(seen) =>
         seen.value != p.e.value && log[p.k] == Compared(t, p.e.value, p.i.value, false, seen.value)
       case Retrying => false
  }

  ghost predicate ThreadOk<T>(s: State<T>, t: nat) {
    var p := s.At(t);
    && (p.Trying? ==> p.since <= |s.log| && LoopOk(s.cell, p.e, p.exp, p.tries))
    && (p.Decided? ==> DecisionOk(s.log, t, p))
  }

  ghost predicate Inv<T(!new)>(v: T, s: State<T>) {
    && LegalHistory(v, s.log) && Replay(v, s.log) == s.cell.value
    && forall t :: ThreadOk(s, t)
  }

  lemma Append<T>(v: T, log: seq<Event<T>>, e: Event<T>)
    requires LegalHistory(v, log) && Legal(Replay(v, log), e)
    ensures LegalHistory(v, log + [e]) && Replay(v, log + [e]) == After(Replay(v, log), e)
  {
    var log' := log + [e];
    assert log'[..|log|] == log;
    forall k | 0 <= k < |log'| ensures Legal(Replay(v, log'[..k]), log'[k]) {
      if k < |log| {
        assert log'[..k] == log[..k] && log'[k] == log[k];
      }
    }
  }

  /** Writing without padding, or not at all, upsets no loop. */
  lemma OthersOk<T(!new)>(v: T, s: State<T>, s': State<T>, t: nat)
    requires Inv(v, s) && (s'.cell == s.cell || s'.cell.pad == 0) && s.log <= s'.log
    requires forall u | u != t :: s'.At(u) == s.At(u)
    ensures forall u | u != t :: ThreadOk(s', u)
  {
    forall u | u != t ensures ThreadOk(s', u) {
      assert ThreadOk(s, u);
    }
  }

  /** A step of thread `t` that logs one event. */
  lemma LogInv<T(!new)>(v: T, s: State<T>, s': State<T>, t: nat, e: Event<T>)
    requires Inv(v, s) && s'.log == s.log + [e] && Legal(s.cell.value, e) && s'.cell.value == After(s.cell.value, e)
    requires s'.cell == s.cell || s'.cell.pad == 0
    requires (forall u | u != t :: s'.At(u) == s.At(u)) && ThreadOk(s', t)
    ensures Inv(v, s')
  {
    Append(v, s.log, e);
    OthersOk(v, s, s', t);
  }

  lemma StoreInv<T(!new)>(v: T, s: State<T>, t: nat, w: Rep<T>)
    requires Inv(v, s) && s.At(t).Idle?
    ensures Inv(v, Next(s, Store(t, w)))
  {
    LogInv(v, s, Next(s, Store(t, w)), t, Wrote(t, w.value));
  }

  lemma ExchangeInv<T(!new)>(v: T, s: State<T>, t: nat, w: Rep<T>)
    requires Inv(v, s) && s.At(t).Idle?
    ensures Inv(v, Next(s, Exchange(t, w)))
  {
    LogInv(v, s, Next(s, Exchange(t, w)), t, Exchanged(t, w.value, s.cell.value));
  }

  /** A round that decides nothing. */
  lemma RoundOk<T>(cell: Rep<T>, e: Rep<T>, exp: Rep<T>, tries: nat)
    requires LoopOk(cell, e, exp, tries) && cell != exp && Clear(exp) == Clear(cell)
    ensures LoopOk(cell, e, cell, tries + 1)
  {
  }

  lemma RoundInv<T(!new)>(v: T, s: State<T>, t: nat)
    requires Inv(v, s) && s.At(t).Trying? && s.cell != s.At(t).exp && Clear(s.At(t).exp) == Clear(s.cell)
    ensures Inv(v, Attempted(s, t))
  {
    assert ThreadOk(s, t);
    RoundOk(s.cell, s.At(t).e, s.At(t).exp, s.At(t).tries);
    OthersOk(v, s, Attempted(s, t), t);
  }

  lemma ReplacedInv<T(!new)>(v: T, s: State<T>, t: nat)
    requires Inv(v, s) && s.At(t).Trying? && s.cell == s.At(t).exp
    ensures Inv(v, Attempted(s, t))
  {
    assert ThreadOk(s, t);
    LogInv(v, s, Attempted(s, t), t, Compared(t, s.At(t).e.value, s.At(t).i.value, true, s.cell.value));
  }

  lemma DiffersInv<T(!new)>(v: T, s: State<T>, t: nat)
    requires Inv(v, s) && s.At(t).Trying? && Clear(s.At(t).exp) != Clear(s.cell)
    ensures Inv(v, Attempted(s, t))
  {
    assert ThreadOk(s, t);
    LogInv(v, s, Attempted(s, t), t, Compared(t, s.At(t).e.value, s.At(t).i.value, false, s.cell.value));
  }

  lemma TryInv<T(!new)>(v: T, s: State<T>, t: nat)
    requires Inv(v, s) && s.At(t).Trying?
    ensures Inv(v, Attempted(s, t))
  {
    if s.cell == s.At(t).exp {
      ReplacedInv(v, s, t);
    } else if Clear(s.At(t).exp) != Clear(s.cell) {
      DiffersInv(v, s, t);
    } else {
      RoundInv(v, s, t);
    }
  }

  lemma NextInv<T(!new)>(v: T, s: State<T>, a: Action<T>)
    requires Inv(v, s)
    ensures Inv(v, Next(s, a))
  {
    match a
    case Store(t, w) =>
      if s.At(t).Idle? {
        StoreInv(v, s, t, w);
      }
    case Exchange(t, w) =>
      if s.At(t).Idle? {
        ExchangeInv(v, s, t, w);
      }
    case Try(t) =>
      if s.At(t).Trying? {
        TryInv(v, s, t);
      }
    case Start(t, _, _) => OthersOk(v, s, Next(s, a), t); assert ThreadOk(s, t);
    case Return(t) => OthersOk(v, s, Next(s, a), t); assert ThreadOk(s, t);
  }

  lemma {:induction false} RunInv<T(!new)>(cell: Rep<T>, acts: seq<Action<T>>)
    ensures Inv(cell.value, Run(Init(cell), acts))
  {
    if acts != [] {
      RunInv(cell, acts[..|acts| - 1]);
      NextInv(cell.value, Run(Init(cell), acts[..|acts| - 1]), acts[|acts| - 1]);
    }
  }

  // ----- the promises, for every interleaving -----

  /** No call needs a fourth attempt, whatever the others store, exchange or compare and exchange, and whatever
      padding the cell held at first. */
  lemma WithinThree<T(!new)>(cell: Rep<T>, acts: seq<Action<T>>, t: nat)
    ensures var s := Run(Init(cell), acts);
      && (s.At(t).Trying? ==> s.At(t).tries <= 2)
      && (s.At(t).Trying? && s.At(t).tries == 2 ==> Next(s, Try(t)).At(t).Decided?)
      && (s.At(t).Decided? ==> s.At(t).tries <= 3)
  {
    RunInv(cell, acts);
    assert ThreadOk(Run(Init(cell), acts), t);
  }

  /** On values the operation is what its name says: all accesses in order are a history of one register of values,
      and a call's decision is an access of its own, made while it ran. */
  lemma ComparesValues<T(!new)>(cell: Rep<T>, acts: seq<Action<T>>)
    ensures var s := Run(Init(cell), acts);
      && LegalHistory(cell.value, s.log) && s.cell.value == Replay(cell.value, s.log)
      && forall t | s.At(t).Decided? :: DecisionOk(s.log, t, s.At(t))
  {
    RunInv(cell, acts);
    var s := Run(Init(cell), acts);
    forall t | s.At(t).Decided? ensures DecisionOk(s.log, t, s.At(t)) {
      assert ThreadOk(s, t);
    }
  }
}
