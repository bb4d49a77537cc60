/** The read-modify-write operations built on a compare-and-exchange loop: fetch-add and
    fetch-sub on floating types, fetch-min and fetch-max. Any number of threads run them on one
    cell; each step below is one atomic access. */
module FetchLoop {
  import opened PaddedCas

  /** The target's rounded addition and subtraction. */
  datatype Fp = Fp(add: (real, real) -> real, sub: (real, real) -> real)

  /** `Put` stands for the plain stores that other threads make to the cell. */
  datatype Kind = Add | Sub | Min | Max | Put

  /** One call: `wantNew` tells `__add_fetch_flt` and `__sub_fetch_flt` from the fetch-first forms. */
  datatype Op = Op(kind: Kind, i: real, wantNew: bool)

  /** The new value the loop computes from the one it last saw. */
  function Compute(fp: Fp, op: Op, old': real): real {
    match op.kind
    case Add => fp.add(old', op.i)
    case Sub => fp.sub(old', op.i)
    case Min => if old' < op.i then old' else op.i
    case Max => if old' > op.i then old' else op.i
    case Put => op.i
  }

  /** `since` is how many exchanges had succeeded when the call began, `k` the number of its own. */
  datatype Thread =
    | Idle
    | Loading(op: Op, since: nat)
    | Trying(op: Op, since: nat, old': Rep<real>, new': real)
    | Finished(op: Op, since: nat, k: nat, result: real)

  /** One successful exchange, or one store. */
  datatype Entry = Entry(t: nat, op: Op)

  /** One returned call, which ran from exchange number `since` until `until`. */
  datatype Call = Call(t: nat, op: Op, since: nat, until: nat, k: nat, result: real)

  /** `log` lists the successful exchanges in order, `calls` the calls that have returned. */
  datatype State = State(cell: Rep<real>, log: seq<Entry>, threads: map<nat, Thread>, calls: seq<Call>) {
    function At(t: nat): Thread {
      if t in threads then threads[t] else Idle
    }

    function Set(t: nat, p: Thread): State {
      this.(threads := threads[t := p])
    }
  }

  datatype Action =
    | Start(t: nat, op: Op)
    | Load(t: nat)
    | Try(t: nat, spurious: bool)
    | Return(t: nat)
    | Store(t: nat, i: real)

  function Next(fp: Fp, s: State, a: Action): State {
    var p := s.At(a.t);
    match a
    case Start(t, op) => if p.Idle? && !op.kind.Put? then s.Set(t, Loading(op, |s.log|)) else s
    case Load(t) =>
      if p.Loading? then s.Set(t, Trying(p.op, p.since, s.cell, Compute(fp, p.op, s.cell.value))) else s
    case Try(t, spurious) => if p.Trying? then Attempted(fp, s, t, spurious) else s
    case Return(t) =>
      if p.Finished?
      then s.(calls := s.calls + [Call(t, p.op, p.since, |s.log|, p.k, p.result)]).Set(t, Idle)
      else s
    case Store(t, i) =>
      if p.Idle? then s.(cell := Rep(i, 0), log := s.log + [Entry(t, Op(Put, i, false))]) else s
  }

  /** One compare-and-exchange: it succeeds, or the loop goes round with what it saw. */
  function Attempted(fp: Fp, s: State, t: nat, spurious: bool): State
    requires s.At(t).Trying?
  {
    var p := s.At(t);
    match AtomicOnce(p.old', Attempt(s.cell, spurious))
    case Replaced(_) =>
      s.(cell := Rep(p.new', 0), log := s.log + [Entry(t, p.op)])
      .Set(t, Finished(p.op, p.since, |s.log|, if p.op.wantNew then p.new' else p.old'.value))
    case Differs(seen) => s.Set(t, Trying(p.op, p.since, seen, Compute(fp, p.op, seen.value)))
    case Retrying => s
  }

  function Run(fp: Fp, s: State, acts: seq<Action>): State {
    if acts == [] then s else Next(fp, Run(fp, s, acts[..|acts| - 1]), acts[|acts| - 1])
  }

  function Init(cell: Rep<real>): State {
    State(cell, [], map[], [])
  }

  /** The operations applied one after the other. */
  function Fold(fp: Fp, v: real, log: seq<Entry>): real {
    if log == [] then v else Compute(fp, log[|log| - 1].op, Fold(fp, v, log[..|log| - 1]))
  }

  /** The value a call returns when its exchange is number `k`. */
  function Returns(fp: Fp, v: real, log: seq<Entry>, k: nat): real
    requires k < |log|
  {
    Fold(fp, v, log[..if log[k].op.wantNew then k + 1 else k])
  }

  /** Thread `t` made no exchange from number `from` on, before `until`. */
  ghost predicate NoneBy(log: seq<Entry>, t: nat, from: nat, until: nat) {
    forall m | from <= m < until && m < |log| :: log[m].t != t
  }

  /** While the call ran its thread made exactly one exchange, number `k`, for this very operation, and the
      result is the value just before it, or just after it. */
  ghost predicate Own(fp: Fp, v: real, log: seq<Entry>, c: Call) {
    && c.since <= c.k < c.until <= |log|
    && log[c.k] == Entry(c.t, c.op) && c.result == Returns(fp, v, log, c.k)
    && NoneBy(log, c.t, c.since, c.k) && NoneBy(log, c.t, c.k + 1, c.until)
  }

  /** The call of a thread that has its result, were it to return now. */
  function Returning(s: State, t: nat): Call
    requires s.At(t).Finished?
  {
    var p := s.At(t);
    Call(t, p.op, p.since, |s.log|, p.k, p.result)
  }

  ghost predicate ThreadOk(fp: Fp, v: real, s: State, t: nat) {
    match s.At(t)
    case Idle => true
    case Loading(op, since) => since <= |s.log| && NoneBy(s.log, t, since, |s.log|)
    case Trying(op, since, old', new') =>
      since <= |s.log| && NoneBy(s.log, t, since, |s.log|) && new' == Compute(fp, op, old'.value)
    case Finished(_, _, _, _) => Own(fp, v, s.log, Returning(s, t))
  }

  /** A call that returned is explained, and ended before its thread began the present one. */
  ghost predicate CallOk(fp: Fp, v: real, s: State, c: Call) {
    Own(fp, v, s.log, c) && (!s.At(c.t).Idle? ==> c.until <= s.At(c.t).since)
  }

  /** Calls of one thread come one after the other. */
  ghost predicate Apart(c: Call, d: Call) {
    c.t == d.t ==> c.until <= d.since
  }

  /** Entry number `m` is a store, or the exchange of some call. */
  ghost predicate Claimed(s: State, m: nat) {
    || (m < |s.log| && s.log[m].op.kind.Put?)
    || (exists c :: c in s.calls && c.k == m)
    || (m < |s.log| && s.At(s.log[m].t).Finished? && s.At(s.log[m].t).k == m)
  }

  ghost predicate Inv(fp: Fp, v: real, s: State) {
    && s.cell.value == Fold(fp, v, s.log)
    && (forall t :: ThreadOk(fp, v, s, t))
    && (forall c | c in s.calls :: CallOk(fp, v, s, c))
    && (forall i, j | 0 <= i < j < |s.calls| :: Apart(s.calls[i], s.calls[j]))
    && (forall m: nat | m < |s.log| :: Claimed(s, m))
  }

  /** More exchanges of other threads do not matter. */
  lemma OwnKept(fp: Fp, v: real, log: seq<Entry>, c: Call, e: Entry)
    requires Own(fp, v, log, c)
    ensures Own(fp, v, log + [e], c)
    ensures e.t != c.t && c.until == |log| ==> Own(fp, v, log + [e], c.(until := |log| + 1))
  {
    var log' := log + [e];
    assert log'[..c.k] == log[..c.k] && log'[..c.k + 1] == log[..c.k + 1];
    assert Returns(fp, v, log', c.k) == c.result;
  }

  lemma NextInv(fp: Fp, v: real, s: State, a: Action)
    requires Inv(fp, v, s)
    ensures Inv(fp, v, Next(fp, s, a))
  {
    assert ThreadOk(fp, v, s, a.t);
    match a
    case Try(t, spurious) =>
      if s.At(t).Trying? && AtomicOnce(s.At(t).old', Attempt(s.cell, spurious)).Replaced? {
        SucceededInv(fp, v, s, t, spurious);
      } else if s.At(t).Trying? {
        QuietInv(fp, v, s, t, Next(fp, s, a).At(t));
      }
    case Return(t) =>
      if s.At(t).Finished? {
        ReturnInv(fp, v, s, t);
      }
    case Start(t, op) =>
      if s.At(t).Idle? && !op.kind.Put? {
        StartInv(fp, v, s, t, op);
      }
    case Store(t, i) =>
      if s.At(t).Idle? {
        StoreInv(fp, v, s, t, i);
      }
    case Load(t) =>
      if s.At(t).Loading? {
        QuietInv(fp, v, s, t, Next(fp, s, a).At(t));
      }
  }

  /** A step inside a call that leaves cell and log alone. */
  lemma QuietInv(fp: Fp, v: real, s: State, t: nat, p: Thread)
    requires Inv(fp, v, s) && (s.At(t).Loading? || s.At(t).Trying?) && p.Trying?
    requires p.since == s.At(t).since && p.new' == Compute(fp, p.op, p.old'.value)
    ensures Inv(fp, v, s.Set(t, p))
  {
    var s' := s.Set(t, p);
    forall u ensures ThreadOk(fp, v, s', u) {
      assert ThreadOk(fp, v, s, u) && ThreadOk(fp, v, s, t);
    }
    forall c | c in s'.calls ensures CallOk(fp, v, s', c) {
      assert CallOk(fp, v, s, c);
    }
    forall m: nat | m < |s'.log| ensures Claimed(s', m) {
      assert Claimed(s, m);
    }
  }

  lemma StartInv(fp: Fp, v: real, s: State, t: nat, op: Op)
    requires Inv(fp, v, s) && s.At(t).Idle?
    ensures Inv(fp, v, s.Set(t, Loading(op, |s.log|)))
  {
    var s' := s.Set(t, Loading(op, |s.log|));
    forall u ensures ThreadOk(fp, v, s', u) {
      assert ThreadOk(fp, v, s, u);
    }
    forall c | c in s'.calls ensures CallOk(fp, v, s', c) {
      assert CallOk(fp, v, s, c);
    }
    forall m: nat | m < |s'.log| ensures Claimed(s', m) {
      assert Claimed(s, m);
    }
  }

  lemma ReturnInv(fp: Fp, v: real, s: State, t: nat)
    requires Inv(fp, v, s) && s.At(t).Finished?
    ensures Inv(fp, v, Next(fp, s, Return(t)))
  {
    var s', d := Next(fp, s, Return(t)), Returning(s, t);
    assert s'.calls == s.calls + [d] && s'.log == s.log;
    assert ThreadOk(fp, v, s, t);
    forall u ensures ThreadOk(fp, v, s', u) {
      assert ThreadOk(fp, v, s, u);
    }
    forall c | c in s'.calls ensures CallOk(fp, v, s', c) {
      assert c in s.calls ==> CallOk(fp, v, s, c);
    }
    forall i, j | 0 <= i < j < |s'.calls| ensures Apart(s'.calls[i], s'.calls[j]) {
      assert CallOk(fp, v, s, s.calls[i]);
    }
    forall m: nat | m < |s'.log| ensures Claimed(s', m) {
      assert Claimed(s, m);
      assert s'.calls[|s.calls|] == d;
    }
  }

  lemma SucceededInv(fp: Fp, v: real, s: State, t: nat, spurious: bool)
    requires Inv(fp, v, s) && s.At(t).Trying?
    requires AtomicOnce(s.At(t).old', Attempt(s.cell, spurious)).Replaced?
    ensures Inv(fp, v, Next(fp, s, Try(t, spurious)))
  {
    var s', p, n := Next(fp, s, Try(t, spurious)), s.At(t), |s.log|;
    var e := Entry(t, p.op);
    assert ThreadOk(fp, v, s, t) && s'.log == s.log + [e];
    assert s'.log[..n] == s.log && s'.log[..n + 1] == s'.log && s'.log[n] == e;
    forall u ensures ThreadOk(fp, v, s', u) {
      assert ThreadOk(fp, v, s, u);
      if u != t && s.At(u).Finished? {
        OwnKept(fp, v, s.log, Returning(s, u), e);
      }
    }
    forall c | c in s'.calls ensures CallOk(fp, v, s', c) {
      assert CallOk(fp, v, s, c);
      OwnKept(fp, v, s.log, c, e);
    }
    forall m: nat | m < |s'.log| ensures Claimed(s', m) {
      if m < n {
        assert Claimed(s, m);
      }
    }
  }

  lemma StoreInv(fp: Fp, v: real, s: State, t: nat, i: real)
    requires Inv(fp, v, s) && s.At(t).Idle?
    ensures Inv(fp, v, Next(fp, s, Store(t, i)))
  {
    var s', n, e := Next(fp, s, Store(t, i)), |s.log|, Entry(t, Op(Put, i, false));
    assert s'.log == s.log + [e] && s'.log[..n] == s.log && s'.log[n] == e;
    forall u ensures ThreadOk(fp, v, s', u) {
      assert ThreadOk(fp, v, s, u);
      if s.At(u).Finished? {
        OwnKept(fp, v, s.log, Returning(s, u), e);
      }
    }
    forall c | c in s'.calls ensures CallOk(fp, v, s', c) {
      assert CallOk(fp, v, s, c);
      OwnKept(fp, v, s.log, c, e);
    }
    forall m: nat | m < |s'.log| ensures Claimed(s', m) {
      if m < n {
        assert Claimed(s, m);
      }
    }
  }

  lemma {:induction false} RunInv(fp: Fp, cell: Rep<real>, acts: seq<Action>)
    ensures Inv(fp, cell.value, Run(fp, Init(cell), acts))
  {
    if acts != [] {
      RunInv(fp, cell, acts[..|acts| - 1]);
      NextInv(fp, cell.value, Run(fp, Init(cell), acts[..|acts| - 1]), acts[|acts| - 1]);
    }
  }

  /** Every interleaving: the cell holds the fold of the operations in the order of their exchanges. Each
      call made one exchange while it ran and returned the value just before it, or just after it for the
      forms that ask for the new value. Different calls made different exchanges, a call that returned
      before another began made the earlier one, and every exchange is some call's. */
  lemma Linearizes(fp: Fp, cell: Rep<real>, acts: seq<Action>)
    ensures var s, v := Run(fp, Init(cell), acts), cell.value;
            && s.cell.value == Fold(fp, v, s.log)
            && (forall c | c in s.calls :: Own(fp, v, s.log, c))
            && (forall t | s.At(t).Finished? :: Own(fp, v, s.log, Returning(s, t)))
            && (forall i, j | 0 <= i < j < |s.calls| :: s.calls[i].k != s.calls[j].k)
            && (forall c, d | c in s.calls && d in s.calls && c.until <= d.since :: c.k < d.k)
            && (forall m: nat | m < |s.log| :: Claimed(s, m))
  {
    RunInv(fp, cell, acts);
    var s, v := Run(fp, Init(cell), acts), cell.value;
    forall t | s.At(t).Finished? ensures Own(fp, v, s.log, Returning(s, t)) {
      assert ThreadOk(fp, v, s, t);
    }
    forall c | c in s.calls ensures Own(fp, v, s.log, c) {
      assert CallOk(fp, v, s, c);
    }
    forall i, j | 0 <= i < j < |s.calls| ensures s.calls[i].k != s.calls[j].k {
      assert Apart(s.calls[i], s.calls[j]);
      assert Own(fp, v, s.log, s.calls[i]) && Own(fp, v, s.log, s.calls[j]);
    }
  }

  ghost predicate AllOf(log: seq<Entry>, kind: Kind) {
    forall k | 0 <= k < |log| :: log[k].op.kind == kind
  }

  /** With fetch-min alone the cell ends at the least of its initial value and all completed
      operands; with fetch-max alone at the greatest. */
  lemma {:induction false} FoldOfMin(fp: Fp, v: real, log: seq<Entry>)
    requires AllOf(log, Min)
    ensures var r := Fold(fp, v, log);
            && r <= v && (forall k | 0 <= k < |log| :: r <= log[k].op.i)
            && (r == v || exists k :: 0 <= k < |log| && r == log[k].op.i)
  {
    if log != [] {
      var log' := log[..|log| - 1];
      FoldOfMin(fp, v, log');
      assert forall k | 0 <= k < |log'| :: log'[k] == log[k];
    }
  }

  lemma {:induction false} FoldOfMax(fp: Fp, v: real, log: seq<Entry>)
    requires AllOf(log, Max)
    ensures var r := Fold(fp, v, log);
            && r >= v && (forall k | 0 <= k < |log| :: r >= log[k].op.i)
            && (r == v || exists k :: 0 <= k < |log| && r == log[k].op.i)
  {
    if log != [] {
      var log' := log[..|log| - 1];
      FoldOfMax(fp, v, log');
      assert forall k | 0 <= k < |log'| :: log'[k] == log[k];
    }
  }

  /** All calls are of one kind, and nobody stores. */
  ghost predicate Calls(acts: seq<Action>, kind: Kind) {
    forall i | 0 <= i < |acts| :: !acts[i].Store? && (acts[i].Start? ==> acts[i].op.kind == kind)
  }

  ghost predicate AllKind(s: State, kind: Kind) {
    AllOf(s.log, kind) && forall t | !s.At(t).Idle? :: s.At(t).op.kind == kind
  }

  lemma KindOfStep(fp: Fp, s: State, a: Action, kind: Kind)
    requires AllKind(s, kind) && !a.Store? && (a.Start? ==> a.op.kind == kind)
    ensures AllKind(Next(fp, s, a), kind)
  {
    var s' := Next(fp, s, a);
    forall t | !s'.At(t).Idle? ensures s'.At(t).op.kind == kind {
      assert t != a.t ==> s'.At(t) == s.At(t);
    }
  }

  lemma {:induction false} KindOfRun(fp: Fp, cell: Rep<real>, acts: seq<Action>, kind: Kind)
    requires Calls(acts, kind)
    ensures AllKind(Run(fp, Init(cell), acts), kind)
  {
    if acts != [] {
      var before, a := acts[..|acts| - 1], acts[|acts| - 1];
      assert forall i | 0 <= i < |before| :: before[i] == acts[i];
      KindOfRun(fp, cell, before, kind);
      KindOfStep(fp, Run(fp, Init(cell), before), a, kind);
    }
  }

  /** The operand of a call that has made its exchange. */
  ghost predicate Operand(s: State, i: real) {
    || (exists c :: c in s.calls && c.op.i == i)
    || (exists t :: s.At(t).Finished? && s.At(t).op.i == i)
  }

  /** In a run all of whose calls are of one kind the entries are the operands of its calls. */
  lemma OperandsOfRun(fp: Fp, cell: Rep<real>, acts: seq<Action>, kind: Kind)
    requires Calls(acts, kind) && !kind.Put?
    ensures var s := Run(fp, Init(cell), acts);
      && s.cell.value == Fold(fp, cell.value, s.log) && AllOf(s.log, kind)
      && (forall k | 0 <= k < |s.log| :: Operand(s, s.log[k].op.i))
      && (forall i | Operand(s, i) :: exists k :: 0 <= k < |s.log| && s.log[k].op.i == i)
  {
    var s, v := Run(fp, Init(cell), acts), cell.value;
    KindOfRun(fp, cell, acts, kind);
    Linearizes(fp, cell, acts);
    forall k | 0 <= k < |s.log| ensures Operand(s, s.log[k].op.i) {
      EntryIsOperand(fp, v, s, k);
    }
    forall i | Operand(s, i) ensures exists k :: 0 <= k < |s.log| && s.log[k].op.i == i {
      if c :| c in s.calls && c.op.i == i {
        assert Own(fp, v, s.log, c);
      } else {
        var t :| s.At(t).Finished? && s.At(t).op.i == i;
        assert Own(fp, v, s.log, Returning(s, t));
      }
    }
  }

  lemma EntryIsOperand(fp: Fp, v: real, s: State, k: nat)
    requires k < |s.log| && Claimed(s, k) && !s.log[k].op.kind.Put?
    requires forall c | c in s.calls :: Own(fp, v, s.log, c)
    requires forall t | s.At(t).Finished? :: Own(fp, v, s.log, Returning(s, t))
    ensures Operand(s, s.log[k].op.i)
  {
    if c :| c in s.calls && c.k == k {
      assert Own(fp, v, s.log, c);
    } else {
      assert Own(fp, v, s.log, Returning(s, s.log[k].t));
    }
  }

  /** With fetch-min alone, in every interleaving, the cell holds the least of its initial value and the operands of
      all calls that have made their exchange, those that have returned among them. */
  lemma MinOfRun(fp: Fp, cell: Rep<real>, acts: seq<Action>)
    requires Calls(acts, Min)
    ensures var s := Run(fp, Init(cell), acts);
      && s.cell.value <= cell.value && (forall i | Operand(s, i) :: s.cell.value <= i)
      && (s.cell.value == cell.value || Operand(s, s.cell.value))
  {
    var s := Run(fp, Init(cell), acts);
    OperandsOfRun(fp, cell, acts, Min);
    FoldOfMin(fp, cell.value, s.log);
  }

  /** With fetch-max alone it holds the greatest. */
  lemma MaxOfRun(fp: Fp, cell: Rep<real>, acts: seq<Action>)
    requires Calls(acts, Max)
    ensures var s := Run(fp, Init(cell), acts);
      && s.cell.value >= cell.value && (forall i | Operand(s, i) :: s.cell.value >= i)
      && (s.cell.value == cell.value || Operand(s, s.cell.value))
  {
    var s := Run(fp, Init(cell), acts);
    OperandsOfRun(fp, cell, acts, Max);
    FoldOfMax(fp, cell.value, s.log);
  }

  // ----- when do the loops end -----

  /** As long as the padding is set nothing has happened, and the first entry of a padded cell's log is a store. */
  ghost predicate PaddingOk(cell: Rep<real>, s: State) {
    && (s.cell.pad != 0 <==> cell.pad != 0 && s.log == [])
    && (s.cell.pad != 0 ==> s.cell == cell && s.calls == [] && forall t :: !s.At(t).Finished?)
    && (cell.pad != 0 && s.log != [] ==> s.log[0].op.kind.Put?)
  }

  lemma PaddingStep(fp: Fp, cell: Rep<real>, s: State, a: Action)
    requires PaddingOk(cell, s)
    ensures PaddingOk(cell, Next(fp, s, a))
    ensures s.cell.pad != 0 && !a.Store? ==> Next(fp, s, a).log == []
  {
    var s' := Next(fp, s, a);
    if s.cell.pad != 0 {
      forall t | t != a.t ensures s'.At(t) == s.At(t) {
      }
      assert !s.At(a.t).Finished?;
    }
  }

  lemma {:induction false} PaddingOfRun(fp: Fp, cell: Rep<real>, acts: seq<Action>)
    ensures PaddingOk(cell, Run(fp, Init(cell), acts))
  {
    if acts != [] {
      PaddingOfRun(fp, cell, acts[..|acts| - 1]);
      PaddingStep(fp, cell, Run(fp, Init(cell), acts[..|acts| - 1]), acts[|acts| - 1]);
    }
  }

  /** The loops use the branch meant for `atomic<T>` also on an `atomic_ref`, whose cell may hold set padding bits:
      then no call of any thread ever succeeds, in any interleaving, as long as nobody stores to the cell. */
  lemma {:induction false} PaddingBlocksEveryone(fp: Fp, cell: Rep<real>, acts: seq<Action>)
    requires cell.pad != 0 && forall i | 0 <= i < |acts| :: !acts[i].Store?
    ensures var s := Run(fp, Init(cell), acts);
            s.cell == cell && s.log == [] && s.calls == [] && forall t :: !s.At(t).Finished?
  {
    if acts != [] {
      var before := acts[..|acts| - 1];
      assert forall i | 0 <= i < |before| :: before[i] == acts[i];
      PaddingBlocksEveryone(fp, cell, before);
      PaddingOfRun(fp, cell, before);
      PaddingStep(fp, cell, Run(fp, Init(cell), before), acts[|acts| - 1]);
    }
  }

  /** A call left alone ends within two honest attempts exactly when the padding was clear at the start or somebody
      has stored to the cell since. */
  lemma AloneEndsExactly(fp: Fp, cell: Rep<real>, acts: seq<Action>, t: nat)
    requires Run(fp, Init(cell), acts).At(t).Trying?
    ensures var s := Run(fp, Init(cell), acts);
            var once := Next(fp, s, Try(t, false));
            (once.At(t).Finished? || Next(fp, once, Try(t, false)).At(t).Finished?)
              <==> cell.pad == 0 || exists e :: e in s.log && e.op.kind.Put?
  {
    var s := Run(fp, Init(cell), acts);
    var once := Next(fp, s, Try(t, false));
    PaddingOfRun(fp, cell, acts);
    if s.log != [] {
      assert s.log[0] in s.log;
    }
    if s.cell.pad != 0 {
      assert once.cell == s.cell;
    }
  }
}
