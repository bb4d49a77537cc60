/** The atomic shared pointer: a pointer field and a control-block word whose lowest bit is a
    lock. Any number of threads load, exchange, compare-and-exchange and wait; each step below is
    one access to the pointer field or to the word. */
module SpAtomic {

  /** A shared pointer value: the stored pointer and the control block (0 for none). */
  datatype Val = Val(ptr: nat, block: nat)

  /** The word: the control block, and the lock bit. */
  datatype Word = Word(block: nat, locked: bool)

  datatype Op = Load | Swap(desired: Val) | Cas(expected: Val, desired: Val) | Wait(old': Val)

  datatype Result = Loaded(v: Val) | Swapped(v: Val) | Compared(equal: bool, v: Val) | Matched | Waited

  /** A call under way: `since` is how many accesses had taken effect when it began. */
  datatype Begun = Begun(op: Op, since: nat)

  /** `k` is the number of the call's own access, or for a wait the number of accesses before its comparison. */
  datatype Thread =
    | Idle
    | Spinning(c: Begun)                              // looking for the lock bit to be clear
    | Locking(c: Begun, block: nat)                   // saw it clear, about to set it
    | Holding(c: Begun, block: nat)
    | HavePtr(c: Begun, block: nat, p: nat)           // pointer read, about to take a reference to `block`
    | PtrStored(c: Begun, v: Val)                     // pointer replaced, about to exchange the word
    | Unlocking(c: Begun, r: Result, k: nat)          // about to read the word back
    | Unlock(c: Begun, r: Result, k: nat, seen: Word) // about to clear the bit
    | Blocked(c: Begun, block: nat, k: nat)           // asleep until the word differs from `block` unlocked
    | Done(c: Begun, r: Result, k: nat)
  {
    predicate Critical() {
      Holding? || HavePtr? || PtrStored? || Unlocking? || Unlock?
    }

    /** Its access has not taken effect yet. */
    predicate Before() {
      Spinning? || Locking? || Holding? || HavePtr? || PtrStored?
    }

    /** Its access has taken effect. */
    predicate Acted() {
      Unlocking? || Unlock? || Done?
    }
  }

  /** One completed access, in the order in which they take effect. */
  datatype Event = Event(t: nat, op: Op, r: Result)

  /** One returned call, which ran from access number `since` until `until`. */
  datatype Call = Call(t: nat, op: Op, since: nat, until: nat, k: nat, r: Result)

  datatype Holder = Free | By(t: nat)

  /** `log` lists the accesses in order, `calls` the calls that have returned, except waits. */
  datatype State = State(ptr: nat, word: Word, threads: map<nat, Thread>, log: seq<Event>, calls: seq<Call>, holder: Holder) {
    function At(t: nat): Thread {
      if t in threads then threads[t] else Idle
    }

    function Set(t: nat, p: Thread): State {
      this.(threads := threads[t := p])
    }

    function Log(t: nat, op: Op, r: Result): State {
      this.(log := log + [Event(t, op, r)])
    }
  }

  datatype Action = Start(t: nat, op: Op) | Step(t: nat) | Return(t: nat)

  predicate Stores(op: Op) {
    op.Swap? || op.Cas?
  }

  function Desired(op: Op): Val {
    if Stores(op) then op.desired else Val(0, 0)
  }

  /** What the holder of the lock does first. */
  function Decide(s: State, t: nat, c: Begun, block: nat): State {
    match c.op
    case Load => s.Set(t, HavePtr(c, block, s.ptr))
    case Swap(desired) => s.(ptr := desired.ptr).Set(t, PtrStored(c, Val(s.ptr, block)))
    case Cas(expected, desired) =>
      if s.ptr == expected.ptr && block == expected.block
      then s.(ptr := desired.ptr).Set(t, PtrStored(c, Val(s.ptr, block)))
      else s.Set(t, HavePtr(c, block, s.ptr))
    case Wait(old') => s.Set(t, Unlocking(c, if Val(s.ptr, block) == old' then Matched else Waited, |s.log|))
  }

  /** The exchange that stores the new control block and drops the lock with it. */
  function ExchangeWord(s: State, t: nat, c: Begun, v: Val): State {
    var r := if c.op.Cas? then Compared(true, v) else Swapped(v);
    s.(word := Word(Desired(c.op).block, false), holder := Free).Log(t, c.op, r).Set(t, Done(c, r, |s.log|))
  }

  /** A reference to the loaded block is taken while the lock still keeps the block in place. */
  function TakeReference(s: State, t: nat, c: Begun, v: Val): State {
    var r := if c.op.Cas? then Compared(false, v) else Loaded(v);
    s.Log(t, c.op, r).Set(t, Unlocking(c, r, |s.log|))
  }

  /** The bit is cleared: a wait that matched goes to sleep on what it read, the rest return. */
  function ClearBit(s: State, t: nat, c: Begun, r: Result, k: nat, seen: Word): State {
    s.(word := s.word.(locked := false), holder := Free)
     .Set(t, if r.Matched? then Blocked(c, seen.block, k) else Done(c, r, k))
  }

  function StepOf(s: State, t: nat): State {
    match s.At(t)
    case Spinning(c) => if s.word.locked then s else s.Set(t, Locking(c, s.word.block))
    case Locking(c, block) =>
      if s.word == Word(block, false)
      then s.(word := Word(block, true), holder := By(t)).Set(t, Holding(c, block))
      else s.Set(t, Locking(c, s.word.block))
    case Holding(c, block) => Decide(s, t, c, block)
    case HavePtr(c, block, p) => TakeReference(s, t, c, Val(p, block))
    case PtrStored(c, v) => ExchangeWord(s, t, c, v)
    case Unlocking(c, r, k) => s.Set(t, Unlock(c, r, k, s.word))
    case Unlock(c, r, k, seen) =>
      if s.word == seen then ClearBit(s, t, c, r, k, seen)
      else s.Set(t, Unlock(c, r, k, s.word.(locked := true)))
    case Blocked(c, block, k) => if s.word != Word(block, false) then s.Set(t, Done(c, Waited, k)) else s
    case _ => s
  }

  function Returned(s: State, t: nat, c: Begun, r: Result, k: nat): State {
    var s' := s.Set(t, Idle);
    if c.op.Wait? then s' else s'.(calls := s.calls + [Call(t, c.op, c.since, |s.log|, k, r)])
  }

  function Next(s: State, a: Action): State {
    var p := s.At(a.t);
    match a
    case Start(t, op) => if p.Idle? then s.Set(t, Spinning(Begun(op, |s.log|))) else s
    case Step(t) => StepOf(s, t)
    case Return(t) => if p.Done? then Returned(s, t, p.c, p.r, p.k) else s
  }

  function Run(s: State, acts: seq<Action>): State {
    if acts == [] then s else Next(Run(s, acts[..|acts| - 1]), acts[|acts| - 1])
  }

  function Init(v: Val): State {
    State(v.ptr, Word(v.block, false), map[], [], [], Free)
  }

  // ----- the sequential register it must behave like -----

  function After(v: Val, e: Event): Val {
    match e.op
    case Swap(desired) => desired
    case Cas(expected, desired) => if v == expected then desired else v
    case _ => v
  }

  /** The result `e` must report when the register holds `v`. */
  predicate Legal(v: Val, e: Event) {
    match e.op
    case Load => e.r == Loaded(v)
    case Swap(_) => e.r == Swapped(v)
    case Cas(expected, _) => e.r == Compared(v == expected, v)
    case Wait(_) => false
  }

  function Replay(v: Val, log: seq<Event>): Val {
    if log == [] then v else After(Replay(v, log[..|log| - 1]), log[|log| - 1])
  }

  ghost predicate LegalHistory(v: Val, log: seq<Event>) {
    forall k | 0 <= k < |log| :: Legal(Replay(v, log[..k]), log[k])
  }

  // ----- the invariant -----

  /** Thread `t` made no access from number `from` on, before `until`. */
  ghost predicate NoneBy(log: seq<Event>, t: nat, from: nat, until: nat) {
    forall m | from <= m < until && m < |log| :: log[m].t != t
  }

  /** While the call ran its thread made exactly one access, number `k`, for this very operation and with this
      very result. */
  ghost predicate Own(log: seq<Event>, c: Call) {
    && c.since <= c.k < c.until <= |log| && log[c.k] == Event(c.t, c.op, c.r)
    && NoneBy(log, c.t, c.since, c.k) && NoneBy(log, c.t, c.k + 1, c.until)
  }

  /** The call of a thread whose access has taken effect, were it to return now. */
  function Returning(s: State, t: nat): Call
    requires s.At(t).Acted()
  {
    var p := s.At(t);
    Call(t, p.c.op, p.c.since, |s.log|, p.k, p.r)
  }

  /** The comparison of a wait, made under the lock. */
  predicate Compares(now: Val, s: State, op: Op, r: Result, k: nat) {
    op.Wait? && k == |s.log| && r == if now == op.old' then Matched else Waited
  }

  /** Where the thread stands with the lock and the register. */
  ghost predicate PlaceOk(v: Val, s: State, t: nat) {
    var now := Replay(v, s.log);
    && (s.At(t).Critical() <==> s.holder == By(t))
    && match s.At(t) {
         case Holding(c, block) => block == now.block && s.ptr == now.ptr
         case HavePtr(c, block, p) =>
           Val(p, block) == now && s.ptr == now.ptr && (c.op.Load? || (c.op.Cas? && now != c.op.expected))
         case PtrStored(c, w) =>
           w == now && s.ptr == Desired(c.op).ptr && (c.op.Swap? || (c.op.Cas? && now == c.op.expected))
         case Unlocking(c, r, k) => s.ptr == now.ptr && (c.op.Wait? ==> Compares(now, s, c.op, r, k))
         case Unlock(c, r, k, seen) =>
           s.ptr == now.ptr && seen == s.word && (c.op.Wait? ==> Compares(now, s, c.op, r, k))
         case Blocked(c, block, k) =>
           c.op.Wait? && block == c.op.old'.block && k <= |s.log| && Replay(v, s.log[..k]) == c.op.old'
         case _ => true
       }
  }

  /** What the thread's call has done so far. */
  ghost predicate CallOk(s: State, t: nat) {
    var p := s.At(t);
    && (p.Before() ==> p.c.since <= |s.log| && NoneBy(s.log, t, p.c.since, |s.log|))
    && (p.Acted() && !p.c.op.Wait? ==> Own(s.log, Returning(s, t)) && !p.r.Matched?)
  }

  /** A call that returned is explained, and ended before its thread began the present one. */
  ghost predicate ReturnOk(s: State, c: Call) {
    Own(s.log, c) && (!s.At(c.t).Idle? ==> c.until <= s.At(c.t).c.since)
  }

  /** Calls of one thread come one after the other. */
  ghost predicate Apart(c: Call, d: Call) {
    c.t == d.t ==> c.until <= d.since
  }

  /** Some call made access number `m`. */
  ghost predicate Claimed(s: State, m: nat) {
    || (exists c :: c in s.calls && c.k == m)
    || (m < |s.log| && s.At(s.log[m].t).Acted() && !s.At(s.log[m].t).c.op.Wait? && s.At(s.log[m].t).k == m)
  }

  ghost predicate Register(v: Val, s: State) {
    && LegalHistory(v, s.log)
    && s.word.block == Replay(v, s.log).block
    && (s.word.locked <==> s.holder.By?)
    && (s.holder.Free? ==> s.ptr == Replay(v, s.log).ptr)
  }

  ghost predicate History(s: State) {
    && (forall c | c in s.calls :: ReturnOk(s, c))
    && (forall i, j | 0 <= i < j < |s.calls| :: Apart(s.calls[i], s.calls[j]))
    && (forall m: nat | m < |s.log| :: Claimed(s, m))
  }

  ghost predicate Inv(v: Val, s: State) {
    && Register(v, s)
    && (forall t :: PlaceOk(v, s, t))
    && (forall t :: CallOk(s, t))
    && History(s)
  }

  lemma Append(v: Val, log: seq<Event>, e: Event)
    requires LegalHistory(v, log) && Legal(Replay(v, log), e)
    ensures LegalHistory(v, log + [e]) && Replay(v, log + [e]) == After(Replay(v, log), e)
  {
    var log' := log + [e];
    assert log'[..|log|] == log;
    forall k | 0 <= k < |log'|
      ensures Legal(Replay(v, log'[..k]), log'[k])
    {
      if k < |log| {
        assert log'[..k] == log[..k] && log'[k] == log[k];
      }
    }
  }

  // ----- each step keeps the lock and the register -----

  /** A step that leaves the register, the pointer and the word alone. */
  lemma QuietPlace(v: Val, s: State, t: nat, p: Thread)
    requires Inv(v, s) && s.At(t).Critical() == p.Critical() && PlaceOk(v, s.Set(t, p), t)
    ensures Register(v, s.Set(t, p)) && forall u :: PlaceOk(v, s.Set(t, p), u)
  {
    forall u ensures PlaceOk(v, s.Set(t, p), u) {
      assert PlaceOk(v, s, u);
    }
  }

  lemma LockPlace(v: Val, s: State, t: nat)
    requires Inv(v, s) && s.At(t).Locking? && s.word == Word(s.At(t).block, false)
    ensures Register(v, StepOf(s, t)) && forall u :: PlaceOk(v, StepOf(s, t), u)
  {
    forall u ensures PlaceOk(v, StepOf(s, t), u) {
      assert PlaceOk(v, s, u);
    }
  }

  lemma DecidePlace(v: Val, s: State, t: nat)
    requires Inv(v, s) && s.At(t).Holding?
    ensures Register(v, StepOf(s, t)) && forall u :: PlaceOk(v, StepOf(s, t), u)
  {
    assert PlaceOk(v, s, t);
    forall u ensures PlaceOk(v, StepOf(s, t), u) {
      assert PlaceOk(v, s, u);
    }
  }

  lemma UnlockPlace(v: Val, s: State, t: nat)
    requires Inv(v, s) && s.At(t).Unlock?
    ensures Register(v, StepOf(s, t)) && forall u :: PlaceOk(v, StepOf(s, t), u)
  {
    assert PlaceOk(v, s, t) && CallOk(s, t);
    assert s.log[..|s.log|] == s.log;
    forall u ensures PlaceOk(v, StepOf(s, t), u) {
      assert PlaceOk(v, s, u);
    }
  }

  /** The state after an access with result `r`, apart from the calls. */
  lemma AccessPlace(v: Val, s: State, t: nat, e: Event)
    requires Inv(v, s) && (s.At(t).HavePtr? || s.At(t).PtrStored?) && StepOf(s, t).log == s.log + [e]
    ensures Register(v, StepOf(s, t)) && forall u :: PlaceOk(v, StepOf(s, t), u)
  {
    var s' := StepOf(s, t);
    assert PlaceOk(v, s, t) && e == s'.log[|s.log|];
    Append(v, s.log, e);
    forall u ensures PlaceOk(v, s', u) {
      assert PlaceOk(v, s, u);
      if u != t {
        OtherPlace(v, s, t, e, u);
      }
    }
  }

  lemma OtherPlace(v: Val, s: State, t: nat, e: Event, u: nat)
    requires Inv(v, s) && (s.At(t).HavePtr? || s.At(t).PtrStored?) && StepOf(s, t).log == s.log + [e] && u != t
    ensures PlaceOk(v, StepOf(s, t), u)
  {
    assert PlaceOk(v, s, t) && PlaceOk(v, s, u);
    if s.At(u).Blocked? {
      assert (s.log + [e])[..s.At(u).k] == s.log[..s.At(u).k];
    }
  }

  // ----- each step keeps the history -----

  /** A step that makes no access. */
  lemma QuietCalls(v: Val, s: State, t: nat, s': State)
    requires Inv(v, s) && s'.log == s.log && s'.calls == s.calls && s'.threads == s.threads[t := s'.At(t)]
    requires var p, q := s.At(t), s'.At(t);
      if p.Idle? then q.Before() && q.c.since == |s.log|
      else !q.Idle? && q.c == p.c && (q.Before() ==> p.Before()) &&
           (!q.c.op.Wait? ==> (q.Acted() ==> p.Acted() && q.k == p.k && q.r == p.r) && (p.Acted() ==> q.Acted()))
    ensures (forall u :: CallOk(s', u)) && History(s')
  {
    forall u ensures CallOk(s', u) {
      assert CallOk(s, u);
    }
    forall c | c in s'.calls ensures ReturnOk(s', c) {
      assert ReturnOk(s, c);
    }
    forall m: nat | m < |s'.log| ensures Claimed(s', m) {
      assert Claimed(s, m);
    }
  }

  /** Further accesses of other threads do not matter. */
  lemma OwnKept(log: seq<Event>, c: Call, e: Event)
    requires Own(log, c)
    ensures Own(log + [e], c)
    ensures e.t != c.t && c.until == |log| ==> Own(log + [e], c.(until := |log| + 1))
  {
  }

  lemma AccessCalls(v: Val, s: State, t: nat, e: Event)
    requires Inv(v, s) && (s.At(t).HavePtr? || s.At(t).PtrStored?) && StepOf(s, t).log == s.log + [e]
    ensures (forall u :: CallOk(StepOf(s, t), u)) && History(StepOf(s, t))
  {
    var s' := StepOf(s, t);
    forall u ensures CallOk(s', u) {
      AccessCall(v, s, t, e, u);
    }
    forall c | c in s'.calls ensures ReturnOk(s', c) {
      assert ReturnOk(s, c) && CallOk(s, t);
      OwnKept(s.log, c, e);
    }
    forall m: nat | m < |s'.log| ensures Claimed(s', m) {
      AccessClaim(v, s, t, e, m);
    }
  }

  lemma AccessCall(v: Val, s: State, t: nat, e: Event, u: nat)
    requires Inv(v, s) && (s.At(t).HavePtr? || s.At(t).PtrStored?) && StepOf(s, t).log == s.log + [e]
    ensures CallOk(StepOf(s, t), u)
  {
    assert CallOk(s, u) && PlaceOk(v, s, t) && StepOf(s, t).log[|s.log|] == e;
    if u != t && s.At(u).Acted() && !s.At(u).c.op.Wait? {
      OwnKept(s.log, Returning(s, u), e);
    }
  }

  lemma AccessClaim(v: Val, s: State, t: nat, e: Event, m: nat)
    requires Inv(v, s) && (s.At(t).HavePtr? || s.At(t).PtrStored?) && StepOf(s, t).log == s.log + [e] && m <= |s.log|
    ensures Claimed(StepOf(s, t), m)
  {
    assert PlaceOk(v, s, t) && StepOf(s, t).log[|s.log|] == e;
    if m < |s.log| {
      assert Claimed(s, m) && StepOf(s, t).log[m] == s.log[m];
    }
  }

  lemma ReturnCalls(v: Val, s: State, t: nat)
    requires Inv(v, s) && s.At(t).Done?
    ensures History(Next(s, Return(t)))
  {
    var s', p := Next(s, Return(t)), s.At(t);
    assert CallOk(s, t);
    forall c | c in s'.calls ensures ReturnOk(s', c) {
      assert c in s.calls ==> ReturnOk(s, c);
    }
    forall i, j | 0 <= i < j < |s'.calls| ensures Apart(s'.calls[i], s'.calls[j]) {
      assert ReturnOk(s, s.calls[i]);
    }
    forall m: nat | m < |s'.log| ensures Claimed(s', m) {
      ReturnClaim(s, t, m);
    }
  }

  /** The access of a thread becomes that of the call it returned from. */
  lemma ReturnClaim(s: State, t: nat, m: nat)
    requires s.At(t).Done? && Claimed(s, m)
    ensures Claimed(Next(s, Return(t)), m)
  {
    var s', p := Next(s, Return(t)), s.At(t);
    if c :| c in s.calls && c.k == m {
      assert c in s'.calls;
    } else if s.log[m].t == t {
      assert s'.calls[|s.calls|] == Returning(s, t);
    }
  }

  lemma ReturnPlace(v: Val, s: State, t: nat, u: nat)
    requires Inv(v, s) && s.At(t).Done?
    ensures PlaceOk(v, Next(s, Return(t)), u) && CallOk(Next(s, Return(t)), u)
  {
    assert PlaceOk(v, s, u) && CallOk(s, u);
  }

  lemma ReturnInv(v: Val, s: State, t: nat)
    requires Inv(v, s) && s.At(t).Done?
    ensures Inv(v, Next(s, Return(t)))
  {
    forall u ensures PlaceOk(v, Next(s, Return(t)), u) && CallOk(Next(s, Return(t)), u) {
      ReturnPlace(v, s, t, u);
    }
    ReturnCalls(v, s, t);
  }

  /** The access is made: the step that logs it. */
  lemma AccessInv(v: Val, s: State, t: nat)
    requires Inv(v, s) && (s.At(t).HavePtr? || s.At(t).PtrStored?)
    ensures Inv(v, StepOf(s, t))
  {
    var e := StepOf(s, t).log[|s.log|];
    AccessPlace(v, s, t, e);
    AccessCalls(v, s, t, e);
  }

  /** Steps under the lock that log nothing. */
  lemma HolderInv(v: Val, s: State, t: nat)
    requires Inv(v, s) && (s.At(t).Holding? || s.At(t).Unlock?)
    ensures Inv(v, StepOf(s, t))
  {
    assert CallOk(s, t) && PlaceOk(v, s, t);
    if s.At(t).Holding? {
      DecidePlace(v, s, t);
    } else {
      UnlockPlace(v, s, t);
    }
    QuietCalls(v, s, t, StepOf(s, t));
  }

  lemma LockingInv(v: Val, s: State, t: nat)
    requires Inv(v, s) && s.At(t).Locking?
    ensures Inv(v, StepOf(s, t))
  {
    assert CallOk(s, t) && PlaceOk(v, s, t);
    if s.word == Word(s.At(t).block, false) {
      LockPlace(v, s, t);
    } else {
      QuietPlace(v, s, t, StepOf(s, t).At(t));
    }
    QuietCalls(v, s, t, StepOf(s, t));
  }

  /** Steps that only read the word. */
  lemma ReadingInv(v: Val, s: State, t: nat)
    requires Inv(v, s) && (s.At(t).Spinning? || s.At(t).Unlocking? || s.At(t).Blocked?)
    ensures Inv(v, StepOf(s, t))
  {
    assert CallOk(s, t) && PlaceOk(v, s, t);
    if StepOf(s, t) != s {
      QuietPlace(v, s, t, StepOf(s, t).At(t));
      QuietCalls(v, s, t, StepOf(s, t));
    }
  }

  lemma StepInv(v: Val, s: State, t: nat)
    requires Inv(v, s)
    ensures Inv(v, StepOf(s, t))
  {
    match s.At(t)
    case HavePtr(_, _, _) => AccessInv(v, s, t);
    case PtrStored(_, _) => AccessInv(v, s, t);
    case Holding(_, _) => HolderInv(v, s, t);
    case Unlock(_, _, _, _) => HolderInv(v, s, t);
    case Locking(_, _) => LockingInv(v, s, t);
    case Idle =>
    case Done(_, _, _) =>
    case _ => ReadingInv(v, s, t);
  }

  lemma NextInv(v: Val, s: State, a: Action)
    requires Inv(v, s)
    ensures Inv(v, Next(s, a))
  {
    match a
    case Step(t) => StepInv(v, s, t);
    case Start(t, op) =>
      if s.At(t).Idle? {
        assert PlaceOk(v, s, t);
        QuietPlace(v, s, t, Spinning(Begun(op, |s.log|)));
        QuietCalls(v, s, t, Next(s, a));
      }
    case Return(t) =>
      if s.At(t).Done? {
        ReturnInv(v, s, t);
      }
  }

  lemma {:induction false} RunInv(v: Val, acts: seq<Action>)
    ensures Inv(v, Run(Init(v), acts))
  {
    if acts != [] {
      RunInv(v, acts[..|acts| - 1]);
      NextInv(v, Run(Init(v), acts[..|acts| - 1]), acts[|acts| - 1]);
    }
  }

  // ----- the promises, for every interleaving -----

  /** Linearizable: the accesses, in the order in which they take effect, are a history of one plain register
      holding pointer and control block together. Each call made one access while it ran and reports what
      that access did; different calls made different ones, a call that returned before another began
      made the earlier one, and every access is some call's. */
  lemma Linearizable(v: Val, acts: seq<Action>)
    ensures var s := Run(Init(v), acts);
            && LegalHistory(v, s.log)
            && (forall c | c in s.calls :: Own(s.log, c))
            && (forall t | s.At(t).Done? && !s.At(t).c.op.Wait? :: Own(s.log, Returning(s, t)))
            && (forall i, j | 0 <= i < j < |s.calls| :: s.calls[i].k != s.calls[j].k)
            && (forall c, d | c in s.calls && d in s.calls && c.until <= d.since :: c.k < d.k)
            && (forall m: nat | m < |s.log| :: Claimed(s, m))
  {
    RunInv(v, acts);
    var s := Run(Init(v), acts);
    forall c | c in s.calls ensures Own(s.log, c) {
      assert ReturnOk(s, c);
    }
    forall t | s.At(t).Done? && !s.At(t).c.op.Wait? ensures Own(s.log, Returning(s, t)) {
      assert CallOk(s, t);
    }
    forall i, j | 0 <= i < j < |s.calls| ensures s.calls[i].k != s.calls[j].k {
      assert Apart(s.calls[i], s.calls[j]);
      assert Own(s.log, s.calls[i]) && Own(s.log, s.calls[j]);
    }
  }

  /** The lock bit excludes: no two threads are inside at once, and one is exactly when it is set. */
  lemma MutualExclusion(v: Val, acts: seq<Action>, t: nat, u: nat)
    ensures var s := Run(Init(v), acts);
            && (s.At(t).Critical() && s.At(u).Critical() ==> t == u)
            && (s.At(t).Critical() ==> s.word.locked)
            && (s.word.locked ==> s.holder.By? && s.At(s.holder.t).Critical())
  {
    RunInv(v, acts);
    var s := Run(Init(v), acts);
    assert PlaceOk(v, s, t) && PlaceOk(v, s, u);
    if s.holder.By? {
      assert PlaceOk(v, s, s.holder.t);
    }
  }

  /** Taking a reference is safe: the atomic itself still holds one to that very block. */
  lemma ReferenceIsHeld(v: Val, acts: seq<Action>, t: nat)
    ensures var s := Run(Init(v), acts);
            s.At(t).HavePtr? ==> s.word == Word(s.At(t).block, true) && s.ptr == s.At(t).p
  {
    RunInv(v, acts);
    var s := Run(Init(v), acts);
    assert PlaceOk(v, s, t);
  }

  // ----- waiting: which changes are missed -----

  lemma RunMore(s: State, acts: seq<Action>, a: Action)
    ensures Run(s, acts + [a]) == Next(Run(s, acts), a)
  {
    assert (acts + [a])[..|acts|] == acts;
  }

  lemma {:induction false} RunConcat(s: State, acts: seq<Action>, more: seq<Action>)
    ensures Run(s, acts + more) == Run(Run(s, acts), more)
  {
    if more == [] {
      assert acts + more == acts;
    } else {
      RunConcat(s, acts, more[..|more| - 1]);
      assert acts + more == acts + more[..|more| - 1] + [more[|more| - 1]];
      RunMore(s, acts + more[..|more| - 1], more[|more| - 1]);
    }
  }

  /** The calls store no other values than these. */
  ghost predicate StoresOnly(acts: seq<Action>, may: Val -> bool) {
    forall i | 0 <= i < |acts| && acts[i].Start? :: OpStores(acts[i].op, may)
  }

  predicate OpStores(op: Op, may: Val -> bool) {
    Stores(op) ==> may(op.desired)
  }

  /** Another pointer with the same control block. */
  predicate Aliases(d: Val, old': Val) {
    d.block == old'.block && d.ptr != old'.ptr
  }

  /** A thread sleeps, waiting for a change from `old'`, although the value has changed and nobody holds the
      lock: looking again does not wake it. */
  ghost predicate Missed(v: Val, s: State, t: nat, old': Val) {
    && s.At(t).Blocked? && s.At(t).c.op == Wait(old') && !s.word.locked
    && Replay(v, s.log) != old' && Next(s, Step(t)) == s
  }

  ghost predicate ThreadStores(p: Thread, may: Val -> bool) {
    !p.Idle? ==> OpStores(p.c.op, may)
  }

  ghost predicate AllStore(s: State, may: Val -> bool) {
    (forall t :: ThreadStores(s.At(t), may)) && (forall e | e in s.log :: OpStores(e.op, may))
  }

  lemma OpsOfStep(s: State, a: Action, may: Val -> bool)
    requires AllStore(s, may) && (a.Start? ==> OpStores(a.op, may))
    ensures AllStore(Next(s, a), may)
  {
    assert ThreadStores(s.At(a.t), may);
    forall t ensures ThreadStores(Next(s, a).At(t), may) {
      assert ThreadStores(s.At(t), may);
    }
  }

  /** Every operation in a run comes from some call. */
  lemma {:induction false} OpsOfRun(v: Val, acts: seq<Action>, may: Val -> bool)
    requires StoresOnly(acts, may)
    ensures AllStore(Run(Init(v), acts), may)
  {
    if acts != [] {
      var before, a := acts[..|acts| - 1], acts[|acts| - 1];
      assert forall i | 0 <= i < |before| :: before[i] == acts[i];
      OpsOfRun(v, before, may);
      OpsOfStep(Run(Init(v), before), a, may);
    }
  }

  /** The value is the one it was, or some later access stored it. */
  lemma {:induction false} LastStored(v: Val, log: seq<Event>, k: nat)
    requires k <= |log|
    ensures || Replay(v, log) == Replay(v, log[..k])
            || exists m | k <= m < |log| :: Stores(log[m].op) && Desired(log[m].op) == Replay(v, log)
  {
    if k == |log| {
      assert log[..k] == log;
    } else {
      var log' := log[..|log| - 1];
      LastStored(v, log', k);
      assert log'[..k] == log[..k];
      if Replay(v, log) == Replay(v, log') && Replay(v, log) != Replay(v, log[..k]) {
        var m :| k <= m < |log'| && Stores(log'[m].op) && Desired(log'[m].op) == Replay(v, log');
        assert log[m] == log'[m];
      }
    }
  }

  /** A missed change means that some call stored an alias. */
  lemma MissedMeansAlias(v: Val, acts: seq<Action>, t: nat, old': Val, may: Val -> bool)
    requires StoresOnly(acts, may) && Missed(v, Run(Init(v), acts), t, old')
    ensures exists d :: may(d) && Aliases(d, old')
  {
    var s := Run(Init(v), acts);
    RunInv(v, acts);
    OpsOfRun(v, acts, may);
    assert PlaceOk(v, s, t);
    LastStored(v, s.log, s.At(t).k);
    var m :| s.At(t).k <= m < |s.log| && Stores(s.log[m].op) && Desired(s.log[m].op) == Replay(v, s.log);
    assert s.log[m] in s.log;
    assert may(s.log[m].op.desired) && Aliases(s.log[m].op.desired, old');
  }

  function Steps(s: State, t: nat, n: nat): State {
    if n == 0 then s else Next(Steps(s, t, n - 1), Step(t))
  }

  function StepList(t: nat, n: nat): seq<Action> {
    if n == 0 then [] else StepList(t, n - 1) + [Step(t)]
  }

  lemma {:induction false} StepsAreRun(s: State, t: nat, n: nat)
    ensures Run(s, StepList(t, n)) == Steps(s, t, n)
  {
    if n > 0 {
      StepsAreRun(s, t, n - 1);
      RunMore(s, StepList(t, n - 1), Step(t));
    }
  }

  /** A call of one thread, followed by some of its steps. */
  function CallSteps(t: nat, op: Op, n: nat): seq<Action> {
    [Start(t, op)] + StepList(t, n)
  }

  lemma {:induction false} CallStores(t: nat, op: Op, n: nat, may: Val -> bool)
    requires OpStores(op, may)
    ensures StoresOnly(CallSteps(t, op, n), may)
  {
    if n > 0 {
      CallStores(t, op, n - 1, may);
      assert CallSteps(t, op, n) == CallSteps(t, op, n - 1) + [Step(t)];
    }
  }

  lemma CallIsRun(s: State, t: nat, op: Op, n: nat)
    ensures Run(s, CallSteps(t, op, n)) == Steps(Next(s, Start(t, op)), t, n)
  {
    RunConcat(s, [Start(t, op)], StepList(t, n));
    assert [Start(t, op)][..0] == [];
    assert Run(s, [Start(t, op)]) == Next(s, Start(t, op));
    StepsAreRun(Next(s, Start(t, op)), t, n);
  }

  /** A thread alone at a free lock gets it in two steps. */
  lemma TakesLock(s: State, t: nat)
    requires s.At(t).Spinning? && !s.word.locked
    ensures var s' := Steps(s, t, 2);
      && s'.At(t) == Holding(s.At(t).c, s.word.block) && s'.word == Word(s.word.block, true)
      && s'.ptr == s.ptr && s'.log == s.log && forall u | u != t :: s'.At(u) == s.At(u)
  {
    var s1 := Next(s, Step(t));
    assert s1.At(t) == Locking(s.At(t).c, s.word.block) && s1.word == s.word;
    assert Steps(s, t, 1) == s1;
  }

  /** A wait whose value is there goes to sleep in three more. */
  lemma FallsAsleep(s: State, t: nat, old': Val)
    requires s.At(t).Holding? && s.At(t).c.op == Wait(old') && s.word == Word(old'.block, true)
    requires s.ptr == old'.ptr && s.At(t).block == old'.block
    ensures var s' := Steps(s, t, 3);
      && s'.At(t) == Blocked(s.At(t).c, old'.block, |s.log|) && s'.word == Word(old'.block, false)
      && s'.log == s.log && forall u | u != t :: s'.At(u) == s.At(u)
  {
    var s1 := Next(s, Step(t));
    assert s1.At(t) == Unlocking(s.At(t).c, Matched, |s.log|) && Steps(s, t, 1) == s1;
    var s2 := Next(s1, Step(t));
    assert s2.At(t) == Unlock(s.At(t).c, Matched, |s.log|, s.word) && Steps(s, t, 2) == s2;
  }

  /** A swap is done in two more. */
  lemma Swaps(s: State, t: nat, d: Val)
    requires s.At(t).Holding? && s.At(t).c.op == Swap(d)
    ensures var s' := Steps(s, t, 2);
      && s'.word == Word(d.block, false) && s'.log == s.log + [Event(t, Swap(d), Swapped(Val(s.ptr, s.At(t).block)))]
      && forall u | u != t :: s'.At(u) == s.At(u)
  {
    var s1 := Next(s, Step(t));
    assert s1.At(t) == PtrStored(s.At(t).c, Val(s.ptr, s.At(t).block)) && Steps(s, t, 1) == s1;
  }

  lemma {:induction false} StepsAdd(s: State, t: nat, m: nat, n: nat)
    ensures Steps(s, t, m + n) == Steps(Steps(s, t, m), t, n)
  {
    if n > 0 {
      StepsAdd(s, t, m, n - 1);
    }
  }

  /** A waiter falls asleep on an unchanged value. */
  lemma WaiterSleeps(v: Val)
    ensures var s := Run(Init(v), CallSteps(0, Wait(v), 5));
      && s.At(0) == Blocked(Begun(Wait(v), 0), v.block, 0) && s.word == Word(v.block, false) && s.log == []
      && forall u | u != 0 :: s.At(u).Idle?
  {
    var s0 := Next(Init(v), Start(0, Wait(v)));
    assert s0.At(0) == Spinning(Begun(Wait(v), 0));
    TakesLock(s0, 0);
    FallsAsleep(Steps(s0, 0, 2), 0, v);
    StepsAdd(s0, 0, 2, 3);
    CallIsRun(Init(v), 0, Wait(v), 5);
  }

  /** Storing another pointer with the same control block leaves a sleeper asleep. */
  lemma AliasLeavesSleeper(v: Val, s: State, t: nat, u: nat, d: Val)
    requires s.At(t).Blocked? && s.word == Word(s.At(t).block, false) && s.At(u).Idle? && d.block == s.word.block
    ensures var s' := Run(s, CallSteps(u, Swap(d), 4));
      Replay(v, s'.log) == d && s'.word == s.word && s'.At(t) == s.At(t) && Next(s', Step(t)) == s'
  {
    CallIsRun(s, u, Swap(d), 4);
    SwapAlone(s, u, d);
    var s' := Run(s, CallSteps(u, Swap(d), 4));
    assert s'.log[..|s.log|] == s.log && s'.log[|s.log|].op == Swap(d);
  }

  /** A swap by a thread alone at a free lock. */
  lemma SwapAlone(s: State, u: nat, d: Val)
    requires !s.word.locked && s.At(u).Idle?
    ensures var s' := Steps(Next(s, Start(u, Swap(d))), u, 4);
      && s'.word == Word(d.block, false) && s'.log == s.log + [Event(u, Swap(d), Swapped(Val(s.ptr, s.word.block)))]
      && forall t | t != u :: s'.At(t) == s.At(t)
  {
    var s0 := Next(s, Start(u, Swap(d)));
    assert s0.At(u) == Spinning(Begun(Swap(d), |s.log|));
    TakesLock(s0, u);
    Swaps(Steps(s0, u, 2), u, d);
    StepsAdd(s0, u, 2, 2);
  }

  lemma SleepingRun(old': Val, may: Val -> bool) returns (acts: seq<Action>)
    ensures StoresOnly(acts, may)
    ensures var s := Run(Init(old'), acts);
      s.At(0) == Blocked(Begun(Wait(old'), 0), old'.block, 0) && s.word == Word(old'.block, false) && s.At(1).Idle?
  {
    acts := CallSteps(0, Wait(old'), 5);
    CallStores(0, Wait(old'), 5, may);
    WaiterSleeps(old');
  }

  /** With an alias among the values a run exists in which the change is missed. */
  lemma AliasMissed(old': Val, d: Val, may: Val -> bool) returns (acts: seq<Action>)
    requires may(d) && Aliases(d, old')
    ensures StoresOnly(acts, may) && Missed(old', Run(Init(old'), acts), 0, old')
  {
    var first := SleepingRun(old', may);
    var s := Run(Init(old'), first);
    AliasLeavesSleeper(old', s, 0, 1, d);
    var second := SwapSteps(1, d, may);
    acts := first + second;
    RunConcat(Init(old'), first, second);
  }

  lemma SwapSteps(u: nat, d: Val, may: Val -> bool) returns (acts: seq<Action>)
    requires may(d)
    ensures StoresOnly(acts, may) && acts == CallSteps(u, Swap(d), 4)
  {
    acts := CallSteps(u, Swap(d), 4);
    CallStores(u, Swap(d), 4, may);
  }

  /** Whatever the first value and however the calls interleave, no change is missed. */
  ghost predicate NeverMisses(old': Val, may: Val -> bool) {
    forall v, acts, t | StoresOnly(acts, may) :: !Missed(v, Run(Init(v), acts), t, old')
  }

  /** Exactly which programs may miss a change: those that store another pointer with the control block of the
      value waited on. `may` tells which values the calls may store. */
  lemma WaitExact(old': Val, may: Val -> bool)
    ensures NeverMisses(old', may) <==> forall d | may(d) :: !Aliases(d, old')
  {
    if d :| may(d) && Aliases(d, old') {
      var acts := AliasMissed(old', d, may);
      assert !NeverMisses(old', may);
    } else {
      forall v, acts, t | StoresOnly(acts, may) ensures !Missed(v, Run(Init(v), acts), t, old') {
        if Missed(v, Run(Init(v), acts), t, old') {
          MissedMeansAlias(v, acts, t, old', may);
        }
      }
    }
  }

  // ----- waiting: who is woken for nothing -----

  /** No thread but `t` begins a call. */
  ghost predicate NoneBegins(acts: seq<Action>, t: nat) {
    forall i | 0 <= i < |acts| && acts[i].Start? :: acts[i].t == t
  }

  /** Another thread is in a call, and has not got the lock yet. */
  ghost predicate CallUnderWay(s: State, t: nat) {
    exists u :: u != t && (s.At(u).Spinning? || s.At(u).Locking?)
  }

  /** The sleeper wakes although no access has taken effect since. */
  ghost predicate WokenForNothing(s: State, more: seq<Action>, t: nat) {
    Run(s, more).At(t).Done? && Run(s, more).log == s.log
  }

  /** Nobody touches the lock: the sleeper sleeps and all others have nothing to do. */
  ghost predicate Calm(s: State, t: nat) {
    && s.At(t).Blocked? && s.word == Word(s.At(t).block, false)
    && forall u :: s.At(u).Idle? || s.At(u).Blocked? || s.At(u).Done?
  }

  lemma {:induction false} CalmStays(s: State, more: seq<Action>, t: nat)
    requires Calm(s, t) && NoneBegins(more, t)
    ensures Calm(Run(s, more), t)
  {
    if more != [] {
      var before, a := more[..|more| - 1], more[|more| - 1];
      CalmStays(s, before, t);
      var s' := Run(s, before);
      assert forall u | u != a.t :: Next(s', a).At(u) == s'.At(u);
      assert s'.At(a.t).Idle? || s'.At(a.t).Blocked? || s'.At(a.t).Done?;
    }
  }

  /** A thread on its way to the lock takes it, and the sleeper takes the lock bit for a change. */
  lemma LockWakes(s: State, t: nat, u: nat)
    requires s.At(t).Blocked? && s.word == Word(s.At(t).block, false)
    requires u != t && (s.At(u).Spinning? || s.At(u).Locking?)
    ensures WokenForNothing(s, [Step(u), Step(u), Step(t)], t)
  {
    var s1 := Next(s, Step(u));
    var s2 := Next(s1, Step(u));
    assert s2.word.locked && s2.log == s.log && s2.At(t) == s.At(t);
    var more := [Step(u), Step(u), Step(t)];
    assert more[..2] == [Step(u), Step(u)] && [Step(u), Step(u)][..1] == [Step(u)] && [Step(u)][..0] == [];
    assert Run(s, [Step(u)]) == s1;
    assert Run(s, [Step(u), Step(u)]) == s2;
    assert Run(s, more) == Next(s2, Step(t));
  }

  /** Exactly when a sleeper can be woken for nothing though no further call begins: when another call is under
      way that has not got the lock yet. */
  lemma WakeExact(v: Val, acts: seq<Action>, t: nat)
    ensures var s := Run(Init(v), acts);
            s.At(t).Blocked? && s.word == Word(s.At(t).block, false) ==>
              ((exists more | NoneBegins(more, t) :: WokenForNothing(s, more, t)) <==> CallUnderWay(s, t))
  {
    var s := Run(Init(v), acts);
    RunInv(v, acts);
    if s.At(t).Blocked? && s.word == Word(s.At(t).block, false) {
      if CallUnderWay(s, t) {
        var u :| u != t && (s.At(u).Spinning? || s.At(u).Locking?);
        LockWakes(s, t, u);
        assert NoneBegins([Step(u), Step(u), Step(t)], t);
      } else {
        forall u ensures s.At(u).Idle? || s.At(u).Blocked? || s.At(u).Done? {
          assert PlaceOk(v, s, u);
        }
        forall more | NoneBegins(more, t) ensures !WokenForNothing(s, more, t) {
          CalmStays(s, more, t);
        }
      }
    }
  }

  /** And any call that begins can do it: even a plain load. */
  lemma LoadWakesSleeper(v: Val, acts: seq<Action>, t: nat, u: nat)
    ensures var s := Run(Init(v), acts);
            s.At(t).Blocked? && s.word == Word(s.At(t).block, false) && s.At(u).Idle? ==>
              WokenForNothing(Next(s, Start(u, Load)), [Step(u), Step(u), Step(t)], t)
  {
    var s := Run(Init(v), acts);
    if s.At(t).Blocked? && s.word == Word(s.At(t).block, false) && s.At(u).Idle? {
      LockWakes(Next(s, Start(u, Load)), t, u);
    }
  }
}
