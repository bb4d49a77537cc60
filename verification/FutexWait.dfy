/** Waiting on a futex word whose top bit says that somebody may be asleep. Any number of
    threads wait and store; each step below is one atomic action of one thread or the kernel. */
module FutexWait {

  /** The futex word: the waiter bit and the remaining bits. */
  datatype Word = Word(rest: bv32, bit: bool)

  function Masked(x: Word): Word { x.(bit := false) }
  function Marked(x: Word): Word { x.(bit := true) }

  /** The machine's mask, test and set of the waiter bit, which is the top one. */
  function Rest(x: bv32): bv32 { x & !0x8000_0000 }
  predicate Top(x: bv32) { x & 0x8000_0000 != 0 }
  function WithTop(x: bv32): bv32 { x | 0x8000_0000 }

  /** How the 32 bits are read that way. */
  function Decode(x: bv32): Word {
    Word(Rest(x), Top(x))
  }

  function Encode(w: Word): bv32 {
    if w.bit then WithTop(w.rest) else w.rest
  }

  const ZERO := Word(0, false)

  /** The machine's mask and set of the bit are the ones used here, and reading loses nothing. */
  lemma DecodeMask(x: bv32)
    ensures Decode(Rest(x)) == Masked(Decode(x))
  {
    RestBits(x);
  }

  lemma DecodeSet(x: bv32)
    ensures Decode(WithTop(x)) == Marked(Decode(x))
  {
    TopBits(x);
  }

  lemma EncodeDecode(x: bv32)
    ensures Encode(Decode(x)) == x
  {
    WholeBits(x);
  }

  lemma RestBits(x: bv32)
    ensures Rest(Rest(x)) == Rest(x) && !Top(Rest(x))
  {
  }

  lemma TopBits(x: bv32)
    ensures Rest(WithTop(x)) == Rest(x) && Top(WithTop(x))
  {
  }

  lemma WholeBits(x: bv32)
    ensures if Top(x) then WithTop(Rest(x)) == x else Rest(x) == x
  {
  }

  /** The waiting calls. A deadline may lie before the clock's epoch. */
  datatype Call =
    | WhenNotEqual(val: Word)
    | WhenEqual(val: Word)
    | WhenEqualUntil(val: Word, preEpoch: bool)
  {
    /** The loop's exit test on a loaded value. */
    predicate Met(x: Word) {
      (val == x) == !WhenNotEqual?
    }
  }

  datatype Result = Value(v: Word) | Unit | Flag(inTime: bool)

  /** What a call gives its caller when the loop hands back `x`. */
  function Answer(call: Call, x: Word): Result {
    match call
    case WhenNotEqual(_) => Value(x)
    case WhenEqual(_) => Unit
    case WhenEqualUntil(val, _) => Flag(Masked(x) == val)
  }

  /** Where a thread is. `seen` is the value its last load returned, with the bit cleared. */
  datatype Thread =
    | Idle
    | Entered(call: Call)
    | Arming(call: Call, assumed: Word)
    | Armed(call: Call, assumed: Word)
    | Sleeping(call: Call, assumed: Word)
    | Awake(call: Call, timedOut: bool)
    | Returned(call: Call, seen: Word, result: Result)
    | Notifying

  datatype State = State(word: Word, stores: seq<Word>, threads: map<nat, Thread>) {
    function At(t: nat): Thread {
      if t in threads then threads[t] else Idle
    }

    function Set(t: nat, p: Thread): State {
      this.(threads := threads[t := p])
    }
  }

  datatype Action =
    | Begin(t: nat, call: Call)
    | FirstLoad(t: nat)
    | SetBit(t: nat)
    | Compare(t: nat)
    | Interrupt(t: nat)
    | Timeout(t: nat)
    | Reload(t: nat)
    | Finish(t: nat)
    | Store(t: nat, v: Word)
    | NotifyAll(t: nat)

  /** The first, unlooped test of each call. */
  function AfterFirstLoad(call: Call, x: Word): Thread {
    if call.Met(x) then Returned(call, x, Answer(call, x))
    else if call.WhenEqualUntil? && call.preEpoch then Returned(call, x, Answer(call, ZERO))
    else Arming(call, x)
  }

  function AfterReload(call: Call, timedOut: bool, x: Word): Thread {
    if timedOut || call.Met(x) then Returned(call, x, Answer(call, x)) else Arming(call, x)
  }

  function Woken(p: Thread): Thread {
    if p.Sleeping? then Awake(p.call, false) else p
  }

  /** One atomic action; an action its thread is not ready for changes nothing. */
  function Next(s: State, a: Action): State {
    var p := s.At(a.t);
    match a
    case Begin(t, call) => if p.Idle? then s.Set(t, Entered(call)) else s
    case FirstLoad(t) => if p.Entered? then s.Set(t, AfterFirstLoad(p.call, Masked(s.word))) else s
    case SetBit(t) =>
      if p.Arming? then s.(word := Marked(s.word)).Set(t, Armed(p.call, p.assumed)) else s
    case Compare(t) =>
      if !p.Armed? then s
      else if s.word == Marked(p.assumed) then s.Set(t, Sleeping(p.call, p.assumed))
      else s.Set(t, Awake(p.call, false))
    case Interrupt(t) => if p.Sleeping? then s.Set(t, Awake(p.call, false)) else s
    case Timeout(t) =>
      if (p.Sleeping? || p.Armed?) && p.call.WhenEqualUntil? then s.Set(t, Awake(p.call, true)) else s
    case Reload(t) => if p.Awake? then s.Set(t, AfterReload(p.call, p.timedOut, Masked(s.word))) else s
    case Finish(t) => if p.Returned? then s.Set(t, Idle) else s
    case Store(t, v) =>
      if !p.Idle? then s
      else if s.word.bit then s.(word := v, stores := s.stores + [v]).Set(t, Notifying)
      else s.(word := v, stores := s.stores + [v])
    case NotifyAll(t) =>
      if p.Notifying? then s.(threads := map u | u in s.threads :: Woken(s.threads[u])).Set(t, Idle) else s
  }

  function Run(s: State, acts: seq<Action>): State {
    if acts == [] then s else Next(Run(s, acts[..|acts| - 1]), acts[|acts| - 1])
  }

  function Init(data: Word): State {
    State(data, [data], map[])
  }

  // ----- what every reachable state satisfies -----

  ghost predicate NotifyPending(s: State) {
    exists w :: s.At(w).Notifying?
  }

  ghost predicate Stored(s: State, x: Word) {
    exists i :: 0 <= i < |s.stores| && Masked(s.stores[i]) == x
  }

  /** A call that loops has a deadline the system can wait for. */
  ghost predicate Loops(call: Call) {
    call.WhenEqualUntil? ==> !call.preEpoch
  }

  /** What a returned result says, given the value the call loaded last. */
  ghost predicate Sound(call: Call, seen: Word, result: Result) {
    match call
    case WhenNotEqual(val) => seen != val && result == Value(seen)
    case WhenEqual(val) => seen == val && result == Unit
    case WhenEqualUntil(val, preEpoch) =>
      result == Flag(seen == val || (preEpoch && val == ZERO))
  }

  ghost predicate ThreadOk(s: State, p: Thread) {
    match p
    case Arming(call, assumed) => Masked(assumed) == assumed && !call.Met(assumed) && Loops(call)
    case Armed(call, assumed) => Masked(assumed) == assumed && !call.Met(assumed) && Loops(call)
    case Sleeping(call, assumed) =>
      && Masked(assumed) == assumed && !call.Met(assumed) && Loops(call)
      && (s.word == Marked(assumed) || NotifyPending(s))
    case Awake(call, timedOut) => (timedOut ==> call.WhenEqualUntil?) && Loops(call)
    case Returned(call, seen, result) => Stored(s, seen) && Sound(call, seen, result)
    case _ => true
  }

  function LastStored(s: State): Word {
    if s.stores == [] then ZERO else s.stores[|s.stores| - 1]
  }

  ghost predicate WordOk(s: State) {
    s.stores != [] && Masked(s.word) == Masked(LastStored(s))
  }

  ghost predicate Inv(s: State) {
    WordOk(s) && forall t :: ThreadOk(s, s.At(t))
  }

  lemma InitInv(data: Word)
    ensures Inv(Init(data))
  {
  }

  /** Every atomic action keeps the invariant. */
  lemma NextInv(s: State, a: Action)
    requires Inv(s)
    ensures Inv(Next(s, a))
  {
    WordKept(s, a);
    forall t
      ensures ThreadOk(Next(s, a), Next(s, a).At(t))
    {
      if a.t == t {
        OwnStep(s, a);
      } else {
        OtherStep(s, a, t);
      }
    }
  }

  lemma WordKept(s: State, a: Action)
    requires WordOk(s)
    ensures WordOk(Next(s, a)) && s.stores <= Next(s, a).stores
    ensures Stored(s, Masked(s.word))
  {
  }

  lemma StoredKept(s: State, s': State, x: Word)
    requires s.stores <= s'.stores && Stored(s, x)
    ensures Stored(s', x)
  {
    var i :| 0 <= i < |s.stores| && Masked(s.stores[i]) == x;
    assert s'.stores[i] == s.stores[i];
  }

  lemma OtherStep(s: State, a: Action, t: nat)
    requires Inv(s) && a.t != t
    ensures ThreadOk(Next(s, a), Next(s, a).At(t))
  {
    var p := s.At(t);
    assert ThreadOk(s, p);
    if p.Returned? {
      WordKept(s, a);
      StoredKept(s, Next(s, a), p.seen);
      StaysPut(s, a, t);
    } else if p.Sleeping? {
      SleeperKept(s, a, t);
    } else {
      StaysPut(s, a, t);
    }
  }

  /** Other threads' actions move sleepers only. */
  lemma StaysPut(s: State, a: Action, t: nat)
    requires a.t != t && !s.At(t).Sleeping?
    ensures Next(s, a).At(t) == s.At(t)
  {
  }

  lemma OwnStep(s: State, a: Action)
    requires Inv(s)
    ensures ThreadOk(Next(s, a), Next(s, a).At(a.t))
  {
    var p := s.At(a.t);
    assert ThreadOk(s, p);
    WordKept(s, a);
    if p.Entered? {
      LoadOk(s, p.call);
    } else if p.Awake? {
      LoadOk(s, p.call);
    } else if p.Sleeping? || p.Returned? {
      if a.Interrupt? || a.Timeout? || a.Finish? {
      } else {
        assert Next(s, a) == s;
      }
    }
  }

  /** A load may end the call or send it round the loop; either way the thread is in order. */
  lemma LoadOk(s: State, call: Call)
    requires WordOk(s)
    ensures ThreadOk(s, AfterFirstLoad(call, Masked(s.word)))
    ensures Loops(call) ==> ThreadOk(s, AfterReload(call, false, Masked(s.word)))
    ensures Loops(call) && call.WhenEqualUntil? ==> ThreadOk(s, AfterReload(call, true, Masked(s.word)))
  {
    WordKept(s, Finish(0));
  }

  /** The heart of it: no action of another thread leaves a sleeper behind unnoticed. */
  lemma SleeperKept(s: State, a: Action, t: nat)
    requires Inv(s) && a.t != t && s.At(t).Sleeping?
    ensures ThreadOk(Next(s, a), Next(s, a).At(t))
  {
    var s', p := Next(s, a), s.At(t);
    assert ThreadOk(s, p);
    match a {
      case Store(u, v) =>
        if s.At(u).Idle? && s.word == Marked(p.assumed) {
          assert s'.At(u).Notifying?;
        }
        PendingKept(s, a);
      case NotifyAll(u) =>
        if !s.At(u).Notifying? {
          assert s' == s;
        }
      case _ =>
        PendingKept(s, a);
    }
  }

  lemma PendingKept(s: State, a: Action)
    requires !a.NotifyAll?
    ensures NotifyPending(s) ==> NotifyPending(Next(s, a))
  {
    if NotifyPending(s) {
      var w :| s.At(w).Notifying?;
      assert Next(s, a).At(w).Notifying?;
    }
  }

  lemma {:induction false} RunInv(data: Word, acts: seq<Action>)
    ensures Inv(Run(Init(data), acts))
  {
    if acts == [] {
      InitInv(data);
    } else {
      RunInv(data, acts[..|acts| - 1]);
      NextInv(Run(Init(data), acts[..|acts| - 1]), acts[|acts| - 1]);
    }
  }

  // ----- the promises, for every run of any number of threads -----

  /** No lost wakeup: with no notification under way, whoever sleeps has every reason to. */
  lemma NoLostWakeup(data: Word, acts: seq<Action>, t: nat)
    ensures var s := Run(Init(data), acts);
            s.At(t).Sleeping? ==>
              || NotifyPending(s)
              || (s.word == Marked(s.At(t).assumed) && !s.At(t).call.Met(Masked(LastStored(s))))
  {
    var s := Run(Init(data), acts);
    RunInv(data, acts);
    if s.At(t).Sleeping? {
      assert ThreadOk(s, s.At(t));
    }
  }

  /** A waiter whose condition holds by now cannot fall asleep, and its next load ends the call. */
  lemma MetNeverSleeps(data: Word, acts: seq<Action>, t: nat)
    ensures var s := Run(Init(data), acts);
            s.At(t).Armed? && s.At(t).call.Met(Masked(s.word)) ==>
              var s' := Next(Next(s, Compare(t)), Reload(t));
              s'.At(t).Returned? && s'.At(t).seen == Masked(s.word)
  {
    var s := Run(Init(data), acts);
    RunInv(data, acts);
    assert ThreadOk(s, s.At(t));
  }

  /** A plain load always shows the last stored value, unless that value itself had the bit. */
  lemma LoadShowsLastStore(data: Word, acts: seq<Action>)
    ensures var s := Run(Init(data), acts);
            var last := LastStored(s);
            Masked(s.word) == Masked(last) && (Masked(s.word) == last <==> !last.bit)
  {
    RunInv(data, acts);
    var s := Run(Init(data), acts);
  }

  /** The untimed waits return only on a stored value that meets their condition. */
  lemma UntimedWaitsAreRight(data: Word, acts: seq<Action>, t: nat)
    ensures var s := Run(Init(data), acts);
            match s.At(t) {
              case Returned(WhenEqual(val), seen, _) => Stored(s, seen) && seen == val
              case Returned(WhenNotEqual(val), seen, result) =>
                Stored(s, seen) && seen != val && result == Value(seen)
              case _ => true
            }
  {
    RunInv(data, acts);
    var s := Run(Init(data), acts);
    assert ThreadOk(s, s.At(t));
  }

  /** The timed wait answers by its last load exactly unless it was called with a deadline before
      the epoch, waiting for zero, and saw something else: then it claims success wrongly. */
  lemma TimedWaitExact(data: Word, acts: seq<Action>, t: nat)
    ensures var s := Run(Init(data), acts);
            match s.At(t) {
              case Returned(WhenEqualUntil(val, preEpoch), seen, Flag(b)) =>
                Stored(s, seen) && (b == (seen == val) <==> !(preEpoch && val == ZERO && seen != ZERO))
              case _ => true
            }
  {
    RunInv(data, acts);
    var s := Run(Init(data), acts);
    assert ThreadOk(s, s.At(t));
  }

  /** The false success does happen: waiting for 0 on a word that never held it. */
  lemma TimedWaitFalseSuccess()
    ensures var seven := Decode(7);
            var s := Run(Init(seven), [Begin(0, WhenEqualUntil(ZERO, true)), FirstLoad(0)]);
            s.stores == [seven] && s.At(0) == Returned(WhenEqualUntil(ZERO, true), seven, Flag(true)) && seven != ZERO
  {
    var a, b := Begin(0, WhenEqualUntil(ZERO, true)), FirstLoad(0);
    var s0 := Init(Decode(7));
    assert Run(s0, []) == s0;
    assert [a, b][..1] == [a] && [a][..0] == [];
    assert Run(s0, [a]) == Next(s0, a);
    assert Run(s0, [a, b]) == Next(Next(s0, a), b);
  }
}
