/** Compare-and-exchange on types with padding bits. The machine instruction compares whole
    object representations; the operation promises to compare values. */
module PaddedCas {

  /** An object representation: the bits that carry the value, and the padding bits. */
  datatype Rep<T> = Rep(value: T, pad: nat)

  function Clear<T>(r: Rep<T>): Rep<T> { r.(pad := 0) }

  /** What one machine compare-and-exchange meets: the cell's content, and, for the weak form,
      whether it fails for no reason. */
  datatype Attempt<T> = Attempt(cell: Rep<T>, spurious: bool)

  /** `Replaced` tells what stood in the cell; `Differs` what `__e` is set to; `Retrying` that the
      attempts given so far decided nothing. */
  datatype Outcome<T> = Replaced(before: Rep<T>) | Differs(seen: Rep<T>) | Retrying

  predicate Matches<T(==)>(a: Attempt<T>, exp: Rep<T>) {
    a.cell == exp && !a.spurious
  }

  /** The loop for `atomic_ref`: how it ends and after how many attempts. */
  function RefLoop<T(==)>(exp: Rep<T>, attempts: seq<Attempt<T>>): (Outcome<T>, nat)
    decreases attempts
  {
    if attempts == [] then (Retrying, 0)
    else
      var a := attempts[0];
      if Matches(a, exp) then (Replaced(a.cell), 1)
      else if Clear(exp) != Clear(a.cell) then (Differs(a.cell), 1)
      else
        var (o, n) := RefLoop(a.cell, attempts[1..]);
        (o, n + 1)
  }

  /** `__compare_exchange` for `atomic_ref`, run against the given attempts; `stored` is the value
      the cell is given on success and `e'` the caller's expected value afterwards. */
  method CompareExchangeRef<T(==)>(e: Rep<T>, i: Rep<T>, attempts: seq<Attempt<T>>)
    returns (outcome: Outcome<T>, stored: Rep<T>, e': Rep<T>, tries: nat)
    ensures (outcome, tries) == RefLoop(Clear(e), attempts) && tries <= |attempts|
    ensures stored == Clear(i)
    ensures e' == if outcome.Differs? then outcome.seen else e
  {
    stored, e' := Clear(i), e;
    var exp := Clear(e);
    tries := 0;
    while tries < |attempts|
      invariant tries <= |attempts|
      invariant var (o, n) := RefLoop(exp, attempts[tries..]);
                RefLoop(Clear(e), attempts) == (o, n + tries)
    {
      var orig, a := exp, attempts[tries];
      tries := tries + 1;
      if Matches(a, exp) {
        return Replaced(a.cell), stored, e', tries;
      }
      exp := a.cell;
      var curr := exp;
      if Clear(orig) != Clear(curr) {
        e' := exp;
        return Differs(exp), stored, e', tries;
      }
    }
    outcome := Retrying;
  }

  /** Whatever the other threads do and however often the weak form fails for no reason: success
      replaced a value equal to the expected one, and failure saw a different one. */
  lemma {:induction false} RefSafe<T>(exp: Rep<T>, attempts: seq<Attempt<T>>)
    ensures var (o, n) := RefLoop(exp, attempts);
            && n <= |attempts|
            && (o.Replaced? ==> n > 0 && o.before == attempts[n - 1].cell && o.before.value == exp.value)
            && (o.Differs? ==> n > 0 && o.seen == attempts[n - 1].cell && o.seen.value != exp.value)
            && (o.Retrying? ==> n == |attempts|)
            && forall k | 0 <= k < n - 1 :: attempts[k].cell.value == exp.value
    decreases attempts
  {
    if attempts != [] && !Matches(attempts[0], exp) && Clear(exp) == Clear(attempts[0].cell) {
      RefSafe(attempts[0].cell, attempts[1..]);
    }
  }

  /** A failed attempt leaves the cell alone; another thread's write clears the padding. */
  ghost predicate WritersClear<T>(attempts: seq<Attempt<T>>) {
    forall k {:trigger attempts[k]} | 0 < k < |attempts| ::
      attempts[k].cell == attempts[k - 1].cell || attempts[k].cell.pad == 0
  }

  ghost predicate Strong<T>(attempts: seq<Attempt<T>>) {
    forall k | 0 <= k < |attempts| :: !attempts[k].spurious
  }

  /** The strong form decides within three attempts when every writer clears the padding. */
  lemma {:induction false} RefWithinThree<T>(e: Rep<T>, attempts: seq<Attempt<T>>)
    requires WritersClear(attempts) && Strong(attempts)
    ensures var (o, n) := RefLoop(Clear(e), attempts);
            n <= 3 && (|attempts| >= 3 ==> !o.Retrying?)
  {
    RefSafe(Clear(e), attempts);
    if |attempts| >= 2 {
      var rest := attempts[1..];
      assert rest[0] == attempts[1];
      if |attempts| >= 3 {
        assert rest[1..][0] == attempts[2];
        if attempts[1].cell == Clear(e) {
          LastAttempt(e.value, attempts[1].cell, rest[1..]);
        }
      }
    }
  }

  /** An attempt with a padding-free expectation decides at once on a padding-free cell. */
  lemma LastAttempt<T>(v: T, exp: Rep<T>, attempts: seq<Attempt<T>>)
    requires attempts != [] && !attempts[0].spurious
    requires attempts[0].cell == exp || attempts[0].cell.pad == 0
    requires exp == Rep(v, 0)
    ensures RefLoop(exp, attempts).1 == 1 && !RefLoop(exp, attempts).0.Retrying?
  {
  }

  /** Three attempts are needed when padding is found, then cleared by a write of the same value. */
  lemma RefNeedsThree<T>(v: T, desired: T)
    ensures var found, rewritten := Attempt(Rep(v, 1), false), Attempt(Rep(v, 0), false);
            && WritersClear([found, rewritten, rewritten])
            && RefLoop(Rep(v, 0), [found, rewritten, rewritten]) == (Replaced(Rep(v, 0)), 3)
  {
    var found, rewritten := Attempt(Rep(v, 1), false), Attempt(Rep(v, 0), false);
    var all := [found, rewritten, rewritten];
    assert all[1..] == [rewritten, rewritten] && [rewritten, rewritten][1..] == [rewritten];
    assert RefLoop(Rep(v, 0), [rewritten]) == (Replaced(Rep(v, 0)), 1);
    assert RefLoop(Rep(v, 1), [rewritten, rewritten]) == (Replaced(Rep(v, 0)), 2);
  }

  /** Writers that leave padding behind can keep the strong form busy for as long as they like. */
  lemma {:induction false} RefUnboundedOtherwise<T>(v: T, p: nat, n: nat) returns (attempts: seq<Attempt<T>>)
    ensures |attempts| == n && Strong(attempts)
    ensures RefLoop(Rep(v, p), attempts) == (Retrying, n)
    decreases n
  {
    if n == 0 {
      attempts := [];
    } else {
      var rest := RefUnboundedOtherwise(v, p + 1, n - 1);
      attempts := [Attempt(Rep(v, p + 1), false)] + rest;
      assert attempts[1..] == rest;
    }
  }

  /** The branch for `atomic<T>`: a single attempt, padding cleared from the expected value only. */
  function AtomicOnce<T(==)>(e: Rep<T>, a: Attempt<T>): Outcome<T> {
    if Matches(a, Clear(e)) then Replaced(a.cell) else Differs(a.cell)
  }

  /** One strong attempt compares values exactly when the cell's padding is clear or the values
      differ anyway. */
  lemma AtomicOnceExact<T>(e: Rep<T>, cell: Rep<T>)
    ensures (AtomicOnce(e, Attempt(cell, false)).Replaced? <==> cell.value == e.value)
       <==> (cell.pad == 0 || cell.value != e.value)
  {
  }
}
