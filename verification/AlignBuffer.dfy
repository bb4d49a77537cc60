/** Fitting aligned storage into a buffer, in wrapping machine arithmetic. */
module AlignBuffer {
  import opened Gcds
  import opened Powers

  /** The width of an address. */
  const BITS := 64

  lemma WordIsPower()
    ensures WORD == Pow(2, BITS)
  {
    assert Pow(2, 8) == 0x100;
    PowAdd(2, 8, 16 - 8);
    PowAdd(2, 16, 32 - 16);
    PowAdd(2, 32, 64 - 32);
  }

  /** Bitwise and. */
  function And(x: nat, y: nat): nat {
    if x == 0 || y == 0 then 0 else (if x % 2 == 1 && y % 2 == 1 then 1 else 0) + 2 * And(x / 2, y / 2)
  }

  /** Negation in an unsigned type. */
  function Negated(x: nat): nat
    requires x <= WORD
  {
    (WORD - x) % WORD
  }

  /** Halving a remainder. */
  lemma HalfRemainder(x: nat, p: nat)
    requires p > 0
    ensures x % (2 * p) == x % 2 + 2 * ((x / 2) % p)
  {
    var q, r := (x / 2) / p, (x / 2) % p;
    var rest := x % 2 + 2 * r;
    assert x / 2 == p * q + r;
    assert x == (2 * p) * q + rest;
    Remainder(x, 2 * p, q, rest);
  }

  /** A mask of ones changes nothing. */
  lemma {:induction false} OnesKeep(x: nat, n: nat)
    requires x < Pow(2, n)
    ensures Pow(2, n) > 0 && And(x, Pow(2, n) - 1) == x
  {
    PowPositive(2, n);
    if n > 0 {
      OnesKeep(x / 2, n - 1);
      AndDoubled(x, Pow(2, n - 1) - 1, 1);
    }
  }

  /** The mask of a negated power of two clears the low bits, and nothing else. */
  lemma {:induction false} MaskClears(x: nat, n: nat, k: nat)
    requires x < Pow(2, n) && k <= n
    ensures Pow(2, k) <= Pow(2, n) && Pow(2, k) > 0
    ensures And(x, Pow(2, n) - Pow(2, k)) == x - x % Pow(2, k)
    decreases n
  {
    if k == 0 {
      OnesKeep(x, n);
    } else {
      MaskClears(x / 2, n - 1, k - 1);
      HalfRemainder(x, Pow(2, k - 1));
      AndDoubled(x, Pow(2, n - 1) - Pow(2, k - 1), 0);
    }
  }

  /** Bit by bit, from the last. */
  lemma AndDoubled(x: nat, y: nat, bit: nat)
    requires bit < 2
    ensures And(x, 2 * y + bit) == 2 * And(x / 2, y) + (if bit == 1 then x % 2 else 0)
  {
    assert (2 * y + bit) / 2 == y && (2 * y + bit) % 2 == bit;
  }

  /** The smallest multiple of `a` that is not below `p`. */
  function Up(p: nat, a: nat): nat
    requires a > 0
  {
    p + (a - p % a) % a
  }

  lemma UpLeast(p: nat, a: nat)
    requires a > 0
    ensures p <= Up(p, a) < p + a && Up(p, a) % a == 0
    ensures forall y: nat | p <= y && y % a == 0 :: Up(p, a) <= y
  {
    UpMultiple(p, a);
    forall y: nat | p <= y && y % a == 0 ensures Up(p, a) <= y {
      Apart(Up(p, a), y, a);
    }
  }

  /** Different multiples are at least that far apart. */
  lemma Apart(x: nat, y: nat, a: nat)
    requires a > 0 && x % a == 0 && y % a == 0
    ensures x > y ==> x - y >= a
  {
    var s, t := x / a, y / a;
    assert x == a * s && y == a * t;
    assert a * (s - t) == a * s - a * t;
    if s - t >= 1 {
      Stretch(a, s - t);
    } else {
      Stretch(a, t - s + 1);
      assert a * (t - s + 1) == a * t - a * s + a;
    }
  }

  lemma UpMultiple(p: nat, a: nat)
    requires a > 0
    ensures Up(p, a) % a == 0
    ensures Up(p, a) == if p % a == 0 then p else p - p % a + a
  {
    var q, r := p / a, p % a;
    assert p == a * q + r;
    if r == 0 {
      Remainder(a, a, 1, 0);
    } else {
      Below(a - r, a);
      assert a * (q + 1) == a * q + a;
      Remainder(Up(p, a), a, q + 1, 0);
    }
  }

  /** Adding one less than the alignment and dropping the remainder rounds up, around the end of the
      address space too. */
  lemma RoundsUp(p: nat, a: nat, w: nat)
    requires 0 < a < w && w % a == 0 && p < w
    ensures var x := (p - 1 + a) % w; x - x % a == Up(p, a) % w
    ensures (Up(p, a) % w - p) % w == Up(p, a) - p
  {
    UpMultiple(p, a);
    UpLeast(p, a);
    if p - 1 + a < w {
      Below(p - 1 + a, w);
      Below(Up(p, a), w);
      Below(Up(p, a) - p, w);
      Remainders(p, a);
    } else {
      Apart(w, Up(p, a), a);
      assert Up(p, a) == w;
      Remainder(p - 1 + a, w, 1, p - 1 + a - w);
      Below(p - 1 + a - w, a);
      Remainder(w, w, 1, 0);
      assert (0 - p) % w == w - p by {
        Wraps(p, w);
      }
    }
  }

  lemma Below(x: nat, w: nat)
    requires x < w
    ensures x % w == x
  {
  }

  lemma Wraps(p: nat, w: nat)
    requires 0 < p < w
    ensures (0 - p) % w == w - p
  {
  }

  lemma Remainders(p: nat, a: nat)
    requires a > 0
    ensures var x := p - 1 + a; x >= 0 && x - x % a == Up(p, a)
  {
    UpMultiple(p, a);
    var q := p / a;
    assert p == a * q + p % a;
    if p % a == 0 {
      Remainder(p - 1 + a, a, q, a - 1);
    } else {
      assert a * (q + 1) == a * q + a;
      Remainder(p - 1 + a, a, q + 1, p % a - 1);
    }
  }

  /** The mask does it, for an alignment that is a power of two. */
  lemma MaskRoundsUp(p: nat, k: nat, n: nat, w: nat)
    requires w == Pow(2, n) && p < w && k < n
    ensures 0 < Pow(2, k) < w
    ensures And((p - 1 + Pow(2, k)) % w, (w - Pow(2, k)) % w) == Up(p, Pow(2, k)) % w
    ensures (Up(p, Pow(2, k)) % w - p) % w == Up(p, Pow(2, k)) - p
  {
    PowPositive(2, k);
    PowMonotone(2, k + 1, n);
    MaskClears((p - 1 + Pow(2, k)) % w, n, k);
    WordIsMultiple(k, n);
    RoundsUp(p, Pow(2, k), w);
    Below(w - Pow(2, k), w);
  }

  lemma WordIsMultiple(k: nat, n: nat)
    requires k <= n
    ensures Pow(2, k) > 0 && Pow(2, n) % Pow(2, k) == 0
  {
    PowAdd(2, k, n - k);
    PowPositive(2, k);
    Remainder(Pow(2, n), Pow(2, k), Pow(2, n - k), 0);
  }

  /** The caller's pointer and size, which the call updates. */
  class Space {
    var ptr: nat
    var space: nat

    constructor (p: nat, s: nat)
      ensures ptr == p && space == s
    {
      ptr, space := p, s;
    }

    /** The alignment is a power of two. The result 0 is the null pointer. */
    method Align(align: nat, size: nat, ghost k: nat) returns (r: nat)
      requires k < BITS && align == Pow(2, k) && ptr < WORD && space < WORD && size < WORD
      modifies this
      ensures align > 0
      ensures var up := Up(old(ptr), align);
        if up + size <= old(ptr) + old(space)
        then r == ptr == up % WORD && space == old(ptr) + old(space) - up
        else r == 0 && ptr == old(ptr) && space == old(space)
    {
      WordMask(ptr, align, k);
      UpLeast(ptr, align);
      if space < size {
        return 0;
      }
      var aligned := And((ptr - 1 + align) % WORD, Negated(align));
      var diff := (aligned - ptr) % WORD;
      if diff > space - size {
        return 0;
      }
      space := space - diff;
      ptr := aligned;
      return aligned;
    }
  }

  lemma WordMask(p: nat, a: nat, k: nat)
    requires p < WORD && k < BITS && a == Pow(2, k)
    ensures 0 < a < WORD
    ensures And((p - 1 + a) % WORD, Negated(a)) == Up(p, a) % WORD
    ensures (Up(p, a) % WORD - p) % WORD == Up(p, a) - p
  {
    WordIsPower();
    MaskRoundsUp(p, k, BITS, WORD);
  }

  /** What the standard asks for: a buffer that is not at the null address and ends inside the address
      space gets the smallest aligned address exactly when the storage fits from there on. */
  lemma AlignedFit(p: nat, space: nat, a: nat, size: nat)
    requires a > 0 && 0 < p && p + space < WORD
    ensures Up(p, a) + size <= p + space ==> 0 < Up(p, a) == Up(p, a) % WORD
    ensures Up(p, a) + size <= p + space <==> exists y: nat :: Fits(p, space, a, size, y)
    ensures forall y: nat | Fits(p, space, a, size, y) :: Up(p, a) <= y
  {
    UpLeast(p, a);
    if Up(p, a) + size <= p + space {
      Below(Up(p, a), WORD);
      assert Fits(p, space, a, size, Up(p, a));
    }
  }

  /** Aligned storage fits at `y`. */
  predicate Fits(p: nat, space: nat, a: nat, size: nat, y: nat)
    requires a > 0
  {
    p <= y && y % a == 0 && y + size <= p + space
  }

  /** For a buffer that ends with the address space, or starts with it, success may look like failure. */
  lemma NullMeansSuccess(p: nat, space: nat, a: nat, size: nat, k: nat)
    requires k < BITS && a == Pow(2, k) && p < WORD && p + space <= WORD
    ensures a > 0
    ensures Up(p, a) + size <= p + space ==>
      (Up(p, a) % WORD == 0 <==> p == 0 || (p + space == WORD && size == 0 && WORD - p < a))
  {
    PowPositive(2, k);
    WordIsPower();
    WordIsMultiple(k, BITS);
    NullCases(p, space, a, size, WORD);
  }

  lemma NullCases(p: nat, space: nat, a: nat, size: nat, w: nat)
    requires 0 < a && 0 < w && w % a == 0 && p < w && p + space <= w
    ensures Up(p, a) + size <= p + space ==>
      (Up(p, a) % w == 0 <==> p == 0 || (p + space == w && size == 0 && w - p < a))
  {
    UpLeast(p, a);
    UpMultiple(p, a);
    Apart(w, Up(p, a), a);
    if Up(p, a) < w {
      Below(Up(p, a), w);
    } else if Up(p, a) == w {
      Remainder(w, w, 1, 0);
    }
  }
}
