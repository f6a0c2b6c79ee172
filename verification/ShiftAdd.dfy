/** The shift-and-add step of the multiplier, for any significand width. */
module ShiftAdd {
  import opened Powers

  /** The partial sum before truncation to `p + 1` bits. */
  function PartialSum(p: nat, v: nat, b: nat): nat {
    v / Pow2(p) + if v % 2 == 1 then b else 0
  }

  /** `shift_add_clb`: add to the upper half if the lowest bit is set, then shift. */
  function Step(p: nat, v: nat, b: nat): nat {
    var sumUpper := PartialSum(p, v, b) % Pow2(p + 1);
    (sumUpper * Pow2(p) + v % Pow2(p)) / 2
  }

  function Steps(p: nat, a: nat, b: nat, i: nat): nat {
    if i == 0 then a else Step(p, Steps(p, a, b, i - 1), b)
  }

  /** What the register holds after `i` steps: the low `i` bits of `a` already
      multiplied, and above them the bits of `a` still to come. */
  function Partial(p: nat, a: nat, b: nat, i: nat): nat
    requires i <= p
  {
    Mul(Mul(Low(a, i), b), Pow2(p - i)) + High(a, i)
  }

  lemma Product(x: nat, y: nat, m: nat, n: nat)
    requires x < m && y < n
    ensures x * y < m * n
  {
    assert x * y <= x * n;
    MulStep(x, m, n);
  }

  lemma QuotientBound(a: nat, i: nat, p: nat)
    requires i <= p && a < Pow2(p)
    ensures a / Pow2(i) < Pow2(p - i)
  {
    Pow2Adds(p - i, i);
    DivModDefinition(a, Pow2(i));
    if a / Pow2(i) >= Pow2(p - i) {
      MulAtLeast(Pow2(p - i), a / Pow2(i), Pow2(i));
    }
  }

  /** `(m * b) * 2^(p-i) + q` fits in `2p` bits. */
  lemma Fits(p: nat, m: nat, b: nat, i: nat, q: nat)
    requires i <= p && m < Pow2(i) && b < Pow2(p) && q < Pow2(p - i)
    ensures m * b * Pow2(p - i) + q < Pow2(2 * p)
  {
    var c := Pow2(p - i);
    Product(m, b, Pow2(i), Pow2(p));
    MulStep(m * b, Pow2(i) * Pow2(p), c);
    Pow2Adds(i, p);
    Pow2Adds(i + p, p - i);
    assert Pow2(i) * Pow2(p) * c == Pow2(2 * p);
  }

  /** One step on a register split as an even part and the bits to come. */
  lemma StepSplit(p: nat, v: nat, b: nat)
    requires v < Pow2(2 * p) && b < Pow2(p) && p > 0
    ensures PartialSum(p, v, b) < Pow2(p + 1)
    ensures Step(p, v, b) == (v + (if v % 2 == 1 then b * Pow2(p) else 0)) / 2
  {
    var d := Pow2(p);
    Pow2Adds(p, p);
    DivModDefinition(v, d);
    if v / d >= d {
      MulAtLeast(d, v / d, d);
    }
    var s := PartialSum(p, v, b);
    DivModUnique(s, Pow2(p + 1), 0, s);
    if v % 2 == 1 {
      Regroup(v / d, 1, b, d);
      assert s * d == (v / d) * d + b * d;
    }
  }

  lemma Distribute(x: int, y: int, c: int)
    ensures (x + y) * c == x * c + y * c
  {
  }

  lemma Exchange(d: int, b: int, c: int)
    ensures d * b * c == b * (d * c)
  {
  }

  lemma Double(x: int, c: int)
    ensures x * (2 * c) == 2 * (x * c)
  {
  }

  /** Multiplying one more bit of weight `d` in. */
  lemma NextDone(m: nat, d: nat, b: nat, c: nat)
    ensures (m + d) * b * c == m * b * c + b * (d * c)
  {
    Distribute(m, d, b);
    Distribute(m * b, d * b, c);
    Exchange(d, b, c);
  }

  /** The register before a step, with its lowest bit in sight. */
  lemma PartialNow(p: nat, a: nat, b: nat, i: nat)
    requires i < p && a < Pow2(p) && b < Pow2(p)
    ensures Partial(p, a, b, i) < Pow2(2 * p)
    ensures Partial(p, a, b, i) == 2 * Mul(Mul(Low(a, i), b), Pow2(p - i - 1)) + High(a, i)
  {
    DivModDefinition(a, Pow2(i));
    QuotientBound(a, i, p);
    Fits(p, Low(a, i), b, i, High(a, i));
    Double(Mul(Low(a, i), b), Pow2(p - i - 1));
  }

  /** The register after it. */
  lemma PartialNext(p: nat, a: nat, b: nat, i: nat)
    requires i < p
    ensures Partial(p, a, b, i + 1) ==
      Mul(Mul(Low(a, i), b), Pow2(p - i - 1)) + (if High(a, i) % 2 == 1 then Mul(b, Pow2(p - 1)) else 0) + High(a, i) / 2
  {
    TopBitOfRemainder(a, i + 1);
    Pow2Adds(i, p - i - 1);
    NextDone(Low(a, i), Pow2(i), b, Pow2(p - i - 1));
  }

  /** A step on a register of which twice `x` and the bits `q` are known. */
  lemma StepFrom(p: nat, v: nat, x: nat, q: nat, b: nat)
    requires p > 0 && v < Pow2(2 * p) && b < Pow2(p) && v == 2 * x + q
    ensures Step(p, v, b) == x + (if q % 2 == 1 then Mul(b, Pow2(p - 1)) else 0) + q / 2
  {
    StepSplit(p, v, b);
    Double(b, Pow2(p - 1));
    HalfOf(x, Mul(b, Pow2(p - 1)), q);
  }

  /** The invariant moves by one bit of `a`. */
  lemma PartialStep(p: nat, a: nat, b: nat, i: nat)
    requires i < p && a < Pow2(p) && b < Pow2(p)
    ensures Partial(p, a, b, i) < Pow2(2 * p)
    ensures Step(p, Partial(p, a, b, i), b) == Partial(p, a, b, i + 1)
  {
    PartialNow(p, a, b, i);
    PartialNext(p, a, b, i);
    StepFrom(p, Partial(p, a, b, i), Mul(Mul(Low(a, i), b), Pow2(p - i - 1)), High(a, i), b);
  }

  lemma HalfOf(x: nat, y: nat, q: nat)
    ensures (2 * x + q) % 2 == q % 2
    ensures (2 * x + q + if q % 2 == 1 then 2 * y else 0) / 2 == x + (if q % 2 == 1 then y else 0) + q / 2
  {
  }

  lemma PartialEnds(p: nat, a: nat, b: nat)
    requires a < Pow2(p)
    ensures Partial(p, a, b, 0) == a && Partial(p, a, b, p) == a * b
  {
    DivModUnique(a, 1, a, 0);
    DivModUnique(a, Pow2(p), 0, a);
  }

  lemma {:induction false} StepsArePartial(p: nat, a: nat, b: nat, i: nat)
    requires i <= p && a < Pow2(p) && b < Pow2(p)
    ensures Steps(p, a, b, i) == Partial(p, a, b, i)
  {
    if i == 0 {
      PartialEnds(p, a, b);
    } else {
      StepsArePartial(p, a, b, i - 1);
      PartialStep(p, a, b, i - 1);
    }
  }

  /**
   * `p` steps from the register `{0, a}` leave exactly `a * b` in `2p` bits, and no
   * partial sum ever needs more than its `p + 1` bits.
   */
  lemma ShiftAddMultiplies(p: nat, a: nat, b: nat)
    requires a < Pow2(p) && b < Pow2(p)
    ensures Steps(p, a, b, p) == a * b < Pow2(2 * p)
    ensures forall i: nat :: i < p ==> PartialSum(p, Steps(p, a, b, i), b) < Pow2(p + 1)
  {
    forall i: nat | i < p ensures PartialSum(p, Steps(p, a, b, i), b) < Pow2(p + 1) {
      StepsArePartial(p, a, b, i);
      PartialStep(p, a, b, i);
      StepSplit(p, Partial(p, a, b, i), b);
    }
    StepsArePartial(p, a, b, p);
    PartialEnds(p, a, b);
    Product(a, b, Pow2(p), Pow2(p));
    Pow2Adds(p, p);
  }
}
