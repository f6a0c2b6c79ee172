/** Results below the normal range: what state 0011 keeps of the product and what it drops. */
module FpSubnormal {
  import opened Powers
  import ShiftAdd
  import opened FpMult
  import opened FpMultFsm

  /** Dropping bits in two goes is dropping them in one. */
  lemma HighHigh(v: nat, k: nat, d: nat)
    ensures High(High(v, k), d) == High(v, k + d)
    ensures Bit(High(v, k), d) == Bit(v, k + d)
    ensures Low(v, k + d) == Mul(Low(High(v, k), d), Pow2(k)) + Low(v, k)
  {
    var x, y := High(v, k), High(High(v, k), d);
    DivModDefinition(v, Pow2(k));
    DivModDefinition(x, Pow2(d));
    Regroup(y, Pow2(d), Low(x, d), Pow2(k));
    Pow2Adds(d, k);
    MulStep(Low(x, d), Pow2(d), Pow2(k));
    DivModUnique(v, Pow2(k + d), y, Mul(Low(x, d), Pow2(k)) + Low(v, k));
  }

  /** The bits below are zero when both groups of them are. */
  lemma StickySplits(v: nat, k: nat, d: nat)
    ensures (Low(v, k + d) != 0) == (Low(High(v, k), d) != 0 || Low(v, k) != 0)
  {
    HighHigh(v, k, d);
    var m := Low(High(v, k), d);
    assert m > 0 ==> Mul(m, Pow2(k)) > 0;
  }

  /** Nothing is left of a number above its highest bit. */
  lemma AllDropped(v: nat, n: nat, k: nat)
    requires v < Pow2(n) && n <= k
    ensures High(v, k) == 0 && Low(v, k) == v && !Bit(v, k)
  {
    Pow2Monotonic(n, k);
    DivModUnique(v, Pow2(k), 0, v);
  }

  /** The guard bit is the only one set among those below the significand and the next `d`. */
  predicate OnlyGuard(v: nat, k: nat, d: nat)
    requires k > 0
  {
    Bit(v, k - 1) && Low(v, k - 1) == 0 && Low(High(v, k), d) == 0
  }

  /** A product and the exponent that goes with it: normalised, by `shift` places that
      leave the top bit clear, unless the exponent is 0, which allows no shift. The exponent
      adder gives no less than `1 + 1` minus the bias. */
  ghost predicate Underflows(p: nat, q: nat, expIn: int, shift: nat, sig: Sig, v: nat)
    requires p >= 3
  {
    && q > 0 && p < Pow2(q - 1) - 1
    && Shows(p, sig, v) && (if expIn == 0 then shift == 0 else Pow2(2 * p - 2) <= v)
    && (shift > 0 ==> v < Pow2(2 * p - 1)) && shift <= p
    && 3 - Pow2(q - 1) <= expIn && AdjustedExponent(p, expIn, shift, v) <= 0
  }

  function AdjustedExponent(p: nat, expIn: int, shift: nat, v: nat): int
    requires p >= 3
  {
    if v >= Pow2(2 * p - 1) then expIn + 1 else expIn - shift
  }

  /** How many bits a result of exponent `exp <= 0` has to drop to stand at exponent 1. */
  function DroppedBelow(p: nat, exp: int, v: nat): (k: nat)
    requires p >= 3 && exp <= 0
    ensures k >= 3
  {
    Dropped(p, v) + 1 - exp
  }

  /** State 0011 takes exponents as low as this for overflows and leaves them alone. */
  predicate TooLow(q: nat, exp: int)
    requires q > 0
  {
    exp <= 2 - Pow2(q - 1)
  }

  /** The shift distance survives being cut to `$clog2(P+1)` bits. */
  predicate DistanceHolds(p: nat, t: nat) { t < Pow2(Clog2(p + 1)) }

  /** The test for shifting everything out looks at the operands' exponent, although the
      product's top bit may have raised it by one. */
  predicate RaisedAtLimit(p: nat, expIn: int, v: nat)
    requires p >= 3
  {
    expIn + p == 0 && v >= Pow2(2 * p - 1)
  }

  /** When state 0011 shifts a result right. */
  predicate ShiftsRight(p: nat, q: nat, expIn: int, exp: int, v: nat)
    requires p >= 3 && q > 0 && exp <= 0
  {
    !TooLow(q, exp) && if expIn + p > 0 then DistanceHolds(p, -exp) else !RaisedAtLimit(p, expIn, v)
  }

  /**
   * Exactly what state 0011 does to a result below the normal range. The significand and
   * its guard bit are right if and only if the exponent is not taken for an overflow, the
   * shift distance survives, and the result is not the one whose top bit raises it above
   * the shift-out limit. Where they are right, the sticky bit is right if and only if the
   * old guard bit of a product with its top bit set is not the only bit dropped.
   */
  lemma DenormaliseExact(p: nat, q: nat, expIn: int, shift: nat, sig0: Sig, v: nat)
    requires p >= 3 && Underflows(p, q, expIn, shift, sig0, v)
    ensures var (sig, exp) := Adjust(p, q, expIn, shift, sig0);
      var (sub, exp') := Denormalise(p, q, expIn, sig, exp);
      exp <= 0 &&
      var k := DroppedBelow(p, exp, v);
      && (sub.product == High(v, k) && sub.g == Bit(v, k - 1) <==> ShiftsRight(p, q, expIn, exp, v))
      && (ShiftsRight(p, q, expIn, exp, v) ==>
            exp' == 0 && High(v, k) < Pow2(p - 1)
            && (sub.s == (Low(v, k - 1) != 0) <==>
                !(v >= Pow2(2 * p - 1) && OnlyGuard(v, Dropped(p, v), -exp))))
  {
    Adjusted(p, q, expIn, shift, sig0, v);
    var (sig, exp) := Adjust(p, q, expIn, shift, sig0);
    BelowHalf(p, exp, v);
    if TooLow(q, exp) {
      LeftAlone(p, q, expIn, sig, exp, v);
    } else if expIn + p > 0 {
      if DistanceHolds(p, -exp) {
        ShiftedInPlace(p, q, expIn, sig, exp, v);
      } else {
        ShiftedCut(p, q, expIn, shift, sig, exp, v);
      }
    } else {
      ShiftedOut(p, q, expIn, shift, sig, exp, v);
    }
  }

  /** What adjustment hands to state 0011. */
  lemma Adjusted(p: nat, q: nat, expIn: int, shift: nat, sig0: Sig, v: nat)
    requires p >= 3 && Underflows(p, q, expIn, shift, sig0, v)
    ensures var (sig, exp) := Adjust(p, q, expIn, shift, sig0);
      && AdjustedSig(p, sig, v) && exp == AdjustedExponent(p, expIn, shift, v)
      && (expIn == 0 || Pow2(p - 1) <= sig.product)
  {
    AdjustShows(p, q, expIn, shift, sig0, v);
    if Pow2(2 * p - 2) <= v {
      AdjustShowsUnits(p, q, expIn, shift, sig0, v);
    }
    TopOfProduct(p, v);
    TopBit(sig0.product, p - 1);
    StickyJoins(v, p - 1);
    assert Pow2(q) == 2 * Pow2(q - 1);
    WrapSmall(q, AdjustedExponent(p, expIn, shift, v));
  }

  /** The significand; `r` or `s` speaks for all dropped bits, except that with the top bit
      set it leaves out the guard bit. */
  ghost predicate AdjustedSig(p: nat, sig: Sig, v: nat)
    requires p >= 3
  {
    var k := Dropped(p, v);
    && v < Pow2(2 * p) && sig.product == High(v, k) < Pow2(p)
    && (sig.r || sig.s) == if v >= Pow2(2 * p - 1) then Low(v, k - 1) != 0 else Low(v, k) != 0
  }

  /** What has to be shifted at all ends up below the smallest normal significand. */
  lemma BelowHalf(p: nat, exp: int, v: nat)
    requires p >= 3 && exp <= 0 && v < Pow2(2 * p)
    ensures High(v, DroppedBelow(p, exp, v)) < Pow2(p - 1)
  {
    var k := Dropped(p, v) + 1;
    var n := if v >= Pow2(2 * p - 1) then 2 * p else 2 * p - 1;
    var t: nat := -exp;
    HighHigh(v, k, t);
    ShiftAdd.QuotientBound(v, k, n);
    DivModDefinition(High(v, k), Pow2(t));
    MulAtLeast(1, Pow2(t), High(v, k + t));
    MulCommutes(Pow2(t), High(v, k + t));
  }

  lemma LeftAlone(p: nat, q: nat, expIn: int, sig: Sig, exp: int, v: nat)
    requires p >= 3 && q > 0 && p < Pow2(q - 1) - 1 && AdjustedSig(p, sig, v) && TooLow(q, exp) && exp <= 0
    requires Pow2(p - 1) <= sig.product
    ensures Denormalise(p, q, expIn, sig, exp) == (sig, exp)
    ensures sig.product != High(v, DroppedBelow(p, exp, v))
  {
    BelowHalf(p, exp, v);
  }

  /** The shift of a significand that is not shifted out. */
  lemma Shifted(p: nat, q: nat, expIn: int, sig: Sig, exp: int, v: nat)
    requires p >= 3 && q > 0 && AdjustedSig(p, sig, v) && exp <= 0 && !TooLow(q, exp) && expIn + p > 0
    ensures var (sub, exp') := Denormalise(p, q, expIn, sig, exp);
      var t: nat := -exp % Pow2(Clog2(p + 1));
      && exp' == 0 && sub.product == High(sig.product, t + 1) && sub.g == Bit(sig.product, t)
      && sub.s == (sig.r || sig.s || Low(sig.product, t) != 0)
  {
    DivModUnique(0, Pow2(Clog2(p + 1)), 0, 0);
    DivModUnique(sig.product, Pow2(0), sig.product, 0);
  }

  /** The significand and guard bit of a product shifted by the distance as cut. */
  lemma ShiftedBy(p: nat, q: nat, expIn: int, sig: Sig, exp: int, v: nat)
    requires p >= 3 && q > 0 && AdjustedSig(p, sig, v) && exp <= 0 && !TooLow(q, exp) && expIn + p > 0
    ensures var (sub, exp') := Denormalise(p, q, expIn, sig, exp);
      var t: nat := -exp % Pow2(Clog2(p + 1));
      var k := Dropped(p, v) + 1 + t;
      && exp' == 0 && sub.product == High(v, k) && sub.g == Bit(v, k - 1)
      && (sub.s == (Low(v, k - 1) != 0) <==> !(v >= Pow2(2 * p - 1) && OnlyGuard(v, Dropped(p, v), t)))
      && (v >= Pow2(2 * p - 1) && OnlyGuard(v, Dropped(p, v), t) ==> !sub.s)
  {
    var k, t: nat := Dropped(p, v), -exp % Pow2(Clog2(p + 1));
    Shifted(p, q, expIn, sig, exp, v);
    HighHigh(v, k, t + 1);
    HighHigh(v, k, t);
    StickySplits(v, k, t);
    StickyJoins(v, k);
  }

  /** How a distance is cut: by one turn of its register, to at most P - 2. */
  lemma CutDistance(p: nat, expIn: int, shift: nat)
    requires p >= 3 && expIn + p > 0 && shift <= p && expIn <= 0 && !DistanceHolds(p, shift - expIn)
    ensures var m := Pow2(Clog2(p + 1));
      (shift - expIn) % m == shift - expIn - m <= p - 2
  {
    var m, t: nat := Pow2(Clog2(p + 1)), shift - expIn;
    assert m <= 2 * p;
    DivModUnique(t, m, 1, t - m);
  }

  /** Something is left of a number at and below its highest bit. */
  lemma SomethingLeft(v: nat, n: nat, k: nat)
    requires Pow2(n) <= v && k <= n
    ensures High(v, k) >= 1
  {
    Pow2Monotonic(k, n);
    AtLeastOnce(v, Pow2(k));
  }

  /** Where a distance is cut, the significand is not cleared as it should be. */
  lemma CutWrong(p: nat, v: nat, c: nat, k: nat)
    requires p >= 3 && c <= p - 2 && k >= 2 * p && Pow2(2 * p - 2) <= v < Pow2(2 * p - 1)
    ensures High(v, p + c) >= 1 && High(v, k) == 0
  {
    SomethingLeft(v, 2 * p - 2, p + c);
    AllDropped(v, 2 * p - 1, k);
  }

  lemma AtLeastOnce(v: nat, d: nat)
    requires 0 < d <= v
    ensures v / d >= 1
  {
    DivModDefinition(v, d);
  }

  lemma ShiftedInPlace(p: nat, q: nat, expIn: int, sig: Sig, exp: int, v: nat)
    requires p >= 3 && q > 0 && AdjustedSig(p, sig, v) && exp <= 0 && !TooLow(q, exp) && expIn + p > 0
    requires DistanceHolds(p, -exp)
    ensures var (sub, exp') := Denormalise(p, q, expIn, sig, exp);
      var k := DroppedBelow(p, exp, v);
      && exp' == 0 && sub.product == High(v, k) && sub.g == Bit(v, k - 1)
      && (sub.s == (Low(v, k - 1) != 0) <==> !(v >= Pow2(2 * p - 1) && OnlyGuard(v, Dropped(p, v), -exp)))
      && (v >= Pow2(2 * p - 1) && OnlyGuard(v, Dropped(p, v), -exp) ==> !sub.s)
  {
    ShiftedBy(p, q, expIn, sig, exp, v);
    DivModUnique(-exp, Pow2(Clog2(p + 1)), 0, -exp);
  }

  lemma ShiftedCut(p: nat, q: nat, expIn: int, shift: nat, sig: Sig, exp: int, v: nat)
    requires p >= 3 && q > 0 && AdjustedSig(p, sig, v) && exp <= 0 && !TooLow(q, exp) && 0 < expIn + p <= p
    requires exp == expIn - shift && shift <= p && !DistanceHolds(p, -exp) && Pow2(2 * p - 2) <= v < Pow2(2 * p - 1)
    ensures var (sub, _) := Denormalise(p, q, expIn, sig, exp);
      sub.product != High(v, DroppedBelow(p, exp, v))
  {
    ShiftedBy(p, q, expIn, sig, exp, v);
    CutDistance(p, expIn, shift);
    CutWrong(p, v, -exp - Pow2(Clog2(p + 1)), DroppedBelow(p, exp, v));
  }

  /** Everything is shifted out and becomes sticky. */
  lemma ShiftedOut(p: nat, q: nat, expIn: int, shift: nat, sig: Sig, exp: int, v: nat)
    requires p >= 3 && q > 0 && AdjustedSig(p, sig, v) && exp <= 0 && !TooLow(q, exp) && expIn + p <= 0
    requires exp == AdjustedExponent(p, expIn, shift, v) && Pow2(p - 1) <= sig.product
    ensures var (sub, exp') := Denormalise(p, q, expIn, sig, exp);
      var k := DroppedBelow(p, exp, v);
      && exp' == 0 && sub.product == High(v, k) == 0 && !sub.g && sub.s
      && Bit(v, k - 1) == RaisedAtLimit(p, expIn, v)
      && (RaisedAtLimit(p, expIn, v) ==> (Low(v, k - 1) != 0 <==> v != Pow2(2 * p - 1)))
      && (!RaisedAtLimit(p, expIn, v) ==> Low(v, k - 1) != 0)
      && !(v >= Pow2(2 * p - 1) && !RaisedAtLimit(p, expIn, v) && OnlyGuard(v, Dropped(p, v), -exp))
  {
    var k, t: nat := DroppedBelow(p, exp, v), -exp;
    AllDropped(v, 2 * p, k);
    if RaisedAtLimit(p, expIn, v) {
      TopBit(v, 2 * p - 1);
    } else {
      AllDropped(v, if v >= Pow2(2 * p - 1) then 2 * p else 2 * p - 1, k - 1);
      AllDropped(sig.product, p, t);
    }
  }

  /**
   * For normalised operands the significand is always right; the guard bit is right if
   * and only if the result is not the raised one at the limit; the sticky bit is right if
   * and only if it does not stand for the old guard bit alone or, at the limit, for
   * nothing at all.
   */
  lemma NormalisedDenormaliseExact(p: nat, q: nat, expIn: int, sig0: Sig, v: nat)
    requires p >= 3 && Underflows(p, q, expIn, 0, sig0, v)
    ensures var (sig, exp) := Adjust(p, q, expIn, 0, sig0);
      var (sub, exp') := Denormalise(p, q, expIn, sig, exp);
      exp <= 0 &&
      var k := DroppedBelow(p, exp, v);
      && exp' == 0 && sub.product == High(v, k)
      && (sub.g == Bit(v, k - 1) <==> !RaisedAtLimit(p, expIn, v))
      && (sub.s == (Low(v, k - 1) != 0) <==>
          if RaisedAtLimit(p, expIn, v) then v != Pow2(2 * p - 1)
          else !(v >= Pow2(2 * p - 1) && OnlyGuard(v, Dropped(p, v), -exp)))
  {
    Adjusted(p, q, expIn, 0, sig0, v);
    DenormaliseExact(p, q, expIn, 0, sig0, v);
    var (sig, exp) := Adjust(p, q, expIn, 0, sig0);
    if expIn + p <= 0 {
      ShiftedOut(p, q, expIn, 0, sig, exp, v);
    }
  }

  /** The shift that the multiplier reports, P places at most, is the one it has made. P
      places are too many for its register when P is a power of two. */
  predicate ShiftReported(p: nat, lz: nat)
    requires p > 0
  {
    lz <= p || (lz == p + 1 && p < Pow2(Clog2(p)))
  }

  /** Products whose result falls below the normal range meet the description. */
  lemma VectorUnderflows(i: Inputs, m: nat)
    requires i.p >= 3 && i.q > 0 && i.p < Pow2(i.q - 1) - 1 && 3 - Pow2(i.q - 1) <= i.expIn <= 0
    requires 0 < m < Pow2(2 * i.p) && ShiftReported(i.p, LeadingZeros(2 * i.p, m, 2 * i.p - 1))
    requires i.expIn == 0 ==> m < Pow2(2 * i.p - 1)
    ensures var (sig, shift) := Finish(i, m); Underflows(i.p, i.q, i.expIn, shift, sig, Mul(m, Pow2(shift)))
  {
    var (sig, shift) := Finish(i, m);
    FinishBelow(i, m);
    FinishFull(i, m);
    if i.expIn == 0 {
      AtZeroUnderflows(i.p, i.q, sig, Mul(m, Pow2(shift)));
    } else {
      BelowUnderflows(i.p, i.q, i.expIn, shift, sig, Mul(m, Pow2(shift)));
    }
  }

  lemma FinishFull(i: Inputs, m: nat)
    requires i.p >= 3 && i.q > 0 && i.p < Pow2(i.q - 1) - 1 && 3 - Pow2(i.q - 1) <= i.expIn <= 0
    requires 0 < m < Pow2(2 * i.p) && ShiftReported(i.p, LeadingZeros(2 * i.p, m, 2 * i.p - 1))
    ensures var shift := Finish(i, m).1;
      var v := Mul(m, Pow2(shift));
      && shift <= i.p
      && if i.expIn == 0 then shift == 0 && v == m
         else Pow2(2 * i.p - 2) <= v && (shift > 0 ==> v < Pow2(2 * i.p - 1))
  {
    FinishBelow(i, m);
    if i.expIn == 0 {
      assert m * Pow2(0) == m;
    } else {
      VectorFull(i.p, m, Finish(i, m).1);
    }
  }

  lemma FinishBelow(i: Inputs, m: nat)
    requires i.p >= 3 && i.q > 0 && i.p < Pow2(i.q - 1) - 1 && 3 - Pow2(i.q - 1) <= i.expIn <= 0
    requires 0 < m < Pow2(2 * i.p) && ShiftReported(i.p, LeadingZeros(2 * i.p, m, 2 * i.p - 1))
    ensures var (sig, shift) := Finish(i, m);
      var lz := LeadingZeros(2 * i.p, m, 2 * i.p - 1);
      && Shows(i.p, sig, Mul(m, Pow2(shift)))
      && shift == if i.expIn < 0 && lz > 1 then lz - 1 else 0
  {
    assert Pow2(i.q) == 2 * Pow2(i.q - 1);
    CapBelow(i.q, i.expIn, LeadingZeros(2 * i.p, m, 2 * i.p - 1));
    FinishShows(i, m);
  }

  lemma BelowUnderflows(p: nat, q: nat, expIn: int, shift: nat, sig: Sig, v: nat)
    requires p >= 3 && q > 0 && p < Pow2(q - 1) - 1 && 3 - Pow2(q - 1) <= expIn < 0
    requires Shows(p, sig, v) && Pow2(2 * p - 2) <= v && (shift > 0 ==> v < Pow2(2 * p - 1)) && shift <= p
    ensures Underflows(p, q, expIn, shift, sig, v)
  {
  }

  lemma AtZeroUnderflows(p: nat, q: nat, sig: Sig, v: nat)
    requires p >= 3 && q > 0 && p < Pow2(q - 1) - 1 && Shows(p, sig, v) && v < Pow2(2 * p - 1)
    ensures Underflows(p, q, 0, 0, sig, v)
  {
  }

  /** Normalised, a vector has its highest bit at one of the two topmost places, and at the
      second if it was shifted. */
  lemma VectorFull(p: nat, m: nat, j: nat)
    requires p >= 3 && 0 < m < Pow2(2 * p)
    requires var lz := LeadingZeros(2 * p, m, 2 * p - 1); lz <= p + 1 && j == if lz > 1 then lz - 1 else 0
    ensures Pow2(2 * p - 2) <= Mul(m, Pow2(j)) && (j > 0 ==> Mul(m, Pow2(j)) < Pow2(2 * p - 1))
  {
    VectorBounds(p, m, j);
  }

  /** The last step of the multiplier: the shift it reports is the one the significand
      shows. */
  lemma FinishShows(i: Inputs, m: nat)
    requires i.p >= 3 && 0 < m < Pow2(2 * i.p)
    requires ShiftReported(i.p, LeadingZeroCap(i.q, i.expIn, LeadingZeros(2 * i.p, m, 2 * i.p - 1)))
    ensures var (sig, shift) := Finish(i, m);
      var cap := LeadingZeroCap(i.q, i.expIn, LeadingZeros(2 * i.p, m, 2 * i.p - 1));
      shift == (if cap > 1 then cap - 1 else 0) && Shows(i.p, sig, Mul(m, Pow2(shift)))
  {
    var lz := LeadingZeros(2 * i.p, m, 2 * i.p - 1);
    var cap := LeadingZeroCap(i.q, i.expIn, lz);
    var j: nat := if cap > 1 then cap - 1 else 0;
    LeadingZerosBound(2 * i.p, m);
    DivModUnique(j, Pow2(Clog2(i.p)), 0, j);
    Pow2Monotonic(2 * i.p - lz, 2 * i.p - j);
    NormaliseLossless(i.p, m, lz, cap);
    FinishCapped(i, m, lz, cap, j);
  }

  /** Shifted up by one place less than it has leading zeros, a vector starts with 01. */
  lemma VectorBounds(p: nat, m: nat, j: nat)
    requires p >= 3 && 0 < m < Pow2(2 * p)
    requires var lz := LeadingZeros(2 * p, m, 2 * p - 1); lz <= p + 1
    ensures var lz := LeadingZeros(2 * p, m, 2 * p - 1);
      && (j < lz ==> Mul(m, Pow2(j)) < Pow2(2 * p - 1))
      && (j + 1 < lz ==> Mul(m, Pow2(j)) < Pow2(2 * p - 2))
      && (lz <= j + 1 <= p + 1 ==> Pow2(2 * p - 2) <= Mul(m, Pow2(j)))
  {
    LeadingZerosBound(2 * p, m);
    var lz := LeadingZeros(2 * p, m, 2 * p - 1);
    if j < lz {
      ShiftedBelow(m, 2 * p - lz, j, 2 * p - 1);
    }
    if j + 1 < lz {
      ShiftedBelow(m, 2 * p - lz, j, 2 * p - 2);
    }
    if lz <= j + 1 <= p + 1 {
      ShiftedAbove(m, 2 * p - 1 - lz, j, 2 * p - 2);
    }
  }

  lemma ShiftedBelow(m: nat, n: nat, j: nat, top: nat)
    requires m < Pow2(n) && n + j <= top
    ensures Mul(m, Pow2(j)) < Pow2(top)
  {
    Pow2Monotonic(n, top - j);
    ScaledBelow(m, j, top);
  }

  lemma ShiftedAbove(m: nat, n: nat, j: nat, top: nat)
    requires Pow2(n) <= m && j <= top <= n + j
    ensures Pow2(top) <= Mul(m, Pow2(j))
  {
    Pow2Monotonic(top - j, n);
    ScaledAbove(m, j, top);
  }

  lemma NegativeRemainder(x: int, d: nat)
    requires d > 0 && 0 < x + d && x < 0
    ensures x % d == x + d
  {
    assert (x + d) % d == x + d;
  }

  /** A negative exponent read as an unsigned number caps nothing; zero caps everything. */
  lemma CapBelow(q: nat, expIn: int, lz: nat)
    requires q > 0 && 3 - Pow2(q - 1) <= expIn <= 0 && lz < Pow2(q)
    ensures LeadingZeroCap(q, expIn, lz) == if expIn < 0 then lz else 0
  {
    assert Pow2(q + 1) == 2 * Pow2(q) && Pow2(q) == 2 * Pow2(q - 1);
    if expIn < 0 {
      NegativeRemainder(expIn, Pow2(q + 1));
    } else {
      DivModUnique(0, Pow2(q + 1), 0, 0);
    }
  }
}
