/** The combinational rounder behind the floating-point adder. */
module ResultRounder {
  import opened Powers

  datatype Rounded = Rounded(exponent: nat, mantissa: nat, overflow: bool)

  predicate Odd(n: nat) { n % 2 == 1 }

  /** The bits below the mantissa send it up. */
  predicate RoundsUp(mantissa: nat, rb: nat, bits: nat)
    requires rb >= 2
  {
    var halfway := bits == Pow2(rb - 1);
    (halfway && Odd(mantissa)) || (!halfway && Bit(bits, rb - 1))
  }

  /** One more in the last place, with `ew` exponent and `mw` mantissa bits. */
  function Increment(ew: nat, mw: nat, exponent: nat, mantissa: nat): Rounded {
    var m := Low(mantissa + 1, mw);
    if m == 0 then
      var e := Low(exponent + 1, ew);
      if e == Pow2(ew) - 1 then Rounded(Pow2(ew) - 1, 0, true) else Rounded(e, 0, false)
    else Rounded(exponent, m, false)
  }

  /** `result_rounder`, for `ew` exponent, `mw` mantissa and `rb` rounding bits. */
  function RoundResult(ew: nat, mw: nat, rb: nat, nearest: bool, exponent: nat, mantissa: nat, bits: nat): Rounded
    requires rb >= 2
  {
    if nearest && RoundsUp(mantissa, rb, bits) then Increment(ew, mw, exponent, mantissa)
    else Rounded(exponent, mantissa, false)
  }

  /** Exponent and mantissa read as one number. */
  function Packed(mw: nat, exponent: nat, mantissa: nat): nat { Mul(exponent, Pow2(mw)) + mantissa }

  /** `n` units are the nearest multiple of the unit to `x`, and even if two are nearest. */
  ghost predicate NearestEven(x: nat, unit: nat, n: nat) {
    && (forall k: nat :: Distance(x, Mul(n, unit)) <= Distance(x, Mul(k, unit)))
    && (forall k: nat :: k != n && Distance(x, Mul(k, unit)) == Distance(x, Mul(n, unit)) ==> !Odd(n))
  }

  /** Whole units `n`, and one more if the fraction says so. */
  lemma NearestByFraction(n: nat, f: nat, unit: nat)
    requires f < unit && unit > 0
    ensures var x := Mul(n, unit) + f;
      NearestEven(x, unit, if FractionUp(Odd(n), f, unit) then n + 1 else n)
  {
    var x := Mul(n, unit) + f;
    assert Mul(n + 1, unit) == Mul(n, unit) + unit;
    forall k: nat ensures Mul(k, unit) <= Mul(n, unit) || Mul(n + 1, unit) <= Mul(k, unit)
      ensures k < n ==> Mul(k, unit) + unit <= Mul(n, unit)
      ensures k > n + 1 ==> Mul(n + 1, unit) + unit <= Mul(k, unit)
    {
      if k < n {
        MulStep(k, n, unit);
      } else if k > n + 1 {
        MulStep(n + 1, k, unit);
      }
    }
  }

  /** The fraction is more than half, or half below an odd number. */
  predicate FractionUp(odd: bool, f: nat, unit: nat) { 2 * f > unit || (2 * f == unit && odd) }

  /** The rounding test on the bits is the test on the fraction. */
  lemma TestIsFraction(rb: nat, bits: nat, mantissa: nat)
    requires rb >= 2 && bits < Pow2(rb)
    ensures RoundsUp(mantissa, rb, bits) == FractionUp(Odd(mantissa), bits, Pow2(rb))
  {
    var d := Pow2(rb - 1);
    if bits >= d {
      DivModUnique(bits, d, 1, bits - d);
    } else {
      DivModUnique(bits, d, 0, bits);
    }
  }

  lemma PackedParity(mw: nat, exponent: nat, mantissa: nat)
    requires mw >= 1
    ensures Odd(Packed(mw, exponent, mantissa)) == Odd(mantissa)
  {
    var h := Mul(exponent, Pow2(mw - 1));
    assert Mul(exponent, Pow2(mw)) == 2 * h by {
      Regroup(exponent, 2, 0, Pow2(mw - 1));
    }
  }

  lemma LowIncrement(x: nat, k: nat)
    requires x < Pow2(k)
    ensures Low(x + 1, k) == if x == Pow2(k) - 1 then 0 else x + 1
  {
    if x == Pow2(k) - 1 {
      DivModUnique(x + 1, Pow2(k), 1, 0);
    } else {
      DivModUnique(x + 1, Pow2(k), 0, x + 1);
    }
  }

  /** Rounding would carry out of an exponent that is already all ones. */
  predicate Wraps(ew: nat, mw: nat, rb: nat, exponent: nat, mantissa: nat, bits: nat) {
    exponent == Pow2(ew) - 1 && mantissa == Pow2(mw) - 1 && 2 * bits >= Pow2(rb)
  }

  lemma PowersAtLeastTwo(n: nat)
    requires n >= 1
    ensures Pow2(n) % 2 == 0 && Pow2(n) >= 2 && Odd(Pow2(n) - 1)
  {
  }

  /** Rounding up lets the mantissa's carry flow into the exponent. */
  lemma IncrementPacked(ew: nat, mw: nat, exponent: nat, mantissa: nat)
    requires ew >= 1 && mw >= 1 && exponent < Pow2(ew) && mantissa < Pow2(mw)
    ensures var r := Increment(ew, mw, exponent, mantissa);
      Packed(mw, r.exponent, r.mantissa) ==
        if exponent == Pow2(ew) - 1 && mantissa == Pow2(mw) - 1 then 0 else Packed(mw, exponent, mantissa) + 1
  {
    LowIncrement(mantissa, mw);
    LowIncrement(exponent, ew);
    Regroup(exponent, 1, 1, Pow2(mw));
    assert Mul(0, Pow2(mw)) == 0;
  }

  /** What the rounder does to the packed number. */
  lemma RoundedPacked(ew: nat, mw: nat, rb: nat, exponent: nat, mantissa: nat, bits: nat)
    requires ew >= 1 && mw >= 1 && rb >= 2
    requires exponent < Pow2(ew) && mantissa < Pow2(mw) && bits < Pow2(rb)
    ensures var n := Packed(mw, exponent, mantissa);
      var r := RoundResult(ew, mw, rb, true, exponent, mantissa, bits);
      Packed(mw, r.exponent, r.mantissa) ==
        if Wraps(ew, mw, rb, exponent, mantissa, bits) then 0 else if FractionUp(Odd(n), bits, Pow2(rb)) then n + 1 else n
  {
    UpIsFraction(ew, mw, rb, exponent, mantissa, bits);
    IncrementPacked(ew, mw, exponent, mantissa);
  }

  lemma UpIsFraction(ew: nat, mw: nat, rb: nat, exponent: nat, mantissa: nat, bits: nat)
    requires mw >= 1 && rb >= 2 && bits < Pow2(rb)
    ensures RoundsUp(mantissa, rb, bits) == FractionUp(Odd(Packed(mw, exponent, mantissa)), bits, Pow2(rb))
    ensures Wraps(ew, mw, rb, exponent, mantissa, bits) ==> RoundsUp(mantissa, rb, bits)
    ensures exponent == Pow2(ew) - 1 && mantissa == Pow2(mw) - 1 && RoundsUp(mantissa, rb, bits) ==>
      Wraps(ew, mw, rb, exponent, mantissa, bits)
  {
    TestIsFraction(rb, bits, mantissa);
    PackedParity(mw, exponent, mantissa);
    PowersAtLeastTwo(mw);
  }

  /**
   * Overflow is reported exactly when rounding carries into an all-ones exponent from
   * the one below, never with rounding off; the result is then the infinity encoding,
   * and from a finite exponent no other input gives an all-ones exponent.
   */
  lemma OverflowExact(ew: nat, mw: nat, rb: nat, nearest: bool, exponent: nat, mantissa: nat, bits: nat)
    requires ew >= 1 && mw >= 1 && rb >= 2
    requires exponent < Pow2(ew) && mantissa < Pow2(mw) && bits < Pow2(rb)
    ensures var r := RoundResult(ew, mw, rb, nearest, exponent, mantissa, bits);
      && (r.overflow <==> nearest && exponent == Pow2(ew) - 2 && mantissa == Pow2(mw) - 1 && 2 * bits >= Pow2(rb))
      && (r.overflow ==> r.exponent == Pow2(ew) - 1 && r.mantissa == 0)
      && (exponent < Pow2(ew) - 1 ==> (r.overflow <==> r.exponent == Pow2(ew) - 1))
  {
    FullRoundsUp(mw, rb, mantissa, bits);
    IncrementOverflow(ew, mw, exponent, mantissa);
  }

  lemma FullRoundsUp(mw: nat, rb: nat, mantissa: nat, bits: nat)
    requires mw >= 1 && rb >= 2 && bits < Pow2(rb)
    ensures mantissa == Pow2(mw) - 1 ==> RoundsUp(mantissa, rb, bits) == (2 * bits >= Pow2(rb))
  {
    TestIsFraction(rb, bits, mantissa);
    PowersAtLeastTwo(mw);
  }

  lemma IncrementOverflow(ew: nat, mw: nat, exponent: nat, mantissa: nat)
    requires ew >= 1 && mw >= 1 && exponent < Pow2(ew) && mantissa < Pow2(mw)
    ensures var r := Increment(ew, mw, exponent, mantissa);
      && (r.overflow <==> exponent == Pow2(ew) - 2 && mantissa == Pow2(mw) - 1)
      && (r.overflow ==> r.exponent == Pow2(ew) - 1 && r.mantissa == 0)
      && (exponent < Pow2(ew) - 1 ==> (r.overflow <==> r.exponent == Pow2(ew) - 1))
  {
    LowIncrement(mantissa, mw);
    LowIncrement(exponent, ew);
    PowersAtLeastTwo(ew);
  }

  /** In both modes exponent and mantissa fit their fields. */
  lemma FieldsFit(ew: nat, mw: nat, rb: nat, nearest: bool, exponent: nat, mantissa: nat, bits: nat)
    requires ew >= 1 && mw >= 1 && rb >= 2
    requires exponent < Pow2(ew) && mantissa < Pow2(mw) && bits < Pow2(rb)
    ensures var r := RoundResult(ew, mw, rb, nearest, exponent, mantissa, bits);
      r.exponent < Pow2(ew) && r.mantissa < Pow2(mw)
  {
    LowIncrement(mantissa, mw);
    LowIncrement(exponent, ew);
  }

  /** A packed number whose mantissa fits is taken apart into the fields it was packed from. */
  lemma Unpacks(mw: nat, exponent: nat, mantissa: nat)
    requires mantissa < Pow2(mw)
    ensures var n := Packed(mw, exponent, mantissa); n / Pow2(mw) == exponent && n % Pow2(mw) == mantissa
  {
    DivModUnique(Packed(mw, exponent, mantissa), Pow2(mw), exponent, mantissa);
  }

  lemma NearestIsOne(unit: nat, x: nat, n: nat, m: nat)
    requires unit > 0 && NearestEven(x, unit, n) && NearestEven(x, unit, m)
    ensures n == m
  {
    if n <= m {
      NearestUnique(unit, x, n, m);
    } else {
      NearestUnique(unit, x, m, n);
    }
  }

  lemma PackedNearest(mw: nat, unit: nat, x: nat, n: nat, exponent: nat, mantissa: nat)
    requires unit > 0 && mantissa < Pow2(mw)
    requires NearestEven(x, unit, n) && NearestEven(x, unit, Packed(mw, exponent, mantissa))
    ensures exponent == n / Pow2(mw) && mantissa == n % Pow2(mw)
  {
    NearestIsOne(unit, x, n, Packed(mw, exponent, mantissa));
    Unpacks(mw, exponent, mantissa);
  }

  /**
   * Field by field: the exponent and the mantissa are the two parts of the nearest packed
   * number, the even one of two. If an all-ones exponent has to take a carry, both are zero.
   */
  lemma FieldsExact(ew: nat, mw: nat, rb: nat, exponent: nat, mantissa: nat, bits: nat, n: nat)
    requires ew >= 1 && mw >= 1 && rb >= 2
    requires exponent < Pow2(ew) && mantissa < Pow2(mw) && bits < Pow2(rb)
    requires NearestEven(Scaled(mw, rb, exponent, mantissa, bits), Pow2(rb), n)
    ensures var r := RoundResult(ew, mw, rb, true, exponent, mantissa, bits);
      if Wraps(ew, mw, rb, exponent, mantissa, bits) then r.exponent == 0 && r.mantissa == 0
      else r.exponent == n / Pow2(mw) && r.mantissa == n % Pow2(mw)
  {
    if Wraps(ew, mw, rb, exponent, mantissa, bits) {
      WrapsToZero(ew, mw, rb, exponent, mantissa, bits);
    } else {
      FieldsFit(ew, mw, rb, true, exponent, mantissa, bits);
      RoundedNearest(ew, mw, rb, exponent, mantissa, bits);
      var r := RoundResult(ew, mw, rb, true, exponent, mantissa, bits);
      PackedNearest(mw, Pow2(rb), Scaled(mw, rb, exponent, mantissa, bits), n, r.exponent, r.mantissa);
    }
  }

  lemma WrapsToZero(ew: nat, mw: nat, rb: nat, exponent: nat, mantissa: nat, bits: nat)
    requires ew >= 1 && mw >= 1 && rb >= 2 && bits < Pow2(rb) && Wraps(ew, mw, rb, exponent, mantissa, bits)
    ensures RoundResult(ew, mw, rb, true, exponent, mantissa, bits) == Rounded(0, 0, false)
  {
    UpIsFraction(ew, mw, rb, exponent, mantissa, bits);
    LowIncrement(mantissa, mw);
    LowIncrement(exponent, ew);
    PowersAtLeastTwo(ew);
  }

  /** An input to the rounder, its rounding bits read as the fraction of a packed number. */
  function Scaled(mw: nat, rb: nat, exponent: nat, mantissa: nat, bits: nat): nat {
    Mul(Packed(mw, exponent, mantissa), Pow2(rb)) + bits
  }

  /** The rounder's result, packed. */
  function RoundedTo(ew: nat, mw: nat, rb: nat, exponent: nat, mantissa: nat, bits: nat): nat
    requires rb >= 2
  {
    var r := RoundResult(ew, mw, rb, true, exponent, mantissa, bits);
    Packed(mw, r.exponent, r.mantissa)
  }

  /**
   * Round to nearest, ties to even, on exponent and mantissa read as one number: the
   * carry out of the mantissa flows into the exponent. This holds exactly unless an
   * all-ones exponent would have to take a carry.
   */
  lemma RoundResultExact(ew: nat, mw: nat, rb: nat, exponent: nat, mantissa: nat, bits: nat)
    requires ew >= 1 && mw >= 1 && rb >= 2
    requires exponent < Pow2(ew) && mantissa < Pow2(mw) && bits < Pow2(rb)
    ensures NearestEven(Scaled(mw, rb, exponent, mantissa, bits), Pow2(rb), RoundedTo(ew, mw, rb, exponent, mantissa, bits)) <==>
      !Wraps(ew, mw, rb, exponent, mantissa, bits)
  {
    var n := Packed(mw, exponent, mantissa);
    NearestByFraction(n, bits, Pow2(rb));
    RoundedPacked(ew, mw, rb, exponent, mantissa, bits);
    if Wraps(ew, mw, rb, exponent, mantissa, bits) {
      WrappedIsWrong(ew, mw, rb, exponent, mantissa, bits);
    }
  }

  lemma WrappedIsWrong(ew: nat, mw: nat, rb: nat, exponent: nat, mantissa: nat, bits: nat)
    requires ew >= 1 && exponent == Pow2(ew) - 1 && bits < Pow2(rb)
    ensures !NearestEven(Mul(Packed(mw, exponent, mantissa), Pow2(rb)) + bits, Pow2(rb), 0)
  {
    LargeUnits(ew, mw, exponent);
    ZeroTooFar(Packed(mw, exponent, mantissa), bits, Pow2(rb));
  }

  /** With rounding switched off the last bits are chopped: both fields stay as they are. */
  lemma ChopsOtherwise(ew: nat, mw: nat, rb: nat, exponent: nat, mantissa: nat, bits: nat)
    requires rb >= 2 && bits < Pow2(rb)
    ensures var r := RoundResult(ew, mw, rb, false, exponent, mantissa, bits);
      && r.exponent == exponent && r.mantissa == mantissa && !r.overflow
      && Packed(mw, r.exponent, r.mantissa) == (Mul(Packed(mw, exponent, mantissa), Pow2(rb)) + bits) / Pow2(rb)
  {
    DivModUnique(Mul(Packed(mw, exponent, mantissa), Pow2(rb)) + bits, Pow2(rb), Packed(mw, exponent, mantissa), bits);
  }

  /** With at least one whole unit, zero is not the nearest multiple. */
  lemma ZeroTooFar(n: nat, f: nat, unit: nat)
    requires n >= 1 && f < unit
    ensures !NearestEven(Mul(n, unit) + f, unit, 0)
  {
    MulStep(0, n, unit);
    assert Mul(0, unit) == 0;
    assert Distance(Mul(n, unit) + f, Mul(n, unit)) == f;
  }

  lemma LargeUnits(ew: nat, mw: nat, exponent: nat)
    requires ew >= 1 && exponent == Pow2(ew) - 1
    ensures Mul(exponent, Pow2(mw)) >= 1
  {
    PowersAtLeastTwo(ew);
    MulStep(0, exponent, Pow2(mw));
  }

  /** Two nearest multiples that are both even are the same. */
  lemma NearestUnique(unit: nat, x: nat, n: nat, m: nat)
    requires unit > 0 && n <= m && NearestEven(x, unit, n) && NearestEven(x, unit, m)
    ensures n == m
  {
    assert Distance(x, Mul(n, unit)) <= Distance(x, Mul(n + 1, unit));
    if n < m {
      assert Distance(x, Mul(n, unit)) <= Distance(x, Mul(m, unit));
      assert Distance(x, Mul(m, unit)) <= Distance(x, Mul(n, unit));
      assert !Odd(n) && !Odd(m);
      MulStep(n, n + 1, unit);
      MulStep(n + 1, m, unit);
    }
  }

  lemma OrderedDistances(x: nat, y: nat, a: nat, b: nat)
    requires x <= y && b < a && Distance(x, a) <= Distance(x, b) && Distance(y, b) <= Distance(y, a)
    ensures x == y
  {
  }

  /** Rounding keeps order. */
  lemma RoundingMonotonic(unit: nat, x: nat, n: nat, y: nat, m: nat)
    requires unit > 0 && x <= y && NearestEven(x, unit, n) && NearestEven(y, unit, m)
    ensures n <= m
  {
    if n > m {
      MulStep(m, n, unit);
      OrderedDistances(x, y, Mul(n, unit), Mul(m, unit));
      NearestUnique(unit, x, m, n);
    }
  }

  /** And moves a number by at most half a unit. */
  lemma HalfUnit(unit: nat, x: nat, n: nat)
    requires unit > 0 && NearestEven(x, unit, n)
    ensures 2 * Distance(x, Mul(n, unit)) <= unit
  {
    var k := Quotient(x, unit);
    DivModDefinition(x, unit);
    Regroup(k, 1, 1, unit);
    assert Distance(x, Mul(n, unit)) <= Distance(x, Mul(k, unit));
    assert Distance(x, Mul(n, unit)) <= Distance(x, Mul(k + 1, unit));
  }

  lemma RoundedNearest(ew: nat, mw: nat, rb: nat, exponent: nat, mantissa: nat, bits: nat)
    requires ew >= 1 && mw >= 1 && rb >= 2
    requires exponent < Pow2(ew) && mantissa < Pow2(mw) && bits < Pow2(rb)
    requires !Wraps(ew, mw, rb, exponent, mantissa, bits)
    ensures NearestEven(Scaled(mw, rb, exponent, mantissa, bits), Pow2(rb), RoundedTo(ew, mw, rb, exponent, mantissa, bits))
  {
    RoundResultExact(ew, mw, rb, exponent, mantissa, bits);
  }

  /** The rounder's result is within half a unit in the last place of its input. */
  lemma ResultWithinHalf(ew: nat, mw: nat, rb: nat, exponent: nat, mantissa: nat, bits: nat)
    requires ew >= 1 && mw >= 1 && rb >= 2
    requires exponent < Pow2(ew) && mantissa < Pow2(mw) && bits < Pow2(rb)
    requires !Wraps(ew, mw, rb, exponent, mantissa, bits)
    ensures 2 * Distance(Scaled(mw, rb, exponent, mantissa, bits),
                         Mul(RoundedTo(ew, mw, rb, exponent, mantissa, bits), Pow2(rb))) <= Pow2(rb)
  {
    RoundedNearest(ew, mw, rb, exponent, mantissa, bits);
    HalfUnit(Pow2(rb), Scaled(mw, rb, exponent, mantissa, bits), RoundedTo(ew, mw, rb, exponent, mantissa, bits));
  }

  /** And keeps the order of inputs. */
  lemma ResultMonotonic(ew: nat, mw: nat, rb: nat, e1: nat, m1: nat, b1: nat, e2: nat, m2: nat, b2: nat)
    requires ew >= 1 && mw >= 1 && rb >= 2
    requires e1 < Pow2(ew) && m1 < Pow2(mw) && b1 < Pow2(rb) && !Wraps(ew, mw, rb, e1, m1, b1)
    requires e2 < Pow2(ew) && m2 < Pow2(mw) && b2 < Pow2(rb) && !Wraps(ew, mw, rb, e2, m2, b2)
    requires Scaled(mw, rb, e1, m1, b1) <= Scaled(mw, rb, e2, m2, b2)
    ensures RoundedTo(ew, mw, rb, e1, m1, b1) <= RoundedTo(ew, mw, rb, e2, m2, b2)
  {
    RoundedNearest(ew, mw, rb, e1, m1, b1);
    RoundedNearest(ew, mw, rb, e2, m2, b2);
    RoundingMonotonic(Pow2(rb), Scaled(mw, rb, e1, m1, b1), RoundedTo(ew, mw, rb, e1, m1, b1),
                      Scaled(mw, rb, e2, m2, b2), RoundedTo(ew, mw, rb, e2, m2, b2));
  }
}
