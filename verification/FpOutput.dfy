/**
 * What the multiplier writes at the upper end of the range, and rounding in terms of the
 * mode number and the sign.
 */
module FpOutput {
  import opened Powers
  import opened Rounding
  import opened ShiftAdd
  import opened FpMult
  import opened FpMultFsm
  import opened FpSubnormal
  import opened FpSubnormalResult

  // ------------------------------------------------------------- overflow

  /** Two finite operands and the exponent register that belongs to them, with at least as
      large an exponent as the product has leading zeros. */
  ghost predicate FromOperands(i: Inputs, ea: nat, eb: nat)
    requires i.p >= 3 && i.q > 0
  {
    && Encoded(i.p, i.a, i.b, ea, eb) && ea < Pow2(i.q) - 1 && eb < Pow2(i.q) - 1
    && i.expIn == Wrap(i.q, ExponentSum(i.q, ea, eb))
    && LeadingZeros(2 * i.p, i.a * i.b, 2 * i.p - 1) <= ExponentSum(i.q, ea, eb)
  }

  /** The exponent of the correct result, as it is before any register cuts it, and one more
      place too many where a carry forgets a shift. */
  function FullExponent(i: Inputs, ea: nat, eb: nat): int
    requires i.p >= 3 && i.q > 0
  {
    CorrectExponent(i.p, i.a, i.b, ExponentSum(i.q, ea, eb), Dir(i)) +
    if Carries(i.p, i.a, i.b, Dir(i)) then ShiftOf(i.p, i.a, i.b) else 0
  }

  /** An exponent sum beyond the register comes back as one far below the normal range. */
  lemma WrapAbove(q: nat, x: int)
    requires q > 0 && Pow2(q) <= x < Pow2(q) + Pow2(q + 1)
    ensures Wrap(q, x) == x - Pow2(q + 1)
  {
    DivModUnique(x + Pow2(q), Pow2(q + 1), 1, x - Pow2(q));
  }

  lemma TwicePower(q: nat)
    requires q > 0
    ensures Pow2(q) == 2 * Pow2(q - 1) && Pow2(q + 1) == 2 * Pow2(q)
  {
  }

  /** So does one more. */
  lemma BothTooHigh(q: nat, e: int, expIn: int)
    requires q > 0 && Pow2(q) - 1 <= e <= Pow2(q + 1) - Pow2(q - 1) - 3 && expIn == Wrap(q, e)
    ensures expIn == Pow2(q) - 1 || expIn + Pow2(q - 1) < -1
    ensures Wrap(q, expIn + 1) + Pow2(q - 1) < 0
    ensures expIn == Wrap(q, expIn)
  {
    TwicePower(q);
    if e == Pow2(q) - 1 {
      WrapSmall(q, e);
      WrapAbove(q, e + 1);
    } else {
      WrapAbove(q, e);
      WrapSmall(q, expIn);
      WrapSmall(q, expIn + 1);
    }
  }

  /** A large sum needs two normalised operands. */
  lemma LargeSum(p: nat, q: nat, a: nat, b: nat, ea: nat, eb: nat)
    requires p >= 3 && q > 0 && Encoded(p, a, b, ea, eb) && ea < Pow2(q) - 1 && eb < Pow2(q) - 1
    requires ExponentSum(q, ea, eb) >= Pow2(q) - 1
    ensures Pow2(p - 1) <= a && Pow2(p - 1) <= b
    ensures ExponentSum(q, ea, eb) <= Pow2(q + 1) - Pow2(q - 1) - 3
  {
    TwicePower(q);
  }

  /** Two normalised operands leave at most one leading zero, whatever the exponent. */
  lemma AtMostOne(p: nat, a: nat, b: nat)
    requires p >= 3 && Pow2(p - 1) <= a < Pow2(p) && Pow2(p - 1) <= b < Pow2(p)
    ensures LeadingZeros(2 * p, a * b, 2 * p - 1) <= 1 && ShiftOf(p, a, b) == 0
  {
    var q := p + 2;
    TwicePower(p + 1);
    TwicePower(p + 2);
    BothNormalised(p, q, a, b, 1);
  }

  lemma NoShift(i: Inputs, m: nat)
    requires i.p >= 3 && LeadingZeros(2 * i.p, m, 2 * i.p - 1) <= 1
    ensures Finish(i, m).1 == 0
  {
    var lz := LeadingZeros(2 * i.p, m, 2 * i.p - 1);
    FinishCapped(i, m, lz, LeadingZeroCap(i.q, i.expIn, lz), 0);
  }

  /** Whatever the significand, such an exponent stays at the overflow. */
  lemma TooHighDelivered(i: Inputs, sig: Sig)
    requires i.p >= 3 && i.q > 0 && i.expIn == Wrap(i.q, i.expIn)
    requires i.expIn == Pow2(i.q) - 1 || i.expIn + Pow2(i.q - 1) < -1
    requires Wrap(i.q, i.expIn + 1) + Pow2(i.q - 1) < 0
    ensures var exp := Delivered(i, sig, 0).1; exp == Pow2(i.q) - 1 || exp + Pow2(i.q - 1) < 0
  {
    TwicePower(i.q);
    var (sig1, exp1) := Adjust(i.p, i.q, i.expIn, 0, sig);
    assert Denormalise(i.p, i.q, i.expIn, sig1, exp1) == (sig1, exp1);
  }

  lemma TooHighWritten(i: Inputs, ea: nat, eb: nat)
    requires i.p >= 3 && i.q > 0 && i.mode < 4 && FromOperands(i, ea, eb) && ExponentSum(i.q, ea, eb) >= Pow2(i.q) - 1
    ensures WrittenFrom(i, Datapath(i)) == Overflow(i.p, i.q, i.mode, i.negative)
    ensures FullExponent(i, ea, eb) >= Pow2(i.q) - 1
  {
    LargeSum(i.p, i.q, i.a, i.b, ea, eb);
    AtMostOne(i.p, i.a, i.b);
    ShiftAddMultiplies(i.p, i.a, i.b);
    NoShift(i, i.a * i.b);
    BothTooHigh(i.q, ExponentSum(i.q, ea, eb), i.expIn);
    TooHighDelivered(i, Finish(i, i.a * i.b).0);
    OverflowByMode(i.p, i.q, i.mode, i.negative, Datapath(i).1, Datapath(i).0);
  }

  /** In the normal range the datapath's exponent is the full one. */
  lemma InRangeExponent(i: Inputs, ea: nat, eb: nat)
    requires i.p >= 3 && i.q > 0 && FromOperands(i, ea, eb) && ExponentSum(i.q, ea, eb) < Pow2(i.q) - 1
    ensures InNormalRange(i.p, i.q, i.a, i.b, i.expIn) && i.expIn == ExponentSum(i.q, ea, eb)
    ensures Datapath(i).1 == FullExponent(i, ea, eb) && 1 <= Datapath(i).1 < Pow2(i.q)
    ensures Pow2(i.p - 1) <= Datapath(i).0 < Pow2(i.p)
  {
    WrapSmall(i.q, ExponentSum(i.q, ea, eb));
    OperandsInRange(i.p, i.q, i.a, i.b, ea, eb);
    DatapathMultiplies(i);
    MultiplyExact(i.p, i.q, i.a, i.b, i.expIn, i.mode, i.negative, 0);
    ExponentBounds(i);
  }

  lemma ExponentBounds(i: Inputs)
    requires i.p >= 3 && InNormalRange(i.p, i.q, i.a, i.b, i.expIn)
    ensures 1 <= Multiply(i.p, i.q, i.a, i.b, i.expIn, i.mode, i.negative).1 < Pow2(i.q)
  {
    MultiplyForm(i.p, i.q, i.a, i.b, i.expIn, i.mode, i.negative);
    LeastExponent(i.p, i.q, i.a, i.b, i.expIn);
  }

  lemma LeastExponent(p: nat, q: nat, a: nat, b: nat, expIn: int)
    requires p >= 3 && InNormalRange(p, q, a, b, expIn)
    ensures expIn - ShiftOf(p, a, b) + (Dropped(p, Vector(p, a, b)) - (p - 1)) >= 1
  {
    if LeadingZeros(2 * p, a * b, 2 * p - 1) == 0 {
      LeadingZerosBound(2 * p, a * b);
      Unshifted(p, a, b);
    }
  }

  /**
   * Overflow from the operands. Two finite operands whose product is not below the normal
   * range are written as an overflow exactly if the exponent of the result is 2^Q - 1 or
   * more, however far the sum of their exponents runs over its register: as infinity, or as
   * the largest finite number if mode and sign round toward zero. Otherwise the datapath's
   * result is written as a normal number.
   */
  lemma OverflowExact(i: Inputs, ea: nat, eb: nat)
    requires i.p >= 3 && i.q > 0 && i.mode < 4 && FromOperands(i, ea, eb)
    ensures var (s, exp) := Datapath(i);
      if FullExponent(i, ea, eb) >= Pow2(i.q) - 1 then
        WrittenFrom(i, Datapath(i)) == Overflow(i.p, i.q, i.mode, i.negative)
      else
        && exp == FullExponent(i, ea, eb) && 1 <= exp < Pow2(i.q) - 1 && Pow2(i.p - 1) <= s < Pow2(i.p)
        && WrittenFrom(i, Datapath(i)) == Mul(exp - 1, Pow2(i.p - 1)) + s
  {
    if ExponentSum(i.q, ea, eb) >= Pow2(i.q) - 1 {
      TooHighWritten(i, ea, eb);
    } else {
      InRangeExponent(i, ea, eb);
      InRangeWritten(i, FullExponent(i, ea, eb));
    }
  }

  /** With three or more bits of exponent a forgotten shift never decides an overflow. */
  lemma FullExponentDecides(i: Inputs, ea: nat, eb: nat)
    requires i.p >= 3 && i.q >= 3 && FromOperands(i, ea, eb)
    ensures FullExponent(i, ea, eb) >= Pow2(i.q) - 1 <==>
      CorrectExponent(i.p, i.a, i.b, ExponentSum(i.q, ea, eb), Dir(i)) >= Pow2(i.q) - 1
  {
    if Carries(i.p, i.a, i.b, Dir(i)) && ShiftOf(i.p, i.a, i.b) > 0 {
      SmallSum(i.p, i.q, i.a, i.b, ea, eb);
      OperandsInRange(i.p, i.q, i.a, i.b, ea, eb);
      CarryNeedsClearTop(i.p, i.q, i.a, i.b, ExponentSum(i.q, ea, eb), Dir(i));
    }
  }

  /** A product that needs a shift has a subnormal operand, and so no large exponent. */
  lemma SmallSum(p: nat, q: nat, a: nat, b: nat, ea: nat, eb: nat)
    requires p >= 3 && q >= 3 && Encoded(p, a, b, ea, eb) && ea < Pow2(q) - 1 && eb < Pow2(q) - 1 && ShiftOf(p, a, b) > 0
    ensures ExponentSum(q, ea, eb) + 1 < Pow2(q) - 1
  {
    if Pow2(p - 1) <= a && Pow2(p - 1) <= b {
      AtMostOne(p, a, b);
    }
    TwicePower(q);
    TwicePower(q - 1);
  }

  lemma InRangeWritten(i: Inputs, e: int)
    requires i.p >= 3 && i.q > 0 && i.mode < 4
    requires e == Datapath(i).1 && 1 <= e < Pow2(i.q) && Pow2(i.p - 1) <= Datapath(i).0 < Pow2(i.p)
    ensures if e >= Pow2(i.q) - 1 then WrittenFrom(i, Datapath(i)) == Overflow(i.p, i.q, i.mode, i.negative)
      else WrittenFrom(i, Datapath(i)) == Mul(e - 1, Pow2(i.p - 1)) + Datapath(i).0
  {
    if e == Pow2(i.q) - 1 {
      OverflowByMode(i.p, i.q, i.mode, i.negative, e, Datapath(i).0);
    } else {
      WritesNormal(i.p, i.q, i.mode, i.negative, e, Datapath(i).0);
    }
  }

  // ------------------------------------------------------------- mode and sign

  function Signed(negative: bool, v: nat): int {
    var x: int := v;
    if negative then -x else x
  }

  /** With its sign, `s` units are what mode 0 to 3 make of `x` among the numbers of `p` bits
      of either sign: the nearest, with `s` even if two are, the one toward zero, the largest
      that is not above it, or the least that is not below it. */
  ghost predicate RoundedByMode(p: nat, mode: nat, negative: bool, x: nat, s: nat, unit: nat) {
    var y := Mul(s, unit);
    match mode
    case 0 =>
      forall w: nat :: Float(p, w) ==>
        Distance(x, y) < Distance(x, w) || (Distance(x, y) == Distance(x, w) && (w != y ==> s % 2 == 0))
    case 1 => y <= x && forall w: nat :: Float(p, w) && w <= x ==> w <= y
    case 2 =>
      && Signed(negative, y) <= Signed(negative, x)
      && forall w: nat, n: bool :: Float(p, w) && Signed(n, w) <= Signed(negative, x) ==> Signed(n, w) <= Signed(negative, y)
    case _ =>
      && Signed(negative, x) <= Signed(negative, y)
      && forall w: nat, n: bool :: Float(p, w) && Signed(negative, x) <= Signed(n, w) ==> Signed(negative, y) <= Signed(n, w)
  }

  lemma ModeRounds(p: nat, mode: nat, negative: bool, x: nat, s: nat, e: nat)
    requires mode < 4 && x > 0 && CorrectlyRounded(p, DirectionOf(mode, negative), x, s, e)
    ensures RoundedByMode(p, mode, negative, x, s, Pow2(e))
  {
  }

  /**
   * Normalised operands by mode number and sign: mode 2 gives the largest number that is not
   * above the exact signed product, mode 3 the least that is not below it, mode 1 the one
   * toward zero, and mode 0 a nearest one.
   */
  lemma NormalisedMultiplySigned(p: nat, q: nat, a: nat, b: nat, expIn: int, mode: nat, negative: bool, j: nat)
    requires p >= 3 && mode < 4 && Pow2(p - 1) <= a < Pow2(p) && Pow2(p - 1) <= b < Pow2(p)
    requires (if Pow2(2 * p - 1) <= a * b then 0 else 1) <= expIn < Pow2(q) - 1
    ensures var (s, exp) := Multiply(p, q, a, b, expIn, mode, negative);
      && expIn <= exp <= expIn + 1
      && RoundedByMode(p, mode, negative, Mul(Mul(a, b), Pow2(j)), s, Pow2(p - 1 + (exp - expIn) + j))
  {
    var (s, exp) := Multiply(p, q, a, b, expIn, mode, negative);
    NormalisedMultiplyCorrect(p, q, a, b, expIn, mode, negative, j);
    MulStep(0, a, b);
    MulStep(0, Mul(a, b), Pow2(j));
    ModeRounds(p, mode, negative, Mul(Mul(a, b), Pow2(j)), s, p - 1 + (exp - expIn) + j);
  }

  /** The same for results below the normal range, whose last place is fixed: `n` whole units
      of `k` bits for a number `v`. */
  ghost predicate UnitsByMode(mode: nat, negative: bool, v: nat, k: nat, n: nat) {
    var x, y, unit := Signed(negative, v), Signed(negative, Mul(n, Pow2(k))), Pow2(k);
    match mode
    case 0 => 2 * Distance(v, Mul(n, unit)) <= unit && (2 * Distance(v, Mul(n, unit)) == unit ==> n % 2 == 0)
    case 1 => Mul(n, unit) <= v < Mul(n, unit) + unit
    case 2 => y <= x < y + unit
    case _ => y - unit < x <= y
  }

  lemma CorrectByMode(mode: nat, negative: bool, v: nat, k: nat)
    requires mode < 4
    ensures UnitsByMode(mode, negative, v, k, Correct(DirectionOf(mode, negative), v, k))
  {
    DivModDefinition(v, Pow2(k));
    Regroup(High(v, k), 1, 1, Pow2(k));
    var n := Correct(DirectionOf(mode, negative), v, k);
    assert Mul(n, Pow2(k)) == Mul(High(v, k), Pow2(k)) + if n > High(v, k) then Pow2(k) else 0;
  }
}
