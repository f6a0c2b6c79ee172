/**
 * Results below the normal range, from operands to what state 0110 writes: exactly which
 * of them are correctly rounded.
 */
module FpSubnormalResult {
  import opened Powers
  import opened Rounding
  import opened ShiftAdd
  import opened FpMult
  import opened FpMultFsm
  import opened FpSubnormal

  // ------------------------------------------------------------- the output

  /** State 0110 for finite operands: exponent and fraction as written. */
  function WriteOut(p: nat, q: nat, mode: nat, negative: bool, exp: int, product: nat): (nat, nat)
    requires p >= 3 && q > 0
  {
    if exp + Pow2(q - 1) < 0 || exp == Pow2(q) - 1 then
      if DirectionOf(mode, negative).TowardZero? then (Pow2(q) - 2, Pow2(p - 1) - 1) else (Pow2(q) - 1, 0)
    else if exp < 1 || (exp == 1 && !Bit(product, p - 1)) then (0, Low(product, p - 1))
    else (Low(exp, q), Low(product, p - 1))
  }

  /** A written result read as one number, which orders results as their values do. */
  function Written(p: nat, out: (nat, nat)): nat
    requires p >= 3
  {
    Mul(out.0, Pow2(p - 1)) + out.1
  }

  /** An overflow that mode and sign do not let become infinite: rounding toward zero, down
      with a positive sign, or up with a negative one. */
  predicate StaysFinite(mode: nat, negative: bool) {
    mode == 1 || (mode == 2 && !negative) || (mode == 3 && negative)
  }

  /** Infinity, or the largest finite number just below it. */
  function Overflow(p: nat, q: nat, mode: nat, negative: bool): int
    requires p >= 3
  {
    Mul(Pow2(q) - 1, Pow2(p - 1)) - if StaysFinite(mode, negative) then 1 else 0
  }

  /** An exponent of all ones, or one too low for its register, is written as an overflow. */
  lemma OverflowByMode(p: nat, q: nat, mode: nat, negative: bool, exp: int, product: nat)
    requires p >= 3 && q >= 1 && mode < 4 && (exp == Pow2(q) - 1 || exp + Pow2(q - 1) < 0)
    ensures Written(p, WriteOut(p, q, mode, negative, exp, product)) == Overflow(p, q, mode, negative)
  {
    assert Pow2(q) == 2 * Pow2(q - 1);
    Regroup(Pow2(q) - 2, 1, 1, Pow2(p - 1));
  }

  /** The fields written always fit. */
  lemma WrittenFits(p: nat, q: nat, mode: nat, negative: bool, exp: int, product: nat)
    requires p >= 3 && q >= 1
    ensures var out := WriteOut(p, q, mode, negative, exp, product); out.0 < Pow2(q) && out.1 < Pow2(p - 1)
  {
    assert Pow2(q) == 2 * Pow2(q - 1);
  }

  /** A normal result is written with its leading bit implied. */
  lemma WritesNormal(p: nat, q: nat, mode: nat, negative: bool, exp: int, product: nat)
    requires p >= 3 && q > 0 && 1 <= exp < Pow2(q) - 1 && Pow2(p - 1) <= product < Pow2(p)
    ensures Written(p, WriteOut(p, q, mode, negative, exp, product)) == Mul(exp - 1, Pow2(p - 1)) + product
  {
    TopBit(product, p - 1);
    DivModUnique(exp, Pow2(q), 0, exp);
    Regroup(exp - 1, 1, 1, Pow2(p - 1));
  }

  /** What is written for the datapath's result. */
  function WrittenFrom(i: Inputs, result: (nat, int)): nat
    requires i.p >= 3 && i.q > 0
  {
    Written(i.p, WriteOut(i.p, i.q, i.mode, i.negative, result.1, result.0))
  }

  function Dir(i: Inputs): Direction { DirectionOf(i.mode, i.negative) }

  /** A number correctly rounded to whole units of `k` bits. */
  function Correct(dir: Direction, v: nat, k: nat): nat {
    High(v, k) + if GoesUp(dir, High(v, k), Low(v, k), Pow2(k)) then 1 else 0
  }

  // ------------------------------------------------------------- rounding by bits

  /** Going up as the guard and sticky bits say. */
  predicate UpBy(dir: Direction, n: nat, g: bool, s: bool) {
    match dir
    case TowardZero => false
    case AwayFromZero => g || s
    case ToNearestEven => g && (s || n % 2 == 1)
  }

  lemma RoundUses(p: nat, mode: nat, negative: bool, sig: Sig)
    requires sig.product < Pow2(p)
    ensures Round(p, mode, negative, sig) ==
      sig.product + if UpBy(DirectionOf(mode, negative), sig.product, sig.g, sig.s) then 1 else 0
  {
    DivModUnique(sig.product + 1, Pow2(p + 1), 0, sig.product + 1);
  }

  lemma CorrectUses(dir: Direction, v: nat, k: nat)
    requires k >= 1
    ensures Correct(dir, v, k) == High(v, k) + if UpBy(dir, High(v, k), Bit(v, k - 1), Low(v, k - 1) != 0) then 1 else 0
  {
    TopBitOfRemainder(v, k);
    DivModDefinition(v, Pow2(k - 1));
  }

  /** What is less than half a unit is rounded away only when it has to be. */
  lemma TinyCorrect(dir: Direction, v: nat, k: nat)
    requires k >= 1 && 0 < v < Pow2(k - 1)
    ensures Correct(dir, v, k) == if dir.AwayFromZero? then 1 else 0
  {
    AllDropped(v, k - 1, k);
  }

  /** Rounding depends on the number's place only. */
  lemma CorrectScaled(dir: Direction, m: nat, k: nat, j: nat)
    ensures Correct(dir, Mul(m, Pow2(j)), k + j) == Correct(dir, m, k)
  {
    ScaledDivMod(m, j, k);
    GoesUpScaled(dir, High(m, k), Low(m, k), k, j);
  }

  // ------------------------------------------------------------- results at exponent 0

  /** At exponent 0 the smallest normal number is written as zero, and the rest as it is. */
  lemma WritesAtZero(p: nat, q: nat, expIn: int, mode: nat, negative: bool, n: nat)
    requires p >= 3 && q > 0 && n <= Pow2(p - 1)
    ensures var (product, exp) := Renormalise(p, q, expIn, n, 0);
      Written(p, WriteOut(p, q, mode, negative, exp, product)) == if n == Pow2(p - 1) then 0 else n
  {
    CarryBit(p, n);
    assert Mul(0, Pow2(p - 1)) == 0;
    if n == Pow2(p - 1) {
      DivModUnique(n, Pow2(p - 1), 1, 0);
    } else {
      DivModUnique(n, Pow2(p - 1), 0, n);
    }
  }

  /** What is written for a shifted significand. */
  lemma ShiftedWritten(i: Inputs, sub: Sig)
    requires i.p >= 3 && i.q > 0 && sub.product < Pow2(i.p - 1)
    ensures var n := sub.product + if UpBy(Dir(i), sub.product, sub.g, sub.s) then 1 else 0;
      WrittenFrom(i, RoundOff(i, sub, 0)) == if n == Pow2(i.p - 1) then 0 else n
  {
    assert Pow2(i.p) == 2 * Pow2(i.p - 1);
    RoundUses(i.p, i.mode, i.negative, sub);
    WritesAtZero(i.p, i.q, i.expIn, i.mode, i.negative, Round(i.p, i.mode, i.negative, sub));
  }

  /**
   * A result below the normal range whose significand, guard and sticky bits are right is
   * rounded and written correctly in each mode, exactly unless it rounds up to the
   * smallest normal number: then zero is written.
   */
  lemma SubnormalWrittenExact(i: Inputs, sub: Sig, v: nat, k: nat)
    requires i.p >= 3 && i.q > 0 && k >= 1 && High(v, k) < Pow2(i.p - 1)
    requires sub.product == High(v, k) && sub.g == Bit(v, k - 1) && sub.s == (Low(v, k - 1) != 0)
    ensures var written, correct := WrittenFrom(i, RoundOff(i, sub, 0)), Correct(Dir(i), v, k);
      && (written == correct <==> correct != Pow2(i.p - 1))
      && written == if correct == Pow2(i.p - 1) then 0 else correct
  {
    ShiftedWritten(i, sub);
    CorrectUses(Dir(i), v, k);
  }

  // ------------------------------------------------------------- which results are right

  /** A bit lost on the way decides the rounding: at the limit the guard bit, and otherwise
      the old guard bit of a product with its top bit set, dropped on its own. */
  predicate DecisionLost(p: nat, expIn: int, dir: Direction, exp: int, v: nat)
    requires p >= 3 && exp <= 0
  {
    var k := DroppedBelow(p, exp, v);
    if RaisedAtLimit(p, expIn, v) then dir.ToNearestEven? && v != Pow2(2 * p - 1)
    else
      v >= Pow2(2 * p - 1) && OnlyGuard(v, Dropped(p, v), -exp) &&
      match dir
      case TowardZero => false
      case AwayFromZero => !Bit(v, k - 1)
      case ToNearestEven => Bit(v, k - 1) && High(v, k) % 2 == 0
  }

  /** A result shifted by `c + 1` places, where it should have vanished, is right by chance. */
  predicate CutHarmless(p: nat, dir: Direction, c: nat, v: nat)
    requires p >= 3
  {
    match dir
    case TowardZero => false
    case AwayFromZero => c == p - 2 && v == Pow2(2 * p - 2)
    case ToNearestEven => c == 0 && High(v, p) == Pow2(p - 1) - 1 && Bit(v, p - 1)
  }

  /** A result not shifted at all, where it should have vanished, is right by chance: its
      fraction happens to be that of zero or of one. */
  predicate LowHarmless(p: nat, q: nat, dir: Direction, exp: int, v: nat)
    requires p >= 3 && q > 0
  {
    var n, f, half := High(v, p - 1), Low(v, p - 1), Pow2(p - 1);
    var finite := exp + Pow2(q - 1) >= 0;
    match dir
    case TowardZero => finite && n == half
    case AwayFromZero => finite && ((n == half && f != 0) || (n == half + 1 && f == 0))
    case ToNearestEven => (finite && n == half && 2 * f <= half) || (n == Pow2(p) - 1 && 2 * f >= half)
  }

  /** When the written result is right. */
  predicate WrittenRight(p: nat, q: nat, expIn: int, dir: Direction, exp: int, v: nat)
    requires p >= 3 && q > 0 && exp <= 0
  {
    if TooLow(q, exp) then LowHarmless(p, q, dir, exp, v)
    else if expIn + p > 0 && !DistanceHolds(p, -exp) then CutHarmless(p, dir, -exp - Pow2(Clog2(p + 1)), v)
    else Correct(dir, v, DroppedBelow(p, exp, v)) != Pow2(p - 1) && !DecisionLost(p, expIn, dir, exp, v)
  }

  // ------------------------------------------------------------- case by case

  /** Shifted in place, with a sticky bit that may be missing. */
  lemma InPlaceWritten(i: Inputs, sig: Sig, exp: int, v: nat)
    requires i.p >= 3 && i.q > 0 && AdjustedSig(i.p, sig, v) && exp <= 0 && !TooLow(i.q, exp) && i.expIn + i.p > 0
    requires DistanceHolds(i.p, -exp)
    ensures var (sub, exp') := Denormalise(i.p, i.q, i.expIn, sig, exp);
      WrittenFrom(i, RoundOff(i, sub, exp')) == Correct(Dir(i), v, DroppedBelow(i.p, exp, v)) <==>
      WrittenRight(i.p, i.q, i.expIn, Dir(i), exp, v)
  {
    var (sub, _) := Denormalise(i.p, i.q, i.expIn, sig, exp);
    ShiftedInPlace(i.p, i.q, i.expIn, sig, exp, v);
    BelowHalf(i.p, exp, v);
    StickyMissing(i, sub, exp, v);
  }

  /** What a missing sticky bit does to the written result. */
  lemma StickyMissing(i: Inputs, sub: Sig, exp: int, v: nat)
    requires i.p >= 3 && i.q > 0 && exp <= 0 && !RaisedAtLimit(i.p, i.expIn, v)
    requires var k := DroppedBelow(i.p, exp, v);
      && High(v, k) < Pow2(i.p - 1) && sub.product == High(v, k) && sub.g == Bit(v, k - 1)
      && (sub.s == (Low(v, k - 1) != 0) <==> !(v >= Pow2(2 * i.p - 1) && OnlyGuard(v, Dropped(i.p, v), -exp)))
      && (v >= Pow2(2 * i.p - 1) && OnlyGuard(v, Dropped(i.p, v), -exp) ==> !sub.s)
    ensures var correct := Correct(Dir(i), v, DroppedBelow(i.p, exp, v));
      WrittenFrom(i, RoundOff(i, sub, 0)) == correct <==>
      correct != Pow2(i.p - 1) && !DecisionLost(i.p, i.expIn, Dir(i), exp, v)
  {
    ShiftedWritten(i, sub);
    CorrectUses(Dir(i), v, DroppedBelow(i.p, exp, v));
  }

  /** Shifted out altogether. */
  lemma OutWritten(i: Inputs, shift: nat, sig: Sig, exp: int, v: nat)
    requires i.p >= 3 && i.q > 0 && AdjustedSig(i.p, sig, v) && exp <= 0 && !TooLow(i.q, exp) && i.expIn + i.p <= 0
    requires exp == AdjustedExponent(i.p, i.expIn, shift, v) && Pow2(i.p - 1) <= sig.product
    ensures var (sub, exp') := Denormalise(i.p, i.q, i.expIn, sig, exp);
      WrittenFrom(i, RoundOff(i, sub, exp')) == Correct(Dir(i), v, DroppedBelow(i.p, exp, v)) <==>
      WrittenRight(i.p, i.q, i.expIn, Dir(i), exp, v)
  {
    var (sub, _) := Denormalise(i.p, i.q, i.expIn, sig, exp);
    ShiftedOut(i.p, i.q, i.expIn, shift, sig, exp, v);
    ShiftedWritten(i, sub);
    CorrectUses(Dir(i), v, DroppedBelow(i.p, exp, v));
    assert Pow2(i.p - 1) == 2 * Pow2(i.p - 2) && Pow2(i.p - 2) == 2 * Pow2(i.p - 3);
  }

  /** Shifted by a distance that was cut. */
  lemma CutWritten(i: Inputs, shift: nat, sig: Sig, exp: int, v: nat)
    requires i.p >= 3 && i.q > 0 && AdjustedSig(i.p, sig, v) && exp <= 0 && !TooLow(i.q, exp)
    requires 0 < i.expIn + i.p <= i.p && exp == i.expIn - shift && shift <= i.p && !DistanceHolds(i.p, -exp)
    requires Pow2(2 * i.p - 2) <= v < Pow2(2 * i.p - 1)
    ensures var (sub, exp') := Denormalise(i.p, i.q, i.expIn, sig, exp);
      WrittenFrom(i, RoundOff(i, sub, exp')) == Correct(Dir(i), v, DroppedBelow(i.p, exp, v)) <==>
      WrittenRight(i.p, i.q, i.expIn, Dir(i), exp, v)
  {
    var (sub, _) := Denormalise(i.p, i.q, i.expIn, sig, exp);
    CutDistance(i.p, i.expIn, shift);
    var c: nat := -exp - Pow2(Clog2(i.p + 1));
    CutShift(i.p, i.q, i.expIn, sig, exp, v, c);
    CutResult(i, sub, exp, v, c);
  }

  lemma CutResult(i: Inputs, sub: Sig, exp: int, v: nat, c: nat)
    requires i.p >= 3 && i.q > 0 && exp + i.p <= 0 && c <= i.p - 2 && Pow2(2 * i.p - 2) <= v < Pow2(2 * i.p - 1)
    requires sub.product == High(v, i.p + c) && sub.g == Bit(v, i.p + c - 1) && sub.s == (Low(v, i.p + c - 1) != 0)
    ensures WrittenFrom(i, RoundOff(i, sub, 0)) == Correct(Dir(i), v, DroppedBelow(i.p, exp, v)) <==>
      CutHarmless(i.p, Dir(i), c, v)
  {
    CutBelow(i.p, c, v);
    SubnormalWrittenExact(i, sub, v, i.p + c);
    VanishesCorrectly(i.p, Dir(i), exp, v);
    CutRight(i.p, Dir(i), c, v);
  }

  lemma CutShift(p: nat, q: nat, expIn: int, sig: Sig, exp: int, v: nat, c: nat)
    requires p >= 3 && q > 0 && AdjustedSig(p, sig, v) && exp <= 0 && !TooLow(q, exp) && expIn + p > 0
    requires c == -exp % Pow2(Clog2(p + 1)) && v < Pow2(2 * p - 1)
    ensures var (sub, exp') := Denormalise(p, q, expIn, sig, exp);
      exp' == 0 && sub.product == High(v, p + c) && sub.g == Bit(v, p + c - 1) && sub.s == (Low(v, p + c - 1) != 0)
  {
    ShiftedBy(p, q, expIn, sig, exp, v);
  }

  /** A result that has to drop more bits than it has. */
  lemma VanishesCorrectly(p: nat, dir: Direction, exp: int, v: nat)
    requires p >= 3 && exp + p <= 0 && 0 < v < Pow2(2 * p - 1)
    ensures Correct(dir, v, DroppedBelow(p, exp, v)) == if dir.AwayFromZero? then 1 else 0
  {
    Pow2Monotonic(2 * p - 1, DroppedBelow(p, exp, v) - 1);
    TinyCorrect(dir, v, DroppedBelow(p, exp, v));
  }

  lemma CutBelow(p: nat, c: nat, v: nat)
    requires p >= 3 && c <= p - 2 && Pow2(2 * p - 2) <= v < Pow2(2 * p - 1)
    ensures 1 <= High(v, p + c) < Pow2(p - 1 - c) <= Pow2(p - 1)
  {
    SomethingLeft(v, 2 * p - 2, p + c);
    QuotientBound(v, p + c, 2 * p - 1);
    Pow2Monotonic(p - 1 - c, p - 1);
  }

  /** Which results of a cut distance are right by chance. */
  lemma CutRight(p: nat, dir: Direction, c: nat, v: nat)
    requires p >= 3 && c <= p - 2 && Pow2(2 * p - 2) <= v < Pow2(2 * p - 1)
    ensures var n := Correct(dir, v, p + c);
      (if n == Pow2(p - 1) then 0 else n) == (if dir.AwayFromZero? then 1 else 0) <==> CutHarmless(p, dir, c, v)
  {
    CutBelow(p, c, v);
    assert Pow2(p - 1) == 2 * Pow2(p - 2) && Pow2(p - 2) == 2 * Pow2(p - 3);
    match dir
    case TowardZero =>
    case AwayFromZero => CutAway(p, c, v);
    case ToNearestEven => CutNearest(p, c, v);
  }

  lemma CutNearest(p: nat, c: nat, v: nat)
    requires p >= 3 && c <= p - 2 && 1 <= High(v, p + c) < Pow2(p - 1 - c)
    ensures Correct(ToNearestEven, v, p + c) == Pow2(p - 1) <==> CutHarmless(p, ToNearestEven, c, v)
    ensures Correct(ToNearestEven, v, p + c) >= 1
  {
    CorrectUses(ToNearestEven, v, p + c);
    HalfRange(p);
    if c == 0 {
      CutNearestAtOnce(High(v, p), Pow2(p - 1), Bit(v, p - 1), Low(v, p - 1) != 0);
    } else {
      Pow2Monotonic(p - 1 - c, p - 2);
    }
  }

  lemma CutNearestAtOnce(n: nat, half: nat, g: bool, s: bool)
    requires n < half && half % 2 == 0
    ensures n + (if UpBy(ToNearestEven, n, g, s) then 1 else 0) == half <==> n == half - 1 && g
  {
  }

  lemma CutAway(p: nat, c: nat, v: nat)
    requires p >= 3 && c <= p - 2 && Pow2(2 * p - 2) <= v < Pow2(2 * p - 1)
    ensures Correct(AwayFromZero, v, p + c) == 1 <==> c == p - 2 && v == Pow2(2 * p - 2)
  {
    var d := Pow2(p + c);
    CutBelow(p, c, v);
    DivModDefinition(v, d);
    if Correct(AwayFromZero, v, p + c) == 1 {
      assert v == 1 * d;
      if c < p - 2 {
        Pow2Monotonic(p + c, 2 * p - 3);
      }
    }
  }

  // ------------------------------------------------------------- exponents too low

  /** What is written for a full-width significand at an exponent below 1. */
  lemma WritesTooLow(p: nat, q: nat, expIn: int, mode: nat, negative: bool, exp: int, n: nat)
    requires p >= 3 && q >= 2 && Pow2(p - 1) <= n <= Pow2(p) && exp <= 0 && 0 <= expIn + 1 + Pow2(q - 1) && expIn < 0
    ensures var (product, exp') := Renormalise(p, q, expIn, n, exp);
      var written := Written(p, WriteOut(p, q, mode, negative, exp', product));
      && (n == Pow2(p) ==> written == 0)
      && (n < Pow2(p) && exp + Pow2(q - 1) >= 0 ==> written == n - Pow2(p - 1))
      && (n < Pow2(p) && exp + Pow2(q - 1) < 0 ==> written >= 2)
  {
    CarryBit(p, n);
    assert Mul(0, Pow2(p - 1)) == 0;
    if n == Pow2(p) {
      assert Pow2(q) == 2 * Pow2(q - 1);
      WrapSmall(q, expIn + 1);
      DivModUnique(Pow2(p - 1), Pow2(p - 1), 1, 0);
    } else {
      TopBit(n, p - 1);
      OverflowWritten(p, q, mode, negative, exp, n);
    }
  }

  lemma OverflowWritten(p: nat, q: nat, mode: nat, negative: bool, exp: int, n: nat)
    requires p >= 3 && q >= 2
    ensures exp + Pow2(q - 1) < 0 ==> Written(p, WriteOut(p, q, mode, negative, exp, n)) >= 2
  {
    assert Pow2(p - 1) == 2 * Pow2(p - 2) && Pow2(q) == 2 * Pow2(q - 1) && Pow2(q - 1) == 2 * Pow2(q - 2);
    MulAtLeast(1, Pow2(q) - 1, Pow2(p - 1));
    MulAtLeast(1, Pow2(q) - 2, Pow2(p - 1));
  }

  /** Rounded at full width, and right by chance or not. */
  lemma LowRight(p: nat, q: nat, dir: Direction, exp: int, v: nat, written: nat)
    requires p >= 3 && q > 0 && Pow2(2 * p - 2) <= v < Pow2(2 * p - 1)
    requires var n := Correct(dir, v, p - 1);
      && (n == Pow2(p) ==> written == 0)
      && (n < Pow2(p) && exp + Pow2(q - 1) >= 0 ==> written == n - Pow2(p - 1))
      && (n < Pow2(p) && exp + Pow2(q - 1) < 0 ==> written >= 2)
    requires Pow2(p - 1) <= High(v, p - 1) < Pow2(p) && Correct(dir, v, p - 1) <= Pow2(p)
    ensures written == (if dir.AwayFromZero? then 1 else 0) <==> LowHarmless(p, q, dir, exp, v)
  {
    HalfRange(p);
    DivModDefinition(v, Pow2(p - 1));
    LowNumbers(dir, High(v, p - 1), Low(v, p - 1), Pow2(p - 1), exp + Pow2(q - 1) >= 0, written);
  }

  lemma HalfRange(p: nat)
    requires p >= 3
    ensures Pow2(p) == 2 * Pow2(p - 1) && Pow2(p - 1) % 2 == 0 && Pow2(p - 1) >= 4
    ensures Pow2(p - 2) < Pow2(p - 1)
  {
    assert Pow2(p - 1) == 2 * Pow2(p - 2) && Pow2(p - 2) == 2 * Pow2(p - 3);
  }

  /** The same in numbers. */
  lemma LowNumbers(dir: Direction, n: nat, f: nat, half: nat, finite: bool, written: nat)
    requires half >= 4 && half % 2 == 0 && f < half && half <= n < 2 * half
    requires var m := n + if GoesUp(dir, n, f, half) then 1 else 0;
      && (m == 2 * half ==> written == 0)
      && (m < 2 * half && finite ==> written == m - half)
      && (m < 2 * half && !finite ==> written >= 2)
    ensures written == (if dir.AwayFromZero? then 1 else 0) <==>
      match dir
      case TowardZero => finite && n == half
      case AwayFromZero => finite && ((n == half && f != 0) || (n == half + 1 && f == 0))
      case ToNearestEven => (finite && n == half && 2 * f <= half) || (n == 2 * half - 1 && 2 * f >= half)
  {
  }

  lemma TooLowWritten(i: Inputs, sig: Sig, exp: int, v: nat)
    requires i.p >= 3 && i.q > 0 && i.p < Pow2(i.q - 1) - 1 && exp <= 0 && TooLow(i.q, exp)
    requires 3 - Pow2(i.q - 1) <= i.expIn < 0 && Pow2(2 * i.p - 2) <= v < Pow2(2 * i.p - 1)
    requires sig.product == High(v, i.p - 1) && Pow2(i.p - 1) <= sig.product < Pow2(i.p)
    requires sig.g == Bit(v, i.p - 2) && sig.s == (Low(v, i.p - 2) != 0)
    ensures var (sub, exp') := Denormalise(i.p, i.q, i.expIn, sig, exp);
      WrittenFrom(i, RoundOff(i, sub, exp')) == Correct(Dir(i), v, DroppedBelow(i.p, exp, v)) <==>
      WrittenRight(i.p, i.q, i.expIn, Dir(i), exp, v)
  {
    assert Denormalise(i.p, i.q, i.expIn, sig, exp) == (sig, exp);
    RoundUses(i.p, i.mode, i.negative, sig);
    CorrectUses(Dir(i), v, i.p - 1);
    var n := Round(i.p, i.mode, i.negative, sig);
    WritesTooLow(i.p, i.q, i.expIn, i.mode, i.negative, exp, n);
    LowRight(i.p, i.q, Dir(i), exp, v, WrittenFrom(i, RoundOff(i, sig, exp)));
    VanishesCorrectly(i.p, Dir(i), exp, v);
  }

  // ------------------------------------------------------------- the whole

  /** From the normalised product to the output. */
  lemma DeliveredExact(i: Inputs, sig0: Sig, shift: nat, v: nat)
    requires i.p >= 3 && Underflows(i.p, i.q, i.expIn, shift, sig0, v)
    ensures var exp := AdjustedExponent(i.p, i.expIn, shift, v);
      WrittenFrom(i, Delivered(i, sig0, shift)) == Correct(Dir(i), v, DroppedBelow(i.p, exp, v)) <==>
      WrittenRight(i.p, i.q, i.expIn, Dir(i), exp, v)
  {
    Adjusted(i.p, i.q, i.expIn, shift, sig0, v);
    var (sig, exp) := Adjust(i.p, i.q, i.expIn, shift, sig0);
    if TooLow(i.q, exp) {
      AdjustShows(i.p, i.q, i.expIn, shift, sig0, v);
      TooLowWritten(i, sig, exp, v);
    } else if i.expIn + i.p <= 0 {
      OutWritten(i, shift, sig, exp, v);
    } else if DistanceHolds(i.p, -exp) {
      InPlaceWritten(i, sig, exp, v);
    } else {
      CutWritten(i, shift, sig, exp, v);
    }
  }

  /** How far below its first dropped bit a result is rounded, in terms of the shift. */
  lemma DroppedInAll(p: nat, expIn: int, shift: nat, v: nat)
    requires p >= 3 && AdjustedExponent(p, expIn, shift, v) <= 0 && (shift > 0 ==> v < Pow2(2 * p - 1)) && expIn <= p
    ensures DroppedBelow(p, AdjustedExponent(p, expIn, shift, v), v) == p - expIn + shift
  {
  }

  /** A significand that is shifted out and becomes sticky. */
  lemma OutResult(i: Inputs, sig: Sig, exp: int)
    requires i.p >= 3 && i.q > 0 && i.expIn + i.p <= 0 && exp <= 0 && !TooLow(i.q, exp) && sig.product > 0
    ensures var (sub, exp') := Denormalise(i.p, i.q, i.expIn, sig, exp);
      WrittenFrom(i, RoundOff(i, sub, exp')) == if Dir(i).AwayFromZero? then 1 else 0
  {
    var (sub, _) := Denormalise(i.p, i.q, i.expIn, sig, exp);
    HalfRange(i.p);
    ShiftedWritten(i, sub);
  }

  /** With more than P + 1 leading zeros all of them are removed at once, and the exponent
      is raised for it. */
  lemma AllZerosRemoved(i: Inputs, m: nat)
    requires i.p >= 3 && i.q > 0 && i.p < Pow2(i.q - 1) - 1 && 3 - Pow2(i.q - 1) <= i.expIn < 0
    requires 0 < m < Pow2(2 * i.p) && LeadingZeros(2 * i.p, m, 2 * i.p - 1) >= i.p + 2
    ensures var (sig0, shift) := Finish(i, m);
      var (sig, exp) := Adjust(i.p, i.q, i.expIn, shift, sig0);
      sig.product > 0 && exp == i.expIn + 1
  {
    var p, lz := i.p, LeadingZeros(2 * i.p, m, 2 * i.p - 1);
    assert Pow2(i.q) == 2 * Pow2(i.q - 1);
    LeadingZerosBound(2 * p, m);
    CapBelow(i.q, i.expIn, lz);
    UpperBitsFull(p, m, lz);
    FinishCapped(i, m, lz, lz, (lz - 1) % Pow2(Clog2(p)));
    WrapSmall(i.q, i.expIn + 1);
  }

  lemma UpperBitsFull(p: nat, m: nat, lz: nat)
    requires p >= 3 && lz < 2 * p && Pow2(2 * p - 1 - lz) <= m < Pow2(2 * p - lz)
    ensures Pow2(p - 1) <= UpperBits(p, lz, m) && Bit(UpperBits(p, lz, m), p - 1)
  {
    ShiftedBelow(m, 2 * p - lz, lz, 2 * p);
    ShiftedAbove(m, 2 * p - 1 - lz, lz, 2 * p - 1);
    DivModUnique(Mul(m, Pow2(lz)), Pow2(2 * p), 0, Mul(m, Pow2(lz)));
    TopOfProduct(p, Mul(m, Pow2(lz)));
    UpperHalf(p, Mul(m, Pow2(lz)));
    TopBit(UpperBits(p, lz, m), p - 1);
  }

  /** P + 1 leading zeros at a width that is a power of two: the shift of P places is
      reported as none. */
  lemma ShiftForgotten(i: Inputs, m: nat)
    requires i.p >= 3 && i.q > 0 && i.p < Pow2(i.q - 1) - 1 && 3 - Pow2(i.q - 1) <= i.expIn < 0
    requires 0 < m < Pow2(2 * i.p) && LeadingZeros(2 * i.p, m, 2 * i.p - 1) == i.p + 1 && i.p == Pow2(Clog2(i.p))
    ensures var (sig0, shift) := Finish(i, m);
      var (sig, exp) := Adjust(i.p, i.q, i.expIn, shift, sig0);
      sig.product > 0 && exp == i.expIn
  {
    var p := i.p;
    var sig0, v := Normalise(p, m, p + 1, p + 1), Mul(m, Pow2(p));
    FinishForgotten(i, m);
    LeadingZerosBound(2 * p, m);
    FullShift(p, m);
    HalfPower(i.q);
    AdjustUnshifted(p, i.q, i.expIn, sig0, v);
  }

  lemma HalfPower(q: nat)
    requires q > 0
    ensures Pow2(q) == 2 * Pow2(q - 1)
  {
  }

  lemma AdjustUnshifted(p: nat, q: nat, expIn: int, sig0: Sig, v: nat)
    requires p >= 3 && Shows(p, sig0, v) && Pow2(2 * p - 2) <= v < Pow2(2 * p - 1)
    requires 0 <= expIn + Pow2(q) && expIn < 0
    ensures var (sig, exp) := Adjust(p, q, expIn, 0, sig0); sig.product > 0 && exp == expIn
  {
    AdjustShowsUnits(p, q, expIn, 0, sig0, v);
    WrapSmall(q, expIn);
  }

  lemma FinishForgotten(i: Inputs, m: nat)
    requires i.p >= 3 && i.q > 0 && i.p < Pow2(i.q - 1) - 1 && 3 - Pow2(i.q - 1) <= i.expIn < 0
    requires LeadingZeros(2 * i.p, m, 2 * i.p - 1) == i.p + 1 && i.p == Pow2(Clog2(i.p))
    ensures Finish(i, m) == (Normalise(i.p, m, i.p + 1, i.p + 1), 0)
  {
    assert Pow2(i.q) == 2 * Pow2(i.q - 1);
    CapBelow(i.q, i.expIn, i.p + 1);
    DivModUnique(i.p, i.p, 1, 0);
    FinishCapped(i, m, i.p + 1, i.p + 1, 0);
  }

  lemma FullShift(p: nat, m: nat)
    requires p >= 3 && Pow2(p - 2) <= m < Pow2(p - 1)
    ensures Shows(p, Normalise(p, m, p + 1, p + 1), Mul(m, Pow2(p)))
    ensures Pow2(2 * p - 2) <= Mul(m, Pow2(p)) < Pow2(2 * p - 1)
  {
    Pow2Monotonic(p - 1, 2 * p - p);
    NormaliseLossless(p, m, p + 1, p + 1);
    ShiftedBelow(m, p - 1, p, 2 * p - 1);
    ShiftedAbove(m, p - 2, p, 2 * p - 2);
  }

  /** Products of so many leading zeros that the shift is not reported vanish as they should. */
  lemma TinyWritten(i: Inputs, m: nat)
    requires i.p >= 3 && i.q > 0 && i.p < Pow2(i.q - 1) - 1 && 3 - Pow2(i.q - 1) <= i.expIn && i.expIn + i.p <= 0
    requires 0 < m < Pow2(2 * i.p) && !ShiftReported(i.p, LeadingZeros(2 * i.p, m, 2 * i.p - 1))
    ensures WrittenFrom(i, FromProduct(i, m)) == Correct(Dir(i), m, i.p - i.expIn)
  {
    var lz := LeadingZeros(2 * i.p, m, 2 * i.p - 1);
    var (sig0, shift) := Finish(i, m);
    var (sig, exp) := Adjust(i.p, i.q, i.expIn, shift, sig0);
    if lz >= i.p + 2 {
      AllZerosRemoved(i, m);
    } else {
      ShiftForgotten(i, m);
    }
    OutResult(i, sig, exp);
    TinyVanishes(i.p, Dir(i), i.expIn, m, lz);
  }

  lemma TinyVanishes(p: nat, dir: Direction, expIn: int, m: nat, lz: nat)
    requires p >= 3 && expIn + p <= 0 && 0 < m < Pow2(2 * p)
    requires lz == LeadingZeros(2 * p, m, 2 * p - 1) && lz > p
    ensures Correct(dir, m, p - expIn) == if dir.AwayFromZero? then 1 else 0
  {
    LeadingZerosBound(2 * p, m);
    Pow2Monotonic(2 * p - lz, p - expIn - 1);
    TinyCorrect(dir, m, p - expIn);
  }

  lemma ProductWritten(i: Inputs, m: nat)
    requires i.p >= 3 && i.q > 0 && i.p < Pow2(i.q - 1) - 1 && 3 - Pow2(i.q - 1) <= i.expIn <= 0
    requires 0 < m < Pow2(2 * i.p) && ShiftReported(i.p, LeadingZeros(2 * i.p, m, 2 * i.p - 1))
    requires i.expIn == 0 ==> m < Pow2(2 * i.p - 1)
    ensures var shift := Finish(i, m).1;
      var v := Mul(m, Pow2(shift));
      var exp := AdjustedExponent(i.p, i.expIn, shift, v);
      exp <= 0 && (WrittenFrom(i, FromProduct(i, m)) == Correct(Dir(i), m, i.p - i.expIn) <==>
                   WrittenRight(i.p, i.q, i.expIn, Dir(i), exp, v))
  {
    VectorUnderflows(i, m);
    var (sig0, shift) := Finish(i, m);
    NormalisedWritten(i, m, sig0, shift, Mul(m, Pow2(shift)));
  }

  lemma NormalisedWritten(i: Inputs, m: nat, sig0: Sig, shift: nat, v: nat)
    requires i.p >= 3 && v == Mul(m, Pow2(shift)) && Underflows(i.p, i.q, i.expIn, shift, sig0, v) && i.expIn <= 0
    ensures WrittenFrom(i, Delivered(i, sig0, shift)) == Correct(Dir(i), m, i.p - i.expIn) <==>
      WrittenRight(i.p, i.q, i.expIn, Dir(i), AdjustedExponent(i.p, i.expIn, shift, v), v)
  {
    DeliveredExact(i, sig0, shift, v);
    CorrectAnyway(i.p, Dir(i), i.expIn, m, shift);
  }

  /** What is correct for the normalised product is correct for the product. */
  lemma CorrectAnyway(p: nat, dir: Direction, expIn: int, m: nat, shift: nat)
    requires p >= 3 && expIn <= p
    requires var v := Mul(m, Pow2(shift));
      AdjustedExponent(p, expIn, shift, v) <= 0 && (shift > 0 ==> v < Pow2(2 * p - 1))
    ensures var v := Mul(m, Pow2(shift));
      Correct(dir, v, DroppedBelow(p, AdjustedExponent(p, expIn, shift, v), v)) == Correct(dir, m, p - expIn)
  {
    DroppedInAll(p, expIn, shift, Mul(m, Pow2(shift)));
    CorrectScaled(dir, m, p - expIn, shift);
  }

  /**
   * Exactly which results below the normal range are right. For all finite operands of a
   * format and each mode, what is written is the product correctly rounded to units of the
   * smallest subnormal number if and only if `WrittenRight` holds of the normalised product
   * and its exponent, or the product has so many leading zeros that its shift is not
   * reported: those all vanish as they should.
   */
  lemma SubnormalResultExact(i: Inputs, ea: nat, eb: nat)
    requires i.p >= 3 && i.q > 0 && i.p + 3 <= Pow2(i.q - 1) && Encoded(i.p, i.a, i.b, ea, eb)
    requires i.expIn == ExponentSum(i.q, ea, eb) <= 0 && (i.expIn == 0 ==> i.a * i.b < Pow2(2 * i.p - 1))
    ensures i.a * i.b > 0
    ensures var m, shift := i.a * i.b, Finish(i, i.a * i.b).1;
      var v := Mul(m, Pow2(shift));
      var exp := AdjustedExponent(i.p, i.expIn, shift, v);
      var right := WrittenFrom(i, Datapath(i)) == Correct(Dir(i), m, i.p - i.expIn);
      if ShiftReported(i.p, LeadingZeros(2 * i.p, m, 2 * i.p - 1)) then
        exp <= 0 && (right <==> WrittenRight(i.p, i.q, i.expIn, Dir(i), exp, v))
      else right
  {
    OperandsInRange(i.p, i.q, i.a, i.b, ea, eb);
    ShiftAddMultiplies(i.p, i.a, i.b);
    if ShiftReported(i.p, LeadingZeros(2 * i.p, i.a * i.b, 2 * i.p - 1)) {
      ProductWritten(i, i.a * i.b);
    } else {
      TinyWritten(i, i.a * i.b);
    }
  }

  // ------------------------------------------------------------- results at exponent 1

  /**
   * Where the exponent caps normalisation, at exponents from 1 to below the leading-zero
   * count, the result is at exponent 1 and correct in each mode, the smallest normal
   * number included.
   */
  lemma GradualUnderflowCorrect(i: Inputs)
    requires i.p >= 3 && i.q > 0 && i.p < Pow2(i.q - 1) - 1 && 0 < i.a * i.b < Pow2(2 * i.p)
    requires 1 <= i.expIn < LeadingZeros(2 * i.p, i.a * i.b, 2 * i.p - 1) <= i.p
    requires i.a < Pow2(i.p) && i.b < Pow2(i.p)
    ensures var v := Mul(i.a * i.b, Pow2(i.expIn - 1));
      WrittenFrom(i, Datapath(i)) == Correct(Dir(i), v, i.p - 1)
  {
    var m, v := i.a * i.b, Mul(i.a * i.b, Pow2(i.expIn - 1));
    ShiftAddMultiplies(i.p, i.a, i.b);
    CappedShift(i);
    CappedWritten(i, Finish(i, m).0, v);
  }

  lemma CappedWritten(i: Inputs, sig0: Sig, v: nat)
    requires i.p >= 3 && i.q > 0 && 1 <= i.expIn && Pow2(i.q) > 2
    requires Shows(i.p, sig0, v) && v < Pow2(2 * i.p - 2) && v / Pow2(i.p - 1) < Pow2(i.p - 1)
    ensures WrittenFrom(i, Delivered(i, sig0, i.expIn - 1)) == Correct(Dir(i), v, i.p - 1)
  {
    assert Pow2(2 * i.p - 1) == 2 * Pow2(2 * i.p - 2);
    AdjustShows(i.p, i.q, i.expIn, i.expIn - 1, sig0, v);
    WrapSmall(i.q, 1);
    AtOne(i, Adjust(i.p, i.q, i.expIn, i.expIn - 1, sig0).0, v);
  }

  lemma AtOne(i: Inputs, sig: Sig, v: nat)
    requires i.p >= 3 && i.q > 0 && Pow2(i.q) > 2 && v / Pow2(i.p - 1) < Pow2(i.p - 1)
    requires sig.product == v / Pow2(i.p - 1) && sig.g == Bit(v, i.p - 2) && sig.s == (v % Pow2(i.p - 2) != 0)
    ensures var (sub, exp) := Denormalise(i.p, i.q, i.expIn, sig, 1);
      WrittenFrom(i, RoundOff(i, sub, exp)) == Correct(Dir(i), v, i.p - 1)
  {
    HalfRange(i.p);
    RoundUses(i.p, i.mode, i.negative, sig);
    CorrectUses(Dir(i), v, i.p - 1);
    WritesAtOne(i.p, i.q, i.expIn, i.mode, i.negative, Round(i.p, i.mode, i.negative, sig));
  }

  lemma CappedShift(i: Inputs)
    requires i.p >= 3 && i.q > 0 && i.p < Pow2(i.q - 1) - 1 && 0 < i.a * i.b < Pow2(2 * i.p)
    requires 1 <= i.expIn < LeadingZeros(2 * i.p, i.a * i.b, 2 * i.p - 1) <= i.p
    ensures var (sig, shift) := Finish(i, i.a * i.b);
      var v := Mul(i.a * i.b, Pow2(i.expIn - 1));
      && shift == i.expIn - 1 && Shows(i.p, sig, v) && v < Pow2(2 * i.p - 2) && v / Pow2(i.p - 1) < Pow2(i.p - 1)
  {
    var m, j: nat := i.a * i.b, i.expIn - 1;
    CapAbove(i.q, i.expIn, LeadingZeros(2 * i.p, m, 2 * i.p - 1));
    FinishShows(i, m);
    VectorBounds(i.p, m, j);
    QuotientBound(Mul(m, Pow2(j)), i.p - 1, 2 * i.p - 2);
  }

  lemma CapAbove(q: nat, expIn: int, lz: nat)
    requires q > 0 && 1 <= expIn < lz < Pow2(q - 1)
    ensures LeadingZeroCap(q, expIn, lz) == expIn
  {
    assert Pow2(q + 1) == 2 * Pow2(q) && Pow2(q) == 2 * Pow2(q - 1);
    DivModUnique(expIn, Pow2(q + 1), 0, expIn);
  }

  /** At exponent 1 the implied bit tells the smallest normal number from the rest. */
  lemma WritesAtOne(p: nat, q: nat, expIn: int, mode: nat, negative: bool, n: nat)
    requires p >= 3 && q > 0 && Pow2(q) > 2 && n <= Pow2(p - 1)
    ensures var (product, exp) := Renormalise(p, q, expIn, n, 1);
      Written(p, WriteOut(p, q, mode, negative, exp, product)) == n
  {
    CarryBit(p, n);
    TopBit(n, p - 1);
    assert Mul(0, Pow2(p - 1)) == 0 && Mul(1, Pow2(p - 1)) == Pow2(p - 1);
    DivModUnique(1, Pow2(q), 0, 1);
  }


  // ------------------------------------------------------------- inputs

  lemma SmallPowers(p: nat)
    requires p == 8
    ensures Pow2(0) == 1 && Pow2(7) == 128 && Pow2(8) == 256 && Pow2(9) == 512
  {
    assert Pow2(4) == 16;
  }

  /** The default widths, a product, and a multiplier that has nothing to shift. */
  lemma Unshifted8(i: Inputs, m: nat, lz: nat)
    requires i.p == i.q == 8 && i.a < 256 && i.b < 256 && m == i.a * i.b && -125 <= i.expIn <= 0
    requires (lz == 0 && 32768 <= m < 65536) || (lz == 1 && i.expIn == 0 && 16384 <= m < 32768)
    ensures Datapath(i) == Delivered(i, Normalise(i.p, m, 0, 0), 0)
    ensures m * Pow2(0) == m && Underflows(i.p, i.q, i.expIn, 0, Normalise(i.p, m, 0, 0), m) <==> m < 32768 || i.expIn < 0
  {
    PowersOfEight(i.p);
    SmallPowers(i.p);
    ShiftAddMultiplies(i.p, i.a, i.b);
    LeadingZerosUnique(2 * i.p, m, lz);
    CapBelow(i.q, i.expIn, lz);
    FinishCapped(i, m, lz, 0, 0);
    NormaliseLossless(i.p, m, 0, 0);
  }

  /** The product 200 * 176 in eight bits at exponent -1: 35200 is 137 * 256 + 128. Shifted
      into place it is 68 with the guard bit set and, below it, 128 of 256; the sticky bit
      stays clear, the tie goes to the even 68, and the correct result is 69. */
  lemma GuardForgotten(i: Inputs)
    requires i.p == i.q == 8 && i.a == 200 && i.b == 176 && i.expIn == -1 && i.mode == 0
    ensures WrittenFrom(i, Datapath(i)) == 68 && Correct(Dir(i), i.a * i.b, i.p - i.expIn) == 69
  {
    var v := 35200;
    PowersOfEight(i.p);
    Unshifted8(i, v, 0);
    Adjusted(i.p, i.q, i.expIn, 0, Normalise(i.p, v, 0, 0), v);
    var (sig, exp) := Adjust(i.p, i.q, i.expIn, 0, Normalise(i.p, v, 0, 0));
    ShiftedInPlace(i.p, i.q, i.expIn, sig, exp, v);
    GuardAlone(i.p, v);
    ShiftedWritten(i, Denormalise(i.p, i.q, i.expIn, sig, exp).0);
  }

  lemma GuardAlone(p: nat, v: nat)
    requires p == 8 && v == 35200
    ensures Dropped(p, v) == 8 && OnlyGuard(v, 8, 0) && High(v, 9) == 68 && Bit(v, 8) && Low(v, 9) == 384 && Pow2(9) == 512
  {
    PowersOfEight(p);
    SmallPowers(p);
  }

  /** The product 192 * 192 in eight bits at exponent -8, the raised result at the limit:
      its value is 36864 of 65536 units in the last place, and zero is written. */
  lemma LimitForgotten(i: Inputs)
    requires i.p == i.q == 8 && i.a == 192 && i.b == 192 && i.expIn == -8 && i.mode == 0
    ensures WrittenFrom(i, Datapath(i)) == 0 && Correct(Dir(i), i.a * i.b, i.p - i.expIn) == 1
  {
    var v := 36864;
    PowersOfEight(i.p);
    SmallPowers(i.p);
    Unshifted8(i, v, 0);
    Adjusted(i.p, i.q, i.expIn, 0, Normalise(i.p, v, 0, 0), v);
    var (sig, exp) := Adjust(i.p, i.q, i.expIn, 0, Normalise(i.p, v, 0, 0));
    ShiftedOut(i.p, i.q, i.expIn, 0, sig, exp, v);
    ShiftedWritten(i, Denormalise(i.p, i.q, i.expIn, sig, exp).0);
    AllDropped(v, 2 * i.p, 2 * i.p);
  }

  /** The product 128 * 255 in eight bits at exponent 0: half a unit below the smallest
      normal number. The tie goes up, and zero is written. */
  lemma SmallestNormalLost(i: Inputs)
    requires i.p == i.q == 8 && i.a == 128 && i.b == 255 && i.expIn == 0 && i.mode == 0
    ensures WrittenFrom(i, Datapath(i)) == 0 && Correct(Dir(i), i.a * i.b, i.p - i.expIn) == Pow2(i.p - 1)
  {
    var v := 32640;
    PowersOfEight(i.p);
    Unshifted8(i, v, 1);
    Adjusted(i.p, i.q, i.expIn, 0, Normalise(i.p, v, 0, 0), v);
    var (sig, exp) := Adjust(i.p, i.q, i.expIn, 0, Normalise(i.p, v, 0, 0));
    ShiftedInPlace(i.p, i.q, i.expIn, sig, exp, v);
    HalfBelowNormal(i.p, v);
    SubnormalWrittenExact(i, Denormalise(i.p, i.q, i.expIn, sig, exp).0, v, 8);
  }

  lemma HalfBelowNormal(p: nat, v: nat)
    requires p == 8 && v == 32640
    ensures Dropped(p, v) == 7 && High(v, 8) == 127 && Bit(v, 7) && Low(v, 7) == 0 && Low(v, 8) == 128 && Pow2(8) == 256
  {
    PowersOfEight(p);
    SmallPowers(p);
  }

  /** The smallest normal number of eight bits, 128 at exponent 1, times the smallest
      subnormal one: a product of 128, with eight leading zeros. The exponent -125 - 7 is
      taken for an overflow: infinity or the largest finite number is written, where zero or
      the least number above it is correct. */
  lemma TinyBecomesInfinite(i: Inputs)
    requires i.p == i.q == 8 && i.a == 128 && i.b == 1 && i.expIn == -125 && i.mode < 4
    ensures WrittenFrom(i, Datapath(i)) == Overflow(i.p, i.q, i.mode, i.negative)
    ensures Correct(Dir(i), i.a * i.b, i.p - i.expIn) == if Dir(i).AwayFromZero? then 1 else 0
  {
    PowersOfEight(i.p);
    SmallPowers(i.p);
    TinyFinish(i);
    TinyDelivered(i, Normalise(i.p, 128, 8, 8), 16384);
    OverflowByMode(i.p, i.q, i.mode, i.negative, Datapath(i).1, Datapath(i).0);
    Pow2Monotonic(8, i.p - i.expIn - 1);
    TinyCorrect(Dir(i), 128, i.p - i.expIn);
  }

  lemma TinyFinish(i: Inputs)
    requires i.p == i.q == 8 && i.a == 128 && i.b == 1 && i.expIn == -125
    ensures Datapath(i) == Delivered(i, Normalise(i.p, 128, 8, 8), 7) && Shows(i.p, Normalise(i.p, 128, 8, 8), 16384)
  {
    PowersOfEight(i.p);
    SmallPowers(i.p);
    ShiftAddMultiplies(i.p, i.a, i.b);
    LeadingZerosUnique(2 * i.p, 128, 8);
    CapBelow(i.q, i.expIn, 8);
    DivModUnique(7, Pow2(Clog2(i.p)), 0, 7);
    FinishCapped(i, 128, 8, 8, 7);
    NormaliseLossless(i.p, 128, 8, 8);
  }

  lemma TinyDelivered(i: Inputs, sig0: Sig, v: nat)
    requires i.p == i.q == 8 && i.expIn == -125 && v == 16384 && Shows(i.p, sig0, v)
    ensures Delivered(i, sig0, 7).1 == -132
  {
    PowersOfEight(i.p);
    SmallPowers(i.p);
    AdjustShowsUnits(i.p, i.q, i.expIn, 7, sig0, v);
    var (sig, exp) := Adjust(i.p, i.q, i.expIn, 7, sig0);
    WrapSmall(i.q, -132);
    RoundUses(i.p, i.mode, i.negative, sig);
    CarryBit(i.p, Round(i.p, i.mode, i.negative, sig));
  }

  /** A normalised operand of a single bit times the smallest subnormal one in thirteen bits,
      at exponent -4. The product needs twelve places of normalising and then seventeen of
      shifting back; the register for the distance holds 0 to 15, so that it is shifted by
      one place only, and 2048 is written where zero is correct. */
  lemma DistanceForgotten(i: Inputs)
    requires i.p == 13 && i.q == 8 && i.a == Pow2(i.p - 1) && i.b == 1 && i.expIn == -4 && i.mode == 0
    ensures WrittenFrom(i, Datapath(i)) == Pow2(i.p - 2) == 2048 && Correct(Dir(i), i.a * i.b, i.p - i.expIn) == 0
  {
    var p, h := i.p, Pow2(i.p - 1);
    ThirteenBits(p, i.q);
    DistanceFinish(i);
    DistanceShifted(i, Normalise(p, h, p, p), Pow2(2 * p - 2));
    Pow2Monotonic(p, p - i.expIn - 1);
    TinyCorrect(Dir(i), h, p - i.expIn);
  }

  lemma ThirteenBits(p: nat, q: nat)
    requires p == 13 && q == 8
    ensures Pow2(p - 2) == 2048 && Pow2(p - 1) == 4096 && Pow2(p) == 8192 && Pow2(q - 1) == 128 && Pow2(q) == 256
    ensures Pow2(Clog2(p + 1)) == 16 && p - 1 < Pow2(Clog2(p))
  {
    assert Pow2(3) == 8 && Pow2(4) == 16;
    Pow2Adds(4, 4);
    Pow2Adds(4, 3);
    Pow2Adds(8, 3);
    if Clog2(p + 1) >= 5 {
      Pow2Monotonic(4, Clog2(p + 1) - 1);
    } else if Clog2(p + 1) <= 3 {
      Pow2Monotonic(Clog2(p + 1), 3);
    }
  }

  lemma DistanceFinish(i: Inputs)
    requires i.p == 13 && i.q == 8 && i.a == Pow2(i.p - 1) && i.b == 1 && i.expIn == -4
    ensures var p := i.p;
      var sig0 := Normalise(p, Pow2(p - 1), p, p);
      Datapath(i) == Delivered(i, sig0, p - 1) && Shows(p, sig0, Pow2(2 * p - 2))
  {
    var p, h := i.p, Pow2(i.p - 1);
    ThirteenBits(p, i.q);
    ShiftAddMultiplies(p, i.a, i.b);
    assert i.a * i.b == h;
    LeadingZerosUnique(2 * p, h, p);
    CapBelow(i.q, i.expIn, p);
    DivModUnique(p - 1, Pow2(Clog2(p)), 0, p - 1);
    FinishCapped(i, h, p, p, p - 1);
    Pow2Monotonic(p, 2 * p - (p - 1));
    NormaliseLossless(p, h, p, p);
    Pow2Adds(p - 1, p - 1);
  }

  lemma DistanceShifted(i: Inputs, sig0: Sig, v: nat)
    requires i.p == 13 && i.q == 8 && i.expIn == -4 && i.mode == 0 && v == Pow2(2 * i.p - 2) && Shows(i.p, sig0, v)
    ensures WrittenFrom(i, Delivered(i, sig0, i.p - 1)) == Pow2(i.p - 2)
  {
    var p := i.p;
    ThirteenBits(p, i.q);
    assert Pow2(2 * p - 1) == 2 * v;
    BelowUnderflows(p, i.q, i.expIn, p - 1, sig0, v);
    Adjusted(p, i.q, i.expIn, p - 1, sig0, v);
    var (sig, exp) := Adjust(p, i.q, i.expIn, p - 1, sig0);
    CutShift(p, i.q, i.expIn, sig, exp, v, 0);
    PowerBits(2 * p - 2, p);
    PowerBits(2 * p - 2, p - 1);
    ShiftedWritten(i, Denormalise(p, i.q, i.expIn, sig, exp).0);
  }
}
