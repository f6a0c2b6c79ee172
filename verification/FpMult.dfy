/**
 * The multiplier's datapath, for any significand width P: normalise the product,
 * adjust the exponent, round, renormalise; and the proof that it rounds correctly.
 */
module FpMult {
  import opened Powers
  import opened Rounding
  import opened ShiftAdd

  // ------------------------------------------------------------- the datapath

  /** `leading_zero_counter`, from bit `i` down. A zero vector counts none. */
  function LeadingZeros(len: nat, x: nat, i: int): nat
    requires -1 <= i < len
    decreases i + 1
  {
    if i < 0 then 0 else if Bit(x, i) then len - 1 - i else LeadingZeros(len, x, i - 1)
  }

  method LeadingZeroCounter(len: nat, x: nat) returns (nlz: nat)
    requires x < Pow2(len)
    ensures nlz == LeadingZeros(len, x, len - 1)
    ensures x > 0 ==> nlz < len && Pow2(len - 1 - nlz) <= x < Pow2(len - nlz)
  {
    nlz := 0;
    var i := len - 1;
    while i >= 0
      invariant -1 <= i < len && nlz == 0
      invariant LeadingZeros(len, x, i) == LeadingZeros(len, x, len - 1)
    {
      if Bit(x, i) {
        nlz := len - 1 - i;
        break;
      }
      i := i - 1;
    }
    if x > 0 {
      LeadingZerosBound(len, x);
    }
  }

  /** `leading_zero_cap`: the exponent is read as an unsigned number of `q + 1` bits. */
  function LeadingZeroCap(q: nat, expIn: int, lz: nat): nat {
    var unsigned := expIn % Pow2(q + 1);
    if lz > unsigned then unsigned else lz
  }

  /** `upper_P_bits` */
  function UpperBits(p: nat, lz: nat, v: nat): nat {
    High(Low(Mul(v, Pow2(lz)), 2 * p), p)
  }

  /** A significand of `p` bits with guard, round and sticky bits below it. */
  datatype Sig = Sig(product: nat, g: bool, r: bool, s: bool)

  /** The multiplier's last step: the product brought up by at most `cap - 1` places. */
  function Normalise(p: nat, v: nat, lz: nat, cap: nat): Sig
    requires p >= 3
  {
    if cap > 1 then
      Sig(if p + 1 < cap then UpperBits(p, lz, v) else Low(High(v, p + 1 - cap), p),
          if p < cap then false else Bit(v, p - cap),
          if p - 1 < cap then false else Bit(v, p - 1 - cap),
          if p - 2 < cap then false else Low(v, p - 1 - cap) != 0)
    else
      Sig(High(v, p), Bit(v, p - 1), Bit(v, p - 2), Low(v, p - 2) != 0)
  }

  /** Signed arithmetic in `q + 1` bits. */
  function Wrap(q: nat, x: int): int { (x + Pow2(q)) % Pow2(q + 1) - Pow2(q) }

  /** State 0010: one more normalising shift if the top bit is clear. */
  function Adjust(p: nat, q: nat, expIn: int, shift: nat, sig: Sig): (Sig, int)
    requires p >= 3
  {
    if Bit(sig.product, p - 1) then (sig.(s := sig.r || sig.s), Wrap(q, expIn + 1))
    else
      (Sig(sig.product % Pow2(p - 1) * 2 + (if sig.g then 1 else 0), sig.r, sig.r, sig.s), Wrap(q, expIn - shift))
  }

  /** Which way the rounding mode sends a magnitude of this sign. */
  function DirectionOf(mode: nat, negative: bool): Direction {
    if mode == 0 then ToNearestEven
    else if mode == 1 then TowardZero
    else if mode == 2 then (if negative then AwayFromZero else TowardZero)
    else (if negative then TowardZero else AwayFromZero)
  }

  /** State 0100. */
  function Round(p: nat, mode: nat, negative: bool, sig: Sig): nat {
    var up :=
      if mode == 0 then sig.g && (sig.s || sig.product % 2 == 1)
      else if mode == 1 then false
      else if mode == 2 then (sig.g || sig.s) && negative
      else (sig.g || sig.s) && !negative;
    if up then (sig.product + 1) % Pow2(p + 1) else sig.product
  }

  /** State 0101: undo a carry out of rounding. The exponent is recomputed from `expIn`. */
  function Renormalise(p: nat, q: nat, expIn: int, product: nat, exp: int): (nat, int) {
    if Bit(product, p) then (product / 2, Wrap(q, expIn + 1)) else (product, exp)
  }

  /** The significand and exponent for operands whose result is not below the normal range. */
  function Multiply(p: nat, q: nat, a: nat, b: nat, expIn: int, mode: nat, negative: bool): (nat, int)
    requires p >= 3
  {
    var v := Steps(p, a, b, p);
    var lz := LeadingZeros(2 * p, v, 2 * p - 1);
    var cap := LeadingZeroCap(q, expIn, lz);
    var shift := if cap > 1 then (cap - 1) % Pow2(Clog2(p)) else 0;
    var (sig, exp) := Adjust(p, q, expIn, shift, Normalise(p, v, lz, cap));
    Renormalise(p, q, expIn, Round(p, mode, negative, sig), exp)
  }

  // ------------------------------------------------------------- leading zeros

  lemma {:induction false} LeadingZerosFrom(len: nat, x: nat, i: int)
    requires -1 <= i < len && 0 < x < Pow2(i + 1)
    ensures var n := LeadingZeros(len, x, i); n < len && Pow2(len - 1 - n) <= x < Pow2(len - n)
    decreases i + 1
  {
    if i == -1 {
    } else {
      var top := x / Pow2(i);
      DivModDefinition(x, Pow2(i));
      if top >= 2 {
        MulAtLeast(2, top, Pow2(i));
      }
      assert Bit(x, i) <==> top == 1;
      if !Bit(x, i) {
        assert x == x % Pow2(i);
        LeadingZerosFrom(len, x, i - 1);
      }
    }
  }

  /** A non-zero vector lies between the powers of two its leading-zero count names. */
  lemma LeadingZerosBound(len: nat, x: nat)
    requires 0 < x < Pow2(len)
    ensures var n := LeadingZeros(len, x, len - 1); n < len && Pow2(len - 1 - n) <= x < Pow2(len - n)
  {
    LeadingZerosFrom(len, x, len - 1);
  }

  /** And no other count names two such powers. */
  lemma LeadingZerosUnique(len: nat, x: nat, n: nat)
    requires n < len && Pow2(len - 1 - n) <= x < Pow2(len - n)
    ensures LeadingZeros(len, x, len - 1) == n
  {
    Pow2Monotonic(len - n, len);
    LeadingZerosBound(len, x);
    var lz := LeadingZeros(len, x, len - 1);
    if lz < n {
      Pow2Monotonic(len - n, len - 1 - lz);
    } else if n < lz {
      Pow2Monotonic(len - lz, len - 1 - n);
    }
  }

  // ------------------------------------------------------------- normalisation

  /** Bits move up with the number and zeros come in below. */
  lemma ScaledBit(v: nat, j: nat, k: nat)
    ensures Bit(v * Pow2(j), k) == (k >= j && Bit(v, k - j))
  {
    if k >= j {
      ScaledDivMod(v, j, k - j);
    } else {
      LowBitsClear(v, j, k);
      Reassociate(v, 2, Pow2(j - k - 1));
      assert v * Pow2(j) / Pow2(k) == 2 * (v * Pow2(j - k - 1));
    }
  }

  lemma LowBitsClear(v: nat, j: nat, k: nat)
    requires k <= j
    ensures v * Pow2(j) / Pow2(k) == v * Pow2(j - k) && v * Pow2(j) % Pow2(k) == 0
  {
    Pow2Adds(j - k, k);
    Reassociate(v, Pow2(j - k), Pow2(k));
    DivModUnique(Mul(v, Pow2(j)), Pow2(k), Mul(v, Pow2(j - k)), 0);
  }

  /** The bits of a power of two. */
  lemma PowerBits(n: nat, k: nat)
    requires k <= n
    ensures High(Pow2(n), k) == Pow2(n - k) && Low(Pow2(n), k) == 0 && (k < n ==> !Bit(Pow2(n), k))
  {
    LowBitsClear(1, n, k);
    if k < n {
      assert Pow2(n - k) == 2 * Pow2(n - k - 1);
    }
  }

  lemma ScaledBelow(v: nat, j: nat, n: nat)
    requires j <= n && v < Pow2(n - j)
    ensures v * Pow2(j) < Pow2(n)
  {
    Pow2Adds(n - j, j);
    MulStep(v, Pow2(n - j), Pow2(j));
  }

  /** What a number of 2p bits looks like as a significand with guard, round, sticky. */
  ghost predicate Shows(p: nat, sig: Sig, v: nat)
    requires p >= 3
  {
    && v < Pow2(2 * p)
    && sig.product == v / Pow2(p) && sig.product < Pow2(p)
    && sig.g == Bit(v, p - 1) && sig.r == Bit(v, p - 2) && sig.s == (v % Pow2(p - 2) != 0)
  }

  lemma UpperHalf(p: nat, v: nat)
    requires v < Pow2(2 * p)
    ensures v / Pow2(p) < Pow2(p)
  {
    QuotientBound(v, p, 2 * p);
  }

  /** The sticky bit survives the shift. */
  lemma ScaledSticky(v: nat, j: nat, k: nat)
    ensures (v * Pow2(j) % Pow2(k) != 0) == (k > j && v % Pow2(k - j) != 0)
  {
    if k > j {
      ScaledDivMod(v, j, k - j);
      var m := v % Pow2(k - j);
      assert m > 0 ==> m * Pow2(j) > 0;
    } else {
      LowBitsClear(v, j, k);
    }
  }

  /**
   * Normalisation is lossless: with at least `cap - 1` leading zeros, the significand
   * with its guard, round and sticky bits shows exactly the product shifted up by
   * `cap - 1` places, no bit dropped.
   */
  lemma NormaliseLossless(p: nat, v: nat, lz: nat, cap: nat)
    requires p >= 3 && cap <= p + 1
    requires var j := if cap > 1 then cap - 1 else 0; v < Pow2(2 * p - j)
    ensures var j := if cap > 1 then cap - 1 else 0;
      Shows(p, Normalise(p, v, lz, cap), v * Pow2(j))
  {
    if cap > 1 {
      var j := cap - 1;
      ShiftedProduct(p, v, j);
      ScaledBit(v, j, p - 1);
      ScaledBit(v, j, p - 2);
      ScaledSticky(v, j, p - 2);
    } else {
      UpperHalf(p, v);
      assert v * Pow2(0) == v;
    }
  }

  /** Selecting `p` bits below the leading zeros is shifting up and taking the top half. */
  lemma ShiftedProduct(p: nat, v: nat, j: nat)
    requires j <= p && v < Pow2(2 * p - j)
    ensures v * Pow2(j) < Pow2(2 * p)
    ensures Low(High(v, p - j), p) == v * Pow2(j) / Pow2(p) < Pow2(p)
  {
    ScaledBelow(v, j, 2 * p);
    UpperHalf(p, Mul(v, Pow2(j)));
    ScaledDivMod(v, j, p - j);
    DivModUnique(High(v, p - j), Pow2(p), 0, High(v, p - j));
  }

  // ------------------------------------------------------------- adjustment

  /** A significand of full width over `k` dropped bits, summed up by guard and sticky. */
  ghost predicate ShowsUnits(p: nat, sig: Sig, v: nat, k: nat)
    requires p >= 3
  {
    && k >= 1 && sig.product == v / Pow2(k) && Pow2(p - 1) <= sig.product < Pow2(p)
    && sig.g == Bit(v, k - 1) && sig.s == (v % Pow2(k - 1) != 0)
  }

  lemma StickyJoins(v: nat, k: nat)
    requires k > 0
    ensures (v % Pow2(k) != 0) == (Bit(v, k - 1) || v % Pow2(k - 1) != 0)
  {
    TopBitOfRemainder(v, k);
  }

  /** The bit below the top tells which half of the range a number is in. */
  lemma TopBit(x: nat, k: nat)
    requires x < Pow2(k + 1)
    ensures Bit(x, k) == (x >= Pow2(k)) && x % Pow2(k) == (if Bit(x, k) then x - Pow2(k) else x)
  {
    if x >= Pow2(k) {
      DivModUnique(x, Pow2(k), 1, x - Pow2(k));
    } else {
      DivModUnique(x, Pow2(k), 0, x);
    }
  }

  /** The upper half's top bit is the number's. */
  lemma TopOfProduct(p: nat, v: nat)
    requires p > 0 && v < Pow2(2 * p)
    ensures v / Pow2(p) >= Pow2(p - 1) <==> v >= Pow2(2 * p - 1)
  {
    Pow2Adds(p - 1, p);
    DivModDefinition(v, Pow2(p));
    if v / Pow2(p) >= Pow2(p - 1) {
      MulAtLeast(Pow2(p - 1), v / Pow2(p), Pow2(p));
    } else {
      MulStep(v / Pow2(p), Pow2(p - 1), Pow2(p));
    }
  }

  /** How many bits lie below the significand after adjustment. */
  function Dropped(p: nat, v: nat): (k: nat)
    requires p >= 3
    ensures k >= 2
  {
    if v >= Pow2(2 * p - 1) then p else p - 1
  }

  /** What adjustment shows of any vector, full width or not. */
  lemma AdjustShows(p: nat, q: nat, expIn: int, shift: nat, sig: Sig, v: nat)
    requires p >= 3 && Shows(p, sig, v)
    ensures var (sig', exp) := Adjust(p, q, expIn, shift, sig);
      var k := Dropped(p, v);
      && sig'.product == v / Pow2(k) && sig'.product < Pow2(p)
      && sig'.g == Bit(v, k - 1) && sig'.s == (v % Pow2(k - 1) != 0)
      && exp == Wrap(q, if v >= Pow2(2 * p - 1) then expIn + 1 else expIn - shift)
  {
    TopOfProduct(p, v);
    TopBit(sig.product, p - 1);
    StickyJoins(v, p - 1);
    if v < Pow2(2 * p - 1) {
      TopBitOfRemainder(v, p);
    }
  }

  lemma AdjustShowsUnits(p: nat, q: nat, expIn: int, shift: nat, sig: Sig, v: nat)
    requires p >= 3 && Shows(p, sig, v) && Pow2(2 * p - 2) <= v
    ensures var (sig', exp) := Adjust(p, q, expIn, shift, sig);
      && ShowsUnits(p, sig', v, Dropped(p, v))
      && exp == Wrap(q, if v >= Pow2(2 * p - 1) then expIn + 1 else expIn - shift)
  {
    AdjustShows(p, q, expIn, shift, sig, v);
    TopOfProduct(p, v);
    if v < Pow2(2 * p - 1) {
      Pow2Adds(p - 1, p - 1);
      DivModDefinition(v, Pow2(p - 1));
      if v / Pow2(p - 1) < Pow2(p - 1) {
        MulStep(v / Pow2(p - 1), Pow2(p - 1), Pow2(p - 1));
      }
    }
  }

  // ------------------------------------------------------------- rounding

  /** Guard and sticky decide as the remainder does. */
  lemma RoundDecides(p: nat, mode: nat, negative: bool, sig: Sig, v: nat, k: nat)
    requires k >= 1 && sig.product == v / Pow2(k) && sig.product < Pow2(p)
    requires sig.g == Bit(v, k - 1) && sig.s == (v % Pow2(k - 1) != 0)
    ensures Round(p, mode, negative, sig) ==
      sig.product + if GoesUp(DirectionOf(mode, negative), sig.product, v % Pow2(k), Pow2(k)) then 1 else 0
  {
    TopBitOfRemainder(v, k);
    DivModDefinition(v, Pow2(k - 1));
    DivModUnique(sig.product + 1, Pow2(p + 1), 0, sig.product + 1);
  }

  lemma ScaledUnits(v: nat, k: nat, j: nat)
    ensures var x, n := v * Pow2(j), v / Pow2(k);
      && n * Pow2(k + j) <= x < (n + 1) * Pow2(k + j)
      && x - n * Pow2(k + j) == v % Pow2(k) * Pow2(j)
  {
    var n := v / Pow2(k);
    ScaledDivMod(v, j, k);
    DivModDefinition(Mul(v, Pow2(j)), Pow2(k + j));
  }

  lemma ScaledOrder(x: nat, y: nat, c: nat)
    requires c > 0
    ensures x < y <==> x * c < y * c
    ensures x == y <==> x * c == y * c
  {
    if x < y {
      MulStep(x, y, c);
    } else if y < x {
      MulStep(y, x, c);
    }
  }

  lemma GoesUpScaled(dir: Direction, n: nat, rem: nat, k: nat, j: nat)
    ensures GoesUp(dir, n, rem * Pow2(j), Pow2(k + j)) == GoesUp(dir, n, rem, Pow2(k))
  {
    Pow2Adds(k, j);
    Reassociate(2, rem, Pow2(j));
    ScaledOrder(2 * rem, Pow2(k), Pow2(j));
    ScaledOrder(Pow2(k), 2 * rem, Pow2(j));
    ScaledOrder(0, rem, Pow2(j));
  }

  /** The result of rounding `v` at `k` dropped bits is correct at every finer scale. */
  lemma RoundedUnitsCorrect(p: nat, dir: Direction, v: nat, k: nat, j: nat)
    requires p >= 3 && Pow2(p - 1) <= v / Pow2(k) < Pow2(p)
    ensures var n := v / Pow2(k);
      var (s, e) := Renormalised(p, if GoesUp(dir, n, v % Pow2(k), Pow2(k)) then n + 1 else n, k);
      CorrectlyRounded(p, dir, Mul(v, Pow2(j)), s, e + j)
  {
    ScaledUnits(v, k, j);
    GoesUpScaled(dir, v / Pow2(k), v % Pow2(k), k, j);
    UnitRounding(p, dir, Mul(v, Pow2(j)), High(v, k), k + j);
  }

  // ------------------------------------------------------------- the whole

  lemma WrapSmall(q: nat, x: int)
    requires 0 <= x + Pow2(q) && x < Pow2(q)
    ensures Wrap(q, x) == x
  {
    DivModUnique(x + Pow2(q), Pow2(q + 1), 0, x + Pow2(q));
  }

  /** The operands' product is not zero, and even after every normalising shift its
      exponent is at least 1, that of the smallest normal number. At the upper end the
      exponent may reach `2^q - 1`, which the last state turns into an overflow. */
  ghost predicate InNormalRange(p: nat, q: nat, a: nat, b: nat, expIn: int)
    requires p >= 3
  {
    && 0 < a < Pow2(p) && 0 < b < Pow2(p) && 0 < a * b < Pow2(2 * p)
    && var lz := LeadingZeros(2 * p, a * b, 2 * p - 1);
       lz <= p && lz <= expIn < Pow2(q) - 1
  }

  /** How far the product is shifted up before adjustment. */
  function ShiftOf(p: nat, a: nat, b: nat): nat
    requires p >= 3
  {
    var lz := LeadingZeros(2 * p, a * b, 2 * p - 1);
    if lz > 1 then lz - 1 else 0
  }

  /** The normalised product. */
  function Vector(p: nat, a: nat, b: nat): nat
    requires p >= 3
  {
    Mul(Mul(a, b), Pow2(ShiftOf(p, a, b)))
  }

  /** Rounding carries out of the significand: all its bits are set and it goes up. */
  predicate Carries(p: nat, a: nat, b: nat, dir: Direction)
    requires p >= 3
  {
    var v := Vector(p, a, b);
    var k := Dropped(p, v);
    v / Pow2(k) == Pow2(p) - 1 && GoesUp(dir, v / Pow2(k), v % Pow2(k), Pow2(k))
  }

  /** The exponent the correct result has. */
  function CorrectExponent(p: nat, a: nat, b: nat, expIn: int, dir: Direction): int
    requires p >= 3
  {
    var v := Vector(p, a, b);
    expIn - ShiftOf(p, a, b) + (Dropped(p, v) - (p - 1)) + if Carries(p, a, b, dir) then 1 else 0
  }

  lemma ScaledAbove(v: nat, j: nat, n: nat)
    requires j <= n && Pow2(n - j) <= v
    ensures Pow2(n) <= v * Pow2(j)
  {
    Pow2Adds(n - j, j);
    MulAtLeast(Pow2(n - j), v, Pow2(j));
  }

  lemma ProductRange(p: nat, q: nat, a: nat, b: nat, expIn: int)
    requires p >= 3 && InNormalRange(p, q, a, b, expIn)
    ensures var j := ShiftOf(p, a, b);
      && j + 2 <= 2 * p && Pow2(2 * p - 2 - j) <= a * b < Pow2(2 * p - j)
      && (j > 0 ==> a * b < Pow2(2 * p - 1 - j))
  {
    LeadingZerosBound(2 * p, a * b);
    var lz := LeadingZeros(2 * p, a * b, 2 * p - 1);
    if lz == 0 {
      assert ShiftOf(p, a, b) == 0;
      Pow2Monotonic(2 * p - 2, 2 * p - 1);
    } else {
      assert ShiftOf(p, a, b) == lz - 1;
      Pow2Monotonic(2 * p - lz, 2 * p - lz + 1);
    }
  }

  lemma VectorRange(p: nat, q: nat, a: nat, b: nat, expIn: int)
    requires p >= 3 && InNormalRange(p, q, a, b, expIn)
    ensures Pow2(2 * p - 2) <= Vector(p, a, b) < Pow2(2 * p)
    ensures a * b < Pow2(2 * p - ShiftOf(p, a, b))
    ensures ShiftOf(p, a, b) > 0 ==> Vector(p, a, b) < Pow2(2 * p - 1)
  {
    var m, j := a * b, ShiftOf(p, a, b);
    ProductRange(p, q, a, b, expIn);
    ScaledBelow(m, j, 2 * p);
    ScaledAbove(m, j, 2 * p - 2);
    if j > 0 {
      ScaledBelow(m, j, 2 * p - 1);
    }
  }

  /** In the normal range the cap is the leading-zero count and the shift keeps its bits. */
  lemma CapIsLeadingZeros(p: nat, q: nat, a: nat, b: nat, expIn: int)
    requires p >= 3 && InNormalRange(p, q, a, b, expIn)
    ensures var lz := LeadingZeros(2 * p, a * b, 2 * p - 1);
      var cap := LeadingZeroCap(q, expIn, lz);
      cap == lz && (if cap > 1 then (cap - 1) % Pow2(Clog2(p)) else 0) == ShiftOf(p, a, b)
  {
    var lz := LeadingZeros(2 * p, a * b, 2 * p - 1);
    DivModUnique(expIn, Pow2(q + 1), 0, expIn);
    if lz > 1 {
      DivModUnique(lz - 1, Pow2(Clog2(p)), 0, lz - 1);
    }
  }

  /** Everything up to rounding. */
  lemma BeforeRounding(p: nat, q: nat, a: nat, b: nat, expIn: int)
    requires p >= 3 && InNormalRange(p, q, a, b, expIn)
    ensures var lz := LeadingZeros(2 * p, a * b, 2 * p - 1);
      var (sig, exp) := Adjust(p, q, expIn, ShiftOf(p, a, b), Normalise(p, a * b, lz, lz));
      var v := Vector(p, a, b);
      && ShowsUnits(p, sig, v, Dropped(p, v))
      && exp == expIn - ShiftOf(p, a, b) + (Dropped(p, v) - (p - 1))
  {
    var m := a * b;
    var lz, j, v := LeadingZeros(2 * p, m, 2 * p - 1), ShiftOf(p, a, b), Vector(p, a, b);
    VectorRange(p, q, a, b, expIn);
    NormaliseLossless(p, m, lz, lz);
    AdjustShowsUnits(p, q, expIn, j, Normalise(p, m, lz, lz), v);
    WrapSmall(q, expIn + 1);
    WrapSmall(q, expIn - j);
  }

  /** The carry is visible as bit `p` of the rounded significand. */
  lemma CarryBit(p: nat, n: nat)
    requires n <= Pow2(p) && p > 0
    ensures Bit(n, p) == (n == Pow2(p)) && Pow2(p) / 2 == Pow2(p - 1)
  {
    TopBit(n, p);
  }

  /**
   * The significand is always the correct rounding of the product, in every mode and
   * at every scale; the exponent is the correct one exactly unless rounding carries
   * after the product had to be shifted up by more than the one adjusting place. A
   * carry sets the exponent from the operands' again and forgets that shift, so it is
   * then too large by as much.
   */
  lemma MultiplyExact(p: nat, q: nat, a: nat, b: nat, expIn: int, mode: nat, negative: bool, j: nat)
    requires p >= 3 && InNormalRange(p, q, a, b, expIn)
    ensures var dir := DirectionOf(mode, negative);
      var v := Vector(p, a, b);
      var (s, exp) := Multiply(p, q, a, b, expIn, mode, negative);
      var carry := Carries(p, a, b, dir);
      && CorrectlyRounded(p, dir, Mul(v, Pow2(j)), s, Dropped(p, v) + (if carry then 1 else 0) + j)
      && exp == CorrectExponent(p, a, b, expIn, dir) + (if carry then ShiftOf(p, a, b) else 0)
      && (exp == CorrectExponent(p, a, b, expIn, dir) <==> !(carry && ShiftOf(p, a, b) > 0))
  {
    var dir, v := DirectionOf(mode, negative), Vector(p, a, b);
    MultiplyForm(p, q, a, b, expIn, mode, negative);
    RoundedUnitsCorrect(p, dir, v, Dropped(p, v), j);
    ExponentExact(p, q, a, b, expIn, dir);
  }

  lemma ExponentExact(p: nat, q: nat, a: nat, b: nat, expIn: int, dir: Direction)
    requires p >= 3 && InNormalRange(p, q, a, b, expIn)
    ensures var shift := ShiftOf(p, a, b);
      var exp := if Carries(p, a, b, dir) then expIn + 1 else expIn - shift + (Dropped(p, Vector(p, a, b)) - (p - 1));
      exp == CorrectExponent(p, a, b, expIn, dir) + (if Carries(p, a, b, dir) then shift else 0)
  {
    if Carries(p, a, b, dir) {
      CarryNeedsClearTop(p, q, a, b, expIn, dir);
    }
  }

  /** The result of the datapath in terms of the normalised product. */
  lemma MultiplyForm(p: nat, q: nat, a: nat, b: nat, expIn: int, mode: nat, negative: bool)
    requires p >= 3 && InNormalRange(p, q, a, b, expIn)
    ensures var dir := DirectionOf(mode, negative);
      var v := Vector(p, a, b);
      var k := Dropped(p, v);
      var n := v / Pow2(k);
      && Pow2(p - 1) <= n < Pow2(p)
      && Multiply(p, q, a, b, expIn, mode, negative) ==
         (Renormalised(p, if GoesUp(dir, n, v % Pow2(k), Pow2(k)) then n + 1 else n, k).0,
          if Carries(p, a, b, dir) then expIn + 1 else expIn - ShiftOf(p, a, b) + (k - (p - 1)))
  {
    var v := Vector(p, a, b);
    var lz := LeadingZeros(2 * p, a * b, 2 * p - 1);
    ShiftAddMultiplies(p, a, b);
    CapIsLeadingZeros(p, q, a, b, expIn);
    BeforeRounding(p, q, a, b, expIn);
    var (sig, exp) := Adjust(p, q, expIn, ShiftOf(p, a, b), Normalise(p, a * b, lz, lz));
    RoundAndRenormalise(p, q, expIn, mode, negative, sig, exp, v, Dropped(p, v));
    WrapSmall(q, expIn + 1);
  }

  lemma RoundAndRenormalise(p: nat, q: nat, expIn: int, mode: nat, negative: bool, sig: Sig, exp: int, v: nat, k: nat)
    requires p >= 3 && ShowsUnits(p, sig, v, k)
    ensures var n := sig.product;
      var up := GoesUp(DirectionOf(mode, negative), n, v % Pow2(k), Pow2(k));
      Renormalise(p, q, expIn, Round(p, mode, negative, sig), exp) ==
      (Renormalised(p, if up then n + 1 else n, k).0, if up && n == Pow2(p) - 1 then Wrap(q, expIn + 1) else exp)
  {
    RoundDecides(p, mode, negative, sig, v, k);
    CarryBit(p, Round(p, mode, negative, sig));
  }

  /** A carry can occur only when the product's top bit was clear. */
  lemma CarryNeedsClearTop(p: nat, q: nat, a: nat, b: nat, expIn: int, dir: Direction)
    requires p >= 3 && InNormalRange(p, q, a, b, expIn) && Carries(p, a, b, dir)
    ensures Vector(p, a, b) < Pow2(2 * p - 1)
  {
    var d := Pow2(p);
    var v := Vector(p, a, b);
    if v >= Pow2(2 * p - 1) {
      VectorRange(p, q, a, b, expIn);
      assert ShiftOf(p, a, b) == 0;
      assert v == a * b;
      SquareBound(a, b, d);
      DivModDefinition(v, d);
      assert false;
    }
  }

  lemma MulCommutes(x: int, y: int)
    ensures x * y == y * x
  {
  }

  /** The largest product of two numbers below `d`. */
  lemma SquareBound(a: nat, b: nat, d: nat)
    requires a < d && b < d && d > 1
    ensures a * b < (d - 1) * d
  {
    MulAtLeast(a, d - 1, b);
    MulStep(b, d, d - 1);
    MulCommutes(d - 1, b);
    MulCommutes(d - 1, d);
  }

  // ------------------------------------------------------------- consequences

  /** One normalised operand keeps the leading zeros of the product at `p` or fewer. */
  lemma OneNormalised(p: nat, a: nat, b: nat)
    requires p >= 3 && Pow2(p - 1) <= a < Pow2(p) && 0 < b < Pow2(p)
    ensures Pow2(p - 1) <= a * b < Pow2(2 * p)
    ensures LeadingZeros(2 * p, a * b, 2 * p - 1) <= p
  {
    Product(a, b, Pow2(p), Pow2(p));
    Pow2Adds(p, p);
    MulAtLeast(1, b, a);
    MulCommutes(a, b);
    LeadingZerosBound(2 * p, a * b);
    var lz := LeadingZeros(2 * p, a * b, 2 * p - 1);
    if lz > p {
      Pow2Monotonic(2 * p - lz, p - 1);
    }
  }

  /** Two finite non-zero operands as the unit decodes them: a subnormal one, without its
      leading bit, has exponent 1. */
  predicate Encoded(p: nat, a: nat, b: nat, ea: nat, eb: nat)
    requires p > 0
  {
    && 0 < a < Pow2(p) && 1 <= ea && (a < Pow2(p - 1) ==> ea == 1)
    && 0 < b < Pow2(p) && 1 <= eb && (b < Pow2(p - 1) ==> eb == 1)
  }

  /** The exponent adder, while its sum fits. */
  function ExponentSum(q: nat, ea: nat, eb: nat): int
    requires q > 0
  {
    ea + eb - (Pow2(q - 1) - 1)
  }

  /** Only two subnormal operands give more than P leading zeros, at the least exponent; so
      every product whose leading zeros its exponent can pay for is in the normal range. */
  lemma OperandsInRange(p: nat, q: nat, a: nat, b: nat, ea: nat, eb: nat)
    requires p >= 3 && q > 0 && Encoded(p, a, b, ea, eb)
    ensures 0 < a * b < Pow2(2 * p)
    ensures var lz, expIn := LeadingZeros(2 * p, a * b, 2 * p - 1), ExponentSum(q, ea, eb);
      && (lz > p ==> expIn == 3 - Pow2(q - 1))
      && (lz <= expIn < Pow2(q) - 1 ==> InNormalRange(p, q, a, b, expIn))
  {
    Product(a, b, Pow2(p), Pow2(p));
    Pow2Adds(p, p);
    MulAtLeast(1, a, b);
    if a >= Pow2(p - 1) {
      OneNormalised(p, a, b);
    } else if b >= Pow2(p - 1) {
      MulCommutes(a, b);
      OneNormalised(p, b, a);
    }
  }

  /** Two normalised operands leave at most one. */
  lemma BothNormalised(p: nat, q: nat, a: nat, b: nat, expIn: int)
    requires p >= 3 && Pow2(p - 1) <= a < Pow2(p) && Pow2(p - 1) <= b < Pow2(p)
    requires (if Pow2(2 * p - 1) <= a * b then 0 else 1) <= expIn < Pow2(q) - 1
    ensures InNormalRange(p, q, a, b, expIn) && ShiftOf(p, a, b) == 0
  {
    OneNormalised(p, a, b);
    MulAtLeast(Pow2(p - 1), a, b);
    MulAtLeast(Pow2(p - 1), b, Pow2(p - 1));
    MulCommutes(b, Pow2(p - 1));
    Pow2Adds(p - 1, p - 1);
    LeadingZerosBound(2 * p, a * b);
    var lz := LeadingZeros(2 * p, a * b, 2 * p - 1);
    if lz > 1 {
      Pow2Monotonic(2 * p - lz, 2 * p - 2);
    }
  }

  /**
   * Normalised operands multiply correctly whenever the result is a normal number. In
   * each mode the significand and exponent together are the correct rounding of the
   * exact product, the exponent adjustment is 0 or 1, and rounding carries only if the
   * product's top bit was clear.
   */
  lemma NormalisedMultiplyCorrect(p: nat, q: nat, a: nat, b: nat, expIn: int, mode: nat, negative: bool, j: nat)
    requires p >= 3 && Pow2(p - 1) <= a < Pow2(p) && Pow2(p - 1) <= b < Pow2(p)
    requires (if Pow2(2 * p - 1) <= a * b then 0 else 1) <= expIn < Pow2(q) - 1
    ensures var (s, exp) := Multiply(p, q, a, b, expIn, mode, negative);
      && expIn <= exp <= expIn + 1 && 1 <= exp
      && CorrectlyRounded(p, DirectionOf(mode, negative), Mul(Mul(a, b), Pow2(j)), s, p - 1 + (exp - expIn) + j)
    ensures Carries(p, a, b, DirectionOf(mode, negative)) ==> a * b < Pow2(2 * p - 1)
  {
    BothNormalised(p, q, a, b, expIn);
    Unshifted(p, a, b);
    MultiplyExact(p, q, a, b, expIn, mode, negative, j);
    if Carries(p, a, b, DirectionOf(mode, negative)) {
      CarryNeedsClearTop(p, q, a, b, expIn, DirectionOf(mode, negative));
    }
  }

  lemma Unshifted(p: nat, a: nat, b: nat)
    requires p >= 3 && ShiftOf(p, a, b) == 0
    ensures Vector(p, a, b) == Mul(a, b)
  {
  }

  /** The powers of two that an 8-bit significand meets. */
  lemma PowersOfEight(p: nat)
    requires p == 8
    ensures Pow2(p - 1) == 128 && Pow2(p) == 256
    ensures Pow2(2 * p - 2) == 16384 && Pow2(2 * p - 1) == 32768 && Pow2(2 * p) == 65536
  {
    assert Pow2(3) == 8 && Pow2(4) == 16;
    Pow2Adds(3, 4);
    Pow2Adds(4, 4);
    Pow2Adds(7, 7);
    Pow2Adds(7, 8);
    Pow2Adds(8, 8);
  }

  lemma TwoLeadingZeros(p: nat, a: nat, b: nat)
    requires p == 8 && a == 146 && b == 112
    ensures a * b == 16352 && LeadingZeros(2 * p, a * b, 2 * p - 1) == 2
  {
    PowersOfEight(p);
    assert Pow2(2 * p - 2) == 2 * Pow2(2 * p - 3);
    LeadingZerosUnique(2 * p, a * b, 2);
  }

  lemma HalfwayBelowTop(p: nat, v: nat)
    requires p == 8 && v == 32704
    ensures Dropped(p, v) == 7 && v / Pow2(7) == 255 && v % Pow2(7) == 64 && GoesUp(ToNearestEven, 255, 64, Pow2(7))
  {
    PowersOfEight(p);
  }

  /** A normalised operand times a subnormal one at the default width, 146 * 112 in eight
      bits: the product is shifted up by one place, its eight bits are all set, it rounds
      up, and its exponent comes out one too large. */
  lemma CarryForgetsShift(p: nat, q: nat, a: nat, b: nat, expIn: int)
    requires p == 8 && a == 146 && b == 112 && 2 <= expIn < Pow2(q) - 1
    ensures InNormalRange(p, q, a, b, expIn) && ShiftOf(p, a, b) == 1 && Carries(p, a, b, ToNearestEven)
    ensures Multiply(p, q, a, b, expIn, 0, false).1 == CorrectExponent(p, a, b, expIn, ToNearestEven) + 1
  {
    PowersOfEight(p);
    TwoLeadingZeros(p, a, b);
    assert Pow2(1) == 2;
    HalfwayBelowTop(p, Vector(p, a, b));
    MultiplyExact(p, q, a, b, expIn, 0, false, 0);
  }
}
