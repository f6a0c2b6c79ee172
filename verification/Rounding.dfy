/**
 * Correct rounding to P significant bits, as IEEE 754-2019 section 4.3 defines it:
 * against all representable numbers, with no reference to how a result is computed.
 */
module Rounding {
  import opened Powers

  /** How a magnitude is rounded. */
  datatype Direction = ToNearestEven | TowardZero | AwayFromZero

  /** Representable with `p` significant bits. */
  ghost predicate Float(p: nat, v: nat) {
    exists t: nat, f: nat :: IsFloat(p, v, t, f)
  }

  ghost predicate IsFloat(p: nat, v: nat, t: nat, f: nat) { t < Pow2(p) && v == t * Pow2(f) }

  /** `s * 2^e`, a number of `p` significant bits, is the correct rounding of `x`. */
  ghost predicate CorrectlyRounded(p: nat, dir: Direction, x: nat, s: nat, e: nat)
  {
    && 0 < p && Pow2(p - 1) <= s < Pow2(p)
    && match dir
       case TowardZero => s * Pow2(e) <= x && forall w: nat :: Float(p, w) && w <= x ==> w <= s * Pow2(e)
       case AwayFromZero => x <= s * Pow2(e) && forall w: nat :: Float(p, w) && x <= w ==> s * Pow2(e) <= w
       case ToNearestEven =>
         && (forall w: nat :: Float(p, w) ==> Distance(x, s * Pow2(e)) <= Distance(x, w))
         && (forall w: nat :: Float(p, w) && w != s * Pow2(e) && Distance(x, s * Pow2(e)) == Distance(x, w) ==> s % 2 == 0)
  }

  /** Between two neighbours on a grid of spacing `u` lies no multiple of `u`. */
  lemma NoMultipleBetween(n: nat, u: nat, w: nat, c: nat)
    requires u > 0 && n * u < w < (n + 1) * u
    ensures w != c * u
  {
    if c <= n {
      if c < n { MulStep(c, n, u); }
    } else if c > n + 1 {
      MulStep(n + 1, c, u);
    }
  }

  /** No number of `p` significant bits lies strictly between `n` and `n + 1` units. */
  lemma NoFloatBetween(p: nat, n: nat, k: nat, w: nat)
    requires p > 0 && Pow2(p - 1) <= n && n * Pow2(k) < w < (n + 1) * Pow2(k)
    ensures !Float(p, w)
  {
    if Float(p, w) {
      var t: nat, f: nat :| IsFloat(p, w, t, f);
      if f >= k {
        Pow2Adds(f - k, k);
        Reassociate(t, Pow2(f - k), Pow2(k));
        NoMultipleBetween(n, Pow2(k), w, t * Pow2(f - k));
      } else {
        SmallFloat(p, n, k, t, f);
      }
    }
  }

  lemma Reassociate(a: int, b: int, c: int)
    ensures a * (b * c) == a * b * c
  {
  }

  /** A number with a smaller unit and only `p` bits is too small. */
  lemma SmallFloat(p: nat, n: nat, k: nat, t: nat, f: nat)
    requires p > 0 && Pow2(p - 1) <= n && f < k && t < Pow2(p)
    ensures t * Pow2(f) < n * Pow2(k)
  {
    Pow2Monotonic(f + 1, k);
    MulStep(t, Pow2(p), Pow2(f));
    MulAtLeast(Pow2(p - 1), n, Pow2(k));
    MulAtLeast(Pow2(f + 1), Pow2(k), Pow2(p - 1));
    Reassociate(Pow2(p - 1), 2, Pow2(f));
  }

  /** Every other representable number is at or below `n` units or at or above `n + 1`. */
  lemma Outside(p: nat, n: nat, k: nat, w: nat)
    requires p > 0 && Pow2(p - 1) <= n < Pow2(p) && Float(p, w)
    ensures w <= n * Pow2(k) || (n + 1) * Pow2(k) <= w
  {
    if n * Pow2(k) < w < (n + 1) * Pow2(k) {
      NoFloatBetween(p, n, k, w);
    }
  }

  /** Whether `x`, with `n` whole units and `rem` left over, goes up. */
  predicate GoesUp(dir: Direction, n: nat, rem: nat, unit: nat) {
    match dir
    case TowardZero => false
    case AwayFromZero => rem > 0
    case ToNearestEven => 2 * rem > unit || (2 * rem == unit && n % 2 == 1)
  }

  /** The significand and exponent for `n` units, renormalised if there are `2^p`. */
  function Renormalised(p: nat, n: nat, k: nat): (nat, nat)
    requires p > 0
  {
    if n == Pow2(p) then (Pow2(p - 1), k + 1) else (n, k)
  }

  lemma RenormalisedValue(p: nat, n: nat, k: nat)
    requires p > 0 && Pow2(p - 1) <= n <= Pow2(p)
    ensures var (s, e) := Renormalised(p, n, k); s * Pow2(e) == n * Pow2(k) && Pow2(p - 1) <= s < Pow2(p)
    ensures n == Pow2(p) && p > 1 ==> Renormalised(p, n, k).0 % 2 == 0
  {
    if n == Pow2(p) {
      Reassociate(Pow2(p - 1), 2, Pow2(k));
    }
  }

  /**
   * Rounding by units: take the whole units of `x`, one more if the remainder says so,
   * and renormalise. That is the correct rounding in every direction.
   */
  lemma UnitRounding(p: nat, dir: Direction, x: nat, n: nat, k: nat)
    requires p > 1 && Pow2(p - 1) <= n < Pow2(p) && n * Pow2(k) <= x < (n + 1) * Pow2(k)
    ensures var up := GoesUp(dir, n, x - n * Pow2(k), Pow2(k));
      var (s, e) := Renormalised(p, if up then n + 1 else n, k);
      CorrectlyRounded(p, dir, x, s, e)
  {
    var lo, hi := n * Pow2(k), (n + 1) * Pow2(k);
    assert hi == lo + Pow2(k);
    var up := GoesUp(dir, n, x - lo, Pow2(k));
    var m := if up then n + 1 else n;
    var (s, e) := Renormalised(p, m, k);
    RenormalisedValue(p, m, k);
    forall w: nat | Float(p, w) ensures w <= lo || hi <= w {
      Outside(p, n, k, w);
    }
    assert s * Pow2(e) == if up then hi else lo;
    assert dir.ToNearestEven? && 2 * (x - lo) == Pow2(k) ==> s % 2 == 0;
  }
}
