/** Powers of two and the few facts about them the hardware units need. */
module Powers {

  function Pow2(n: nat): (p: nat)
    ensures p > 0
  {
    if n == 0 then 1 else 2 * Pow2(n - 1)
  }

  lemma {:induction false} Pow2Adds(m: nat, n: nat)
    ensures Pow2(m + n) == Pow2(m) * Pow2(n)
  {
    if m == 0 {
    } else {
      Pow2Adds(m - 1, n);
      assert Pow2(m + n) == 2 * Pow2(m - 1 + n);
      assert 2 * (Pow2(m - 1) * Pow2(n)) == (2 * Pow2(m - 1)) * Pow2(n);
    }
  }

  lemma {:induction false} Pow2Monotonic(m: nat, n: nat)
    requires m <= n
    ensures Pow2(m) <= Pow2(n)
    decreases n
  {
    if m == n {
    } else {
      Pow2Monotonic(m, n - 1);
    }
  }

  /** `$clog2` */
  function Clog2(n: nat): (k: nat)
    requires n > 0
    ensures n <= Pow2(k) && (k > 0 ==> Pow2(k - 1) < n)
  {
    Clog2From(n, 0)
  }

  function Clog2From(n: nat, k: nat): (r: nat)
    requires n > 0 && (k > 0 ==> Pow2(k - 1) < n)
    ensures n <= Pow2(r) && (r > 0 ==> Pow2(r - 1) < n)
    decreases n - Pow2(k)
  {
    if n <= Pow2(k) then k else Clog2From(n, k + 1)
  }

  function Quotient(x: nat, d: nat): nat
    requires d > 0
  {
    x / d
  }

  /** The bits of `a` from `i` up, and those below. */
  function High(a: nat, i: nat): nat { Quotient(a, Pow2(i)) }

  function Low(a: nat, i: nat): nat { a % Pow2(i) }

  function Mul(x: nat, y: nat): nat { x * y }

  function Distance(x: nat, y: nat): nat { if x < y then y - x else x - y }

  lemma MulStep(a: int, b: int, d: int)
    requires a < b && d > 0
    ensures a * d + d <= b * d
  {
    assert 0 <= (b - a - 1) * d;
    assert (b - a - 1) * d == b * d - a * d - d;
  }

  lemma MulAtLeast(a: int, b: int, d: int)
    requires a <= b && d >= 0
    ensures a * d <= b * d
  {
    assert 0 <= (b - a) * d;
  }

  lemma Regroup(q: int, d: int, r: int, c: int)
    ensures (q * d + r) * c == q * (d * c) + r * c
  {
  }

  /** Quotient and remainder are what they are recognised by. */
  lemma DivModUnique(x: nat, d: nat, q: nat, r: nat)
    requires d > 0 && x == q * d + r && r < d
    ensures x / d == q && x % d == r
  {
    DivModDefinition(x, d);
    if q > x / d {
      MulStep(x / d, q, d);
    } else if q < x / d {
      MulStep(q, x / d, d);
    }
  }

  lemma DivModDefinition(x: nat, d: nat)
    requires d > 0
    ensures x == (x / d) * d + x % d && x % d < d
  {
  }

  /** Bit `k` of a binary number. */
  function Bit(x: nat, k: nat): bool { x / Pow2(k) % 2 == 1 }

  /** The remainder modulo a power, split at its top bit. */
  lemma TopBitOfRemainder(x: nat, k: nat)
    requires k > 0
    ensures x % Pow2(k) == (if Bit(x, k - 1) then Pow2(k - 1) else 0) + x % Pow2(k - 1)
    ensures x / Pow2(k - 1) == 2 * (x / Pow2(k)) + (if Bit(x, k - 1) then 1 else 0)
  {
    assert Pow2(k) == 2 * Pow2(k - 1);
    TopBitSplit(x, Pow2(k - 1));
    assert x / Pow2(k) == x / Pow2(k - 1) / 2;
  }

  lemma TopBitSplit(x: nat, d: nat)
    requires d > 0
    ensures x / (2 * d) == x / d / 2
    ensures x % (2 * d) == (if x / d % 2 == 1 then d else 0) + x % d
  {
    var y, r := x / d, x % d;
    var h := y / 2;
    DivModDefinition(x, d);
    if y % 2 == 1 {
      Regroup(h, 2, 1, d);
      assert y == h * 2 + 1;
      DivModUnique(x, 2 * d, h, d + r);
    } else {
      Regroup(h, 2, 0, d);
      assert y == h * 2;
      DivModUnique(x, 2 * d, h, r);
    }
  }

  lemma ScaledBy(x: nat, c: nat, d: nat)
    requires c > 0 && d > 0
    ensures d * c > 0 && x * c / (d * c) == x / d && x * c % (d * c) == x % d * c
  {
    DivModDefinition(x, d);
    Regroup(x / d, d, x % d, c);
    MulStep(x % d, d, c);
    DivModUnique(Mul(x, c), Mul(d, c), x / d, Mul(x % d, c));
  }

  /** Scaling by a power of two moves quotients and remainders along. */
  lemma ScaledDivMod(x: nat, j: nat, k: nat)
    ensures x * Pow2(j) / Pow2(k + j) == x / Pow2(k)
    ensures x * Pow2(j) % Pow2(k + j) == x % Pow2(k) * Pow2(j)
  {
    Pow2Adds(k, j);
    ScaledBy(x, Pow2(j), Pow2(k));
  }
}
