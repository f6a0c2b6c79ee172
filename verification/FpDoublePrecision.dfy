/**
 * The multiplier at the width of double precision, P = 53, whose step counter stops after
 * 5 of 53 steps; and what it makes of one times one.
 */
module FpDoublePrecision {
  import opened Powers
  import opened ShiftAdd
  import opened FpMult
  import opened FpMultFsm

  lemma CapOfLeadingZeros(q: nat, expIn: int, lz: nat)
    requires lz <= expIn < Pow2(q)
    ensures LeadingZeroCap(q, expIn, lz) == lz
  {
    DivModUnique(expIn, Pow2(q + 1), 0, expIn);
  }

  /** A significand of a single bit and nothing below it. */
  function SingleBit(n: nat): Sig { Sig(Pow2(n), false, false, false) }

  /** Such a significand at the top passes through rounding unchanged. */
  lemma DeliversPower(i: Inputs, sig0: Sig, shift: nat, exp: int)
    requires i.p >= 3 && exp >= 1 && Adjust(i.p, i.q, i.expIn, shift, sig0) == (SingleBit(i.p - 1), exp)
    ensures Delivered(i, sig0, shift) == (Pow2(i.p - 1), exp)
  {
    assert Denormalise(i.p, i.q, i.expIn, SingleBit(i.p - 1), exp) == (SingleBit(i.p - 1), exp);
    assert Round(i.p, i.mode, i.negative, SingleBit(i.p - 1)) == Pow2(i.p - 1) by {
      assert Pow2(i.p - 1) == 2 * Pow2(i.p - 2);
    }
    NoCarry(i.p);
  }

  lemma NoCarry(p: nat)
    requires p > 0
    ensures !Bit(Pow2(p - 1), p) && Bit(Pow2(p - 1), p - 1)
  {
    TopBit(Pow2(p - 1), p);
    TopBit(Pow2(p - 1), p - 1);
  }

  // ------------------------------------------------------------- all steps taken

  lemma OneFinish(i: Inputs)
    requires i.p >= 3 && 1 <= i.expIn < Pow2(i.q)
    ensures Finish(i, Pow2(2 * i.p - 2)) == (SingleBit(i.p - 2), 0)
  {
    var p := i.p;
    LeadingZerosUnique(2 * p, Pow2(2 * p - 2), 1);
    CapOfLeadingZeros(i.q, i.expIn, 1);
    FinishCapped(i, Pow2(2 * p - 2), 1, 1, 0);
    PowerBits(2 * p - 2, p);
    PowerBits(2 * p - 2, p - 1);
    PowerBits(2 * p - 2, p - 2);
  }

  lemma OneAdjust(p: nat, q: nat, expIn: int)
    requires p >= 3 && 0 <= expIn < Pow2(q)
    ensures Adjust(p, q, expIn, 0, SingleBit(p - 2)) == (SingleBit(p - 1), expIn)
  {
    assert Pow2(p - 1) == 2 * Pow2(p - 2);
    DivModUnique(Pow2(p - 2), Pow2(p - 1), 0, Pow2(p - 2));
    WrapSmall(q, expIn);
  }

  lemma OneProduct(p: nat, h: nat)
    requires p >= 3 && h == Pow2(p - 1)
    ensures Steps(p, h, h, p) == Pow2(2 * p - 2)
  {
    HalfBelow(p);
    Pow2Adds(p - 1, p - 1);
    ShiftAddMultiplies(p, h, h);
  }

  lemma HalfBelow(p: nat)
    requires p > 0
    ensures Pow2(p - 1) < Pow2(p)
  {
  }

  /** One times one is one where the machine takes all its steps. */
  lemma OneTimesOne(i: Inputs)
    requires i.p >= 3 && i.a == i.b == Pow2(i.p - 1) && 1 <= i.expIn < Pow2(i.q)
    ensures Datapath(i) == (Pow2(i.p - 1), i.expIn)
  {
    OneProduct(i.p, i.a);
    OneFinish(i);
    OneAdjust(i.p, i.q, i.expIn);
    DeliversPower(i, SingleBit(i.p - 2), 0, i.expIn);
  }

  // ------------------------------------------------------------- stopped early

  /** After `n` steps the same operands have left only a single bit of one of them. */
  lemma EarlyOne(p: nat, n: nat)
    requires p >= 3 && n < p
    ensures Partial(p, Pow2(p - 1), Pow2(p - 1), n) == Pow2(p - 1 - n)
  {
    PowerBits(p - 1, n);
    assert Mul(Mul(0, Pow2(p - 1)), Pow2(p - n)) == 0;
  }

  /** More than P + 1 leading zeros are all removed at once. */
  lemma EarlyFinish(i: Inputs, k: nat)
    requires i.p >= 3 && k + 3 <= i.p && 2 * i.p - 1 - k <= i.expIn < Pow2(i.q)
    ensures Finish(i, Pow2(k)).0 == SingleBit(i.p - 1)
  {
    var p, lz: nat := i.p, 2 * i.p - 1 - k;
    LeadingZerosUnique(2 * p, Pow2(k), lz);
    CapOfLeadingZeros(i.q, i.expIn, lz);
    TopOfPower(p, k, lz);
    FinishCapped(i, Pow2(k), lz, lz, (lz - 1) % Pow2(Clog2(p)));
  }

  lemma TopOfPower(p: nat, k: nat, lz: nat)
    requires p >= 3 && k + lz == 2 * p - 1
    ensures UpperBits(p, lz, Pow2(k)) == Pow2(p - 1)
  {
    Pow2Adds(k, lz);
    DivModUnique(Pow2(2 * p - 1), Pow2(2 * p), 0, Pow2(2 * p - 1));
    PowerBits(2 * p - 1, p);
  }

  lemma EarlyAdjust(p: nat, q: nat, expIn: int, shift: nat)
    requires p >= 3 && 0 <= expIn < Pow2(q) - 1
    ensures Adjust(p, q, expIn, shift, SingleBit(p - 1)) == (SingleBit(p - 1), expIn + 1)
  {
    NoCarry(p);
    WrapSmall(q, expIn + 1);
  }

  /** What the datapath makes of a single low bit: it forgets how far it has shifted. */
  lemma EarlyOneDelivers(i: Inputs, k: nat)
    requires i.p >= 3 && k + 3 <= i.p && 2 * i.p - 1 - k <= i.expIn < Pow2(i.q) - 1
    ensures FromProduct(i, Pow2(k)) == (Pow2(i.p - 1), i.expIn + 1)
  {
    EarlyFinish(i, k);
    EarlyAdjust(i.p, i.q, i.expIn, Finish(i, Pow2(k)).1);
    DeliversPower(i, SingleBit(i.p - 1), Finish(i, Pow2(k)).1, i.expIn + 1);
  }

  // ------------------------------------------------------------- the machine

  /**
   * One times one at every width whose counter stops after at least two steps but too
   * early: the datapath makes it one, and the machine is about to write two.
   */
  lemma OneTimesOneDoubled(i: Inputs, r: Regs, starts: seq<bool>)
    requires i.p >= 14 && DoneStep(i.p) >= 4 && i.a == i.b == Pow2(i.p - 1)
    requires i.p + StepsTaken(i.p) <= i.expIn < Pow2(i.q) - 1
    requires Idle(r) && |starts| == DoneStep(i.p) + 6 && starts[0]
    ensures var c := After(i, r, starts).control;
      && c.state == 6 && (c.sig.product, c.exp) == (Pow2(i.p - 1), i.expIn + 1)
      && Datapath(i) == (Pow2(i.p - 1), i.expIn)
  {
    HalfBelow(i.p);
    CountingWidths(i.p);
    MachineDelivers(i, r, starts);
    StepsFew(i.p);
    EarlyOne(i.p, StepsTaken(i.p));
    EarlyOneDelivers(i, i.p - 1 - StepsTaken(i.p));
    OneTimesOne(i);
  }

  lemma StepsFew(p: nat)
    requires p >= 14 && DoneStep(p) >= 4
    ensures 2 <= StepsTaken(p) < p
  {
  }

  lemma StopsAtSeven(p: nat)
    requires p == 53
    ensures DoneStep(p) == 7 && StepsTaken(p) == 5 && Counts(p)
  {
    CountingWidths(p);
  }

  /** Thirteen edges after start, for any operands in double precision, the machine is about
      to write what it makes of the five low bits of one operand times the other, above the
      other 48. */
  lemma DoublePrecisionDelivers(i: Inputs, r: Regs, starts: seq<bool>)
    requires i.p == 53 && i.a < Pow2(i.p) && i.b < Pow2(i.p)
    requires Idle(r) && |starts| == 13 && starts[0]
    ensures var c := After(i, r, starts).control;
      c.state == 6 && (c.sig.product, c.exp) == FromProduct(i, Partial(i.p, i.a, i.b, 5))
  {
    StopsAtSeven(i.p);
    MachineDelivers(i, r, starts);
  }

  lemma ElevenBits(q: nat)
    requires q == 11
    ensures Pow2(q) == 2048
  {
    assert Pow2(3) == 8 && Pow2(4) == 16;
    Pow2Adds(4, 4);
    Pow2Adds(8, 3);
  }

  /** In double precision one times one is about to be written as two. */
  lemma OneTimesOneIsTwo(i: Inputs, r: Regs, starts: seq<bool>)
    requires i.p == 53 && i.q == 11 && i.a == i.b == Pow2(i.p - 1) && i.expIn == 1023
    requires Idle(r) && |starts| == 13 && starts[0]
    ensures var c := After(i, r, starts).control;
      && c.state == 6 && (c.sig.product, c.exp) == (Pow2(i.p - 1), i.expIn + 1)
      && Datapath(i) == (Pow2(i.p - 1), i.expIn)
  {
    StopsAtSeven(i.p);
    ElevenBits(i.q);
    OneTimesOneDoubled(i, r, starts);
  }
}
