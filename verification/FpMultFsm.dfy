/**
 * The multiplier as the two clocked state machines it is, its step counter included,
 * and the widths for which they deliver the datapath's result. The multiplier's `done`
 * is read by the control machine as a register: as it was before the clock edge.
 */
module FpMultFsm {
  import opened Powers
  import opened ShiftAdd
  import opened FpMult

  /** The operands and mode, held stable while the unit works. */
  datatype Inputs = Inputs(p: nat, q: nat, a: nat, b: nat, expIn: int, mode: nat, negative: bool)

  /** Registers of `multiplier_fsm`. */
  datatype Mult = Mult(state: nat, pVector: nat, sig: Sig, shift: nat, done: bool)

  /** Registers of `control_fsm`. */
  datatype Control = Control(state: nat, sig: Sig, exp: int)

  datatype Regs = Regs(mult: Mult, control: Control)

  /** State 0011: shift a result below the normal range into place. In the normal range
      nothing happens. */
  function Denormalise(p: nat, q: nat, expIn: int, sig: Sig, exp: int): (Sig, int) {
    if exp < 1 && exp > 1 - (Pow2(if q > 0 then q - 1 else 0) - 1) then
      if expIn + p > 0 then
        var trunc: nat := -exp % Pow2(Clog2(p + 1));
        (Sig(High(sig.product, trunc + 1), Bit(sig.product, trunc), false,
             if exp == 0 then sig.r || sig.s else sig.r || sig.s || Low(sig.product, trunc) != 0), 0)
      else (Sig(0, false, false, sig.g || sig.r || sig.s || sig.product != 0), 0)
    else (sig, exp)
  }

  /** What the multiplier's last state makes of the product register. */
  function Finish(i: Inputs, v: nat): (Sig, nat)
    requires i.p >= 3
  {
    var lz := LeadingZeros(2 * i.p, v, 2 * i.p - 1);
    var cap := LeadingZeroCap(i.q, i.expIn, lz);
    (Normalise(i.p, v, lz, cap), if cap > 1 then (cap - 1) % Pow2(Clog2(i.p)) else 0)
  }

  /** The step counter holds `$clog2(P+1)` bits. */
  function Counted(p: nat, n: nat): nat { n % Pow2(Clog2(p + 1)) }

  /** It is compared with P + 1 and P + 2 cut to four bits. */
  function LastStep(p: nat): nat { (p + 1) % 16 }

  function DoneStep(p: nat): nat { (p + 2) % 16 }

  /** The multiplier's next registers. */
  function MultNext(i: Inputs, m: Mult, start: bool): Mult
    requires i.p >= 3
  {
    Mult(if m.state == 0 then (if start then 1 else 0) else if m.state <= LastStep(i.p) then Counted(i.p, m.state + 1) else 0,
         if m.state == 0 then (if start then i.a else m.pVector) else Step(i.p, m.pVector, i.b),
         if m.state == LastStep(i.p) then Finish(i, m.pVector).0 else m.sig,
         if m.state == LastStep(i.p) then Finish(i, m.pVector).1 else m.shift,
         m.state == DoneStep(i.p))
  }

  /** The control machine's next registers, up to the state that writes the outputs. */
  function ControlNext(i: Inputs, c: Control, m: Mult, start: bool): Control
    requires i.p >= 3
  {
    match c.state
    case 0 => if start then c.(state := 1) else c
    case 1 => if m.done then Control(2, m.sig, c.exp) else c
    case 2 => var (sig, exp) := Adjust(i.p, i.q, i.expIn, m.shift, c.sig); Control(3, sig, exp)
    case 3 => var (sig, exp) := Denormalise(i.p, i.q, i.expIn, c.sig, c.exp); Control(4, sig, exp)
    case 4 => Control(5, c.sig.(product := Round(i.p, i.mode, i.negative, c.sig)), c.exp)
    case 5 =>
      var (product, exp) := Renormalise(i.p, i.q, i.expIn, c.sig.product, c.exp);
      Control(6, c.sig.(product := product), exp)
    case 6 => c.(state := 7)
    case _ => c.(state := 0)
  }

  /** One clock edge for both. The multiplier is started by the control machine, in its
      idle state only. */
  function Next(i: Inputs, r: Regs, start: bool): Regs
    requires i.p >= 3
  {
    Regs(MultNext(i, r.mult, start && r.control.state == 0), ControlNext(i, r.control, r.mult, start))
  }

  class FpUnit {
    const inputs: Inputs
    var curState: nat
    var pVector: nat
    /** The registers `product`, `g`, `r` and `s`. */
    var sig: Sig
    var exponentShift: nat
    var mDone: bool
    var controlState: nat
    /** The registers `control_product_cur`, `g_control_cur`, `r_control_cur`, `s_control_cur`. */
    var controlSig: Sig
    var expControl: int

    ghost function Now(): Regs
      reads this
    {
      Regs(Mult(curState, pVector, sig, exponentShift, mDone), Control(controlState, controlSig, expControl))
    }

    /** Reset clears the states; the other registers hold anything. */
    constructor (i: Inputs, other: Regs)
      ensures inputs == i && Now() == Regs(other.mult.(state := 0), other.control.(state := 0))
    {
      inputs := i;
      curState, pVector, exponentShift, mDone := 0, other.mult.pVector, other.mult.shift, other.mult.done;
      sig, controlState, controlSig, expControl := other.mult.sig, 0, other.control.sig, other.control.exp;
    }

    /** `multiplier_fsm` on a clock edge. */
    method ClockMultiplier(start: bool)
      requires inputs.p >= 3
      modifies this`curState, this`pVector, this`sig, this`exponentShift, this`mDone
      ensures Now() == old(Now()).(mult := MultNext(inputs, old(Now()).mult, start))
    {
      if curState == LastStep(inputs.p) {
        var (sig', shift) := Finish(inputs, pVector);
        sig, exponentShift := sig', shift;
      }
      mDone := curState == DoneStep(inputs.p);
      if curState == 0 {
        if start { pVector, curState := inputs.a, 1; }
      } else {
        pVector := Step(inputs.p, pVector, inputs.b);
        curState := if curState <= LastStep(inputs.p) then Counted(inputs.p, curState + 1) else 0;
      }
    }

    /** `control_fsm` on a clock edge. */
    method ClockControl(start: bool)
      requires inputs.p >= 3
      modifies this`controlState, this`controlSig, this`expControl
      ensures Now() == old(Now()).(control := ControlNext(inputs, old(Now()).control, old(Now()).mult, start))
    {
      if controlState == 0 {
        controlState := if start then 1 else 0;
      } else if controlState == 1 {
        if mDone { controlState, controlSig := 2, sig; }
      } else if controlState == 2 {
        var (sig', exp) := Adjust(inputs.p, inputs.q, inputs.expIn, exponentShift, controlSig);
        controlState, controlSig, expControl := 3, sig', exp;
      } else if controlState == 3 {
        var (sig', exp) := Denormalise(inputs.p, inputs.q, inputs.expIn, controlSig, expControl);
        controlState, controlSig, expControl := 4, sig', exp;
      } else if controlState == 4 {
        controlSig := controlSig.(product := Round(inputs.p, inputs.mode, inputs.negative, controlSig));
        controlState := 5;
      } else if controlState == 5 {
        var (product, exp) := Renormalise(inputs.p, inputs.q, inputs.expIn, controlSig.product, expControl);
        controlState, controlSig, expControl := 6, controlSig.(product := product), exp;
      } else {
        controlState := if controlState == 6 then 7 else 0;
      }
    }

    /** One clock edge: both machines read the registers as they were. */
    method Clock(start: bool)
      requires inputs.p >= 3
      modifies this
      ensures Now() == Next(inputs, old(Now()), start)
    {
      var mStart := start && controlState == 0;
      ClockControl(start);
      ClockMultiplier(mStart);
    }

    /** Clocks the unit through a multiplication. */
    method Run(starts: seq<bool>)
      requires inputs.p >= 3
      modifies this
      ensures Now() == After(inputs, old(Now()), starts)
    {
      var n := 0;
      while n < |starts|
        invariant 0 <= n <= |starts| && Now() == After(inputs, old(Now()), starts[..n])
      {
        assert starts[..n + 1][..n] == starts[..n];
        Clock(starts[n]);
        n := n + 1;
      }
      assert starts[..n] == starts;
    }
  }

  /** The registers after the given start inputs, one per clock edge. */
  function After(i: Inputs, r: Regs, starts: seq<bool>): Regs
    requires i.p >= 3
  {
    if starts == [] then r else Next(i, After(i, r, starts[..|starts| - 1]), starts[|starts| - 1])
  }

  ghost predicate Idle(r: Regs) { r.mult.state == 0 && r.control.state == 0 }

  /** The counter and the constants it is compared with are wide enough for P + 2. */
  predicate CounterFits(p: nat) { p + 2 < Pow2(Clog2(p + 1)) && p + 2 < 16 }

  /** The widths whose counter fits. */
  lemma FittingWidths(p: nat)
    requires p >= 3
    ensures CounterFits(p) <==> p == 4 || p == 5 || 8 <= p <= 13
  {
    var k := Clog2(p + 1);
    assert Pow2(2) == 4 && Pow2(3) == 8 && Pow2(4) == 16;
    if k <= 1 {
      Pow2Monotonic(k, 1);
    } else if k >= 5 {
      Pow2Monotonic(4, k - 1);
    }
  }

  /** The counter reaches the step on which `done` is set, counting up to it from 0. */
  predicate Counts(p: nat) { 2 <= DoneStep(p) < Pow2(Clog2(p + 1)) }

  /** That is so for the fitting widths, and again from P = 14 on unless the cut constant
      is 0 or 1. */
  lemma CountingWidths(p: nat)
    requires p >= 3
    ensures Counts(p) <==> CounterFits(p) || (p >= 14 && DoneStep(p) >= 2)
    ensures CounterFits(p) ==> DoneStep(p) == p + 2
  {
    if p + 2 < 16 {
      DivModUnique(p + 2, 16, 0, p + 2);
    } else {
      SixteenFits(p);
    }
  }

  lemma SixteenFits(p: nat)
    requires p >= 14
    ensures 16 <= Pow2(Clog2(p + 1))
  {
    assert Pow2(3) == 8 && Pow2(4) == 16;
    if Clog2(p + 1) < 4 {
      Pow2Monotonic(Clog2(p + 1), 3);
    } else {
      Pow2Monotonic(4, Clog2(p + 1));
    }
  }

  lemma CountedFits(p: nat, n: nat)
    requires Counts(p) && n <= DoneStep(p)
    ensures Counted(p, n) == n && LastStep(p) == DoneStep(p) - 1
  {
    DivModUnique(n, Pow2(Clog2(p + 1)), 0, n);
    StepBeforeDone(p);
  }

  lemma StepBeforeDone(p: nat)
    requires DoneStep(p) > 0
    ensures LastStep(p) == DoneStep(p) - 1
  {
  }

  /** One step of the multiplication. */
  lemma StepsOn(i: Inputs, r: Regs, start: bool)
    requires i.p >= 3 && Counts(i.p) && 1 <= r.mult.state < LastStep(i.p) && r.control.state == 1 && !r.mult.done
    ensures var r' := Next(i, r, start);
      && r'.mult.state == r.mult.state + 1 && r'.mult.pVector == Step(i.p, r.mult.pVector, i.b)
      && !r'.mult.done && r'.control.state == 1
  {
    StepBeforeDone(i.p);
    CountedFits(i.p, r.mult.state + 1);
    assert MultNext(i, r.mult, false) == Mult(r.mult.state + 1, Step(i.p, r.mult.pVector, i.b), r.mult.sig, r.mult.shift, false);
  }

  /** While the multiplier steps, the control machine waits. */
  lemma {:induction false} WhileStepping(i: Inputs, r: Regs, starts: seq<bool>)
    requires i.p >= 3 && Counts(i.p) && Idle(r) && 1 <= |starts| <= LastStep(i.p) && starts[0]
    ensures var r' := After(i, r, starts);
      r'.mult.state == |starts| && r'.mult.pVector == Steps(i.p, i.a, i.b, |starts| - 1) && !r'.mult.done && r'.control.state == 1
  {
    var before := starts[..|starts| - 1];
    if |starts| == 1 {
      assert After(i, r, before) == r;
    } else {
      WhileStepping(i, r, before);
      StepsOn(i, After(i, r, before), starts[|starts| - 1]);
    }
  }

  lemma OneMore(i: Inputs, r: Regs, starts: seq<bool>, n: nat)
    requires i.p >= 3 && n < |starts|
    ensures After(i, r, starts[..n + 1]) == Next(i, After(i, r, starts[..n]), starts[n])
  {
    assert starts[..n + 1][..n] == starts[..n];
  }

  /** The multiplier is about to normalise this product. */
  ghost predicate LastStepTaken(i: Inputs, v: nat, r: Regs) {
    r.mult.state == LastStep(i.p) && r.mult.pVector == v && !r.mult.done && r.control.state == 1
  }

  /** The last step normalises the product into the result registers. */
  lemma Captures(i: Inputs, r: Regs, start: bool)
    requires i.p >= 3 && Counts(i.p) && LastStepTaken(i, r.mult.pVector, r)
    ensures var r' := Next(i, r, start);
      r'.mult.state == DoneStep(i.p) && !r'.mult.done && r'.control.state == 1
      && (r'.mult.sig, r'.mult.shift) == Finish(i, r.mult.pVector)
  {
    CountedFits(i.p, DoneStep(i.p));
  }

  /** Then `done` goes up, and the control machine takes the result over. */
  lemma TakesOver(i: Inputs, r: Regs, s: bool, t: bool)
    requires i.p >= 3 && Counts(i.p) && r.mult.state == DoneStep(i.p) && r.control.state == 1 && !r.mult.done
    ensures var r' := Next(i, Next(i, r, s), t);
      r'.control.state == 2 && r'.control.sig == r.mult.sig && r'.mult.shift == r.mult.shift
  {
    CountedFits(i.p, DoneStep(i.p));
    var m, c := MultNext(i, r.mult, false), ControlNext(i, r.control, r.mult, s);
    assert m.done && m.state == 0 && m.sig == r.mult.sig && m.shift == r.mult.shift && c == r.control;
    assert MultNext(i, m, false).shift == m.shift;
  }

  /** The control machine has this product, normalised. */
  ghost predicate HandedOver(i: Inputs, v: nat, r: Regs)
    requires i.p >= 3
  {
    r.control.state == 2 && (r.control.sig, r.mult.shift) == Finish(i, v)
  }

  /** How many of the P steps are taken before the product is captured. */
  function StepsTaken(p: nat): nat { if DoneStep(p) >= 2 then DoneStep(p) - 2 else 0 }

  /** The product as far as it has got is normalised and handed over. */
  lemma ThenHandsOver(i: Inputs, r: Regs, starts: seq<bool>)
    requires i.p >= 3 && Counts(i.p) && Idle(r) && |starts| >= DoneStep(i.p) + 2 && starts[0]
    ensures HandedOver(i, Steps(i.p, i.a, i.b, StepsTaken(i.p)), After(i, r, starts[..DoneStep(i.p) + 2]))
  {
    AtLastStep(i, r, starts);
    ThenThree(i, r, starts, DoneStep(i.p) - 1);
  }

  lemma AtLastStep(i: Inputs, r: Regs, starts: seq<bool>)
    requires i.p >= 3 && Counts(i.p) && Idle(r) && |starts| >= DoneStep(i.p) + 2 && starts[0]
    ensures LastStepTaken(i, Steps(i.p, i.a, i.b, StepsTaken(i.p)), After(i, r, starts[..DoneStep(i.p) - 1]))
  {
    StepBeforeDone(i.p);
    WhileStepping(i, r, starts[..DoneStep(i.p) - 1]);
  }

  lemma ThenThree(i: Inputs, r: Regs, starts: seq<bool>, n: nat)
    requires i.p >= 3 && Counts(i.p) && n + 3 <= |starts|
    requires LastStepTaken(i, After(i, r, starts[..n]).mult.pVector, After(i, r, starts[..n]))
    ensures HandedOver(i, After(i, r, starts[..n]).mult.pVector, After(i, r, starts[..n + 3]))
  {
    ThreeMore(i, r, starts, n);
    HandsOver(i, After(i, r, starts[..n]), starts[n], starts[n + 1], starts[n + 2]);
  }

  lemma ThreeMore(i: Inputs, r: Regs, starts: seq<bool>, n: nat)
    requires i.p >= 3 && n + 3 <= |starts|
    ensures After(i, r, starts[..n + 3]) ==
      Next(i, Next(i, Next(i, After(i, r, starts[..n]), starts[n]), starts[n + 1]), starts[n + 2])
  {
    OneMore(i, r, starts, n);
    OneMore(i, r, starts, n + 1);
    OneMore(i, r, starts, n + 2);
  }

  /** Three edges from the last step. */
  lemma HandsOver(i: Inputs, r: Regs, s: bool, t: bool, u: bool)
    requires i.p >= 3 && Counts(i.p) && LastStepTaken(i, r.mult.pVector, r)
    ensures HandedOver(i, r.mult.pVector, Next(i, Next(i, Next(i, r, s), t), u))
  {
    Captures(i, r, s);
    TakesOver(i, Next(i, r, s), t, u);
  }

  /** Rounding and renormalising, the control machine's states 0100 and 0101. */
  function RoundOff(i: Inputs, sig: Sig, exp: int): (nat, int) {
    Renormalise(i.p, i.q, i.expIn, Round(i.p, i.mode, i.negative, sig), exp)
  }

  /** What the control machine makes of a normalised product. */
  function Delivered(i: Inputs, sig0: Sig, shift: nat): (nat, int)
    requires i.p >= 3
  {
    var (sig1, exp1) := Adjust(i.p, i.q, i.expIn, shift, sig0);
    var (sig, exp) := Denormalise(i.p, i.q, i.expIn, sig1, exp1);
    RoundOff(i, sig, exp)
  }

  /** What the control machine makes of the product register. */
  function FromProduct(i: Inputs, v: nat): (nat, int)
    requires i.p >= 3
  {
    var (sig, shift) := Finish(i, v);
    Delivered(i, sig, shift)
  }

  /** The whole datapath, whatever the operands. */
  function Datapath(i: Inputs): (nat, int)
    requires i.p >= 3
  {
    FromProduct(i, Steps(i.p, i.a, i.b, i.p))
  }

  /** Four edges of the control machine, from the handed-over product to the last state. */
  lemma ControlFinishes(i: Inputs, c: Control, m: Mult, m3: Mult, m4: Mult, m5: Mult, s: bool)
    requires i.p >= 3 && c.state == 2
    ensures var c3 := ControlNext(i, c, m, s);
      var c6 := ControlNext(i, ControlNext(i, ControlNext(i, c3, m3, s), m4, s), m5, s);
      c6.state == 6 && (c6.sig.product, c6.exp) == Delivered(i, c.sig, m.shift)
  {
    var (sig1, exp1) := Adjust(i.p, i.q, i.expIn, m.shift, c.sig);
    var (sig, exp) := Denormalise(i.p, i.q, i.expIn, sig1, exp1);
    var c3 := ControlNext(i, c, m, s);
    assert c3 == Control(3, sig1, exp1);
    assert ControlNext(i, c3, m3, s) == Control(4, sig, exp);
  }

  /** Outside the idle state the start input does not matter to the control machine. */
  lemma StartIgnored(i: Inputs, c: Control, m: Mult, s: bool, t: bool)
    requires i.p >= 3 && c.state > 0
    ensures ControlNext(i, c, m, s) == ControlNext(i, c, m, t)
  {
  }

  /** Four edges in a row. */
  lemma FourMore(i: Inputs, r: Regs, starts: seq<bool>, n: nat)
    requires i.p >= 3 && n + 4 == |starts| && After(i, r, starts[..n]).control.state == 2
    ensures var r2 := After(i, r, starts[..n]);
      var c := After(i, r, starts).control;
      c.state == 6 && (c.sig.product, c.exp) == Delivered(i, r2.control.sig, r2.mult.shift)
  {
    var r2, r3 := After(i, r, starts[..n]), After(i, r, starts[..n + 1]);
    var r4, r5 := After(i, r, starts[..n + 2]), After(i, r, starts[..n + 3]);
    OneMore(i, r, starts, n);
    OneMore(i, r, starts, n + 1);
    OneMore(i, r, starts, n + 2);
    OneMore(i, r, starts, n + 3);
    assert starts[..n + 4] == starts;
    StartIgnored(i, r2.control, r2.mult, starts[n], false);
    StartIgnored(i, r3.control, r3.mult, starts[n + 1], false);
    StartIgnored(i, r4.control, r4.mult, starts[n + 2], false);
    StartIgnored(i, r5.control, r5.mult, starts[n + 3], false);
    ControlFinishes(i, r2.control, r2.mult, r3.mult, r4.mult, r5.mult, false);
  }

  /**
   * What the machines deliver, and when. For every width whose counter reaches its last
   * step, DoneStep + 6 clock edges after reset, the first with `start` set and the others
   * arbitrary, the control machine is about to write what the datapath makes of the product
   * after DoneStep - 2 of its P steps: the low bits of one operand times the other, above
   * the bits still to come.
   */
  lemma MachineDelivers(i: Inputs, r: Regs, starts: seq<bool>)
    requires i.p >= 3 && Counts(i.p) && i.a < Pow2(i.p) && i.b < Pow2(i.p)
    requires Idle(r) && |starts| == DoneStep(i.p) + 6 && starts[0]
    ensures var c := After(i, r, starts).control;
      && StepsTaken(i.p) <= i.p
      && c.state == 6 && (c.sig.product, c.exp) == FromProduct(i, Partial(i.p, i.a, i.b, StepsTaken(i.p)))
  {
    DoneStepBound(i.p);
    ThenHandsOver(i, r, starts);
    FourMore(i, r, starts, DoneStep(i.p) + 2);
    StepsArePartial(i.p, i.a, i.b, StepsTaken(i.p));
  }

  lemma DoneStepBound(p: nat)
    ensures DoneStep(p) <= p + 2
  {
  }

  /**
   * P + 8 clock edges after reset, the first with `start` set and the others arbitrary,
   * the control machine is about to write its outputs and holds the datapath's result,
   * for all operands, if the step counter fits.
   */
  lemma MachineComputes(i: Inputs, r: Regs, starts: seq<bool>)
    requires i.p >= 3 && CounterFits(i.p) && Idle(r) && |starts| == i.p + 8 && starts[0]
    ensures var c := After(i, r, starts).control; c.state == 6 && (c.sig.product, c.exp) == Datapath(i)
  {
    CountingWidths(i.p);
    ThenHandsOver(i, r, starts);
    FourMore(i, r, starts, DoneStep(i.p) + 2);
  }

  /** For results that are not below the normal range, this is the correctly rounding
      multiplication. */
  lemma DatapathMultiplies(i: Inputs)
    requires i.p >= 3 && InNormalRange(i.p, i.q, i.a, i.b, i.expIn)
    ensures Datapath(i) == Multiply(i.p, i.q, i.a, i.b, i.expIn, i.mode, i.negative)
  {
    NormalExponent(i);
  }

  /** The machine multiplies. */
  lemma MachineComputesMultiply(i: Inputs, r: Regs, starts: seq<bool>)
    requires i.p >= 3 && CounterFits(i.p) && InNormalRange(i.p, i.q, i.a, i.b, i.expIn)
    requires Idle(r) && |starts| == i.p + 8 && starts[0]
    ensures var c := After(i, r, starts).control;
      c.state == 6 && (c.sig.product, c.exp) == Multiply(i.p, i.q, i.a, i.b, i.expIn, i.mode, i.negative)
  {
    MachineComputes(i, r, starts);
    DatapathMultiplies(i);
  }

  /** The last step by its leading zeros, cap and shift. */
  lemma FinishCapped(i: Inputs, m: nat, lz: nat, cap: nat, j: nat)
    requires i.p >= 3 && lz == LeadingZeros(2 * i.p, m, 2 * i.p - 1) && cap == LeadingZeroCap(i.q, i.expIn, lz)
    requires j == if cap > 1 then (cap - 1) % Pow2(Clog2(i.p)) else 0
    ensures Finish(i, m) == (Normalise(i.p, m, lz, cap), j)
  {
  }

  lemma FinishInRange(i: Inputs)
    requires i.p >= 3 && InNormalRange(i.p, i.q, i.a, i.b, i.expIn)
    ensures var lz := LeadingZeros(2 * i.p, i.a * i.b, 2 * i.p - 1);
      Finish(i, Steps(i.p, i.a, i.b, i.p)) == (Normalise(i.p, i.a * i.b, lz, lz), ShiftOf(i.p, i.a, i.b))
  {
    var m := i.a * i.b;
    var lz := LeadingZeros(2 * i.p, m, 2 * i.p - 1);
    ShiftAddMultiplies(i.p, i.a, i.b);
    CapIsLeadingZeros(i.p, i.q, i.a, i.b, i.expIn);
    FinishCapped(i, m, lz, lz, ShiftOf(i.p, i.a, i.b));
  }

  /** In the normal range the exponent after adjustment is at least 1. */
  lemma NormalExponent(i: Inputs)
    requires i.p >= 3 && InNormalRange(i.p, i.q, i.a, i.b, i.expIn)
    ensures var (sig, shift) := Finish(i, Steps(i.p, i.a, i.b, i.p));
      Adjust(i.p, i.q, i.expIn, shift, sig).1 >= 1
  {
    FinishInRange(i);
    BeforeRounding(i.p, i.q, i.a, i.b, i.expIn);
    if LeadingZeros(2 * i.p, i.a * i.b, 2 * i.p - 1) == 0 {
      LeadingZerosBound(2 * i.p, i.a * i.b);
      Unshifted(i.p, i.a, i.b);
      assert Dropped(i.p, Vector(i.p, i.a, i.b)) == i.p;
    }
  }

  // ------------------------------------------------------------- the counter

  /** `start` for one clock edge. */
  function Pulse(n: nat): (starts: seq<bool>)
    ensures |starts| == n
  {
    seq(n, k => k == 0)
  }

  /** What decides when things happen: the step counter, `done` and the control state. */
  datatype Tempo = Tempo(count: nat, done: bool, control: nat)

  function TempoOf(r: Regs): Tempo { Tempo(r.mult.state, r.mult.done, r.control.state) }

  function Beat(p: nat, t: Tempo, start: bool): Tempo {
    Tempo(if t.count == 0 then (if start && t.control == 0 then 1 else 0)
          else if t.count <= LastStep(p) then Counted(p, t.count + 1) else 0,
          t.count == DoneStep(p),
          if t.control == 0 then (if start then 1 else 0)
          else if t.control == 1 then (if t.done then 2 else 1)
          else if t.control < 7 then t.control + 1 else 0)
  }

  /** The tempo `n` edges after the machines are started for one edge. */
  function TempoAfter(p: nat, t: Tempo, n: nat): Tempo {
    if n == 0 then t else Beat(p, TempoAfter(p, t, n - 1), n == 1)
  }

  lemma BeatOfNext(i: Inputs, r: Regs, start: bool)
    requires i.p >= 3
    ensures TempoOf(Next(i, r, start)) == Beat(i.p, TempoOf(r), start)
  {
  }

  lemma {:induction false} TempoFollows(i: Inputs, r: Regs, n: nat)
    requires i.p >= 3
    ensures TempoOf(After(i, r, Pulse(n))) == TempoAfter(i.p, TempoOf(r), n)
  {
    if n == 0 {
      assert After(i, r, Pulse(0)) == r;
    } else {
      TempoFollows(i, r, n - 1);
      assert Pulse(n)[..n - 1] == Pulse(n - 1);
      BeatOfNext(i, After(i, r, Pulse(n - 1)), n == 1);
    }
  }

  /** A counter too narrow for P + 2 never reaches it: the control machine waits for ever. */
  lemma {:induction false} NeverDone(p: nat, t: Tempo, n: nat)
    requires p >= 3 && Pow2(Clog2(p + 1)) <= p + 2 < 16 && n >= 1 && t.count == t.control == 0
    ensures var t' := TempoAfter(p, t, n); t'.count < p + 2 && !t'.done && t'.control == 1
  {
    if n == 1 {
      assert TempoAfter(p, t, 0) == t;
    } else {
      NeverDone(p, t, n - 1);
    }
  }

  /** Constants cut to four bits are reached early. */
  lemma {:induction false} CountsUp(p: nat, t: Tempo, n: nat)
    requires p >= 14 && 1 <= n <= DoneStep(p) && t.count == t.control == 0
    ensures TempoAfter(p, t, n) == Tempo(n, false, 1)
  {
    if n == 1 {
      assert TempoAfter(p, t, 0) == t;
    } else {
      CountsUp(p, t, n - 1);
      CountedWide(p, n);
      StepBeforeDone(p);
      assert TempoAfter(p, t, n) == Beat(p, Tempo(n - 1, false, 1), false);
    }
  }

  lemma CountedWide(p: nat, n: nat)
    requires p >= 14 && n < 16
    ensures Counted(p, n) == n
  {
    SixteenFits(p);
    DivModUnique(n, Pow2(Clog2(p + 1)), 0, n);
  }

  /** The control machine after `done` has come early: it runs through its states. */
  lemma {:induction false} RunsThrough(p: nat, t: Tempo, n: nat)
    requires p >= 14 && n >= 1 && t.count == t.control == 0
    ensures var t' := TempoAfter(p, t, DoneStep(p) + n);
      t'.control == (if n < 8 then n else 0) && (n == 1 ==> t'.done)
  {
    if n > 1 {
      RunsThrough(p, t, n - 1);
    } else if DoneStep(p) > 0 {
      CountsUp(p, t, DoneStep(p));
    } else {
      assert TempoAfter(p, t, 0) == t;
    }
  }

  /** P exceeds what its cut constant allows for by a multiple of 16. */
  lemma DoneStepBelow(p: nat)
    requires p >= 14
    ensures DoneStep(p) <= p
  {
  }

  /**
   * For which widths the machine works. Started for one clock edge in any state of its
   * other registers, it is about to write the datapath's result after P + 8 edges if and
   * only if the counter fits. For P = 3, 6 and 7 it never finishes; from P = 14 on it has
   * come to the end too early.
   */
  lemma MachineExact(i: Inputs, r: Regs)
    requires i.p >= 3 && Idle(r)
    ensures var c := After(i, r, Pulse(i.p + 8)).control;
      c.state == 6 && (c.sig.product, c.exp) == Datapath(i) <==> CounterFits(i.p)
  {
    if CounterFits(i.p) {
      MachineComputes(i, r, Pulse(i.p + 8));
    } else {
      TempoFollows(i, r, i.p + 8);
      if i.p + 2 < 16 {
        NeverDone(i.p, TempoOf(r), i.p + 8);
      } else {
        DoneStepBelow(i.p);
        RunsThrough(i.p, TempoOf(r), i.p + 8 - DoneStep(i.p));
      }
    }
  }
}
