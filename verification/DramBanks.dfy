/** The DRAM bank tracker and the scheduler's command selection, cycle by cycle. */
module DramBanks {

  /** The registers of one bank. */
  datatype Bank = Bank(active: bool, ready: bool, blocked: bool, row: nat, count: nat)

  /** Latencies in cycles. */
  datatype Timing = Timing(activation: nat, precharge: nat)

  /** One clock edge for one bank; a blocked bank takes no command. */
  function BankStep(t: Timing, b: Bank, precharge: bool, activate: bool, row: nat): Bank {
    if b.blocked then
      if b.count == 0 then b.(blocked := false) else b.(count := b.count - 1)
    else if precharge then b.(blocked := true, count := t.precharge, active := false, ready := true)
    else if activate then Bank(true, false, true, row, t.activation)
    else b
  }

  class BankState {
    const timing: Timing
    const banks: array<Bank>

    /** Reset; the row registers are not reset and hold anything. */
    constructor (t: Timing, rows: seq<nat>)
      ensures timing == t && fresh(banks) && banks[..] == AfterReset(rows)
    {
      timing := t;
      banks := new Bank[|rows|](i requires 0 <= i < |rows| => Bank(false, true, false, rows[i], 0));
    }

    /** `sdram_bank_state` on a clock edge. */
    method Clock(precharge: seq<bool>, activate: seq<bool>, row: nat)
      requires |precharge| == |activate| == banks.Length
      modifies banks
      ensures banks[..] == BanksStep(timing, old(banks[..]), precharge, activate, row)
    {
      var i := 0;
      while i < banks.Length
        invariant 0 <= i <= banks.Length
        invariant forall j :: 0 <= j < i ==> banks[j] == BankStep(timing, old(banks[j]), precharge[j], activate[j], row)
        invariant forall j :: i <= j < banks.Length ==> banks[j] == old(banks[j])
      {
        var b := banks[i];
        if b.blocked {
          if b.count == 0 {
            banks[i] := b.(blocked := false);
          } else {
            banks[i] := b.(count := b.count - 1);
          }
        } else if precharge[i] {
          banks[i] := b.(blocked := true, count := timing.precharge, active := false, ready := true);
        } else if activate[i] {
          banks[i] := b.(row := row, blocked := true, count := timing.activation, active := true, ready := false);
        }
        i := i + 1;
      }
    }
  }

  function AfterReset(rows: seq<nat>): seq<Bank> {
    seq(|rows|, i requires 0 <= i < |rows| => Bank(false, true, false, rows[i], 0))
  }

  function BanksStep(t: Timing, banks: seq<Bank>, precharge: seq<bool>, activate: seq<bool>, row: nat): (r: seq<Bank>)
    requires |precharge| == |activate| == |banks|
    ensures |r| == |banks|
  {
    seq(|banks|, i requires 0 <= i < |banks| => BankStep(t, banks[i], precharge[i], activate[i], row))
  }

  // ------------------------------------------------------------- the scheduler

  /** The four command queues, in the order they are numbered. */
  datatype Kind = Read | Write | Activate | Precharge

  /** The ready top of a command queue, if it has one, by its row. */
  datatype Top = Empty | Ready(row: nat)

  /** What a cycle sends to the DRAM. */
  datatype Issue = Nothing | Refresh(bank: nat) | Command(kind: Kind, bank: nat, row: nat)

  /** May this queue's top be sent to this bank now? */
  predicate Eligible(kind: Kind, top: Top, b: Bank) {
    top.Ready? && !b.blocked && (kind.Activate? || kind.Precharge? || top.row == b.row)
  }

  /** The lowest eligible bank from `i` on. */
  function Pick(kind: Kind, tops: seq<Top>, banks: seq<Bank>, i: nat): (r: Issue)
    requires |tops| == |banks| && i <= |banks|
    ensures r.Nothing? || (r.Command? && i <= r.bank < |banks| && r.kind == kind)
    ensures r.Command? ==> Eligible(kind, tops[r.bank], banks[r.bank]) && r.row == tops[r.bank].row
    ensures forall j :: i <= j < (if r.Command? then r.bank else |banks|) ==> !Eligible(kind, tops[j], banks[j])
    decreases |banks| - i
  {
    if i == |banks| then Nothing
    else if Eligible(kind, tops[i], banks[i]) then Command(kind, i, tops[i].row)
    else Pick(kind, tops, banks, i + 1)
  }

  /** What the surroundings offer in a cycle. */
  datatype Offer = Offer(
    refresh: bool, refreshBank: nat, cmdReady: bool, readPriority: bool, bursting: bool,
    readTops: seq<Top>, writeTops: seq<Top>, activationTops: seq<Top>, prechargeTops: seq<Top>)

  /** The scheduler's own registers, 32 bits each. */
  datatype Timers = Timers(cycle: nat, lastRead: nat, lastWrite: nat)

  ghost predicate Fits(o: Offer, n: nat) {
    && |o.readTops| == |o.writeTops| == |o.activationTops| == |o.prechargeTops| == n
    && (o.refresh ==> o.refreshBank < n)
  }

  function Or(a: Issue, b: Issue): Issue { if a.Nothing? then b else a }

  /** The command-selection block. */
  function Select(o: Offer, banks: seq<Bank>, t: Timers): (r: (Issue, Timers))
    requires |o.readTops| == |o.writeTops| == |o.activationTops| == |o.prechargeTops| == |banks|
  {
    var next := t.(cycle := (t.cycle + 1) % 0x1_0000_0000);
    if o.refresh then (Refresh(o.refreshBank), next)
    else if !o.cmdReady then (Nothing, next)
    else if o.readPriority then
      if t.lastRead < (t.cycle - 4) % 0x1_0000_0000 then (Pick(Read, o.readTops, banks, 0), next.(lastRead := t.cycle))
      else (Nothing, next)
    else if !o.bursting && (t.lastWrite + 4) % 0x1_0000_0000 <= t.cycle then
      var write := Pick(Write, o.writeTops, banks, 0);
      (Or(write, Or(Pick(Activate, o.activationTops, banks, 0), Pick(Precharge, o.prechargeTops, banks, 0))),
       next.(lastWrite := if write.Command? then t.cycle else t.lastWrite))
    else (Nothing, next)
  }

  function OneHot(n: nat, i: nat): (v: seq<bool>)
    ensures |v| == n
  {
    seq(n, j => j == i)
  }

  function NoneSet(n: nat): (v: seq<bool>)
    ensures |v| == n
  {
    seq(n, _ => false)
  }

  /** The precharge lines an issue raises. */
  function PrechargeLines(n: nat, i: Issue): (v: seq<bool>)
    ensures |v| == n
  {
    match i
    case Refresh(b) => OneHot(n, b)
    case Command(Precharge, b, _) => OneHot(n, b)
    case _ => NoneSet(n)
  }

  /** The activate lines an issue raises. */
  function ActivateLines(n: nat, i: Issue): (v: seq<bool>)
    ensures |v| == n
  {
    match i
    case Command(Activate, b, _) => OneHot(n, b)
    case _ => NoneSet(n)
  }

  /** `process_bank_commands`: the scan, with the lines it drives. */
  method ProcessBankCommands(kind: Kind, tops: seq<Top>, banks: seq<Bank>, precharge0: seq<bool>, activate0: seq<bool>)
      returns (issue: Issue, precharge: seq<bool>, activate: seq<bool>)
    requires |tops| == |banks|
    ensures issue == Pick(kind, tops, banks, 0)
    ensures precharge == if issue.Command? && kind.Precharge? then OneHot(|banks|, issue.bank) else precharge0
    ensures activate == if issue.Command? && kind.Activate? then OneHot(|banks|, issue.bank) else activate0
  {
    issue, precharge, activate := Nothing, precharge0, activate0;
    var i := 0;
    while i < |banks|
      invariant 0 <= i <= |banks| && issue.Nothing? && precharge == precharge0 && activate == activate0
      invariant Pick(kind, tops, banks, i) == Pick(kind, tops, banks, 0)
    {
      if tops[i].Ready? && !banks[i].blocked && (kind.Activate? || kind.Precharge? || tops[i].row == banks[i].row) {
        issue := Command(kind, i, tops[i].row);
        if kind.Activate? {
          activate := NoneSet(|banks|)[i := true];
        } else if kind.Precharge? {
          precharge := NoneSet(|banks|)[i := true];
        }
        break;
      }
      i := i + 1;
    }
  }

  /** The selection block as it reassigns its results in sequence. */
  method SelectCommand(o: Offer, banks: seq<Bank>, t: Timers)
      returns (issue: Issue, precharge: seq<bool>, activate: seq<bool>, next: Timers)
    requires Fits(o, |banks|)
    ensures (issue, next) == Select(o, banks, t)
    ensures precharge == PrechargeLines(|banks|, issue) && activate == ActivateLines(|banks|, issue)
  {
    issue, precharge, activate := Nothing, NoneSet(|banks|), NoneSet(|banks|);
    next := t.(cycle := (t.cycle + 1) % 0x1_0000_0000);
    if o.refresh {
      issue := Refresh(o.refreshBank);
      precharge := NoneSet(|banks|)[o.refreshBank := true];
    }
    if o.cmdReady && !o.refresh {
      if o.readPriority {
        if t.lastRead < (t.cycle - 4) % 0x1_0000_0000 {
          issue, precharge, activate := ProcessBankCommands(Read, o.readTops, banks, precharge, activate);
          next := next.(lastRead := t.cycle);
        }
      } else if !o.bursting && (t.lastWrite + 4) % 0x1_0000_0000 <= t.cycle {
        issue, precharge, activate := ProcessBankCommands(Write, o.writeTops, banks, precharge, activate);
        next := next.(lastWrite := if issue.Command? then t.cycle else t.lastWrite);
        if issue.Nothing? {
          issue, precharge, activate := ProcessBankCommands(Activate, o.activationTops, banks, precharge, activate);
        }
        if issue.Nothing? {
          issue, precharge, activate := ProcessBankCommands(Precharge, o.prechargeTops, banks, precharge, activate);
        }
      }
    }
  }

  // ------------------------------------------------------------- runs

  datatype System = System(banks: seq<Bank>, timers: Timers)

  function IssueOf(s: System, o: Offer): Issue
    requires |o.readTops| == |o.writeTops| == |o.activationTops| == |o.prechargeTops| == |s.banks|
  {
    Select(o, s.banks, s.timers).0
  }

  function RowOf(i: Issue): nat { if i.Command? then i.row else 0 }

  function Cycle(t: Timing, s: System, o: Offer): (s': System)
    requires |o.readTops| == |o.writeTops| == |o.activationTops| == |o.prechargeTops| == |s.banks|
    ensures |s'.banks| == |s.banks|
  {
    var (issue, timers) := Select(o, s.banks, s.timers);
    var n := |s.banks|;
    System(BanksStep(t, s.banks, PrechargeLines(n, issue), ActivateLines(n, issue), RowOf(issue)), timers)
  }

  ghost predicate AllFit(offers: seq<Offer>, n: nat) { forall k :: 0 <= k < |offers| ==> Fits(offers[k], n) }

  /** The state after the given offers, one per cycle. */
  function Run(t: Timing, s: System, offers: seq<Offer>): (s': System)
    requires AllFit(offers, |s.banks|)
    ensures |s'.banks| == |s.banks|
  {
    if offers == [] then s else Cycle(t, Run(t, s, offers[..|offers| - 1]), offers[|offers| - 1])
  }

  /** The state before cycle `k`. */
  function StateAt(t: Timing, s: System, offers: seq<Offer>, k: nat): (s': System)
    requires AllFit(offers, |s.banks|) && k <= |offers|
    ensures |s'.banks| == |s.banks|
  {
    Run(t, s, offers[..k])
  }

  /** The scheduler's selection clocking the bank tracker, cycle after cycle. */
  method Operate(state: BankState, timers0: Timers, offers: seq<Offer>) returns (timers: Timers)
    requires AllFit(offers, state.banks.Length)
    modifies state.banks
    ensures System(state.banks[..], timers) == Run(state.timing, System(old(state.banks[..]), timers0), offers)
  {
    timers := timers0;
    ghost var s0 := System(state.banks[..], timers0);
    var n := 0;
    while n < |offers|
      invariant 0 <= n <= |offers| && System(state.banks[..], timers) == Run(state.timing, s0, offers[..n])
    {
      assert offers[..n + 1][..n] == offers[..n];
      var issue, precharge, activate, next := SelectCommand(offers[n], state.banks[..], timers);
      state.Clock(precharge, activate, RowOf(issue));
      timers := next;
      n := n + 1;
    }
    assert offers[..n] == offers;
  }

  /** What is issued in cycle `k`. */
  function IssueAt(t: Timing, s: System, offers: seq<Offer>, k: nat): Issue
    requires AllFit(offers, |s.banks|) && k < |offers|
  {
    IssueOf(StateAt(t, s, offers, k), offers[k])
  }

  /** One bank's part in a cycle. */
  lemma BankInCycle(t: Timing, s: System, o: Offer, i: nat)
    requires Fits(o, |s.banks|) && i < |s.banks|
    ensures var issue := IssueOf(s, o);
      Cycle(t, s, o).banks[i] == BankStep(t, s.banks[i],
        (issue.Refresh? && issue.bank == i) || (issue.Command? && issue.kind.Precharge? && issue.bank == i),
        issue.Command? && issue.kind.Activate? && issue.bank == i, RowOf(issue))
  {
  }

  lemma StateAfter(t: Timing, s: System, offers: seq<Offer>, k: nat)
    requires AllFit(offers, |s.banks|) && k < |offers|
    ensures StateAt(t, s, offers, k + 1) == Cycle(t, StateAt(t, s, offers, k), offers[k])
  {
    assert offers[..k + 1][..k] == offers[..k];
  }

  /** No command is ever selected for a blocked bank. */
  lemma CommandsRespectBlocks(s: System, o: Offer)
    requires Fits(o, |s.banks|)
    ensures var issue := IssueOf(s, o);
      issue.Command? ==> issue.bank < |s.banks| && !s.banks[issue.bank].blocked
  {
  }

  lemma NoCommandTo(s: System, o: Offer, i: nat)
    requires Fits(o, |s.banks|) && i < |s.banks| && s.banks[i].blocked
    ensures !(IssueOf(s, o).Command? && IssueOf(s, o).bank == i)
  {
    CommandsRespectBlocks(s, o);
  }

  /** One cycle of a blocked bank. */
  function CountDown(b: Bank): Bank { if b.count == 0 then b.(blocked := false) else b.(count := b.count - 1) }

  lemma BlockedStep(t: Timing, s: System, offers: seq<Offer>, i: nat, k: nat)
    requires AllFit(offers, |s.banks|) && i < |s.banks| && k < |offers| && StateAt(t, s, offers, k).banks[i].blocked
    ensures StateAt(t, s, offers, k + 1).banks[i] == CountDown(StateAt(t, s, offers, k).banks[i])
  {
    StateAfter(t, s, offers, k);
    BankInCycle(t, StateAt(t, s, offers, k), offers[k], i);
  }

  /** A blocked bank counts down and keeps its registers, whatever is offered. */
  lemma {:induction false} StaysBlocked(t: Timing, s: System, offers: seq<Offer>, i: nat, k: nat, n: nat)
    requires AllFit(offers, |s.banks|) && i < |s.banks| && k + n <= |offers|
    requires var b := StateAt(t, s, offers, k).banks[i]; b.blocked && n <= b.count
    ensures var b := StateAt(t, s, offers, k).banks[i]; StateAt(t, s, offers, k + n).banks[i] == b.(count := b.count - n)
  {
    if n == 0 {
    } else {
      StaysBlocked(t, s, offers, i, k, n - 1);
      BlockedStep(t, s, offers, i, k + n - 1);
    }
  }

  /** The latency that goes with a command that occupies its bank. */
  function Latency(t: Timing, kind: Kind): nat
    requires kind.Activate? || kind.Precharge?
  {
    if kind.Activate? then t.activation else t.precharge
  }

  /** An issued activate or precharge is accepted: the bank takes it at once. */
  lemma CommandAccepted(t: Timing, s: System, o: Offer)
    requires Fits(o, |s.banks|)
    requires var c := IssueOf(s, o); c.Command? && (c.kind.Activate? || c.kind.Precharge?)
    ensures var c := IssueOf(s, o);
      c.bank < |s.banks| &&
      var b, b' := s.banks[c.bank], Cycle(t, s, o).banks[c.bank];
      b' == if c.kind.Activate? then Bank(true, false, true, c.row, t.activation)
            else Bank(false, true, true, b.row, t.precharge)
  {
    CommandsRespectBlocks(s, o);
    BankInCycle(t, s, o, IssueOf(s, o).bank);
  }

  /** The bank a command in cycle `k` occupies, as long as it does. */
  lemma Occupied(t: Timing, s: System, offers: seq<Offer>, k: nat, n: nat)
    requires AllFit(offers, |s.banks|) && k + 1 + n <= |offers|
    requires var c := IssueAt(t, s, offers, k); c.Command? && (c.kind.Activate? || c.kind.Precharge?) && n <= Latency(t, c.kind)
    ensures var c := IssueAt(t, s, offers, k);
      && c.bank < |s.banks|
      && var b := StateAt(t, s, offers, k + 1 + n).banks[c.bank];
      b.blocked && b.count == Latency(t, c.kind) - n && b.active == c.kind.Activate? && (c.kind.Activate? ==> b.row == c.row)
  {
    CommandAccepted(t, StateAt(t, s, offers, k), offers[k]);
    StateAfter(t, s, offers, k);
    StaysBlocked(t, s, offers, IssueAt(t, s, offers, k).bank, k + 1, n);
  }

  /**
   * Bank spacing. In every run, whatever is offered and whatever refreshes come between,
   * an activate or precharge issued in cycle k is accepted by its bank, and no command
   * goes to that bank in the next latency + 1 cycles.
   */
  lemma BankSpacing(t: Timing, s: System, offers: seq<Offer>, k: nat, u: nat)
    requires AllFit(offers, |s.banks|) && k < u < |offers|
    requires var c := IssueAt(t, s, offers, k);
      c.Command? && (c.kind.Activate? || c.kind.Precharge?) && u <= k + Latency(t, c.kind) + 1
    ensures var c := IssueAt(t, s, offers, k);
      !(IssueAt(t, s, offers, u).Command? && IssueAt(t, s, offers, u).bank == c.bank)
  {
    Occupied(t, s, offers, k, u - k - 1);
    NoCommandTo(StateAt(t, s, offers, u), offers[u], IssueAt(t, s, offers, k).bank);
  }

  /** The bound is tight: in the cycle after those the bank is free again. */
  lemma SpacingTight(t: Timing, s: System, offers: seq<Offer>, k: nat)
    requires AllFit(offers, |s.banks|) && k < |offers|
    requires var c := IssueAt(t, s, offers, k);
      c.Command? && (c.kind.Activate? || c.kind.Precharge?) && k + Latency(t, c.kind) + 2 <= |offers|
    ensures var c := IssueAt(t, s, offers, k);
      c.bank < |s.banks| && !StateAt(t, s, offers, k + Latency(t, c.kind) + 2).banks[c.bank].blocked
  {
    var c := IssueAt(t, s, offers, k);
    LastOccupied(t, s, offers, k, c, k + 1 + Latency(t, c.kind));
    FreedNext(t, s, offers, c.bank, k + 1 + Latency(t, c.kind), k + Latency(t, c.kind) + 2);
  }

  lemma LastOccupied(t: Timing, s: System, offers: seq<Offer>, k: nat, c: Issue, u: nat)
    requires AllFit(offers, |s.banks|) && k < |offers| && c == IssueAt(t, s, offers, k)
    requires c.Command? && (c.kind.Activate? || c.kind.Precharge?) && u == k + 1 + Latency(t, c.kind) < |offers|
    ensures c.bank < |s.banks|
    ensures var b := StateAt(t, s, offers, u).banks[c.bank]; b.blocked && b.count == 0
  {
    Occupied(t, s, offers, k, Latency(t, c.kind));
  }

  lemma FreedNext(t: Timing, s: System, offers: seq<Offer>, i: nat, k: nat, u: nat)
    requires AllFit(offers, |s.banks|) && i < |s.banks| && k < |offers| && u == k + 1
    requires var b := StateAt(t, s, offers, k).banks[i]; b.blocked && b.count == 0
    ensures !StateAt(t, s, offers, u).banks[i].blocked
  {
    BlockedStep(t, s, offers, i, k);
  }

  /** In every run from reset a bank is ready exactly when it is not active. */
  lemma {:induction false} ReadyIsInactive(t: Timing, rows: seq<nat>, timers: Timers, offers: seq<Offer>, i: nat)
    requires AllFit(offers, |rows|) && i < |rows|
    ensures var s := System(AfterReset(rows), timers);
      Run(t, s, offers).banks[i].ready == !Run(t, s, offers).banks[i].active
  {
    var s := System(AfterReset(rows), timers);
    if offers == [] {
    } else {
      var before, o := offers[..|offers| - 1], offers[|offers| - 1];
      ReadyIsInactive(t, rows, timers, before, i);
      BankInCycle(t, Run(t, s, before), o, i);
    }
  }

  /** The row register changes only when the bank, unblocked, takes an activate for that row. */
  lemma RowStable(t: Timing, s: System, o: Offer, i: nat)
    requires Fits(o, |s.banks|) && i < |s.banks|
    ensures var issue := IssueOf(s, o);
      Cycle(t, s, o).banks[i].row == if issue.Command? && issue.kind.Activate? && issue.bank == i then issue.row else s.banks[i].row
  {
    BankInCycle(t, s, o, i);
    CommandsRespectBlocks(s, o);
  }

  /** Every column access goes to a free bank whose row register holds its row. */
  lemma ColumnAccessRow(t: Timing, s: System, o: Offer)
    requires Fits(o, |s.banks|)
    ensures var issue := IssueOf(s, o);
      issue.Command? && (issue.kind.Read? || issue.kind.Write?) ==>
        issue.bank < |s.banks| && s.banks[issue.bank].row == issue.row && !s.banks[issue.bank].blocked
  {
  }

  // ------------------------------------------------------------- open rows

  /** In cycle `k` this bank is sent an activate. */
  predicate Opens(t: Timing, s: System, offers: seq<Offer>, i: nat, k: nat)
    requires AllFit(offers, |s.banks|) && k < |offers|
  {
    var c := IssueAt(t, s, offers, k);
    c.Command? && c.kind.Activate? && c.bank == i
  }

  /** In cycle `k` this bank is sent a precharge, or a refresh that it accepts. */
  predicate Closes(t: Timing, s: System, offers: seq<Offer>, i: nat, k: nat)
    requires AllFit(offers, |s.banks|) && i < |s.banks| && k < |offers|
  {
    var c := IssueAt(t, s, offers, k);
    || (c.Command? && c.kind.Precharge? && c.bank == i)
    || (c.Refresh? && c.bank == i && !StateAt(t, s, offers, k).banks[i].blocked)
  }

  /** Cycle `k` opened this row, and nothing has closed the bank since. */
  ghost predicate OpenedAt(t: Timing, s: System, offers: seq<Offer>, i: nat, u: nat, row: nat, k: nat)
    requires AllFit(offers, |s.banks|) && i < |s.banks| && u <= |offers|
  {
    && k < u && Opens(t, s, offers, i, k) && IssueAt(t, s, offers, k).row == row
    && forall j :: k < j < u ==> !Closes(t, s, offers, i, j)
  }

  ghost predicate RowOpen(t: Timing, s: System, offers: seq<Offer>, i: nat, u: nat, row: nat)
    requires AllFit(offers, |s.banks|) && i < |s.banks| && u <= |offers|
  {
    exists k: nat :: OpenedAt(t, s, offers, i, u, row, k)
  }

  /** One cycle of a bank in terms of openings and closings. */
  lemma OpenStep(t: Timing, s: System, offers: seq<Offer>, i: nat, k: nat)
    requires AllFit(offers, |s.banks|) && i < |s.banks| && k < |offers|
    ensures var b, b' := StateAt(t, s, offers, k).banks[i], StateAt(t, s, offers, k + 1).banks[i];
      && b'.active == (Opens(t, s, offers, i, k) || (b.active && !Closes(t, s, offers, i, k)))
      && b'.row == if Opens(t, s, offers, i, k) then IssueAt(t, s, offers, k).row else b.row
  {
    StateAfter(t, s, offers, k);
    BankInCycle(t, StateAt(t, s, offers, k), offers[k], i);
    CommandsRespectBlocks(StateAt(t, s, offers, k), offers[k]);
  }

  lemma OpenedEarlier(t: Timing, s: System, offers: seq<Offer>, i: nat, u: nat, row: nat, k: nat)
    requires AllFit(offers, |s.banks|) && i < |s.banks| && u < |offers|
    requires OpenedAt(t, s, offers, i, u + 1, row, k) && k < u
    ensures OpenedAt(t, s, offers, i, u, row, k) && !Closes(t, s, offers, i, u)
  {
  }

  lemma {:induction false} StaysOpen(t: Timing, s: System, offers: seq<Offer>, i: nat, u: nat, row: nat, k: nat)
    requires AllFit(offers, |s.banks|) && i < |s.banks| && u < |offers| && OpenedAt(t, s, offers, i, u + 1, row, k)
    ensures StateAt(t, s, offers, u + 1).banks[i].active
    decreases u
  {
    OpenStep(t, s, offers, i, u);
    if k == u {
    } else {
      OpenedEarlier(t, s, offers, i, u, row, k);
      StaysOpen(t, s, offers, i, u - 1, row, k);
    }
  }

  lemma StateAtStart(t: Timing, s: System, offers: seq<Offer>)
    requires AllFit(offers, |s.banks|)
    ensures StateAt(t, s, offers, 0) == s
  {
    assert offers[..0] == [];
  }

  lemma OpenedStays(t: Timing, s: System, offers: seq<Offer>, i: nat, u: nat, row: nat, k: nat)
    requires AllFit(offers, |s.banks|) && i < |s.banks| && u < |offers|
    requires OpenedAt(t, s, offers, i, u, row, k) && !Closes(t, s, offers, i, u)
    ensures RowOpen(t, s, offers, i, u + 1, row)
  {
    assert OpenedAt(t, s, offers, i, u + 1, row, k);
  }

  lemma {:induction false} ActiveWasOpened(t: Timing, s: System, offers: seq<Offer>, i: nat, u: nat)
    requires AllFit(offers, |s.banks|) && i < |s.banks| && u <= |offers| && !s.banks[i].active
    ensures var b := StateAt(t, s, offers, u).banks[i]; b.active ==> RowOpen(t, s, offers, i, u, b.row)
    decreases u
  {
    if u == 0 {
      StateAtStart(t, s, offers);
    } else {
      var before := StateAt(t, s, offers, u - 1).banks[i];
      OpenStep(t, s, offers, i, u - 1);
      ActiveWasOpened(t, s, offers, i, u - 1);
      if Opens(t, s, offers, i, u - 1) {
        assert OpenedAt(t, s, offers, i, u, IssueAt(t, s, offers, u - 1).row, u - 1);
      } else if before.active && !Closes(t, s, offers, i, u - 1) {
        var k: nat :| OpenedAt(t, s, offers, i, u - 1, before.row, k);
        OpenedStays(t, s, offers, i, u - 1, before.row, k);
      }
    }
  }

  /**
   * Exactly when a bank is active with a row: if and only if some earlier cycle sent it
   * an activate for that row and no cycle since sent it a precharge or a refresh that it
   * accepted, as long as its register still holds the row.
   */
  lemma ActiveExact(t: Timing, rows: seq<nat>, timers: Timers, offers: seq<Offer>, i: nat, u: nat)
    requires AllFit(offers, |rows|) && i < |rows| && u <= |offers|
    ensures var s := System(AfterReset(rows), timers);
      var b := StateAt(t, s, offers, u).banks[i];
      b.active <==> RowOpen(t, s, offers, i, u, b.row)
  {
    var s := System(AfterReset(rows), timers);
    var b := StateAt(t, s, offers, u).banks[i];
    ActiveWasOpened(t, s, offers, i, u);
    if RowOpen(t, s, offers, i, u, b.row) {
      var k: nat :| OpenedAt(t, s, offers, i, u, b.row, k);
      StaysOpen(t, s, offers, i, u - 1, b.row, k);
    }
  }

  /**
   * Column accesses. In every run from reset a read or write goes to a free bank, and
   * that bank is active with the row accessed if and only if some earlier cycle sent it
   * an activate for that row and no cycle since has closed it. The scheduler itself
   * compares rows and does not ask whether the bank is active.
   */
  lemma ColumnAccessExact(t: Timing, rows: seq<nat>, timers: Timers, offers: seq<Offer>, u: nat)
    requires AllFit(offers, |rows|) && u < |offers|
    requires var c := IssueAt(t, System(AfterReset(rows), timers), offers, u); c.Command? && (c.kind.Read? || c.kind.Write?)
    ensures var s := System(AfterReset(rows), timers);
      var c := IssueAt(t, s, offers, u);
      c.bank < |rows| &&
      var b := StateAt(t, s, offers, u).banks[c.bank];
      !b.blocked && (b.active && b.row == c.row <==> RowOpen(t, s, offers, c.bank, u, c.row))
  {
    var s := System(AfterReset(rows), timers);
    ColumnAccessRow(t, StateAt(t, s, offers, u), offers[u]);
    ActiveExact(t, rows, timers, offers, IssueAt(t, s, offers, u).bank, u);
  }

  // ------------------------------------------------------------- a read of a closed row

  function Tops(n: nat, top: Top): (tops: seq<Top>)
    requires n > 0
    ensures |tops| == n && tops[0] == top
  {
    seq(n, i => if i == 0 then top else Empty)
  }

  function IdleOffer(n: nat): Offer
    requires n > 0
  {
    Offer(false, 0, false, false, false, Tops(n, Empty), Tops(n, Empty), Tops(n, Empty), Tops(n, Empty))
  }

  function Idles(n: nat, m: nat): (offers: seq<Offer>)
    requires n > 0
    ensures |offers| == m && AllFit(offers, n)
  {
    seq(m, _ => IdleOffer(n))
  }

  lemma {:induction false} RunConcat(t: Timing, s: System, xs: seq<Offer>, ys: seq<Offer>)
    requires AllFit(xs, |s.banks|) && AllFit(ys, |s.banks|)
    ensures AllFit(xs + ys, |s.banks|) && Run(t, s, xs + ys) == Run(t, Run(t, s, xs), ys)
  {
    if ys == [] {
      assert xs + ys == xs;
    } else {
      RunConcat(t, s, xs, ys[..|ys| - 1]);
      assert (xs + ys)[..|xs + ys| - 1] == xs + ys[..|ys| - 1];
    }
  }

  lemma IdleCycle(t: Timing, s: System)
    requires |s.banks| > 0 && s.timers.cycle < 0xFFFF_FFFF
    ensures var s' := Cycle(t, s, IdleOffer(|s.banks|));
      && s'.timers == s.timers.(cycle := s.timers.cycle + 1)
      && (!s.banks[0].blocked ==> s'.banks[0] == s.banks[0])
  {
    BankInCycle(t, s, IdleOffer(|s.banks|), 0);
  }

  lemma OneMoreIdle(t: Timing, s: System, m: nat)
    requires |s.banks| > 0 && m > 0
    ensures Run(t, s, Idles(|s.banks|, m)) == Cycle(t, Run(t, s, Idles(|s.banks|, m - 1)), IdleOffer(|s.banks|))
  {
    assert Idles(|s.banks|, m)[..m - 1] == Idles(|s.banks|, m - 1);
  }

  lemma {:induction false} IdleTimers(t: Timing, s: System, m: nat)
    requires |s.banks| > 0 && s.timers.cycle + m < 0x1_0000_0000
    ensures var s' := Run(t, s, Idles(|s.banks|, m));
      && s'.timers == s.timers.(cycle := s.timers.cycle + m)
      && (!s.banks[0].blocked ==> s'.banks[0] == s.banks[0])
  {
    if m == 0 {
      assert Run(t, s, []) == s;
    } else {
      IdleTimers(t, s, m - 1);
      IdleCycle(t, Run(t, s, Idles(|s.banks|, m - 1)));
      OneMoreIdle(t, s, m);
    }
  }

  /** Waiting out a blocked bank. */
  lemma WaitsOut(t: Timing, s: System)
    requires |s.banks| > 0 && s.banks[0].blocked && s.timers.cycle + s.banks[0].count + 1 < 0x1_0000_0000
    ensures var b := s.banks[0];
      var s' := Run(t, s, Idles(|s.banks|, b.count + 1));
      s'.timers == s.timers.(cycle := s.timers.cycle + b.count + 1) && s'.banks[0] == b.(blocked := false, count := 0)
  {
    var c := s.banks[0].count;
    var offers := Idles(|s.banks|, c + 1);
    IdleTimers(t, s, c + 1);
    assert StateAt(t, s, offers, 0) == s;
    StaysBlocked(t, s, offers, 0, 0, c);
    BlockedStep(t, s, offers, 0, c);
    assert offers[..c + 1] == offers;
  }

  function ActivateOffer(n: nat, row: nat): Offer
    requires n > 0
  {
    IdleOffer(n).(cmdReady := true, activationTops := Tops(n, Ready(row)))
  }

  function RefreshOffer(n: nat): Offer
    requires n > 0
  {
    IdleOffer(n).(refresh := true)
  }

  function ReadOffer(n: nat, row: nat): Offer
    requires n > 0
  {
    IdleOffer(n).(cmdReady := true, readPriority := true, readTops := Tops(n, Ready(row)))
  }

  lemma {:induction false} NothingToPick(kind: Kind, banks: seq<Bank>, i: nat)
    requires |banks| > 0 && i <= |banks|
    ensures Pick(kind, Tops(|banks|, Empty), banks, i).Nothing?
    decreases |banks| - i
  {
    if i == |banks| {
    } else {
      NothingToPick(kind, banks, i + 1);
    }
  }

  /** Activating bank 0. */
  lemma ActivateCycle(t: Timing, s: System, row: nat)
    requires |s.banks| > 0 && !s.banks[0].blocked && s.timers.lastWrite + 4 <= s.timers.cycle < 0xFFFF_FFFF
    ensures var s' := Cycle(t, s, ActivateOffer(|s.banks|, row));
      s'.timers == s.timers.(cycle := s.timers.cycle + 1) && s'.banks[0] == Bank(true, false, true, row, t.activation)
  {
    NothingToPick(Write, s.banks, 0);
    BankInCycle(t, s, ActivateOffer(|s.banks|, row), 0);
  }

  /** Refreshing it. */
  lemma RefreshCycle(t: Timing, s: System)
    requires |s.banks| > 0 && !s.banks[0].blocked && s.timers.cycle < 0xFFFF_FFFF
    ensures var s' := Cycle(t, s, RefreshOffer(|s.banks|));
      && s'.timers == s.timers.(cycle := s.timers.cycle + 1)
      && s'.banks[0] == Bank(false, true, true, s.banks[0].row, t.precharge)
  {
    BankInCycle(t, s, RefreshOffer(|s.banks|), 0);
  }

  /** Offer something and wait `m` cycles. */
  function OfferAndIdle(n: nat, o: Offer, m: nat): (offers: seq<Offer>)
    requires n > 0 && Fits(o, n)
    ensures AllFit(offers, n)
  {
    [o] + Idles(n, m)
  }

  /** Wait `m` cycles, activate bank 0 for a row, and wait until it is free. */
  function Activated(t: Timing, n: nat, row: nat, m: nat): (offers: seq<Offer>)
    requires n > 0
    ensures AllFit(offers, n)
  {
    Idles(n, m) + OfferAndIdle(n, ActivateOffer(n, row), t.activation + 1)
  }

  /** Then refresh it and wait again. */
  function Refreshed(t: Timing, n: nat, row: nat, m: nat): (offers: seq<Offer>)
    requires n > 0
    ensures AllFit(offers, n)
  {
    Activated(t, n, row, m) + OfferAndIdle(n, RefreshOffer(n), t.precharge + 1)
  }

  lemma RunOne(t: Timing, s: System, o: Offer)
    requires Fits(o, |s.banks|)
    ensures AllFit([o], |s.banks|) && Run(t, s, [o]) == Cycle(t, s, o)
  {
    assert [o][..0] == [];
  }

  /** An offer, and `m` idle cycles after it. */
  lemma OfferThenIdle(t: Timing, s: System, offers: seq<Offer>, o: Offer, m: nat)
    requires |s.banks| > 0 && AllFit(offers, |s.banks|) && Fits(o, |s.banks|)
    ensures AllFit(offers + OfferAndIdle(|s.banks|, o, m), |s.banks|)
    ensures Run(t, s, offers + OfferAndIdle(|s.banks|, o, m)) == Run(t, Cycle(t, Run(t, s, offers), o), Idles(|s.banks|, m))
  {
    var s' := Run(t, s, offers);
    RunOne(t, s', o);
    RunConcat(t, s', [o], Idles(|s.banks|, m));
    RunConcat(t, s, offers, [o] + Idles(|s.banks|, m));
  }

  /** The clock, the timers of the last read and write, and bank 0. */
  ghost predicate Stands(s: System, cycle: nat, last: Last, bank: Bank) {
    |s.banks| > 0 && s.timers == Timers(cycle, last.read, last.write) && s.banks[0] == bank
  }

  datatype Last = Last(read: nat, write: nat)

  lemma ThenActivate(t: Timing, s: System, offers: seq<Offer>, cycle: nat, last: Last, bank: Bank, row: nat)
    requires |s.banks| > 0 && AllFit(offers, |s.banks|) && Stands(Run(t, s, offers), cycle, last, bank)
    requires !bank.blocked && last.write + 4 <= cycle && cycle + t.activation + 2 < 0xFFFF_FFFF
    ensures var n := |s.banks|;
      Stands(Run(t, s, offers + OfferAndIdle(n, ActivateOffer(n, row), t.activation + 1)),
             cycle + t.activation + 2, last, Bank(true, false, false, row, 0))
  {
    var s' := Run(t, s, offers);
    ActivateCycle(t, s', row);
    OfferThenIdle(t, s, offers, ActivateOffer(|s.banks|, row), t.activation + 1);
    WaitsOut(t, Cycle(t, s', ActivateOffer(|s.banks|, row)));
  }

  lemma ThenRefresh(t: Timing, s: System, offers: seq<Offer>, cycle: nat, last: Last, bank: Bank)
    requires |s.banks| > 0 && AllFit(offers, |s.banks|) && Stands(Run(t, s, offers), cycle, last, bank)
    requires !bank.blocked && cycle + t.precharge + 2 < 0xFFFF_FFFF
    ensures var n := |s.banks|;
      Stands(Run(t, s, offers + OfferAndIdle(n, RefreshOffer(n), t.precharge + 1)),
             cycle + t.precharge + 2, last, Bank(false, true, false, bank.row, 0))
  {
    var s' := Run(t, s, offers);
    RefreshCycle(t, s');
    OfferThenIdle(t, s, offers, RefreshOffer(|s.banks|), t.precharge + 1);
    WaitsOut(t, Cycle(t, s', RefreshOffer(|s.banks|)));
  }

  lemma StateActivated(t: Timing, s: System, last: Last, bank: Bank, row: nat, m: nat)
    requires Stands(s, 0, last, bank) && !bank.blocked && last.write + 4 <= m && m + t.activation + 2 < 0xFFFF_FFFF
    ensures Stands(Run(t, s, Activated(t, |s.banks|, row, m)), m + t.activation + 2, last, Bank(true, false, false, row, 0))
  {
    StateWaited(t, s, last, bank, m);
    ThenActivate(t, s, Idles(|s.banks|, m), m, last, bank, row);
  }

  lemma StateWaited(t: Timing, s: System, last: Last, bank: Bank, m: nat)
    requires Stands(s, 0, last, bank) && !bank.blocked && m < 0x1_0000_0000
    ensures Stands(Run(t, s, Idles(|s.banks|, m)), m, last, bank)
  {
    IdleTimers(t, s, m);
  }

  lemma StateRefreshed(t: Timing, s: System, last: Last, bank: Bank, row: nat, m: nat)
    requires Stands(s, 0, last, bank) && !bank.blocked && last.write + 4 <= m
    requires m + t.activation + t.precharge + 4 < 0xFFFF_FFFF
    ensures Stands(Run(t, s, Refreshed(t, |s.banks|, row, m)),
                   m + t.activation + t.precharge + 4, last, Bank(false, true, false, row, 0))
  {
    StateActivated(t, s, last, bank, row, m);
    ThenRefresh(t, s, Activated(t, |s.banks|, row, m), m + t.activation + 2, last, Bank(true, false, false, row, 0));
  }

  /** A read of the row that bank 0's register holds. */
  lemma ReadsRegister(t: Timing, s: System, cycle: nat, last: Last, bank: Bank)
    requires Stands(s, cycle, last, bank) && !bank.blocked && last.read + 4 < cycle < 0x1_0000_0000
    ensures IssueOf(s, ReadOffer(|s.banks|, bank.row)) == Command(Read, 0, bank.row)
  {
    assert Eligible(Read, Tops(|s.banks|, Ready(bank.row))[0], s.banks[0]);
  }

  /**
   * Runs from reset in which a column access goes to a closed bank: bank 0 is activated
   * for a row, refreshed, and then read at that row, which its register still holds. The
   * clock is reset; the timers of the last read and write are not, and the run waits as
   * long as they ask.
   */
  lemma RefreshedRowIsRead(t: Timing, rows: seq<nat>, last: Last, row: nat, m: nat)
    requires |rows| > 0 && last.write + 4 <= m && last.read < m && m + t.activation + t.precharge + 4 < 0xFFFF_FFFF
    ensures var s := System(AfterReset(rows), Timers(0, last.read, last.write));
      var before := Refreshed(t, |rows|, row, m);
      var offers := before + [ReadOffer(|rows|, row)];
      && IssueAt(t, s, offers, |before|) == Command(Read, 0, row)
      && !StateAt(t, s, offers, |before|).banks[0].active
      && !RowOpen(t, s, offers, 0, |before|, row)
  {
    var s := System(AfterReset(rows), Timers(0, last.read, last.write));
    var before := Refreshed(t, |rows|, row, m);
    var offers := before + [ReadOffer(|rows|, row)];
    StateRefreshed(t, s, last, s.banks[0], row, m);
    assert offers[..|before|] == before;
    ReadsRegister(t, Run(t, s, before), m + t.activation + t.precharge + 4, last, Bank(false, true, false, row, 0));
    ActiveExact(t, rows, Timers(0, last.read, last.write), offers, 0, |before|);
  }
}
