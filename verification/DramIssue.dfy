/** Which command the scheduler issues in a cycle, and how far apart reads and writes are. */
module DramIssue {
  import opened DramBanks

  // ------------------------------------------------------------- what can be issued

  /** Bank `i` can be sent the top of this queue: it is free, the queue has a ready top, and a
      column access meets the row the bank's register holds. */
  ghost predicate Can(kind: Kind, s: System, o: Offer, i: nat)
    requires Fits(o, |s.banks|) && i < |s.banks|
  {
    !s.banks[i].blocked &&
    match kind
    case Read => o.readTops[i].Ready? && o.readTops[i].row == s.banks[i].row
    case Write => o.writeTops[i].Ready? && o.writeTops[i].row == s.banks[i].row
    case Activate => o.activationTops[i].Ready?
    case Precharge => o.prechargeTops[i].Ready?
  }

  ghost predicate Any(kind: Kind, s: System, o: Offer)
    requires Fits(o, |s.banks|)
  {
    exists i: nat :: i < |s.banks| && Can(kind, s, o, i)
  }

  function TopsOf(kind: Kind, o: Offer): seq<Top> {
    match kind
    case Read => o.readTops
    case Write => o.writeTops
    case Activate => o.activationTops
    case Precharge => o.prechargeTops
  }

  predicate Is(c: Issue, kind: Kind) { c.Command? && c.kind == kind }

  /** A command goes to the lowest bank that can take it, with that bank's row. */
  ghost predicate Lowest(s: System, o: Offer, c: Issue)
    requires Fits(o, |s.banks|) && c.Command?
  {
    && c.bank < |s.banks| && Can(c.kind, s, o, c.bank) && c.row == TopsOf(c.kind, o)[c.bank].row
    && forall i: nat :: i < c.bank ==> !Can(c.kind, s, o, i)
  }

  /** The registers are 32 bits wide. */
  predicate Registers(t: Timers) {
    t.cycle < 0x1_0000_0000 && t.lastRead < 0x1_0000_0000 && t.lastWrite < 0x1_0000_0000
  }

  /** More than four cycles since the last read; in the first four cycles the difference is
      taken below zero and wraps. */
  predicate ReadGap(t: Timers) {
    if t.cycle < 4 then t.lastRead < 0xFFFF_FFFC + t.cycle else t.lastRead + 5 <= t.cycle
  }

  /** At least four cycles since the last write; the sum wraps for a write in the last four
      values of the counter. */
  predicate WriteGap(t: Timers) {
    if t.lastWrite < 0xFFFF_FFFC then t.lastWrite + 4 <= t.cycle else t.lastWrite - 0xFFFF_FFFC <= t.cycle
  }

  predicate ReadTurn(o: Offer, t: Timers) {
    !o.refresh && o.cmdReady && o.readPriority && ReadGap(t)
  }

  predicate WriteTurn(o: Offer, t: Timers) {
    !o.refresh && o.cmdReady && !o.readPriority && !o.bursting && WriteGap(t)
  }

  lemma EligibleIsCan(kind: Kind, s: System, o: Offer, i: nat)
    requires Fits(o, |s.banks|) && i < |s.banks|
    ensures Eligible(kind, TopsOf(kind, o)[i], s.banks[i]) == Can(kind, s, o, i)
  {
  }

  lemma PickExact(kind: Kind, s: System, o: Offer)
    requires Fits(o, |s.banks|)
    ensures var c := Pick(kind, TopsOf(kind, o), s.banks, 0);
      (c.Nothing? || (Is(c, kind) && Lowest(s, o, c))) && (Is(c, kind) <==> Any(kind, s, o))
  {
    var c := Pick(kind, TopsOf(kind, o), s.banks, 0);
    forall i: nat | i < |s.banks| ensures Eligible(kind, TopsOf(kind, o)[i], s.banks[i]) == Can(kind, s, o, i) {
      EligibleIsCan(kind, s, o, i);
    }
  }

  lemma GapsExact(t: Timers)
    requires Registers(t)
    ensures (t.lastRead < (t.cycle - 4) % 0x1_0000_0000) == ReadGap(t)
    ensures ((t.lastWrite + 4) % 0x1_0000_0000 <= t.cycle) == WriteGap(t)
  {
  }

  /**
   * What a cycle issues, exactly. A refresh goes first, and without the command slot nothing
   * else goes. Under read priority only a read is issued, exactly when the gap since the last
   * read has passed and a bank can take one. Otherwise, past the gap since the last write, it
   * is a write if any bank can take one, else an activate if any can, else a precharge if any
   * can. Each goes to the lowest bank that can take it.
   */
  lemma IssueExact(s: System, o: Offer)
    requires Fits(o, |s.banks|) && Registers(s.timers)
    ensures var c := IssueOf(s, o);
      && (o.refresh ==> c == Refresh(o.refreshBank)) && (c.Refresh? ==> o.refresh)
      && (Is(c, Read) <==> ReadTurn(o, s.timers) && Any(Read, s, o))
      && (Is(c, Write) <==> WriteTurn(o, s.timers) && Any(Write, s, o))
      && (Is(c, Activate) <==> WriteTurn(o, s.timers) && !Any(Write, s, o) && Any(Activate, s, o))
      && (Is(c, Precharge) <==>
          WriteTurn(o, s.timers) && !Any(Write, s, o) && !Any(Activate, s, o) && Any(Precharge, s, o))
      && (c.Command? ==> Lowest(s, o, c))
  {
    GapsExact(s.timers);
    PickExact(Read, s, o);
    PickExact(Write, s, o);
    PickExact(Activate, s, o);
    PickExact(Precharge, s, o);
  }

  /** The registers after a cycle: the last read is set on every read turn, whether or not a
      read goes out, and the last write only by a write. */
  lemma TimersExact(t: Timing, s: System, o: Offer)
    requires Fits(o, |s.banks|) && Registers(s.timers)
    ensures var next := Cycle(t, s, o).timers;
      && Registers(next)
      && next.cycle == (if s.timers.cycle == 0xFFFF_FFFF then 0 else s.timers.cycle + 1)
      && next.lastRead == (if ReadTurn(o, s.timers) then s.timers.cycle else s.timers.lastRead)
      && next.lastWrite == (if Is(IssueOf(s, o), Write) then s.timers.cycle else s.timers.lastWrite)
  {
    GapsExact(s.timers);
    PickExact(Write, s, o);
    PickExact(Activate, s, o);
    PickExact(Precharge, s, o);
  }

  /** A free bank that is sent no activate, precharge or refresh keeps its registers; one that
      is refreshed closes and keeps its row. */
  lemma FreeBankExact(t: Timing, s: System, o: Offer, i: nat)
    requires Fits(o, |s.banks|) && i < |s.banks| && !s.banks[i].blocked
    ensures var c, b := IssueOf(s, o), s.banks[i];
      Cycle(t, s, o).banks[i] ==
        if c == Refresh(i) then Bank(false, true, true, b.row, t.precharge)
        else if c.Command? && c.bank == i && c.kind.Precharge? then Bank(false, true, true, b.row, t.precharge)
        else if c.Command? && c.bank == i && c.kind.Activate? then Bank(true, false, true, c.row, t.activation)
        else b
  {
    BankInCycle(t, s, o, i);
  }

  /** If both lines of a free bank are raised it is precharged. */
  lemma PrechargeWins(t: Timing, banks: seq<Bank>, precharge: seq<bool>, activate: seq<bool>, row: nat, i: nat)
    requires |precharge| == |activate| == |banks| && i < |banks| && !banks[i].blocked && precharge[i]
    ensures BanksStep(t, banks, precharge, activate, row)[i] == Bank(false, true, true, banks[i].row, t.precharge)
  {
  }

  // ------------------------------------------------------------- spacing over runs

  lemma {:induction false} ClockRuns(t: Timing, s: System, offers: seq<Offer>, k: nat)
    requires AllFit(offers, |s.banks|) && k <= |offers| && Registers(s.timers) && s.timers.cycle + k < 0x1_0000_0000
    ensures var now := StateAt(t, s, offers, k).timers; Registers(now) && now.cycle == s.timers.cycle + k
  {
    if k == 0 {
      StateAtStart(t, s, offers);
    } else {
      ClockRuns(t, s, offers, k - 1);
      StateAfter(t, s, offers, k - 1);
      TimersExact(t, StateAt(t, s, offers, k - 1), offers[k - 1]);
    }
  }

  lemma TimersNext(t: Timing, s: System, offers: seq<Offer>, k: nat)
    requires AllFit(offers, |s.banks|) && k < |offers| && Registers(s.timers) && s.timers.cycle + k < 0x1_0000_0000
    ensures var now, next := StateAt(t, s, offers, k).timers, StateAt(t, s, offers, k + 1).timers;
      && next.lastRead == (if ReadTurn(offers[k], now) then s.timers.cycle + k else now.lastRead)
      && next.lastWrite == (if Is(IssueAt(t, s, offers, k), Write) then s.timers.cycle + k else now.lastWrite)
  {
    ClockRuns(t, s, offers, k);
    StateAfter(t, s, offers, k);
    TimersExact(t, StateAt(t, s, offers, k), offers[k]);
  }

  /** A register stamped with the cycle, counted from `c`, wherever there is a mark. */
  ghost predicate Stamped(marks: seq<bool>, stamps: seq<int>, c: int) {
    && |stamps| == |marks| + 1
    && forall k :: 0 <= k < |marks| ==> stamps[k + 1] == if marks[k] then c + k else stamps[k]
  }

  /** Once marked, it holds the cycle of the last mark. */
  lemma {:induction false} LastMark(marks: seq<bool>, stamps: seq<int>, c: int, k: nat, u: nat) returns (w: nat)
    requires Stamped(marks, stamps, c) && k < u <= |marks| && marks[k]
    ensures k <= w < u && marks[w] && stamps[u] == c + w
    decreases u
  {
    if marks[u - 1] {
      w := u - 1;
    } else {
      w := LastMark(marks, stamps, c, k, u - 1);
    }
  }

  /** If a mark waits four cycles after a stamp below the limit, then marks before the limit
      are followed by none for four cycles. */
  lemma {:induction false} MarksApart(marks: seq<bool>, stamps: seq<int>, c: int, limit: int, k: nat, u: nat)
    requires Stamped(marks, stamps, c) && k < u < |marks| && marks[k] && marks[u] && c + k < limit
    requires forall j :: 0 <= j < |marks| && marks[j] && stamps[j] < limit ==> stamps[j] + 4 <= c + j
    ensures k + 4 <= u
    decreases u
  {
    var w := LastMark(marks, stamps, c, k, u);
    if k < w {
      MarksApart(marks, stamps, c, limit, k, w);
    }
  }

  /** Where a run issues writes, and the register of the last one before each cycle. */
  function Writes(t: Timing, s: System, offers: seq<Offer>): seq<bool>
    requires AllFit(offers, |s.banks|)
  {
    seq(|offers|, k requires 0 <= k < |offers| => Is(IssueAt(t, s, offers, k), Write))
  }

  function LastWrites(t: Timing, s: System, offers: seq<Offer>): seq<int>
    requires AllFit(offers, |s.banks|)
  {
    seq(|offers| + 1, k requires 0 <= k <= |offers| => StateAt(t, s, offers, k).timers.lastWrite)
  }

  /** Where a run has read turns, and the register of the last one before each cycle. */
  function ReadTurns(t: Timing, s: System, offers: seq<Offer>): seq<bool>
    requires AllFit(offers, |s.banks|)
  {
    seq(|offers|, k requires 0 <= k < |offers| => ReadTurn(offers[k], StateAt(t, s, offers, k).timers))
  }

  function LastReads(t: Timing, s: System, offers: seq<Offer>): seq<int>
    requires AllFit(offers, |s.banks|)
  {
    seq(|offers| + 1, k requires 0 <= k <= |offers| => StateAt(t, s, offers, k).timers.lastRead)
  }

  lemma RunStamps(t: Timing, s: System, offers: seq<Offer>)
    requires AllFit(offers, |s.banks|) && Registers(s.timers) && s.timers.cycle + |offers| <= 0x1_0000_0000
    ensures Stamped(Writes(t, s, offers), LastWrites(t, s, offers), s.timers.cycle)
    ensures Stamped(ReadTurns(t, s, offers), LastReads(t, s, offers), s.timers.cycle)
  {
    forall k: nat | k < |offers|
      ensures var next := StateAt(t, s, offers, k + 1).timers;
        && next.lastRead == (if ReadTurns(t, s, offers)[k] then s.timers.cycle + k else LastReads(t, s, offers)[k])
        && next.lastWrite == (if Writes(t, s, offers)[k] then s.timers.cycle + k else LastWrites(t, s, offers)[k])
    {
      TimersNext(t, s, offers, k);
    }
  }

  /** A write needs its gap, and a read its turn and gap. */
  lemma ColumnTurns(t: Timing, s: System, offers: seq<Offer>, u: nat)
    requires AllFit(offers, |s.banks|) && u < |offers| && Registers(s.timers) && s.timers.cycle + u < 0x1_0000_0000
    ensures var now, o := StateAt(t, s, offers, u), offers[u];
      && now.timers.cycle == s.timers.cycle + u && Registers(now.timers)
      && (Is(IssueAt(t, s, offers, u), Write) <==> WriteTurn(o, now.timers) && Any(Write, now, o))
      && (Is(IssueAt(t, s, offers, u), Read) <==> ReadTurn(o, now.timers) && Any(Read, now, o))
  {
    ClockRuns(t, s, offers, u);
    IssueExact(StateAt(t, s, offers, u), offers[u]);
  }

  lemma WritesWait(t: Timing, s: System, offers: seq<Offer>)
    requires AllFit(offers, |s.banks|) && Registers(s.timers) && s.timers.cycle + |offers| <= 0x1_0000_0000
    ensures var last := LastWrites(t, s, offers);
      forall j :: 0 <= j < |offers| && Writes(t, s, offers)[j] && last[j] < 0xFFFF_FFFC ==> last[j] + 4 <= s.timers.cycle + j
  {
    forall j: nat | j < |offers| && Writes(t, s, offers)[j] && LastWrites(t, s, offers)[j] < 0xFFFF_FFFC
      ensures LastWrites(t, s, offers)[j] + 4 <= s.timers.cycle + j
    {
      ColumnTurns(t, s, offers, j);
    }
  }

  /**
   * Write spacing. In every run before the cycle counter wraps, two writes are at least four
   * cycles apart if the earlier one is not in the counter's last four values. After a write
   * in those the gap is open at once: a write goes out whenever a bank can take one.
   */
  lemma WriteSpacingExact(t: Timing, s: System, offers: seq<Offer>, k: nat, u: nat)
    requires AllFit(offers, |s.banks|) && k < u < |offers|
    requires Registers(s.timers) && s.timers.cycle + |offers| <= 0x1_0000_0000
    requires Is(IssueAt(t, s, offers, k), Write)
    ensures s.timers.cycle + k < 0xFFFF_FFFC && Is(IssueAt(t, s, offers, u), Write) ==> k + 4 <= u
    ensures s.timers.cycle + k >= 0xFFFF_FFFC ==>
      var o := offers[u];
      (Is(IssueAt(t, s, offers, u), Write) <==>
       !o.refresh && o.cmdReady && !o.readPriority && !o.bursting && Any(Write, StateAt(t, s, offers, u), o))
  {
    RunStamps(t, s, offers);
    if s.timers.cycle + k >= 0xFFFF_FFFC {
      var w := LastMark(Writes(t, s, offers), LastWrites(t, s, offers), s.timers.cycle, k, u);
      ColumnTurns(t, s, offers, u);
    } else if Is(IssueAt(t, s, offers, u), Write) {
      WritesWait(t, s, offers);
      MarksApart(Writes(t, s, offers), LastWrites(t, s, offers), s.timers.cycle, 0xFFFF_FFFC, k, u);
    }
  }

  /**
   * Read spacing. In every run before the cycle counter wraps, two reads are at least five
   * cycles apart if the later one is not in the counter's first four values. In those the
   * gap is open whenever a read has gone before: a read goes out whenever a bank can take one.
   */
  lemma ReadSpacingExact(t: Timing, s: System, offers: seq<Offer>, k: nat, u: nat)
    requires AllFit(offers, |s.banks|) && k < u < |offers|
    requires Registers(s.timers) && s.timers.cycle + |offers| <= 0x1_0000_0000
    requires Is(IssueAt(t, s, offers, k), Read)
    ensures s.timers.cycle + u >= 4 && Is(IssueAt(t, s, offers, u), Read) ==> k + 5 <= u
    ensures s.timers.cycle + u < 4 ==>
      var o := offers[u];
      (Is(IssueAt(t, s, offers, u), Read) <==>
       !o.refresh && o.cmdReady && o.readPriority && Any(Read, StateAt(t, s, offers, u), o))
  {
    RunStamps(t, s, offers);
    ColumnTurns(t, s, offers, k);
    var w := LastMark(ReadTurns(t, s, offers), LastReads(t, s, offers), s.timers.cycle, k, u);
    ColumnTurns(t, s, offers, u);
  }

  /** From reset, two reads of bank 0 in cycles 0 and 1. */
  lemma EarlyReads(t: Timing, rows: seq<nat>, last: Last)
    requires |rows| > 0 && last.read < 0xFFFF_FFFC && last.write < 0x1_0000_0000
    ensures var s := System(AfterReset(rows), Timers(0, last.read, last.write));
      var offers := [ReadOffer(|rows|, rows[0]), ReadOffer(|rows|, rows[0])];
      IssueAt(t, s, offers, 0) == Command(Read, 0, rows[0]) && IssueAt(t, s, offers, 1) == Command(Read, 0, rows[0])
  {
    var s := System(AfterReset(rows), Timers(0, last.read, last.write));
    var offers := [ReadOffer(|rows|, rows[0]), ReadOffer(|rows|, rows[0])];
    ClockRuns(t, s, offers, 1);
    StateAtStart(t, s, offers);
    StateAfter(t, s, offers, 0);
    ReadsFree(s, rows[0]);
    FreeBankExact(t, s, offers[0], 0);
    TimersNext(t, s, offers, 0);
    ReadsFree(StateAt(t, s, offers, 1), rows[0]);
  }

  lemma ReadsFree(s: System, row: nat)
    requires |s.banks| > 0 && !s.banks[0].blocked && s.banks[0].row == row && Registers(s.timers) && ReadGap(s.timers)
    ensures IssueOf(s, ReadOffer(|s.banks|, row)) == Command(Read, 0, row)
  {
    var o := ReadOffer(|s.banks|, row);
    assert Can(Read, s, o, 0);
    IssueExact(s, o);
  }
}
