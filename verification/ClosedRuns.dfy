/** Runs of the closed system: a hypothesis on requests alone that makes every fill
    safe, and a run that shows what happens without it. */
module ClosedRuns {
  import opened L1DTypes
  import opened GoldenSpec
  import opened Playback
  import opened GoldenRuns
  import opened Linearisation
  import opened BackingStore
  import opened ClosedSystem

  /** The slots that active MSHRs wait to fill are empty and all different. */
  ghost predicate SlotsReserved(st: State)
    requires Shape(st)
  {
    && (forall m :: 0 <= m < MSHRS && Active(st.mshrs[m]) ==> !st.cache[FillSlot(st, m)].valid)
    && (forall i, j :: 0 <= i < j < MSHRS && Active(st.mshrs[i]) && Active(st.mshrs[j]) ==> FillSlot(st, i) != FillSlot(st, j))
  }

  /** A primary miss must not pick a slot that an active MSHR already waits to fill.
      Fills come whenever their MSHR is active. */
  ghost predicate DistinctLegal(sys: Sys, ev: SysEvent)
    requires SysSized(sys)
  {
    match ev
    case SysAsk(r) =>
      && Aligned(r.addr) && HasRoom(sys.run.st, r)
      && (RouteOf(sys.run.st, r).Primary? ==>
            forall m :: 0 <= m < MSHRS && Active(sys.run.st.mshrs[m]) ==> FillSlot(sys.run.st, m) != VictimSlot(sys.run.st, r.addr))
    case SysFill(m) => m < MSHRS && Active(sys.run.st.mshrs[m])
    case SysPop => true
  }

  ghost predicate DistinctRun(evs: seq<SysEvent>) {
    evs == [] || (DistinctRun(evs[..|evs| - 1]) && DistinctLegal(SysExec(evs[..|evs| - 1]), evs[|evs| - 1]))
  }

  lemma ReservedSame(st: State, st': State)
    requires Shape(st) && Shape(st') && SlotsReserved(st)
    requires forall w: nat, s: nat :: w < WAYS && s < SETS ==> st'.cache[Slot(w, s)].valid == st.cache[Slot(w, s)].valid
    requires forall m :: 0 <= m < MSHRS ==> st'.mshrs[m].victimWay == st.mshrs[m].victimWay
    requires forall m :: 0 <= m < MSHRS ==> st.mshrs[m].entries <= st'.mshrs[m].entries
    requires forall m :: 0 <= m < MSHRS && Active(st'.mshrs[m]) ==> Active(st.mshrs[m])
    ensures SlotsReserved(st')
  {
    forall m | 0 <= m < MSHRS && Active(st'.mshrs[m])
      ensures FillSlot(st', m) == FillSlot(st, m) && !st'.cache[FillSlot(st', m)].valid
    {
      var slot := FillSlot(st, m);
      assert st'.cache[Slot(slot.way, slot.set_)].valid == st.cache[slot].valid;
    }
  }

  lemma ReservedAsk(st: State, r: Request)
    requires Shape(st) && SlotsReserved(st) && !RouteOf(st, r).Drop? && !RouteOf(st, r).Primary?
    ensures SlotsReserved(RequestStep(st, r).st)
  {
    NotedRoute(st, r);
    ReservedSame(st, RequestStep(st, r).st);
  }

  lemma ReservedPrimary(st: State, r: Request, m: nat)
    requires Shape(st) && SlotsReserved(st) && RouteOf(st, r) == Primary(m)
    requires forall i :: 0 <= i < MSHRS && Active(st.mshrs[i]) ==> FillSlot(st, i) != VictimSlot(st, r.addr)
    ensures SlotsReserved(RequestStep(st, r).st)
  {
    PrimaryCells(st, r, m);
    AddressFields(r.addr);
    BlockFields(GetTag(r.addr), GetSet(r.addr));
    var st' := RequestStep(st, r).st;
    assert FillSlot(st', m) == VictimSlot(st, r.addr);
    forall i | 0 <= i < MSHRS && Active(st'.mshrs[i])
      ensures i != m ==> FillSlot(st', i) == FillSlot(st, i)
      ensures !st'.cache[FillSlot(st', i)].valid
    {
      var slot := FillSlot(st', i);
      assert st'.cache[Slot(slot.way, slot.set_)] == st'.cache[slot];
    }
  }

  lemma ReservedFill(st: State, m: nat, line: Line)
    requires Shape(st) && Structure(st) && SlotsReserved(st) && m < MSHRS && Active(st.mshrs[m])
    ensures SlotsReserved(FillStep(st, st.mshrs[m].entries[0].blockAddr, line).st)
  {
    var b := st.mshrs[m].entries[0].blockAddr;
    MatchesSelf(st, m);
    FillPlace(st, m, b, line);
    var st' := FillStep(st, b, line).st;
    forall i | 0 <= i < MSHRS && Active(st'.mshrs[i])
      ensures FillSlot(st', i) == FillSlot(st, i) && !st'.cache[FillSlot(st', i)].valid
    {
      assert i != m;
    }
  }

  lemma ReservedNext(sys: Sys, r: Request)
    requires SysSized(sys) && SlotsReserved(sys.run.st) && !RouteOf(sys.run.st, r).Drop? && DistinctLegal(sys, SysAsk(r))
    ensures SlotsReserved(SysNext(sys, SysAsk(r)).run.st)
  {
    NextForms(sys.run, r);
    if RouteOf(sys.run.st, r).Primary? {
      ReservedPrimary(sys.run.st, r, RouteOf(sys.run.st, r).m);
    } else {
      ReservedAsk(sys.run.st, r);
    }
  }

  lemma DistinctAsk(sys: Sys, r: Request)
    requires SysSized(sys) && Inv(sys.run) && SlotsReserved(sys.run.st) && DistinctLegal(sys, SysAsk(r))
    ensures SlotsReserved(SysNext(sys, SysAsk(r)).run.st)
  {
    RoomIsRoute(sys.run, r);
    ReservedNext(sys, r);
  }

  lemma DistinctFill(sys: Sys, m: nat)
    requires SysSized(sys) && Structure(sys.run.st) && SlotsReserved(sys.run.st) && DistinctLegal(sys, SysFill(m))
    ensures SysLegal(sys, SysFill(m)) && SlotsReserved(SysNext(sys, SysFill(m)).run.st)
  {
    ReservedFill(sys.run.st, m, sys.captured[m]);
  }

  lemma DistinctStep(sys: Sys, ev: SysEvent)
    requires SysInv(sys) && SlotsReserved(sys.run.st) && DistinctLegal(sys, ev)
    ensures SysLegal(sys, ev) && SlotsReserved(SysNext(sys, ev).run.st)
  {
    match ev
    case SysAsk(r) => DistinctAsk(sys, r);
    case SysFill(m) => DistinctFill(sys, m);
    case SysPop => ReservedSame(sys.run.st, Next(sys.run, Pop).st);
  }

  /**
   * If no primary miss picks a slot that is already waited for, every fill of the run
   * is safe, and the whole system is the flat memory: content, clean lines and every
   * completion.
   */
  lemma {:induction false} DistinctSlotsSuffice(evs: seq<SysEvent>)
    requires DistinctRun(evs)
    ensures SysLegalRun(evs) && SysInv(SysExec(evs)) && ContentOk(SysExec(evs))
    ensures SlotsReserved(SysExec(evs).run.st)
  {
    if evs == [] {
      assert forall m :: 0 <= m < MSHRS ==> !Active(Start().st.mshrs[m]);
    } else {
      var before := evs[..|evs| - 1];
      DistinctSlotsSuffice(before);
      DistinctStep(SysExec(before), evs[|evs| - 1]);
    }
    WriteBackSound(evs);
  }

  // ------------------------------------------------------------- a losing run

  const STORE_A := Request(0x0, 7, 0, true)
  const STORE_B := Request(0x200, 9, 1, true)
  const ENTRY_A := MshrEntry(0x0, 0, true, 7, 0)
  const ENTRY_B := MshrEntry(0x200, 8, true, 9, 1)

  /** Set 0 is empty and its PLRU bits are clear; the MSHRs hold these stores, both
      waiting for way 0; block 0 is on its way from the store as first generated. */
  ghost predicate Waits(sys: Sys, e0: seq<MshrEntry>, e1: seq<MshrEntry>) {
    && SysSized(sys)
    && sys.run.st.plru[0] == 0
    && (forall w: nat :: w < WAYS ==> !sys.run.st.cache[Slot(w, 0)].valid)
    && sys.run.st.mshrs[0].entries == e0 && sys.run.st.mshrs[1].entries == e1
    && (e0 != [] ==> sys.run.st.mshrs[0].victimWay == 0 && sys.captured[0] == DefaultLine(0))
    && (e1 != [] ==> sys.run.st.mshrs[1].victimWay == 0)
    && Fetch(sys.store, 0) == DefaultLine(0)
  }

  lemma FirstAsk(sys: Sys)
    requires Waits(sys, [], [])
    ensures Waits(SysNext(sys, SysAsk(STORE_A)), [ENTRY_A], []) && RouteOf(sys.run.st, STORE_A) == Primary(0)
  {
    var st := sys.run.st;
    assert !Active(st.mshrs[0]) && !Active(st.mshrs[1]);
    assert RouteOf(st, STORE_A) == Primary(0);
    NotedRoute(st, STORE_A);
    NextForms(sys.run, STORE_A);
    assert Evicted(st, sys.store, 0) == sys.store;
  }

  lemma SecondAsk(sys: Sys)
    requires Waits(sys, [ENTRY_A], [])
    ensures Waits(SysNext(sys, SysAsk(STORE_B)), [ENTRY_A], [ENTRY_B]) && RouteOf(sys.run.st, STORE_B) == Primary(1)
  {
    var st := sys.run.st;
    assert GetBlock(STORE_B.addr) == 8 && GetSet(STORE_B.addr) == 0;
    assert Active(st.mshrs[0]) && !Tracks(st.mshrs[0], 8) && !Active(st.mshrs[1]);
    assert RouteOf(st, STORE_B) == Primary(1);
    NotedRoute(st, STORE_B);
    NextForms(sys.run, STORE_B);
    assert Evicted(st, sys.store, 0x200) == sys.store;
  }

  /** A fill for a single waiting store leaves a dirty line that holds it. */
  lemma SingleStoreFill(st: State, m: nat, b: Block, line: Line, e: MshrEntry)
    requires Shape(st) && Structure(st) && m < MSHRS && st.mshrs[m].entries == [e]
    requires e.we && e.blockAddr == b && GetWord(e.paddr) < 8
    ensures var st' := FillStep(st, b, line).st;
      var cell := st'.cache[Slot(st.mshrs[m].victimWay, SetOf(b))];
      && st'.mshrs == st.mshrs[m := st.mshrs[m].(entries := [])]
      && cell.valid && cell.dirty && cell.tag == TagOf(b) && cell.data[GetWord(e.paddr)] == e.data
  {
    MatchesSelf(st, m);
    FillPlace(st, m, b, line);
    assert st.mshrs[m].entries[0].we;
    PlaySnoc(line, [], e);
    assert [] + [e] == [e];
  }

  /** Both MSHRs wait for one empty slot, the first with a store that changes its word. */
  ghost predicate SharedSlot(sys: Sys, e: MshrEntry, f: MshrEntry)
    requires SysSized(sys)
  {
    && sys.run.st.mshrs[0].entries == [e] && sys.run.st.mshrs[1].entries == [f]
    && FillSlot(sys.run.st, 0) == FillSlot(sys.run.st, 1)
    && !sys.run.st.cache[FillSlot(sys.run.st, 0)].valid
    && e.we && GetWord(e.paddr) < 8 && Fetch(sys.store, e.blockAddr)[GetWord(e.paddr)] != e.data
  }

  /** The next fill for the same slot would overwrite that line. */
  lemma ThenOverwrites(sys: Sys, e: MshrEntry, f: MshrEntry)
    requires SysInv(sys) && SharedSlot(sys, e, f)
    ensures var sys' := SysNext(sys, SysFill(0));
      Active(sys'.run.st.mshrs[1]) && Overwrites(sys', 1)
  {
    SingleStoreFill(sys.run.st, 0, e.blockAddr, sys.captured[0], e);
    FillFields(e.blockAddr);
    var sys' := SysNext(sys, SysFill(0));
    assert FillSlot(sys'.run.st, 1) == FillSlot(sys.run.st, 1);
  }

  /** Two active MSHRs that share an empty slot, the first waiting with a store: filling
      both loses the store. */
  lemma SharedSlotLoses(sys: Sys, e: MshrEntry, f: MshrEntry)
    requires SysInv(sys) && SharedSlot(sys, e, f)
    ensures var sys' := SysNext(sys, SysFill(0));
      SysInv(sys') && Active(sys'.run.st.mshrs[1]) && !ContentOk(SysNext(sys', SysFill(1)))
  {
    ThenOverwrites(sys, e, f);
    FillSysKeeps(sys, 0);
    FillExact(SysNext(sys, SysFill(0)), 1);
  }

  lemma WaitsShared(sys: Sys)
    requires Waits(sys, [ENTRY_A], [ENTRY_B])
    ensures SharedSlot(sys, ENTRY_A, ENTRY_B)
  {
    assert FillSlot(sys.run.st, 0) == Slot(0, 0);
  }

  lemma OneStore(sys: Sys)
    requires SysInv(sys) && Waits(sys, [], [])
    ensures var sys' := SysNext(sys, SysAsk(STORE_A)); SysInv(sys') && Waits(sys', [ENTRY_A], [])
  {
    FirstAsk(sys);
    AskSysKeeps(sys, STORE_A);
  }

  lemma AnotherStore(sys: Sys)
    requires SysInv(sys) && Waits(sys, [ENTRY_A], [])
    ensures var sys' := SysNext(sys, SysAsk(STORE_B)); SysInv(sys') && SharedSlot(sys', ENTRY_A, ENTRY_B)
  {
    SecondAsk(sys);
    AskSysKeeps(sys, STORE_B);
    WaitsShared(SysNext(sys, SysAsk(STORE_B)));
  }

  /**
   * Without the hypothesis stores are lost. Two stores miss on blocks 0 and 8 of one
   * set; a miss does not touch the PLRU bits, so both reserve way 0; the second fill
   * replaces the first's dirty line and the store to block 0 is gone.
   */
  lemma SharedSlotLosesStore()
    ensures var sys2 := SysNext(SysNext(SysStart(), SysAsk(STORE_A)), SysAsk(STORE_B));
      var sys3 := SysNext(sys2, SysFill(0));
      SysInv(sys3) && Active(sys3.run.st.mshrs[1]) && !ContentOk(SysNext(sys3, SysFill(1)))
  {
    StartWaits();
    TwoStoresLose(SysStart());
  }

  lemma StartWaits()
    ensures SysInv(SysStart()) && Waits(SysStart(), [], [])
  {
    SysStartInv();
  }

  lemma TwoStoresLose(sys: Sys)
    requires SysInv(sys) && Waits(sys, [], [])
    ensures var sys2 := SysNext(SysNext(sys, SysAsk(STORE_A)), SysAsk(STORE_B));
      var sys3 := SysNext(sys2, SysFill(0));
      SysInv(sys3) && Active(sys3.run.st.mshrs[1]) && !ContentOk(SysNext(sys3, SysFill(1)))
  {
    OneStore(sys);
    AnotherStore(SysNext(sys, SysAsk(STORE_A)));
    SharedSlotLoses(SysNext(SysNext(sys, SysAsk(STORE_A)), SysAsk(STORE_B)), ENTRY_A, ENTRY_B);
  }
}
