/** Fills that match no MSHR, in the system as a whole: the line is installed over the
    PLRU victim, and nothing is written back. */
module UnmatchedFill {
  import opened L1DTypes
  import opened GoldenSpec
  import opened FlatMemory
  import opened GoldenRuns
  import opened Linearisation
  import opened GoldenResults
  import opened BackingStore
  import opened ClosedSystem
  import opened ClosedRuns

  ghost function Supplied(sys: Sys, b: Block, line: Line): (sys': Sys)
    requires SysSized(sys)
    ensures SysSized(sys')
  {
    sys.(run := Next(sys.run, Supply(b, line)))
  }

  ghost function VictimWay(st: State, b: Block): (way: nat)
    requires Shape(st)
    ensures way < WAYS
  {
    PlruVictim(st.plru[SetOf(b)])
  }

  /** The victim is a dirty line that the backing store lacks. */
  ghost predicate Discards(sys: Sys, b: Block)
    requires SysSized(sys)
  {
    var cell := sys.run.st.cache[Slot(VictimWay(sys.run.st, b), SetOf(b))];
    cell.valid && cell.dirty && cell.tag < 8192 && Fetch(sys.store, BlockOf(cell.tag, SetOf(b))) != cell.data
  }

  /** What an unmatched fill does. */
  lemma SuppliedState(sys: Sys, b: Block, line: Line)
    requires SysSized(sys) && FindMshr(sys.run.st.mshrs, b) < 0
    ensures var sys' := Supplied(sys, b, line);
      && sys'.run.st.cache == sys.run.st.cache[Slot(VictimWay(sys.run.st, b), SetOf(b)) := Cell(true, false, TagOf(b), line)]
      && sys'.run.st.mshrs == sys.run.st.mshrs && sys'.run.log == sys.run.log && sys'.run.pend == sys.run.pend
  {
    FillFields(b);
  }

  /** The victim's line is its block's flat contents, which the store has unless the line is
      dirty and the fill discards it. */
  lemma VictimStored(sys: Sys, b: Block, c: Block)
    requires SysInv(sys) && HoldsBlock(sys.run.st, VictimWay(sys.run.st, b), c) && SetOf(c) == SetOf(b)
    ensures Fetch(sys.store, c) == FlatLine(sys.run.log, c) <==> !Discards(sys, b)
    ensures FindMshr(sys.run.st.mshrs, c) < 0 && !Tracked(sys.run.st, c)
  {
    FillFields(c);
    var cell := sys.run.st.cache[Slot(VictimWay(sys.run.st, b), SetOf(b))];
    assert CellOk(cell, SetOf(b), sys.run.log);
  }

  /** Which ways hold a block after the fill. */
  lemma SuppliedHolds(sys: Sys, b: Block, line: Line, w: nat, c: Block)
    requires SysSized(sys) && FindMshr(sys.run.st.mshrs, b) < 0 && w < WAYS
    ensures HoldsBlock(Supplied(sys, b, line).run.st, w, c) ==
      if w == VictimWay(sys.run.st, b) && SetOf(c) == SetOf(b) then c == b else HoldsBlock(sys.run.st, w, c)
  {
    SuppliedState(sys, b, line);
    FillFields(b);
    FillFields(c);
  }

  lemma SuppliedClean(sys: Sys, b: Block, line: Line)
    requires SysInv(sys) && FindMshr(sys.run.st.mshrs, b) < 0
    ensures CleanOk(Supplied(sys, b, line).run.st, sys.store) <==> Fetch(sys.store, b) == line
  {
    SuppliedState(sys, b, line);
    FillFields(b);
    var st, st' := sys.run.st, Supplied(sys, b, line).run.st;
    var way := VictimWay(st, b);
    assert st'.cache[Slot(way, SetOf(b))] == Cell(true, false, TagOf(b), line);
    forall w: nat, s: nat | w < WAYS && s < SETS
      ensures (w == way && s == SetOf(b)) || st'.cache[Slot(w, s)] == st.cache[Slot(w, s)]
    {
    }
  }

  lemma SuppliedRest(sys: Sys, b: Block, line: Line)
    requires SysInv(sys) && FindMshr(sys.run.st.mshrs, b) < 0 && !Discards(sys, b)
    ensures RestOk(Supplied(sys, b, line).run.st, sys.store, sys.run.log)
  {
    SuppliedState(sys, b, line);
    var st, st' := sys.run.st, Supplied(sys, b, line).run.st;
    forall c: Block | !Cached(st', c) && !Tracked(st', c)
      ensures Fetch(sys.store, c) == FlatLine(sys.run.log, c)
    {
      if Cached(st, c) {
        var w: nat :| w < WAYS && HoldsBlock(st, w, c);
        SuppliedHolds(sys, b, line, w, c);
        assert !HoldsBlock(st', w, c);
        VictimStored(sys, b, c);
      }
    }
  }

  /** A block whose line the fill discards is afterwards neither cached nor awaited. */
  lemma DiscardedBlock(sys: Sys, b: Block, line: Line, c: Block)
    requires SysInv(sys) && FindMshr(sys.run.st.mshrs, b) < 0 && SetOf(c) == SetOf(b) && c != b
    requires HoldsBlock(sys.run.st, VictimWay(sys.run.st, b), c)
    ensures var st' := Supplied(sys, b, line).run.st;
      && !Cached(st', c) && !Tracked(st', c)
      && Lookup(st'.cache, SetOf(c), TagOf(c)) < 0 && FindMshr(st'.mshrs, c) < 0
  {
    SuppliedState(sys, b, line);
    VictimStored(sys, b, c);
    forall w: nat | w < WAYS ensures !HoldsBlock(Supplied(sys, b, line).run.st, w, c) {
      SuppliedHolds(sys, b, line, w, c);
    }
  }

  /** The block that is discarded. */
  ghost function VictimBlock(sys: Sys, b: Block): (c: Block)
    requires SysSized(sys) && Discards(sys, b)
    ensures SetOf(c) == SetOf(b) && HoldsBlock(sys.run.st, VictimWay(sys.run.st, b), c)
  {
    var cell := sys.run.st.cache[Slot(VictimWay(sys.run.st, b), SetOf(b))];
    BlockFields(cell.tag, SetOf(b));
    BlockOf(cell.tag, SetOf(b))
  }

  /** The part of the system that is the run. */
  lemma SuppliedRun(sys: Sys, b: Block, line: Line)
    requires SysInv(sys) && FindMshr(sys.run.st.mshrs, b) < 0
    ensures Inv(Supplied(sys, b, line).run) <==> line == FlatLine(sys.run.log, b) && Alone(sys.run.st, b)
  {
    UnmatchedFillExact(sys.run, b, line);
  }

  lemma SuppliedInFlight(sys: Sys, b: Block, line: Line)
    requires SysInv(sys) && FindMshr(sys.run.st.mshrs, b) < 0
    ensures InFlightOk(Supplied(sys, b, line))
  {
    SuppliedState(sys, b, line);
  }

  lemma HarmlessKeeps(sys: Sys, b: Block, line: Line)
    requires SysInv(sys) && FindMshr(sys.run.st.mshrs, b) < 0
    requires line == FlatLine(sys.run.log, b) && Alone(sys.run.st, b) && !Discards(sys, b)
    ensures SysInv(Supplied(sys, b, line))
  {
    SuppliedRun(sys, b, line);
    SuppliedState(sys, b, line);
    SuppliedInFlight(sys, b, line);
    SuppliedClean(sys, b, line);
    SuppliedRest(sys, b, line);
    StoredFlat(sys, b);
  }

  /**
   * Exactly when an unmatched fill does no harm: the system invariant survives, and with
   * it everything that follows from it for the rest of the run, if and only if the line is
   * what the block holds, no way but the victim caches the block, and the victim is not a
   * dirty line that the backing store lacks.
   */
  lemma UnmatchedSystemExact(sys: Sys, b: Block, line: Line)
    requires SysInv(sys) && FindMshr(sys.run.st.mshrs, b) < 0
    ensures SysInv(Supplied(sys, b, line)) <==>
      line == FlatLine(sys.run.log, b) && Alone(sys.run.st, b) && !Discards(sys, b)
  {
    SuppliedRun(sys, b, line);
    if line == FlatLine(sys.run.log, b) && Alone(sys.run.st, b) {
      if Discards(sys, b) {
        DiscardBreaks(sys, b, line);
      } else {
        HarmlessKeeps(sys, b, line);
      }
    }
  }

  lemma DiscardBreaks(sys: Sys, b: Block, line: Line)
    requires SysInv(sys) && FindMshr(sys.run.st.mshrs, b) < 0 && line == FlatLine(sys.run.log, b) && Discards(sys, b)
    ensures !SysInv(Supplied(sys, b, line))
  {
    var c := VictimBlock(sys, b);
    VictimStored(sys, b, c);
    if c == b {
      SuppliedClean(sys, b, line);
    } else {
      DiscardedBlock(sys, b, line, c);
      SuppliedState(sys, b, line);
    }
  }

  /** Where nothing is discarded and no other way holds it, the block is up to date in the store. */
  lemma StoredFlat(sys: Sys, b: Block)
    requires SysInv(sys) && FindMshr(sys.run.st.mshrs, b) < 0 && Alone(sys.run.st, b) && !Discards(sys, b)
    ensures Fetch(sys.store, b) == FlatLine(sys.run.log, b)
  {
    if HoldsBlock(sys.run.st, VictimWay(sys.run.st, b), b) {
      VictimStored(sys, b, b);
    }
  }

  /** A way below the victim holds the block, and is found before it. */
  ghost predicate Shadowed(st: State, b: Block)
    requires Shape(st)
  {
    exists w: nat :: w < VictimWay(st, b) && HoldsBlock(st, w, b)
  }

  /**
   * Exactly when an unmatched fill leaves every block's content right at once: its line is
   * right or not the one found, and it discards no other block's only up-to-date line.
   */
  lemma UnmatchedContentExact(sys: Sys, b: Block, line: Line)
    requires SysInv(sys) && FindMshr(sys.run.st.mshrs, b) < 0
    ensures ContentOk(Supplied(sys, b, line)) <==>
      && (line == FlatLine(sys.run.log, b) || Shadowed(sys.run.st, b))
      && !(Discards(sys, b) && !HoldsBlock(sys.run.st, VictimWay(sys.run.st, b), b))
  {
    var st, sys' := sys.run.st, Supplied(sys, b, line);
    SuppliedState(sys, b, line);
    OwnContent(sys, b, line);
    if Discards(sys, b) && !HoldsBlock(st, VictimWay(st, b), b) {
      var c := VictimBlock(sys, b);
      VictimStored(sys, b, c);
      DiscardedBlock(sys, b, line, c);
      assert Content(sys', c) == Fetch(sys.store, c);
    } else if line == FlatLine(sys.run.log, b) || Shadowed(st, b) {
      forall c: Block | c != b ensures Content(sys', c) == FlatLine(sys.run.log, c) {
        OtherContent(sys, b, line, c);
      }
    }
  }

  /** The cache by itself does not show it: an unmatched fill with the right line, of a block
      not cached, onto a dirty line that the store lacks keeps the run invariant and loses
      the victim's block. */
  lemma DiscardLosesBlock(sys: Sys, b: Block, line: Line)
    requires SysInv(sys) && FindMshr(sys.run.st.mshrs, b) < 0 && !Cached(sys.run.st, b)
    requires line == FlatLine(sys.run.log, b) && Discards(sys, b)
    ensures Inv(Supplied(sys, b, line).run) && !ContentOk(Supplied(sys, b, line))
  {
    UncachedAlone(sys.run.st, b);
    SuppliedRun(sys, b, line);
    UnmatchedContentExact(sys, b, line);
  }

  lemma UncachedAlone(st: State, b: Block)
    requires Shape(st) && !Cached(st, b)
    ensures Alone(st, b) && !HoldsBlock(st, VictimWay(st, b), b)
  {
    forall w: nat | w < WAYS
      ensures !(st.cache[Slot(w, SetOf(b))].valid && st.cache[Slot(w, SetOf(b))].tag == TagOf(b))
    {
      assert !HoldsBlock(st, w, b);
    }
  }

  lemma OwnContent(sys: Sys, b: Block, line: Line)
    requires SysInv(sys) && FindMshr(sys.run.st.mshrs, b) < 0
    ensures Content(Supplied(sys, b, line), b) == FlatLine(sys.run.log, b) <==>
      line == FlatLine(sys.run.log, b) || Shadowed(sys.run.st, b)
  {
    var st, st' := sys.run.st, Supplied(sys, b, line).run.st;
    SuppliedState(sys, b, line);
    FillFields(b);
    var way := VictimWay(st, b);
    forall w: nat | w < WAYS ensures HoldsBlock(st', w, b) == (w == way || HoldsBlock(st, w, b)) {
      SuppliedHolds(sys, b, line, w, b);
    }
    var found := Lookup(st'.cache, SetOf(b), TagOf(b));
    assert HoldsBlock(st', way, b);
    assert 0 <= found <= way && HoldsBlock(st', found, b);
    if found < way {
      assert CellOk(st.cache[Slot(found, SetOf(b))], SetOf(b), sys.run.log);
    } else {
      assert st'.cache[Slot(way, SetOf(b))].data == line;
    }
  }

  /** A block whose line is not discarded keeps its content. */
  lemma OtherContent(sys: Sys, b: Block, line: Line, c: Block)
    requires SysInv(sys) && FindMshr(sys.run.st.mshrs, b) < 0 && c != b
    requires !Discards(sys, b) || HoldsBlock(sys.run.st, VictimWay(sys.run.st, b), b)
    ensures Content(Supplied(sys, b, line), c) == FlatLine(sys.run.log, c)
  {
    var st, sys' := sys.run.st, Supplied(sys, b, line);
    var way := VictimWay(st, b);
    SuppliedState(sys, b, line);
    FillFields(b);
    FillFields(c);
    InvContent(sys);
    if SetOf(c) == SetOf(b) && HoldsBlock(st, way, c) {
      DiscardedBlock(sys, b, line, c);
      VictimStored(sys, b, c);
    } else {
      forall w: nat | w < WAYS ensures HoldsBlock(sys'.run.st, w, c) == HoldsBlock(st, w, c) {
        SuppliedHolds(sys, b, line, w, c);
      }
      SameFound(st, sys'.run.st, c);
    }
  }

  lemma SameFound(st: State, st': State, c: Block)
    requires Shape(st) && Shape(st')
    requires forall w: nat :: w < WAYS ==> HoldsBlock(st', w, c) == HoldsBlock(st, w, c)
    ensures Lookup(st'.cache, SetOf(c), TagOf(c)) == Lookup(st.cache, SetOf(c), TagOf(c))
  {
    var f, f' := Lookup(st.cache, SetOf(c), TagOf(c)), Lookup(st'.cache, SetOf(c), TagOf(c));
    if f >= 0 {
      assert HoldsBlock(st', f, c);
    }
    if f' >= 0 {
      assert HoldsBlock(st, f', c);
    }
  }

  // ------------------------------------------------------------- wide block addresses

  /** The block that a fill for a 32-bit block address installs. */
  function Alias(b: nat): Block { b % 0x1_0000 }

  /** The shift to a byte address drops the bits beyond 26. */
  lemma ShiftedOutOfWord(b: nat, c: nat, q: nat)
    requires b == q * 0x400_0000 + c && c < 0x400_0000
    ensures b * 64 % 0x1_0000_0000 == c * 64 && Alias(b) == c % 0x1_0000
  {
    assert b * 64 == q * 0x1_0000_0000 + c * 64;
    assert b == q * 0x400 * 0x1_0000 + c;
  }

  lemma AliasFields(b: nat)
    ensures GetTag(b * 64 % 0x1_0000_0000) == TagOf(Alias(b)) && GetSet(b * 64 % 0x1_0000_0000) == SetOf(Alias(b))
  {
    var c := b % 0x400_0000;
    ShiftedOutOfWord(b, c, b / 0x400_0000);
    FieldsOfShifted(c);
  }

  lemma FieldsOfShifted(c: nat)
    ensures GetTag(c * 64) == TagOf(c % 0x1_0000) && GetSet(c * 64) == SetOf(c % 0x1_0000)
  {
    assert c * 64 / 64 == c && c * 64 / 512 == c / 8;
    var d, q := c % 0x1_0000, c / 0x1_0000;
    assert c / 8 == q * 8192 + d / 8;
  }

  ghost function WideSupplied(sys: Sys, b: nat, line: Line): Sys
    requires SysSized(sys)
  {
    sys.(run := sys.run.(st := FillStep(sys.run.st, b, line).st))
  }

  /** No MSHR waits for so wide an address; the line is installed as its alias's. */
  lemma WideFillState(st: State, b: nat, line: Line)
    requires Shape(st) && 0x1_0000 <= b < 0x1_0000_0000
    ensures FindMshr(st.mshrs, b) < 0
    ensures FillStep(st, b, line) == Outcome(Install(st, VictimWay(st, Alias(b)), Alias(b), line, false), 0)
  {
    AliasFields(b);
    FillFields(Alias(b));
  }

  /** A line installed for a block that an MSHR waits for breaks the invariant. */
  lemma TrackedInstallBreaks(run: Run, st': State, c: Block, line: Line)
    requires Inv(run) && FindMshr(run.st.mshrs, c) >= 0
    requires st' == Install(run.st, VictimWay(run.st, c), c, line, false)
    ensures !Inv(run.(st := st'))
  {
    FillFields(c);
    var way := VictimWay(run.st, c);
    assert st'.cache[Slot(way, SetOf(c))] == Cell(true, false, TagOf(c), line);
    assert Tracks(st'.mshrs[FindMshr(run.st.mshrs, c)], BlockOf(st'.cache[Slot(way, SetOf(c))].tag, SetOf(c)));
    assert !Structure(st');
  }

  /**
   * Fills for block addresses beyond 16 bits match no MSHR and are taken for a lower block.
   * One does no harm if and only if no MSHR waits for that block and the conditions on an
   * unmatched fill hold of it.
   */
  lemma WideFillExact(sys: Sys, b: nat, line: Line)
    requires SysInv(sys) && 0x1_0000 <= b < 0x1_0000_0000
    ensures var c := Alias(b);
      SysInv(WideSupplied(sys, b, line)) <==>
        FindMshr(sys.run.st.mshrs, c) < 0 && line == FlatLine(sys.run.log, c) && Alone(sys.run.st, c) && !Discards(sys, c)
  {
    var c := Alias(b);
    WideFillState(sys.run.st, b, line);
    if FindMshr(sys.run.st.mshrs, c) < 0 {
      FillFields(c);
      assert WideSupplied(sys, b, line) == Supplied(sys, c, line);
      UnmatchedSystemExact(sys, c, line);
    } else {
      TrackedInstallBreaks(sys.run, FillStep(sys.run.st, b, line).st, c, line);
    }
  }

  // ------------------------------------------------------------- a run that discards

  /** A store to the first word of the n-th block of set 0. */
  function StoreTo(n: nat): Request
    requires n < 3
  {
    Request(n * 0x200, 7, 0, true)
  }

  /** Set 0's PLRU bits when `n` ways have been filled in turn. */
  function BitsAfter(n: nat): bv8 { if n == 0 then 0 else if n == 1 then 1 else if n == 2 then 3 else 4 }

  lemma NextBits(n: nat)
    requires n < 3
    ensures PlruVictim(BitsAfter(n)) == n && PlruUpdate(BitsAfter(n), n) == BitsAfter(n + 1)
    ensures PlruVictim(BitsAfter(3)) == 0
  {
    if n == 0 {
    } else if n == 1 {
    } else {
      assert n == 2;
    }
  }

  /** The first `n` ways of set 0 hold blocks stored to, the rest nothing, and nothing has
      ever been written back. */
  ghost predicate WaysFilled(st: State, store: Store, n: nat)
    requires Shape(st)
  {
    && n <= 3 && st.plru[0] == BitsAfter(n)
    && (forall w: nat :: w < n ==> FilledWith(st.cache[Slot(w, 0)], w))
    && (forall w: nat :: n <= w < WAYS ==> !st.cache[Slot(w, 0)].valid)
    && forall b: Block :: Fetch(store, b) == DefaultLine(b)
  }

  ghost predicate FilledWith(cell: Cell, w: nat) { cell.valid && cell.dirty && cell.tag == w && cell.data[0] == 7 }

  ghost predicate RestingState(st: State, store: Store, n: nat) {
    Shape(st) && WaysFilled(st, store, n) && !Active(st.mshrs[0]) && !Active(st.mshrs[1])
  }

  ghost predicate MissingState(st: State, store: Store, n: nat) {
    && Shape(st) && WaysFilled(st, store, n) && n < 3 && !Active(st.mshrs[1])
    && st.mshrs[0] == Mshr([MshrEntry(n * 0x200, n * 8, true, 7, 0)], n)
  }

  ghost predicate Resting(sys: Sys, n: nat) { SysInv(sys) && RestingState(sys.run.st, sys.store, n) }

  ghost predicate Missing(sys: Sys, n: nat) { SysInv(sys) && MissingState(sys.run.st, sys.store, n) }

  lemma StoreFields(n: nat)
    requires n < 3
    ensures var a := StoreTo(n).addr; GetBlock(a) == n * 8 && GetSet(a) == 0 && GetTag(a) == n && GetWord(a) == 0
    ensures SetOf(n * 8) == 0 && TagOf(n * 8) == n
  {
  }

  lemma StoreRoute(st: State, store: Store, n: nat)
    requires Shape(st) && WaysFilled(st, store, n) && n < 3 && !Active(st.mshrs[0]) && !Active(st.mshrs[1])
    ensures RouteOf(st, StoreTo(n)) == Primary(0) && VictimSlot(st, StoreTo(n).addr) == Slot(n, 0)
  {
    StoreFields(n);
    NextBits(n);
    forall w: nat | w < WAYS ensures st.cache[Slot(w, 0)].valid ==> st.cache[Slot(w, 0)].tag != n {
      if w < n {
        assert FilledWith(st.cache[Slot(w, 0)], w);
      }
    }
  }

  lemma StoreState(st: State, store: Store, n: nat)
    requires Shape(st) && WaysFilled(st, store, n) && n < 3 && st.mshrs[0].entries == [] && !Active(st.mshrs[1])
    ensures var st' := RequestStep(st, StoreTo(n)).st;
      && WaysFilled(st', StoreAfter(st, store, StoreTo(n).addr), n) && !Active(st'.mshrs[1])
      && st'.mshrs[0] == Mshr([MshrEntry(n * 0x200, n * 8, true, 7, 0)], n)
  {
    StoreFields(n);
    StoreRoute(st, store, n);
    NotedRoute(st, StoreTo(n));
    var st' := RequestStep(st, StoreTo(n)).st;
    assert st' == PrimaryStep(NoteStore(st, StoreTo(n)), StoreTo(n), 0);
    forall w: nat | w < WAYS ensures st'.cache[Slot(w, 0)] == if w == n then st.cache[Slot(w, 0)].(valid := false) else st.cache[Slot(w, 0)] {
    }
    forall w: nat | w < n ensures FilledWith(st'.cache[Slot(w, 0)], w) {
      assert FilledWith(st.cache[Slot(w, 0)], w);
    }
  }

  lemma ThenMisses(sys: Sys, n: nat)
    requires Resting(sys, n) && n < 3
    ensures Missing(SysNext(sys, SysAsk(StoreTo(n))), n)
  {
    StateMisses(sys, n);
    AskSysKeeps(sys, StoreTo(n));
  }

  lemma StateMisses(sys: Sys, n: nat)
    requires SysSized(sys) && RestingState(sys.run.st, sys.store, n) && n < 3
    ensures var sys' := SysNext(sys, SysAsk(StoreTo(n))); MissingState(sys'.run.st, sys'.store, n)
    ensures Aligned(StoreTo(n).addr) && !RouteOf(sys.run.st, StoreTo(n)).Drop?
  {
    StoreRoute(sys.run.st, sys.store, n);
    StoreState(sys.run.st, sys.store, n);
    PrimaryMoves(sys, StoreTo(n), 0);
  }

  lemma PrimaryMoves(sys: Sys, r: Request, m: nat)
    requires SysSized(sys) && RouteOf(sys.run.st, r) == Primary(m)
    ensures var sys' := SysNext(sys, SysAsk(r));
      sys'.run.st == RequestStep(sys.run.st, r).st && sys'.store == StoreAfter(sys.run.st, sys.store, r.addr)
  {
    NextForms(sys.run, r);
  }

  lemma FillPlru(st: State, m: nat, b: Block, line: Line)
    requires Shape(st) && m < MSHRS && m == FindMshr(st.mshrs, b)
    ensures FillStep(st, b, line).st.plru == st.plru[SetOf(b) := PlruUpdate(st.plru[SetOf(b)], st.mshrs[m].victimWay)]
  {
    FillFields(b);
  }

  lemma FillWay(st: State, store: Store, n: nat, line: Line)
    requires Shape(st) && Structure(st) && WaysFilled(st, store, n) && n < 3 && !Active(st.mshrs[1])
    requires st.mshrs[0] == Mshr([MshrEntry(n * 0x200, n * 8, true, 7, 0)], n)
    ensures var st' := FillStep(st, n * 8, line).st;
      WaysFilled(st', store, n + 1) && !Active(st'.mshrs[0]) && !Active(st'.mshrs[1])
  {
    var e := MshrEntry(n * 0x200, n * 8, true, 7, 0);
    StoreFields(n);
    NextBits(n);
    MatchesSelf(st, 0);
    SingleStoreFill(st, 0, n * 8, line, e);
    FillPlace(st, 0, n * 8, line);
    FillPlru(st, 0, n * 8, line);
    var st' := FillStep(st, n * 8, line).st;
    forall w: nat | w < WAYS && w != n ensures st'.cache[Slot(w, 0)] == st.cache[Slot(w, 0)] {
    }
    forall w: nat | w < n + 1 ensures FilledWith(st'.cache[Slot(w, 0)], w) {
      if w < n {
        assert FilledWith(st.cache[Slot(w, 0)], w);
      }
    }
  }

  lemma ThenFills(sys: Sys, n: nat)
    requires Missing(sys, n)
    ensures Resting(SysNext(sys, SysFill(0)), n + 1)
  {
    StateFills(sys, n);
    SafeFill(sys, n);
    FillSysKeeps(sys, 0);
  }

  lemma StateFills(sys: Sys, n: nat)
    requires SysSized(sys) && MissingState(sys.run.st, sys.store, n) && Structure(sys.run.st)
    ensures var sys' := SysNext(sys, SysFill(0)); RestingState(sys'.run.st, sys'.store, n + 1)
  {
    StoreFields(n);
    FillWay(sys.run.st, sys.store, n, sys.captured[0]);
  }

  lemma SafeFill(sys: Sys, n: nat)
    requires SysSized(sys) && MissingState(sys.run.st, sys.store, n)
    ensures SysLegal(sys, SysFill(0))
  {
    StoreFields(n);
    assert FillSlot(sys.run.st, 0) == Slot(n, 0);
  }

  /** Store to a block of set 0 and wait for its fill. */
  ghost function StoreAndFill(sys: Sys, n: nat): (sys': Sys)
    requires SysSized(sys) && n < 3
    ensures SysSized(sys')
  {
    SysNext(SysNext(sys, SysAsk(StoreTo(n))), SysFill(0))
  }

  lemma StoredAndFilled(sys: Sys, n: nat)
    requires Resting(sys, n) && n < 3
    ensures Resting(StoreAndFill(sys, n), n + 1)
  {
    ThenMisses(sys, n);
    ThenFills(SysNext(sys, SysAsk(StoreTo(n))), n);
  }

  /** With all three ways dirty and nothing written back, a fill of another block of the set
      would discard the first. */
  lemma FullSetDiscards(sys: Sys, b: Block)
    requires Resting(sys, 3) && b == 24
    ensures Discards(sys, b) && FindMshr(sys.run.st.mshrs, b) < 0 && !Cached(sys.run.st, b)
  {
    TwentyFour(b);
    FullSetLacks(sys, b);
    NotAmongFilled(sys.run.st, sys.store, b);
    UntrackedAtRest(sys.run.st, b);
  }

  lemma TwentyFour(b: Block)
    requires b == 24
    ensures SetOf(b) == 0 && TagOf(b) == 3
  {
  }

  lemma UntrackedAtRest(st: State, b: Block)
    requires Shape(st) && !Active(st.mshrs[0]) && !Active(st.mshrs[1])
    ensures FindMshr(st.mshrs, b) < 0
  {
  }

  lemma FullSetLacks(sys: Sys, b: Block)
    requires SysSized(sys) && WaysFilled(sys.run.st, sys.store, 3) && SetOf(b) == 0
    ensures Discards(sys, b)
  {
    FullSetVictim(sys.run.st, sys.store, b);
    BlockFields(0, 0);
    FirstLacked(sys, b, BlockOf(0, 0));
  }

  lemma FullSetVictim(st: State, store: Store, b: Block)
    requires Shape(st) && WaysFilled(st, store, 3) && SetOf(b) == 0
    ensures VictimWay(st, b) == 0 && FilledWith(st.cache[Slot(0, 0)], 0)
  {
    NextBits(0);
  }

  lemma FirstLacked(sys: Sys, b: Block, c: Block)
    requires SysSized(sys) && Fetch(sys.store, c) == DefaultLine(c) && c != 7
    requires var cell := sys.run.st.cache[Slot(VictimWay(sys.run.st, b), SetOf(b))];
      cell.valid && cell.dirty && cell.tag < 8192 && c == BlockOf(cell.tag, SetOf(b)) && cell.data[0] == 7
    ensures Discards(sys, b)
  {
    assert DefaultLine(c)[0] == WordAddr(c, 0);
  }

  lemma NotAmongFilled(st: State, store: Store, b: Block)
    requires Shape(st) && WaysFilled(st, store, 3) && SetOf(b) == 0 && TagOf(b) >= 3
    ensures !Cached(st, b)
  {
    forall w: nat | w < WAYS ensures !HoldsBlock(st, w, b) {
      assert FilledWith(st.cache[Slot(w, 0)], w);
    }
  }

  ghost function StoredThrice(sys: Sys): (sys': Sys)
    requires SysSized(sys)
    ensures SysSized(sys')
  {
    StoreAndFill(StoreAndFill(StoreAndFill(sys, 0), 1), 2)
  }

  lemma ThriceStored(sys: Sys)
    requires Resting(sys, 0)
    ensures Resting(StoredThrice(sys), 3)
  {
    StoredAndFilled(sys, 0);
    TwiceStored(StoreAndFill(sys, 0));
  }

  lemma TwiceStored(sys: Sys)
    requires Resting(sys, 1)
    ensures Resting(StoreAndFill(StoreAndFill(sys, 1), 2), 3)
  {
    StoredAndFilled(sys, 1);
    StoredAndFilled(StoreAndFill(sys, 1), 2);
  }

  lemma StrayFillLoses(sys: Sys, b: Block)
    requires Resting(sys, 3) && b == 24
    ensures var filled := Supplied(sys, b, FlatLine(sys.run.log, b));
      FindMshr(sys.run.st.mshrs, b) < 0 && Inv(filled.run) && !ContentOk(filled)
  {
    FullSetDiscards(sys, b);
    DiscardLosesBlock(sys, b, FlatLine(sys.run.log, b));
  }

  /**
   * A run from reset after which a harmless-looking fill loses a store. Three stores to
   * blocks 0, 8 and 16 miss and are filled in turn; set 0 is then full of dirty lines, its
   * PLRU victim is the first, and a fill that no MSHR waits for, of block 24 with the right
   * line, takes its place.
   */
  lemma StrayFillLosesStore()
    ensures var sys := StoredThrice(SysStart());
      var filled := Supplied(sys, 24, FlatLine(sys.run.log, 24));
      SysInv(sys) && FindMshr(sys.run.st.mshrs, 24) < 0 && Inv(filled.run) && !ContentOk(filled)
  {
    StartResting();
    ThriceStored(SysStart());
    StrayFillLoses(StoredThrice(SysStart()), 24);
  }

  lemma StartResting()
    ensures Resting(SysStart(), 0)
  {
    SysStartInv();
  }
}
