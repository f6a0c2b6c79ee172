/**
 * The cache together with its backing store. The store captures a line when a
 * primary miss asks for it and absorbs dirty evictions; a fill delivers the captured
 * line whenever it likes. Nothing tells the system what a line ought to hold.
 */
module ClosedSystem {
  import opened L1DTypes
  import opened GoldenSpec
  import opened FlatMemory
  import opened GoldenRuns
  import opened Linearisation
  import opened BackingStore

  datatype SysEvent = SysAsk(r: Request) | SysFill(m: nat) | SysPop

  /** `captured[m]` is the line on its way to MSHR `m`. */
  datatype Sys = Sys(run: Run, store: Store, captured: seq<Line>)

  function SysStart(): Sys {
    Sys(Start(), map[], [[0, 0, 0, 0, 0, 0, 0, 0], [0, 0, 0, 0, 0, 0, 0, 0]])
  }

  ghost predicate SysSized(sys: Sys) { Sized(sys.run) && |sys.captured| == MSHRS }

  /** The store after the dirty victim of a primary miss, if any, is written back. */
  ghost function Evicted(st: State, store: Store, addr: PAddr): Store
    requires Shape(st)
  {
    var slot := VictimSlot(st, addr);
    var cell := st.cache[slot];
    if cell.valid && cell.dirty then store[BlockOf(cell.tag, slot.set_) := cell.data] else store
  }

  ghost function SysNext(sys: Sys, ev: SysEvent): (sys': Sys)
    requires SysSized(sys)
    ensures SysSized(sys')
  {
    match ev
    case SysAsk(r) =>
      var run' := Next(sys.run, Ask(r));
      (match RouteOf(sys.run.st, r)
       case Primary(m) =>
         var store' := Evicted(sys.run.st, sys.store, r.addr);
         var line := Fetch(store', GetBlock(r.addr));
         Sys(run', store'[GetBlock(r.addr) := line], sys.captured[m := line])
       case _ => sys.(run := run'))
    case SysFill(m) =>
      if m < MSHRS && Active(sys.run.st.mshrs[m]) then
        sys.(run := Next(sys.run, Supply(sys.run.st.mshrs[m].entries[0].blockAddr, sys.captured[m])))
      else sys
    case SysPop => sys.(run := Next(sys.run, Pop))
  }

  ghost function SysExec(evs: seq<SysEvent>): (sys: Sys)
    ensures SysSized(sys)
  {
    if evs == [] then SysStart() else SysNext(SysExec(evs[..|evs| - 1]), evs[|evs| - 1])
  }

  /** The slot the line for MSHR `m` will be installed in. */
  ghost function FillSlot(st: State, m: nat): (slot: Slot)
    requires Shape(st) && m < MSHRS && Active(st.mshrs[m])
    ensures slot in st.cache && slot.way < WAYS && slot.set_ < SETS
  {
    Slot(st.mshrs[m].victimWay, SetOf(st.mshrs[m].entries[0].blockAddr))
  }

  /** The fill for MSHR `m` would land on a dirty line the backing store lacks. A fill
      installs without an eviction check. */
  ghost predicate Overwrites(sys: Sys, m: nat)
    requires SysSized(sys) && m < MSHRS && Active(sys.run.st.mshrs[m])
  {
    var slot := FillSlot(sys.run.st, m);
    var cell := sys.run.st.cache[slot];
    cell.valid && cell.dirty && Fetch(sys.store, BlockOf(cell.tag, slot.set_)) != cell.data
  }

  ghost predicate SysLegal(sys: Sys, ev: SysEvent)
    requires SysSized(sys)
  {
    match ev
    case SysAsk(r) => Aligned(r.addr) && HasRoom(sys.run.st, r)
    case SysFill(m) => m < MSHRS && Active(sys.run.st.mshrs[m]) && !Overwrites(sys, m)
    case SysPop => true
  }

  ghost predicate SysLegalRun(evs: seq<SysEvent>) {
    evs == [] || (SysLegalRun(evs[..|evs| - 1]) && SysLegal(SysExec(evs[..|evs| - 1]), evs[|evs| - 1]))
  }

  // ------------------------------------------------------------- the invariant

  /** The line on its way to an MSHR is the block as of its primary miss, and the
      backing store still holds it. */
  ghost predicate InFlight(log: seq<Request>, es: seq<MshrEntry>, ids: seq<nat>, line: Line, store: Store) {
    es != [] ==>
      && ids != [] && ids[0] <= |log|
      && line == BaseLine(log, ids, es[0].blockAddr)
      && line == Fetch(store, es[0].blockAddr)
  }

  ghost predicate InFlightOk(sys: Sys)
    requires SysSized(sys)
  {
    forall m :: 0 <= m < MSHRS ==>
      InFlight(sys.run.log, sys.run.st.mshrs[m].entries, sys.run.pend[m], sys.captured[m], sys.store)
  }

  /** Clean lines equal the backing store. */
  ghost predicate CleanOk(st: State, store: Store)
    requires Shape(st)
  {
    forall w: nat, s: nat :: w < WAYS && s < SETS && st.cache[Slot(w, s)].valid && !st.cache[Slot(w, s)].dirty ==>
      Fetch(store, BlockOf(st.cache[Slot(w, s)].tag, s)) == st.cache[Slot(w, s)].data
  }

  /** A block neither cached nor awaited is up to date in the backing store. */
  ghost predicate RestOk(st: State, store: Store, log: seq<Request>)
    requires Shape(st)
  {
    forall b: Block :: !Cached(st, b) && !Tracked(st, b) ==> Fetch(store, b) == FlatLine(log, b)
  }

  ghost predicate SysInv(sys: Sys) {
    && SysSized(sys) && Inv(sys.run)
    && InFlightOk(sys)
    && CleanOk(sys.run.st, sys.store)
    && RestOk(sys.run.st, sys.store, sys.run.log)
  }

  /** What the system as a whole holds for a block: the cached line; else the backing
      line with the waiting stores applied in order; else the backing line. */
  ghost function Content(sys: Sys, b: Block): Line
    requires SysSized(sys)
  {
    var w := Lookup(sys.run.st.cache, SetOf(b), TagOf(b));
    if w >= 0 then sys.run.st.cache[Slot(w, SetOf(b))].data
    else
      var m := FindMshr(sys.run.st.mshrs, b);
      if m >= 0 then Play(Fetch(sys.store, b), sys.run.st.mshrs[m].entries) else Fetch(sys.store, b)
  }

  ghost predicate ContentOk(sys: Sys)
    requires SysSized(sys)
  {
    forall b: Block :: Content(sys, b) == FlatLine(sys.run.log, b)
  }

  lemma InvContent(sys: Sys)
    requires SysInv(sys)
    ensures ContentOk(sys)
  {
    forall b: Block ensures Content(sys, b) == FlatLine(sys.run.log, b) {
      FillFields(b);
      var w := Lookup(sys.run.st.cache, SetOf(b), TagOf(b));
      var m := FindMshr(sys.run.st.mshrs, b);
      if w >= 0 {
        assert CellOk(sys.run.st.cache[Slot(w, SetOf(b))], SetOf(b), sys.run.log);
      } else if m >= 0 {
        assert QueueOk(sys.run.log, sys.run.st.mshrs[m].entries, sys.run.pend[m]);
      }
    }
  }

  // ------------------------------------------------------------- requests

  /** In-flight lines depend on the log only up to the primary miss. */
  lemma InFlightKeeps(log: seq<Request>, r: Request, es: seq<MshrEntry>, ids: seq<nat>, es': seq<MshrEntry>, ids': seq<nat>,
                      line: Line, store: Store)
    requires InFlight(log, es, ids, line, store)
    requires es <= es' && ids <= ids' && (es' != [] ==> es != [])
    ensures InFlight(log + [r], es', ids', line, store)
  {
    if es != [] {
      assert (log + [r])[..ids[0]] == log[..ids[0]];
    }
  }

  /** A request that stores only to a cached or tracked block leaves the rest alone. */
  lemma RestKeeps(st: State, st': State, store: Store, log: seq<Request>, r: Request)
    requires Shape(st) && Shape(st') && RestOk(st, store, log)
    requires forall b: Block :: Cached(st', b) == Cached(st, b) && Tracked(st', b) == Tracked(st, b)
    requires r.we ==> Cached(st, GetBlock(r.addr)) || Tracked(st, GetBlock(r.addr))
    ensures RestOk(st', store, log + [r])
  {
    forall b: Block | !Cached(st', b) && !Tracked(st', b) ensures Fetch(store, b) == FlatLine(log + [r], b) {
      FlatLineAfter(log, r, b);
    }
  }

  lemma HitCached(st: State, r: Request, way: nat)
    requires Shape(st) && RouteOf(st, r) == Hit(way)
    ensures Cached(st, GetBlock(r.addr))
  {
    AddressFields(r.addr);
    BlockFields(GetTag(r.addr), GetSet(r.addr));
    assert HoldsBlock(st, way, GetBlock(r.addr));
  }

  lemma HitSysState(st: State, r: Request, way: nat, store: Store, log: seq<Request>)
    requires Shape(st) && RouteOf(st, r) == Hit(way) && CleanOk(st, store) && RestOk(st, store, log)
    ensures var st' := RequestStep(st, r).st;
      st'.mshrs == st.mshrs && CleanOk(st', store) && RestOk(st', store, log + [r])
  {
    NotedRoute(st, r);
    var st' := RequestStep(st, r).st;
    HitCached(st, r, way);
    forall w: nat, s: nat | w < WAYS && s < SETS
      ensures st'.cache[Slot(w, s)].valid == st.cache[Slot(w, s)].valid && st'.cache[Slot(w, s)].tag == st.cache[Slot(w, s)].tag
      ensures !st'.cache[Slot(w, s)].dirty ==> st'.cache[Slot(w, s)] == st.cache[Slot(w, s)]
    {
    }
    SameBlocks(st, st');
    RestKeeps(st, st', store, log, r);
  }

  lemma SameBlocks(st: State, st': State)
    requires Shape(st) && Shape(st')
    requires forall w: nat, s: nat :: w < WAYS && s < SETS ==>
      st'.cache[Slot(w, s)].valid == st.cache[Slot(w, s)].valid && st'.cache[Slot(w, s)].tag == st.cache[Slot(w, s)].tag
    requires forall m, b :: 0 <= m < MSHRS ==> Tracks(st'.mshrs[m], b) == Tracks(st.mshrs[m], b)
    ensures forall b: Block :: Cached(st', b) == Cached(st, b) && Tracked(st', b) == Tracked(st, b)
  {
    forall b: Block
      ensures Cached(st', b) == Cached(st, b) && Tracked(st', b) == Tracked(st, b)
    {
      forall w: nat | w < WAYS ensures HoldsBlock(st', w, b) == HoldsBlock(st, w, b) {
      }
    }
  }

  lemma HitSysKeeps(sys: Sys, r: Request, way: nat)
    requires SysInv(sys) && Aligned(r.addr) && RouteOf(sys.run.st, r) == Hit(way)
    ensures SysInv(SysNext(sys, SysAsk(r)))
  {
    var sys' := SysNext(sys, SysAsk(r));
    HitKeeps(sys.run, r, way);
    NextForms(sys.run, r);
    HitSysState(sys.run.st, r, way, sys.store, sys.run.log);
    forall m | 0 <= m < MSHRS {
      InFlightKeeps(sys.run.log, r, sys.run.st.mshrs[m].entries, sys.run.pend[m],
                    sys.run.st.mshrs[m].entries, sys.run.pend[m], sys.captured[m], sys.store);
    }
  }

  lemma SecondarySysState(st: State, r: Request, store: Store, log: seq<Request>)
    requires Shape(st) && (RouteOf(st, r).Forward? || RouteOf(st, r).Enqueue?)
    requires CleanOk(st, store) && RestOk(st, store, log)
    ensures var st' := RequestStep(st, r).st;
      st'.cache == st.cache && CleanOk(st', store) && RestOk(st', store, log + [r])
  {
    NotedRoute(st, r);
    var st' := RequestStep(st, r).st;
    assert Tracked(st, GetBlock(r.addr));
    SameBlocks(st, st');
    RestKeeps(st, st', store, log, r);
  }

  lemma SecondaryInFlight(sys: Sys, r: Request)
    requires SysSized(sys) && InFlightOk(sys)
    requires RouteOf(sys.run.st, r).Forward? || RouteOf(sys.run.st, r).Enqueue?
    ensures InFlightOk(sys.(run := Next(sys.run, Ask(r))))
  {
    NextForms(sys.run, r);
    NotedRoute(sys.run.st, r);
    var run' := Next(sys.run, Ask(r));
    forall m | 0 <= m < MSHRS
      ensures InFlight(run'.log, run'.st.mshrs[m].entries, run'.pend[m], sys.captured[m], sys.store)
    {
      InFlightKeeps(sys.run.log, r, sys.run.st.mshrs[m].entries, sys.run.pend[m],
                    run'.st.mshrs[m].entries, run'.pend[m], sys.captured[m], sys.store);
    }
  }

  lemma SecondarySysKeeps(sys: Sys, r: Request)
    requires SysInv(sys) && Aligned(r.addr)
    requires RouteOf(sys.run.st, r).Forward? || RouteOf(sys.run.st, r).Enqueue?
    ensures SysInv(SysNext(sys, SysAsk(r)))
  {
    SecondaryRunKeeps(sys.run, r);
    NextForms(sys.run, r);
    SecondarySysState(sys.run.st, r, sys.store, sys.run.log);
    SecondaryInFlight(sys, r);
  }

  lemma SecondaryRunKeeps(run: Run, r: Request)
    requires Inv(run) && Aligned(r.addr) && (RouteOf(run.st, r).Forward? || RouteOf(run.st, r).Enqueue?)
    ensures Inv(Next(run, Ask(r)))
  {
    var route := RouteOf(run.st, r);
    if route.Forward? {
      ForwardKeeps(run, r, route.value);
    } else {
      EnqueueKeeps(run, r, route.m);
    }
  }

  /** `b` is the block a primary miss to this address evicts. */
  ghost predicate IsVictim(st: State, addr: PAddr, b: Block)
    requires Shape(st)
  {
    var slot := VictimSlot(st, addr);
    st.cache[slot].valid && b == BlockOf(st.cache[slot].tag, slot.set_)
  }

  /** After the eviction the victim's block is up to date in the store, and every
      block that was up to date still is. */
  lemma EvictedFetch(st: State, store: Store, log: seq<Request>, addr: PAddr, b: Block)
    requires Shape(st) && LinesOk(st, log) && CleanOk(st, store)
    ensures Fetch(Evicted(st, store, addr), b) == if IsVictim(st, addr, b) then FlatLine(log, b) else Fetch(store, b)
  {
    var slot := VictimSlot(st, addr);
    assert CellOk(st.cache[Slot(slot.way, slot.set_)], slot.set_, log);
  }

  /** A primary miss invalidates the victim's cell and nothing else. */
  lemma PrimaryCells(st: State, r: Request, m: nat)
    requires Shape(st) && RouteOf(st, r) == Primary(m)
    ensures var st' := RequestStep(st, r).st;
      && (forall w: nat, s: nat :: w < WAYS && s < SETS ==>
            st'.cache[Slot(w, s)] == if Slot(w, s) == VictimSlot(st, r.addr) then st.cache[Slot(w, s)].(valid := false) else st.cache[Slot(w, s)])
      && (forall i :: 0 <= i < MSHRS && i != m ==> st'.mshrs[i] == st.mshrs[i])
      && Tracks(st'.mshrs[m], GetBlock(r.addr)) && !Active(st.mshrs[m])
      && st'.mshrs[m].victimWay == VictimSlot(st, r.addr).way
  {
    NotedRoute(st, r);
  }

  /** The block missed on is neither cached nor tracked, and is not the victim's. */
  lemma PrimaryElsewhere(st: State, r: Request, m: nat)
    requires Shape(st) && RouteOf(st, r) == Primary(m)
    ensures !Cached(st, GetBlock(r.addr)) && !Tracked(st, GetBlock(r.addr)) && !IsVictim(st, r.addr, GetBlock(r.addr))
  {
    AddressFields(r.addr);
    BlockFields(GetTag(r.addr), GetSet(r.addr));
    var slot := VictimSlot(st, r.addr);
    if st.cache[slot].valid {
      NotCached(st, r.addr, slot.way, slot.set_);
    }
  }

  /** The store after a primary miss: the victim written back, the missed line read. */
  ghost function StoreAfter(st: State, store: Store, addr: PAddr): Store
    requires Shape(st)
  {
    var evicted := Evicted(st, store, addr);
    evicted[GetBlock(addr) := Fetch(evicted, GetBlock(addr))]
  }

  /** What a primary miss does to the system's store and captures from it is the
      responder's answer to the miss and to the write-back of its dirty victim. */
  lemma PrimaryStore(sys: Sys, r: Request, m: nat)
    requires SysSized(sys) && RouteOf(sys.run.st, r) == Primary(m)
    ensures var cell := sys.run.st.cache[VictimSlot(sys.run.st, r.addr)];
      var sys' := SysNext(sys, SysAsk(r));
      (sys'.store, sys'.captured[m]) ==
      Missed(sys.store, r.addr, cell.valid && cell.dirty, BlockOf(cell.tag, GetSet(r.addr)), cell.data)
  {
  }

  lemma PrimaryFetch(st: State, r: Request, m: nat, store: Store, log: seq<Request>)
    requires Shape(st) && RouteOf(st, r) == Primary(m)
    requires LinesOk(st, log) && CleanOk(st, store) && RestOk(st, store, log)
    ensures forall b: Block ::
      Fetch(StoreAfter(st, store, r.addr), b) == if IsVictim(st, r.addr, b) then FlatLine(log, b) else Fetch(store, b)
    ensures Fetch(StoreAfter(st, store, r.addr), GetBlock(r.addr)) == FlatLine(log, GetBlock(r.addr))
  {
    PrimaryElsewhere(st, r, m);
    forall b: Block
      ensures Fetch(StoreAfter(st, store, r.addr), b) == Fetch(Evicted(st, store, r.addr), b)
    {
    }
    forall b: Block {
      EvictedFetch(st, store, log, r.addr, b);
    }
  }

  lemma PrimaryClean(st: State, r: Request, m: nat, store: Store, log: seq<Request>)
    requires Shape(st) && Structure(st) && RouteOf(st, r) == Primary(m)
    requires LinesOk(st, log) && CleanOk(st, store) && RestOk(st, store, log)
    ensures CleanOk(RequestStep(st, r).st, StoreAfter(st, store, r.addr))
  {
    PrimaryCells(st, r, m);
    PrimaryFetch(st, r, m, store, log);
    var st' := RequestStep(st, r).st;
    var slot := VictimSlot(st, r.addr);
    forall w: nat, s: nat | w < WAYS && s < SETS && st'.cache[Slot(w, s)].valid && !st'.cache[Slot(w, s)].dirty
      ensures Fetch(StoreAfter(st, store, r.addr), BlockOf(st'.cache[Slot(w, s)].tag, s)) == st'.cache[Slot(w, s)].data
    {
      BlockFields(st.cache[Slot(w, s)].tag, s);
      BlockFields(st.cache[slot].tag, slot.set_);
      assert CellOk(st.cache[Slot(w, s)], s, log);
    }
  }

  /** What a primary miss takes out of the cache is the victim's block. */
  lemma PrimaryUncaches(st: State, r: Request, m: nat, b: Block)
    requires Shape(st) && RouteOf(st, r) == Primary(m)
    ensures var st' := RequestStep(st, r).st;
      && (Cached(st, b) && !Cached(st', b) ==> IsVictim(st, r.addr, b))
      && (Tracked(st, b) ==> Tracked(st', b)) && Tracked(st', GetBlock(r.addr))
  {
    PrimaryCells(st, r, m);
    var st' := RequestStep(st, r).st;
    if Cached(st, b) && !Cached(st', b) {
      var w: nat :| w < WAYS && HoldsBlock(st, w, b);
      assert !HoldsBlock(st', w, b);
      FillFields(b);
    }
    if Tracked(st, b) {
      var i :| 0 <= i < MSHRS && Tracks(st.mshrs[i], b);
      assert Tracks(st'.mshrs[i], b);
    }
  }

  lemma PrimaryRest(st: State, r: Request, m: nat, store: Store, log: seq<Request>)
    requires Shape(st) && RouteOf(st, r) == Primary(m)
    requires LinesOk(st, log) && CleanOk(st, store) && RestOk(st, store, log)
    ensures RestOk(RequestStep(st, r).st, StoreAfter(st, store, r.addr), log + [r])
  {
    PrimaryFetch(st, r, m, store, log);
    var st' := RequestStep(st, r).st;
    forall b: Block | !Cached(st', b) && !Tracked(st', b)
      ensures Fetch(StoreAfter(st, store, r.addr), b) == FlatLine(log + [r], b)
    {
      PrimaryUncaches(st, r, m, b);
      FlatLineAfter(log, r, b);
    }
  }

  /** The victim's block is not awaited by any MSHR. */
  lemma VictimUntracked(st: State, addr: PAddr, m: nat)
    requires Shape(st) && Structure(st) && m < MSHRS && Active(st.mshrs[m])
    ensures !IsVictim(st, addr, st.mshrs[m].entries[0].blockAddr)
  {
    var slot := VictimSlot(st, addr);
    assert st.cache[Slot(slot.way, slot.set_)] == st.cache[slot];
  }

  lemma PrimaryInFlight(sys: Sys, r: Request, m: nat)
    requires SysSized(sys) && Structure(sys.run.st) && InFlightOk(sys) && LinesOk(sys.run.st, sys.run.log)
    requires m < MSHRS && |sys.run.pend[m]| == |sys.run.st.mshrs[m].entries|
    requires CleanOk(sys.run.st, sys.store) && RestOk(sys.run.st, sys.store, sys.run.log)
    requires RouteOf(sys.run.st, r) == Primary(m)
    ensures InFlightOk(SysNext(sys, SysAsk(r)))
  {
    var st, log, sys' := sys.run.st, sys.run.log, SysNext(sys, SysAsk(r));
    NextForms(sys.run, r);
    PrimaryCells(st, r, m);
    PrimaryFetch(st, r, m, sys.store, log);
    forall i | 0 <= i < MSHRS
      ensures InFlight(sys'.run.log, sys'.run.st.mshrs[i].entries, sys'.run.pend[i], sys'.captured[i], sys'.store)
    {
      if i == m {
        assert (log + [r])[..|log|] == log;
      } else if Active(st.mshrs[i]) {
        VictimUntracked(st, r.addr, i);
        InFlightKeeps(log, r, st.mshrs[i].entries, sys.run.pend[i], st.mshrs[i].entries, sys.run.pend[i],
                      sys.captured[i], sys.store);
      }
    }
  }

  lemma PrimarySysKeeps(sys: Sys, r: Request, m: nat)
    requires SysInv(sys) && Aligned(r.addr) && RouteOf(sys.run.st, r) == Primary(m)
    ensures SysInv(SysNext(sys, SysAsk(r)))
  {
    PrimaryKeeps(sys.run, r, m);
    NextForms(sys.run, r);
    PrimaryClean(sys.run.st, r, m, sys.store, sys.run.log);
    PrimaryRest(sys.run.st, r, m, sys.store, sys.run.log);
    PrimaryInFlight(sys, r, m);
  }

  // ------------------------------------------------------------- fills

  lemma {:induction false} PlayLoads(line: Line, es: seq<MshrEntry>)
    requires !AnyStore(es)
    ensures Play(line, es) == line
  {
    if es == [] {
    } else {
      PlayLoads(line, es[..|es| - 1]);
      assert !es[|es| - 1].we;
    }
  }

  lemma FillClean(st: State, st': State, store: Store, m: nat, way: nat, b: Block, line: Line)
    requires Shape(st) && Shape(st') && m < MSHRS && way < WAYS && CleanOk(st, store)
    requires BlockOf(TagOf(b), SetOf(b)) == b && Fetch(store, b) == line
    requires st'.cache == st.cache[Slot(way, SetOf(b)) :=
      Cell(true, AnyStore(st.mshrs[m].entries), TagOf(b), Play(line, st.mshrs[m].entries))]
    ensures CleanOk(st', store)
  {
    if !AnyStore(st.mshrs[m].entries) {
      PlayLoads(line, st.mshrs[m].entries);
    }
    forall w: nat, s: nat | w < WAYS && s < SETS
      ensures (w == way && s == SetOf(b)) || st'.cache[Slot(w, s)] == st.cache[Slot(w, s)]
    {
    }
  }

  lemma FillRest(st: State, st': State, store: Store, log: seq<Request>, m: nat, b: Block, cell: Cell)
    requires Shape(st) && Shape(st') && m < MSHRS && Tracks(st.mshrs[m], b) && Structure(st)
    requires LinesOk(st, log) && RestOk(st, store, log)
    requires cell.valid && cell.tag == TagOf(b)
    requires st'.cache == st.cache[FillSlot(st, m) := cell]
    requires forall i :: 0 <= i < MSHRS && i != m ==> st'.mshrs[i] == st.mshrs[i]
    requires var old_ := st.cache[FillSlot(st, m)];
      old_.valid ==> Fetch(store, BlockOf(old_.tag, SetOf(b))) == old_.data
    ensures RestOk(st', store, log)
  {
    var slot := FillSlot(st, m);
    assert HoldsBlock(st', slot.way, b);
    forall c: Block | Tracked(st, c) && !Tracked(st', c) ensures c == b {
      var i :| 0 <= i < MSHRS && Tracks(st.mshrs[i], c);
    }
    forall c: Block | !Cached(st', c) && !Tracked(st', c) ensures Fetch(store, c) == FlatLine(log, c) {
      FillFields(c);
      if Cached(st, c) {
        var w: nat :| w < WAYS && HoldsBlock(st, w, c);
        assert !HoldsBlock(st', w, c);
        assert Slot(w, SetOf(c)) == slot;
        assert CellOk(st.cache[Slot(w, SetOf(c))], SetOf(c), log);
      }
    }
  }

  lemma FillInFlight(sys: Sys, m: nat)
    requires SysSized(sys) && Structure(sys.run.st) && InFlightOk(sys)
    requires m < MSHRS && Active(sys.run.st.mshrs[m])
    ensures InFlightOk(SysNext(sys, SysFill(m)))
  {
    var sys' := SysNext(sys, SysFill(m));
    MatchesSelf(sys.run.st, m);
    assert sys'.run.st.mshrs == sys.run.st.mshrs[m := sys.run.st.mshrs[m].(entries := [])];
  }

  /** The search for an active MSHR's own block finds that MSHR. */
  lemma MatchesSelf(st: State, m: nat)
    requires Shape(st) && Structure(st) && m < MSHRS && Active(st.mshrs[m])
    ensures FindMshr(st.mshrs, st.mshrs[m].entries[0].blockAddr) == m
  {
  }

  lemma FillSysLegal(sys: Sys, m: nat)
    requires SysInv(sys) && m < MSHRS && Active(sys.run.st.mshrs[m])
    ensures var b := sys.run.st.mshrs[m].entries[0].blockAddr;
      Legal(sys.run, Supply(b, sys.captured[m])) && Inv(Next(sys.run, Supply(b, sys.captured[m])))
  {
    MatchesSelf(sys.run.st, m);
    assert QueueOk(sys.run.log, sys.run.st.mshrs[m].entries, sys.run.pend[m]);
    FillKeeps(sys.run, sys.run.st.mshrs[m].entries[0].blockAddr, sys.captured[m]);
  }

  lemma FillSysKeeps(sys: Sys, m: nat)
    requires SysInv(sys) && SysLegal(sys, SysFill(m))
    ensures SysInv(SysNext(sys, SysFill(m)))
  {
    var st, sys' := sys.run.st, SysNext(sys, SysFill(m));
    var b := st.mshrs[m].entries[0].blockAddr;
    FillSysLegal(sys, m);
    FillInFlight(sys, m);
    FillRestKeeps(sys, m, b);
  }

  lemma FillRestKeeps(sys: Sys, m: nat, b: Block)
    requires SysSized(sys) && SysLegal(sys, SysFill(m)) && b == sys.run.st.mshrs[m].entries[0].blockAddr
    requires Structure(sys.run.st) && LinesOk(sys.run.st, sys.run.log)
    requires InFlightOk(sys) && CleanOk(sys.run.st, sys.store) && RestOk(sys.run.st, sys.store, sys.run.log)
    ensures var sys' := SysNext(sys, SysFill(m));
      CleanOk(sys'.run.st, sys.store) && RestOk(sys'.run.st, sys.store, sys.run.log)
  {
    var st, sys' := sys.run.st, SysNext(sys, SysFill(m));
    FillFields(b);
    MatchesSelf(st, m);
    FillPlace(st, m, b, sys.captured[m]);
    FillClean(st, sys'.run.st, sys.store, m, st.mshrs[m].victimWay, b, sys.captured[m]);
    FillRest(st, sys'.run.st, sys.store, sys.run.log, m, b,
             Cell(true, AnyStore(st.mshrs[m].entries), TagOf(b), Play(sys.captured[m], st.mshrs[m].entries)));
  }

  /**
   * Exactly when a fill is safe. In any state reached so far soundly, the system as a
   * whole still agrees with flat memory after the fill for MSHR `m` if and only if the
   * fill does not land on a dirty line the backing store lacks.
   */
  lemma FillExact(sys: Sys, m: nat)
    requires SysInv(sys) && m < MSHRS && Active(sys.run.st.mshrs[m])
    ensures ContentOk(SysNext(sys, SysFill(m))) <==> !Overwrites(sys, m)
  {
    if !Overwrites(sys, m) {
      FillSysKeeps(sys, m);
      InvContent(SysNext(sys, SysFill(m)));
    } else {
      OverwriteLoses(sys, m);
    }
  }

  lemma OverwriteLoses(sys: Sys, m: nat)
    requires SysInv(sys) && m < MSHRS && Active(sys.run.st.mshrs[m]) && Overwrites(sys, m)
    ensures !ContentOk(SysNext(sys, SysFill(m)))
  {
    var sys', slot := SysNext(sys, SysFill(m)), FillSlot(sys.run.st, m);
    var cell := sys.run.st.cache[Slot(slot.way, slot.set_)];
    var lost := BlockOf(cell.tag, slot.set_);
    assert CellOk(cell, slot.set_, sys.run.log);
    LostContent(sys, m);
    assert Content(sys', lost) != FlatLine(sys'.run.log, lost);
  }

  /** What is left of the block of a valid line that a fill lands on is the backing line. */
  lemma LostContent(sys: Sys, m: nat)
    requires SysSized(sys) && Structure(sys.run.st) && m < MSHRS && Active(sys.run.st.mshrs[m])
    requires sys.run.st.cache[FillSlot(sys.run.st, m)].valid
    ensures var slot := FillSlot(sys.run.st, m);
      var lost := BlockOf(sys.run.st.cache[slot].tag, slot.set_);
      var sys' := SysNext(sys, SysFill(m));
      sys'.run.log == sys.run.log && Content(sys', lost) == Fetch(sys.store, lost)
  {
    var st, b := sys.run.st, sys.run.st.mshrs[m].entries[0].blockAddr;
    MatchesSelf(st, m);
    FillPlace(st, m, b, sys.captured[m]);
    LostBlock(st, SysNext(sys, SysFill(m)).run.st, m, b,
              Cell(true, AnyStore(st.mshrs[m].entries), TagOf(b), Play(sys.captured[m], st.mshrs[m].entries)));
  }

  /** A valid line that a fill lands on is afterwards nowhere in the cache. */
  lemma LostBlock(st: State, st': State, m: nat, b: Block, cell': Cell)
    requires Shape(st) && Shape(st') && Structure(st) && m < MSHRS && Tracks(st.mshrs[m], b)
    requires st'.cache == st.cache[FillSlot(st, m) := cell'] && cell'.tag == TagOf(b)
    requires st'.mshrs == st.mshrs[m := st.mshrs[m].(entries := [])]
    requires st.cache[FillSlot(st, m)].valid
    ensures var lost := BlockOf(st.cache[FillSlot(st, m)].tag, SetOf(b));
      Lookup(st'.cache, SetOf(lost), TagOf(lost)) < 0 && FindMshr(st'.mshrs, lost) < 0
  {
    var slot := FillSlot(st, m);
    var tag := st.cache[Slot(slot.way, slot.set_)].tag;
    var lost := BlockOf(tag, SetOf(b));
    BlockFields(tag, SetOf(b));
    FillFields(b);
    assert !Tracks(st.mshrs[m], lost);
    forall w: nat | w < WAYS ensures !HoldsBlock(st', w, lost) {
      if w != slot.way {
        assert st'.cache[Slot(w, slot.set_)] == st.cache[Slot(w, slot.set_)];
      }
    }
  }

  // ------------------------------------------------------------- runs

  lemma AskSysKeeps(sys: Sys, r: Request)
    requires SysInv(sys) && Aligned(r.addr) && !RouteOf(sys.run.st, r).Drop?
    ensures SysInv(SysNext(sys, SysAsk(r)))
  {
    var route := RouteOf(sys.run.st, r);
    if route.Hit? {
      HitSysKeeps(sys, r, route.way);
    } else if route.Primary? {
      PrimarySysKeeps(sys, r, route.m);
    } else {
      SecondarySysKeeps(sys, r);
    }
  }

  lemma PopSysKeeps(sys: Sys)
    requires SysInv(sys)
    ensures SysInv(SysNext(sys, SysPop))
  {
    PopKeeps(sys.run);
    SameBlocks(sys.run.st, Next(sys.run, Pop).st);
  }

  lemma SysStepKeeps(sys: Sys, ev: SysEvent)
    requires SysInv(sys) && SysLegal(sys, ev)
    ensures SysInv(SysNext(sys, ev))
  {
    match ev
    case SysAsk(r) => {
      RoomIsRoute(sys.run, r);
      AskSysKeeps(sys, r);
    }
    case SysFill(m) => FillSysKeeps(sys, m);
    case SysPop => PopSysKeeps(sys);
  }

  lemma SysStartInv()
    ensures SysInv(SysStart())
  {
    StartInv();
    forall b: Block ensures Fetch(map[], b) == FlatLine([], b) {
    }
  }

  /**
   * Write-back soundness. In every run in which no fill lands on a dirty line the
   * store lacks, every block's content is its flat content, clean lines equal the
   * backing store, and every completion is the flat memory's answer.
   */
  lemma {:induction false} WriteBackSound(evs: seq<SysEvent>)
    requires SysLegalRun(evs)
    ensures SysInv(SysExec(evs)) && ContentOk(SysExec(evs))
  {
    if evs == [] {
      SysStartInv();
    } else {
      WriteBackSound(evs[..|evs| - 1]);
      SysStepKeeps(SysExec(evs[..|evs| - 1]), evs[|evs| - 1]);
    }
    InvContent(SysExec(evs));
  }
}
