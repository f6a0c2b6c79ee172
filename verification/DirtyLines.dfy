/** Which cached lines are dirty, in terms of the requests made. */
module DirtyLines {
  import opened L1DTypes
  import opened GoldenSpec
  import opened GoldenRuns
  import opened Linearisation

  /** Has the block been stored to since it was last fetched: in the latest request that
      found it neither cached nor waited for, or after that one? */
  ghost function StoredSince(evs: seq<Event>, b: Block): bool {
    if evs == [] then false
    else
      var before := evs[..|evs| - 1];
      StoredNow(Exec(before).st, evs[|evs| - 1], b, StoredSince(before, b))
  }

  ghost function StoredNow(st: State, ev: Event, b: Block, stored: bool): bool
    requires Shape(st)
  {
    if ev.Ask? && GetBlock(ev.r.addr) == b then
      ev.r.we || (stored && (Cached(st, b) || Tracked(st, b)))
    else stored
  }

  /** What the block's cached line and the queue that waits for it say of its stores. */
  ghost predicate DirtyOk(st: State, b: Block, stored: bool)
    requires Shape(st)
  {
    && (forall w: nat :: w < WAYS && HoldsBlock(st, w, b) ==> st.cache[Slot(w, SetOf(b))].dirty == stored)
    && (forall m :: 0 <= m < MSHRS && Tracks(st.mshrs[m], b) ==> AnyStore(st.mshrs[m].entries) == stored)
  }

  lemma AnyStoreSnoc(es: seq<MshrEntry>, e: MshrEntry)
    ensures AnyStore(es + [e]) == (AnyStore(es) || e.we)
  {
    if AnyStore(es) {
      var k :| 0 <= k < |es| && es[k].we;
      assert (es + [e])[k].we;
    }
    assert (es + [e])[|es|] == e;
  }

  /** A block and the set and tag of an address. */
  lemma SameBlock(addr: PAddr, b: Block)
    ensures GetBlock(addr) == b <==> GetSet(addr) == SetOf(b) && GetTag(addr) == TagOf(b)
  {
    AddressFields(addr);
    FillFields(b);
  }

  lemma HitDirty(st: State, r: Request, way: nat, b: Block, stored: bool)
    requires Shape(st) && Structure(st) && way < WAYS && DirtyOk(st, b, stored)
    requires HoldsBlock(st, way, GetBlock(r.addr))
    ensures Shape(HitStep(st, r, way))
    ensures DirtyOk(HitStep(st, r, way), b, if GetBlock(r.addr) == b then r.we || stored else stored)
  {
    var st' := HitStep(st, r, way);
    HitStructure(st, r, way);
    SameBlock(r.addr, GetBlock(r.addr));
    SameBlock(r.addr, b);
    forall w: nat | w < WAYS && HoldsBlock(st', w, b)
      ensures HoldsBlock(st, w, b)
      ensures st'.cache[Slot(w, SetOf(b))].dirty == if GetBlock(r.addr) == b then r.we || stored else stored
    {
      assert HoldsBlock(st, w, b);
    }
    if GetBlock(r.addr) == b {
      CachedUntracked(st, way, b);
    }
  }

  lemma CachedUntracked(st: State, w: nat, b: Block)
    requires Shape(st) && Structure(st) && w < WAYS && HoldsBlock(st, w, b)
    ensures !Tracked(st, b)
  {
    FillFields(b);
  }

  lemma EnqueueDirty(st: State, r: Request, m: nat, b: Block, stored: bool)
    requires Shape(st) && m < MSHRS && DirtyOk(st, b, stored) && Tracks(st.mshrs[m], GetBlock(r.addr))
    requires !Cached(st, GetBlock(r.addr))
    requires forall i :: 0 <= i < MSHRS && i != m ==> !Tracks(st.mshrs[i], GetBlock(r.addr))
    ensures Shape(EnqueueStep(st, r, m))
    ensures DirtyOk(EnqueueStep(st, r, m), b, if GetBlock(r.addr) == b then r.we || stored else stored)
  {
    var st' := EnqueueStep(st, r, m);
    AnyStoreSnoc(st.mshrs[m].entries, MshrEntry(r.addr, GetBlock(r.addr), r.we, if r.we then r.data else 0, r.tag));
    forall w: nat | w < WAYS && HoldsBlock(st', w, b) ensures HoldsBlock(st, w, b) && GetBlock(r.addr) != b {
      assert HoldsBlock(st, w, b);
    }
    forall i | 0 <= i < MSHRS && i != m ensures st'.mshrs[i] == st.mshrs[i] {
    }
  }

  lemma PrimaryDirty(st: State, r: Request, m: nat, b: Block, stored: bool)
    requires Shape(st) && m < MSHRS && DirtyOk(st, b, stored) && !Active(st.mshrs[m])
    requires !Cached(st, GetBlock(r.addr)) && !Tracked(st, GetBlock(r.addr))
    ensures Shape(PrimaryStep(st, r, m))
    ensures DirtyOk(PrimaryStep(st, r, m), b, if GetBlock(r.addr) == b then r.we else stored)
  {
    var st' := PrimaryStep(st, r, m);
    forall w: nat | w < WAYS && HoldsBlock(st', w, b) ensures HoldsBlock(st, w, b) && GetBlock(r.addr) != b {
      assert HoldsBlock(st, w, b);
    }
    forall i | 0 <= i < MSHRS && i != m ensures st'.mshrs[i] == st.mshrs[i] {
    }
    AnyStoreSnoc([], MshrEntry(r.addr, GetBlock(r.addr), r.we, r.data, r.tag));
  }

  lemma FillDirty(st: State, m: nat, c: Block, line: Line, b: Block, stored: bool)
    requires Shape(st) && Structure(st) && m < MSHRS && m == FindMshr(st.mshrs, c) && DirtyOk(st, b, stored)
    ensures DirtyOk(FillStep(st, c, line).st, b, stored)
  {
    var st' := FillStep(st, c, line).st;
    FillPlace(st, m, c, line);
    FillFields(b);
    forall w: nat | w < WAYS && HoldsBlock(st', w, b)
      ensures st'.cache[Slot(w, SetOf(b))].dirty == stored
    {
      if w == st.mshrs[m].victimWay && SetOf(c) == SetOf(b) {
        assert c == b;
      } else {
        assert HoldsBlock(st, w, b);
      }
    }
    forall i | 0 <= i < MSHRS && i != m ensures st'.mshrs[i] == st.mshrs[i] {
    }
  }

  lemma NotedDirty(st: State, r: Request, b: Block, stored: bool)
    requires Shape(st)
    ensures var noted := NoteStore(st, r);
      && Shape(noted) && DirtyOk(noted, b, stored) == DirtyOk(st, b, stored) && (Structure(st) ==> Structure(noted))
      && (forall c: Block :: Cached(noted, c) == Cached(st, c) && Tracked(noted, c) == Tracked(st, c))
  {
    var noted := NoteStore(st, r);
    forall c: Block ensures Cached(noted, c) == Cached(st, c) {
      assert forall w: nat :: w < WAYS ==> HoldsBlock(noted, w, c) == HoldsBlock(st, w, c);
    }
    assert forall w: nat :: w < WAYS ==> HoldsBlock(noted, w, b) == HoldsBlock(st, w, b);
  }

  lemma ServedDirty(st: State, r: Request, b: Block, stored: bool)
    requires Shape(st) && Structure(st) && DirtyOk(st, b, stored) && !RouteOf(st, r).Drop?
    ensures DirtyOk(Served(st, r).st, b, StoredNow(st, Ask(r), b, stored))
  {
    LookupIsCached(st, r.addr);
    FoundIsTracked(st, GetBlock(r.addr));
    match RouteOf(st, r)
    case Hit(way) => {
      SameBlock(r.addr, GetBlock(r.addr));
      assert HoldsBlock(st, way, GetBlock(r.addr));
      HitDirty(st, r, way, b, stored);
    }
    case Forward(v) =>
    case Enqueue(m) => {
      OnlyTracker(st, m, GetBlock(r.addr));
      EnqueueDirty(st, r, m, b, stored);
    }
    case Primary(m) => PrimaryDirty(st, r, m, b, stored);
  }

  lemma AskDirty(run: Run, r: Request, b: Block, stored: bool)
    requires Inv(run) && Legal(run, Ask(r)) && DirtyOk(run.st, b, stored)
    ensures DirtyOk(Next(run, Ask(r)).st, b, StoredNow(run.st, Ask(r), b, stored))
  {
    RoomIsRoute(run, r);
    NextForms(run, r);
    NotedRoute(run.st, r);
    NotedDirty(run.st, r, b, stored);
    ServedDirty(NoteStore(run.st, r), r, b, stored);
  }

  lemma EventDirty(run: Run, ev: Event, b: Block, stored: bool)
    requires Inv(run) && Legal(run, ev) && DirtyOk(run.st, b, stored)
    ensures DirtyOk(Next(run, ev).st, b, StoredNow(run.st, ev, b, stored))
  {
    match ev
    case Ask(r) => AskDirty(run, r, b, stored);
    case Supply(c, line) => FillDirty(run.st, FindMshr(run.st.mshrs, c), c, line, b, stored);
    case Pop =>
      assert forall w: nat :: w < WAYS ==> HoldsBlock(Next(run, ev).st, w, b) == HoldsBlock(run.st, w, b);
  }

  /**
   * Dirty lines. In every legal run a cached line is dirty exactly if its block has been
   * stored to since it was last fetched, and the queue that waits for a block holds a store
   * under the same condition.
   */
  lemma {:induction false} DirtyExact(evs: seq<Event>, b: Block)
    requires LegalRun(evs)
    ensures DirtyOk(Exec(evs).st, b, StoredSince(evs, b))
  {
    if evs == [] {
    } else {
      var before := evs[..|evs| - 1];
      DirtyExact(before, b);
      Linearised(before);
      EventDirty(Exec(before), evs[|evs| - 1], b, StoredSince(before, b));
    }
  }
}
