/** What the run invariant gives a user of the golden model, and where its limits are. */
module GoldenResults {
  import opened L1DTypes
  import opened GoldenSpec
  import opened FlatMemory
  import opened Playback
  import opened GoldenRuns
  import opened Linearisation

  // ------------------------------------------------------------- linearisation

  /** Indices below `n` occur once in `Ids(n)`. */
  lemma {:induction false} IdsOnce(n: nat, x: nat)
    ensures multiset(Ids(n))[x] == if x < n then 1 else 0
  {
    if n == 0 {
    } else {
      IdsOnce(n - 1, x);
      IdsGrow(n - 1);
    }
  }

  lemma {:induction false} TwiceCounts(s: seq<nat>, i: nat, j: nat)
    requires i < j < |s| && s[i] == s[j]
    ensures multiset(s)[s[i]] >= 2
  {
    assert s == s[..j] + [s[j]] + s[j + 1..];
    assert s[..j][i] == s[i];
    assert s[i] in multiset(s[..j]);
  }

  /**
   * Every completion ever queued in a legal run belongs to one request of its own,
   * carries that request's tag and kind and, for a load, the value a flat memory held
   * when the load was requested.
   */
  lemma CompletionsReadFlatMemory(evs: seq<Event>, k: nat)
    requires LegalRun(evs) && k < |History(Exec(evs))|
    ensures var run := Exec(evs);
      && |run.order| == |History(run)|
      && var id := run.order[k];
      && id < |run.log|
      && History(run)[k].tag == run.log[id].tag
      && History(run)[k].isWrite == run.log[id].we
      && (!run.log[id].we ==> History(run)[k].data == FlatValue(run.log[..id], Align(run.log[id].addr)))
      && forall j :: 0 <= j < |run.order| && j != k ==> run.order[j] != id
  {
    Linearised(evs);
    var run := Exec(evs);
    assert AnswersRequest(run.log, run.order[k], History(run)[k]);
    IdsOnce(|run.log|, run.order[k]);
    assert multiset(run.order) <= multiset(Ids(|run.log|));
    forall j | 0 <= j < |run.order| && j != k ensures run.order[j] != run.order[k] {
      if run.order[j] == run.order[k] {
        TwiceCounts(run.order, if j < k then j else k, if j < k then k else j);
      }
    }
  }

  /** After any legal run the flat map reads, at every aligned address, as the most
      recent store in request order. */
  lemma FlatMapAgrees(evs: seq<Event>, a: Word)
    requires LegalRun(evs) && Aligned(a)
    ensures MemRead(Exec(evs).st.legacy, a) == FlatValue(Exec(evs).log, a)
  {
    Linearised(evs);
  }

  /** A fill, with all the stores it plays back, and a load, with the eviction it may
      cause, change nothing that can be read from the flat map. */
  lemma FlatMapUndisturbed(run: Run, ev: Event, a: Word)
    requires Inv(run) && Legal(run, ev) && Aligned(a)
    requires ev.Supply? || (ev.Ask? && !ev.r.we)
    ensures MemRead(Next(run, ev).st.legacy, a) == MemRead(run.st.legacy, a)
  {
    StepKeeps(run, ev);
    if ev.Ask? {
      NextForms(run, ev.r);
      FlatValueAfter(run.log, ev.r, a);
    }
  }

  // ------------------------------------------------------------- conservation

  function RequestTags(log: seq<Request>, ids: seq<nat>): seq<nat>
    requires forall k :: 0 <= k < |ids| ==> ids[k] < |log|
  {
    seq(|ids|, k requires 0 <= k < |ids| => log[ids[k]].tag)
  }

  function CompletionTags(cs: seq<Completion>): seq<nat> {
    seq(|cs|, k requires 0 <= k < |cs| => cs[k].tag)
  }

  function EntryTags(es: seq<MshrEntry>): seq<nat> {
    seq(|es|, k requires 0 <= k < |es| => es[k].procTag)
  }

  lemma RequestTagsConcat(log: seq<Request>, a: seq<nat>, b: seq<nat>)
    requires forall k :: 0 <= k < |a| ==> a[k] < |log|
    requires forall k :: 0 <= k < |b| ==> b[k] < |log|
    ensures RequestTags(log, a + b) == RequestTags(log, a) + RequestTags(log, b)
  {
  }

  lemma TakeOut(s: seq<nat>, i: nat)
    requires i < |s|
    ensures multiset(s[..i] + s[i + 1..]) == multiset(s) - multiset{s[i]}
  {
    assert s == s[..i] + [s[i]] + s[i + 1..];
  }

  lemma BothTakenOut(a: seq<nat>, b: seq<nat>, i: nat)
    requires |a| > 0 && i < |b| && b[i] == a[0] && multiset(a) == multiset(b)
    ensures multiset(a[..0] + a[1..]) == multiset(b[..i] + b[i + 1..])
  {
    TakeOut(a, 0);
    TakeOut(b, i);
  }

  /** Taking one request out of a list takes its tag out. */
  lemma RequestTagsWithout(log: seq<Request>, s: seq<nat>, i: nat)
    requires i < |s| && forall k :: 0 <= k < |s| ==> s[k] < |log|
    ensures var rest := s[..i] + s[i + 1..];
      && (forall k :: 0 <= k < |rest| ==> rest[k] < |log|)
      && multiset(RequestTags(log, s)) == multiset(RequestTags(log, rest)) + multiset{log[s[i]].tag}
  {
    var tags := RequestTags(log, s);
    var rest := s[..i] + s[i + 1..];
    assert tags == tags[..i] + [tags[i]] + tags[i + 1..];
    assert RequestTags(log, rest) == tags[..i] + tags[i + 1..];
  }

  /** Tags of the same requests, listed in another order. */
  lemma {:induction false} SameTags(log: seq<Request>, a: seq<nat>, b: seq<nat>)
    requires forall k :: 0 <= k < |a| ==> a[k] < |log|
    requires forall k :: 0 <= k < |b| ==> b[k] < |log|
    requires multiset(a) == multiset(b)
    ensures multiset(RequestTags(log, a)) == multiset(RequestTags(log, b))
    decreases |a|
  {
    if a == [] {
      assert |multiset(b)| == 0;
    } else {
      assert a[0] in multiset(b);
      var i :| 0 <= i < |b| && b[i] == a[0];
      BothTakenOut(a, b, i);
      RequestTagsWithout(log, a, 0);
      RequestTagsWithout(log, b, i);
      var a', b' := a[..0] + a[1..], b[..i] + b[i + 1..];
      SameTags(log, a', b');
    }
  }

  function LogTags(log: seq<Request>): seq<nat> {
    seq(|log|, k requires 0 <= k < |log| => log[k].tag)
  }

  lemma HistoryTags(log: seq<Request>, order: seq<nat>, history: seq<Completion>)
    requires HistoryOk(log, order, history)
    ensures forall k :: 0 <= k < |order| ==> order[k] < |log|
    ensures CompletionTags(history) == RequestTags(log, order)
  {
    forall k | 0 <= k < |order| ensures order[k] < |log| && history[k].tag == log[order[k]].tag {
      assert AnswersRequest(log, order[k], history[k]);
    }
  }

  lemma QueueTags(log: seq<Request>, es: seq<MshrEntry>, ids: seq<nat>)
    requires QueueOk(log, es, ids)
    ensures forall k :: 0 <= k < |ids| ==> ids[k] < |log|
    ensures EntryTags(es) == RequestTags(log, ids)
  {
  }

  lemma AllTags(log: seq<Request>, order: seq<nat>, p0: seq<nat>, p1: seq<nat>)
    requires multiset(order) + multiset(p0) + multiset(p1) == multiset(Ids(|log|))
    requires forall k :: 0 <= k < |order| ==> order[k] < |log|
    requires forall k :: 0 <= k < |p0| ==> p0[k] < |log|
    requires forall k :: 0 <= k < |p1| ==> p1[k] < |log|
    ensures multiset(LogTags(log)) ==
      multiset(RequestTags(log, order)) + multiset(RequestTags(log, p0)) + multiset(RequestTags(log, p1))
  {
    assert multiset(order + (p0 + p1)) == multiset(Ids(|log|));
    SameTags(log, order + (p0 + p1), Ids(|log|));
    RequestTagsConcat(log, order, p0 + p1);
    RequestTagsConcat(log, p0, p1);
    assert RequestTags(log, Ids(|log|)) == LogTags(log);
  }

  /** The tags requested are the tags completed and the tags waiting, counted. */
  lemma TagsConserved(evs: seq<Event>)
    requires LegalRun(evs)
    ensures var run := Exec(evs);
      multiset(LogTags(run.log)) == multiset(CompletionTags(History(run)))
        + multiset(EntryTags(run.st.mshrs[0].entries)) + multiset(EntryTags(run.st.mshrs[1].entries))
  {
    Linearised(evs);
    var run := Exec(evs);
    HistoryTags(run.log, run.order, History(run));
    QueueTags(run.log, run.st.mshrs[0].entries, run.pend[0]);
    QueueTags(run.log, run.st.mshrs[1].entries, run.pend[1]);
    AllTags(run.log, run.order, run.pend[0], run.pend[1]);
  }

  /** A request returns 1 exactly when it queued one completion, and otherwise queued
      none; a fill returns exactly the number it queued. */
  lemma ReturnsCount(st: State, r: Request, b: nat, line: Line)
    requires Shape(st)
    ensures var o := RequestStep(st, r);
      && st.completions <= o.st.completions && o.ret <= 1
      && |o.st.completions| == |st.completions| + o.ret
    ensures var o := FillStep(st, b, line);
      && st.completions <= o.st.completions
      && |o.st.completions| == |st.completions| + o.ret
  {
    NotedRoute(st, r);
    var m := FindMshr(st.mshrs, b);
    if m >= 0 {
      AnswersAt(line, st.mshrs[m].entries);
    }
  }

  lemma RouteConserves(run: Run, r: Request)
    requires Sized(run) && Conserved(|run.log|, run.order, run.pend)
    ensures var run' := Next(run, Ask(r));
      Conserved(|run'.log|, run'.order, run'.pend) <==> !RouteOf(run.st, r).Drop?
  {
    NextForms(run, r);
    match RouteOf(run.st, r)
    case Hit(_) => AtOnceConserves(run, r);
    case Forward(_) => AtOnceConserves(run, r);
    case Enqueue(m) => WaitingConserves(run, r, m);
    case Primary(m) => WaitingConserves(run, r, m);
    case Drop => NotConserved(|run.log|, run.order, run.pend);
  }

  lemma AtOnceConserves(run: Run, r: Request)
    requires Sized(run) && Conserved(|run.log|, run.order, run.pend)
    ensures var run' := AtOnce(run, r); Conserved(|run'.log|, run'.order, run'.pend)
  {
    ConservedGrows(|run.log|, run.order, run.pend);
  }

  /**
   * A request is lost exactly when there is no room for it: requests stay conserved if and
   * only if the block is cached; or an MSHR waits for it with fewer than 16 requests or a
   * store to the word of this load; or none does and one is inactive. A lost store is in
   * the flat map all the same, and nothing else has changed.
   */
  lemma DropExact(run: Run, r: Request)
    requires Inv(run) && Aligned(r.addr)
    ensures var run' := Next(run, Ask(r));
      && (Conserved(|run'.log|, run'.order, run'.pend) <==> HasRoom(run.st, r))
      && (!HasRoom(run.st, r) ==>
            run'.st == if r.we then run.st.(legacy := run.st.legacy[Align(r.addr) := r.data]) else run.st)
  {
    RouteConserves(run, r);
    RoomIsRoute(run, r);
    NotedRoute(run.st, r);
    NextForms(run, r);
  }

  /** Whether a request is answered at once: if its block is cached, or it is a load whose
      word has a waiting store. */
  lemma AnsweredAtOnceExact(run: Run, r: Request)
    requires Inv(run) && Aligned(r.addr)
    ensures var b := GetBlock(r.addr);
      |Next(run, Ask(r)).st.completions| == |run.st.completions| + 1 <==>
        || Cached(run.st, b)
        || (!r.we && exists m :: 0 <= m < MSHRS && Tracks(run.st.mshrs[m], b) && StoresWord(run.st.mshrs[m].entries, GetWord(r.addr)))
  {
    var st, b := run.st, GetBlock(r.addr);
    NotedRoute(st, r);
    NextForms(run, r);
    LookupIsCached(st, r.addr);
    var m := FindMshr(st.mshrs, b);
    if m >= 0 {
      ScanIsWaiting(run, m, r);
      OnlyTracker(st, m, b);
    }
  }

  lemma WaitingConserves(run: Run, r: Request, m: nat)
    requires Sized(run) && m < MSHRS && Conserved(|run.log|, run.order, run.pend)
    ensures var run' := Waiting(run, r, m); Conserved(|run'.log|, run'.order, run'.pend)
  {
    ConservedGrows(|run.log|, run.order, run.pend);
  }

  /** A request that is logged but goes nowhere breaks conservation. */
  lemma NotConserved(n: nat, order: seq<nat>, pend: seq<seq<nat>>)
    requires |pend| == MSHRS && Conserved(n, order, pend)
    ensures !Conserved(n + 1, order, pend)
  {
    IdsOnce(n + 1, n);
    IdsOnce(n, n);
  }

  // ------------------------------------------------------------- progress

  ghost function Outstanding(run: Run): nat
    requires Sized(run)
  {
    |run.st.mshrs[0].entries| + |run.st.mshrs[1].entries|
  }

  /** The fill an active MSHR waits for. */
  ghost function AwaitedFill(run: Run, m: nat): Event
    requires Inv(run) && m < MSHRS && Active(run.st.mshrs[m])
  {
    assert QueueOk(run.log, run.st.mshrs[m].entries, run.pend[m]);
    var b := run.st.mshrs[m].entries[0].blockAddr;
    Supply(b, BaseLine(run.log, run.pend[m], b))
  }

  /** A matching fill completes the whole queue, oldest first, and nothing else. */
  lemma FillCompletesQueue(run: Run, m: nat)
    requires Inv(run) && m < MSHRS && Active(run.st.mshrs[m])
    ensures var run' := Next(run, AwaitedFill(run, m));
      && Legal(run, AwaitedFill(run, m)) && Inv(run')
      && run'.order == run.order + run.pend[m] && run'.log == run.log
      && run'.st.mshrs == run.st.mshrs[m := run.st.mshrs[m].(entries := [])]
      && Outstanding(run') == Outstanding(run) - |run.st.mshrs[m].entries| < Outstanding(run)
      && forall j, k :: 0 <= j < k < |run.pend[m]| ==> run.pend[m][j] < run.pend[m][k]
  {
    assert QueueOk(run.log, run.st.mshrs[m].entries, run.pend[m]);
    var b := run.st.mshrs[m].entries[0].blockAddr;
    assert FindMshr(run.st.mshrs, b) == m;
    StepKeeps(run, AwaitedFill(run, m));
  }

  /** One fill for each MSHR, from `m` on, that is active. */
  ghost function Drain(run: Run, m: nat): seq<Event>
    requires Inv(run) && m <= MSHRS
    decreases MSHRS - m
  {
    if m == MSHRS then []
    else if Active(run.st.mshrs[m]) then
      FillCompletesQueue(run, m);
      [AwaitedFill(run, m)] + Drain(Next(run, AwaitedFill(run, m)), m + 1)
    else Drain(run, m + 1)
  }

  ghost function After(run: Run, evs: seq<Event>): (run': Run)
    requires Sized(run)
    ensures Sized(run')
    decreases |evs|
  {
    if evs == [] then run else After(Next(run, evs[0]), evs[1..])
  }

  ghost predicate LegalFrom(run: Run, evs: seq<Event>)
    requires Sized(run)
    decreases |evs|
  {
    evs == [] || (Legal(run, evs[0]) && LegalFrom(Next(run, evs[0]), evs[1..]))
  }

  ghost predicate Idle(run: Run)
    requires Sized(run)
  {
    forall i :: 0 <= i < MSHRS ==> !Active(run.st.mshrs[i])
  }

  lemma StepThenRest(run: Run, ev: Event, rest: seq<Event>)
    requires Sized(run)
    ensures After(run, [ev] + rest) == After(Next(run, ev), rest)
    ensures LegalFrom(run, [ev] + rest) == (Legal(run, ev) && LegalFrom(Next(run, ev), rest))
  {
    assert ([ev] + rest)[1..] == rest;
  }

  lemma DrainStep(run: Run, m: nat)
    requires Inv(run) && m < MSHRS && Active(run.st.mshrs[m])
    requires forall i :: 0 <= i < m ==> !Active(run.st.mshrs[i])
    ensures var run' := Next(run, AwaitedFill(run, m));
      && Legal(run, AwaitedFill(run, m)) && Inv(run') && run'.log == run.log
      && (forall i :: 0 <= i < m + 1 ==> !Active(run'.st.mshrs[i]))
      && Drain(run, m) == [AwaitedFill(run, m)] + Drain(run', m + 1)
  {
    FillCompletesQueue(run, m);
  }

  lemma {:induction false} DrainWorks(run: Run, m: nat)
    requires Inv(run) && m <= MSHRS
    requires forall i :: 0 <= i < m ==> !Active(run.st.mshrs[i])
    ensures |Drain(run, m)| <= MSHRS - m && LegalFrom(run, Drain(run, m))
    ensures var end := After(run, Drain(run, m)); Inv(end) && end.log == run.log && Idle(end)
    decreases MSHRS - m
  {
    if m == MSHRS {
      assert After(run, []) == run;
    } else if Active(run.st.mshrs[m]) {
      DrainStep(run, m);
      var run' := Next(run, AwaitedFill(run, m));
      DrainWorks(run', m + 1);
      StepThenRest(run, AwaitedFill(run, m), Drain(run', m + 1));
    } else {
      DrainWorks(run, m + 1);
    }
  }

  /**
   * Progress: from every reachable state at most one fill per MSHR, each legal, leaves
   * nothing waiting, and then as many completions as requests have been queued.
   */
  lemma EverythingCompletes(evs: seq<Event>)
    requires LegalRun(evs)
    ensures Inv(Exec(evs))
    ensures var run := Exec(evs);
      var fills := Drain(run, 0);
      var end := After(run, fills);
      && |fills| <= MSHRS && LegalFrom(run, fills)
      && Outstanding(end) == 0
      && end.log == run.log && multiset(end.order) == multiset(Ids(|run.log|))
      && |History(end)| == |run.log|
  {
    Linearised(evs);
    var run := Exec(evs);
    DrainWorks(run, 0);
    var end := After(run, Drain(run, 0));
    assert QueueOk(end.log, end.st.mshrs[0].entries, end.pend[0]) && QueueOk(end.log, end.st.mshrs[1].entries, end.pend[1]);
    assert |multiset(end.order)| == |end.order| && |multiset(Ids(|run.log|))| == |run.log|;
  }

  // ------------------------------------------------------------- limits

  /** No way but the PLRU victim of its set holds the block. */
  ghost predicate Alone(st: State, b: Block)
    requires Shape(st)
  {
    forall w: nat :: w < WAYS && w != PlruVictim(st.plru[SetOf(b)]) ==>
      !(st.cache[Slot(w, SetOf(b))].valid && st.cache[Slot(w, SetOf(b))].tag == TagOf(b))
  }

  /**
   * A fill that matches no MSHR installs its line all the same. The cache by itself stays
   * right exactly when the line is what the block holds and no way but the victim already
   * caches the block. (What the fill does to the victim's block, which is not written
   * back, shows only beside the backing store.)
   */
  lemma UnmatchedFillExact(run: Run, b: Block, line: Line)
    requires Inv(run) && FindMshr(run.st.mshrs, b) < 0
    ensures Inv(Next(run, Supply(b, line))) <==> line == FlatLine(run.log, b) && Alone(run.st, b)
  {
    FillFields(b);
    var st, st' := run.st, FillStep(run.st, b, line).st;
    var victim := PlruVictim(st.plru[SetOf(b)]);
    var cell := Cell(true, false, TagOf(b), line);
    assert st'.cache == st.cache[Slot(victim, SetOf(b)) := cell];
    assert st'.cache[Slot(victim, SetOf(b))] == cell;
    if line == FlatLine(run.log, b) {
      FillLines(st, st', run.log, victim, b, cell);
    } else {
      assert !CellOk(cell, SetOf(b), run.log);
    }
    if Alone(st, b) {
      UnmatchedStructure(st, st', victim, b, cell);
    } else {
      var w: nat :| w < WAYS && w != victim && st.cache[Slot(w, SetOf(b))].valid && st.cache[Slot(w, SetOf(b))].tag == TagOf(b);
      assert st'.cache[Slot(w, SetOf(b))] == st.cache[Slot(w, SetOf(b))];
      assert !Structure(st');
    }
  }

  lemma UnmatchedStructure(st: State, st': State, way: nat, b: Block, cell: Cell)
    requires Shape(st) && Shape(st') && way < WAYS && Structure(st) && FindMshr(st.mshrs, b) < 0
    requires cell.tag == TagOf(b) && BlockOf(TagOf(b), SetOf(b)) == b
    requires st'.cache == st.cache[Slot(way, SetOf(b)) := cell] && st'.mshrs == st.mshrs
    requires forall w: nat :: w < WAYS && w != way ==>
      !(st.cache[Slot(w, SetOf(b))].valid && st.cache[Slot(w, SetOf(b))].tag == TagOf(b))
    ensures Structure(st')
  {
    forall w: nat, s: nat | w < WAYS && s < SETS
      ensures w == way && s == SetOf(b) ==> st'.cache[Slot(w, s)] == cell
      ensures w != way || s != SetOf(b) ==> st'.cache[Slot(w, s)] == st.cache[Slot(w, s)]
    {
    }
  }

  const STORE_AT_0 := Request(0, 1, 0, true)
  const STORE_AT_4 := Request(4, 2, 1, true)
  const LOAD_AT_0 := Request(0, 0, 2, false)

  /** Nothing cached in set 0, one MSHR on block 0 and none on any other. */
  ghost predicate Waits(st: State, es: seq<MshrEntry>) {
    && Shape(st) && st.completions == []
    && (forall w: nat :: w < WAYS ==> !st.cache[Slot(w, 0)].valid)
    && st.mshrs[0].entries == es && !Active(st.mshrs[1])
  }

  lemma FirstStoreWaits()
    ensures Waits(RequestStep(Reset(), STORE_AT_0).st, [MshrEntry(0, 0, true, 1, 0)])
  {
    var st := Reset();
    assert RouteOf(st, STORE_AT_0) == Primary(0);
    NotedRoute(st, STORE_AT_0);
  }

  lemma SecondStoreWaits(st: State)
    requires Waits(st, [MshrEntry(0, 0, true, 1, 0)])
    ensures Waits(RequestStep(st, STORE_AT_4).st, [MshrEntry(0, 0, true, 1, 0), MshrEntry(4, 0, true, 2, 1)])
  {
    assert RouteOf(st, STORE_AT_4) == Enqueue(0);
    NotedRoute(st, STORE_AT_4);
  }

  lemma LoadForwards(st: State)
    requires Waits(st, [MshrEntry(0, 0, true, 1, 0), MshrEntry(4, 0, true, 2, 1)])
    ensures RequestStep(st, LOAD_AT_0).st.completions == [Completion(2, 1, false)]
  {
    var es := st.mshrs[0].entries;
    assert es[..1] == [MshrEntry(0, 0, true, 1, 0)];
    assert ForwardScan(es, 0) == Some(1);
    assert RouteOf(st, LOAD_AT_0) == Forward(1);
  }

  /**
   * Alignment matters. Forwarding compares byte addresses while memory is words: after
   * stores to bytes 0 and 4 of one waiting word, a load of byte 0 is answered with the
   * first store although the flat memory holds the second.
   */
  lemma UnalignedForwardIsStale()
    ensures var st := RequestStep(RequestStep(Reset(), STORE_AT_0).st, STORE_AT_4).st;
      RequestStep(st, LOAD_AT_0).st.completions == [Completion(2, 1, false)]
    ensures FlatValue([STORE_AT_0, STORE_AT_4], Align(LOAD_AT_0.addr)) == 2
  {
    FirstStoreWaits();
    SecondStoreWaits(RequestStep(Reset(), STORE_AT_0).st);
    LoadForwards(RequestStep(RequestStep(Reset(), STORE_AT_0).st, STORE_AT_4).st);
  }
}
