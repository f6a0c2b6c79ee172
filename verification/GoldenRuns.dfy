/**
 * Runs of the golden model: requests, fills and completion pops in any order and
 * number, with the history needed to say which completion answers which request.
 */
module GoldenRuns {
  import opened L1DTypes
  import opened GoldenSpec
  import opened FlatMemory
  import opened Playback

  datatype Event = Ask(r: Request) | Supply(b: Block, line: Line) | Pop

  /**
   * The model's state with its history. A request is named by its index in `log`:
   * `pend[m]` names the requests waiting in MSHR `m`, oldest first, and `order[k]`
   * the request that the k-th completion ever queued belongs to.
   */
  datatype Run = Run(st: State, log: seq<Request>, pend: seq<seq<nat>>, order: seq<nat>, popped: seq<Completion>)

  function Start(): Run { Run(Reset(), [], [[], []], [], []) }

  /** Every completion ever queued, in queueing order. */
  function History(run: Run): seq<Completion> { run.popped + run.st.completions }

  ghost predicate Sized(run: Run) { Shape(run.st) && |run.pend| == MSHRS }

  ghost function Next(run: Run, ev: Event): (run': Run)
    requires Sized(run)
    ensures Sized(run')
  {
    match ev
    case Ask(r) =>
      var id := |run.log|;
      var asked := run.(st := RequestStep(run.st, r).st, log := run.log + [r]);
      (match RouteOf(run.st, r)
       case Hit(_) => asked.(order := run.order + [id])
       case Forward(_) => asked.(order := run.order + [id])
       case Enqueue(m) => asked.(pend := run.pend[m := run.pend[m] + [id]])
       case Primary(m) => asked.(pend := run.pend[m := run.pend[m] + [id]])
       case Drop => asked)
    case Supply(b, line) =>
      var filled := run.(st := FillStep(run.st, b, line).st);
      var m := FindMshr(run.st.mshrs, b);
      if m >= 0 then filled.(pend := run.pend[m := []], order := run.order + run.pend[m]) else filled
    case Pop =>
      if run.st.completions == [] then run
      else run.(st := run.st.(completions := run.st.completions[1..]), popped := run.popped + [run.st.completions[0]])
  }

  ghost function Exec(evs: seq<Event>): (run: Run)
    ensures Sized(run)
  {
    if evs == [] then Start()
    else Next(Exec(evs[..|evs| - 1]), evs[|evs| - 1])
  }

  ghost predicate HoldsBlock(st: State, w: nat, b: Block)
    requires Shape(st) && w < WAYS
  {
    st.cache[Slot(w, SetOf(b))].valid && st.cache[Slot(w, SetOf(b))].tag == TagOf(b)
  }

  ghost predicate Cached(st: State, b: Block)
    requires Shape(st)
  {
    exists w: nat :: w < WAYS && HoldsBlock(st, w, b)
  }

  ghost predicate Tracked(st: State, b: Block)
    requires Shape(st)
  {
    exists m :: 0 <= m < MSHRS && Tracks(st.mshrs[m], b)
  }

  /**
   * The model has room for a request: its block is cached; or an MSHR waits for the block
   * and holds fewer than 16 requests, or a store to the word of this load; or no MSHR waits
   * for it and one is inactive.
   */
  ghost predicate HasRoom(st: State, r: Request)
    requires Shape(st)
  {
    var b := GetBlock(r.addr);
    || Cached(st, b)
    || (exists m :: 0 <= m < MSHRS && Tracks(st.mshrs[m], b) && Admits(st.mshrs[m].entries, r))
    || (!Tracked(st, b) && exists m :: 0 <= m < MSHRS && !Active(st.mshrs[m]))
  }

  ghost predicate Admits(es: seq<MshrEntry>, r: Request) {
    |es| < 16 || (!r.we && StoresWord(es, GetWord(r.addr)))
  }

  /**
   * What the surrounding hardware guarantees: requests are aligned and arrive only
   * when the model has room for them; a fill answers an active MSHR with the block's
   * flat contents as of the request that allocated it.
   */
  ghost predicate Legal(run: Run, ev: Event)
    requires Sized(run)
  {
    match ev
    case Ask(r) => Aligned(r.addr) && HasRoom(run.st, r)
    case Supply(b, line) =>
      var m := FindMshr(run.st.mshrs, b);
      m >= 0 && run.pend[m] != [] && run.pend[m][0] <= |run.log| && line == FlatLine(run.log[..run.pend[m][0]], b)
    case Pop => true
  }

  ghost predicate LegalRun(evs: seq<Event>) {
    evs == [] || (LegalRun(evs[..|evs| - 1]) && Legal(Exec(evs[..|evs| - 1]), evs[|evs| - 1]))
  }

  // ------------------------------------------------------------- the invariant

  /** Which blocks are where: active MSHRs track distinct blocks, none of them cached,
      and no block is cached twice. */
  ghost predicate Structure(st: State)
    requires Shape(st)
  {
    && (forall i, j :: 0 <= i < j < MSHRS && Active(st.mshrs[i]) ==> !Tracks(st.mshrs[j], st.mshrs[i].entries[0].blockAddr))
    && (forall w: nat, s: nat, m :: w < WAYS && s < SETS && 0 <= m < MSHRS && st.cache[Slot(w, s)].valid ==>
          !Tracks(st.mshrs[m], BlockOf(st.cache[Slot(w, s)].tag, s)))
    && (forall w: nat, v: nat, s: nat :: w < v < WAYS && s < SETS && st.cache[Slot(w, s)].valid && st.cache[Slot(v, s)].valid ==>
          st.cache[Slot(w, s)].tag != st.cache[Slot(v, s)].tag)
  }

  /** A valid cell of set `s` holds its block's flat contents. */
  ghost predicate CellOk(cell: Cell, s: nat, log: seq<Request>) {
    cell.valid ==> cell.tag < 8192 && s < SETS && cell.data == FlatLine(log, BlockOf(cell.tag, s))
  }

  ghost predicate LinesOk(st: State, log: seq<Request>)
    requires Shape(st)
  {
    forall w: nat, s: nat :: w < WAYS && s < SETS ==> CellOk(st.cache[Slot(w, s)], s, log)
  }

  ghost predicate EntryOf(e: MshrEntry, r: Request) {
    e.paddr == r.addr && e.we == r.we && e.procTag == r.tag && (r.we ==> e.data == r.data)
  }

  /** The line an MSHR waits for: its block as of the primary miss. */
  ghost function BaseLine(log: seq<Request>, ids: seq<nat>, b: Block): Line
    requires ids != [] && ids[0] <= |log|
  {
    FlatLine(log[..ids[0]], b)
  }

  /** A queue holds the requests named by `ids`, in request order, all for one block. */
  ghost predicate QueueOk(log: seq<Request>, es: seq<MshrEntry>, ids: seq<nat>) {
    && |ids| == |es| <= MSHR_QUEUE_SIZE
    && (forall k :: 0 <= k < |ids| ==> ids[k] < |log| && EntryOf(es[k], log[ids[k]]))
    && (forall j, k :: 0 <= j < k < |ids| ==> ids[j] < ids[k])
    && (es != [] ==>
          && OneBlock(es, es[0].blockAddr)
          && PrefixesOk(log, es, ids, es[0].blockAddr, BaseLine(log, ids, es[0].blockAddr)))
  }

  /** Played onto the base line, each prefix of a queue gives the flat contents of the
      block as of the next request, and the whole queue gives its contents now. */
  ghost predicate PrefixesOk(log: seq<Request>, es: seq<MshrEntry>, ids: seq<nat>, b: Block, base: Line)
    requires |ids| == |es|
    requires forall k :: 0 <= k < |ids| ==> ids[k] < |log|
  {
    && (forall k :: 0 <= k < |es| ==> Play(base, es[..k]) == FlatLine(log[..ids[k]], b))
    && Play(base, es) == FlatLine(log, b)
  }

  ghost predicate QueuesOk(log: seq<Request>, mshrs: seq<Mshr>, pend: seq<seq<nat>>)
    requires |mshrs| == |pend| == MSHRS
  {
    forall m :: 0 <= m < MSHRS ==> QueueOk(log, mshrs[m].entries, pend[m])
  }

  /** The flat map kept beside the cache reads like the flat memory. */
  ghost predicate LegacyOk(legacy: map<Word, Word>, log: seq<Request>) {
    forall a: Word :: Aligned(a) ==> MemRead(legacy, a) == FlatValue(log, a)
  }

  /** A completion carries the request's tag and kind and, for a load, the flat
      memory's value at the moment of the request. */
  ghost predicate AnswersRequest(log: seq<Request>, id: nat, c: Completion) {
    && id < |log|
    && c.tag == log[id].tag && c.isWrite == log[id].we
    && c.data == if log[id].we then 0 else FlatValue(log[..id], Align(log[id].addr))
  }

  ghost predicate HistoryOk(log: seq<Request>, order: seq<nat>, history: seq<Completion>) {
    && |order| == |history|
    && forall k :: 0 <= k < |order| ==> AnswersRequest(log, order[k], history[k])
  }

  function Ids(n: nat): seq<nat> { seq(n, i requires 0 <= i < n => i) }

  /** Every request so far is completed once or pending once, and never both. */
  ghost predicate Conserved(n: nat, order: seq<nat>, pend: seq<seq<nat>>)
    requires |pend| == MSHRS
  {
    multiset(order) + multiset(pend[0]) + multiset(pend[1]) == multiset(Ids(n))
  }

  ghost predicate Inv(run: Run) {
    && Sized(run)
    && Structure(run.st)
    && LinesOk(run.st, run.log)
    && QueuesOk(run.log, run.st.mshrs, run.pend)
    && LegacyOk(run.st.legacy, run.log)
    && HistoryOk(run.log, run.order, History(run))
    && Conserved(|run.log|, run.order, run.pend)
  }
}
