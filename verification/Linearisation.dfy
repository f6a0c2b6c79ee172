/** Every legal run of the golden model is a run of a flat memory, answered out of order. */
module Linearisation {
  import opened L1DTypes
  import opened GoldenSpec
  import opened FlatMemory
  import opened Playback
  import opened GoldenRuns

  // ------------------------------------------------------------- one queue

  /** A queue survives a request that does not store to its block. */
  lemma QueueKeeps(log: seq<Request>, r: Request, es: seq<MshrEntry>, ids: seq<nat>)
    requires QueueOk(log, es, ids)
    requires r.we && es != [] ==> GetBlock(r.addr) != es[0].blockAddr
    ensures QueueOk(log + [r], es, ids)
  {
    var log' := log + [r];
    forall k | 0 <= k < |ids|
      ensures log'[..ids[k]] == log[..ids[k]]
    {
    }
    if es != [] {
      FlatLineAfter(log, r, es[0].blockAddr);
    }
  }

  /** The prefixes of a queue, one entry longer. */
  lemma PrefixesAdmit(log: seq<Request>, r: Request, es: seq<MshrEntry>, ids: seq<nat>, e: MshrEntry, base: Line)
    requires |ids| == |es| && forall k :: 0 <= k < |ids| ==> ids[k] < |log|
    requires PrefixesOk(log, es, ids, GetBlock(r.addr), base)
    requires EntryOf(e, r)
    ensures PrefixesOk(log + [r], es + [e], ids + [|log|], GetBlock(r.addr), base)
  {
    var log', es', ids', b := log + [r], es + [e], ids + [|log|], GetBlock(r.addr);
    forall k | 0 <= k < |es'|
      ensures Play(base, es'[..k]) == FlatLine(log'[..ids'[k]], b)
    {
      assert es'[..k] == es[..k];
      assert log'[..ids'[k]] == log[..ids'[k]];
      if k == |es| {
        assert es[..k] == es && log[..|log|] == log;
      }
    }
    PlaySnoc(base, es, e);
    FlatLineAfter(log, r, b);
  }

  /** A request to the queue's block joins it. */
  lemma QueueAdmits(log: seq<Request>, r: Request, es: seq<MshrEntry>, ids: seq<nat>, e: MshrEntry)
    requires QueueOk(log, es, ids) && |es| < MSHR_QUEUE_SIZE
    requires EntryOf(e, r) && Aligned(r.addr) && e.blockAddr == GetBlock(r.addr)
    requires es != [] ==> es[0].blockAddr == GetBlock(r.addr)
    ensures QueueOk(log + [r], es + [e], ids + [|log|])
  {
    var log', ids', b := log + [r], ids + [|log|], GetBlock(r.addr);
    assert log'[..ids'[0]] == if es == [] then log else log[..ids[0]];
    PrefixesAdmit(log, r, es, ids, e, BaseLine(log', ids', b));
    EntriesAdmit(log, r, es, ids, e);
  }

  lemma EntriesAdmit(log: seq<Request>, r: Request, es: seq<MshrEntry>, ids: seq<nat>, e: MshrEntry)
    requires QueueOk(log, es, ids)
    requires EntryOf(e, r) && Aligned(r.addr) && e.blockAddr == GetBlock(r.addr)
    requires es != [] ==> es[0].blockAddr == GetBlock(r.addr)
    ensures OneBlock(es + [e], GetBlock(r.addr)) && (es + [e])[0].blockAddr == GetBlock(r.addr)
    ensures var log', es', ids' := log + [r], es + [e], ids + [|log|];
      && (forall k :: 0 <= k < |ids'| ==> ids'[k] < |log'| && EntryOf(es'[k], log'[ids'[k]]))
      && (forall j, k :: 0 <= j < k < |ids'| ==> ids'[j] < ids'[k])
  {
  }

  lemma QueuesKeep(log: seq<Request>, r: Request, mshrs: seq<Mshr>, pend: seq<seq<nat>>)
    requires |mshrs| == |pend| == MSHRS && QueuesOk(log, mshrs, pend)
    requires r.we ==> forall m :: 0 <= m < MSHRS ==> !Tracks(mshrs[m], GetBlock(r.addr))
    ensures QueuesOk(log + [r], mshrs, pend)
  {
    forall m | 0 <= m < MSHRS ensures QueueOk(log + [r], mshrs[m].entries, pend[m]) {
      QueueKeeps(log, r, mshrs[m].entries, pend[m]);
    }
  }

  /** One queue admits the request; the others track other blocks. */
  lemma QueuesAdmit(log: seq<Request>, r: Request, mshrs: seq<Mshr>, pend: seq<seq<nat>>, m: nat, q: Mshr, e: MshrEntry)
    requires |mshrs| == |pend| == MSHRS && QueuesOk(log, mshrs, pend) && m < MSHRS
    requires |mshrs[m].entries| < MSHR_QUEUE_SIZE && q.entries == mshrs[m].entries + [e]
    requires EntryOf(e, r) && Aligned(r.addr) && e.blockAddr == GetBlock(r.addr)
    requires Active(mshrs[m]) ==> Tracks(mshrs[m], GetBlock(r.addr))
    requires forall i :: 0 <= i < MSHRS && i != m ==> !Tracks(mshrs[i], GetBlock(r.addr))
    ensures QueuesOk(log + [r], mshrs[m := q], pend[m := pend[m] + [|log|]])
  {
    var mshrs', pend' := mshrs[m := q], pend[m := pend[m] + [|log|]];
    forall i | 0 <= i < MSHRS
      ensures QueueOk(log + [r], mshrs'[i].entries, pend'[i])
    {
      if i == m {
        QueueAdmits(log, r, mshrs[m].entries, pend[m], e);
      } else {
        QueueKeeps(log, r, mshrs[i].entries, pend[i]);
      }
    }
  }

  // ------------------------------------------------------------- structure

  /** A failed lookup means the block is not cached anywhere. */
  lemma NotCached(st: State, addr: PAddr, w: nat, s: nat)
    requires Shape(st) && w < WAYS && s < SETS
    requires Lookup(st.cache, GetSet(addr), GetTag(addr)) < 0 && st.cache[Slot(w, s)].valid
    ensures BlockOf(st.cache[Slot(w, s)].tag, s) != GetBlock(addr)
  {
    AddressFields(addr);
    BlockFields(st.cache[Slot(w, s)].tag, s);
    BlockFields(GetTag(addr), GetSet(addr));
  }

  lemma HitStructure(st: State, r: Request, way: nat)
    requires Shape(st) && way < WAYS && Structure(st)
    ensures Shape(HitStep(st, r, way)) && Structure(HitStep(st, r, way))
  {
    var st' := HitStep(st, r, way);
    forall w: nat, s: nat | w < WAYS && s < SETS
      ensures st'.cache[Slot(w, s)].valid == st.cache[Slot(w, s)].valid && st'.cache[Slot(w, s)].tag == st.cache[Slot(w, s)].tag
    {
    }
  }

  lemma EnqueueStructure(st: State, r: Request, m: nat)
    requires Shape(st) && m < MSHRS && Structure(st) && Tracks(st.mshrs[m], GetBlock(r.addr))
    ensures Shape(EnqueueStep(st, r, m)) && Structure(EnqueueStep(st, r, m))
  {
    var st' := EnqueueStep(st, r, m);
    forall i, b | 0 <= i < MSHRS
      ensures Tracks(st'.mshrs[i], b) == Tracks(st.mshrs[i], b)
    {
    }
  }

  lemma PrimaryStructure(st: State, r: Request, m: nat)
    requires Shape(st) && m < MSHRS && Structure(st) && !Active(st.mshrs[m])
    requires Lookup(st.cache, GetSet(r.addr), GetTag(r.addr)) < 0
    requires FindMshr(st.mshrs, GetBlock(r.addr)) < 0
    ensures Shape(PrimaryStep(st, r, m)) && Structure(PrimaryStep(st, r, m))
  {
    var st' := PrimaryStep(st, r, m);
    forall w: nat, s: nat | w < WAYS && s < SETS
      ensures st'.cache[Slot(w, s)].tag == st.cache[Slot(w, s)].tag
      ensures st'.cache[Slot(w, s)].valid ==>
        st.cache[Slot(w, s)].valid && BlockOf(st.cache[Slot(w, s)].tag, s) != GetBlock(r.addr)
    {
      if st'.cache[Slot(w, s)].valid {
        NotCached(st, r.addr, w, s);
      }
    }
  }

  /** Where a fill of block `b` goes. */
  lemma FillPlace(st: State, m: nat, b: Block, line: Line)
    requires Shape(st) && m < MSHRS
    ensures FillMatched(st, m, b, line).cache ==
      st.cache[Slot(st.mshrs[m].victimWay, SetOf(b)) :=
        Cell(true, AnyStore(st.mshrs[m].entries), TagOf(b), Play(line, st.mshrs[m].entries))]
    ensures BlockOf(TagOf(b), SetOf(b)) == b
  {
    FillFields(b);
  }

  lemma FillStructure(st: State, st': State, m: nat, way: nat, b: Block, cell: Cell)
    requires Shape(st) && Shape(st') && m < MSHRS && way < WAYS && Structure(st) && Tracks(st.mshrs[m], b)
    requires cell.tag == TagOf(b) && BlockOf(TagOf(b), SetOf(b)) == b
    requires st'.cache == st.cache[Slot(way, SetOf(b)) := cell]
    requires st'.mshrs == st.mshrs[m := st.mshrs[m].(entries := [])]
    ensures Structure(st')
  {
    forall w: nat, s: nat | w < WAYS && s < SETS
      ensures w == way && s == SetOf(b) ==> st'.cache[Slot(w, s)] == cell
      ensures w != way || s != SetOf(b) ==> st'.cache[Slot(w, s)] == st.cache[Slot(w, s)]
      ensures st.cache[Slot(w, s)].valid ==> BlockOf(st.cache[Slot(w, s)].tag, s) != b
    {
    }
    forall i, c | 0 <= i < MSHRS
      ensures Tracks(st'.mshrs[i], c) == (i != m && Tracks(st.mshrs[i], c))
    {
    }
  }

  // ------------------------------------------------------------- requests

  lemma StoreLegacy(st: State, log: seq<Request>, r: Request)
    requires LegacyOk(st.legacy, log)
    ensures LegacyOk(NoteStore(st, r).legacy, log + [r])
  {
    forall a: Word | Aligned(a)
      ensures MemRead(NoteStore(st, r).legacy, a) == FlatValue(log + [r], a)
    {
      FlatValueAfter(log, r, a);
    }
  }

  /** The answer given at once is right if the word read is the flat one. */
  lemma ImmediateAnswer(log: seq<Request>, r: Request, v: Word)
    requires GetWord(r.addr) < 8 && (r.we || v == FlatLine(log, GetBlock(r.addr))[GetWord(r.addr)])
    ensures AnswersRequest(log + [r], |log|, if r.we then Completion(r.tag, 0, true) else Completion(r.tag, v, false))
  {
    FlatValueInLine(log, r.addr);
    assert (log + [r])[..|log|] == log;
  }

  /** What was answered stays answered as the log grows. */
  lemma HistoryKeeps(log: seq<Request>, r: Request, order: seq<nat>, history: seq<Completion>)
    requires HistoryOk(log, order, history)
    ensures HistoryOk(log + [r], order, history)
  {
    forall k | 0 <= k < |order| ensures AnswersRequest(log + [r], order[k], history[k]) {
      assert AnswersRequest(log, order[k], history[k]);
      assert (log + [r])[..order[k]] == log[..order[k]];
    }
  }

  lemma HistoryAppends(log: seq<Request>, order: seq<nat>, popped: seq<Completion>, queued: seq<Completion>,
                       ids: seq<nat>, more: seq<Completion>)
    requires HistoryOk(log, order, popped + queued) && HistoryOk(log, ids, more)
    ensures HistoryOk(log, order + ids, popped + (queued + more))
  {
    assert popped + (queued + more) == (popped + queued) + more;
  }

  lemma IdsGrow(n: nat)
    ensures Ids(n + 1) == Ids(n) + [n]
  {
  }

  /** A new request is accounted for where it went. */
  lemma ConservedGrows(n: nat, order: seq<nat>, pend: seq<seq<nat>>)
    requires |pend| == MSHRS && Conserved(n, order, pend)
    ensures Conserved(n + 1, order + [n], pend)
    ensures forall m: nat :: m < MSHRS ==> Conserved(n + 1, order, pend[m := pend[m] + [n]])
  {
    IdsGrow(n);
  }

  lemma CellKeeps(cell: Cell, s: nat, log: seq<Request>, r: Request)
    requires CellOk(cell, s, log)
    requires cell.valid && r.we ==> BlockOf(cell.tag, s) != GetBlock(r.addr)
    ensures CellOk(cell, s, log + [r])
  {
    if cell.valid {
      FlatLineAfter(log, r, BlockOf(cell.tag, s));
    }
  }

  /** When the block is not cached, no line changes its flat contents. */
  lemma LinesKeep(st: State, log: seq<Request>, r: Request)
    requires Shape(st) && LinesOk(st, log)
    requires r.we ==> Lookup(st.cache, GetSet(r.addr), GetTag(r.addr)) < 0
    ensures LinesOk(st, log + [r])
  {
    forall w: nat, s: nat | w < WAYS && s < SETS ensures CellOk(st.cache[Slot(w, s)], s, log + [r]) {
      if st.cache[Slot(w, s)].valid && r.we {
        NotCached(st, r.addr, w, s);
      }
      CellKeeps(st.cache[Slot(w, s)], s, log, r);
    }
  }

  /** The line that is hit. */
  lemma HitCell(cell: Cell, log: seq<Request>, r: Request)
    requires CellOk(cell, GetSet(r.addr), log) && cell.valid && cell.tag == GetTag(r.addr)
    ensures GetWord(r.addr) < 8
    ensures cell.data[GetWord(r.addr)] == FlatLine(log, GetBlock(r.addr))[GetWord(r.addr)]
    ensures r.we ==> CellOk(cell.(dirty := true, data := cell.data[GetWord(r.addr) := r.data]), GetSet(r.addr), log + [r])
  {
    AddressFields(r.addr);
    FlatLineAfter(log, r, GetBlock(r.addr));
  }

  /** A store hit changes no other line's block. */
  lemma OtherCell(st: State, r: Request, way: nat, w: nat, s: nat)
    requires Shape(st) && Structure(st) && way < WAYS && w < WAYS && s < SETS
    requires st.cache[Slot(way, GetSet(r.addr))].valid && st.cache[Slot(way, GetSet(r.addr))].tag == GetTag(r.addr)
    requires (w != way || s != GetSet(r.addr)) && st.cache[Slot(w, s)].valid
    ensures BlockOf(st.cache[Slot(w, s)].tag, s) != GetBlock(r.addr)
  {
    AddressFields(r.addr);
    BlockFields(st.cache[Slot(w, s)].tag, s);
    BlockFields(GetTag(r.addr), GetSet(r.addr));
  }

  lemma HitLines(st: State, log: seq<Request>, r: Request, way: nat)
    requires Shape(st) && Structure(st) && LinesOk(st, log) && way < WAYS
    requires st.cache[Slot(way, GetSet(r.addr))].valid && st.cache[Slot(way, GetSet(r.addr))].tag == GetTag(r.addr)
    ensures Shape(HitStep(st, r, way)) && LinesOk(HitStep(st, r, way), log + [r])
  {
    var st' := HitStep(st, r, way);
    var set_ := GetSet(r.addr);
    HitCell(st.cache[Slot(way, set_)], log, r);
    forall w: nat, s: nat | w < WAYS && s < SETS ensures CellOk(st'.cache[Slot(w, s)], s, log + [r]) {
      if r.we && w == way && s == set_ {
      } else {
        if st.cache[Slot(w, s)].valid && r.we {
          OtherCell(st, r, way, w, s);
        }
        CellKeeps(st.cache[Slot(w, s)], s, log, r);
      }
    }
  }

  /** Noting the store first does not change where a request goes. */
  lemma NotedRoute(st: State, r: Request)
    requires Shape(st)
    ensures Shape(NoteStore(st, r)) && RouteOf(NoteStore(st, r), r) == RouteOf(st, r)
  {
  }

  ghost function AtOnce(run: Run, r: Request): Run
    requires Sized(run)
  {
    run.(st := RequestStep(run.st, r).st, log := run.log + [r], order := run.order + [|run.log|])
  }

  ghost function Waiting(run: Run, r: Request, m: nat): Run
    requires Sized(run) && m < MSHRS
  {
    run.(st := RequestStep(run.st, r).st, log := run.log + [r], pend := run.pend[m := run.pend[m] + [|run.log|]])
  }

  /** The two ways an accepted request changes the history. */
  lemma NextForms(run: Run, r: Request)
    requires Sized(run)
    ensures match RouteOf(run.st, r)
      case Hit(_) => Next(run, Ask(r)) == AtOnce(run, r)
      case Forward(_) => Next(run, Ask(r)) == AtOnce(run, r)
      case Enqueue(m) => Next(run, Ask(r)) == Waiting(run, r, m)
      case Primary(m) => Next(run, Ask(r)) == Waiting(run, r, m)
      case Drop => Next(run, Ask(r)) == run.(st := RequestStep(run.st, r).st, log := run.log + [r])
  {
  }

  lemma AtOnceKeeps(run: Run, r: Request, c: Completion)
    requires Sized(run) && RequestStep(run.st, r).st.completions == run.st.completions + [c]
    requires AnswersRequest(run.log + [r], |run.log|, c)
    requires HistoryOk(run.log, run.order, History(run)) && Conserved(|run.log|, run.order, run.pend)
    ensures var run' := AtOnce(run, r);
      HistoryOk(run'.log, run'.order, History(run')) && Conserved(|run'.log|, run'.order, run'.pend)
  {
    HistoryKeeps(run.log, r, run.order, History(run));
    HistoryAppends(run.log + [r], run.order, run.popped, run.st.completions, [|run.log|], [c]);
    ConservedGrows(|run.log|, run.order, run.pend);
  }

  lemma WaitingKeeps(run: Run, r: Request, m: nat)
    requires Sized(run) && m < MSHRS && RequestStep(run.st, r).st.completions == run.st.completions
    requires HistoryOk(run.log, run.order, History(run)) && Conserved(|run.log|, run.order, run.pend)
    ensures var run' := Waiting(run, r, m);
      HistoryOk(run'.log, run'.order, History(run')) && Conserved(|run'.log|, run'.order, run'.pend)
  {
    HistoryKeeps(run.log, r, run.order, History(run));
    ConservedGrows(|run.log|, run.order, run.pend);
  }

  /** What a hit answers. */
  function HitAnswer(cell: Cell, r: Request): Completion {
    if r.we then Completion(r.tag, 0, true) else Completion(r.tag, cell.data[GetWord(r.addr)], false)
  }

  lemma HitState(st: State, log: seq<Request>, r: Request, way: nat)
    requires Shape(st) && Structure(st) && LinesOk(st, log) && LegacyOk(st.legacy, log)
    requires RouteOf(st, r) == Hit(way)
    ensures var st' := RequestStep(st, r).st;
      && st'.mshrs == st.mshrs
      && st'.completions == st.completions + [HitAnswer(st.cache[Slot(way, GetSet(r.addr))], r)]
      && Structure(st') && LinesOk(st', log + [r]) && LegacyOk(st'.legacy, log + [r])
  {
    NotedRoute(st, r);
    HitLines(NoteStore(st, r), log, r, way);
    HitStructure(NoteStore(st, r), r, way);
    StoreLegacy(st, log, r);
  }

  lemma HitKeeps(run: Run, r: Request, way: nat)
    requires Inv(run) && RouteOf(run.st, r) == Hit(way)
    ensures Inv(Next(run, Ask(r)))
  {
    var cell := run.st.cache[Slot(way, GetSet(r.addr))];
    HitState(run.st, run.log, r, way);
    HitUntracked(run.st, r, way);
    QueuesKeep(run.log, r, run.st.mshrs, run.pend);
    HitCell(cell, run.log, r);
    ImmediateAnswer(run.log, r, cell.data[GetWord(r.addr)]);
    AtOnceKeeps(run, r, HitAnswer(cell, r));
    NextForms(run, r);
  }

  /** No MSHR tracks a block that is hit. */
  lemma HitUntracked(st: State, r: Request, way: nat)
    requires Shape(st) && Structure(st) && way < WAYS
    requires st.cache[Slot(way, GetSet(r.addr))].valid && st.cache[Slot(way, GetSet(r.addr))].tag == GetTag(r.addr)
    ensures forall m :: 0 <= m < MSHRS ==> !Tracks(st.mshrs[m], GetBlock(r.addr))
  {
    AddressFields(r.addr);
  }

  lemma ForwardKeeps(run: Run, r: Request, v: Word)
    requires Inv(run) && Aligned(r.addr) && RouteOf(run.st, r) == Forward(v)
    ensures Inv(Next(run, Ask(r)))
  {
    ForwardValue(run, r, v);
    QueuesKeep(run.log, r, run.st.mshrs, run.pend);
    LinesKeep(run.st, run.log, r);
    StoreLegacy(run.st, run.log, r);
    ImmediateAnswer(run.log, r, v);
    AtOnceKeeps(run, r, Completion(r.tag, v, false));
    NextForms(run, r);
  }

  /** A forwarded load gets the block's flat word. */
  lemma ForwardValue(run: Run, r: Request, v: Word)
    requires Sized(run) && QueuesOk(run.log, run.st.mshrs, run.pend) && Aligned(r.addr)
    requires RouteOf(run.st, r) == Forward(v)
    ensures !r.we && GetWord(r.addr) < 8 && v == FlatLine(run.log, GetBlock(r.addr))[GetWord(r.addr)]
  {
    var b := GetBlock(r.addr);
    var m := FindMshr(run.st.mshrs, b);
    var es := run.st.mshrs[m].entries;
    assert QueueOk(run.log, es, run.pend[m]);
    ForwardIsPlayback(BaseLine(run.log, run.pend[m], b), es, b, r.addr);
  }

  lemma EnqueueState(st: State, log: seq<Request>, r: Request, m: nat)
    requires Shape(st) && Structure(st) && LinesOk(st, log) && LegacyOk(st.legacy, log)
    requires RouteOf(st, r) == Enqueue(m)
    ensures var st' := RequestStep(st, r).st;
      && st' == EnqueueStep(NoteStore(st, r), r, m)
      && Structure(st') && LinesOk(st', log + [r]) && LegacyOk(st'.legacy, log + [r])
  {
    NotedRoute(st, r);
    LinesKeep(st, log, r);
    StoreLegacy(st, log, r);
    EnqueueStructure(NoteStore(st, r), r, m);
  }

  lemma EnqueueQueues(run: Run, r: Request, m: nat)
    requires Sized(run) && Structure(run.st) && QueuesOk(run.log, run.st.mshrs, run.pend)
    requires Aligned(r.addr) && RouteOf(run.st, r) == Enqueue(m)
    ensures QueuesOk(run.log + [r], EnqueueStep(NoteStore(run.st, r), r, m).mshrs, run.pend[m := run.pend[m] + [|run.log|]])
  {
    var q := EnqueueStep(NoteStore(run.st, r), r, m).mshrs[m];
    QueuesAdmit(run.log, r, run.st.mshrs, run.pend, m, q, q.entries[|q.entries| - 1]);
  }

  lemma EnqueueKeeps(run: Run, r: Request, m: nat)
    requires Inv(run) && Aligned(r.addr) && RouteOf(run.st, r) == Enqueue(m)
    ensures Inv(Next(run, Ask(r)))
  {
    EnqueueState(run.st, run.log, r, m);
    EnqueueQueues(run, r, m);
    WaitingKeeps(run, r, m);
    NextForms(run, r);
  }

  /** Writing back a line that holds its block's flat contents is invisible. */
  lemma EvictionInvisible(legacy: map<Word, Word>, log: seq<Request>, b: Block, line: Line)
    requires LegacyOk(legacy, log) && line == FlatLine(log, b)
    ensures LegacyOk(WriteBack(legacy, b, line, WORDS), log)
  {
    forall a: Word | Aligned(a)
      ensures MemRead(WriteBack(legacy, b, line, WORDS), a) == FlatValue(log, a)
    {
      WriteBackReads(legacy, b, line, WORDS, a);
      if a < 0x40_0000 && GetBlock(a) == b {
        FlatValueInLine(log, a);
      }
    }
  }

  lemma PrimaryLegacy(st: State, log: seq<Request>, r: Request, m: nat)
    requires Shape(st) && m < MSHRS && LinesOk(st, log) && LegacyOk(st.legacy, log)
    ensures LegacyOk(PrimaryStep(st, r, m).legacy, log)
  {
    var slot := VictimSlot(st, r.addr);
    var cell := st.cache[slot];
    assert CellOk(st.cache[Slot(slot.way, slot.set_)], slot.set_, log);
    if cell.valid && cell.dirty {
      EvictionInvisible(st.legacy, log, BlockOf(cell.tag, slot.set_), cell.data);
    }
  }

  lemma PrimaryLines(st: State, log: seq<Request>, r: Request, m: nat)
    requires Shape(st) && m < MSHRS && LinesOk(st, log)
    ensures Shape(PrimaryStep(st, r, m)) && LinesOk(PrimaryStep(st, r, m), log)
  {
    var st' := PrimaryStep(st, r, m);
    var slot := VictimSlot(st, r.addr);
    forall w: nat, s: nat | w < WAYS && s < SETS ensures CellOk(st'.cache[Slot(w, s)], s, log) {
      if Slot(w, s) != slot {
        assert st'.cache[Slot(w, s)] == st.cache[Slot(w, s)];
      }
    }
  }

  /** Evicting and allocating keep every line and the flat map right. */
  lemma PrimaryState(st: State, log: seq<Request>, r: Request, m: nat)
    requires Shape(st) && Structure(st) && LinesOk(st, log) && LegacyOk(st.legacy, log)
    requires RouteOf(st, r) == Primary(m)
    ensures var st' := RequestStep(st, r).st;
      && st' == PrimaryStep(NoteStore(st, r), r, m)
      && Structure(st') && LinesOk(st', log + [r]) && LegacyOk(st'.legacy, log + [r])
  {
    var noted := NoteStore(st, r);
    NotedRoute(st, r);
    LinesKeep(st, log, r);
    StoreLegacy(st, log, r);
    assert Shape(noted) && LinesOk(noted, log + [r]);
    PrimaryLines(noted, log + [r], r, m);
    PrimaryLegacy(noted, log + [r], r, m);
    PrimaryStructure(noted, r, m);
  }

  lemma PrimaryKeeps(run: Run, r: Request, m: nat)
    requires Inv(run) && Aligned(r.addr) && RouteOf(run.st, r) == Primary(m)
    ensures Inv(Next(run, Ask(r)))
  {
    PrimaryState(run.st, run.log, r, m);
    PrimaryQueues(run, r, m);
    WaitingKeeps(run, r, m);
    NextForms(run, r);
  }

  lemma PrimaryQueues(run: Run, r: Request, m: nat)
    requires Sized(run) && QueuesOk(run.log, run.st.mshrs, run.pend)
    requires Aligned(r.addr) && RouteOf(run.st, r) == Primary(m)
    ensures QueuesOk(run.log + [r], PrimaryStep(NoteStore(run.st, r), r, m).mshrs, run.pend[m := run.pend[m] + [|run.log|]])
  {
    var q := PrimaryStep(NoteStore(run.st, r), r, m).mshrs[m];
    QueuesAdmit(run.log, r, run.st.mshrs, run.pend, m, q, q.entries[|q.entries| - 1]);
  }

  // ------------------------------------------------------------- fills

  /** The flat map reads the same before and after a whole playback. */
  lemma PlaybackInvisible(legacy: map<Word, Word>, log: seq<Request>, es: seq<MshrEntry>, ids: seq<nat>)
    requires LegacyOk(legacy, log) && QueueOk(log, es, ids)
    ensures LegacyOk(PlayLegacy(legacy, es), log)
  {
    if es != [] {
      var b := es[0].blockAddr;
      var base := BaseLine(log, ids, b);
      forall a: Word | Aligned(a)
        ensures MemRead(PlayLegacy(legacy, es), a) == FlatValue(log, a)
      {
        PlayLegacyReads(legacy, base, es, b, a);
        if a < 0x40_0000 && GetBlock(a) == b {
          FlatValueInLine(log, a);
        }
      }
    }
  }

  /** Playback answers each waiting request with the flat value at its request. */
  lemma PlaybackAnswers(log: seq<Request>, es: seq<MshrEntry>, ids: seq<nat>)
    requires QueueOk(log, es, ids) && es != []
    ensures HistoryOk(log, ids, Answers(BaseLine(log, ids, es[0].blockAddr), es))
  {
    var b := es[0].blockAddr;
    var base := BaseLine(log, ids, b);
    AnswersAt(base, es);
    forall k | 0 <= k < |ids| ensures AnswersRequest(log, ids[k], Answers(base, es)[k]) {
      AddressFields(es[k].paddr);
      FlatValueInLine(log[..ids[k]], es[k].paddr);
      assert EntryOf(es[k], log[ids[k]]);
      assert Play(base, es[..k]) == FlatLine(log[..ids[k]], b);
    }
  }

  lemma ConservedMoves(n: nat, order: seq<nat>, pend: seq<seq<nat>>, m: nat)
    requires |pend| == MSHRS && m < MSHRS && Conserved(n, order, pend)
    ensures Conserved(n, order + pend[m], pend[m := []])
  {
  }

  lemma FillLines(st: State, st': State, log: seq<Request>, way: nat, b: Block, cell: Cell)
    requires Shape(st) && Shape(st') && way < WAYS && LinesOk(st, log)
    requires cell.tag == TagOf(b) && BlockOf(TagOf(b), SetOf(b)) == b && cell.data == FlatLine(log, b)
    requires st'.cache == st.cache[Slot(way, SetOf(b)) := cell]
    ensures LinesOk(st', log)
  {
    forall w: nat, s: nat | w < WAYS && s < SETS ensures CellOk(st'.cache[Slot(w, s)], s, log) {
      if w == way && s == SetOf(b) {
        assert st'.cache[Slot(w, s)] == cell;
      } else {
        assert CellOk(st.cache[Slot(w, s)], s, log);
      }
    }
  }

  lemma FillQueues(log: seq<Request>, mshrs: seq<Mshr>, pend: seq<seq<nat>>, m: nat)
    requires |mshrs| == |pend| == MSHRS && m < MSHRS && QueuesOk(log, mshrs, pend)
    ensures QueuesOk(log, mshrs[m := mshrs[m].(entries := [])], pend[m := []])
  {
  }

  lemma FillState(st: State, log: seq<Request>, m: nat, b: Block, line: Line)
    requires Shape(st) && m < MSHRS && Structure(st) && LinesOk(st, log) && m == FindMshr(st.mshrs, b)
    requires Play(line, st.mshrs[m].entries) == FlatLine(log, b)
    ensures var st' := FillStep(st, b, line).st;
      && st' == FillMatched(st, m, b, line) && Structure(st') && LinesOk(st', log)
  {
    var st' := FillStep(st, b, line).st;
    var cell := Cell(true, AnyStore(st.mshrs[m].entries), TagOf(b), Play(line, st.mshrs[m].entries));
    FillPlace(st, m, b, line);
    FillStructure(st, st', m, st.mshrs[m].victimWay, b, cell);
    FillLines(st, st', log, st.mshrs[m].victimWay, b, cell);
  }

  lemma FillKeeps(run: Run, b: Block, line: Line)
    requires Inv(run) && Legal(run, Supply(b, line))
    ensures Inv(Next(run, Supply(b, line)))
  {
    var m := FindMshr(run.st.mshrs, b);
    var es, ids := run.st.mshrs[m].entries, run.pend[m];
    assert QueueOk(run.log, es, ids);
    assert line == BaseLine(run.log, ids, b);
    FillState(run.st, run.log, m, b, line);
    FillQueues(run.log, run.st.mshrs, run.pend, m);
    PlaybackInvisible(run.st.legacy, run.log, es, ids);
    PlaybackAnswers(run.log, es, ids);
    HistoryAppends(run.log, run.order, run.popped, run.st.completions, ids, Answers(line, es));
    ConservedMoves(|run.log|, run.order, run.pend, m);
  }

  // ------------------------------------------------------------- room

  /** The lookup finds a cached block, and only a cached block. */
  lemma LookupIsCached(st: State, addr: PAddr)
    requires Shape(st)
    ensures Lookup(st.cache, GetSet(addr), GetTag(addr)) >= 0 <==> Cached(st, GetBlock(addr))
  {
    AddressFields(addr);
    BlockFields(GetTag(addr), GetSet(addr));
    var b, w := GetBlock(addr), Lookup(st.cache, GetSet(addr), GetTag(addr));
    if w >= 0 {
      assert HoldsBlock(st, w, b);
    }
  }

  lemma FoundIsTracked(st: State, b: Block)
    requires Shape(st)
    ensures FindMshr(st.mshrs, b) >= 0 <==> Tracked(st, b)
  {
    if FindMshr(st.mshrs, b) >= 0 {
      assert Tracks(st.mshrs[FindMshr(st.mshrs, b)], b);
    }
  }

  /** Scanning the tracking queue of a run finds a store exactly when one waits for the word. */
  lemma ScanIsWaiting(run: Run, m: nat, r: Request)
    requires Inv(run) && m < MSHRS && Tracks(run.st.mshrs[m], GetBlock(r.addr)) && Aligned(r.addr)
    ensures ForwardScan(run.st.mshrs[m].entries, r.addr).Some? <==> StoresWord(run.st.mshrs[m].entries, GetWord(r.addr))
  {
    var es := run.st.mshrs[m].entries;
    assert QueueOk(run.log, es, run.pend[m]);
    ForwardIsPlayback(FlatLine([], 0), es, GetBlock(r.addr), r.addr);
  }

  /** A request is dropped exactly when the model has no room for it. */
  lemma RoomIsRoute(run: Run, r: Request)
    requires Inv(run) && Aligned(r.addr)
    ensures HasRoom(run.st, r) <==> !RouteOf(run.st, r).Drop?
  {
    var st, b := run.st, GetBlock(r.addr);
    LookupIsCached(st, r.addr);
    FoundIsTracked(st, b);
    var m := FindMshr(st.mshrs, b);
    if m >= 0 {
      ScanIsWaiting(run, m, r);
      OnlyTracker(st, m, b);
    } else if FreeMshr(st.mshrs) >= 0 {
      assert !Active(st.mshrs[FreeMshr(st.mshrs)]);
    }
  }

  lemma OnlyTracker(st: State, m: nat, b: Block)
    requires Shape(st) && Structure(st) && m < MSHRS && Tracks(st.mshrs[m], b)
    ensures forall i :: 0 <= i < MSHRS && i != m ==> !Tracks(st.mshrs[i], b)
  {
  }

  // ------------------------------------------------------------- runs

  lemma PopKeeps(run: Run)
    requires Inv(run)
    ensures Inv(Next(run, Pop))
  {
    var run' := Next(run, Pop);
    assert History(run') == History(run);
  }

  lemma StepKeeps(run: Run, ev: Event)
    requires Inv(run) && Legal(run, ev)
    ensures Inv(Next(run, ev))
  {
    match ev
    case Ask(r) => {
      RoomIsRoute(run, r);
      match RouteOf(run.st, r)
      case Hit(way) => HitKeeps(run, r, way);
      case Forward(v) => ForwardKeeps(run, r, v);
      case Enqueue(m) => EnqueueKeeps(run, r, m);
      case Primary(m) => PrimaryKeeps(run, r, m);
    }
    case Supply(b, line) => FillKeeps(run, b, line);
    case Pop => PopKeeps(run);
  }

  lemma StartInv()
    ensures Inv(Start())
  {
  }

  /**
   * Linearisation. After any legal run the invariant holds: completion `k` of all
   * those ever queued answers request `order[k]` with the flat memory's value at that
   * request; every request is completed once or waits once.
   */
  lemma {:induction false} Linearised(evs: seq<Event>)
    requires LegalRun(evs)
    ensures Inv(Exec(evs))
  {
    if evs == [] {
      StartInv();
    } else {
      Linearised(evs[..|evs| - 1]);
      StepKeeps(Exec(evs[..|evs| - 1]), evs[|evs| - 1]);
    }
  }
}
