/** The program run on a sequence of events is in the state the run says. */
module GoldenReplay {
  import opened L1DTypes
  import opened GoldenSpec
  import opened GoldenModel
  import opened FlatMemory
  import opened GoldenRuns
  import opened Linearisation

  /** Processor tags have ten bits. */
  ghost predicate TagsFit(evs: seq<Event>) {
    forall k :: 0 <= k < |evs| && evs[k].Ask? ==> evs[k].r.tag < 0x400
  }

  /** A 64-bit word as the C interface takes it, a signed number. */
  function AsLongLong(w: Word): int { if w < 0x8000_0000_0000_0000 then w else w - 0x1_0000_0000_0000_0000 }

  /** The integer arguments of the C interface: a negative word is the one 2^64 above it, the
      address loses all but its low 22 bits and the tag all but its low ten. */
  lemma DecodeExact(addr: int, data: int, tag: int, isWrite: int)
    requires -0x8000_0000_0000_0000 <= data < 0x8000_0000_0000_0000
    ensures var r := Decode(addr, data, tag, isWrite);
      && r.data == (if data < 0 then data + 0x1_0000_0000_0000_0000 else data) && AsLongLong(r.data) == data
      && (exists k: int :: addr == k * 0x40_0000 + r.addr)
      && r.tag < 0x400 && (exists k: int :: tag == k * 0x400 + r.tag)
      && (r.we <==> isWrite != 0)
  {
    var r := Decode(addr, data, tag, isWrite);
    assert addr == addr / 0x40_0000 * 0x40_0000 + r.addr;
    assert tag == tag / 0x400 * 0x400 + r.tag;
  }

  /** Every request reaches the model through the C interface unchanged. */
  lemma DecodeRequest(r: Request)
    requires r.tag < 0x400
    ensures Decode(r.addr, AsLongLong(r.data), r.tag, if r.we then 1 else 0) == r
  {
    DecodeExact(r.addr, AsLongLong(r.data), r.tag, if r.we then 1 else 0);
  }

  /** What one event does to the model's state. */
  ghost function StateAfter(st: State, ev: Event): State
    requires Shape(st)
  {
    match ev
    case Ask(r) => RequestStep(st, r).st
    case Supply(b, line) => FillStep(st, b, line).st
    case Pop => if st.completions == [] then st else st.(completions := st.completions[1..])
  }

  lemma NextState(run: Run, ev: Event)
    requires Sized(run)
    ensures Next(run, ev).st == StateAfter(run.st, ev)
  {
    if ev.Ask? {
      NextForms(run, ev.r);
    }
  }

  /** One event, given to the program. */
  method Feed(model: L1DModel, ev: Event)
    requires model.Valid()
    requires ev.Ask? ==> ev.r.tag < 0x400
    modifies model, model.tagArray, model.dataArray, model.plruBits, model.mshr
    ensures model.Valid() && model.st == StateAfter(old(model.st), ev)
  {
    match ev
    case Ask(r) => {
      DecodeRequest(r);
      var _ := model.DoRequest(r.addr, AsLongLong(r.data), r.tag, if r.we then 1 else 0);
    }
    case Supply(b, line) => {
      var _ := model.Fill(b, line);
    }
    case Pop => {
      var _ := model.PopCompletion();
    }
  }

  lemma ExecNext(evs: seq<Event>, n: nat)
    requires n < |evs|
    ensures Exec(evs[..n + 1]).st == StateAfter(Exec(evs[..n]).st, evs[n])
  {
    assert evs[..n + 1][..n] == evs[..n];
    NextState(Exec(evs[..n]), evs[n]);
  }

  lemma ReadsFlat(evs: seq<Event>)
    requires LegalRun(evs)
    ensures forall a: Word :: Aligned(a) ==> MemRead(Exec(evs).st.legacy, a) == FlatValue(Exec(evs).log, a)
  {
    Linearised(evs);
  }

  /**
   * A fresh model fed with a legal run ends in the run's state, so that its flat map
   * reads as the flat memory of the requests made.
   */
  method Replay(evs: seq<Event>) returns (model: L1DModel)
    requires TagsFit(evs) && LegalRun(evs)
    ensures model.Valid() && model.st == Exec(evs).st
    ensures forall a: Word :: Aligned(a) ==> MemRead(model.legacyMem, a) == FlatValue(Exec(evs).log, a)
  {
    model := new L1DModel();
    var n := 0;
    assert evs[..0] == [];
    while n < |evs|
      invariant 0 <= n <= |evs|
      invariant fresh(model) && fresh(model.tagArray) && fresh(model.dataArray) && fresh(model.plruBits) && fresh(model.mshr)
      invariant model.Valid() && model.st == Exec(evs[..n]).st
    {
      ExecNext(evs, n);
      Feed(model, evs[n]);
      n := n + 1;
    }
    assert evs[..n] == evs;
    ReadsFlat(evs);
  }
}
