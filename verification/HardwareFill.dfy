/** A fill played back by the hardware, in any run of the cache: its outputs are the flat
    memory's answers. */
module HardwareFill {
  import opened L1DTypes
  import opened GoldenSpec
  import opened FlatMemory
  import opened GoldenRuns
  import opened Linearisation
  import opened MshrRing
  import opened RtlPlayback

  /** The hardware queues hold the requests that the golden queues hold. */
  ghost predicate Mirrors(queues: seq<seq<RtlEntry>>, mshrs: seq<Mshr>) {
    |queues| == |mshrs| && forall i :: 0 <= i < |mshrs| ==> SameQueue(queues[i], mshrs[i].entries)
  }

  /** An output answers a request as a flat memory would have at the moment of the request. */
  ghost predicate AnswersFlat(out: Output, log: seq<Request>, id: nat) {
    && id < |log| && out.Served? && out.tag == log[id].tag && out.writeComplete == log[id].we
    && (!log[id].we ==> out.value == FlatValue(log[..id], Align(log[id].addr)))
  }

  lemma AnsweredFlat(out: Output, c: Completion, log: seq<Request>, id: nat)
    requires SameAnswer(out, c) && AnswersRequest(log, id, c)
    ensures AnswersFlat(out, log, id)
  {
  }

  /** The queue the fill is for: the only one for its block, played to the flat contents. */
  lemma MatchedQueue(run: Run, b: Block, line: Line, queues: seq<seq<RtlEntry>>)
    requires Inv(run) && Legal(run, Supply(b, line)) && Mirrors(queues, run.st.mshrs)
    ensures var m := FindMshr(run.st.mshrs, b);
      var es := run.st.mshrs[m].entries;
      && OnlyQueue(queues, m, es, b) && Play(line, es) == FlatLine(run.log, b)
      && |run.pend[m]| == |es| && HistoryOk(run.log, run.pend[m], Answers(line, es))
  {
    var m := FindMshr(run.st.mshrs, b);
    assert QueueOk(run.log, run.st.mshrs[m].entries, run.pend[m]);
    GoldenQueueIsOnly(run.st.mshrs, queues, m, b);
    PlaybackAnswers(run.log, run.st.mshrs[m].entries, run.pend[m]);
  }

  /** Outputs that follow the golden loop's answers answer the waiting requests. */
  lemma OutputsFlat(outs: seq<Output>, answers: seq<Completion>, log: seq<Request>, ids: seq<nat>)
    requires |ids| == |answers| <= |outs| && HistoryOk(log, ids, answers)
    requires forall i :: 0 <= i < |answers| ==> SameAnswer(outs[i], answers[i])
    ensures forall i :: 0 <= i < |ids| ==> AnswersFlat(outs[i], log, ids[i])
  {
    forall i | 0 <= i < |ids| ensures AnswersFlat(outs[i], log, ids[i]) {
      assert AnswersRequest(log, ids[i], answers[i]);
      AnsweredFlat(outs[i], answers[i], log, ids[i]);
    }
  }

  /** A fill empties its golden queue and moves no other. */
  lemma StillMirrors(run: Run, b: Block, line: Line, queues: seq<seq<RtlEntry>>)
    requires Sized(run) && FindMshr(run.st.mshrs, b) >= 0 && Mirrors(queues, run.st.mshrs)
    ensures Mirrors(queues[FindMshr(run.st.mshrs, b) := []], Next(run, Supply(b, line)).st.mshrs)
  {
  }

  /**
   * In every state that satisfies the run invariant, the hardware serves a legal fill in
   * one cycle per waiting request and one more. Each output answers its request with the
   * flat memory's value, the line handed to the inner cache is the block's flat contents
   * now, and the queues still hold what the golden model's do.
   */
  lemma HardwareFillIsFlat(run: Run, b: Block, line: Line, v: View, addr: PAddr)
    requires Inv(run) && Legal(run, Supply(b, line)) && Mirrors(v.queues, run.st.mshrs)
    requires v.line == line && GetBlock(addr) == b
    ensures var ids := run.pend[FindMshr(run.st.mshrs, b)];
      var (v', outs) := Cycles(v, addr, |ids| + 1);
      && (forall i :: 0 <= i < |ids| ==> AnswersFlat(outs[i], run.log, ids[i]))
      && outs[|ids|] == Installed(addr, FlatLine(run.log, b))
      && Mirrors(v'.queues, Next(run, Supply(b, line)).st.mshrs)
  {
    var m := FindMshr(run.st.mshrs, b);
    var es, ids := run.st.mshrs[m].entries, run.pend[m];
    MatchedQueue(run, b, line, v.queues);
    PlaybackRefines(v, addr, m, es);
    OutputsFlat(Cycles(v, addr, |ids| + 1).1, Answers(line, es), run.log, ids);
    StillMirrors(run, b, line, v.queues);
  }
}
