/**
 * MSHR playback in the hardware: state CLEAR_MSHR of the L1D controller, one queue
 * entry per cycle, patching the fill line held in a register; and the proof that it
 * does what the golden model's playback loop does.
 */
module RtlPlayback {
  import opened L1DTypes
  import opened GoldenSpec
  import opened Playback
  import opened MshrRing

  /** What leaves the controller in a cycle: an answer to the LSU, or the finished line
      on its way to the inner cache. */
  datatype Output =
    | Served(tag: nat, value: Word, writeComplete: bool)
    | Installed(addr: PAddr, line: Line)

  /** The registers of the controller and the contents of its queues. */
  datatype View = View(queues: seq<seq<RtlEntry>>, line: Line, valueOut: Word)

  predicate Matches(q: seq<RtlEntry>, b: Block) { q != [] && q[0].noOffsetAddr == b }

  /** The first non-empty queue, from `i` on, whose front is for the block; -1 if none. */
  function FindQueue(queues: seq<seq<RtlEntry>>, b: Block, i: nat := 0): (r: int)
    requires i <= |queues|
    ensures r == -1 || i <= r < |queues|
    ensures r >= 0 ==> Matches(queues[r], b)
    ensures forall j :: i <= j < (if r < 0 then |queues| else r) ==> !Matches(queues[j], b)
    decreases |queues| - i
  {
    if i == |queues| then -1
    else if Matches(queues[i], b) then i
    else FindQueue(queues, b, i + 1)
  }

  /** The front entry of queue `pos` is popped; a store patches the line register, a
      load is answered from it. */
  function ServeFront(v: View, pos: nat): (View, Output)
    requires pos < |v.queues| && v.queues[pos] != []
  {
    var e := v.queues[pos][0];
    var word := GetWord(e.paddr);
    var queues := v.queues[pos := v.queues[pos][1..]];
    if e.we then (View(queues, v.line[word := e.data], v.valueOut), Served(e.tag, v.valueOut, true))
    else (View(queues, v.line, v.line[word]), Served(e.tag, v.line[word], false))
  }

  /** One cycle in CLEAR_MSHR. */
  function Cycle(v: View, addr: PAddr): (View, Output) {
    var pos := FindQueue(v.queues, GetBlock(addr));
    if pos >= 0 && v.queues[pos][0].valid then ServeFront(v, pos)
    else (v, Installed(addr, v.line))
  }

  class PlaybackUnit {
    const queues: seq<MshrQueue>
    const lcAddrIn: PAddr
    var lcValueIn: Line
    var lsuValueOut: Word
    /** CLEAR_MSHR if set, IDLE if not. */
    var clearing: bool

    ghost predicate Valid()
      reads this, queues
    {
      && (forall i :: 0 <= i < |queues| ==> queues[i].Valid())
      && (forall i, j :: 0 <= i < j < |queues| ==> queues[i] != queues[j] && queues[i].queue != queues[j].queue)
    }

    ghost function Now(): View
      requires Valid()
      reads this, queues, set q | q in queues :: q.queue
    {
      View(seq(|queues|, i requires 0 <= i < |queues| && Valid() reads this, queues, set q | q in queues :: q.queue
                           => queues[i].Contents()), lcValueIn, lsuValueOut)
    }

    constructor (queues: seq<MshrQueue>, addr: PAddr, line: Line, valueOut: Word)
      requires forall i :: 0 <= i < |queues| ==> queues[i].Valid()
      requires forall i, j :: 0 <= i < j < |queues| ==> queues[i] != queues[j] && queues[i].queue != queues[j].queue
      ensures Valid() && this.queues == queues && lcAddrIn == addr && clearing
      ensures lcValueIn == line && lsuValueOut == valueOut
    {
      this.queues, lcAddrIn := queues, addr;
      lcValueIn, lsuValueOut, clearing := line, valueOut, true;
    }

    /** The combinational search over the queues' fronts. */
    method Search() returns (found: bool, pos: nat)
      requires Valid()
      ensures var r := FindQueue(Now().queues, GetBlock(lcAddrIn));
        found == (r >= 0) && (found ==> pos == r)
    {
      found, pos := false, 0;
      var b := GetBlock(lcAddrIn);
      ghost var qs := Now().queues;
      var i := 0;
      while i < |queues|
        invariant 0 <= i <= |queues|
        invariant found ==> pos < i && pos == FindQueue(qs, b)
        invariant !found ==> FindQueue(qs, b, i) == FindQueue(qs, b)
      {
        assert qs[i] == queues[i].Contents();
        var empty := queues[i].Empty();
        var front := queues[i].Front();
        if !found && !empty && front.noOffsetAddr == b {
          found, pos := true, i;
        }
        i := i + 1;
      }
    }

    /** Pops queue `pos`; every other queue keeps its contents. */
    method Dequeue(pos: nat)
      requires Valid() && pos < |queues| && queues[pos].Contents() != []
      modifies queues[pos], queues[pos].queue
      ensures Valid() && Now() == old(Now()).(queues := old(Now()).queues[pos := old(Now()).queues[pos][1..]])
    {
      var e := queues[pos].Front();
      queues[pos].Clock(Command(false, true, e));
      forall i | 0 <= i < |queues| && i != pos
        ensures queues[i].Contents() == old(queues[i].Contents())
      {
        assert queues[i] != queues[pos] && queues[i].queue != queues[pos].queue;
      }
    }

    /** Serves the front entry of queue `pos`. */
    method Serve(pos: nat) returns (out: Output)
      requires Valid() && pos < |queues| && Now().queues[pos] != []
      modifies this`lcValueIn, this`lsuValueOut, queues[pos], queues[pos].queue
      ensures Valid() && (Now(), out) == ServeFront(old(Now()), pos)
    {
      ghost var v := Now();
      var e := queues[pos].Front();
      Dequeue(pos);
      ghost var rest := Now().queues;
      var word := GetWord(e.paddr);
      if e.we {
        out := Served(e.tag, lsuValueOut, true);
        lcValueIn := lcValueIn[word := e.data];
      } else {
        lsuValueOut := lcValueIn[word];
        out := Served(e.tag, lsuValueOut, false);
      }
      assert Now().queues == rest;
    }

    /** Whether there is an entry to serve, and in which queue. */
    method FindEntry() returns (ready: bool, pos: nat)
      requires Valid()
      ensures var r := FindQueue(Now().queues, GetBlock(lcAddrIn));
        ready == (r >= 0 && Now().queues[r][0].valid) && (ready ==> pos == r)
    {
      ready, pos := Search();
      if ready {
        assert Now().queues[pos] == queues[pos].Contents();
        var e := queues[pos].Front();
        ready := e.valid;
      }
    }

    /** One clock cycle in CLEAR_MSHR. */
    method Tick() returns (out: Output)
      requires Valid() && clearing
      modifies this, queues, set q | q in queues :: q.queue
      ensures Valid() && (Now(), out) == Cycle(old(Now()), lcAddrIn)
      ensures clearing == out.Served?
    {
      ghost var v := Now();
      var ready, pos := FindEntry();
      if ready {
        out := Serve(pos);
      } else {
        clearing := false;
        out := Installed(lcAddrIn, lcValueIn);
        assert Now().queues == v.queues;
      }
    }

    /** Cycles in CLEAR_MSHR, at most `n` of them. */
    method PlayBack(n: nat) returns (outs: seq<Output>)
      requires Valid() && clearing
      modifies this, queues, set q | q in queues :: q.queue
      ensures Valid() && |outs| <= n && (Now(), outs) == Cycles(old(Now()), lcAddrIn, |outs|)
      ensures |outs| < n ==> !clearing
    {
      outs := [];
      while |outs| < n && clearing
        invariant Valid() && |outs| <= n && (Now(), outs) == Cycles(old(Now()), lcAddrIn, |outs|)
      {
        var out := Tick();
        outs := outs + [out];
      }
    }
  }

  // ------------------------------------------------------------- refinement

  predicate SameEntry(x: RtlEntry, e: MshrEntry) {
    && x.valid && x.paddr == e.paddr && x.noOffsetAddr == e.blockAddr
    && x.we == e.we && x.tag == e.procTag && (x.we ==> x.data == e.data)
  }

  /** A hardware queue and a golden queue hold the same requests. */
  ghost predicate SameQueue(q: seq<RtlEntry>, es: seq<MshrEntry>) {
    |q| == |es| && forall k :: 0 <= k < |q| ==> SameEntry(q[k], es[k])
  }

  /** Same tag, same kind, and for a load the same value. */
  predicate SameAnswer(out: Output, c: Completion) {
    out.Served? && out.tag == c.tag && out.writeComplete == c.isWrite && (!c.isWrite ==> out.value == c.data)
  }

  /** The machine after `n` cycles, with its outputs. */
  function Cycles(v: View, addr: PAddr, n: nat): (r: (View, seq<Output>))
    ensures |r.1| == n
  {
    if n == 0 then (v, [])
    else
      var (v', outs) := Cycles(v, addr, n - 1);
      var (v'', out) := Cycle(v', addr);
      (v'', outs + [out])
  }

  /** Queue `m` is the only one for this block, and all it holds is for the block. */
  ghost predicate OnlyQueue(queues: seq<seq<RtlEntry>>, m: nat, es: seq<MshrEntry>, b: Block) {
    && m < |queues| && SameQueue(queues[m], es)
    && (forall k :: 0 <= k < |es| ==> es[k].blockAddr == b)
    && forall j :: 0 <= j < |queues| && j != m ==> !Matches(queues[j], b)
  }

  /** Serving one entry is one turn of the golden loop. */
  lemma ServeOne(v: View, addr: PAddr, m: nat, e: MshrEntry)
    requires m < |v.queues| && v.queues[m] != [] && SameEntry(v.queues[m][0], e)
    requires FindQueue(v.queues, GetBlock(addr)) == m
    ensures GetWord(e.paddr) < 8
    ensures var (v', out) := Cycle(v, addr);
      && v'.queues == v.queues[m := v.queues[m][1..]]
      && v'.line == (if e.we then v.line[GetWord(e.paddr) := e.data] else v.line)
      && SameAnswer(out, Answer(v.line, e))
  {
  }

  /** The machine, with these outputs so far, has served `k` entries of queue `m` as the
      golden loop does, and its line register holds what the loop's cache line holds. */
  ghost predicate Agrees(v0: View, v: View, outs: seq<Output>, m: nat, es: seq<MshrEntry>, k: nat) {
    && m < |v0.queues| && k <= |es| == |v0.queues[m]| && |outs| == k
    && v.queues == v0.queues[m := v0.queues[m][k..]]
    && v.line == Play(v0.line, es[..k])
    && |Answers(v0.line, es)| == |es|
    && forall i :: 0 <= i < k ==> SameAnswer(outs[i], Answers(v0.line, es)[i])
  }

  lemma FrontFound(queues: seq<seq<RtlEntry>>, now: seq<seq<RtlEntry>>, addr: PAddr, m: nat, es: seq<MshrEntry>, k: nat)
    requires OnlyQueue(queues, m, es, GetBlock(addr)) && k < |es| && now == queues[m := queues[m][k..]]
    ensures FindQueue(now, GetBlock(addr)) == m && SameEntry(now[m][0], es[k])
  {
    assert SameEntry(queues[m][k], es[k]) && Matches(now[m], GetBlock(addr));
  }

  /** One entry more, served as the golden loop serves it. */
  lemma AgreesNext(v0: View, v: View, v': View, outs: seq<Output>, out: Output, m: nat, es: seq<MshrEntry>, k: nat)
    requires k < |es| && Agrees(v0, v, outs, m, es, k)
    requires v'.queues == v.queues[m := v0.queues[m][k + 1..]] && GetWord(es[k].paddr) < 8
    requires v'.line == if es[k].we then v.line[GetWord(es[k].paddr) := es[k].data] else v.line
    requires SameAnswer(out, Answer(v.line, es[k]))
    ensures Agrees(v0, v', outs + [out], m, es, k + 1)
  {
    AnswerAt(v0.line, es, k);
    PlayOneMore(v0.line, es, k);
    assert v'.queues == v0.queues[m := v0.queues[m][k + 1..]];
  }

  lemma AnswerAt(line: Line, es: seq<MshrEntry>, k: nat)
    requires k < |es|
    ensures |Answers(line, es)| == |es| && Answers(line, es)[k] == Answer(Play(line, es[..k]), es[k])
  {
    AnswersAt(line, es);
  }

  lemma PlayOneMore(line: Line, es: seq<MshrEntry>, k: nat)
    requires k < |es| && GetWord(es[k].paddr) < 8
    ensures Play(line, es[..k + 1]) ==
      if es[k].we then Play(line, es[..k])[GetWord(es[k].paddr) := es[k].data] else Play(line, es[..k])
  {
    assert es[..k + 1] == es[..k] + [es[k]];
    PlaySnoc(line, es[..k], es[k]);
  }

  lemma OneFewer(q: seq<RtlEntry>, k: nat)
    requires 0 < k <= |q|
    ensures q[k - 1..][1..] == q[k..]
  {
  }

  /** After k cycles the machine has served the first k entries. */
  lemma {:induction false} PlaybackPrefix(v: View, addr: PAddr, m: nat, es: seq<MshrEntry>, k: nat)
    requires OnlyQueue(v.queues, m, es, GetBlock(addr)) && k <= |es|
    ensures var (v', outs) := Cycles(v, addr, k); Agrees(v, v', outs, m, es, k)
  {
    if k == 0 {
      AnswersAt(v.line, es);
    } else {
      PlaybackPrefix(v, addr, m, es, k - 1);
      var (v', outs) := Cycles(v, addr, k - 1);
      FrontFound(v.queues, v'.queues, addr, m, es, k - 1);
      ServeOne(v', addr, m, es[k - 1]);
      OneFewer(v.queues[m], k);
      var (v'', out) := Cycle(v', addr);
      AgreesNext(v, v', v'', outs, out, m, es, k - 1);
    }
  }

  /**
   * Playback in hardware is playback in the golden model. For one queue that matches
   * the fill, the machine serves one entry per cycle, with the golden loop's tags,
   * kinds and load values in its order; the cycle after the last hands the inner cache
   * the line the golden loop leaves in the cache; and no other queue moves.
   */
  lemma PlaybackRefines(v: View, addr: PAddr, m: nat, es: seq<MshrEntry>)
    requires OnlyQueue(v.queues, m, es, GetBlock(addr))
    ensures var golden := Answers(v.line, es);
      var (v', outs) := Cycles(v, addr, |es| + 1);
      && |golden| == |es|
      && (forall i :: 0 <= i < |es| ==> SameAnswer(outs[i], golden[i]))
      && outs[|es|] == Installed(addr, Play(v.line, es))
      && v'.queues == v.queues[m := []]
  {
    PlaybackPrefix(v, addr, m, es, |es|);
    assert es[..|es|] == es;
    var (v', outs) := Cycles(v, addr, |es|);
    assert v.queues[m][|es|..] == [] && v'.queues[m] == [];
    assert FindQueue(v'.queues, GetBlock(addr)) == -1;
  }

  /** With these answers the value output went from `x0` to `x`: it shows the last answer's
      value, and a store is answered with the value shown before it. */
  ghost predicate ValueHeld(x0: Word, x: Word, outs: seq<Output>) {
    && (forall i: nat :: i < |outs| ==> outs[i].Served?)
    && (forall i: nat :: i < |outs| ==> StoreShows(x0, outs, i))
    && x == (if outs == [] then x0 else outs[|outs| - 1].value)
  }

  ghost predicate StoreShows(x0: Word, outs: seq<Output>, i: nat)
    requires i < |outs| && forall j :: 0 <= j <= i ==> outs[j].Served?
  {
    outs[i].writeComplete ==> outs[i].value == if i == 0 then x0 else outs[i - 1].value
  }

  lemma ValueHeldNext(x0: Word, x: Word, outs: seq<Output>, out: Output)
    requires ValueHeld(x0, x, outs) && out.Served? && (out.writeComplete ==> out.value == x)
    ensures ValueHeld(x0, out.value, outs + [out])
  {
    var outs' := outs + [out];
    forall i: nat | i < |outs'| ensures outs'[i].Served? {
    }
    forall i: nat | i < |outs'| ensures StoreShows(x0, outs', i) {
      if i < |outs| {
        assert StoreShows(x0, outs, i);
      }
    }
  }

  lemma {:induction false} ValueOutHolds(v: View, addr: PAddr, n: nat)
    requires forall out :: out in Cycles(v, addr, n).1 ==> out.Served?
    ensures ValueHeld(v.valueOut, Cycles(v, addr, n).0.valueOut, Cycles(v, addr, n).1)
  {
    if n == 0 {
    } else {
      var (v1, outs1) := Cycles(v, addr, n - 1);
      var (v2, out) := Cycle(v1, addr);
      assert out in Cycles(v, addr, n).1;
      forall o | o in outs1 ensures o.Served? {
        assert o in Cycles(v, addr, n).1;
      }
      ValueOutHolds(v, addr, n - 1);
      OneCycleValue(v1, addr);
      ValueHeldNext(v.valueOut, v1.valueOut, outs1, out);
    }
  }

  lemma OneCycleValue(v: View, addr: PAddr)
    requires Cycle(v, addr).1.Served?
    ensures var (v', out) := Cycle(v, addr);
      v'.valueOut == out.value && (out.writeComplete ==> out.value == v.valueOut)
  {
  }

  /** An entry at the front that is not valid ends playback: the line is handed over as it
      stands, and nothing is popped. */
  lemma StopsAtInvalid(v: View, addr: PAddr, m: nat)
    requires m < |v.queues| && Matches(v.queues[m], GetBlock(addr)) && !v.queues[m][0].valid
    requires forall j :: 0 <= j < m ==> !Matches(v.queues[j], GetBlock(addr))
    ensures Cycle(v, addr) == (v, Installed(addr, v.line))
  {
    assert FindQueue(v.queues, GetBlock(addr)) == m;
  }

  /** In golden states the matching queue is unique, so the refinement applies to every
      fill that matches an active MSHR. */
  lemma GoldenQueueIsOnly(mshrs: seq<Mshr>, queues: seq<seq<RtlEntry>>, m: nat, b: Block)
    requires |queues| == |mshrs| && m < |mshrs| && Tracks(mshrs[m], b) && OneBlock(mshrs[m].entries, b)
    requires forall i :: 0 <= i < |mshrs| ==> SameQueue(queues[i], mshrs[i].entries)
    requires forall i :: 0 <= i < |mshrs| && i != m ==> !Tracks(mshrs[i], b)
    ensures OnlyQueue(queues, m, mshrs[m].entries, b)
  {
    forall j | 0 <= j < |queues| && j != m ensures !Matches(queues[j], b) {
      assert SameQueue(queues[j], mshrs[j].entries);
    }
  }
}
