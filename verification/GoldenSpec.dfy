/**
 * The golden model of the non-blocking L1 data cache as a function from state to
 * state: one function per entry point of the model, written over whole values.
 * `GoldenModel` is the in-place program proved equal to it.
 */
module GoldenSpec {
  import opened L1DTypes

  datatype Option<T> = None | Some(value: T)

  datatype State = State(
    cache: map<Slot, Cell>,
    plru: seq<bv8>,
    mshrs: seq<Mshr>,
    completions: seq<Completion>,
    legacy: map<Word, Word>)

  datatype Outcome = Outcome(st: State, ret: nat)

  const EMPTY_CELL := Cell(false, false, 0, [0, 0, 0, 0, 0, 0, 0, 0])

  function AllSlots(): set<Slot> {
    set w, s | 0 <= w < WAYS && 0 <= s < SETS :: Slot(w, s)
  }

  /** `l1d_model_reset` */
  function Reset(): (st: State)
    ensures Shape(st)
    ensures forall w: nat, s: nat :: w < WAYS && s < SETS ==> st.cache[Slot(w, s)] == EMPTY_CELL
  {
    State(map slot | slot in AllSlots() :: EMPTY_CELL,
          seq(SETS, i => 0), [Mshr([], 0), Mshr([], 0)], [], map[])
  }

  /** The sizes of the arrays and the ranges of the fields. */
  ghost predicate Shape(st: State) {
    && (forall w: nat, s: nat :: w < WAYS && s < SETS <==> Slot(w, s) in st.cache)
    && (forall w: nat, s: nat :: w < WAYS && s < SETS ==> st.cache[Slot(w, s)].tag < 8192)
    && |st.plru| == SETS
    && |st.mshrs| == MSHRS
    && (forall m :: 0 <= m < MSHRS ==> st.mshrs[m].victimWay < WAYS)
  }

  // ---------------------------------------------------------------- searches

  /** The lowest way of the set, from `w` on, that holds the tag; -1 if none does. */
  function Lookup(cache: map<Slot, Cell>, set_: nat, tag: nat, w: nat := 0): (r: int)
    requires w <= WAYS && set_ < SETS
    requires forall v: nat :: v < WAYS ==> Slot(v, set_) in cache
    ensures r == -1 || w <= r < WAYS
    ensures r >= 0 ==> cache[Slot(r, set_)].valid && cache[Slot(r, set_)].tag == tag
    ensures forall v: nat :: w <= v < (if r < 0 then WAYS else r)
              ==> !(cache[Slot(v, set_)].valid && cache[Slot(v, set_)].tag == tag)
    decreases WAYS - w
  {
    if w == WAYS then -1
    else if cache[Slot(w, set_)].valid && cache[Slot(w, set_)].tag == tag then w
    else Lookup(cache, set_, tag, w + 1)
  }

  predicate Active(m: Mshr) { m.entries != [] }

  predicate Tracks(m: Mshr, b: int) { Active(m) && m.entries[0].blockAddr == b }

  /** The first MSHR, from `i` on, that tracks the block; -1 if none does. */
  function FindMshr(mshrs: seq<Mshr>, b: int, i: nat := 0): (r: int)
    requires i <= |mshrs|
    ensures r == -1 || i <= r < |mshrs|
    ensures r >= 0 ==> Tracks(mshrs[r], b)
    ensures forall j :: i <= j < (if r < 0 then |mshrs| else r) ==> !Tracks(mshrs[j], b)
    decreases |mshrs| - i
  {
    if i == |mshrs| then -1
    else if Tracks(mshrs[i], b) then i
    else FindMshr(mshrs, b, i + 1)
  }

  /** The first inactive MSHR from `i` on; -1 if all are active. */
  function FreeMshr(mshrs: seq<Mshr>, i: nat := 0): (r: int)
    requires i <= |mshrs|
    ensures r == -1 || i <= r < |mshrs|
    ensures r >= 0 ==> !Active(mshrs[r])
    ensures forall j :: i <= j < (if r < 0 then |mshrs| else r) ==> Active(mshrs[j])
    decreases |mshrs| - i
  {
    if i == |mshrs| then -1
    else if !Active(mshrs[i]) then i
    else FreeMshr(mshrs, i + 1)
  }

  /** Scans a queue from its youngest entry for a store to exactly this byte address. */
  function ForwardScan(es: seq<MshrEntry>, addr: PAddr): Option<Word> {
    if es == [] then None
    else
      var last := es[|es| - 1];
      if last.we && last.paddr == addr then Some(last.data)
      else ForwardScan(es[..|es| - 1], addr)
  }

  // ---------------------------------------------------------------- pieces

  function PlruVictim(bits: bv8): (way: nat)
    ensures way < WAYS
  {
    if bits & 1 == 0 then 0 else if bits & 2 == 0 then 1 else 2
  }

  function PlruUpdate(bits: bv8, way: nat): bv8
    requires way < WAYS
  {
    var b := bits | ((1 as bv8) << way);
    if b & 7 == 7 then (1 as bv8) << way else b
  }

  /** The flat map after the first `n` words of a line are written back to it. */
  function WriteBack(legacy: map<Word, Word>, b: Block, line: Line, n: nat): map<Word, Word>
    requires n <= WORDS
  {
    if n == 0 then legacy
    else WriteBack(legacy, b, line, n - 1)[WordAddr(b, n - 1) := line[n - 1]]
  }

  /** `mem_read` */
  function MemRead(legacy: map<Word, Word>, addr: Word): Word {
    if Align(addr) in legacy then legacy[Align(addr)] else Align(addr)
  }

  /** A line after every store of a queue is applied to it, oldest first. */
  function Play(line: Line, es: seq<MshrEntry>): Line {
    if es == [] then line
    else
      var before := Play(line, es[..|es| - 1]);
      var e := es[|es| - 1];
      if e.we then before[GetWord(e.paddr) := e.data] else before
  }

  predicate AnyStore(es: seq<MshrEntry>) { exists k :: 0 <= k < |es| && es[k].we }

  function Answer(line: Line, e: MshrEntry): Completion {
    if e.we then Completion(e.procTag, 0, true)
    else Completion(e.procTag, line[GetWord(e.paddr)], false)
  }

  /** The completions of a queue played onto a line, oldest first. */
  function Answers(line: Line, es: seq<MshrEntry>): seq<Completion> {
    if es == [] then []
    else
      var es' := es[..|es| - 1];
      Answers(line, es') + [Answer(Play(line, es'), es[|es| - 1])]
  }

  /** What playback does to the flat map. */
  function PlayLegacy(legacy: map<Word, Word>, es: seq<MshrEntry>): map<Word, Word> {
    if es == [] then legacy
    else
      var before := PlayLegacy(legacy, es[..|es| - 1]);
      var e := es[|es| - 1];
      if e.we then before[Align(e.paddr) := e.data] else before
  }

  // ---------------------------------------------------------------- requests

  /** What the model does with a request. */
  datatype Route =
    | Hit(way: nat)
    | Forward(value: Word)
    | Enqueue(m: nat)
    | Primary(m: nat)
    | Drop

  ghost function RouteOf(st: State, r: Request): (route: Route)
    requires Shape(st)
    ensures route.Hit? ==> route.way < WAYS
    ensures route.Enqueue? || route.Primary? ==> route.m < MSHRS
  {
    var way := Lookup(st.cache, GetSet(r.addr), GetTag(r.addr));
    if way >= 0 then Hit(way)
    else
      var m := FindMshr(st.mshrs, GetBlock(r.addr));
      if m >= 0 then
        var fwd := if r.we then None else ForwardScan(st.mshrs[m].entries, r.addr);
        if fwd.Some? then Forward(fwd.value)
        else if |st.mshrs[m].entries| < MSHR_QUEUE_SIZE then Enqueue(m)
        else Drop
      else
        var f := FreeMshr(st.mshrs);
        if f >= 0 then Primary(f) else Drop
  }

  /** A store is visible in the flat map at once. */
  function NoteStore(st: State, r: Request): State {
    if r.we then st.(legacy := st.legacy[Align(r.addr) := r.data]) else st
  }

  ghost function HitStep(st: State, r: Request, way: nat): State
    requires Shape(st) && way < WAYS
  {
    var set_ := GetSet(r.addr);
    var slot := Slot(way, set_);
    var cell := st.cache[slot];
    var word := GetWord(r.addr);
    st.(plru := st.plru[set_ := PlruUpdate(st.plru[set_], way)],
        cache := if r.we then st.cache[slot := cell.(dirty := true, data := cell.data[word := r.data])] else st.cache,
        completions := st.completions +
          [if r.we then Completion(r.tag, 0, true) else Completion(r.tag, cell.data[word], false)])
  }

  ghost function EnqueueStep(st: State, r: Request, m: nat): State
    requires Shape(st) && m < MSHRS
  {
    var q := st.mshrs[m];
    var e := MshrEntry(r.addr, GetBlock(r.addr), r.we, if r.we then r.data else 0, r.tag);
    st.(mshrs := st.mshrs[m := q.(entries := q.entries + [e])])
  }

  /** The slot a primary miss to this address evicts. */
  ghost function VictimSlot(st: State, addr: PAddr): (slot: Slot)
    requires Shape(st)
    ensures slot in st.cache && slot.way < WAYS && slot.set_ == GetSet(addr) < SETS
  {
    Slot(PlruVictim(st.plru[GetSet(addr)]), GetSet(addr))
  }

  ghost function PrimaryStep(st: State, r: Request, m: nat): State
    requires Shape(st) && m < MSHRS
  {
    var slot := VictimSlot(st, r.addr);
    var cell := st.cache[slot];
    var e := MshrEntry(r.addr, GetBlock(r.addr), r.we, r.data, r.tag);
    st.(legacy := if cell.valid && cell.dirty
                  then WriteBack(st.legacy, BlockOf(cell.tag, slot.set_), cell.data, WORDS) else st.legacy,
        cache := st.cache[slot := cell.(valid := false)],
        mshrs := st.mshrs[m := Mshr(st.mshrs[m].entries + [e], slot.way)])
  }

  /** What a request does once its store, if it is one, is noted in the flat map. */
  ghost function Served(st: State, r: Request): (o: Outcome)
    requires Shape(st)
    ensures Shape(o.st)
  {
    match RouteOf(st, r)
    case Hit(way) => Outcome(HitStep(st, r, way), 1)
    case Forward(v) => Outcome(st.(completions := st.completions + [Completion(r.tag, v, false)]), 1)
    case Enqueue(m) => Outcome(EnqueueStep(st, r, m), 0)
    case Primary(m) => Outcome(PrimaryStep(st, r, m), 0)
    case Drop => Outcome(st, 0)
  }

  /** `l1d_model_request` */
  ghost function RequestStep(st: State, r: Request): (o: Outcome)
    requires Shape(st)
    ensures Shape(o.st)
  {
    Served(NoteStore(st, r), r)
  }

  // ---------------------------------------------------------------- fills

  ghost function Install(st: State, way: nat, b: nat, line: Line, dirty: bool): State
    requires Shape(st) && way < WAYS
  {
    var addr := b * 64 % 0x1_0000_0000;
    var set_ := GetSet(addr);
    st.(cache := st.cache[Slot(way, set_) := Cell(true, dirty, GetTag(addr), line)],
        plru := st.plru[set_ := PlruUpdate(st.plru[set_], way)])
  }

  /** A fill that matches MSHR `m`: install, then play the queue back. */
  ghost function FillMatched(st: State, m: nat, b: nat, line: Line): State
    requires Shape(st) && m < MSHRS
  {
    var q := st.mshrs[m];
    Install(st, q.victimWay, b, Play(line, q.entries), AnyStore(q.entries))
      .(mshrs := st.mshrs[m := q.(entries := [])],
        completions := st.completions + Answers(line, q.entries),
        legacy := PlayLegacy(st.legacy, q.entries))
  }

  /** `l1d_model_fill` */
  ghost function FillStep(st: State, b: nat, line: Line): (o: Outcome)
    requires Shape(st)
    ensures Shape(o.st)
  {
    var m := FindMshr(st.mshrs, b);
    if m >= 0 then Outcome(FillMatched(st, m, b, line), |st.mshrs[m].entries|)
    else Outcome(Install(st, PlruVictim(st.plru[GetSet(b * 64 % 0x1_0000_0000)]), b, line, false), 0)
  }
}
