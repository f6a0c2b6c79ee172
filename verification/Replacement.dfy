/** Which way a miss replaces, in terms of the hits and fills that went before. */
module Replacement {
  import opened L1DTypes
  import opened GoldenSpec
  import opened GoldenRuns
  import opened Linearisation

  /**
   * The ways that count as used, after hits on and fills into these ways in this order:
   * those used since all three last had been, the one that made the three complete among
   * them.
   */
  function Used(ways: seq<nat>): (used: set<nat>)
    requires forall k :: 0 <= k < |ways| ==> ways[k] < 3
    ensures used <= {0, 1, 2} && used != {0, 1, 2}
  {
    if ways == [] then {}
    else
      var used, last := Used(ways[..|ways| - 1]) + {ways[|ways| - 1]}, ways[|ways| - 1];
      if used == {0, 1, 2} then
        assert 0 in {0, 1, 2} && 1 in {0, 1, 2};
        {last}
      else used
  }

  /** The lowest way that does not count as used. */
  ghost predicate LowestUnused(ways: seq<nat>, v: nat)
    requires forall k :: 0 <= k < |ways| ==> ways[k] < 3
  {
    v < 3 && v !in Used(ways) && forall u: nat :: u < v ==> u in Used(ways)
  }

  /** The way of set `s` that an event hits or fills. */
  ghost function WayUsed(run: Run, ev: Event, s: nat): (way: Option<nat>)
    requires Sized(run)
    ensures way.Some? ==> way.value < 3
  {
    match ev
    case Ask(r) =>
      var w := Lookup(run.st.cache, GetSet(r.addr), GetTag(r.addr));
      if GetSet(r.addr) == s && w >= 0 then Some(w) else None
    case Supply(b, line) =>
      var w := Lookup(Next(run, ev).st.cache, SetOf(b), TagOf(b));
      if SetOf(b) == s && w >= 0 then Some(w) else None
    case Pop => None
  }

  /** The ways of set `s` hit or filled in a run, in order. */
  ghost function WaysUsed(evs: seq<Event>, s: nat): (ways: seq<nat>)
    ensures forall k :: 0 <= k < |ways| ==> ways[k] < 3
  {
    if evs == [] then []
    else
      var before, ev := evs[..|evs| - 1], evs[|evs| - 1];
      match WayUsed(Exec(before), ev, s)
      case Some(w) => WaysUsed(before, s) + [w]
      case None => WaysUsed(before, s)
  }

  // ------------------------------------------------------------- the bits of a set

  function BitsOf(used: set<nat>): bv8 {
    (if 0 in used then 1 else 0) | (if 1 in used then 2 else 0) | (if 2 in used then 4 else 0)
  }

  function UseOne(used: set<nat>, w: nat): set<nat> {
    if used + {w} == {0, 1, 2} then {w} else used + {w}
  }

  lemma BitsAfterUse(a: bool, b: bool, c: bool, w: nat)
    requires w < 3 && !(a && b && c)
    ensures var bits: bv8 := (if a then 1 else 0) | (if b then 2 else 0) | (if c then 4 else 0);
      var a', b', c' := a || w == 0, b || w == 1, c || w == 2;
      PlruUpdate(bits, w) ==
      if a' && b' && c' then (if w == 0 then 1 else if w == 1 then 2 else 4)
      else (if a' then 1 else 0) | (if b' then 2 else 0) | (if c' then 4 else 0)
  {
    if w == 0 {
    } else if w == 1 {
    } else {
      assert w == 2;
    }
  }

  lemma AllThree(used: set<nat>)
    requires used <= {0, 1, 2}
    ensures used == {0, 1, 2} <==> 0 in used && 1 in used && 2 in used
  {
  }

  lemma UpdateIsUse(used: set<nat>, w: nat)
    requires used <= {0, 1, 2} && used != {0, 1, 2} && w < 3
    ensures PlruUpdate(BitsOf(used), w) == BitsOf(UseOne(used, w))
  {
    AllThree(used);
    AllThree(used + {w});
    BitsAfterUse(0 in used, 1 in used, 2 in used, w);
  }

  lemma VictimIsUnused(used: set<nat>)
    requires used <= {0, 1, 2} && used != {0, 1, 2}
    ensures var v := PlruVictim(BitsOf(used)); v !in used && forall u: nat :: u < v ==> u in used
  {
    AllThree(used);
    VictimOfBits(0 in used, 1 in used, 2 in used);
  }

  lemma VictimOfBits(a: bool, b: bool, c: bool)
    requires !(a && b && c)
    ensures var bits: bv8 := (if a then 1 else 0) | (if b then 2 else 0) | (if c then 4 else 0);
      PlruVictim(bits) == if !a then 0 else if !b then 1 else 2
  {
  }

  lemma UsedGrows(ways: seq<nat>, w: nat)
    requires w < 3 && forall k :: 0 <= k < |ways| ==> ways[k] < 3
    ensures Used(ways + [w]) == UseOne(Used(ways), w)
  {
    assert (ways + [w])[..|ways|] == ways;
  }

  // ------------------------------------------------------------- events

  /** A request that does not hit changes no set's bits; one that does, its own set's. */
  lemma AskBits(run: Run, r: Request, s: nat)
    requires Inv(run) && Aligned(r.addr) && s < SETS
    ensures Next(run, Ask(r)).st.plru[s] == match WayUsed(run, Ask(r), s)
      case Some(w) => PlruUpdate(run.st.plru[s], w)
      case None => run.st.plru[s]
  {
    NextForms(run, r);
    NotedRoute(run.st, r);
  }

  /** With one valid way per tag the search finds the way that holds it. */
  lemma OnlyHolder(st: State, way: nat, s: nat, tag: nat)
    requires Shape(st) && Structure(st) && way < WAYS && s < SETS
    requires st.cache[Slot(way, s)].valid && st.cache[Slot(way, s)].tag == tag
    ensures Lookup(st.cache, s, tag) == way
  {
  }

  /** After a matched fill the block is in the way its MSHR chose, and in no other. */
  lemma FillWay(run: Run, b: Block, line: Line)
    requires Inv(run) && Legal(run, Supply(b, line))
    ensures var m := FindMshr(run.st.mshrs, b);
      Lookup(Next(run, Supply(b, line)).st.cache, SetOf(b), TagOf(b)) == run.st.mshrs[m].victimWay
  {
    var way := run.st.mshrs[FindMshr(run.st.mshrs, b)].victimWay;
    FilledSlot(run.st, FindMshr(run.st.mshrs, b), b, line);
    FillKeeps(run, b, line);
    OnlyHolder(Next(run, Supply(b, line)).st, way, SetOf(b), TagOf(b));
  }

  lemma FilledSlot(st: State, m: int, b: Block, line: Line)
    requires Shape(st) && Structure(st) && 0 <= m == FindMshr(st.mshrs, b)
    ensures var cell := FillStep(st, b, line).st.cache[Slot(st.mshrs[m].victimWay, SetOf(b))];
      cell.valid && cell.tag == TagOf(b)
  {
    FillPlace(st, m, b, line);
  }

  lemma SupplyBits(run: Run, b: Block, line: Line, s: nat)
    requires Inv(run) && Legal(run, Supply(b, line)) && s < SETS
    ensures Next(run, Supply(b, line)).st.plru[s] == match WayUsed(run, Supply(b, line), s)
      case Some(w) => PlruUpdate(run.st.plru[s], w)
      case None => run.st.plru[s]
  {
    FillWay(run, b, line);
    FillFields(b);
  }

  lemma EventBits(run: Run, ev: Event, s: nat)
    requires Inv(run) && Legal(run, ev) && s < SETS
    ensures Next(run, ev).st.plru[s] == match WayUsed(run, ev, s)
      case Some(w) => PlruUpdate(run.st.plru[s], w)
      case None => run.st.plru[s]
  {
    match ev
    case Ask(r) => AskBits(run, r, s);
    case Supply(b, line) => SupplyBits(run, b, line, s);
    case Pop =>
  }

  lemma {:induction false} BitsFollowUse(evs: seq<Event>, s: nat)
    requires LegalRun(evs) && s < SETS
    ensures Exec(evs).st.plru[s] == BitsOf(Used(WaysUsed(evs, s)))
  {
    if evs == [] {
    } else {
      var before, ev := evs[..|evs| - 1], evs[|evs| - 1];
      BitsFollowUse(before, s);
      Linearised(before);
      EventBits(Exec(before), ev, s);
      match WayUsed(Exec(before), ev, s)
      case Some(w) => {
        UpdateIsUse(Used(WaysUsed(before, s)), w);
        UsedGrows(WaysUsed(before, s), w);
      }
      case None =>
    }
  }

  /** In every legal run the next victim of a set is its lowest way not hit or filled since
      all three last had been. */
  lemma VictimIsLowestUnused(evs: seq<Event>, s: nat)
    requires LegalRun(evs) && s < SETS
    ensures LowestUnused(WaysUsed(evs, s), PlruVictim(Exec(evs).st.plru[s]))
  {
    BitsFollowUse(evs, s);
    VictimIsUnused(Used(WaysUsed(evs, s)));
  }

  /**
   * Replacement. In every legal run a request for a block neither cached nor waited for
   * empties the lowest way of its set not hit or filled since all three last had been, and
   * the MSHR that now waits for the block will fill that way. No other way is touched.
   */
  lemma MissReplacesLowestUnused(evs: seq<Event>, r: Request)
    requires LegalRun(evs) && Legal(Exec(evs), Ask(r))
    requires !Cached(Exec(evs).st, GetBlock(r.addr)) && !Tracked(Exec(evs).st, GetBlock(r.addr))
    ensures var st, st' := Exec(evs).st, Next(Exec(evs), Ask(r)).st;
      var m := FindMshr(st'.mshrs, GetBlock(r.addr));
      && m >= 0
      && LowestUnused(WaysUsed(evs, GetSet(r.addr)), st'.mshrs[m].victimWay)
      && !st'.cache[Slot(st'.mshrs[m].victimWay, GetSet(r.addr))].valid
      && forall w: nat, s: nat :: w < WAYS && s < SETS && !(w == st'.mshrs[m].victimWay && s == GetSet(r.addr)) ==>
           st'.cache[Slot(w, s)] == st.cache[Slot(w, s)]
  {
    Linearised(evs);
    VictimIsLowestUnused(evs, GetSet(r.addr));
    MissedPrimary(Exec(evs), r);
  }

  lemma MissedPrimary(run: Run, r: Request)
    requires Inv(run) && Aligned(r.addr) && HasRoom(run.st, r)
    requires !Cached(run.st, GetBlock(r.addr)) && !Tracked(run.st, GetBlock(r.addr))
    ensures var st, st' := run.st, Next(run, Ask(r)).st;
      var m := FindMshr(st'.mshrs, GetBlock(r.addr));
      var way := PlruVictim(st.plru[GetSet(r.addr)]);
      && m >= 0 && st'.mshrs[m].victimWay == way
      && !st'.cache[Slot(way, GetSet(r.addr))].valid
      && forall w: nat, s: nat :: w < WAYS && s < SETS && !(w == way && s == GetSet(r.addr)) ==>
           st'.cache[Slot(w, s)] == st.cache[Slot(w, s)]
  {
    LookupIsCached(run.st, r.addr);
    FoundIsTracked(run.st, GetBlock(r.addr));
    RoomIsRoute(run, r);
    var f := RouteOf(run.st, r).m;
    NotedRoute(run.st, r);
    NextForms(run, r);
    assert Tracks(Next(run, Ask(r)).st.mshrs[f], GetBlock(r.addr));
  }

  /** The way just hit or filled is not the next victim; a request that does not hit leaves
      every set's next victim as it was. */
  lemma UsedIsNotNext(run: Run, ev: Event, s: nat)
    requires Inv(run) && Legal(run, ev) && s < SETS
    ensures match WayUsed(run, ev, s)
      case Some(w) => PlruVictim(Next(run, ev).st.plru[s]) != w
      case None => PlruVictim(Next(run, ev).st.plru[s]) == PlruVictim(run.st.plru[s])
  {
    EventBits(run, ev, s);
    if WayUsed(run, ev, s).Some? {
      UpdatedIsNotVictim(run.st.plru[s], WayUsed(run, ev, s).value);
    }
  }

  lemma UpdatedIsNotVictim(bits: bv8, w: nat)
    requires w < 3
    ensures PlruVictim(PlruUpdate(bits, w)) != w
  {
    if w == 0 {
    } else if w == 1 {
    } else {
      assert w == 2;
    }
  }

  /**
   * A fill that no MSHR waits for uses the way it takes, like any other: it goes to the
   * lowest way of its set not used since all three last had been, as a clean line, and then
   * counts as its use. Nothing else changes.
   */
  lemma UnmatchedUsesVictim(st: State, b: Block, line: Line, ways: seq<nat>)
    requires Shape(st) && FindMshr(st.mshrs, b) < 0
    requires forall k :: 0 <= k < |ways| ==> ways[k] < 3
    requires st.plru[SetOf(b)] == BitsOf(Used(ways))
    ensures var o, v := FillStep(st, b, line), PlruVictim(st.plru[SetOf(b)]);
      && LowestUnused(ways, v) && LowestUnused(ways + [v], PlruVictim(o.st.plru[SetOf(b)]))
      && o.ret == 0 && o.st.cache == st.cache[Slot(v, SetOf(b)) := Cell(true, false, TagOf(b), line)]
      && (forall s :: 0 <= s < SETS && s != SetOf(b) ==> o.st.plru[s] == st.plru[s])
      && o.st.mshrs == st.mshrs && o.st.completions == st.completions && o.st.legacy == st.legacy
  {
    var v := PlruVictim(st.plru[SetOf(b)]);
    FillFields(b);
    VictimIsUnused(Used(ways));
    ThenNextUnused(ways, v);
  }

  lemma ThenNextUnused(ways: seq<nat>, v: nat)
    requires v < 3 && forall k :: 0 <= k < |ways| ==> ways[k] < 3
    ensures LowestUnused(ways + [v], PlruVictim(PlruUpdate(BitsOf(Used(ways)), v)))
  {
    UpdateIsUse(Used(ways), v);
    UsedGrows(ways, v);
    VictimIsUnused(Used(ways + [v]));
  }
}
