/** LRU counters of the cache simulators, for any associativity, against true recency. */
module Lru {

  /** Replacement counters for a number of sets, one per way. */
  class LruCounters {
    const associativity: nat
    const counters: array2<nat>

    ghost predicate Valid() {
      counters.Length1 == associativity > 0
    }

    ghost function Row(s: nat): (r: seq<nat>)
      requires Valid() && s < counters.Length0
      reads counters
      ensures |r| == associativity
    {
      seq(associativity, i requires 0 <= i < associativity && Valid() && s < counters.Length0 reads counters => counters[s, i])
    }

    constructor (sets: nat, a: nat)
      requires a > 0
      ensures Valid() && associativity == a && counters.Length0 == sets && fresh(counters)
      ensures forall s: nat :: s < sets ==> Row(s) == Zeros(a)
    {
      associativity := a;
      counters := new nat[sets, a]((s, i) => 0);
    }

    /** `findVictim` */
    method FindVictim(s: nat) returns (victim: nat)
      requires Valid() && s < counters.Length0
      ensures IsVictim(Row(s), victim)
    {
      victim := 0;
      var min := counters[s, 0];
      var i := 1;
      while i < associativity
        invariant 1 <= i <= associativity && victim < i && min == counters[s, victim]
        invariant forall j :: 0 <= j < i ==> min <= counters[s, j]
        invariant forall j :: 0 <= j < victim ==> min < counters[s, j]
      {
        if counters[s, i] < min {
          min, victim := counters[s, i], i;
        }
        i := i + 1;
      }
    }

    /** `updateLRU` */
    method UpdateLru(s: nat, way: nat)
      requires Valid() && s < counters.Length0 && way < associativity
      modifies counters
      ensures Row(s) == Touch(old(Row(s)), way)
      ensures forall t: nat :: t < counters.Length0 && t != s ==> Row(t) == old(Row(t))
    {
      ghost var row := Row(s);
      var i := 0;
      while i < associativity
        invariant 0 <= i <= associativity
        invariant forall j :: 0 <= j < associativity ==>
          counters[s, j] == if j < i && row[j] > row[way] then row[j] - 1 else row[j]
        invariant forall t, j :: 0 <= t < counters.Length0 && 0 <= j < associativity && t != s ==>
          counters[t, j] == old(counters[t, j])
      {
        if counters[s, i] > counters[s, way] {
          counters[s, i] := counters[s, i] - 1;
        }
        i := i + 1;
      }
      counters[s, way] := associativity - 1;
    }

    /** A set's counters after a sequence of accesses. */
    method Replay(s: nat, accesses: seq<nat>)
      requires Valid() && s < counters.Length0 && Row(s) == Zeros(associativity)
      requires forall k :: 0 <= k < |accesses| ==> accesses[k] < associativity
      modifies counters
      ensures Row(s) == CountersAfter(associativity, accesses)
    {
      var n := 0;
      assert accesses[..0] == [];
      while n < |accesses|
        invariant 0 <= n <= |accesses| && Row(s) == CountersAfter(associativity, accesses[..n])
      {
        assert accesses[..n + 1][..n] == accesses[..n];
        UpdateLru(s, accesses[n]);
        n := n + 1;
      }
      assert accesses[..n] == accesses;
    }
  }

  function Zeros(a: nat): seq<nat> { seq(a, _ => 0) }

  function Touch(c: seq<nat>, way: nat): (r: seq<nat>)
    requires way < |c|
    ensures |r| == |c|
  {
    seq(|c|, i requires 0 <= i < |c| => if i == way then |c| - 1 else if c[i] > c[way] then c[i] - 1 else c[i])
  }

  function CountersAfter(a: nat, accesses: seq<nat>): (c: seq<nat>)
    requires forall k :: 0 <= k < |accesses| ==> accesses[k] < a
    ensures |c| == a
  {
    if accesses == [] then Zeros(a) else Touch(CountersAfter(a, accesses[..|accesses| - 1]), accesses[|accesses| - 1])
  }

  /** The lowest way with the smallest counter. */
  predicate IsVictim(c: seq<nat>, v: nat) {
    v < |c| && (forall j :: 0 <= j < |c| ==> c[v] <= c[j]) && forall j :: 0 <= j < v ==> c[v] < c[j]
  }

  // ------------------------------------------------------------- true recency

  /** When a way was last accessed; -1 if never. */
  function LastUse(accesses: seq<nat>, way: nat): (t: int)
    ensures -1 <= t < |accesses|
    ensures t >= 0 ==> accesses[t] == way
  {
    if accesses == [] then -1
    else if accesses[|accesses| - 1] == way then |accesses| - 1
    else LastUse(accesses[..|accesses| - 1], way)
  }

  /** The ways accessed since `way` was. */
  ghost function UsedSince(a: nat, accesses: seq<nat>, way: nat): set<nat> {
    set v: nat | v < a && LastUse(accesses, v) > LastUse(accesses, way)
  }

  /** Recency rank: 0 for the most recently used way. */
  ghost function Rank(a: nat, accesses: seq<nat>, way: nat): nat { |UsedSince(a, accesses, way)| }

  lemma Smaller(x: set<nat>, y: set<nat>)
    requires x <= y
    ensures |x| <= |y| && (x != y ==> |x| < |y|)
  {
    assert y == x + (y - x);
  }

  ghost function Below(a: nat): (r: set<nat>)
    ensures |r| == a && forall v: nat :: v in r <==> v < a
  {
    if a == 0 then {} else Below(a - 1) + {a - 1}
  }

  /** Fewer ways have been used since the one used later. */
  lemma LaterRanksLower(a: nat, accesses: seq<nat>, v: nat, w: nat)
    requires v < a && w < a
    ensures LastUse(accesses, v) < LastUse(accesses, w) ==> Rank(a, accesses, w) < Rank(a, accesses, v)
    ensures LastUse(accesses, v) == LastUse(accesses, w) ==> Rank(a, accesses, w) == Rank(a, accesses, v)
  {
    var x, y := UsedSince(a, accesses, w), UsedSince(a, accesses, v);
    if LastUse(accesses, v) < LastUse(accesses, w) {
      assert x <= y && w in y && w !in x;
      Smaller(x, y);
    } else if LastUse(accesses, v) == LastUse(accesses, w) {
      assert x == y;
    }
  }

  /** A used way's rank leaves room for itself and for every unused way. */
  lemma RankBound(a: nat, accesses: seq<nat>, w: nat, u: nat)
    requires w < a && u < a && LastUse(accesses, w) >= 0
    ensures Rank(a, accesses, w) <= a - 1
    ensures LastUse(accesses, u) < 0 ==> Rank(a, accesses, w) <= a - 2
  {
    var x := UsedSince(a, accesses, w);
    assert w !in x;
    Smaller(x + {w}, Below(a));
    if LastUse(accesses, u) < 0 {
      assert u !in x + {w};
      Smaller(x + {w} + {u}, Below(a));
    }
  }

  /** The rank after one more access. */
  lemma RankAfter(a: nat, accesses: seq<nat>, x: nat, w: nat)
    requires x < a && w < a
    ensures w == x ==> Rank(a, accesses + [x], w) == 0
    ensures w != x ==>
      Rank(a, accesses + [x], w) == Rank(a, accesses, w) + if LastUse(accesses, x) > LastUse(accesses, w) then 0 else 1
  {
    UsedSinceAfter(a, accesses, x, w);
    var before := UsedSince(a, accesses, w);
    assert x in before ==> before + {x} == before;
  }

  lemma UsedSinceAfter(a: nat, accesses: seq<nat>, x: nat, w: nat)
    requires x < a && w < a
    ensures UsedSince(a, accesses + [x], w) == if w == x then {} else UsedSince(a, accesses, w) + {x}
  {
    var after := UsedSince(a, accesses + [x], w);
    LastUseAfter(accesses, x, w);
    forall v: nat
      ensures v in after <==> w != x && v < a && (v == x || LastUse(accesses, v) > LastUse(accesses, w))
    {
      LastUseAfter(accesses, x, v);
    }
  }

  lemma LastUseAfter(accesses: seq<nat>, x: nat, v: nat)
    ensures LastUse(accesses + [x], v) == if v == x then |accesses| else LastUse(accesses, v)
  {
    assert (accesses + [x])[..|accesses|] == accesses;
  }

  /** The counter that true recency prescribes. */
  ghost function Prescribed(a: nat, accesses: seq<nat>, w: nat): int {
    if LastUse(accesses, w) < 0 then 0 else a - 1 - Rank(a, accesses, w)
  }

  /** One access moves prescribed counters as `updateLRU` does. */
  lemma PrescribedStep(a: nat, c: seq<nat>, accesses: seq<nat>, x: nat, w: nat)
    requires x < a && w < a && |c| == a
    requires forall v: nat :: v < a ==> c[v] == Prescribed(a, accesses, v)
    ensures Touch(c, x)[w] == Prescribed(a, accesses + [x], w)
  {
    LastUseAfter(accesses, x, w);
    RankAfter(a, accesses, x, w);
    LaterRanksLower(a, accesses, x, w);
    LaterRanksLower(a, accesses, w, x);
    if LastUse(accesses, w) >= 0 {
      RankBound(a, accesses, w, x);
    }
  }

  /**
   * The counters are exact: after any accesses from zero, the way of recency rank k has
   * counter A - 1 - k, and a way never accessed has 0.
   */
  lemma {:induction false} CountersAreRecency(a: nat, accesses: seq<nat>, w: nat)
    requires w < a && forall k :: 0 <= k < |accesses| ==> accesses[k] < a
    ensures CountersAfter(a, accesses)[w] == Prescribed(a, accesses, w)
  {
    if accesses == [] {
    } else {
      var before, x := accesses[..|accesses| - 1], accesses[|accesses| - 1];
      forall v: nat | v < a ensures CountersAfter(a, before)[v] == Prescribed(a, before, v) {
        CountersAreRecency(a, before, v);
      }
      assert accesses == before + [x];
      PrescribedStep(a, CountersAfter(a, before), before, x, w);
    }
  }

  /**
   * The victim is the lowest way never accessed, if there is one, and otherwise the way
   * whose last access is furthest back.
   */
  lemma VictimIsLeastRecent(a: nat, accesses: seq<nat>, victim: nat)
    requires forall k :: 0 <= k < |accesses| ==> accesses[k] < a
    requires IsVictim(CountersAfter(a, accesses), victim)
    ensures (exists u: nat :: u < a && LastUse(accesses, u) < 0) ==>
      LastUse(accesses, victim) < 0 && forall u: nat :: u < victim ==> LastUse(accesses, u) >= 0
    ensures (forall u: nat :: u < a ==> LastUse(accesses, u) >= 0) ==>
      forall u: nat :: u < a && u != victim ==> LastUse(accesses, victim) < LastUse(accesses, u)
  {
    forall u: nat | u < a && u != victim
      ensures LastUse(accesses, u) < 0 ==> LastUse(accesses, victim) < 0 && victim < u
      ensures LastUse(accesses, victim) >= 0 ==> LastUse(accesses, victim) < LastUse(accesses, u)
    {
      VictimVersus(a, accesses, victim, u);
    }
  }

  lemma VictimVersus(a: nat, accesses: seq<nat>, victim: nat, u: nat)
    requires forall k :: 0 <= k < |accesses| ==> accesses[k] < a
    requires IsVictim(CountersAfter(a, accesses), victim) && u < a && u != victim
    ensures LastUse(accesses, u) < 0 ==> LastUse(accesses, victim) < 0 && victim < u
    ensures LastUse(accesses, victim) >= 0 ==> LastUse(accesses, victim) < LastUse(accesses, u)
  {
    CountersAreRecency(a, accesses, u);
    CountersAreRecency(a, accesses, victim);
    LaterRanksLower(a, accesses, u, victim);
    assert CountersAfter(a, accesses)[victim] <= CountersAfter(a, accesses)[u];
    if LastUse(accesses, victim) >= 0 {
      RankBound(a, accesses, victim, u);
    }
  }
}
