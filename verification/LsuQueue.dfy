/** The load/store queue's ring order and its search for a store to forward from. */
module LsuQueue {

  datatype Op = Load | Store

  datatype MemEntry = MemEntry(valid: bool, eaResolved: bool, dispatched: bool, complete: bool, tag: nat, op: Op, addr: int, value: int)

  /** How many places a slot lies after the head, going forward round the ring. */
  function Age(depth: nat, head: nat, slot: nat): (a: nat)
    requires head < depth && slot < depth
    ensures a < depth
  {
    if slot >= head then slot - head else slot + depth - head
  }

  /** The slot `k` places after the head. */
  function SlotOfAge(depth: nat, head: nat, k: nat): (s: nat)
    requires head < depth && k < depth
    ensures s < depth && Age(depth, head, s) == k
  {
    if head + k < depth then head + k else head + k - depth
  }

  lemma NextSlot(depth: nat, s: nat)
    requires s < depth
    ensures (s + 1) % depth == if s + 1 == depth then 0 else s + 1
  {
    if s + 1 < depth {
      assert (s + 1) / depth == 0;
    }
  }

  /** A store the load at this address may take its value from. */
  predicate Candidate(q: seq<MemEntry>, s: nat, addr: int)
    requires s < |q|
  {
    q[s].valid && q[s].op.Store? && q[s].eaResolved && q[s].addr == addr
  }

  /** The youngest valid store to the address, with its address resolved, strictly older than
      the load; -1 if there is none. */
  ghost predicate ClosestStore(q: seq<MemEntry>, head: nat, load: nat, addr: int, r: int)
    requires head < |q| && load < |q|
  {
    var depth := |q|;
    if r == -1 then
      forall s: nat :: s < depth && Age(depth, head, s) < Age(depth, head, load) ==>
        !(q[s].valid && q[s].op == Store && q[s].eaResolved && q[s].addr == addr)
    else
      && 0 <= r < depth && Age(depth, head, r) < Age(depth, head, load)
      && q[r].valid && q[r].op == Store && q[r].eaResolved && q[r].addr == addr
      && forall s: nat :: s < depth && Age(depth, head, r) < Age(depth, head, s) < Age(depth, head, load) ==>
           !(q[s].valid && q[s].op == Store && q[s].eaResolved && q[s].addr == addr)
  }

  /** The last candidate among the `n` slots from the head on. */
  function Closest(q: seq<MemEntry>, head: nat, addr: int, n: nat): (r: int)
    requires head < |q| && n <= |q|
    ensures -1 <= r < |q|
  {
    if n == 0 then -1
    else if Candidate(q, SlotOfAge(|q|, head, n - 1), addr) then SlotOfAge(|q|, head, n - 1)
    else Closest(q, head, addr, n - 1)
  }

  lemma {:induction false} ClosestIsYoungestOlder(q: seq<MemEntry>, head: nat, load: nat, addr: int, n: nat)
    requires head < |q| && load < |q| && n <= Age(|q|, head, load)
    requires forall s: nat :: s < |q| && n <= Age(|q|, head, s) < Age(|q|, head, load) ==> !Candidate(q, s, addr)
    ensures ClosestStore(q, head, load, addr, Closest(q, head, addr, n))
  {
    if n == 0 {
    } else {
      var s := SlotOfAge(|q|, head, n - 1);
      forall t: nat | t < |q| && Age(|q|, head, t) == n - 1 ensures t == s {
      }
      if !Candidate(q, s, addr) {
        ClosestIsYoungestOlder(q, head, load, addr, n - 1);
      }
    }
  }

  /**
   * Forwarding picks the right store: for any depth, head and load, the scan ends at the
   * youngest slot strictly older than the load that holds a valid, resolved store to the
   * address, and with -1 exactly if there is none.
   */
  lemma ForwardingPicksYoungestOlder(q: seq<MemEntry>, head: nat, load: nat, addr: int, r: int)
    requires head < |q| && load < |q|
    ensures r == Closest(q, head, addr, Age(|q|, head, load)) <==> ClosestStore(q, head, load, addr, r)
  {
    ClosestIsYoungestOlder(q, head, load, addr, Age(|q|, head, load));
  }

  class Queue {
    const depth: nat
    const queue: array<MemEntry>
    var headPtr: nat
    var tailPtr: nat

    ghost predicate Valid()
      reads this
    {
      queue.Length == depth > 0 && headPtr < depth && tailPtr < depth
    }

    constructor (d: nat)
      requires d > 0
      ensures Valid() && depth == d && headPtr == tailPtr == 0 && fresh(queue)
      ensures forall s :: 0 <= s < d ==> !queue[s].valid
    {
      depth, headPtr, tailPtr := d, 0, 0;
      queue := new MemEntry[d](_ => MemEntry(false, false, false, false, 0, Load, 0, 0));
    }

    /**
     * `is_older`: walk back from `i` until `j` or the head comes up. It answers by age,
     * except when `i` is the head itself: then the walk goes all the way round and every
     * other slot counts as older.
     */
    method IsOlder(i: nat, j: nat) returns (older: bool)
      requires Valid() && i < depth && j < depth
      ensures older <==> i != j && (i == headPtr || Age(depth, headPtr, j) < Age(depth, headPtr, i))
    {
      if i == j { return false; }
      ghost var a, b := Age(depth, headPtr, i), Age(depth, headPtr, j);
      ghost var distance := if b < a then a - b else if a == 0 then depth - b else depth;
      assert b < a || a == 0 ==> 1 <= distance <= depth && Back(depth, a, distance) == b;
      var idx := i;
      var step := 0;
      ghost var walked := 0;
      while step < depth
        invariant 0 <= step == walked <= depth && 0 <= idx < depth
        invariant Age(depth, headPtr, idx) == Back(depth, a, walked)
        invariant walked > 0 ==> idx != headPtr && walked < (if a == 0 then depth else a)
        invariant forall k: nat :: 1 <= k <= walked ==> Back(depth, a, k) != b
      {
        idx := if idx == 0 then depth - 1 else idx - 1;
        walked := walked + 1;
        assert Age(depth, headPtr, idx) == Back(depth, a, walked);
        if idx == j { return true; }
        if idx == headPtr { break; }
        step := step + 1;
      }
      assert walked == if a == 0 then depth else a;
      return false;
    }

    /**
     * `is_younger`: walk forward from `j` until `i` or the tail comes up.
     */
    method IsYounger(i: nat, j: nat) returns (younger: bool)
      requires Valid() && i < depth && j < depth
      ensures younger <==> i != j && Ahead(depth, j, i) <= Ahead(depth, j, tailPtr)
    {
      if i == j { return false; }
      var idx := j;
      var step := 0;
      ghost var walked := 0;
      while step < depth
        invariant 0 <= step == walked <= depth && 0 <= idx < depth
        invariant walked < depth ==> idx == SlotOfAge(depth, j, walked)
        invariant walked > 0 ==> walked < Ahead(depth, j, tailPtr)
        invariant walked < Ahead(depth, j, i)
      {
        NextSlot(depth, idx);
        idx := (idx + 1) % depth;
        walked := walked + 1;
        if idx == i { return true; }
        if idx == tailPtr { break; }
        step := step + 1;
      }
      return false;
    }

    /**
     * `forward_from_older_store`: the load completes with the value of the closest store,
     * if there is one; nothing else changes.
     */
    method ForwardFromOlderStore(loadAddr: int, loadIdx: nat)
      requires Valid() && loadIdx < depth
      modifies queue
      ensures var q := old(queue[..]);
        var closest := Closest(q, headPtr, loadAddr, Age(depth, headPtr, loadIdx));
        queue[..] == if closest == -1 then q else
          q[loadIdx := q[loadIdx].(valid := true, value := q[closest].value, complete := true)]
    {
      var closest := Search(loadAddr, loadIdx);
      if closest != -1 {
        queue[loadIdx] := queue[loadIdx].(valid := true, value := queue[closest].value, complete := true);
      }
    }

    /** The scan from the head to the load. */
    method Search(loadAddr: int, loadIdx: nat) returns (closest: int)
      requires Valid() && loadIdx < depth
      ensures closest == Closest(queue[..], headPtr, loadAddr, Age(depth, headPtr, loadIdx))
    {
      closest := -1;
      var s := headPtr;
      var iterCount := 0;
      while s != loadIdx && iterCount < depth
        invariant 0 <= iterCount <= Age(depth, headPtr, loadIdx) && 0 <= s < depth
        invariant Age(depth, headPtr, s) == iterCount
        invariant closest == Closest(queue[..], headPtr, loadAddr, iterCount)
        decreases depth - iterCount
      {
        assert s == SlotOfAge(depth, headPtr, iterCount);
        if queue[s].valid && queue[s].op.Store? {
          var older := IsOlder(loadIdx, s);
          if older {
            if !queue[s].eaResolved {
              NextSlot(depth, s);
              s := (s + 1) % depth;
              iterCount := iterCount + 1;
              continue;
            }
            if queue[s].addr == loadAddr {
              closest := s;
            }
          }
        }
        NextSlot(depth, s);
        s := (s + 1) % depth;
        iterCount := iterCount + 1;
      }
    }
  }

  /** The age `k` places back from age `a`, going round. */
  function Back(depth: nat, a: nat, k: nat): (b: nat)
    requires a < depth && k <= depth
    ensures b < depth
  {
    if k <= a then a - k else a + depth - k
  }

  /** How many steps forward from `j` reach `i`: at least one, at most all the way round. */
  function Ahead(depth: nat, j: nat, i: nat): (n: nat)
    requires j < depth && i < depth
    ensures 1 <= n <= depth
  {
    if i > j then i - j else i + depth - j
  }

  /** In a ring that is not full, with both slots in use, `is_younger` and `is_older` mean
      the same: the first slot has the greater age. */
  lemma YoungerIsAge(depth: nat, head: nat, count: nat, tail: nat, i: nat, j: nat)
    requires head < depth && count < depth && i < depth && j < depth
    requires tail == SlotOfAge(depth, head, count)
    requires Age(depth, head, i) < count && Age(depth, head, j) < count
    ensures (i != j && Ahead(depth, j, i) <= Ahead(depth, j, tail)) <==> Age(depth, head, j) < Age(depth, head, i)
  {
  }

  /** In a full ring the tail is the head, and the head itself counts as younger than
      every other slot. */
  lemma YoungerInFullRing(depth: nat, head: nat, i: nat, j: nat)
    requires head < depth && i < depth && j < depth && i != j
    ensures Ahead(depth, j, i) <= Ahead(depth, j, head) <==> i == head || Age(depth, head, j) < Age(depth, head, i)
  {
  }
}
