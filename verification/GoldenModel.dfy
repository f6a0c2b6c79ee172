/**
 * The golden model as the program it is: arrays, MSHR queues, a completion queue
 * and a flat map changed in place. The ghost field `st` is the abstract state;
 * every method moves it exactly as the functions of `GoldenSpec` say.
 */
module GoldenModel {
  import opened L1DTypes
  import opened GoldenSpec

  /** The request behind the integer arguments of the C interface. */
  function Decode(addr: int, data: int, tag: int, isWrite: int): Request {
    Request(addr % 0x40_0000, data % 0x1_0000_0000_0000_0000, tag % 0x400, isWrite != 0)
  }

  class L1DModel {
    const tagArray: array2<TagEntry>
    const dataArray: array3<Word>
    const plruBits: array<bv8>
    const mshr: array<Mshr>
    var completions: seq<Completion>
    var legacyMem: map<Word, Word>

    ghost var st: State

    /** The arrays hold this cell in way `w` of set `s`. */
    ghost predicate Holds(w: nat, s: nat, cell: Cell)
      requires w < WAYS && s < SETS && Sized()
      reads tagArray, dataArray
    {
      && tagArray[w, s] == TagEntry(cell.valid, cell.dirty, cell.tag)
      && forall i :: 0 <= i < WORDS ==> dataArray[w, s, i] == cell.data[i]
    }

    ghost predicate Sized() {
      && tagArray.Length0 == dataArray.Length0 == WAYS
      && tagArray.Length1 == dataArray.Length1 == SETS
      && dataArray.Length2 == WORDS
      && plruBits.Length == SETS && mshr.Length == MSHRS
    }

    ghost predicate Valid()
      reads this, tagArray, dataArray, plruBits, mshr
    {
      && Sized()
      && Shape(st)
      && (forall w: nat, s: nat :: w < WAYS && s < SETS ==> Holds(w, s, st.cache[Slot(w, s)]))
      && plruBits[..] == st.plru && mshr[..] == st.mshrs
      && completions == st.completions && legacyMem == st.legacy
    }

    constructor ()
      ensures Valid() && st == Reset()
      ensures fresh(tagArray) && fresh(dataArray) && fresh(plruBits) && fresh(mshr)
    {
      tagArray := new TagEntry[WAYS, SETS];
      dataArray := new Word[WAYS, SETS, WORDS];
      plruBits := new bv8[SETS];
      mshr := new Mshr[MSHRS];
      completions, legacyMem := [], map[];
      st := Reset();
      new;
      ResetModel();
    }

    /** Zeroes the tag and data arrays. */
    method ClearCells()
      requires Sized()
      modifies tagArray, dataArray
      ensures forall w: nat, s: nat :: w < WAYS && s < SETS ==> Holds(w, s, EMPTY_CELL)
    {
      forall w, s | 0 <= w < tagArray.Length0 && 0 <= s < tagArray.Length1 {
        tagArray[w, s] := TagEntry(false, false, 0);
      }
      forall w, s, i | 0 <= w < dataArray.Length0 && 0 <= s < dataArray.Length1 && 0 <= i < dataArray.Length2 {
        dataArray[w, s, i] := 0;
      }
    }

    /** Zeroes the PLRU bits and empties every MSHR. */
    method ClearQueues()
      requires Sized()
      modifies plruBits, mshr
      ensures plruBits[..] == Reset().plru && mshr[..] == Reset().mshrs
    {
      forall s | 0 <= s < plruBits.Length {
        plruBits[s] := 0;
      }
      var i := 0;
      while i < MSHRS
        invariant 0 <= i <= MSHRS
        invariant forall j :: 0 <= j < i ==> mshr[j] == Mshr([], 0)
        modifies mshr
      {
        mshr[i] := Mshr([], 0);
        i := i + 1;
      }
      assert mshr[..] == [Mshr([], 0), Mshr([], 0)];
    }

    /** `l1d_model_reset` */
    method ResetModel()
      requires Sized()
      modifies this, tagArray, dataArray, plruBits, mshr
      ensures Valid() && st == Reset()
    {
      ClearCells();
      ClearQueues();
      completions, legacyMem := [], map[];
      st := Reset();
    }

    /** `cache_lookup` */
    method CacheLookup(set_: nat, tag: nat) returns (way: int)
      requires Valid() && set_ < SETS
      ensures way == Lookup(st.cache, set_, tag)
    {
      var w := 0;
      while w < WAYS
        invariant 0 <= w <= WAYS
        invariant Lookup(st.cache, set_, tag, w) == Lookup(st.cache, set_, tag)
      {
        assert Holds(w, set_, st.cache[Slot(w, set_)]);
        if tagArray[w, set_].valid && tagArray[w, set_].tag == tag { return w; }
        w := w + 1;
      }
      way := -1;
    }

    /** The search for an active MSHR on a block, shared by requests and fills. */
    method FindTracking(b: nat) returns (found: int)
      requires Valid()
      ensures found == FindMshr(st.mshrs, b)
    {
      found := -1;
      var i := 0;
      while i < MSHRS
        invariant 0 <= i <= MSHRS && found == -1
        invariant FindMshr(st.mshrs, b, i) == FindMshr(st.mshrs, b)
      {
        if mshr[i].entries != [] && mshr[i].entries[0].blockAddr == b {
          found := i;
          break;
        }
        i := i + 1;
      }
    }

    method FindFree() returns (free: int)
      requires Valid()
      ensures free == FreeMshr(st.mshrs)
    {
      free := -1;
      var i := 0;
      while i < MSHRS
        invariant 0 <= i <= MSHRS && free == -1
        invariant FreeMshr(st.mshrs, i) == FreeMshr(st.mshrs)
      {
        if mshr[i].entries == [] { free := i; break; }
        i := i + 1;
      }
    }

    /** The backward scan of a queue for a store to forward from. */
    method ScanForStore(m: nat, addr: PAddr) returns (fwd: Option<Word>)
      requires Valid() && m < MSHRS
      ensures fwd == ForwardScan(st.mshrs[m].entries, addr)
    {
      var es := mshr[m].entries;
      var i := |es| - 1;
      assert es[..i + 1] == es;
      while i >= 0
        invariant -1 <= i < |es|
        invariant ForwardScan(es[..i + 1], addr) == ForwardScan(es, addr)
      {
        assert es[..i + 1][..i] == es[..i];
        if es[i].we && es[i].paddr == addr { return Some(es[i].data); }
        i := i - 1;
      }
      fwd := None;
    }

    method PlruTouch(set_: nat, way: nat)
      requires Valid() && set_ < SETS && way < WAYS
      modifies this`st, plruBits
      ensures Valid() && st == old(st).(plru := old(st).plru[set_ := PlruUpdate(old(st).plru[set_], way)])
    {
      plruBits[set_] := plruBits[set_] | ((1 as bv8) << way);
      if plruBits[set_] & 7 == 7 {
        plruBits[set_] := (1 as bv8) << way;
      }
      st := st.(plru := plruBits[..]);
    }

    method PushCompletion(c: Completion)
      requires Valid()
      modifies this
      ensures Valid() && st == old(st).(completions := old(st).completions + [c])
      ensures legacyMem == old(legacyMem)
    {
      completions := completions + [c];
      st := st.(completions := completions);
    }

    /** Writes one word of a cached line and marks the line dirty. */
    method StoreWord(way: nat, set_: nat, word: nat, data: Word)
      requires Valid() && way < WAYS && set_ < SETS && word < WORDS
      modifies this`st, tagArray, dataArray
      ensures Valid()
      ensures var cell := old(st).cache[Slot(way, set_)];
        st == old(st).(cache := old(st).cache[Slot(way, set_) := cell.(dirty := true, data := cell.data[word := data])])
    {
      var cell := st.cache[Slot(way, set_)];
      assert Holds(way, set_, st.cache[Slot(way, set_)]);
      dataArray[way, set_, word] := data;
      tagArray[way, set_] := tagArray[way, set_].(dirty := true);
      st := st.(cache := st.cache[Slot(way, set_) := cell.(dirty := true, data := cell.data[word := data])]);
    }

    /** `install_line` */
    method InstallLine(way: nat, set_: nat, tag: nat, line: Line, dirty: bool)
      requires Valid() && way < WAYS && set_ < SETS && tag < 8192
      modifies this`st, tagArray, dataArray, plruBits
      ensures Valid()
      ensures st == old(st).(cache := old(st).cache[Slot(way, set_) := Cell(true, dirty, tag, line)],
                             plru := old(st).plru[set_ := PlruUpdate(old(st).plru[set_], way)])
    {
      tagArray[way, set_] := TagEntry(true, dirty, tag);
      var i := 0;
      while i < WORDS
        invariant 0 <= i <= WORDS
        invariant forall j :: 0 <= j < i ==> dataArray[way, set_, j] == line[j]
        invariant forall w, s, j ::
          0 <= w < WAYS && 0 <= s < SETS && 0 <= j < WORDS && (w != way || s != set_) ==>
            dataArray[w, s, j] == old(dataArray[w, s, j])
        modifies dataArray
      {
        dataArray[way, set_, i] := line[i];
        i := i + 1;
      }
      st := st.(cache := st.cache[Slot(way, set_) := Cell(true, dirty, tag, line)]);
      PlruTouch(set_, way);
    }

    /** Copies a dirty victim line to the flat map. */
    method WriteVictimBack(way: nat, set_: nat)
      requires Valid() && way < WAYS && set_ < SETS
      modifies this
      ensures Valid()
      ensures completions == old(completions)
      ensures var cell := old(st).cache[Slot(way, set_)];
        st == old(st).(legacy := WriteBack(old(st).legacy, BlockOf(cell.tag, set_), cell.data, WORDS))
    {
      ghost var cell := st.cache[Slot(way, set_)];
      assert Holds(way, set_, st.cache[Slot(way, set_)]);
      var victim := BlockOf(tagArray[way, set_].tag, set_);
      var w := 0;
      while w < WORDS
        invariant 0 <= w <= WORDS
        invariant legacyMem == WriteBack(old(legacyMem), victim, cell.data, w)
        modifies this`legacyMem
      {
        legacyMem := legacyMem[WordAddr(victim, w) := dataArray[way, set_, w]];
        w := w + 1;
      }
      st := st.(legacy := legacyMem);
    }

    method PushEntry(m: nat, e: MshrEntry, victimWay: nat)
      requires Valid() && m < MSHRS && victimWay < WAYS
      modifies this`st, mshr
      ensures Valid()
      ensures st == old(st).(mshrs := old(st).mshrs[m := Mshr(old(st).mshrs[m].entries + [e], victimWay)])
    {
      mshr[m] := Mshr(mshr[m].entries + [e], victimWay);
      st := st.(mshrs := mshr[..]);
    }

    method RecordStore(r: Request)
      requires Valid()
      modifies this
      ensures Valid() && st == NoteStore(old(st), r)
    {
      if r.we {
        legacyMem := legacyMem[Align(r.addr) := r.data];
        st := st.(legacy := legacyMem);
      }
    }

    /** The hit half of a request. */
    method ServeHit(r: Request, way: nat)
      requires Valid() && way < WAYS
      modifies this, tagArray, dataArray, plruBits
      ensures Valid() && st == HitStep(old(st), r, way)
    {
      var set_, word := GetSet(r.addr), GetWord(r.addr);
      assert Holds(way, set_, st.cache[Slot(way, set_)]);
      PlruTouch(set_, way);
      if r.we {
        StoreWord(way, set_, word, r.data);
        PushCompletion(Completion(r.tag, 0, true));
      } else {
        PushCompletion(Completion(r.tag, dataArray[way, set_, word], false));
      }
    }

    /** A miss on a block that MSHR `m` already tracks. */
    method ServeSecondary(r: Request, m: nat) returns (ret: nat)
      requires Valid() && m == FindMshr(st.mshrs, GetBlock(r.addr))
      requires Lookup(st.cache, GetSet(r.addr), GetTag(r.addr)) < 0
      modifies this, mshr
      ensures Valid() && Outcome(st, ret) == Served(old(st), r)
    {
      var b := GetBlock(r.addr);
      if r.we {
        if |mshr[m].entries| < MSHR_QUEUE_SIZE {
          PushEntry(m, MshrEntry(r.addr, b, true, r.data, r.tag), mshr[m].victimWay);
        }
        return 0;
      } else {
        var fwd := ScanForStore(m, r.addr);
        if fwd.Some? {
          PushCompletion(Completion(r.tag, fwd.value, false));
          return 1;
        }
        if |mshr[m].entries| < MSHR_QUEUE_SIZE {
          PushEntry(m, MshrEntry(r.addr, b, false, 0, r.tag), mshr[m].victimWay);
        }
        return 0;
      }
    }

    /** `l1d_model_request` */
    method DoRequest(addrIn: int, dataIn: int, tagIn: int, isWriteIn: int) returns (ret: nat)
      requires Valid()
      modifies this, tagArray, dataArray, plruBits, mshr
      ensures Valid()
      ensures Outcome(st, ret) == RequestStep(old(st), Decode(addrIn, dataIn, tagIn, isWriteIn))
    {
      var r := Decode(addrIn, dataIn, tagIn, isWriteIn);
      var b := GetBlock(r.addr);
      RecordStore(r);

      var way := CacheLookup(GetSet(r.addr), GetTag(r.addr));
      if way >= 0 {
        ServeHit(r, way);
        return 1;
      }

      var m := FindTracking(b);
      if m >= 0 {
        ret := ServeSecondary(r, m);
        return;
      }

      m := FindFree();
      if m < 0 { return 0; }
      AllocateMshr(m, r);
      return 0;
    }

    /** The primary-miss half of a request: evict, invalidate, enqueue. */
    method AllocateMshr(m: nat, r: Request)
      requires Valid() && m < MSHRS
      modifies this, tagArray, mshr
      ensures Valid() && st == PrimaryStep(old(st), r, m)
    {
      var set_ := GetSet(r.addr);
      var vway := PlruVictim(plruBits[set_]);
      ghost var cell := st.cache[Slot(vway, set_)];
      assert Holds(vway, set_, st.cache[Slot(vway, set_)]);
      if tagArray[vway, set_].valid && tagArray[vway, set_].dirty {
        WriteVictimBack(vway, set_);
      }
      assert Holds(vway, set_, st.cache[Slot(vway, set_)]);
      tagArray[vway, set_] := tagArray[vway, set_].(valid := false);
      st := st.(cache := st.cache[Slot(vway, set_) := cell.(valid := false)]);
      PushEntry(m, MshrEntry(r.addr, GetBlock(r.addr), r.we, r.data, r.tag), vway);
    }

    /** `l1d_model_fill` */
    method Fill(blockAddrIn: int, line: Line) returns (count: nat)
      requires Valid()
      modifies this, tagArray, dataArray, plruBits, mshr
      ensures Valid()
      ensures Outcome(st, count) == FillStep(old(st), blockAddrIn % 0x1_0000_0000, line)
    {
      var b := blockAddrIn % 0x1_0000_0000;
      var addr0 := b * 64 % 0x1_0000_0000;
      var set_, tag := GetSet(addr0), GetTag(addr0);
      var m := FindTracking(b);
      if m < 0 {
        var vway := PlruVictim(plruBits[set_]);
        InstallLine(vway, set_, tag, line, false);
        return 0;
      }

      ghost var s0, es := st, st.mshrs[m].entries;
      var vway := mshr[m].victimWay;
      InstallLine(vway, set_, tag, line, false);
      count := 0;
      assert st == Played(s0, m, b, line, 0) by {
        assert es[0..] == es;
        assert s0.mshrs[m := s0.mshrs[m].(entries := es)] == s0.mshrs;
      }
      while mshr[m].entries != []
        invariant Valid() && count <= |es|
        invariant st == Played(s0, m, b, line, count)
        decreases |es| - count
      {
        PlayedOneMore(s0, m, b, line, count);
        PlayFront(m, vway, set_);
        count := count + 1;
      }
      assert count == |es| && es[..count] == es && es[count..] == [];
    }

    /** One turn of the playback loop. */
    method PlayFront(m: nat, vway: nat, set_: nat)
      requires Valid() && m < MSHRS && st.mshrs[m].entries != []
      requires vway < WAYS && set_ < SETS
      modifies this, tagArray, dataArray, mshr
      ensures Valid() && st == PlayFrontStep(old(st), m, Slot(vway, set_))
    {
      var e := mshr[m].entries[0];
      var ew := GetWord(e.paddr);
      mshr[m] := mshr[m].(entries := mshr[m].entries[1..]);
      st := st.(mshrs := mshr[..]);
      if e.we {
        StoreWord(vway, set_, ew, e.data);
        legacyMem := legacyMem[Align(e.paddr) := e.data];
        st := st.(legacy := legacyMem);
        PushCompletion(Completion(e.procTag, 0, true));
      } else {
        assert Holds(vway, set_, st.cache[Slot(vway, set_)]);
        PushCompletion(Completion(e.procTag, dataArray[vway, set_, ew], false));
      }
    }

    /** `l1d_model_pop_completion`: nothing when the queue is empty. */
    method PopCompletion() returns (c: Option<Completion>)
      requires Valid()
      modifies this
      ensures Valid()
      ensures old(st).completions == [] ==> c == None && st == old(st)
      ensures old(st).completions != [] ==>
        && c == Some(old(st).completions[0])
        && st == old(st).(completions := old(st).completions[1..])
    {
      if completions == [] { return None; }
      c := Some(completions[0]);
      completions := completions[1..];
      st := st.(completions := completions);
    }

    /** `mem_read` */
    method ReadMem(addr: Word) returns (v: Word)
      requires Valid()
      ensures v == MemRead(st.legacy, addr)
    {
      var aligned := Align(addr);
      if aligned in legacyMem { return legacyMem[aligned]; }
      return aligned;
    }
  }

  /** Taking the front entry of queue `m` and applying it to the line in `slot`. */
  ghost function PlayFrontStep(st: State, m: nat, slot: Slot): State
    requires m < |st.mshrs| && st.mshrs[m].entries != [] && slot in st.cache
  {
    var q := st.mshrs[m];
    var e := q.entries[0];
    var cell := st.cache[slot];
    var word := GetWord(e.paddr);
    var st' := st.(mshrs := st.mshrs[m := q.(entries := q.entries[1..])]);
    if e.we then
      st'.(cache := st.cache[slot := cell.(dirty := true, data := cell.data[word := e.data])],
           legacy := st.legacy[Align(e.paddr) := e.data],
           completions := st.completions + [Completion(e.procTag, 0, true)])
    else
      st'.(completions := st.completions + [Completion(e.procTag, cell.data[word], false)])
  }

  /** The state when `k` entries of queue `m` have been played onto an installed line. */
  ghost function Played(s: State, m: nat, b: nat, line: Line, k: nat): State
    requires Shape(s) && m < MSHRS && k <= |s.mshrs[m].entries|
  {
    var q := s.mshrs[m];
    var es := q.entries[..k];
    Install(s, q.victimWay, b, Play(line, es), AnyStore(es))
      .(mshrs := s.mshrs[m := q.(entries := q.entries[k..])],
        completions := s.completions + Answers(line, es),
        legacy := PlayLegacy(s.legacy, es))
  }

  lemma AnyStoreOneMore(es: seq<MshrEntry>, k: nat)
    requires k < |es|
    ensures AnyStore(es[..k + 1]) == (AnyStore(es[..k]) || es[k].we)
  {
    if AnyStore(es[..k]) {
      var j :| 0 <= j < k && es[..k][j].we;
      assert es[..k + 1][j].we;
    }
    if es[k].we {
      assert es[..k + 1][k].we;
    }
  }

  /** Playing the queue front by front reaches the states of `Played` one by one. */
  lemma PlayedOneMore(s: State, m: nat, b: nat, line: Line, k: nat)
    requires Shape(s) && m < MSHRS && k < |s.mshrs[m].entries|
    ensures var slot := Slot(s.mshrs[m].victimWay, GetSet(b * 64 % 0x1_0000_0000));
      slot in s.cache &&
      Played(s, m, b, line, k + 1) == PlayFrontStep(Played(s, m, b, line, k), m, slot)
  {
    var es := s.mshrs[m].entries;
    var slot := Slot(s.mshrs[m].victimWay, GetSet(b * 64 % 0x1_0000_0000));
    AnyStoreOneMore(es, k);
    assert es[..k + 1][..k] == es[..k] && es[..k + 1][k] == es[k];
    assert es[k..][1..] == es[k + 1..] && es[k..][0] == es[k];
    var p, q := Played(s, m, b, line, k), Played(s, m, b, line, k + 1);
    var f := PlayFrontStep(p, m, slot);
    assert q.mshrs == f.mshrs;
    assert q.completions == f.completions;
    assert q.legacy == f.legacy;
    assert q.plru == f.plru;
    assert q.cache == f.cache;
  }
}
