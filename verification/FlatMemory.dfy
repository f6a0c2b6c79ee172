/** The flat word memory every load must appear to read, and lines of it. */
module FlatMemory {
  import opened L1DTypes

  /** The most recent store to an aligned address in request order, or the address
      itself if there was none. */
  function FlatValue(log: seq<Request>, a: Word): Word {
    if log == [] then a
    else
      var last := log[|log| - 1];
      if last.we && Align(last.addr) == a then last.data
      else FlatValue(log[..|log| - 1], a)
  }

  /** The eight words of a block. */
  function FlatLine(log: seq<Request>, b: Block): (line: Line)
    ensures forall i :: 0 <= i < 8 ==> line[i] == FlatValue(log, WordAddr(b, i))
  {
    seq(8, i requires 0 <= i < 8 => FlatValue(log, WordAddr(b, i)))
  }

  lemma FlatValueAfter(log: seq<Request>, r: Request, a: Word)
    ensures FlatValue(log + [r], a) == if r.we && Align(r.addr) == a then r.data else FlatValue(log, a)
  {
    assert (log + [r])[..|log|] == log;
  }

  /** A request changes one word of its own block, if it is a store, and nothing else. */
  lemma FlatLineAfter(log: seq<Request>, r: Request, b: Block)
    ensures GetWord(r.addr) < 8
    ensures FlatLine(log + [r], b) ==
      if r.we && GetBlock(r.addr) == b then FlatLine(log, b)[GetWord(r.addr) := r.data] else FlatLine(log, b)
  {
    AddressFields(r.addr);
    forall i | 0 <= i < 8
      ensures FlatLine(log + [r], b)[i] ==
        if r.we && GetBlock(r.addr) == b && GetWord(r.addr) == i then r.data else FlatLine(log, b)[i]
    {
      FlatValueAfter(log, r, WordAddr(b, i));
      if Align(r.addr) == WordAddr(b, i) {
        WordAddrInjective(GetBlock(r.addr), GetWord(r.addr), b, i);
      }
    }
  }

  lemma FlatValueInLine(log: seq<Request>, addr: PAddr)
    ensures GetWord(addr) < 8
    ensures FlatLine(log, GetBlock(addr))[GetWord(addr)] == FlatValue(log, Align(addr))
  {
    AddressFields(addr);
  }
}
