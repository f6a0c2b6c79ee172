/** The memory model behind the cache: lines generated on first use, replaced by write-backs. */
module BackingStore {
  import opened L1DTypes

  type Store = map<Block, Line>

  /** The line of a block never written back: each word holds its own byte address. */
  function DefaultLine(b: Block): (line: Line)
    ensures forall i :: 0 <= i < 8 ==> line[i] == WordAddr(b, i)
  {
    seq(8, i requires 0 <= i < 8 => WordAddr(b, i))
  }

  function Fetch(store: Store, b: Block): Line {
    if b in store then store[b] else DefaultLine(b)
  }

  /** The store after a miss and the line captured for it, the dirty victim's write-back
      coming first. */
  function Missed(store: Store, addr: PAddr, writeBack: bool, victim: Block, data: Line): (Store, Line) {
    var evicted := if writeBack then store[victim := data] else store;
    var line := Fetch(evicted, GetBlock(addr));
    (evicted[GetBlock(addr) := line], line)
  }

  class LlcResponder {
    var mem: Store

    constructor ()
      ensures mem == map[]
    {
      mem := map[];
    }

    /** `generate_cacheline` */
    method GenerateCacheline(addr: PAddr) returns (line: Line)
      ensures line == DefaultLine(GetBlock(addr))
    {
      var base := GetBlock(addr) * 64;
      line := [0, 0, 0, 0, 0, 0, 0, 0];
      var w := 0;
      while w < 8
        invariant 0 <= w <= 8
        invariant forall i :: 0 <= i < w ==> line[i] == base + i * 8
      {
        line := line[w := base + w * 8];
        w := w + 1;
      }
    }

    /** `read_line`: generating a line is not observable. */
    method ReadLine(addr: PAddr) returns (line: Line)
      modifies this
      ensures line == Fetch(old(mem), GetBlock(addr))
      ensures mem == old(mem)[GetBlock(addr) := line]
      ensures forall b: Block :: Fetch(mem, b) == Fetch(old(mem), b)
    {
      var blk := GetBlock(addr);
      if blk !in mem {
        var fresh_ := GenerateCacheline(addr);
        mem := mem[blk := fresh_];
      }
      line := mem[blk];
    }

    /** `write_line` */
    method WriteLine(addr: PAddr, data: Line)
      modifies this
      ensures mem == old(mem)[GetBlock(addr) := data]
      ensures forall b: Block :: Fetch(mem, b) == if b == GetBlock(addr) then data else Fetch(old(mem), b)
    {
      mem := mem[GetBlock(addr) := data];
    }

    /** One accepted request: a write-back is absorbed at once; a read captures the line
        it will be answered with. */
    method Accept(isWrite: bool, addr: PAddr, data: Line) returns (line: Line)
      modifies this
      ensures isWrite ==> line == data && mem == old(mem)[GetBlock(addr) := data]
      ensures !isWrite ==> line == Fetch(old(mem), GetBlock(addr)) && mem == old(mem)[GetBlock(addr) := line]
    {
      if isWrite {
        WriteLine(addr, data);
        line := data;
      } else {
        line := ReadLine(addr);
      }
    }

    /** The traffic of one cache miss: the dirty victim, if any, then the missed block. */
    method ServeMiss(addr: PAddr, writeBack: bool, victim: Block, data: Line) returns (line: Line)
      modifies this
      ensures (mem, line) == Missed(old(mem), addr, writeBack, victim, data)
    {
      if writeBack {
        assert GetBlock(WordAddr(victim, 0)) == victim;
        var _ := Accept(true, WordAddr(victim, 0), data);
      }
      line := Accept(false, addr, data);
    }
  }
}
