/** Geometry, address helpers and record types of the L1 data cache golden model. */
module L1DTypes {

  const WAYS: nat := 3
  const SETS: nat := 8
  const WORDS: nat := 8
  const MSHRS: nat := 2
  const MSHR_QUEUE_SIZE: nat := 16

  /** A `uint64_t`. */
  type Word = w: int | 0 <= w < 0x1_0000_0000_0000_0000

  /** A physical byte address after masking to 22 bits. */
  type PAddr = a: int | 0 <= a < 0x40_0000

  /** A block address: a physical address without its 6 offset bits. */
  type Block = b: int | 0 <= b < 0x1_0000

  /** A cache line of eight words. */
  type Line = l: seq<Word> | |l| == 8 witness [0, 0, 0, 0, 0, 0, 0, 0]

  function GetTag(addr: nat): nat { addr / 512 % 8192 }

  function GetSet(addr: nat): nat { addr / 64 % 8 }

  function GetWord(addr: nat): nat { addr / 8 % 8 }

  function GetBlock(addr: PAddr): Block { addr / 64 }

  /** `addr & ~0x7` */
  function Align(addr: nat): nat { addr - addr % 8 }

  predicate Aligned(addr: nat) { addr % 8 == 0 }

  /** The block address made of a tag and a set index: `tag << 3 | set`. */
  function BlockOf(tag: nat, set_: nat): Block
    requires tag < 8192 && set_ < 8
  {
    tag * 8 + set_
  }

  /** Byte address of word `i` of block `b`. */
  function WordAddr(b: Block, i: nat): PAddr
    requires i < 8
  {
    b * 64 + i * 8
  }

  datatype Slot = Slot(way: nat, set_: nat)

  datatype TagEntry = TagEntry(valid: bool, dirty: bool, tag: nat)

  /** One way of one set: its tag entry together with its line. */
  datatype Cell = Cell(valid: bool, dirty: bool, tag: nat, data: Line)

  datatype MshrEntry = MshrEntry(paddr: PAddr, blockAddr: Block, we: bool, data: Word, procTag: nat)

  /** An MSHR is active while its queue is not empty. */
  datatype Mshr = Mshr(entries: seq<MshrEntry>, victimWay: nat)

  datatype Completion = Completion(tag: nat, data: Word, isWrite: bool)

  datatype Request = Request(addr: PAddr, data: Word, tag: nat, we: bool)

  /** (tag, set) and block address determine each other, and a block and a word
      index determine the aligned address. */
  lemma AddressFields(addr: PAddr)
    ensures GetTag(addr) < 8192 && GetSet(addr) < 8 && GetWord(addr) < 8
    ensures BlockOf(GetTag(addr), GetSet(addr)) == GetBlock(addr)
    ensures Align(addr) == WordAddr(GetBlock(addr), GetWord(addr))
  {
    var q := addr / 64;
    assert addr / 512 == q / 8;
    assert addr / 8 / 8 == q;
  }

  lemma BlockFields(tag: nat, set_: nat)
    requires tag < 8192 && set_ < 8
    ensures BlockOf(tag, set_) / 8 == tag && BlockOf(tag, set_) % 8 == set_
  {
  }

  function TagOf(b: Block): (t: nat)
    ensures t < 8192
  {
    b / 8
  }

  function SetOf(b: Block): (s: nat)
    ensures s < 8
  {
    b % 8
  }

  /** Splitting a block address back into its tag and set, as a fill does. */
  lemma FillFields(b: Block)
    ensures GetTag(b * 64 % 0x1_0000_0000) == TagOf(b) && GetSet(b * 64 % 0x1_0000_0000) == SetOf(b)
    ensures BlockOf(TagOf(b), SetOf(b)) == b
  {
    assert b * 64 % 0x1_0000_0000 == b * 64;
    assert b * 64 / 64 == b;
    assert b * 64 / 512 == b / 8;
  }

  /** Word addresses are injective. */
  lemma WordAddrInjective(b: Block, i: nat, c: Block, j: nat)
    requires i < 8 && j < 8
    requires WordAddr(b, i) == WordAddr(c, j)
    ensures b == c && i == j
  {
  }
}
