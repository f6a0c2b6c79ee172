/** What playing an MSHR queue onto a line means for forwarding and for the flat map. */
module Playback {
  import opened L1DTypes
  import opened GoldenSpec

  /** All entries are aligned accesses to block `b`. */
  ghost predicate OneBlock(es: seq<MshrEntry>, b: Block) {
    forall k :: 0 <= k < |es| ==>
      es[k].blockAddr == b && GetBlock(es[k].paddr) == b && Aligned(es[k].paddr)
  }

  ghost predicate StoresWord(es: seq<MshrEntry>, word: nat) {
    exists k :: 0 <= k < |es| && es[k].we && GetWord(es[k].paddr) == word
  }

  lemma StoresWordLast(es: seq<MshrEntry>, word: nat)
    requires es != []
    ensures var e := es[|es| - 1];
      StoresWord(es, word) == (StoresWord(es[..|es| - 1], word) || (e.we && GetWord(e.paddr) == word))
  {
    var es' := es[..|es| - 1];
    if StoresWord(es', word) {
      var k :| 0 <= k < |es'| && es'[k].we && GetWord(es'[k].paddr) == word;
      assert es[k].we;
    }
    if es[|es| - 1].we && GetWord(es[|es| - 1].paddr) == word {
      assert es[|es| - 1].we;
    }
  }

  /** Within one block an aligned address is its word. */
  lemma AlignedWord(b: Block, p: PAddr, a: PAddr)
    requires GetBlock(p) == b && GetBlock(a) == b && Aligned(p) && Aligned(a)
    ensures p == a <==> GetWord(p) == GetWord(a)
  {
    AddressFields(p);
    AddressFields(a);
  }

  /**
   * Forwarding agrees with playback. The backward scan returns what the word would
   * hold after the whole queue is played onto any line; and it finds nothing exactly
   * when the queue leaves that word of every line alone.
   */
  lemma {:induction false} ForwardIsPlayback(line: Line, es: seq<MshrEntry>, b: Block, addr: PAddr)
    requires OneBlock(es, b) && GetBlock(addr) == b && Aligned(addr)
    ensures GetWord(addr) < 8
    ensures match ForwardScan(es, addr)
      case Some(v) => StoresWord(es, GetWord(addr)) && Play(line, es)[GetWord(addr)] == v
      case None => !StoresWord(es, GetWord(addr)) && Play(line, es)[GetWord(addr)] == line[GetWord(addr)]
  {
    AddressFields(addr);
    if es == [] {
    } else {
      var es', e := es[..|es| - 1], es[|es| - 1];
      assert OneBlock(es', b);
      ForwardIsPlayback(line, es', b, addr);
      StoresWordLast(es, GetWord(addr));
      AlignedWord(b, e.paddr, addr);
      AddressFields(e.paddr);
    }
  }

  /** The data of the youngest waiting store to a word. */
  function YoungestStore(es: seq<MshrEntry>, word: nat): Option<Word> {
    if es == [] then None
    else
      var last := es[|es| - 1];
      if last.we && GetWord(last.paddr) == word then Some(last.data)
      else YoungestStore(es[..|es| - 1], word)
  }

  /** Playback leaves in a word what the youngest store to it carries. */
  lemma {:induction false} PlayIsYoungest(line: Line, es: seq<MshrEntry>, word: nat)
    requires word < 8
    ensures Play(line, es)[word] == match YoungestStore(es, word)
      case Some(v) => v
      case None => line[word]
  {
    if es == [] {
    } else {
      PlayIsYoungest(line, es[..|es| - 1], word);
    }
  }

  /** A forwarded load has some waiting store to its word. */
  lemma {:induction false} ForwardedWordStored(es: seq<MshrEntry>, addr: PAddr)
    ensures ForwardScan(es, addr).Some? ==> YoungestStore(es, GetWord(addr)).Some?
  {
    if es == [] {
    } else {
      ForwardedWordStored(es[..|es| - 1], addr);
    }
  }

  /**
   * Forwarding at any byte addresses. A forwarded value is the word that playback onto any
   * line leaves if and only if the youngest waiting store to that word, at whichever of its
   * bytes, carries the same data.
   */
  lemma ForwardExact(line: Line, es: seq<MshrEntry>, addr: PAddr)
    requires ForwardScan(es, addr).Some?
    ensures GetWord(addr) < 8 && YoungestStore(es, GetWord(addr)).Some?
    ensures Play(line, es)[GetWord(addr)] == ForwardScan(es, addr).value <==>
      YoungestStore(es, GetWord(addr)).value == ForwardScan(es, addr).value
  {
    AddressFields(addr);
    ForwardedWordStored(es, addr);
    PlayIsYoungest(line, es, GetWord(addr));
  }

  /**
   * Playback writes a word of the flat map exactly when some store of the queue
   * targets it, and leaves there what the played line holds.
   */
  lemma {:induction false} PlayLegacyReads(legacy: map<Word, Word>, line: Line, es: seq<MshrEntry>, b: Block, a: Word)
    requires OneBlock(es, b) && Aligned(a)
    ensures MemRead(PlayLegacy(legacy, es), a) ==
      if a < 0x40_0000 && GetBlock(a) == b && StoresWord(es, GetWord(a)) then Play(line, es)[GetWord(a)]
      else MemRead(legacy, a)
  {
    if es == [] {
    } else {
      var es', e := es[..|es| - 1], es[|es| - 1];
      assert OneBlock(es', b);
      PlayLegacyReads(legacy, line, es', b, a);
      AddressFields(e.paddr);
      if a < 0x40_0000 && GetBlock(a) == b {
        AddressFields(a);
        StoresWordLast(es, GetWord(a));
        AlignedWord(b, e.paddr, a);
      }
    }
  }

  /** Writing a line back changes the flat map only inside its block, to the line's words. */
  lemma {:induction false} WriteBackReads(legacy: map<Word, Word>, b: Block, line: Line, n: nat, a: Word)
    requires n <= WORDS && Aligned(a)
    ensures MemRead(WriteBack(legacy, b, line, n), a) ==
      if a < 0x40_0000 && GetBlock(a) == b && GetWord(a) < n then line[GetWord(a)] else MemRead(legacy, a)
  {
    if a < 0x40_0000 { AddressFields(a); }
    if n == 0 {
    } else {
      WriteBackReads(legacy, b, line, n - 1, a);
      if a < 0x40_0000 {
        assert a == WordAddr(b, n - 1) <==> GetBlock(a) == b && GetWord(a) == n - 1 by {
          if a == WordAddr(b, n - 1) {
            WordAddrInjective(GetBlock(a), GetWord(a), b, n - 1);
          }
        }
      }
    }
  }

  /** Playback splits at any entry. */
  lemma PlaySnoc(line: Line, es: seq<MshrEntry>, e: MshrEntry)
    ensures GetWord(e.paddr) < 8
    ensures Play(line, es + [e]) == if e.we then Play(line, es)[GetWord(e.paddr) := e.data] else Play(line, es)
  {
    assert (es + [e])[..|es|] == es;
  }

  /** The k-th completion of a fill answers the k-th entry against the line played so far. */
  lemma {:induction false} AnswersAt(line: Line, es: seq<MshrEntry>)
    ensures |Answers(line, es)| == |es|
    ensures forall k :: 0 <= k < |es| ==> Answers(line, es)[k] == Answer(Play(line, es[..k]), es[k])
  {
    if es == [] {
    } else {
      var es' := es[..|es| - 1];
      AnswersAt(line, es');
      forall k | 0 <= k < |es'| ensures es'[..k] == es[..k] {
      }
    }
  }
}
