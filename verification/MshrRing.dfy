/** The circular queue behind each MSHR, clock by clock, and the FIFO it stands for. */
module MshrRing {
  import opened L1DTypes
  import opened Powers

  datatype RtlEntry = RtlEntry(paddr: PAddr, noOffsetAddr: Block, we: bool, data: Word, tag: nat, valid: bool)

  datatype Command = Command(enqueue: bool, dequeue: bool, entry: RtlEntry)

  /** A bounded FIFO: pops if asked and not empty, appends if asked and not full. */
  function Fifo(c: seq<RtlEntry>, cmd: Command, size: nat): seq<RtlEntry> {
    (if cmd.dequeue && c != [] then c[1..] else c) + (if cmd.enqueue && |c| < size then [cmd.entry] else [])
  }

  /** Both halves of a command take effect in the same cycle. */
  predicate Clashes(c: seq<RtlEntry>, cmd: Command, size: nat) {
    cmd.enqueue && |c| < size && cmd.dequeue && c != []
  }

  /** The ring's contents: the dequeue's size update wins over the enqueue's. */
  function Ring(c: seq<RtlEntry>, cmd: Command, size: nat): seq<RtlEntry> {
    if cmd.dequeue && c != [] then c[1..]
    else if cmd.enqueue && |c| < size then c + [cmd.entry]
    else c
  }

  /** The head update: an increment masked to `$clog2(size)` bits. */
  function NextHead(head: nat, size: nat): nat
    requires size > 0
  {
    (head + 1) % Pow2(Clog2(size))
  }

  /** The slot `i` places after the head. */
  function SlotAt(head: nat, i: nat, n: nat): (s: nat)
    requires head < n && i <= n
    ensures s < n
  {
    if head + i < n then head + i else head + i - n
  }

  lemma WrapsOnce(head: nat, i: nat, n: nat)
    requires head < n && i <= n
    ensures (head + i) % n == SlotAt(head, i, n)
  {
    if head + i >= n {
      assert head + i == n + (head + i - n);
    }
  }

  /** The masked increment steps round the ring exactly for power-of-two sizes. */
  lemma MaskIsModulo(size: nat)
    requires size > 0
    ensures (forall h: nat :: h < size ==> NextHead(h, size) == SlotAt(h, 1, size)) <==> Pow2(Clog2(size)) == size
  {
    if Pow2(Clog2(size)) == size {
      forall h: nat | h < size ensures NextHead(h, size) == SlotAt(h, 1, size) {
        WrapsOnce(h, 1, size);
      }
    } else {
      WrapsOnce(0, size, Pow2(Clog2(size)));
      assert NextHead(size - 1, size) == size != SlotAt(size - 1, 1, size);
    }
  }

  class MshrQueue {
    const queue: array<RtlEntry>
    var head: nat
    var size: nat

    ghost predicate Valid()
      reads this
    {
      queue.Length > 0 && Pow2(Clog2(queue.Length)) == queue.Length && head < queue.Length && size <= queue.Length
    }

    /** Oldest first. */
    ghost function Contents(): (c: seq<RtlEntry>)
      requires Valid()
      reads this, queue
      ensures |c| == size
    {
      seq(size, i requires 0 <= i < size && Valid() reads this, queue => queue[SlotAt(head, i, queue.Length)])
    }

    constructor (queueSize: nat)
      requires queueSize > 0 && Pow2(Clog2(queueSize)) == queueSize
      ensures Valid() && Contents() == [] && queue.Length == queueSize && fresh(queue)
    {
      queue := new RtlEntry[queueSize](i => RtlEntry(0, 0, false, 0, 0, false));
      head, size := 0, 0;
    }

    method Full() returns (full: bool)
      requires Valid()
      ensures full == (|Contents()| == queue.Length)
    {
      full := size == queue.Length;
    }

    method Empty() returns (empty: bool)
      requires Valid()
      ensures empty == (Contents() == [])
    {
      empty := size == 0;
    }

    /** `req_out`: the slot at the head, whether or not the queue is empty. */
    method Front() returns (e: RtlEntry)
      requires Valid()
      ensures Contents() != [] ==> e == Contents()[0]
    {
      e := queue[head];
    }

    /** One clock edge. */
    method Clock(cmd: Command)
      requires Valid()
      modifies this, queue
      ensures Valid() && Contents() == Ring(old(Contents()), cmd, queue.Length)
    {
      var full, empty := size == queue.Length, size == 0;
      var nextSize, nextHead := size, head;
      ghost var c := Contents();
      if cmd.enqueue && !full {
        WrapsOnce(head, size, queue.Length);
        queue[(head + size) % queue.Length] := cmd.entry;
        nextSize := size + 1;
        assert Contents() == c;
      }
      if cmd.dequeue && !empty {
        nextSize := size - 1;
        nextHead := NextHead(head, queue.Length);
        MaskIsModulo(queue.Length);
      }
      head, size := nextHead, nextSize;
    }
  }

  /**
   * Exactly when a clock edge does what a FIFO does: unless an enqueue and a dequeue
   * both take effect. Then the new entry, and nothing else, is lost, although section 9.9 of the L1D
   * design document says it is kept.
   */
  lemma RingIsFifoExact(c: seq<RtlEntry>, cmd: Command, size: nat)
    ensures Ring(c, cmd, size) == Fifo(c, cmd, size) <==> !Clashes(c, cmd, size)
    ensures Clashes(c, cmd, size) ==> Fifo(c, cmd, size) == Ring(c, cmd, size) + [cmd.entry]
  {
    if Clashes(c, cmd, size) {
      assert |Fifo(c, cmd, size)| == |Ring(c, cmd, size)| + 1;
    }
  }

  /** A queue of one entry that is enqueued to and dequeued from ends up empty. */
  lemma ClashLosesEntry(old_: RtlEntry, new_: RtlEntry, size: nat)
    requires size > 1
    ensures Ring([old_], Command(true, true, new_), size) == []
    ensures Fifo([old_], Command(true, true, new_), size) == [new_]
  {
    assert [old_][1..] + [new_] == [new_];
  }

  function RingRun(cmds: seq<Command>, size: nat): (c: seq<RtlEntry>)
    ensures |c| <= size
  {
    if cmds == [] then [] else Ring(RingRun(cmds[..|cmds| - 1], size), cmds[|cmds| - 1], size)
  }

  function FifoRun(cmds: seq<Command>, size: nat): (c: seq<RtlEntry>) {
    if cmds == [] then [] else Fifo(FifoRun(cmds[..|cmds| - 1], size), cmds[|cmds| - 1], size)
  }

  /** Over every run that never asks for both in one cycle the ring is the FIFO. */
  lemma {:induction false} RingRefinesFifo(cmds: seq<Command>, size: nat)
    requires forall k :: 0 <= k < |cmds| ==> !(cmds[k].enqueue && cmds[k].dequeue)
    ensures RingRun(cmds, size) == FifoRun(cmds, size)
  {
    if cmds == [] {
    } else {
      RingRefinesFifo(cmds[..|cmds| - 1], size);
      RingIsFifoExact(RingRun(cmds[..|cmds| - 1], size), cmds[|cmds| - 1], size);
    }
  }

  /** The ring object follows its run from reset. */
  method Drive(cmds: seq<Command>, queueSize: nat) returns (q: MshrQueue)
    requires queueSize > 0 && Pow2(Clog2(queueSize)) == queueSize
    ensures q.Valid() && q.queue.Length == queueSize && q.Contents() == RingRun(cmds, queueSize)
  {
    q := new MshrQueue(queueSize);
    var i := 0;
    while i < |cmds|
      invariant 0 <= i <= |cmds| && fresh(q) && fresh(q.queue)
      invariant q.Valid() && q.queue.Length == queueSize && q.Contents() == RingRun(cmds[..i], queueSize)
    {
      assert cmds[..i + 1][..i] == cmds[..i];
      q.Clock(cmds[i]);
      i := i + 1;
    }
    assert cmds[..i] == cmds;
  }
}
