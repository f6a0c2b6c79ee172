# Verified model of the memory system and floating-point units

This project models the parts of the processor whose correctness rests on state kept over
many cycles, and proves what they are for. Every module is one `.dfy` file of the same
name; `dafny verify dfyconfig.toml` checks them all.

## The non-blocking L1 data cache

`GoldenSpec` is the golden model of `uvm/ref_model.cpp` as a function from state to state,
and `GoldenModel.L1DModel` the program itself: tag, data and PLRU arrays, two MSHR queues,
the completion queue and the flat map, changed in place. Each method is proved equal to its
function from any state, including the paths that drop a request and the fill that matches
no MSHR.

`FlatMemory` is the simple thing the cache must agree with: a word memory in which the
requests happen one after another. `GoldenRuns` defines runs of requests, fills and
completion pops of any length, with a history that says which completion answers which
request. `Linearisation` proves that in every legal run each completion, whether from a
hit, forwarded out of an MSHR or played back on a fill, carries what the flat memory held
when its request was made. `GoldenResults` draws the consequences (flat-map agreement,
conservation, progress) and shows where each hypothesis is needed.

What the surroundings must guarantee, and the code relies on:

- addresses are aligned to eight bytes, as section 9.8 of the L1D design document demands;
  forwarding compares byte addresses, `Playback.ForwardExact` says exactly when a forwarded
  value is right all the same, and `UnalignedForwardIsStale` is a run in which it is not;
- a request arrives only when the model has room for it (section 7.1 of the same document): its
  block is cached, or an MSHR waits for the block and holds fewer than 16 requests or a store to
  the word of this load, or no MSHR waits for it and one is inactive; `DropExact` says a request
  is lost exactly otherwise;
- a fill matches an active MSHR; `UnmatchedFillExact` says exactly when any other fill leaves
  the cache right, and `UnmatchedFill` exactly when it does no harm beside the backing store
  either, to which the line it replaces is not written back;
- its line is the block's flat contents as of the primary miss.

`Replacement` says which way a miss replaces in terms of the hits and fills that went before,
and `DirtyLines` which lines are dirty in terms of the requests made.

`ClosedSystem` removes the last hypothesis. It composes the cache with the backing store of
`uvm/llc_responder.sv`, which captures a line when the miss asks for it and absorbs dirty
evictions, and proves that the composition is the flat memory in every run in which no fill
lands on a dirty line the store lacks; `FillExact` shows that condition to be exact.
`ClosedRuns` replaces it by a condition on requests alone, that no primary miss picks a
slot another MSHR waits to fill, and gives a run from reset that loses a store without it.
`BackingStore` has the responder as a class.

`MshrRing` is the hardware's circular MSHR queue clock by clock, against a bounded FIFO.
`RtlPlayback` is state CLEAR_MSHR of the hardware cycle by cycle, proved to do what the
golden playback loop does, and `HardwareFill` joins it to the run invariant: in any run the
hardware's playback answers are the flat memory's.

## Floating point

`ShiftAdd`, `FpMult` and `FpMultFsm` are the multiplier of `src/fpu/fpmult.sv` for any
significand width P >= 3: the shift-and-add product, normalisation, rounding in four modes
and renormalisation, first as a datapath and then as the two clocked state machines with
their step counter, whose truncations decide for which widths the machines work.
`Rounding` defines correct rounding (IEEE 754-2019, section 4.3) against all representable
numbers, with no reference to a method of computing it. `FpSubnormal` and `FpSubnormalResult`
follow results below the normal range through states 0011 to 0110, and say exactly which of
them come out right. `FpOutput` is the upper end of the range, where results overflow, and
rounding in terms of the mode number and the sign. `FpDoublePrecision` is what the machines make of P = 53.
`ResultRounder` is the adder's rounding unit.

## Smaller units

`Lru` proves the replacement counters of the cache simulators to be true recency order.
`LsuQueue` is the load/store queue's ring order and its search for a store to forward from.
`DramBanks` is the bank tracker together with the scheduler's command selection, and
`DramIssue` says which command is issued when, and how far apart reads and writes are.

## Where the code differs from what one would expect

- Section 9.9 of the L1D design document says an MSHR queue keeps its size when an entry is
  enqueued and another dequeued in one cycle. In the code the dequeue's size wins and the
  new entry is lost (`MshrRing.RingIsFifoExact`). The controller never asks for both.
- Two misses in one set can reserve the same way, and the second fill then overwrites the
  first's dirty line (`ClosedRuns.SharedSlotLosesStore`).
- A rounding carry recomputes the multiplier's exponent from the operands' and so forgets a
  normalising shift, which only a subnormal operand can cause (`FpMult.CarryForgetsShift`).
- Results below the normal range can be wrong in five ways, each with an input
  (`FpSubnormalResult.SubnormalResultExact` says exactly which results are right). A product
  with its top bit set can lose its guard bit (`FpSubnormalResult.GuardForgotten`). At exponent
  -P such a product is shifted out although the top bit has raised it
  (`FpSubnormalResult.LimitForgotten`). Rounding up to the smallest normal number writes zero
  (`FpSubnormalResult.SmallestNormalLost`). An exponent that a subnormal operand has taken very
  low is left unshifted or taken for an overflow (`FpSubnormalResult.TinyBecomesInfinite`). And
  at some widths the distance to shift by does not fit its register
  (`FpSubnormalResult.DistanceForgotten`).
- The multiplier's step counter has $clog2(P+1) bits and is compared with P + 1 and P + 2 cut to
  four bits. Both hold P + 2 only for P = 4, 5 and 8 to 13 (`FpMultFsm.MachineExact`,
  `FpMultFsm.FittingWidths`), which leaves out the width 53 of the one instance in
  `src/backend/backend.sv:270-273`. There the multiplication stops after five steps, and one
  times one is about to be written as two (`FpDoublePrecision.OneTimesOneIsTwo`).
- A fill that matches no MSHR can replace a dirty line that the backing store lacks
  (`UnmatchedFill.StrayFillLosesStore` is a run from reset that does), and one for a block
  address beyond 16 bits is taken for a lower block (`UnmatchedFill.WideFillExact`).
- `is_older` counts every other slot as older than the head (`LsuQueue.Queue.IsOlder`); the
  forwarding scan never asks it about the head. `is_younger` counts the head of a full ring
  as the youngest slot (`LsuQueue.YoungerInFullRing`).
- The scheduler's row test does not ask whether the bank is active, so a bank that a refresh
  has closed is still read at its old row (`DramBanks.RefreshedRowIsRead`;
  `DramBanks.ColumnAccessExact` says exactly when an access reaches an open row).
- The gap between reads is open in the first four cycles after reset, where the difference it
  compares with wraps below zero: two reads can follow each other at once
  (`DramIssue.EarlyReads`; `DramIssue.ReadSpacingExact` says when). The gap between writes is open
  after a write in the last four values of the cycle counter
  (`DramIssue.WriteSpacingExact`). A read turn counts as a read even if no bank can take one
  (`DramIssue.TimersExact`).

## Model

| member | source | states |
|---|---|---|
| `L1DTypes.AddressFields` | uvm/ref_model.cpp:27-38 | the fields of a 22-bit address are in range, and tag, set and word rebuild its block address and its aligned address |
| `L1DTypes.BlockFields` | uvm/ref_model.cpp:252-253 | tag and set are recovered from the block address built of them, so the pair and the block determine each other |
| `L1DTypes.FillFields` | uvm/ref_model.cpp:302-304 | the tag and set a fill computes from its block address through a 32-bit shift name exactly that block |
| `L1DTypes.WordAddrInjective` | uvm/ref_model.cpp:252-258 | block and word index are determined by the word's byte address |
| `FlatMemory.FlatLineAfter` | uvm/ref_model.cpp:172 | a request changes one word of its own block in the flat memory if it is a store, and nothing else |
| `GoldenSpec.Lookup` | uvm/ref_model.cpp:109-115 | the lowest valid way of the set that holds the tag, -1 exactly if there is none |
| `GoldenSpec.FindMshr` | uvm/ref_model.cpp:193-199 | the first active MSHR that tracks the block, -1 exactly if none does |
| `GoldenSpec.FreeMshr` | uvm/ref_model.cpp:231-234 | the first inactive MSHR, -1 exactly if all are active |
| `GoldenModel.L1DModel.ResetModel` | uvm/ref_model.cpp:147-157 | after a reset the arrays, queues and flat map are the initial state, from any state |
| `GoldenModel.L1DModel.CacheLookup` | uvm/ref_model.cpp:109-115 | the loop over ways finds the way `Lookup` names |
| `GoldenModel.L1DModel.ScanForStore` | uvm/ref_model.cpp:214-220 | the backward loop returns the youngest waiting store to exactly this address, or none |
| `GoldenModel.L1DModel.PlruTouch` | uvm/ref_model.cpp:92-96 | one set's PLRU bits change as the update says and nothing else does |
| `GoldenModel.L1DModel.InstallLine` | uvm/ref_model.cpp:131-139 | the slot holds the new line with its flags, every other slot is unchanged, and the set's PLRU bits are updated |
| `GoldenModel.L1DModel.WriteVictimBack` | uvm/ref_model.cpp:252-258 | the loop copies all eight words of the victim to the flat map and changes nothing else |
| `GoldenModel.L1DModel.ServeSecondary` | uvm/ref_model.cpp:201-228 | a miss on a tracked block forwards, joins the queue or is dropped, with the return value and whole state of the abstract step |
| `GoldenModel.L1DModel.AllocateMshr` | uvm/ref_model.cpp:230-268 | eviction, invalidation and enqueueing together are the abstract primary miss |
| `GoldenModel.L1DModel.DoRequest` | uvm/ref_model.cpp:160-269 | from any state and for any integer arguments the in-place request ends in the abstract step's whole state with its return value |
| `GoldenModel.L1DModel.Fill` | uvm/ref_model.cpp:272-333 | the in-place fill, matched or not, with its playback loop, ends in the abstract fill's whole state and returns its count |
| `GoldenModel.PlayedOneMore` | uvm/ref_model.cpp:311-330 | popping the front entry and applying it to the cached line moves the partly played state on by exactly one entry |
| `GoldenModel.L1DModel.PopCompletion` | uvm/ref_model.cpp:336-344 | the oldest completion is returned and removed; an empty queue is reported and left alone |
| `GoldenModel.L1DModel.ReadMem` | uvm/ref_model.cpp:358-363 | the flat map's word at the aligned address, or the aligned address if there is none |
| `GoldenReplay.DecodeExact` | uvm/ref_model.cpp:160-164 | the signed 64-bit data argument stands for the word 2^64 above it if negative, the address loses all but its low 22 bits, the tag all but ten, and any non-zero flag is a store |
| `GoldenReplay.Replay` | uvm/ref_model.cpp:147-344 | the program fed with a legal sequence of requests, fills and pops ends in the run's state, and its flat map then reads as the flat memory of the requests |
| `Playback.ForwardIsPlayback` | uvm/ref_model.cpp:212-227 | the forwarded value is what the word holds after the whole queue is played onto any line; nothing is forwarded exactly when the queue leaves that word alone |
| `Playback.ForwardExact` | uvm/ref_model.cpp:212-220 | at any byte addresses a forwarded value is the played-back word if and only if the youngest waiting store to that word carries the same data |
| `Playback.PlayLegacyReads` | uvm/ref_model.cpp:311-323 | playback changes the flat map exactly at the words the queue stores to, and leaves there what the played line holds |
| `Playback.WriteBackReads` | uvm/ref_model.cpp:255-258 | a write-back changes the flat map only inside its block, to the words of the line |
| `Playback.AnswersAt` | uvm/ref_model.cpp:311-330 | the k-th completion of a fill answers the k-th entry against the line with the entries before it applied |
| `Linearisation.Linearised` | uvm/ref_model.cpp:160-344 | in every legal run every completion ever queued answers its request with the flat memory's value at that request; cached lines, queues and flat map stay consistent with the flat memory; the structural invariant and conservation hold |
| `Linearisation.StepKeeps` | uvm/ref_model.cpp:160-344 | every legal request, fill and pop keeps the whole run invariant |
| `Linearisation.ForwardKeeps` | uvm/ref_model.cpp:212-219 | a load forwarded out of an MSHR gets the flat memory's value and keeps the run invariant |
| `Linearisation.PrimaryKeeps` | uvm/ref_model.cpp:230-268 | a primary miss, with its eviction, keeps the run invariant |
| `Linearisation.EvictionInvisible` | uvm/ref_model.cpp:247-259 | writing back a line that holds its block's flat contents changes no flat-map read |
| `Linearisation.PlaybackInvisible` | uvm/ref_model.cpp:309-330 | a whole playback changes no flat-map read, although it rewrites older stores first |
| `Linearisation.PlaybackAnswers` | uvm/ref_model.cpp:309-330 | each completion of a fill carries the flat value as of its own request |
| `Linearisation.FillKeeps` | uvm/ref_model.cpp:272-333 | a matched fill with the block's contents as of the primary miss keeps the run invariant |
| `GoldenResults.CompletionsReadFlatMemory` | uvm/ref_model.cpp:160-333 | each completion in a legal run belongs to one request and no other completion does; it has that request's tag and kind and, for a load, the flat memory's value when the load was requested |
| `GoldenResults.FlatMapAgrees` | uvm/ref_model.cpp:358-363 | after any legal run the flat map reads at every aligned address as the most recent store in request order, or as the address itself |
| `GoldenResults.FlatMapUndisturbed` | uvm/ref_model.cpp:247-259 | no legal fill and no load, with the eviction it may cause, changes any flat-map read |
| `GoldenResults.TagsConserved` | uvm/ref_model.cpp:160-333 | in every legal run the multiset of requested tags is that of completed tags plus that of waiting tags |
| `GoldenResults.ReturnsCount` | uvm/ref_model.cpp:160-333 | in every state a request returns 1 exactly when it queued one completion, and a fill returns the number it queued; older completions stay in front |
| `GoldenResults.DropExact` | uvm/ref_model.cpp:207-239 | in every state of the run invariant the next aligned request is accounted for if and only if its block is cached, or an MSHR tracks it and holds fewer than 16 requests or a store to the word of this load, or none tracks it and one is inactive; a lost store reaches the flat map all the same and a lost request changes nothing else |
| `GoldenResults.AnsweredAtOnceExact` | uvm/ref_model.cpp:176-219 | a request is answered at once if and only if its block is cached or it is a load whose word has a waiting store |
| `Linearisation.RoomIsRoute` | uvm/ref_model.cpp:201-239 | in every such state a request is dropped if and only if the model has no room for it, stated without the search or the scan |
| `GoldenResults.FillCompletesQueue` | uvm/ref_model.cpp:281-332 | the fill an active MSHR waits for is legal, completes exactly its requests, oldest first, and strictly lowers the number outstanding |
| `GoldenResults.DrainWorks` | uvm/ref_model.cpp:281-332 | from any state of the invariant one legal fill for each active MSHR leaves every MSHR idle |
| `GoldenResults.EverythingCompletes` | uvm/ref_model.cpp:281-332 | after any legal run at most two legal fills complete every request made, each once |
| `GoldenResults.UnmatchedFillExact` | uvm/ref_model.cpp:289-298 | a fill that matches no MSHR keeps the run invariant, which is about the cache and the flat map alone, if and only if its line is the block's flat contents and no way but the victim holds the block |
| `UnmatchedFill.UnmatchedSystemExact` | uvm/ref_model.cpp:289-298 | such a fill keeps the invariant of cache and backing store together if and only if besides that the victim is not a dirty line the store lacks |
| `UnmatchedFill.UnmatchedContentExact` | uvm/ref_model.cpp:289-298 | such a fill leaves every block's content right at once if and only if its line is right or hidden behind a lower way's, and the victim is not another block's dirty line the store lacks |
| `UnmatchedFill.DiscardLosesBlock` | uvm/ref_model.cpp:289-298 | with the right line, a block not cached and such a victim the run invariant survives and the victim's block is lost |
| `UnmatchedFill.StrayFillLosesStore` | uvm/ref_model.cpp:289-298 | a run from reset that comes to this: three stores to blocks of one set are filled in turn, and an unmatched fill of a fourth block, with the right line, loses the first store |
| `UnmatchedFill.WideFillExact` | uvm/ref_model.cpp:272-298 | a fill for a block address beyond 16 bits is taken for a lower block, and does no harm if and only if no MSHR waits for that block and the conditions on an unmatched fill hold of it |
| `GoldenResults.UnalignedForwardIsStale` | uvm/ref_model.cpp:214-220 | a concrete run in which a load is forwarded a value the flat memory no longer holds, because addresses are not aligned |
| `Replacement.BitsFollowUse` | uvm/ref_model.cpp:85-96 | in every legal run a set's PLRU bits are those of the ways hit or filled since all three last had been |
| `Replacement.VictimIsLowestUnused` | uvm/ref_model.cpp:85-96 | in every legal run the next victim of a set is its lowest way not hit or filled since all three last had been |
| `Replacement.MissReplacesLowestUnused` | uvm/ref_model.cpp:243-268 | in every legal run a primary miss empties that way of its set and reserves it for its fill, and touches no other way |
| `Replacement.UsedIsNotNext` | uvm/ref_model.cpp:92-96 | the way just hit or filled is not the next victim; a request that does not hit leaves every set's next victim as it was |
| `Replacement.UnmatchedUsesVictim` | uvm/ref_model.cpp:289-298 | a fill that matches no MSHR goes to that way too, as a clean line, counts as its use and changes nothing else |
| `DirtyLines.DirtyExact` | uvm/ref_model.cpp:174-333 | in every legal run a cached line is dirty if and only if its block has been stored to since the request that last found it neither cached nor waited for, that one included; a waiting queue holds a store under the same condition |
| `BackingStore.LlcResponder.GenerateCacheline` | uvm/llc_responder.sv:36-43 | every word of a generated line is its own byte address |
| `BackingStore.LlcResponder.ReadLine` | uvm/llc_responder.sv:46-51 | reading returns the stored or generated line and changes what no block reads as |
| `BackingStore.LlcResponder.WriteLine` | uvm/llc_responder.sv:54-58 | a write-back replaces one block's line and no other |
| `BackingStore.LlcResponder.Accept` | uvm/llc_responder.sv:73-88 | an accepted write-back is absorbed at once; an accepted read captures the line as it is then |
| `BackingStore.LlcResponder.ServeMiss` | uvm/llc_responder.sv:73-94 | after a miss with its victim's write-back the store and the captured line are those of the closed system's step |
| `ClosedSystem.PrimaryStore` | uvm/llc_responder.sv:92-94 | the closed system's primary miss moves the store, and captures the line, exactly as the responder serves the miss and its victim's write-back |
| `ClosedSystem.InvContent` | uvm/ref_model.cpp:243-330 | the system invariant gives every block's content: the cached line, else the stored line with the waiting stores applied in order, else the stored line |
| `ClosedSystem.FillExact` | uvm/ref_model.cpp:300-330 | in every soundly reached state the whole system agrees with flat memory after a fill if and only if the fill does not land on a dirty line the store lacks |
| `ClosedSystem.OverwriteLoses` | uvm/ref_model.cpp:306-307 | a fill that does land on such a line loses that block's contents |
| `ClosedSystem.SysStepKeeps` | uvm/ref_model.cpp:160-333 | every request, safe fill and pop keeps the system invariant |
| `ClosedSystem.WriteBackSound` | uvm/ref_model.cpp:160-333 | in every run without an overwriting fill, with nothing assumed about fill data, every block's content is its flat contents, clean lines equal the store, and every completion is the flat memory's answer |
| `ClosedRuns.DistinctSlotsSuffice` | uvm/ref_model.cpp:243-307 | if no primary miss picks a slot an active MSHR waits to fill, no fill of the run overwrites anything and the whole of the previous result holds |
| `ClosedRuns.SharedSlotLoses` | uvm/ref_model.cpp:243-307 | whenever two MSHRs wait for one empty slot, the first with a store that changes its word, filling both loses that store |
| `ClosedRuns.SharedSlotLosesStore` | uvm/ref_model.cpp:243-307 | two stores to two blocks of one set, from reset, are such a case: a miss does not advance PLRU, so both reserve way 0 |
| `MshrRing.MaskIsModulo` | mem/src/l1_data_cache.sv:802 | the masked head increment steps round the ring if and only if the size is a power of two |
| `MshrRing.MshrQueue.Clock` | mem/src/l1_data_cache.sv:776-805 | a clock edge on head, size and array moves the contents as the abstract ring step says, through wrap-around |
| `MshrRing.MshrQueue.Front` | mem/src/l1_data_cache.sv:807 | the output is the oldest entry when there is one |
| `MshrRing.MshrQueue.Full` | mem/src/l1_data_cache.sv:808 | full exactly when the contents fill the array |
| `MshrRing.MshrQueue.Empty` | mem/src/l1_data_cache.sv:809 | empty exactly when there are no contents |
| `MshrRing.RingIsFifoExact` | mem/src/l1_data_cache.sv:791-805 | a clock edge does what a bounded FIFO does if and only if an enqueue and a dequeue do not both take effect, and otherwise loses the new entry and nothing else; section 9.9 of the L1D design document promises it for both |
| `MshrRing.ClashLosesEntry` | mem/src/l1_data_cache.sv:796-804 | a queue of one entry that is enqueued to and dequeued from in one cycle ends up empty, where a FIFO would hold the new entry |
| `MshrRing.RingRefinesFifo` | mem/src/l1_data_cache.sv:791-805 | over every run that never asks for both in one cycle the ring is the bounded FIFO |
| `MshrRing.Drive` | mem/src/l1_data_cache.sv:776-805 | the queue object driven from reset holds the contents of the abstract ring run |
| `RtlPlayback.PlaybackUnit.Search` | mem/src/l1_data_cache.sv:446-452 | the loop finds the first non-empty queue whose front is for the fill's block, or none |
| `RtlPlayback.PlaybackUnit.Tick` | mem/src/l1_data_cache.sv:444-487 | one cycle pops one entry, answers it, patches the line register for a store, or hands the line over; the other queues are unchanged |
| `RtlPlayback.PlaybackUnit.PlayBack` | mem/src/l1_data_cache.sv:444-487 | cycling the object gives the outputs and registers of the abstract machine |
| `RtlPlayback.PlaybackRefines` | mem/src/l1_data_cache.sv:444-487 | for the one matching queue the machine emits, one per cycle, the tags, kinds and load values of the golden loop in its order, then hands over the golden loop's final line; no other queue moves |
| `RtlPlayback.ValueOutHolds` | mem/src/l1_data_cache.sv:455-478 | over any number of entries served, a store is answered with the value of the answer before it: it leaves the value output alone |
| `RtlPlayback.StopsAtInvalid` | mem/src/l1_data_cache.sv:453-487 | an invalid entry at the front of the matching queue ends playback with the line as it stands, and is not popped |
| `RtlPlayback.GoldenQueueIsOnly` | uvm/ref_model.cpp:309-330 | when hardware queues hold what golden queues hold, a tracked block has exactly one matching hardware queue |
| `HardwareFill.HardwareFillIsFlat` | mem/src/l1_data_cache.sv:444-487 | in every state of the run invariant a legal fill makes the hardware answer each waiting request with the flat memory's value and hand over the block's flat contents, its queues ending as the golden model's |
| `ShiftAdd.StepSplit` | src/fpu/fpmult.sv:561-573 | the partial sum fits its P + 1 bits, and the step halves the register after adding the multiplicand to its upper half when the low bit is set |
| `ShiftAdd.StepsArePartial` | src/fpu/fpmult.sv:501-511 | after i steps the register holds the product of the low i bits of a with b, above the bits of a still to come |
| `ShiftAdd.ShiftAddMultiplies` | src/fpu/fpmult.sv:501-511 | for every width, P steps leave exactly a * b in 2P bits and no partial sum overflows |
| `FpMult.LeadingZeroCounter` | src/fpu/fpmult.sv:582-599 | the loop's count puts a non-zero vector between the two powers of two it names |
| `FpMult.CapIsLeadingZeros` | src/fpu/fpmult.sv:611-617 | in the normal range the cap does not bite and the stored shift keeps all its bits |
| `FpMult.NormaliseLossless` | src/fpu/fpmult.sv:513-558 | for every cap up to P + 1 the significand with guard, round and sticky bits shows exactly the product shifted up, no bit lost |
| `FpMult.AdjustShowsUnits` | src/fpu/fpmult.sv:240-261 | after adjustment the significand is full width, guard is the first dropped bit, sticky holds exactly when some lower bit is set, and the exponent moved by the same amount |
| `FpMult.RoundDecides` | src/fpu/fpmult.sv:293-329 | in each of the four modes the bits decide as the dropped remainder does |
| `FpMult.MultiplyExact` | src/fpu/fpmult.sv:240-345 | for all operands whose result is not below the normal range and in every mode the significand is the correct rounding of the product; the exponent is right if and only if rounding does not carry after a normalising shift, and otherwise too large by that shift |
| `FpMult.OperandsInRange` | src/fpu/fpmult.sv:52-92 | for all finite operands as the unit decodes them, more than P leading zeros come only from two subnormal ones, at the least exponent, so that every product whose exponent covers its leading zeros is among those |
| `FpMult.CarryNeedsClearTop` | src/fpu/fpmult.sv:330-345 | rounding carries only if the product's top bit was clear |
| `FpMult.BothNormalised` | src/fpu/fpmult.sv:513-558 | two normalised operands never need a normalising shift |
| `FpMult.NormalisedMultiplyCorrect` | src/fpu/fpmult.sv:240-345 | for all P >= 3, normalised operands and results from the smallest normal exponent up, the result is the correct rounding of the exact product in each mode, with exponent adjustment 0 or 1 to match |
| `FpOutput.NormalisedMultiplySigned` | src/fpu/fpmult.sv:293-345 | by mode number and sign: mode 2 gives the largest representable number of either sign not above the signed product, mode 3 the least not below it, mode 1 the one toward zero, and mode 0 the nearest, even in a tie |
| `FpMult.CarryForgetsShift` | src/fpu/fpmult.sv:330-334 | at the default width the product 146 * 112 of a normalised and a subnormal significand has an exponent one too large |
| `FpMultFsm.FpUnit.ClockMultiplier` | src/fpu/fpmult.sv:469-558 | a clock edge on the multiplier's registers, its step counter cut to $clog2(P+1) bits and compared with four-bit constants, is the abstract transition, the control registers unchanged |
| `FpMultFsm.FpUnit.ClockControl` | src/fpu/fpmult.sv:179-345 | a clock edge on the control registers is the abstract transition, the multiplier's unchanged |
| `FpMultFsm.FpUnit.Clock` | src/fpu/fpmult.sv:179-558 | both machines move at once on the registers as they were, the multiplier's `done` among them |
| `FpMultFsm.MachineComputes` | src/fpu/fpmult.sv:179-558 | if the step counter and its constants hold P + 2, then P + 8 edges after start, whatever the operands and whatever the start input does meanwhile, the machines hold the datapath's result |
| `FpMultFsm.DatapathMultiplies` | src/fpu/fpmult.sv:240-345 | for results not below the normal range the datapath, state 0011 included, is the multiplication that rounds correctly |
| `FpMultFsm.MachineComputesMultiply` | src/fpu/fpmult.sv:179-558 | under that condition on the counter the machines multiply |
| `FpMultFsm.MachineExact` | src/fpu/fpmult.sv:447-499 | started once, the machines are about to write the datapath's result after P + 8 edges if and only if the counter fits: otherwise they never finish or have finished too early |
| `FpMultFsm.MachineDelivers` | src/fpu/fpmult.sv:469-499 | for every width whose counter reaches its last step, too early or not, what the machines are about to write DoneStep + 6 edges after start, for all operands: what the datapath makes of the low bits multiplied so far, above the bits still to come |
| `FpMultFsm.CountingWidths` | src/fpu/fpmult.sv:447-499 | the counter reaches its last step exactly for the fitting widths and, from P = 14 on, where the constant cut to four bits is at least 2 |
| `FpDoublePrecision.DoublePrecisionDelivers` | src/fpu/fpmult.sv:469-499 | at P = 53 the machines stop after 5 of 53 steps and are about to write, 13 edges after start, what the datapath makes of that register, for all operands |
| `FpDoublePrecision.OneTimesOneDoubled` | src/fpu/fpmult.sv:469-559 | at every width whose counter stops too early, after at least two steps, one times one comes out as two |
| `FpDoublePrecision.OneTimesOneIsTwo` | src/fpu/fpmult.sv:469-559 | in particular in double precision, where the datapath would make it one |
| `FpMultFsm.FittingWidths` | src/fpu/fpmult.sv:447-449 | the counter fits exactly for P = 4, 5 and 8 to 13 |
| `FpSubnormal.DenormaliseExact` | src/fpu/fpmult.sv:262-292 | for every normalised product that falls below the normal range, after any shift: significand and guard bit are right if and only if the exponent is not taken for an overflow, the distance fits its register, and the product's top bit does not raise it at the limit where all is shifted out; then the sticky bit is right if and only if the old guard bit of a product with its top bit set is not the only bit dropped |
| `FpSubnormal.NormalisedDenormaliseExact` | src/fpu/fpmult.sv:262-292 | for normalised operands the significand is always right, the guard bit if and only if the exponent is not -P with the product's top bit set, and the sticky bit under its own exact condition |
| `FpSubnormal.VectorUnderflows` | src/fpu/fpmult.sv:513-558 | all products whose shift the multiplier reports, at an exponent from the adder's least up to 0, are such a case |
| `FpSubnormalResult.SubnormalWrittenExact` | src/fpu/fpmult.sv:293-393 | a result whose significand, guard and sticky bits are right is rounded and written correctly in each mode if and only if it does not round up to the smallest normal number, for which zero is written |
| `FpSubnormalResult.DeliveredExact` | src/fpu/fpmult.sv:240-393 | from every normalised product below the normal range to the output, in each mode: the written result is the correct rounding if and only if, for an exponent too low, its fraction happens to be that of the right zero or one; for a cut distance, the cut happens to lead there; and otherwise it is not the smallest normal number and no lost bit decides the rounding |
| `FpSubnormalResult.SubnormalResultExact` | src/fpu/fpmult.sv:52-393 | the same from all finite operands whose result is below the normal range, against the exact product rounded to the smallest subnormal number; products with so many leading zeros that their shift is not reported are always right |
| `FpSubnormalResult.GradualUnderflowCorrect` | src/fpu/fpmult.sv:240-393 | where the exponent caps the normalising shift the written result is the correct rounding in each mode, the smallest normal number included |
| `FpSubnormalResult.WritesNormal` | src/fpu/fpmult.sv:390-393 | a normal result is written with its leading bit implied |
| `FpSubnormalResult.OverflowByMode` | src/fpu/fpmult.sv:351-385 | an exponent of all ones, or one below its register's least half, is written as infinity, and as the number just below it in mode 1, in mode 2 with a positive and in mode 3 with a negative sign |
| `FpSubnormalResult.WrittenFits` | src/fpu/fpmult.sv:346-393 | whatever exponent and significand reach the last state, both fields written fit their widths |
| `FpOutput.OverflowExact` | src/fpu/fpmult.sv:69-393 | from all finite operands whose product is not below the normal range: an overflow is written if and only if the exponent of the result is 2^Q - 1 or more, even where the sum of the operands' exponents runs over its register; otherwise the result is written as a normal number |
| `FpOutput.FullExponentDecides` | src/fpu/fpmult.sv:330-334 | with an exponent of three bits or more the place that a carry forgets never decides this, so it is decided by the correct exponent |
| `FpOutput.CorrectByMode` | src/fpu/fpmult.sv:293-329 | the rounding below the normal range, by mode number and sign: down, up, toward zero, or to within half a unit and even in a tie |
| `FpSubnormalResult.GuardForgotten` | src/fpu/fpmult.sv:241-271 | at the default width the operands 200 and 176 at exponent -1 lose the product's guard bit: 68 is written where 69 is correct |
| `FpSubnormalResult.LimitForgotten` | src/fpu/fpmult.sv:262-280 | at the default width for 192 and 192 at exponent -8 zero is written where 1 is correct |
| `FpSubnormalResult.SmallestNormalLost` | src/fpu/fpmult.sv:386-389 | at the default width for 128 and 255 at exponent 0 zero is written where the smallest normal number is correct |
| `FpSubnormalResult.TinyBecomesInfinite` | src/fpu/fpmult.sv:263-360 | at the default width, in every mode and for both signs, the product of the smallest normal number and the smallest subnormal one is written as an overflow, infinity or the number below it, where zero or the least number above it is correct |
| `FpSubnormalResult.DistanceForgotten` | src/fpu/fpmult.sv:125-127 | at thirteen bits for a normalised single bit and the smallest subnormal operand at exponent -4 the product is shifted by 1 place instead of 17, and 2048 is written where zero is correct |
| `ResultRounder.RoundResultExact` | src/fpu/result_rounder.sv:24-60 | for all widths the packed exponent and mantissa are the round-half-to-even of the packed input if and only if an all-ones exponent need not take a carry |
| `ResultRounder.OverflowExact` | src/fpu/result_rounder.sv:41-56 | for every exponent and both modes overflow is flagged exactly when rounding carries out of the largest finite number, and the result is then the infinity encoding; from a finite exponent nothing else gives an all-ones exponent |
| `ResultRounder.FieldsFit` | src/fpu/result_rounder.sv:24-60 | in both modes exponent and mantissa fit their fields |
| `ResultRounder.FieldsExact` | src/fpu/result_rounder.sv:24-60 | exponent and mantissa are each the part of the round-half-to-even of the packed input; if an all-ones exponent has to take a carry both are zero |
| `ResultRounder.ChopsOtherwise` | src/fpu/result_rounder.sv:24-28 | with rounding switched off both fields are unchanged, nothing is flagged, and the result is the truncation |
| `ResultRounder.ResultMonotonic` | src/fpu/result_rounder.sv:24-60 | for all widths the result keeps the order of inputs, read as packed numbers with a fraction |
| `ResultRounder.ResultWithinHalf` | src/fpu/result_rounder.sv:24-60 | for all widths the result is within half a unit in the last place of the input |
| `Lru.LruCounters.FindVictim` | mem/verif/l1d_llc_verif.cpp:1205-1218 | the lowest way among those with the smallest counter |
| `Lru.LruCounters.UpdateLru` | mem/verif/l1d_llc_verif.cpp:1221-1230 | the in-place loop changes one set's counters as the touch function says and no other set's |
| `Lru.LruCounters.Replay` | mem/verif/l1d_llc_verif.cpp:1221-1230 | a sequence of updates from zero leaves the abstract counters |
| `Lru.CountersAreRecency` | mem/verif/l1d_llc_verif.cpp:1221-1230 | for every associativity and access sequence from zero the way of recency rank k has counter A - 1 - k and a way never accessed has 0 |
| `Lru.VictimIsLeastRecent` | mem/verif/l1d_llc_verif.cpp:1205-1230 | the victim is the lowest way never accessed, or else the way whose last access is furthest back |
| `LsuQueue.Queue.IsOlder` | mem/src/load_store_unit.sv:530-540 | for every depth, head and pair of slots: true exactly for different slots of which the second has smaller age, or the first is the head |
| `LsuQueue.Queue.IsYounger` | mem/src/load_store_unit.sv:543-553 | true exactly if walking forward from the second slot meets the first no later than the tail |
| `LsuQueue.YoungerIsAge` | mem/src/load_store_unit.sv:543-553 | in a ring that is not full, for slots in use, this is comparison of ages |
| `LsuQueue.YoungerInFullRing` | mem/src/load_store_unit.sv:543-553 | in a full ring the head counts as younger than every other slot |
| `LsuQueue.Queue.Search` | mem/src/load_store_unit.sv:235-260 | the scan over the ring array ends at the last candidate before the load |
| `LsuQueue.ForwardingPicksYoungestOlder` | mem/src/load_store_unit.sv:235-260 | for every depth, head and load that is the youngest older valid, resolved store to the address, and -1 if and only if there is none |
| `LsuQueue.Queue.ForwardFromOlderStore` | mem/src/load_store_unit.sv:233-276 | the load's entry completes with that store's value, or nothing changes; no other entry changes |
| `DramBanks.BankState.Clock` | mem/src/mem_control/bank_state.sv:28-66 | the loop steps every bank as the single-bank transition says |
| `DramBanks.ProcessBankCommands` | mem/src/mem_control/mem_scheduler.sv:102-165 | the scan issues for the lowest eligible bank and raises that bank's line only |
| `DramBanks.SelectCommand` | mem/src/mem_control/mem_scheduler.sv:416-584 | the sequence of reassignments selects what the abstract selection does, with the timers it keeps |
| `DramBanks.Operate` | mem/src/mem_control/mem_scheduler.sv:416-584 | scheduler and bank registers clocked together follow the abstract run |
| `DramBanks.CommandAccepted` | mem/src/mem_control/bank_state.sv:37-64 | an activate or precharge the scheduler issues takes effect on its bank in the same cycle |
| `DramBanks.StaysBlocked` | mem/src/mem_control/bank_state.sv:39-48 | a blocked bank counts down and keeps row and flags, whatever is offered or refreshed |
| `DramBanks.BankSpacing` | mem/src/mem_control/mem_scheduler.sv:121-160 | in every run no command goes to a bank in the latency + 1 cycles after an activate or precharge issued to it, whatever refreshes interleave |
| `DramBanks.SpacingTight` | mem/src/mem_control/bank_state.sv:39-48 | one cycle later the bank is free |
| `DramBanks.ReadyIsInactive` | mem/src/mem_control/bank_state.sv:37-64 | in every run from reset a bank is ready exactly when it is not active |
| `DramBanks.RowStable` | mem/src/mem_control/bank_state.sv:55-63 | a bank's row register changes only in a cycle whose issue activates that bank, to the issued row |
| `DramBanks.ActiveExact` | mem/src/mem_control/bank_state.sv:37-64 | in every run from reset a bank is active if and only if an earlier cycle sent it an activate for the row it holds and no cycle since sent it a precharge or a refresh that it accepted |
| `DramBanks.ColumnAccessExact` | mem/src/mem_control/mem_scheduler.sv:122-125 | in every run from reset each read or write issued goes to a free bank, and that bank is active with the row accessed if and only if an earlier cycle activated that row there and no cycle since closed it |
| `DramBanks.RefreshedRowIsRead` | mem/src/mem_control/mem_scheduler.sv:122-125 | runs from reset, whatever the timers that reset leaves open, in which a bank is activated, refreshed and then read at the closed row: the row test does not look at the active flag |
| `DramIssue.IssueExact` | mem/src/mem_control/mem_scheduler.sv:479-584 | for every offer and state: a refresh goes first; a read is issued exactly under read priority, past the gap since the last read, if a bank can take one; otherwise, past the gap since the last write, a write if any bank can take one, else an activate, else a precharge, each exactly then; each goes to the lowest bank that can take it with that bank's row |
| `DramIssue.TimersExact` | mem/src/mem_control/mem_scheduler.sv:417-534 | the cycle counter steps and wraps, the last read is set on every read turn, the last write only by a write |
| `DramIssue.FreeBankExact` | mem/src/mem_control/bank_state.sv:37-64 | a free bank that is sent a precharge or refresh closes and keeps its row, one that is sent an activate opens it, and any other keeps its registers |
| `DramIssue.PrechargeWins` | mem/src/mem_control/bank_state.sv:49-63 | with both lines raised a free bank is precharged |
| `DramIssue.WriteSpacingExact` | mem/src/mem_control/mem_scheduler.sv:516-534 | in every run before the counter wraps two writes are at least four cycles apart unless the earlier is in the counter's last four values, after which a write goes whenever a bank can take one |
| `DramIssue.ReadSpacingExact` | mem/src/mem_control/mem_scheduler.sv:494-513 | two reads are at least five cycles apart unless the later is in the counter's first four values, in which a read goes whenever a bank can take one |
| `DramIssue.EarlyReads` | mem/src/mem_control/mem_scheduler.sv:494-513 | from reset two reads of one bank are issued in cycles 0 and 1 |

## Left out

- ClosedSystem.WriteBackSound: the composition of cache and responder is stated on states; the cache program and the responder object are each proved equal to their part, but no single program runs both.
- BackingStore.LlcResponder.ServeMiss: response latency, the handshake signals and several responses driving the interface at once are not modelled; a captured line may arrive at any later time.
- RtlPlayback.PlaybackRefines: says nothing of the one-cycle delay of the registered outputs, of the dirty bit of the installed line, or of handshakes with the inner cache.
- FpMultFsm.MachineComputes: the multiplier's `done` is assigned without delay in its clocked block and read by the control machine's next-state logic, so the edge on which it is seen is the simulator's choice; the count of P + 8 edges takes it as a register.
- FpMultFsm.MachineDelivers: at widths from P = 14 on whose cut constant is 0 or 1 the machines hand over what their registers held before start, which reset leaves open; `FpMultFsm.MachineExact` says that they come to the end too early.
- FpSubnormalResult.SubnormalResultExact: for significands narrower than half the exponent range, as all usual formats have; state 0110 is modelled for finite operands.
- DramBanks.Operate: the command queues are arbitrary ready tops offered each cycle, and the read-priority test is an arbitrary flag; queue contents, promotion and timestamps are not modelled.
- FpOutput.OverflowExact: for finite operands; infinities, NaNs and zeros, which state 0110 tells apart by the operands, are not modelled.
- DramIssue.WriteSpacingExact: before the 32-bit cycle counter wraps; across the wrap the registers compare as smaller numbers.
- The floating-point adder apart from its rounding unit.
- The rest of the L1D controller (request checking, forwarding inside the hardware, eviction, flush) and the inner cache module, whose end-to-end behaviour is mostly a matter of handshake timing.
- The load/store queue's counters, dispatch and retirement; only its ring order and forwarding search are modelled.
- DRAM command encodings, data buses, refresh generation and the memory module itself.
- How well the replacement policy approximates recency; `Replacement` says what it is.
- `mem_write` and `mem_reset`, the flat map's other entry points, which the cache model does not call.
- Fetch, branch prediction, decoding, the arithmetic units and the back end's wiring.
- The verification environment around the golden model: sequences, monitors, scoreboard and bindings.
