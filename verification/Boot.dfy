/** From the memory map and the kernel's place in memory to the runs of the allocator. */
module Boot {
  import opened Machine
  import opened MemoryMap
  import opened Layout
  import opened Pool
  import opened PoolTheorems
  import opened OffHead
  import opened AnyFree

  /** What initialisation needs of the loader's map and of the kernel's place in memory. */
  ghost predicate Bootable(base: nat, mem: seq<Byte>, kernelStart: nat, kernelEnd: nat, virtualOffset: nat) {
    && Walkable(mem, base, 0)
    && virtualOffset <= kernelStart < kernelEnd
    && var ss := Sections(EntriesFrom(mem, base, 0));
      && ss != [] && ValidSections(ss)
      && kernelEnd + MetadataSize(ss) <= TWO32
      && forall k :: 0 <= k < |ss| ==>
        ReservationFits(ss[k], ReservedStart(kernelStart, virtualOffset), ReservedEnd(ss, kernelEnd, virtualOffset))
  }

  /** The state in which initialisation leaves the allocator. */
  ghost function Booted(es: seq<Entry>, kernelStart: nat, kernelEnd: nat, virtualOffset: nat): State
    requires virtualOffset <= kernelStart < kernelEnd && ValidSections(Sections(es))
  {
    var ss := Sections(es);
    Start(ss, ReservedStart(kernelStart, virtualOffset), ReservedEnd(ss, kernelEnd, virtualOffset))
  }

  /** After initialisation the blocks that must not be handed out, and no others, have their bits set. */
  ghost predicate WithholdsExactly(
      s: State, ss: seq<Section>, kernelStart: nat, kernelEnd: nat, virtualOffset: nat)
  {
    && |s.zones| == |ss|
    && forall k, b: nat :: 0 <= k < |ss| && b < s.zones[k].length ==>
      (b in s.zones[k].used <==> MustWithhold(ss, kernelStart, kernelEnd, virtualOffset, ss[k], b))
  }

  lemma {:induction false} BootedWithholdsExactly(
      es: seq<Entry>, kernelStart: nat, kernelEnd: nat, virtualOffset: nat)
    requires virtualOffset <= kernelStart < kernelEnd && ValidSections(Sections(es))
    ensures WithholdsExactly(
      Booted(es, kernelStart, kernelEnd, virtualOffset), Sections(es), kernelStart, kernelEnd, virtualOffset)
  {
    var ss, zs := Sections(es), Booted(es, kernelStart, kernelEnd, virtualOffset).zones;
    hide ReservedStart, ReservedEnd, MustWithhold, ReservedBlocks;
    forall k, b: nat | 0 <= k < |ss| && b < zs[k].length
      ensures b in zs[k].used <==> MustWithhold(ss, kernelStart, kernelEnd, virtualOffset, ss[k], b)
    {
      ReservedIff(ss, kernelStart, kernelEnd, virtualOffset, ss[k], b);
    }
  }

  // ---- what a live block is made of ----

  /** All 4096 bytes from `a` on lie in one entry of type 1, by its low words, and none is taken. */
  ghost predicate IsFreeMemory(
      a: nat, es: seq<Entry>, kernelStart: nat, kernelEnd: nat, virtualOffset: nat)
  {
    && a != 0
    && (exists e :: e in es && e.kind == 1 && e.baseLow <= a && a + 4096 <= e.baseLow + e.lengthLow)
    && (forall x: nat :: a <= x < a + 4096 ==> !IsTaken(Sections(es), kernelStart, kernelEnd, virtualOffset, x))
  }

  lemma {:induction false} SafeIsFreeMemory(
      es: seq<Entry>, kernelStart: nat, kernelEnd: nat, virtualOffset: nat, a: nat, k: nat)
    requires virtualOffset <= kernelStart < kernelEnd && a != NULL
    requires !BlockShares(a, ReservedStart(kernelStart, virtualOffset), ReservedEnd(Sections(es), kernelEnd, virtualOffset))
    requires k < |Sections(es)| && Sections(es)[k].base <= a
    requires a + BLOCK_SIZE <= Sections(es)[k].base + Blocks(Sections(es)[k]) * BLOCK_SIZE
    ensures IsFreeMemory(a, es, kernelStart, kernelEnd, virtualOffset)
  {
    var ss := Sections(es);
    SectionIffEntry(es, ss[k]);
    hide Sections, IsTaken;
    forall x: nat | a <= x < a + 4096 ensures !IsTaken(ss, kernelStart, kernelEnd, virtualOffset, x) {
      NotReserved(a, x, ReservedStart(kernelStart, virtualOffset), ReservedEnd(ss, kernelEnd, virtualOffset));
      ReservedRangeIsTaken(ss, kernelStart, kernelEnd, virtualOffset, x);
    }
  }

  /**
   From the loader's map on: after any run that frees head blocks, every live block is 4096 bytes of memory that the
   map calls available, and no byte of it belongs to the kernel or to a zone's header or bitmap.
   */
  lemma {:induction false} LiveBlocksAreFreeMemory(
      base: nat, mem: seq<Byte>, kernelStart: nat, kernelEnd: nat, virtualOffset: nat, es: seq<Entry>,
      ops: seq<Op>, a: nat)
    requires Bootable(base, mem, kernelStart, kernelEnd, virtualOffset) && es == EntriesFrom(mem, base, 0)
    requires LegalRun(Booted(es, kernelStart, kernelEnd, virtualOffset), ops)
    requires a in Run(Booted(es, kernelStart, kernelEnd, virtualOffset), ops).live
    ensures IsFreeMemory(a, es, kernelStart, kernelEnd, virtualOffset)
  {
    var ss, lo, hi := Sections(es), ReservedStart(kernelStart, virtualOffset),
      ReservedEnd(Sections(es), kernelEnd, virtualOffset);
    LiveBlockIsSafe(ss, lo, hi, ops, a);
    var k :| 0 <= k < |ss| && ss[k].base <= a && a + BLOCK_SIZE <= ss[k].base + Blocks(ss[k]) * BLOCK_SIZE;
    SafeIsFreeMemory(es, kernelStart, kernelEnd, virtualOffset, a, k);
  }

  /** The same for runs that free any live blocks, on the maps on which the head's bitmap reaches all of them. */
  lemma {:induction false} EveryLiveBlockIsFreeMemory(
      base: nat, mem: seq<Byte>, kernelStart: nat, kernelEnd: nat, virtualOffset: nat, es: seq<Entry>,
      rs: seq<Request>, a: nat)
    requires Bootable(base, mem, kernelStart, kernelEnd, virtualOffset) && es == EntriesFrom(mem, base, 0)
    requires HeadReachesAll(
      Sections(es), ReservedStart(kernelStart, virtualOffset), ReservedEnd(Sections(es), kernelEnd, virtualOffset))
    requires ProperRun(Booted(es, kernelStart, kernelEnd, virtualOffset), rs)
    requires a in ServeAll(Booted(es, kernelStart, kernelEnd, virtualOffset), rs).live
    ensures IsFreeMemory(a, es, kernelStart, kernelEnd, virtualOffset)
  {
    var ss, lo, hi := Sections(es), ReservedStart(kernelStart, virtualOffset),
      ReservedEnd(Sections(es), kernelEnd, virtualOffset);
    EveryRunIsSafe(ss, lo, hi, rs, a, a);
    var k :| 0 <= k < |ss| && ss[k].base <= a && a + BLOCK_SIZE <= ss[k].base + Blocks(ss[k]) * BLOCK_SIZE;
    SafeIsFreeMemory(es, kernelStart, kernelEnd, virtualOffset, a, k);
  }
}
