/** What every run of the allocator keeps, from initialisation on. */
module PoolTheorems {
  import opened Machine
  import opened MemoryMap
  import opened Layout
  import opened Pool

  /** The state after initialisation: nothing is live. */
  ghost function Start(ss: seq<Section>, resStart: nat, resEnd: nat): State
    requires ValidSections(ss)
  {
    State(InitialZones(ss, resStart, resEnd), {})
  }

  ghost predicate FromStart(ss: seq<Section>, resStart: nat, resEnd: nat, ops: seq<Op>) {
    ss != [] && ValidSections(ss) && LegalRun(Start(ss, resStart, resEnd), ops)
  }

  ghost function After(ss: seq<Section>, resStart: nat, resEnd: nat, ops: seq<Op>): State
    requires FromStart(ss, resStart, resEnd, ops)
  {
    Run(Start(ss, resStart, resEnd), ops)
  }

  // ---- what a run does not change ----

  /** As many zones as before, each in its place. */
  ghost predicate SameRanges(zs: seq<ZoneState>, ts: seq<ZoneState>) {
    && |ts| == |zs|
    && forall k :: 0 <= k < |zs| ==> SamePlace(zs[k], ts[k])
  }

  lemma {:induction false} RunKeepsRanges(s: State, ops: seq<Op>)
    requires HittingRun(s, ops)
    ensures SameRanges(s.zones, Run(s, ops).zones)
    decreases |ops|
  {
    if ops != [] {
      RunKeepsRanges(Step(s, ops[0]), ops[1..]);
    }
  }

  lemma {:induction false} AfterInv(ss: seq<Section>, resStart: nat, resEnd: nat, ops: seq<Op>)
    requires FromStart(ss, resStart, resEnd, ops)
    ensures var s := After(ss, resStart, resEnd, ops);
      Inv(s, Reserved(ss, resStart, resEnd)) && SameRanges(InitialZones(ss, resStart, resEnd), s.zones)
  {
    InitialInv(ss, resStart, resEnd);
    RunKeepsInv(Start(ss, resStart, resEnd), Reserved(ss, resStart, resEnd), ops);
    RunKeepsRanges(Start(ss, resStart, resEnd), ops);
  }

  // ---- safety ----

  /** The inclusive byte range of the block at `a`. */
  ghost predicate BlockShares(a: nat, lo: int, hi: int) {
    Share(a, a + BLOCK_SIZE - 1, lo, hi)
  }

  /** A live block lies in the whole blocks of one section, is not at address 0, and avoids the reserved range. */
  lemma {:induction false} LiveBlockIsSafe(ss: seq<Section>, resStart: nat, resEnd: nat, ops: seq<Op>, a: nat)
    requires FromStart(ss, resStart, resEnd, ops) && a in After(ss, resStart, resEnd, ops).live
    ensures a != NULL && !BlockShares(a, resStart, resEnd)
    ensures exists k ::
      0 <= k < |ss| && ss[k].base <= a && a + BLOCK_SIZE <= ss[k].base + Blocks(ss[k]) * BLOCK_SIZE
  {
    var s := After(ss, resStart, resEnd, ops);
    AfterInv(ss, resStart, resEnd, ops);
    var k :| 0 <= k < |s.zones| && IsBlockOf(s.zones[k], a);
    assert SamePlace(InitialZones(ss, resStart, resEnd)[k], s.zones[k]);
    assert GoodZone(s.zones[k], s.live, ReservedBlocks(ss[k], resStart, resEnd));
    LiveIsUnreserved(s.zones[k], s.live, ss[k], resStart, resEnd, a);
  }

  lemma {:induction false} LiveIsUnreserved(
      z: ZoneState, live: set<nat>, s: Section, resStart: nat, resEnd: nat, a: nat)
    requires GoodZone(z, live, ReservedBlocks(s, resStart, resEnd)) && a in live && IsBlockOf(z, a)
    requires z.start == s.base && z.length == Blocks(s)
    ensures a != NULL && !BlockShares(a, resStart, resEnd)
    ensures s.base <= a && a + BLOCK_SIZE <= s.base + Blocks(s) * BLOCK_SIZE
  {
    var b: nat :| b < z.length && a == BlockAddress(z.start, b);
    assert b in LiveIn(z, live);
    assert b !in ReservedBlocks(s, resStart, resEnd);
  }

  lemma {:induction false} BlocksApart(zs: seq<ZoneState>, j: nat, k: nat, a: nat, c: nat)
    requires Arranged(zs) && j < |zs| && k < |zs| && IsBlockOf(zs[j], a) && IsBlockOf(zs[k], c) && a != c
    ensures !BlockShares(a, c, c + BLOCK_SIZE - 1)
  {
    ShareIsOverlap(a, a + BLOCK_SIZE - 1, c, c + BLOCK_SIZE - 1);
    if j != k {
      assert Apart(zs[j], zs[k]);
    }
  }

  /** Two live blocks have no byte in common. */
  lemma {:induction false} LiveBlocksAreApart(
      ss: seq<Section>, resStart: nat, resEnd: nat, ops: seq<Op>, a: nat, c: nat)
    requires FromStart(ss, resStart, resEnd, ops)
    requires a in After(ss, resStart, resEnd, ops).live && c in After(ss, resStart, resEnd, ops).live && a != c
    ensures !BlockShares(a, c, c + BLOCK_SIZE - 1)
  {
    var s := After(ss, resStart, resEnd, ops);
    AfterInv(ss, resStart, resEnd, ops);
    var j :| 0 <= j < |s.zones| && IsBlockOf(s.zones[j], a);
    var k :| 0 <= k < |s.zones| && IsBlockOf(s.zones[k], c);
    BlocksApart(s.zones, j, k, a, c);
  }

  lemma {:induction false} ClearIsNotLive(s: State, reserved: seq<set<nat>>, k: nat, b: nat)
    requires Inv(s, reserved) && k < |s.zones| && b in s.zones[k].Clear()
    ensures BlockAddress(s.zones[k].start, b) !in s.live
  {
    ClearBitIsBlock(s, reserved, k, b);
    assert GoodZone(s.zones[k], s.live, reserved[k]);
    assert b !in LiveIn(s.zones[k], s.live);
  }

  lemma {:induction false} TakesFresh(s: State, reserved: seq<set<nat>>)
    requires Inv(s, reserved) && NULL !in s.live
    ensures Alloc(s.zones).addr !in s.live
  {
    hide Inv;
    if CanTake(s) {
      var k := FirstZone(s.zones);
      ClearBitIsBlock(s, reserved, k, LeastClear(s.zones[k], 0));
      ClearIsNotLive(s, reserved, k, LeastClear(s.zones[k], 0));
    }
  }

  /** An allocation never returns a block that is live already. */
  lemma {:induction false} AllocationIsFresh(ss: seq<Section>, resStart: nat, resEnd: nat, ops: seq<Op>)
    requires FromStart(ss, resStart, resEnd, ops)
    ensures Alloc(After(ss, resStart, resEnd, ops).zones).addr !in After(ss, resStart, resEnd, ops).live
  {
    var s := After(ss, resStart, resEnd, ops);
    AfterInv(ss, resStart, resEnd, ops);
    if NULL in s.live {
      LiveBlockIsSafe(ss, resStart, resEnd, ops, NULL);
    }
    TakesFresh(s, Reserved(ss, resStart, resEnd));
  }

  /**
   Safety over whole runs: no live block contains a byte of the kernel image or of any zone header or bitmap.
   The kernel occupies [kernelStart, kernelEnd) and the metadata follows it, both at virtual addresses
   `offset` above their physical ones.
   */
  lemma {:induction false} LiveBlocksAvoidKernelAndMetadata(
      ss: seq<Section>, kernelStart: nat, kernelEnd: nat, offset: nat,
      resStart: nat, resEnd: nat, ops: seq<Op>, a: nat, x: nat)
    requires kernelStart < kernelEnd
    requires resStart == kernelStart - offset && resEnd == kernelEnd - offset - 1 + MetadataSize(ss)
    requires FromStart(ss, resStart, resEnd, ops) && a in After(ss, resStart, resEnd, ops).live
    requires a <= x < a + BLOCK_SIZE
    ensures !(kernelStart <= x + offset < kernelEnd)
    ensures InNoMetadata(ss, kernelEnd, x + offset)
  {
    hide InNoMetadata, ReservedBlocks, BlockShares;
    LiveBlockIsSafe(ss, resStart, resEnd, ops, a);
    NotReserved(a, x, resStart, resEnd);
    OutsideMetadata(ss, kernelEnd, x + offset);
  }

  lemma {:induction false} NotReserved(a: nat, x: nat, resStart: nat, resEnd: nat)
    requires !BlockShares(a, resStart, resEnd) && a <= x < a + BLOCK_SIZE
    ensures !(resStart <= x <= resEnd)
  {
    assert Within(x, a, a + BLOCK_SIZE - 1);
    assert Within(x, resStart, resEnd) == (resStart <= x <= resEnd);
  }

  // ---- conservation ----

  /**
   In every zone the counter plus the live blocks is the length, so it neither underflows nor exceeds the length;
   and the counter exceeds the number of clear blocks by the blocks reserved at the start, forever.
   */
  lemma {:induction false} Conservation(ss: seq<Section>, resStart: nat, resEnd: nat, ops: seq<Op>, k: nat)
    requires FromStart(ss, resStart, resEnd, ops) && k < |ss|
    ensures var s := After(ss, resStart, resEnd, ops);
      && |s.zones| == |ss|
      && s.zones[k].free + |LiveIn(s.zones[k], s.live)| == Blocks(ss[k])
      && s.zones[k].free == |s.zones[k].Clear()| + |ReservedBlocks(ss[k], resStart, resEnd)|
  {
    AfterInv(ss, resStart, resEnd, ops);
    var s := After(ss, resStart, resEnd, ops);
    ZoneConservation(s.zones[k], s.live, ReservedBlocks(ss[k], resStart, resEnd));
  }

  lemma {:induction false} NumbersSize(lo: nat, hi: nat)
    requires lo <= hi
    ensures |Numbers(lo, hi)| == hi - lo
    decreases hi
  {
    if lo < hi {
      NumbersSize(lo, hi - 1);
    }
  }

  lemma {:induction false} ZoneConservation(z: ZoneState, live: set<nat>, reserved: set<nat>)
    requires GoodZone(z, live, reserved) && z.length <= z.capacity
    ensures z.free == |z.Clear()| + |reserved|
  {
    var taken := reserved + LiveIn(z, live);
    NumbersSize(0, z.length);
    assert Numbers(0, z.length) == z.Clear() + taken;
    assert z.Clear() !! taken;
  }

  /** The counter is the number of clear blocks exactly in a zone that had no block reserved. */
  lemma {:induction false} CounterIsClearBlocksIff(
      ss: seq<Section>, resStart: nat, resEnd: nat, ops: seq<Op>, k: nat)
    requires FromStart(ss, resStart, resEnd, ops) && k < |ss|
    ensures var s := After(ss, resStart, resEnd, ops);
      && |s.zones| == |ss|
      && (s.zones[k].free == |s.zones[k].Clear()| <==> ReservedBlocks(ss[k], resStart, resEnd) == {})
  {
    Conservation(ss, resStart, resEnd, ops, k);
  }

  // ---- exactness of allocation ----

  /** Zone k is the first with a nonzero counter. */
  ghost predicate FirstToServe(zs: seq<ZoneState>, k: nat) {
    k < |zs| && zs[k].free != 0 && forall j :: 0 <= j < k ==> zs[j].free == 0
  }

  /** Block b is the least clear one of z. */
  ghost predicate LeastOf(z: ZoneState, b: nat) {
    b in z.Clear() && forall c :: c in z.Clear() ==> b <= c
  }

  lemma {:induction false} SearchFinds(z: ZoneState)
    ensures var b := LeastClear(z, 0);
      if b < z.capacity then LeastOf(z, b) else z.Clear() == {}
  {
    var b := LeastClear(z, 0);
    assert b < z.capacity ==> b in z.Clear();
  }

  /**
   First fit, stated without the search. Without an address nothing changes, and the first zone with a nonzero
   counter, if there is one, has no clear block; an address is that of the least clear block of that zone, which is
   then taken.
   */
  ghost predicate IsFirstFit(zs: seq<ZoneState>, r: Allocation) {
    && (r.addr == NULL ==> r.zones == zs && forall k: nat :: FirstToServe(zs, k) ==> zs[k].Clear() == {})
    && (r.addr != NULL ==>
          exists k: nat, b: nat :: FirstToServe(zs, k) && LeastOf(zs[k], b) &&
            r == Allocation(zs[k := TakeBlock(zs[k], b)], BlockAddress(zs[k].start, b)))
  }

  lemma {:induction false} SearchIsFirstFit(s: State)
    requires
      CanTake(s) ==>
        var k := FirstZone(s.zones);
        NULL < BlockAddress(s.zones[k].start, LeastClear(s.zones[k], 0)) < TWO32
    ensures IsFirstFit(s.zones, Alloc(s.zones))
    ensures Alloc(s.zones).addr == NULL <==> !CanTake(s)
  {
    var zs, k := s.zones, FirstZone(s.zones);
    forall j: nat | FirstToServe(zs, j) ensures j == k {
    }
    if k < |zs| {
      SearchFinds(zs[k]);
      assert FirstToServe(zs, k);
      hide LeastClear, LeastOf;
      assert CanTake(s) ==> LeastOf(zs[k], LeastClear(zs[k], 0));
    }
  }

  lemma {:induction false} AllocIsFirstFit(s: State, reserved: seq<set<nat>>)
    requires Inv(s, reserved)
    ensures IsFirstFit(s.zones, Alloc(s.zones))
    ensures Alloc(s.zones).addr == NULL <==> !CanTake(s)
  {
    hide Inv, IsFirstFit;
    if CanTake(s) {
      var k := FirstZone(s.zones);
      ClearBitIsBlock(s, reserved, k, LeastClear(s.zones[k], 0));
    }
    SearchIsFirstFit(s);
  }

  // ---- alloc and free together ----

  lemma {:induction false} CounterFits(s: State, reserved: seq<set<nat>>, k: nat)
    requires Inv(s, reserved) && k < |s.zones|
    ensures s.zones[k].free <= s.zones[k].length < TWO32 - 1
  {
    assert GoodZone(s.zones[k], s.live, reserved[k]) && GoodGeometry(s.zones[k]);
  }

  lemma {:induction false} TakeThenFree(zs: seq<ZoneState>, b: nat)
    requires zs != [] && GoodGeometry(zs[0]) && 0 < zs[0].free < TWO32 && b < zs[0].length && b !in zs[0].used
    ensures HeadOffset(zs, BlockAddress(zs[0].start, b)) < zs[0].capacity
    ensures Free(zs[0 := TakeBlock(zs[0], b)], BlockAddress(zs[0].start, b)) == zs
  {
    var z := TakeBlock(zs[0], b);
    HeadOffsetInverts(zs, b);
    HeadOffsetInverts(zs[0 := z], b);
    hide HeadOffset;
    assert zs[0].used + {b} - {b} == zs[0].used;
    assert ReleaseBlock(z, b) == zs[0];
  }

  /** Freeing the head-zone block just allocated restores every bitmap and counter. */
  lemma {:induction false} AllocThenFree(s: State, reserved: seq<set<nat>>)
    requires Inv(s, reserved)
    ensures var r := Alloc(s.zones);
      r.addr != NULL && IsBlockOf(s.zones[0], r.addr) ==>
        HeadOffset(r.zones, r.addr) < r.zones[0].capacity && Free(r.zones, r.addr) == s.zones
  {
    hide GoodZone;
    var zs, k, a := s.zones, FirstZone(s.zones), Alloc(s.zones).addr;
    if a != NULL && IsBlockOf(zs[0], a) {
      var b := LeastClear(zs[k], 0);
      ClearBitIsBlock(s, reserved, k, b);
      assert IsBlockOf(zs[k], a);
      OneOwner(zs, k, 0, a);
      CounterFits(s, reserved, 0);
      TakeThenFree(zs, b);
    }
  }

  /** Releasing a bit makes it the least clear one, unless a lower one is clear already. */
  lemma {:induction false} LeastAfterRelease(z: ZoneState, b: nat)
    requires b < z.capacity
    ensures LeastClear(ReleaseBlock(z, b), 0) == if LeastClear(z, 0) < b then LeastClear(z, 0) else b
  {
    var n := LeastClear(z, 0);
    LeastClearUnique(ReleaseBlock(z, b), if n < b then n else b);
  }

  /**
   After a free of any address whose bit lies in the head's bitmap, padding included, the next allocation gives the
   address of that bit or of the head's least clear bit before, whichever is lower.
   */
  lemma {:induction false} FreeThenAlloc(s: State, reserved: seq<set<nat>>, a: nat)
    requires Inv(s, reserved) && HitsHead(s, FreeOp(a))
    ensures var z, o := s.zones[0], HeadOffset(s.zones, a);
      Alloc(Free(s.zones, a)).addr ==
      Wrap(BlockAddress(z.start, if LeastClear(z, 0) < o then LeastClear(z, 0) else o))
  {
    var z, o := s.zones[0], HeadOffset(s.zones, a);
    CounterFits(s, reserved, 0);
    LeastAfterRelease(z, o);
    hide Inv, LeastClear;
    var freed := Free(s.zones, a);
    assert freed[0] == ReleaseBlock(z, o) && FirstZone(freed) == 0;
  }
}
