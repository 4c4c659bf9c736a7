/** Which blocks runs can reach at all, and when allocation fails with memory left. */
module Reach {
  import opened Machine
  import opened MemoryMap
  import opened Layout
  import opened Pool
  import opened PoolTheorems

  // ---- zones are used in order ----

  /** A zone with a live block has no reserved block in any zone before it. */
  ghost predicate InOrder(s: State, reserved: seq<set<nat>>) {
    |reserved| == |s.zones| &&
    forall i, j :: 0 <= i < j < |s.zones| && LiveIn(s.zones[j], s.live) != {} ==> reserved[i] == {}
  }

  /** A zone whose counter is 0 has no reserved and no clear block. */
  lemma {:induction false} UsedUp(s: State, reserved: seq<set<nat>>, i: nat)
    requires Inv(s, reserved) && i < |s.zones|
    ensures s.zones[i].free == |s.zones[i].Clear()| + |reserved[i]|
    ensures s.zones[i].free == 0 ==> reserved[i] == {} && s.zones[i].Clear() == {}
  {
    ZoneConservation(s.zones[i], s.live, reserved[i]);
  }

  lemma {:induction false} TakingKeepsOrder(s: State, reserved: seq<set<nat>>, b: nat)
    requires Inv(s, reserved) && InOrder(s, reserved)
    requires FirstZone(s.zones) < |s.zones| && b < s.zones[FirstZone(s.zones)].length
    ensures InOrder(Taken(s, FirstZone(s.zones), b), reserved)
  {
    var k := FirstZone(s.zones);
    var t := Taken(s, k, b);
    forall i, j | 0 <= i < j < |t.zones| && LiveIn(t.zones[j], t.live) != {} ensures reserved[i] == {} {
      LiveInChanges(s.zones, s.live, k, b, j);
      assert LiveIn(t.zones[j], t.live) == LiveIn(s.zones[j], t.live);
      if j == k {
        UsedUp(s, reserved, i);
      }
    }
  }

  lemma {:induction false} AllocKeepsOrder(s: State, reserved: seq<set<nat>>)
    requires Inv(s, reserved) && InOrder(s, reserved)
    ensures InOrder(Step(s, AllocOp), reserved)
  {
    AllocStep(s, reserved);
    if CanTake(s) {
      var k := FirstZone(s.zones);
      ClearBitIsBlock(s, reserved, k, LeastClear(s.zones[k], 0));
      hide Inv, Step, InOrder;
      TakingKeepsOrder(s, reserved, LeastClear(s.zones[k], 0));
    }
  }

  lemma {:induction false} FreeKeepsOrder(s: State, reserved: seq<set<nat>>, a: nat)
    requires InOrder(s, reserved) && HitsHead(s, FreeOp(a))
    ensures InOrder(Step(s, FreeOp(a)), reserved)
  {
    var t := Step(s, FreeOp(a));
    forall j | 0 <= j < |t.zones| ensures LiveIn(t.zones[j], t.live) <= LiveIn(s.zones[j], s.live) {
    }
  }

  lemma {:induction false} RunKeepsOrder(s: State, reserved: seq<set<nat>>, ops: seq<Op>)
    requires Inv(s, reserved) && InOrder(s, reserved) && LegalRun(s, ops)
    ensures InOrder(Run(s, ops), reserved)
    decreases |ops|
  {
    hide Inv, InOrder;
    if ops != [] {
      match ops[0] {
        case AllocOp => AllocKeepsInv(s, reserved); AllocKeepsOrder(s, reserved);
        case FreeOp(a) => FreeKeepsInv(s, reserved, a); FreeKeepsOrder(s, reserved, a);
      }
      RunKeepsOrder(Step(s, ops[0]), reserved, ops[1..]);
    }
  }

  lemma {:induction false} AfterInOrder(ss: seq<Section>, resStart: nat, resEnd: nat, ops: seq<Op>)
    requires FromStart(ss, resStart, resEnd, ops)
    ensures InOrder(After(ss, resStart, resEnd, ops), Reserved(ss, resStart, resEnd))
  {
    InitialInv(ss, resStart, resEnd);
    RunKeepsOrder(Start(ss, resStart, resEnd), Reserved(ss, resStart, resEnd), ops);
  }

  // ---- every block that is not behind a reserved one can be reached ----

  /** What the zone in service still has to give. */
  function Remaining(s: State): nat {
    if FirstZone(s.zones) < |s.zones| then s.zones[FirstZone(s.zones)].free else 0
  }

  /** An allocation that takes a block moves on: to a later zone, or within the zone in service. */
  lemma {:induction false} TakingProceeds(s: State)
    requires CanTake(s)
    ensures FirstZone(AfterAlloc(s).zones) >= FirstZone(s.zones)
    ensures FirstZone(AfterAlloc(s).zones) == FirstZone(s.zones) ==> Remaining(AfterAlloc(s)) < Remaining(s)
  {
    var k, ts := FirstZone(s.zones), AfterAlloc(s).zones;
    assert forall i :: 0 <= i < k ==> ts[i].free == 0;
  }

  /** Allocation serves the zones up to j while block b of zone j is clear and nothing before it is reserved. */
  lemma {:induction false} ServesUpTo(s: State, reserved: seq<set<nat>>, j: nat, b: nat)
    requires Inv(s, reserved) && j < |s.zones| && b in s.zones[j].Clear()
    requires forall i :: 0 <= i < j ==> reserved[i] == {}
    ensures CanTake(s)
  {
    var k := FirstZone(s.zones);
    UsedUp(s, reserved, j);
    assert k <= j;
    UsedUp(s, reserved, k);
    SearchFinds(s.zones[k]);
    assert s.zones[k].Clear() != {};
  }

  /** Allocations alone make block b of zone j live. */
  lemma {:induction false} AllocUntilLive(s: State, reserved: seq<set<nat>>, j: nat, b: nat) returns (ops: seq<Op>)
    requires Inv(s, reserved) && j < |s.zones| && b < s.zones[j].length && b !in reserved[j]
    requires forall i :: 0 <= i < j ==> reserved[i] == {}
    ensures LegalRun(s, ops) && BlockAddress(s.zones[j].start, b) in Run(s, ops).live
    decreases |s.zones| - FirstZone(s.zones), Remaining(s)
  {
    ops := [];
    if BlockAddress(s.zones[j].start, b) !in s.live {
      assert b in s.zones[j].Clear() by {
        assert GoodZone(s.zones[j], s.live, reserved[j]) && GoodGeometry(s.zones[j]);
      }
      ServesUpTo(s, reserved, j, b);
      AllocStep(s, reserved);
      AllocKeepsInv(s, reserved);
      TakingProceeds(s);
      hide Inv;
      ops := AllocUntilLive(AfterAlloc(s), reserved, j, b);
      OpThenRun(s, AllocOp, ops);
      ops := [AllocOp] + ops;
    }
  }

  /** Block b of section j is live after some run. */
  ghost predicate Reachable(ss: seq<Section>, resStart: nat, resEnd: nat, j: nat, b: nat)
    requires j < |ss|
  {
    exists ops :: FromStart(ss, resStart, resEnd, ops) &&
      BlockAddress(ss[j].base, b) in After(ss, resStart, resEnd, ops).live
  }

  lemma {:induction false} UnblockedNow(s: State, reserved: seq<set<nat>>, j: nat, b: nat)
    requires Inv(s, reserved) && InOrder(s, reserved)
    requires j < |s.zones| && b < s.zones[j].length && BlockAddress(s.zones[j].start, b) in s.live
    ensures b !in reserved[j]
    ensures forall i :: 0 <= i < j ==> reserved[i] == {}
  {
    assert GoodZone(s.zones[j], s.live, reserved[j]);
    assert b in LiveIn(s.zones[j], s.live);
  }

  lemma {:induction false} LiveIsUnblocked(
      ss: seq<Section>, resStart: nat, resEnd: nat, ops: seq<Op>, j: nat, b: nat)
    requires FromStart(ss, resStart, resEnd, ops) && j < |ss| && b < Blocks(ss[j])
    requires BlockAddress(ss[j].base, b) in After(ss, resStart, resEnd, ops).live
    ensures b !in ReservedBlocks(ss[j], resStart, resEnd)
    ensures forall i :: 0 <= i < j ==> ReservedBlocks(ss[i], resStart, resEnd) == {}
  {
    var s, reserved := After(ss, resStart, resEnd, ops), Reserved(ss, resStart, resEnd);
    AfterInv(ss, resStart, resEnd, ops);
    AfterInOrder(ss, resStart, resEnd, ops);
    assert SamePlace(InitialZones(ss, resStart, resEnd)[j], s.zones[j]);
    hide Inv, InOrder;
    UnblockedNow(s, reserved, j, b);
  }

  /**
   The blocks that runs can reach: exactly the unreserved ones in sections before which no block is reserved.
   */
  lemma {:induction false} ReachableIff(ss: seq<Section>, resStart: nat, resEnd: nat, j: nat, b: nat)
    requires ss != [] && ValidSections(ss) && j < |ss| && b < Blocks(ss[j])
    ensures Reachable(ss, resStart, resEnd, j, b) <==>
      b !in ReservedBlocks(ss[j], resStart, resEnd) &&
      forall i :: 0 <= i < j ==> ReservedBlocks(ss[i], resStart, resEnd) == {}
  {
    if Reachable(ss, resStart, resEnd, j, b) {
      var ops :| FromStart(ss, resStart, resEnd, ops) &&
        BlockAddress(ss[j].base, b) in After(ss, resStart, resEnd, ops).live;
      LiveIsUnblocked(ss, resStart, resEnd, ops, j, b);
    } else if b !in ReservedBlocks(ss[j], resStart, resEnd) &&
      forall i :: 0 <= i < j ==> ReservedBlocks(ss[i], resStart, resEnd) == {}
    {
      InitialInv(ss, resStart, resEnd);
      var ops := AllocUntilLive(Start(ss, resStart, resEnd), Reserved(ss, resStart, resEnd), j, b);
      assert FromStart(ss, resStart, resEnd, ops);
    }
  }

  // ---- when allocation fails with memory left ----

  /** Allocations until the next one fails. */
  lemma {:induction false} AllocUntilFailure(s: State, reserved: seq<set<nat>>) returns (ops: seq<Op>)
    requires Inv(s, reserved)
    ensures LegalRun(s, ops) && !CanTake(Run(s, ops))
    decreases |s.zones| - FirstZone(s.zones), Remaining(s)
  {
    ops := [];
    if CanTake(s) {
      AllocStep(s, reserved);
      AllocKeepsInv(s, reserved);
      TakingProceeds(s);
      hide Inv;
      ops := AllocUntilFailure(AfterAlloc(s), reserved);
      OpThenRun(s, AllocOp, ops);
      ops := [AllocOp] + ops;
    }
  }

  /** Allocation fails although some zone has a clear block. */
  ghost predicate FailsWithMemoryLeft(s: State) {
    Alloc(s.zones).addr == NULL && exists j :: 0 <= j < |s.zones| && s.zones[j].Clear() != {}
  }

  /** A failing allocation stops at a zone whose remaining count is all reserved blocks, or finds every counter 0. */
  lemma {:induction false} FailureStopsAt(s: State, reserved: seq<set<nat>>)
    requires Inv(s, reserved) && !CanTake(s)
    ensures var k := FirstZone(s.zones);
      && (k < |s.zones| ==> s.zones[k].Clear() == {} && reserved[k] != {})
      && forall i :: 0 <= i < k ==> s.zones[i].Clear() == {} && reserved[i] == {}
  {
    var k := FirstZone(s.zones);
    if k < |s.zones| {
      SearchFinds(s.zones[k]);
      UsedUp(s, reserved, k);
    }
    forall i | 0 <= i < k ensures s.zones[i].Clear() == {} && reserved[i] == {} {
      UsedUp(s, reserved, i);
    }
  }

  /** Some section before j has a reserved block, and j has an unreserved one. */
  ghost predicate BehindReserved(ss: seq<Section>, resStart: nat, resEnd: nat, j: nat)
    requires j < |ss|
  {
    && |ReservedBlocks(ss[j], resStart, resEnd)| < Blocks(ss[j])
    && exists i :: 0 <= i < j && ReservedBlocks(ss[i], resStart, resEnd) != {}
  }

  lemma {:induction false} FailureShowsReserved(s: State, reserved: seq<set<nat>>) returns (i: nat, j: nat)
    requires Inv(s, reserved) && FailsWithMemoryLeft(s)
    ensures i < j < |s.zones| && reserved[i] != {} && |reserved[j]| < s.zones[j].length
  {
    AllocIsFirstFit(s, reserved);
    FailureStopsAt(s, reserved);
    i := FirstZone(s.zones);
    j :| j < |s.zones| && s.zones[j].Clear() != {};
    UsedUp(s, reserved, j);
    CounterFits(s, reserved, j);
  }

  lemma {:induction false} FailureShowsBehindReserved(s: State, ss: seq<Section>, resStart: nat, resEnd: nat)
    requires Inv(s, Reserved(ss, resStart, resEnd)) && |s.zones| == |ss| && FailsWithMemoryLeft(s)
    requires forall k :: 0 <= k < |ss| ==> s.zones[k].length == Blocks(ss[k])
    ensures exists j :: 0 <= j < |ss| && BehindReserved(ss, resStart, resEnd, j)
  {
    var i, j := FailureShowsReserved(s, Reserved(ss, resStart, resEnd));
    assert ReservedBlocks(ss[i], resStart, resEnd) != {};
    assert BehindReserved(ss, resStart, resEnd, j);
  }

  lemma {:induction false} FailureLeavesZone(s: State, reserved: seq<set<nat>>, i: nat, j: nat)
    requires Inv(s, reserved) && InOrder(s, reserved) && !CanTake(s)
    requires i < j < |s.zones| && reserved[i] != {} && |reserved[j]| < s.zones[j].length
    ensures FailsWithMemoryLeft(s)
  {
    AllocIsFirstFit(s, reserved);
    assert LiveIn(s.zones[j], s.live) == {};
    assert GoodZone(s.zones[j], s.live, reserved[j]);
    UsedUp(s, reserved, j);
    assert s.zones[j].Clear() != {};
  }

  lemma {:induction false} RunFailsWithMemoryLeft(ss: seq<Section>, resStart: nat, resEnd: nat, j: nat)
    returns (ops: seq<Op>)
    requires ss != [] && ValidSections(ss) && j < |ss| && BehindReserved(ss, resStart, resEnd, j)
    ensures FromStart(ss, resStart, resEnd, ops) && FailsWithMemoryLeft(After(ss, resStart, resEnd, ops))
  {
    var reserved := Reserved(ss, resStart, resEnd);
    var i :| 0 <= i < j && ReservedBlocks(ss[i], resStart, resEnd) != {};
    InitialInv(ss, resStart, resEnd);
    ops := AllocUntilFailure(Start(ss, resStart, resEnd), reserved);
    AfterInv(ss, resStart, resEnd, ops);
    AfterInOrder(ss, resStart, resEnd, ops);
    assert SamePlace(InitialZones(ss, resStart, resEnd)[j], After(ss, resStart, resEnd, ops).zones[j]);
    hide Inv, InOrder, FailsWithMemoryLeft, CanTake;
    FailureLeavesZone(After(ss, resStart, resEnd, ops), reserved, i, j);
  }

  /**
   Exactly the maps on which some run makes an allocation fail although a clear block is left: those with an
   unreserved block in a section behind one with a reserved block.
   */
  lemma {:induction false} SomeRunFailsWithMemoryLeftIff(ss: seq<Section>, resStart: nat, resEnd: nat)
    requires ss != [] && ValidSections(ss)
    ensures
      (exists ops :: FromStart(ss, resStart, resEnd, ops) && FailsWithMemoryLeft(After(ss, resStart, resEnd, ops))) <==>
      (exists j :: 0 <= j < |ss| && BehindReserved(ss, resStart, resEnd, j))
  {
    hide FailsWithMemoryLeft, BehindReserved, Inv;
    if ops :| FromStart(ss, resStart, resEnd, ops) && FailsWithMemoryLeft(After(ss, resStart, resEnd, ops)) {
      AfterInv(ss, resStart, resEnd, ops);
      FailureShowsBehindReserved(After(ss, resStart, resEnd, ops), ss, resStart, resEnd);
    }
    if j :| 0 <= j < |ss| && BehindReserved(ss, resStart, resEnd, j) {
      var ops := RunFailsWithMemoryLeft(ss, resStart, resEnd, j);
    }
  }

  // ---- the head zone ----

  /** Live addresses of one zone and their block numbers are equally many. */
  lemma {:induction false} CountLive(z: ZoneState, live: set<nat>)
    requires forall a :: a in live ==> IsBlockOf(z, a)
    ensures |live| == |LiveIn(z, live)|
    decreases live
  {
    if live == {} {
      assert LiveIn(z, live) == {};
    } else {
      var a :| a in live;
      var b: nat :| b < z.length && a == BlockAddress(z.start, b);
      assert LiveIn(z, live - {a}) == LiveIn(z, live) - {b};
      CountLive(z, live - {a});
    }
  }

  /** Everything live is in the head. */
  ghost predicate AllInHead(s: State) {
    s.zones != [] && forall a :: a in s.live ==> IsBlockOf(s.zones[0], a)
  }

  /** The head's counter is not 0, everything live is in the head and may be freed, every other zone is as at the start. */
  ghost predicate HeadServes(s: State, ss: seq<Section>, resStart: nat, resEnd: nat)
    requires ValidSections(ss) && ss != []
  {
    && |s.zones| == |ss| && FirstZone(s.zones) == 0 && AllInHead(s)
    && (forall k :: 0 < k < |ss| ==> s.zones[k] == InitialZone(ss[k], resStart, resEnd))
    && s.zones[0].free >= |ReservedBlocks(ss[0], resStart, resEnd)| >= 1
    && (forall a :: a in s.live ==> Legal(s, FreeOp(a)))
    && (Alloc(s.zones).addr == NULL <==>
        |s.live| == Blocks(ss[0]) - |ReservedBlocks(ss[0], resStart, resEnd)|)
  }

  lemma {:induction false} NothingLiveBehind(s: State, reserved: seq<set<nat>>, a: nat)
    requires Inv(s, reserved) && InOrder(s, reserved) && reserved[0] != {} && a in s.live
    ensures IsBlockOf(s.zones[0], a) && Legal(s, FreeOp(a))
  {
    var k :| 0 <= k < |s.zones| && IsBlockOf(s.zones[k], a);
    var b: nat :| b < s.zones[k].length && a == BlockAddress(s.zones[k].start, b);
    UnblockedNow(s, reserved, k, b);
    hide InOrder;
    HeadOffsetInverts(s.zones, b);
  }

  lemma {:induction false} ZoneBehindIsUntouched(s: State, ss: seq<Section>, resStart: nat, resEnd: nat, k: nat)
    requires ValidSections(ss) && 0 < k < |ss| == |s.zones|
    requires Inv(s, Reserved(ss, resStart, resEnd)) && InOrder(s, Reserved(ss, resStart, resEnd))
    requires ReservedBlocks(ss[0], resStart, resEnd) != {}
    requires SamePlace(InitialZone(ss[k], resStart, resEnd), s.zones[k])
    ensures s.zones[k] == InitialZone(ss[k], resStart, resEnd)
  {
    assert LiveIn(s.zones[k], s.live) == {};
    assert GoodZone(s.zones[k], s.live, ReservedBlocks(ss[k], resStart, resEnd));
  }

  lemma {:induction false} HeadCount(s: State, reserved: seq<set<nat>>)
    requires Inv(s, reserved) && AllInHead(s) && reserved[0] != {}
    ensures FirstZone(s.zones) == 0 && s.zones[0].free >= |reserved[0]| >= 1
    ensures Alloc(s.zones).addr == NULL <==> |s.live| == s.zones[0].length - |reserved[0]|
  {
    CountLive(s.zones[0], s.live);
    UsedUp(s, reserved, 0);
    SearchFinds(s.zones[0]);
    AllocIsFirstFit(s, reserved);
    hide IsFirstFit, Alloc;
    assert GoodZone(s.zones[0], s.live, reserved[0]);
  }

  lemma {:induction false} HeadServesNow(s: State, ss: seq<Section>, resStart: nat, resEnd: nat)
    requires ss != [] && ValidSections(ss) && SameRanges(InitialZones(ss, resStart, resEnd), s.zones)
    requires Inv(s, Reserved(ss, resStart, resEnd)) && InOrder(s, Reserved(ss, resStart, resEnd))
    requires ReservedBlocks(ss[0], resStart, resEnd) != {}
    ensures HeadServes(s, ss, resStart, resEnd)
  {
    var reserved := Reserved(ss, resStart, resEnd);
    forall a | a in s.live ensures IsBlockOf(s.zones[0], a) && Legal(s, FreeOp(a)) {
      NothingLiveBehind(s, reserved, a);
    }
    HeadCount(s, reserved);
    forall k | 0 < k < |ss| ensures s.zones[k] == InitialZone(ss[k], resStart, resEnd) {
      ZoneBehindIsUntouched(s, ss, resStart, resEnd, k);
    }
    hide Inv, InOrder, Alloc;
  }

  /**
   When the head zone has a reserved block, it serves every request of every run: its counter never reaches 0,
   every live block is one of its blocks and may be freed, no other zone changes, and allocation fails exactly when
   all its unreserved blocks are live.
   */
  lemma {:induction false} HeadServesEveryRun(ss: seq<Section>, resStart: nat, resEnd: nat, ops: seq<Op>)
    requires FromStart(ss, resStart, resEnd, ops)
    requires ReservedBlocks(ss[0], resStart, resEnd) != {}
    ensures HeadServes(After(ss, resStart, resEnd, ops), ss, resStart, resEnd)
  {
    AfterInv(ss, resStart, resEnd, ops);
    AfterInOrder(ss, resStart, resEnd, ops);
    hide Inv, InOrder, HeadServes, SameRanges;
    HeadServesNow(After(ss, resStart, resEnd, ops), ss, resStart, resEnd);
  }

  /** In particular when the head starts at address 0 or the kernel reaches into its whole blocks. */
  lemma {:induction false} HeadAtZeroOrKernelServes(ss: seq<Section>, resStart: nat, resEnd: nat, ops: seq<Op>)
    requires FromStart(ss, resStart, resEnd, ops) && resStart <= resEnd
    requires ss[0].base == 0 || (resStart < BlockAddress(ss[0].base, Blocks(ss[0])) && ss[0].base <= resEnd)
    ensures HeadServes(After(ss, resStart, resEnd, ops), ss, resStart, resEnd)
  {
    LosesBlockIff(ss[0], resStart, resEnd);
    HeadServesEveryRun(ss, resStart, resEnd, ops);
  }

  // ---- when a block outside the head becomes live ----

  lemma {:induction false} SomeUnreserved(s: Section, resStart: nat, resEnd: nat)
    ensures |ReservedBlocks(s, resStart, resEnd)| <= Blocks(s)
    ensures |ReservedBlocks(s, resStart, resEnd)| < Blocks(s) <==>
      exists b: nat :: b < Blocks(s) && b !in ReservedBlocks(s, resStart, resEnd)
  {
    var all, reserved := Numbers(0, Blocks(s)), ReservedBlocks(s, resStart, resEnd);
    NumbersSize(0, Blocks(s));
    assert reserved <= all;
    assert |all - reserved| == |all| - |reserved|;
    if b: nat :| b < Blocks(s) && b !in reserved {
      assert b in all - reserved;
    } else {
      assert all - reserved == {};
    }
  }

  lemma {:induction false} OwnerNow(s: State, reserved: seq<set<nat>>, a: nat) returns (j: nat, b: nat)
    requires Inv(s, reserved) && a in s.live
    ensures j < |s.zones| && b < s.zones[j].length && a == BlockAddress(s.zones[j].start, b)
    ensures IsBlockOf(s.zones[j], a)
  {
    j :| j < |s.zones| && IsBlockOf(s.zones[j], a);
    hide Inv;
    b :| b < s.zones[j].length && a == BlockAddress(s.zones[j].start, b);
  }

  /** The section and the block number that a live address belongs to. */
  lemma {:induction false} OwnerOf(ss: seq<Section>, resStart: nat, resEnd: nat, ops: seq<Op>, a: nat)
    returns (j: nat, b: nat)
    requires FromStart(ss, resStart, resEnd, ops) && a in After(ss, resStart, resEnd, ops).live
    ensures |After(ss, resStart, resEnd, ops).zones| == |ss|
    ensures j < |ss| && b < Blocks(ss[j]) && a == BlockAddress(ss[j].base, b)
    ensures IsBlockOf(After(ss, resStart, resEnd, ops).zones[j], a)
  {
    var s := After(ss, resStart, resEnd, ops);
    AfterInv(ss, resStart, resEnd, ops);
    hide Inv, IsBlockOf;
    j, b := OwnerNow(s, Reserved(ss, resStart, resEnd), a);
    assert SamePlace(InitialZones(ss, resStart, resEnd)[j], s.zones[j]);
  }

  lemma {:induction false} LiveOutsideHead(ss: seq<Section>, resStart: nat, resEnd: nat, ops: seq<Op>)
    requires FromStart(ss, resStart, resEnd, ops) && !AllInHead(After(ss, resStart, resEnd, ops))
    ensures ReservedBlocks(ss[0], resStart, resEnd) == {} && 1 < |ss|
    ensures |ReservedBlocks(ss[1], resStart, resEnd)| < Blocks(ss[1])
  {
    hide Reserved, ReservedBlocks;
    RunKeepsRanges(Start(ss, resStart, resEnd), ops);
    var a :| a in After(ss, resStart, resEnd, ops).live && !IsBlockOf(After(ss, resStart, resEnd, ops).zones[0], a);
    var j, b := OwnerOf(ss, resStart, resEnd, ops, a);
    LiveIsUnblocked(ss, resStart, resEnd, ops, j, b);
    SomeUnreserved(ss[1], resStart, resEnd);
    assert j > 1 ==> ReservedBlocks(ss[1], resStart, resEnd) == {};
  }

  lemma {:induction false} LeaveHead(ss: seq<Section>, resStart: nat, resEnd: nat) returns (ops: seq<Op>)
    requires 1 < |ss| && ValidSections(ss)
    requires ReservedBlocks(ss[0], resStart, resEnd) == {}
    requires |ReservedBlocks(ss[1], resStart, resEnd)| < Blocks(ss[1])
    ensures FromStart(ss, resStart, resEnd, ops) && !AllInHead(After(ss, resStart, resEnd, ops))
  {
    SomeUnreserved(ss[1], resStart, resEnd);
    var b: nat :| b < Blocks(ss[1]) && b !in ReservedBlocks(ss[1], resStart, resEnd);
    ReachableIff(ss, resStart, resEnd, 1, b);
    var a := BlockAddress(ss[1].base, b);
    ops :| FromStart(ss, resStart, resEnd, ops) && a in After(ss, resStart, resEnd, ops).live;
    var zs := After(ss, resStart, resEnd, ops).zones;
    AfterInv(ss, resStart, resEnd, ops);
    assert SamePlace(InitialZones(ss, resStart, resEnd)[1], zs[1]);
    assert IsBlockOf(zs[1], a);
    NotBlockOfOther(zs, 1, 0, a);
  }

  /**
   Exactly when some run makes a block outside the head live: the head has no reserved block and the section after it
   has an unreserved one.
   */
  lemma {:induction false} SomeRunLeavesHeadIff(ss: seq<Section>, resStart: nat, resEnd: nat)
    requires ss != [] && ValidSections(ss)
    ensures (exists ops :: FromStart(ss, resStart, resEnd, ops) && !AllInHead(After(ss, resStart, resEnd, ops)))
      <==> ReservedBlocks(ss[0], resStart, resEnd) == {} && 1 < |ss| &&
           |ReservedBlocks(ss[1], resStart, resEnd)| < Blocks(ss[1])
  {
    if ops :| FromStart(ss, resStart, resEnd, ops) && !AllInHead(After(ss, resStart, resEnd, ops)) {
      LiveOutsideHead(ss, resStart, resEnd, ops);
    } else if ReservedBlocks(ss[0], resStart, resEnd) == {} && 1 < |ss| &&
      |ReservedBlocks(ss[1], resStart, resEnd)| < Blocks(ss[1])
    {
      var ops := LeaveHead(ss, resStart, resEnd);
    }
  }

  // ---- a map on which the first allocation fails ----

  lemma {:induction false} NothingReserved(s: Section, resStart: nat, resEnd: nat)
    requires 0 < s.base && BLOCK_SIZE <= s.length && resStart <= resEnd
    requires LastByte(s) < resStart || resEnd < s.base
    ensures ReservedBlocks(s, resStart, resEnd) == {}
  {
    LosesBlockIff(s, resStart, resEnd);
  }

  /** One block at 0, one at 64K, the kernel at 1M: the very first allocation fails with a block left. */
  lemma {:induction false} UnreachableBlock()
    ensures var ss := [Section(0, 0x1000), Section(0x1_0000, 0x1000)];
      ValidSections(ss) && FailsWithMemoryLeft(Start(ss, 0x10_0000, 0x10_FFFF))
  {
    var ss := [Section(0, 0x1000), Section(0x1_0000, 0x1000)];
    NothingToTake();
    SomethingToTake();
    hide InitialZone, FailsWithMemoryLeft;
    StopsAtHead(Start(ss, 0x10_0000, 0x10_FFFF));
  }

  lemma {:induction false} StopsAtHead(s: State)
    requires |s.zones| == 2 && s.zones[0].free != 0 && s.zones[0].Clear() == {} && s.zones[1].Clear() != {}
    ensures FailsWithMemoryLeft(s)
  {
    SearchFinds(s.zones[0]);
  }

  lemma {:induction false} NothingToTake()
    ensures InitialZone(Section(0, 0x1000), 0x10_0000, 0x10_FFFF).Clear() == {}
    ensures InitialZone(Section(0, 0x1000), 0x10_0000, 0x10_FFFF).free != 0
  {
    assert BlockAddress(0, 0) == 0;
    assert 0 in InitialZone(Section(0, 0x1000), 0x10_0000, 0x10_FFFF).used;
  }

  lemma {:induction false} SomethingToTake()
    ensures InitialZone(Section(0x1_0000, 0x1000), 0x10_0000, 0x10_FFFF).Clear() != {}
  {
    NothingReserved(Section(0x1_0000, 0x1000), 0x10_0000, 0x10_FFFF);
    assert 0 in InitialZone(Section(0x1_0000, 0x1000), 0x10_0000, 0x10_FFFF).Clear();
  }
}
