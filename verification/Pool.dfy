/**
 What the allocator does to its zones, as a state machine over values: each zone is its address range, its
 counter and the set of block numbers whose bit is set. Runs are sequences of allocations and frees.
 */
module Pool {
  import opened Machine
  import opened MemoryMap
  import opened Bitmap
  import opened Layout

  /** `length` blocks, a bitmap of `capacity` bits, and the numbers of the bits that are set, padding included. */
  datatype ZoneState = ZoneState(start: nat, end: nat, length: nat, capacity: nat, free: nat, used: set<nat>)
  {
    /** Numbers of the bits that are clear. */
    ghost function Clear(): set<nat> {
      set b: nat | b < capacity && b !in used
    }
  }

  /** The numbers from lo up to, not including, hi. */
  ghost function Numbers(lo: nat, hi: nat): (r: set<nat>)
    ensures forall b :: b in r <==> lo <= b < hi
  {
    if hi <= lo then {} else Numbers(lo, hi - 1) + {hi - 1}
  }

  const NULL: nat := 0

  // ---- one allocation, one free ----

  /** The first zone whose counter is not 0, or |zs|. */
  function FirstZone(zs: seq<ZoneState>): (k: nat)
    ensures k <= |zs|
    ensures forall j :: 0 <= j < k ==> zs[j].free == 0
    ensures k < |zs| ==> zs[k].free != 0
  {
    if zs == [] || zs[0].free != 0 then 0 else 1 + FirstZone(zs[1..])
  }

  /** The least clear bit from `from` on, or the capacity. */
  function LeastClear(z: ZoneState, from: nat): (b: nat)
    requires from <= z.capacity
    ensures from <= b <= z.capacity
    ensures forall c :: from <= c < b ==> c in z.used
    ensures b < z.capacity ==> b !in z.used
    decreases z.capacity - from
  {
    if from == z.capacity || from !in z.used then from else LeastClear(z, from + 1)
  }

  /** The least clear bit is determined by what it is, not by how it is searched for. */
  lemma {:induction false} LeastClearUnique(z: ZoneState, b: nat)
    requires b <= z.capacity
    requires forall c :: 0 <= c < b ==> c in z.used
    requires b < z.capacity ==> b !in z.used
    ensures LeastClear(z, 0) == b
  {
    var l := LeastClear(z, 0);
    assert l < b ==> l in z.used;
    assert b < l ==> b in z.used;
  }

  function TakeBlock(z: ZoneState, b: nat): ZoneState
    requires z.free != 0
  {
    z.(free := z.free - 1, used := z.used + {b})
  }

  function ReleaseBlock(z: ZoneState, b: nat): ZoneState {
    z.(free := Wrap(z.free + 1), used := z.used - {b})
  }

  datatype Allocation = Allocation(zones: seq<ZoneState>, addr: nat)

  /** One allocation: the zones afterwards, and the address of the block or NULL. */
  function Alloc(zs: seq<ZoneState>): Allocation {
    var k := FirstZone(zs);
    if k == |zs| then Allocation(zs, NULL)
    else
      var b := LeastClear(zs[k], 0);
      if b == zs[k].capacity then Allocation(zs, NULL)
      else Allocation(zs[k := TakeBlock(zs[k], b)], Wrap(BlockAddress(zs[k].start, b)))
  }

  /** The block number `pmm_free` computes for an address: a 32-bit difference from the start of the HEAD zone. */
  function HeadOffset(zs: seq<ZoneState>, addr: nat): nat
    requires zs != []
  {
    Wrap(addr - zs[0].start) / BLOCK_SIZE
  }

  /** One free whose bit lies in the head's bitmap: the search never leaves the head zone. */
  function Free(zs: seq<ZoneState>, addr: nat): seq<ZoneState>
    requires zs != [] && HeadOffset(zs, addr) < zs[0].capacity
  {
    zs[0 := ReleaseBlock(zs[0], HeadOffset(zs, addr))]
  }

  // ---- runs ----

  datatype State = State(zones: seq<ZoneState>, live: set<nat>)

  datatype Op = AllocOp | FreeOp(addr: nat)

  /** `a` is the address of a block of zone z. */
  ghost predicate IsBlockOf(z: ZoneState, a: nat) {
    exists b: nat :: b < z.length && a == BlockAddress(z.start, b)
  }

  /** The bit that a free clears lies in the head's bitmap. */
  ghost predicate HitsHead(s: State, op: Op) {
    op.FreeOp? ==> s.zones != [] && HeadOffset(s.zones, op.addr) < s.zones[0].capacity
  }

  /** Frees are of live blocks of the head zone. */
  ghost predicate Legal(s: State, op: Op) {
    HitsHead(s, op) && (op.FreeOp? ==> op.addr in s.live && IsBlockOf(s.zones[0], op.addr))
  }

  ghost function Step(s: State, op: Op): State
    requires HitsHead(s, op)
  {
    match op
    case AllocOp =>
      var r := Alloc(s.zones);
      State(r.zones, if r.addr == NULL then s.live else s.live + {r.addr})
    case FreeOp(a) =>
      State(Free(s.zones, a), s.live - {a})
  }

  ghost predicate HittingRun(s: State, ops: seq<Op>)
    decreases |ops|
  {
    ops == [] || (HitsHead(s, ops[0]) && HittingRun(Step(s, ops[0]), ops[1..]))
  }

  ghost predicate LegalRun(s: State, ops: seq<Op>)
    ensures LegalRun(s, ops) ==> HittingRun(s, ops)
    decreases |ops|
  {
    ops == [] || (Legal(s, ops[0]) && LegalRun(Step(s, ops[0]), ops[1..]))
  }

  ghost function Run(s: State, ops: seq<Op>): State
    requires HittingRun(s, ops)
    decreases |ops|
  {
    if ops == [] then s else Run(Step(s, ops[0]), ops[1..])
  }

  lemma {:induction false} OneOp(s: State, op: Op)
    requires Legal(s, op)
    ensures LegalRun(s, [op]) && Run(s, [op]) == Step(s, op)
  {
    assert [op][1..] == [];
    assert Run(Step(s, op), []) == Step(s, op);
  }

  /** A run that begins with a given operation. */
  lemma {:induction false} OpThenRun(s: State, op: Op, ops: seq<Op>)
    requires Legal(s, op) && LegalRun(Step(s, op), ops)
    ensures LegalRun(s, [op] + ops) && Run(s, [op] + ops) == Run(Step(s, op), ops)
  {
    assert ([op] + ops)[1..] == ops;
  }

  // ---- the state after initialisation ----

  ghost function InitialZone(s: Section, resStart: nat, resEnd: nat): ZoneState
    requires BLOCK_SIZE <= s.length
  {
    var capacity := WORD * BitmapWords(s);
    ZoneState(s.base, LastByte(s), Blocks(s), capacity, Blocks(s),
              ReservedBlocks(s, resStart, resEnd) + Numbers(Blocks(s), capacity))
  }

  ghost function InitialZones(ss: seq<Section>, resStart: nat, resEnd: nat): (zs: seq<ZoneState>)
    requires ValidSections(ss)
    ensures |zs| == |ss|
    ensures forall k :: 0 <= k < |ss| ==> zs[k] == InitialZone(ss[k], resStart, resEnd)
  {
    seq(|ss|, k requires 0 <= k < |ss| => InitialZone(ss[k], resStart, resEnd))
  }

  // ---- the invariant of every run ----

  /** Block numbers of zone z that are live. */
  ghost function LiveIn(z: ZoneState, live: set<nat>): set<nat> {
    set b: nat | b < z.length && BlockAddress(z.start, b) in live
  }

  ghost predicate GoodGeometry(z: ZoneState) {
    && 1 <= z.length <= z.capacity < z.length + WORD && z.start <= z.end < TWO32
    && BlockAddress(z.start, z.length) <= z.end + 1
  }

  /** Reserved and live blocks are apart, make up the used ones, and the counter leaves out the live ones only. */
  ghost predicate GoodZone(z: ZoneState, live: set<nat>, reserved: set<nat>) {
    && z.used == reserved + LiveIn(z, live) + Numbers(z.length, z.capacity)
    && reserved !! LiveIn(z, live)
    && (forall b :: b in reserved ==> b < z.length)
    && z.free + |LiveIn(z, live)| == z.length
    && (z.start == 0 ==> 0 in reserved)
  }

  /** Same address range and size of bitmap. */
  ghost predicate SamePlace(z: ZoneState, w: ZoneState) {
    z.start == w.start && z.end == w.end && z.length == w.length && z.capacity == w.capacity
  }

  ghost predicate Apart(z: ZoneState, w: ZoneState) {
    z.end < w.start || w.end < z.start
  }

  /** Zones are well formed and share no address. */
  ghost predicate Arranged(zs: seq<ZoneState>) {
    && (forall k :: 0 <= k < |zs| ==> GoodGeometry(zs[k]))
    && (forall j, k :: 0 <= j < |zs| && 0 <= k < |zs| && j != k ==> Apart(zs[j], zs[k]))
  }

  ghost predicate Inv(s: State, reserved: seq<set<nat>>) {
    && s.zones != [] && |reserved| == |s.zones|
    && Arranged(s.zones)
    && (forall k :: 0 <= k < |s.zones| ==> GoodZone(s.zones[k], s.live, reserved[k]))
    && (forall a :: a in s.live ==> exists k :: 0 <= k < |s.zones| && IsBlockOf(s.zones[k], a))
  }

  /** The reserved blocks of every section. */
  ghost function Reserved(ss: seq<Section>, resStart: nat, resEnd: nat): (r: seq<set<nat>>)
    ensures |r| == |ss|
    ensures forall k :: 0 <= k < |ss| ==> r[k] == ReservedBlocks(ss[k], resStart, resEnd)
  {
    seq(|ss|, k requires 0 <= k < |ss| => ReservedBlocks(ss[k], resStart, resEnd))
  }

  lemma {:induction false} InitialZoneIsGood(s: Section, resStart: nat, resEnd: nat)
    requires BLOCK_SIZE <= s.length && s.base + s.length <= TWO32
    ensures var z := InitialZone(s, resStart, resEnd);
      GoodGeometry(z) && GoodZone(z, {}, ReservedBlocks(s, resStart, resEnd))
  {
    assert LiveIn(InitialZone(s, resStart, resEnd), {}) == {};
    if s.base == 0 {
      assert BlockAddress(s.base, 0) == 0;
    }
  }

  lemma {:induction false} InitialArranged(ss: seq<Section>, resStart: nat, resEnd: nat)
    requires ValidSections(ss)
    ensures Arranged(InitialZones(ss, resStart, resEnd))
  {
    var zs := InitialZones(ss, resStart, resEnd);
    forall k | 0 <= k < |zs| ensures GoodGeometry(zs[k]) {
      InitialZoneIsGood(ss[k], resStart, resEnd);
    }
    forall j, k | 0 <= j < |zs| && 0 <= k < |zs| && j != k ensures Apart(zs[j], zs[k]) {
      assert if j < k then Disjoint(ss[j], ss[k]) else Disjoint(ss[k], ss[j]);
    }
  }

  lemma {:induction false} InitialInv(ss: seq<Section>, resStart: nat, resEnd: nat)
    requires ss != [] && ValidSections(ss)
    ensures Inv(State(InitialZones(ss, resStart, resEnd), {}), Reserved(ss, resStart, resEnd))
  {
    InitialArranged(ss, resStart, resEnd);
    hide Arranged, GoodZone, InitialZone;
    var zs := InitialZones(ss, resStart, resEnd);
    forall k | 0 <= k < |zs| ensures GoodZone(zs[k], {}, Reserved(ss, resStart, resEnd)[k]) {
      InitialZoneIsGood(ss[k], resStart, resEnd);
    }
  }

  /** A block address of one zone is a block address of no other. */
  lemma {:induction false} NotBlockOfOther(zs: seq<ZoneState>, j: nat, k: nat, a: nat)
    requires Arranged(zs) && j < |zs| && k < |zs| && j != k
    requires IsBlockOf(zs[j], a)
    ensures !IsBlockOf(zs[k], a)
  {
    assert Apart(zs[j], zs[k]);
  }

  lemma {:induction false} OneOwner(zs: seq<ZoneState>, j: nat, k: nat, a: nat)
    requires Arranged(zs) && j < |zs| && k < |zs|
    requires IsBlockOf(zs[j], a) && IsBlockOf(zs[k], a)
    ensures j == k
  {
    assert zs[j].start <= a <= zs[j].end && zs[k].start <= a <= zs[k].end;
  }

  /** Making block b live, or no longer live, changes the live blocks of its own zone by b and of no other zone. */
  lemma {:induction false} LiveInChanges(zs: seq<ZoneState>, live: set<nat>, k: nat, b: nat, j: nat)
    requires k < |zs| && j < |zs| && b < zs[k].length
    requires Arranged(zs)
    ensures var a := BlockAddress(zs[k].start, b);
      && LiveIn(zs[j], live + {a}) == (if j == k then LiveIn(zs[j], live) + {b} else LiveIn(zs[j], live))
      && LiveIn(zs[j], live - {a}) == (if j == k then LiveIn(zs[j], live) - {b} else LiveIn(zs[j], live))
  {
    var a := BlockAddress(zs[k].start, b);
    assert IsBlockOf(zs[k], a);
    if j != k {
      NotBlockOfOther(zs, k, j, a);
    }
    forall c: nat | c < zs[j].length
      ensures BlockAddress(zs[j].start, c) == a <==> j == k && c == b
    {
    }
  }

  /** Zones may change their counters and bits without disturbing the arrangement or who owns a live address. */
  lemma {:induction false} RangesKept(zs: seq<ZoneState>, ts: seq<ZoneState>, live: set<nat>)
    requires Arranged(zs) && |ts| == |zs|
    requires forall k :: 0 <= k < |zs| ==> SamePlace(zs[k], ts[k])
    requires forall a :: a in live ==> exists k :: 0 <= k < |zs| && IsBlockOf(zs[k], a)
    ensures Arranged(ts)
    ensures forall a :: a in live ==> exists k :: 0 <= k < |ts| && IsBlockOf(ts[k], a)
  {
    forall a | a in live ensures exists k :: 0 <= k < |ts| && IsBlockOf(ts[k], a) {
      var k :| 0 <= k < |zs| && IsBlockOf(zs[k], a);
      assert IsBlockOf(ts[k], a);
    }
    forall j, k | 0 <= j < |zs| && 0 <= k < |zs| && j != k ensures Apart(ts[j], ts[k]) {
      assert Apart(zs[j], zs[k]);
    }
  }

  lemma {:induction false} TakingKeepsZone(z: ZoneState, live: set<nat>, reserved: set<nat>, b: nat, live': set<nat>)
    requires GoodZone(z, live, reserved) && z.free != 0 && b in z.Clear()
    requires LiveIn(z, live') == LiveIn(z, live) + {b}
    ensures GoodZone(TakeBlock(z, b), live', reserved)
  {
    assert LiveIn(TakeBlock(z, b), live') == LiveIn(z, live');
  }

  /** Block b of zone k, which must have a clear bit and a nonzero counter, is taken and becomes live. */
  function Taken(s: State, k: nat, b: nat): State
    requires k < |s.zones| && s.zones[k].free != 0
  {
    State(s.zones[k := TakeBlock(s.zones[k], b)], s.live + {BlockAddress(s.zones[k].start, b)})
  }

  lemma {:induction false} TakingKeepsEachZone(s: State, reserved: seq<set<nat>>, k: nat, b: nat, j: nat)
    requires Inv(s, reserved) && k < |s.zones| && j < |s.zones|
    requires s.zones[k].free != 0 && b in s.zones[k].Clear()
    ensures GoodZone(Taken(s, k, b).zones[j], Taken(s, k, b).live, reserved[j])
  {
    assert GoodZone(s.zones[j], s.live, reserved[j]);
    LiveInChanges(s.zones, s.live, k, b, j);
    if j == k {
      TakingKeepsZone(s.zones[k], s.live, reserved[k], b, Taken(s, k, b).live);
    }
  }

  lemma {:induction false} TakingKeepsInv(s: State, reserved: seq<set<nat>>, k: nat, b: nat)
    requires Inv(s, reserved) && k < |s.zones|
    requires s.zones[k].free != 0 && b in s.zones[k].Clear()
    ensures Inv(Taken(s, k, b), reserved)
  {
    var t := Taken(s, k, b);
    forall c | c in t.live ensures exists j :: 0 <= j < |s.zones| && IsBlockOf(s.zones[j], c) {
      if c !in s.live { assert IsBlockOf(s.zones[k], c); }
    }
    RangesKept(s.zones, t.zones, t.live);
    forall j | 0 <= j < |t.zones| ensures GoodZone(t.zones[j], t.live, reserved[j]) {
      TakingKeepsEachZone(s, reserved, k, b, j);
    }
  }

  /** A clear bit stands for a block, which is not at address 0 and below 2^32. */
  lemma {:induction false} ClearBitIsBlock(s: State, reserved: seq<set<nat>>, k: nat, b: nat)
    requires Inv(s, reserved) && k < |s.zones| && b in s.zones[k].Clear()
    ensures b < s.zones[k].length && NULL < BlockAddress(s.zones[k].start, b) < TWO32
  {
    hide LiveIn, IsBlockOf;
    assert GoodGeometry(s.zones[k]) && GoodZone(s.zones[k], s.live, reserved[k]);
  }

  /** The block an allocation takes, if the first zone with a nonzero counter has a clear one. */
  predicate CanTake(s: State) {
    var k := FirstZone(s.zones);
    k < |s.zones| && LeastClear(s.zones[k], 0) < s.zones[k].capacity
  }

  /** The state after an allocation: that block is taken and live, or nothing changes. */
  function AfterAlloc(s: State): State {
    if CanTake(s) then Taken(s, FirstZone(s.zones), LeastClear(s.zones[FirstZone(s.zones)], 0)) else s
  }

  lemma {:induction false} AllocStep(s: State, reserved: seq<set<nat>>)
    requires Inv(s, reserved)
    ensures Step(s, AllocOp) == AfterAlloc(s)
  {
    hide Inv;
    if CanTake(s) {
      var k := FirstZone(s.zones);
      ClearBitIsBlock(s, reserved, k, LeastClear(s.zones[k], 0));
    }
  }

  lemma {:induction false} AllocKeepsInv(s: State, reserved: seq<set<nat>>)
    requires Inv(s, reserved)
    ensures Inv(Step(s, AllocOp), reserved)
  {
    AllocStep(s, reserved);
    hide Inv, Step;
    if CanTake(s) {
      var k := FirstZone(s.zones);
      TakingKeepsInv(s, reserved, k, LeastClear(s.zones[k], 0));
    }
  }

  /** `pmm_free` inverts the address computation of `pmm_alloc` for every block of the head zone. */
  lemma {:induction false} HeadOffsetInverts(zs: seq<ZoneState>, b: nat)
    requires zs != [] && GoodGeometry(zs[0]) && b < zs[0].length
    ensures HeadOffset(zs, BlockAddress(zs[0].start, b)) == b
  {
  }

  lemma {:induction false} ReleasingKeepsZone(z: ZoneState, live: set<nat>, reserved: set<nat>, b: nat, live': set<nat>)
    requires GoodZone(z, live, reserved) && b in LiveIn(z, live) && z.length < TWO32
    requires LiveIn(z, live') == LiveIn(z, live) - {b}
    ensures GoodZone(ReleaseBlock(z, b), live', reserved)
  {
    assert LiveIn(ReleaseBlock(z, b), live') == LiveIn(z, live');
  }

  /** Block b of the head is released and no longer live. */
  function Released(s: State, b: nat): State
    requires s.zones != []
  {
    State(s.zones[0 := ReleaseBlock(s.zones[0], b)], s.live - {BlockAddress(s.zones[0].start, b)})
  }

  lemma {:induction false} ReleasingKeepsEachZone(s: State, reserved: seq<set<nat>>, b: nat, j: nat)
    requires Inv(s, reserved) && j < |s.zones|
    requires b in LiveIn(s.zones[0], s.live)
    ensures GoodZone(Released(s, b).zones[j], Released(s, b).live, reserved[j])
  {
    assert GoodZone(s.zones[j], s.live, reserved[j]) && GoodGeometry(s.zones[j]);
    LiveInChanges(s.zones, s.live, 0, b, j);
    if j == 0 {
      ReleasingKeepsZone(s.zones[0], s.live, reserved[0], b, Released(s, b).live);
    }
  }

  lemma {:induction false} ReleasingKeepsInv(s: State, reserved: seq<set<nat>>, b: nat)
    requires Inv(s, reserved) && b in LiveIn(s.zones[0], s.live)
    ensures Inv(Released(s, b), reserved)
  {
    var t := Released(s, b);
    RangesKept(s.zones, t.zones, t.live);
    forall j | 0 <= j < |t.zones| ensures GoodZone(t.zones[j], t.live, reserved[j]) {
      ReleasingKeepsEachZone(s, reserved, b, j);
    }
  }

  lemma {:induction false} FreeKeepsInv(s: State, reserved: seq<set<nat>>, a: nat)
    requires Inv(s, reserved) && Legal(s, FreeOp(a))
    ensures Inv(Step(s, FreeOp(a)), reserved)
  {
    var b: nat :| b < s.zones[0].length && a == BlockAddress(s.zones[0].start, b);
    HeadOffsetInverts(s.zones, b);
    assert Step(s, FreeOp(a)) == Released(s, b);
    ReleasingKeepsInv(s, reserved, b);
  }

  /** The invariant holds at the end of every legal run, with the reserved blocks unchanged. */
  lemma {:induction false} RunKeepsInv(s: State, reserved: seq<set<nat>>, ops: seq<Op>)
    requires Inv(s, reserved) && LegalRun(s, ops)
    ensures Inv(Run(s, ops), reserved)
    decreases |ops|
  {
    if ops != [] {
      match ops[0] {
        case AllocOp => AllocKeepsInv(s, reserved);
        case FreeOp(a) => FreeKeepsInv(s, reserved, a);
      }
      RunKeepsInv(Step(s, ops[0]), reserved, ops[1..]);
    }
  }
}
