/**
 Frees of blocks outside the head zone. `pmm_free` never leaves the head, so such a free clears a padding bit of the
 head's bitmap or a bit of some word behind it. Here: when the cleared bit stands for the block, runs that free through
 the padding, and which word a free behind the bitmap writes.
 */
module OffHead {
  import opened Machine
  import opened MemoryMap
  import opened Bitmap
  import opened Layout
  import opened Pool
  import opened PoolTheorems
  import opened Reach

  /** The bitmap pointer is the field of a zone header after six others. */
  const BITMAP_FIELD := 6

  // ---- one free ----

  /**
   A free releases the bit of the block itself exactly when the block is in the head; the offset of any other block
   lies beyond the head's blocks.
   */
  lemma {:induction false} FreeIsRightIff(zs: seq<ZoneState>, k: nat, b: nat)
    requires Arranged(zs) && k < |zs| && b < zs[k].length
    ensures var a := BlockAddress(zs[k].start, b);
      && (HeadOffset(zs, a) < zs[0].length <==> k == 0)
      && (HeadOffset(zs, a) < zs[0].capacity ==> (Free(zs, a) == zs[k := ReleaseBlock(zs[k], b)] <==> k == 0))
  {
    var a := BlockAddress(zs[k].start, b);
    if k == 0 {
      HeadOffsetInverts(zs, b);
    } else {
      assert Apart(zs[0], zs[k]);
      if HeadOffset(zs, a) < zs[0].capacity {
        assert Free(zs, a)[0] == ReleaseBlock(zs[0], HeadOffset(zs, a));
        ReleasingDiffers(zs[0], HeadOffset(zs, a));
      }
    }
  }

  lemma {:induction false} ReleasingDiffers(z: ZoneState, b: nat)
    ensures ReleaseBlock(z, b) != z
  {
    assert ReleaseBlock(z, b).free != z.free;
  }

  /** The bit that freeing `a` clears is in the head's bitmap, and allocating that bit gives `a`. */
  predicate GivesBack(zs: seq<ZoneState>, a: nat)
    requires zs != []
  {
    HeadOffset(zs, a) < zs[0].capacity && Wrap(BlockAddress(zs[0].start, HeadOffset(zs, a))) == a
  }

  /** The bit's address is `a` exactly when `a` lies a whole number of blocks from the head's start, modulo 2^32. */
  lemma {:induction false} GivesBackIff(zs: seq<ZoneState>, a: nat)
    requires zs != [] && zs[0].start < TWO32 && a < TWO32
    ensures GivesBack(zs, a) <==>
      Wrap(a - zs[0].start) % BLOCK_SIZE == 0 && Wrap(a - zs[0].start) / BLOCK_SIZE < zs[0].capacity
  {
    var d := Wrap(a - zs[0].start);
    assert d == a - zs[0].start || d == a - zs[0].start + TWO32;
    assert BlockAddress(zs[0].start, HeadOffset(zs, a)) == zs[0].start + d - d % BLOCK_SIZE;
  }

  /** Every block of the head is given back. */
  lemma {:induction false} HeadGivesBack(zs: seq<ZoneState>, a: nat)
    requires zs != [] && GoodGeometry(zs[0]) && IsBlockOf(zs[0], a)
    ensures GivesBack(zs, a)
  {
    var b: nat :| b < zs[0].length && a == BlockAddress(zs[0].start, b);
    HeadOffsetInverts(zs, b);
  }

  // ---- what later allocations make of a free ----

  function AllocTimes(zs: seq<ZoneState>, n: nat): seq<ZoneState>
    decreases n
  {
    if n == 0 then zs else AllocTimes(Alloc(zs).zones, n - 1)
  }

  /** Allocations, as many as it takes, give out address `a`. */
  ghost predicate ComesOut(zs: seq<ZoneState>, a: nat) {
    exists n: nat :: Alloc(AllocTimes(zs, n)).addr == a
  }

  lemma {:induction false} ClearBitComesOut(zs: seq<ZoneState>, o: nat)
    requires zs != [] && o in zs[0].Clear() && |zs[0].Clear()| <= zs[0].free
    ensures ComesOut(zs, Wrap(BlockAddress(zs[0].start, o)))
    decreases |zs[0].Clear()|
  {
    var z, a := zs[0], Wrap(BlockAddress(zs[0].start, o));
    assert z.Clear() != {} && FirstZone(zs) == 0;
    SearchFinds(z);
    var m := LeastClear(z, 0);
    var t := TakeBlock(z, m);
    assert Alloc(zs) == Allocation(zs[0 := t], Wrap(BlockAddress(z.start, m)));
    if m == o {
      assert Alloc(AllocTimes(zs, 0)).addr == a;
    } else {
      assert t.Clear() == z.Clear() - {m};
      ClearBitComesOut(zs[0 := t], o);
      var n: nat :| Alloc(AllocTimes(zs[0 := t], n)).addr == a;
      assert AllocTimes(zs, n + 1) == AllocTimes(zs[0 := t], n);
    }
  }

  /** No clear bit of any zone stands for address `a`. */
  ghost predicate NoBitFor(zs: seq<ZoneState>, a: nat) {
    forall k, c :: 0 <= k < |zs| && c in zs[k].Clear() ==> Wrap(BlockAddress(zs[k].start, c)) != a
  }

  lemma {:induction false} WithoutBitNeverOut(zs: seq<ZoneState>, a: nat, n: nat)
    requires NoBitFor(zs, a) && a != NULL
    ensures Alloc(AllocTimes(zs, n)).addr != a
    decreases n
  {
    var k, ts := FirstZone(zs), Alloc(zs).zones;
    if k < |zs| {
      SearchFinds(zs[k]);
    }
    if n != 0 {
      forall j, c | 0 <= j < |ts| && c in ts[j].Clear() ensures Wrap(BlockAddress(ts[j].start, c)) != a {
        assert c in zs[j].Clear();
      }
      WithoutBitNeverOut(ts, a, n - 1);
    }
  }

  lemma {:induction false} LiveBlockBounds(z: ZoneState, live: set<nat>, reserved: set<nat>, b: nat)
    requires GoodZone(z, live, reserved) && GoodGeometry(z) && b < z.length && BlockAddress(z.start, b) in live
    ensures NULL < BlockAddress(z.start, b) < TWO32
  {
    assert b in LiveIn(z, live);
  }

  lemma {:induction false} LiveIsNotNull(s: State, reserved: seq<set<nat>>, a: nat)
    requires Inv(s, reserved) && a in s.live
    ensures NULL < a < TWO32
  {
    var k :| 0 <= k < |s.zones| && IsBlockOf(s.zones[k], a);
    var b: nat :| b < s.zones[k].length && a == BlockAddress(s.zones[k].start, b);
    assert GoodZone(s.zones[k], s.live, reserved[k]) && GoodGeometry(s.zones[k]);
    hide Inv;
    LiveBlockBounds(s.zones[k], s.live, reserved[k], b);
  }

  lemma {:induction false} FreeLeavesNoBit(s: State, reserved: seq<set<nat>>, a: nat)
    requires Inv(s, reserved) && a in s.live && HitsHead(s, FreeOp(a)) && !GivesBack(s.zones, a)
    ensures NoBitFor(Free(s.zones, a), a)
  {
    var zs, ts := s.zones, Free(s.zones, a);
    forall k: nat, c: nat | k < |ts| && c in ts[k].Clear() ensures Wrap(BlockAddress(ts[k].start, c)) != a {
      if k != 0 || c != HeadOffset(zs, a) {
        assert c in zs[k].Clear();
        ClearIsNotLive(s, reserved, k, c);
        ClearBitIsBlock(s, reserved, k, c);
      }
    }
  }

  lemma {:induction false} ClearAfterRelease(z: ZoneState, o: nat)
    requires o < z.capacity && |z.Clear()| <= z.free < TWO32 - 1
    ensures var t := ReleaseBlock(z, o);
      o in t.Clear() && |t.Clear()| <= t.free
  {
    assert ReleaseBlock(z, o).Clear() == z.Clear() + {o};
  }

  lemma {:induction false} FreedBitComesOut(s: State, reserved: seq<set<nat>>, a: nat)
    requires Inv(s, reserved) && HitsHead(s, FreeOp(a))
    ensures ComesOut(Free(s.zones, a), Wrap(BlockAddress(s.zones[0].start, HeadOffset(s.zones, a))))
  {
    var z, o := s.zones[0], HeadOffset(s.zones, a);
    UsedUp(s, reserved, 0);
    CounterFits(s, reserved, 0);
    hide Inv;
    ClearAfterRelease(z, o);
    ClearBitComesOut(Free(s.zones, a), o);
  }

  /**
   When the bit lies in the head's bitmap, the block at `a` can be allocated again after its free exactly when the free
   gives it back; the address of the cleared bit is handed out in any case.
   */
  lemma {:induction false} NearFreeComesBackIff(s: State, reserved: seq<set<nat>>, a: nat)
    requires Inv(s, reserved) && a in s.live && HitsHead(s, FreeOp(a))
    ensures ComesOut(Free(s.zones, a), a) <==> GivesBack(s.zones, a)
    ensures ComesOut(Free(s.zones, a), Wrap(BlockAddress(s.zones[0].start, HeadOffset(s.zones, a))))
  {
    FreedBitComesOut(s, reserved, a);
    LiveIsNotNull(s, reserved, a);
    hide Inv;
    if !GivesBack(s.zones, a) {
      FreeLeavesNoBit(s, reserved, a);
      forall n: nat ensures Alloc(AllocTimes(Free(s.zones, a), n)).addr != a {
        WithoutBitNeverOut(Free(s.zones, a), a, n);
      }
    }
  }

  /**
   An address handed out in place of the freed one begins below it, so its block has a byte that is no byte of the
   freed block's zone from there on: it shares a byte with the block before, or begins outside the zone.
   */
  lemma {:induction false} WrongBlockSharesBefore(zs: seq<ZoneState>, k: nat, b: nat)
    requires Arranged(zs) && 0 < k < |zs| && b < zs[k].length
    requires !GivesBack(zs, BlockAddress(zs[k].start, b))
    ensures var a := BlockAddress(zs[k].start, b);
      var r := Wrap(BlockAddress(zs[0].start, HeadOffset(zs, a)));
      HeadOffset(zs, a) < zs[0].capacity ==>
        if b == 0 then !(zs[k].start <= r <= zs[k].end) else BlockShares(r, a - BLOCK_SIZE, a - 1)
  {
    var a := BlockAddress(zs[k].start, b);
    var r := Wrap(BlockAddress(zs[0].start, HeadOffset(zs, a)));
    if HeadOffset(zs, a) < zs[0].capacity {
      var d := Wrap(a - zs[0].start);
      assert d == a - zs[0].start || d == a - zs[0].start + TWO32;
      assert BlockAddress(zs[0].start, HeadOffset(zs, a)) == zs[0].start + d - d % BLOCK_SIZE;
      assert r == Wrap(a - d % BLOCK_SIZE);
      ShareIsOverlap(r, r + BLOCK_SIZE - 1, a - BLOCK_SIZE, a - 1);
    }
  }

  // ---- runs that free any block which is given back ----

  /** Frees are of live blocks, of any zone, that are given back. */
  ghost predicate Gives(s: State, op: Op) {
    HitsHead(s, op) && (op.FreeOp? ==> op.addr in s.live && GivesBack(s.zones, op.addr))
  }

  ghost predicate GivingRun(s: State, ops: seq<Op>)
    ensures GivingRun(s, ops) ==> HittingRun(s, ops)
    decreases |ops|
  {
    ops == [] || (Gives(s, ops[0]) && GivingRun(Step(s, ops[0]), ops[1..]))
  }

  /** Addresses of the given bits of a zone. */
  ghost function Addresses(z: ZoneState, bits: set<nat>): set<nat> {
    set o | o in bits :: Wrap(BlockAddress(z.start, o))
  }

  /** Bits of the head's padding whose addresses are live, as blocks of some later zone. */
  ghost predicate LentOut(t: State, gone: set<nat>) {
    && t.zones != []
    && gone <= Numbers(t.zones[0].length, t.zones[0].capacity)
    && Addresses(t.zones[0], gone) <= t.live
  }

  ghost function ClearedZone(z: ZoneState, gone: set<nat>): ZoneState {
    z.(free := z.free + |gone|, used := z.used - gone)
  }

  /** t after the blocks at the addresses of `gone` have been freed into the head's padding. */
  ghost function Cleared(t: State, gone: set<nat>): State
    requires t.zones != []
  {
    State(t.zones[0 := ClearedZone(t.zones[0], gone)], t.live - Addresses(t.zones[0], gone))
  }

  lemma {:induction false} NothingCleared(t: State)
    requires t.zones != []
    ensures Cleared(t, {}) == t && LentOut(t, {})
  {
    assert Addresses(t.zones[0], {}) == {};
    assert t.zones[0].used - {} == t.zones[0].used;
  }

  /** Addresses of different bits less than 2^20 apart are different. */
  lemma {:induction false} AddressesDiffer(start: nat, o: nat, m: nat)
    requires o < m < o + 0x10_0000
    ensures Wrap(BlockAddress(start, o)) != Wrap(BlockAddress(start, m))
  {
    assert BlockAddress(start, m) - BlockAddress(start, o) == (m - o) * BLOCK_SIZE;
  }

  lemma {:induction false} AddressesLess(z: ZoneState, gone: set<nat>, m: nat)
    requires GoodGeometry(z) && gone <= Numbers(z.length, z.capacity) && m in gone
    ensures Addresses(z, gone - {m}) == Addresses(z, gone) - {Wrap(BlockAddress(z.start, m))}
  {
    forall o | o in gone && o != m ensures Wrap(BlockAddress(z.start, o)) != Wrap(BlockAddress(z.start, m)) {
      AddressesDiffer(z.start, if o < m then o else m, if o < m then m else o);
    }
  }

  /** Setting bit m of `gone` again makes `gone` smaller by m. */
  lemma {:induction false} OneLess(t: State, gone: set<nat>, m: nat)
    requires LentOut(t, gone) && GoodGeometry(t.zones[0]) && m in gone && m in t.zones[0].used
    ensures LentOut(t, gone - {m}) && Cleared(t, gone).zones[0].free != 0
    ensures Taken(Cleared(t, gone), 0, m).zones == Cleared(t, gone - {m}).zones
    ensures Cleared(t, gone).live + {Wrap(BlockAddress(t.zones[0].start, m))} == Cleared(t, gone - {m}).live
  {
    var z, a := t.zones[0], Wrap(BlockAddress(t.zones[0].start, m));
    AddressesLess(z, gone, m);
    assert a in Addresses(z, gone);
    hide Addresses, GoodGeometry, Wrap;
    PutBack(z, gone, m);
    PutBackLive(t.live, Addresses(z, gone), a);
  }

  lemma {:induction false} PutBack(z: ZoneState, gone: set<nat>, m: nat)
    requires m in z.used && m in gone
    ensures ClearedZone(z, gone).free != 0
    ensures TakeBlock(ClearedZone(z, gone), m) == ClearedZone(z, gone - {m})
  {
    assert |gone - {m}| == |gone| - 1;
    assert z.used - gone + {m} == z.used - (gone - {m});
  }

  lemma {:induction false} PutBackLive(live: set<nat>, gone: set<nat>, a: nat)
    requires a in live && a in gone
    ensures live - gone + {a} == live - (gone - {a})
  {
  }

  lemma {:induction false} PaddingIsUsed(t: State, reserved: seq<set<nat>>, gone: set<nat>, m: nat)
    requires Inv(t, reserved) && LentOut(t, gone) && m in gone
    ensures m in t.zones[0].used && NULL < Wrap(BlockAddress(t.zones[0].start, m))
  {
    var z := t.zones[0];
    assert Wrap(BlockAddress(z.start, m)) in Addresses(z, gone);
    LiveIsNotNull(t, reserved, Wrap(BlockAddress(z.start, m)));
    assert GoodZone(z, t.live, reserved[0]);
  }

  /** Allocating a bit of `gone` puts its block back: t stays, `gone` shrinks. */
  lemma {:induction false} AllocFromPadding(t: State, reserved: seq<set<nat>>, gone: set<nat>)
    requires Inv(t, reserved) && LentOut(t, gone)
    requires LeastClear(Cleared(t, gone).zones[0], 0) in gone
    ensures var m := LeastClear(Cleared(t, gone).zones[0], 0);
      LentOut(t, gone - {m}) && Step(Cleared(t, gone), AllocOp) == Cleared(t, gone - {m})
  {
    var s := Cleared(t, gone);
    var m := LeastClear(s.zones[0], 0);
    PaddingIsUsed(t, reserved, gone, m);
    hide Inv, LeastClear;
    OneLess(t, gone, m);
    hide LentOut, Cleared;
    assert FirstZone(s.zones) == 0;
  }

  lemma {:induction false} SameLeast(z: ZoneState, y: ZoneState, gone: set<nat>)
    requires y.used == z.used - gone && y.capacity == z.capacity
    requires gone != {} && gone <= Numbers(z.length, z.capacity) && LeastClear(y, 0) !in gone
    ensures LeastClear(z, 0) == LeastClear(y, 0) && LeastClear(y, 0) in z.Clear()
  {
    var o :| o in gone;
    assert o in y.Clear();
    SearchFinds(y);
    var m := LeastClear(y, 0);
    forall c | 0 <= c < m ensures c in z.used {
      assert c in y.used;
    }
    LeastClearUnique(z, m);
  }

  /** Otherwise the same block is taken as without the cleared bits. */
  lemma {:induction false} SameChoice(t: State, reserved: seq<set<nat>>, gone: set<nat>)
    requires Inv(t, reserved) && LentOut(t, gone) && gone != {}
    requires LeastClear(Cleared(t, gone).zones[0], 0) !in gone
    ensures var m := LeastClear(Cleared(t, gone).zones[0], 0);
      && FirstZone(t.zones) == 0 == FirstZone(Cleared(t, gone).zones)
      && LeastClear(t.zones[0], 0) == m && m in t.zones[0].Clear()
  {
    UsedUp(t, reserved, 0);
    hide Inv, LeastClear;
    SameLeast(t.zones[0], Cleared(t, gone).zones[0], gone);
  }

  lemma {:induction false} TakingCommutes(t: State, gone: set<nat>, m: nat)
    requires LentOut(t, gone) && t.zones[0].free != 0 && m !in gone
    requires BlockAddress(t.zones[0].start, m) !in t.live
    ensures LentOut(Taken(t, 0, m), gone) && Taken(Cleared(t, gone), 0, m) == Cleared(Taken(t, 0, m), gone)
  {
    var z, a := t.zones[0], BlockAddress(t.zones[0].start, m);
    assert Addresses(Taken(t, 0, m).zones[0], gone) == Addresses(z, gone);
    assert z.used - gone + {m} == z.used + {m} - gone;
    assert t.live - Addresses(z, gone) + {a} == t.live + {a} - Addresses(z, gone);
  }

  lemma {:induction false} AllocFromElsewhere(t: State, reserved: seq<set<nat>>, gone: set<nat>)
    requires Inv(t, reserved) && LentOut(t, gone) && gone != {}
    requires LeastClear(Cleared(t, gone).zones[0], 0) !in gone
    ensures LentOut(Step(t, AllocOp), gone) && Step(Cleared(t, gone), AllocOp) == Cleared(Step(t, AllocOp), gone)
  {
    var s, m := Cleared(t, gone), LeastClear(Cleared(t, gone).zones[0], 0);
    SameChoice(t, reserved, gone);
    ClearBitIsBlock(t, reserved, 0, m);
    ClearIsNotLive(t, reserved, 0, m);
    AllocStep(t, reserved);
    hide Inv, LeastClear;
    TakingCommutes(t, gone, m);
    hide LentOut, Cleared;
    TakesFromHead(s, m);
  }

  lemma {:induction false} TakesFromHead(s: State, m: nat)
    requires s.zones != [] && FirstZone(s.zones) == 0 && LeastClear(s.zones[0], 0) == m < s.zones[0].capacity
    requires NULL < BlockAddress(s.zones[0].start, m) < TWO32
    ensures Step(s, AllocOp) == Taken(s, 0, m)
  {
  }

  /** One allocation: a step of t, or no step of it. */
  lemma {:induction false} AllocMatches(t: State, reserved: seq<set<nat>>, gone: set<nat>)
    returns (ops: seq<Op>, rest: set<nat>)
    requires Inv(t, reserved) && LentOut(t, gone)
    ensures LegalRun(t, ops) && LentOut(Run(t, ops), rest)
    ensures Step(Cleared(t, gone), AllocOp) == Cleared(Run(t, ops), rest)
  {
    ops, rest := [AllocOp], gone;
    OneOp(t, AllocOp);
    hide Inv, LegalRun, Run, Step;
    if gone == {} {
      NothingCleared(t);
      NothingCleared(Step(t, AllocOp));
    } else if LeastClear(Cleared(t, gone).zones[0], 0) in gone {
      AllocFromPadding(t, reserved, gone);
      ops, rest := [], gone - {LeastClear(Cleared(t, gone).zones[0], 0)};
    } else {
      AllocFromElsewhere(t, reserved, gone);
    }
  }

  lemma {:induction false} CounterStaysSmall(t: State, reserved: seq<set<nat>>, gone: set<nat>)
    requires Inv(t, reserved) && LentOut(t, gone)
    ensures t.zones[0].free + |gone| + 1 < TWO32
  {
    var z := t.zones[0];
    CounterFits(t, reserved, 0);
    hide Inv;
    NumbersSize(z.length, z.capacity);
    assert |Numbers(z.length, z.capacity) - gone| == |Numbers(z.length, z.capacity)| - |gone|;
  }

  lemma {:induction false} OneMore(t: State, gone: set<nat>, o: nat)
    requires LentOut(t, gone) && t.zones[0].length <= o < t.zones[0].capacity
    requires Wrap(BlockAddress(t.zones[0].start, o)) in Cleared(t, gone).live
    requires t.zones[0].free + |gone| + 1 < TWO32
    ensures LentOut(t, gone + {o})
    ensures Cleared(t, gone).zones[0 := ReleaseBlock(Cleared(t, gone).zones[0], o)] == Cleared(t, gone + {o}).zones
    ensures Cleared(t, gone).live - {Wrap(BlockAddress(t.zones[0].start, o))} == Cleared(t, gone + {o}).live
  {
    var z, a := t.zones[0], Wrap(BlockAddress(t.zones[0].start, o));
    assert o in gone ==> a in Addresses(z, gone);
    assert Addresses(z, gone + {o}) == Addresses(z, gone) + {a};
    hide Addresses, Wrap;
    TakeOut(z, gone, o);
    TakeOutLive(t.live, Addresses(z, gone), a);
  }

  lemma {:induction false} TakeOut(z: ZoneState, gone: set<nat>, o: nat)
    requires o !in gone && z.free + |gone| + 1 < TWO32
    ensures ReleaseBlock(ClearedZone(z, gone), o) == ClearedZone(z, gone + {o})
  {
    assert z.used - gone - {o} == z.used - (gone + {o});
  }

  lemma {:induction false} TakeOutLive(live: set<nat>, gone: set<nat>, a: nat)
    ensures live - gone - {a} == live - (gone + {a})
  {
  }

  lemma {:induction false} FreeOfCleared(t: State, gone: set<nat>, a: nat)
    requires LentOut(t, gone) && Gives(Cleared(t, gone), FreeOp(a))
    ensures var s, o := Cleared(t, gone), HeadOffset(t.zones, a);
      && o < t.zones[0].capacity && a == Wrap(BlockAddress(t.zones[0].start, o)) && a in s.live
      && Step(s, FreeOp(a)) == State(s.zones[0 := ReleaseBlock(s.zones[0], o)], s.live - {a})
  {
  }

  lemma {:induction false} FreeToPadding(t: State, reserved: seq<set<nat>>, gone: set<nat>, a: nat)
    requires Inv(t, reserved) && LentOut(t, gone) && Gives(Cleared(t, gone), FreeOp(a))
    requires HeadOffset(t.zones, a) >= t.zones[0].length
    ensures var o := HeadOffset(t.zones, a);
      LentOut(t, gone + {o}) && Step(Cleared(t, gone), FreeOp(a)) == Cleared(t, gone + {o})
  {
    CounterStaysSmall(t, reserved, gone);
    FreeOfCleared(t, gone, a);
    hide Inv, Gives, Step;
    OneMore(t, gone, HeadOffset(t.zones, a));
  }

  lemma {:induction false} ReleasingCommutes(t: State, gone: set<nat>, o: nat)
    requires LentOut(t, gone) && t.zones[0].free + |gone| + 1 < TWO32
    requires BlockAddress(t.zones[0].start, o) in Cleared(t, gone).live
    ensures LentOut(Released(t, o), gone) && Released(Cleared(t, gone), o) == Cleared(Released(t, o), gone)
  {
    var z, a := t.zones[0], BlockAddress(t.zones[0].start, o);
    assert Addresses(Released(t, o).zones[0], gone) == Addresses(z, gone);
    assert z.used - gone - {o} == z.used - {o} - gone;
    assert t.live - Addresses(z, gone) - {a} == t.live - {a} - Addresses(z, gone);
  }

  lemma {:induction false} FreeToHead(t: State, reserved: seq<set<nat>>, gone: set<nat>, a: nat)
    requires Inv(t, reserved) && LentOut(t, gone) && Gives(Cleared(t, gone), FreeOp(a))
    requires HeadOffset(t.zones, a) < t.zones[0].length
    ensures Legal(t, FreeOp(a)) && LentOut(Step(t, FreeOp(a)), gone)
    ensures Step(Cleared(t, gone), FreeOp(a)) == Cleared(Step(t, FreeOp(a)), gone)
  {
    var z, o := t.zones[0], HeadOffset(t.zones, a);
    CounterStaysSmall(t, reserved, gone);
    FreeOfCleared(t, gone, a);
    assert GoodGeometry(z);
    hide Inv, Gives;
    assert a == BlockAddress(z.start, o) && IsBlockOf(z, a);
    ReleasingCommutes(t, gone, o);
  }

  /** One free: a step of t, or no step of it. */
  lemma {:induction false} FreeMatches(t: State, reserved: seq<set<nat>>, gone: set<nat>, a: nat)
    returns (ops: seq<Op>, rest: set<nat>)
    requires Inv(t, reserved) && LentOut(t, gone) && Gives(Cleared(t, gone), FreeOp(a))
    ensures LegalRun(t, ops) && LentOut(Run(t, ops), rest)
    ensures Step(Cleared(t, gone), FreeOp(a)) == Cleared(Run(t, ops), rest)
  {
    if HeadOffset(t.zones, a) < t.zones[0].length {
      FreeToHead(t, reserved, gone, a);
      ops, rest := [FreeOp(a)], gone;
      OneOp(t, FreeOp(a));
    } else {
      FreeToPadding(t, reserved, gone, a);
      ops, rest := [], gone + {HeadOffset(t.zones, a)};
    }
  }

  lemma {:induction false} RunThenRun(t: State, first: seq<Op>, second: seq<Op>)
    requires LegalRun(t, first) && LegalRun(Run(t, first), second)
    ensures LegalRun(t, first + second) && Run(t, first + second) == Run(Run(t, first), second)
    decreases |first|
  {
    if first == [] {
      assert first + second == second;
    } else {
      assert (first + second)[1..] == first[1..] + second;
      RunThenRun(Step(t, first[0]), first[1..], second);
    }
  }

  /**
   Every run that frees any blocks which are given back is a run that frees head blocks only, seen with some live
   blocks of later zones freed into the head's padding.
   */
  lemma {:induction false} GivingRunRefines(t: State, reserved: seq<set<nat>>, gone: set<nat>, ops: seq<Op>)
    returns (heads: seq<Op>, rest: set<nat>)
    requires Inv(t, reserved) && LentOut(t, gone) && GivingRun(Cleared(t, gone), ops)
    ensures LegalRun(t, heads) && LentOut(Run(t, heads), rest)
    ensures Run(Cleared(t, gone), ops) == Cleared(Run(t, heads), rest)
    decreases |ops|
  {
    heads, rest := [], gone;
    if ops != [] {
      var first, middle;
      match ops[0] {
        case AllocOp => first, middle := AllocMatches(t, reserved, gone);
        case FreeOp(a) => first, middle := FreeMatches(t, reserved, gone, a);
      }
      RunKeepsInv(t, reserved, first);
      hide Inv, LentOut, Cleared;
      var second, last := GivingRunRefines(Run(t, first), reserved, middle, ops[1..]);
      RunThenRun(t, first, second);
      heads, rest := first + second, last;
    }
  }

  ghost predicate GivingFromStart(ss: seq<Section>, resStart: nat, resEnd: nat, ops: seq<Op>) {
    ss != [] && ValidSections(ss) && GivingRun(Start(ss, resStart, resEnd), ops)
  }

  ghost function AfterGiving(ss: seq<Section>, resStart: nat, resEnd: nat, ops: seq<Op>): (s: State)
    requires GivingFromStart(ss, resStart, resEnd, ops)
    ensures SameRanges(InitialZones(ss, resStart, resEnd), s.zones)
  {
    RunKeepsRanges(Start(ss, resStart, resEnd), ops);
    Run(Start(ss, resStart, resEnd), ops)
  }

  lemma {:induction false} GivingIsHeadOnlyWithout(ss: seq<Section>, resStart: nat, resEnd: nat, ops: seq<Op>)
    returns (heads: seq<Op>, gone: set<nat>)
    requires GivingFromStart(ss, resStart, resEnd, ops)
    ensures FromStart(ss, resStart, resEnd, heads) && LentOut(After(ss, resStart, resEnd, heads), gone)
    ensures AfterGiving(ss, resStart, resEnd, ops) == Cleared(After(ss, resStart, resEnd, heads), gone)
  {
    InitialInv(ss, resStart, resEnd);
    NothingCleared(Start(ss, resStart, resEnd));
    hide Inv, Cleared, LentOut;
    heads, gone := GivingRunRefines(Start(ss, resStart, resEnd), Reserved(ss, resStart, resEnd), {}, ops);
  }

  /** Runs that free any blocks which are given back are as safe as runs that free head blocks only. */
  lemma {:induction false} GivingRunIsSafe(
      ss: seq<Section>, resStart: nat, resEnd: nat, ops: seq<Op>, a: nat, c: nat)
    requires GivingFromStart(ss, resStart, resEnd, ops)
    requires a in AfterGiving(ss, resStart, resEnd, ops).live && c in AfterGiving(ss, resStart, resEnd, ops).live
    ensures a != NULL && !BlockShares(a, resStart, resEnd)
    ensures exists k ::
      0 <= k < |ss| && ss[k].base <= a && a + BLOCK_SIZE <= ss[k].base + Blocks(ss[k]) * BLOCK_SIZE
    ensures a != c ==> !BlockShares(a, c, c + BLOCK_SIZE - 1)
  {
    hide BlockShares;
    var heads, gone := GivingIsHeadOnlyWithout(ss, resStart, resEnd, ops);
    LiveBlockIsSafe(ss, resStart, resEnd, heads, a);
    if a != c {
      LiveBlocksAreApart(ss, resStart, resEnd, heads, a, c);
    }
  }

  lemma {:induction false} ClearedAllocIsFresh(t: State, reserved: seq<set<nat>>, gone: set<nat>)
    requires Inv(t, reserved) && LentOut(t, gone)
    ensures Alloc(Cleared(t, gone).zones).addr !in Cleared(t, gone).live
  {
    if NULL in t.live {
      LiveIsNotNull(t, reserved, NULL);
    }
    TakesFresh(t, reserved);
    if gone == {} {
      hide Inv, LentOut;
      NothingCleared(t);
    } else if LeastClear(Cleared(t, gone).zones[0], 0) in gone {
      hide Inv;
      PaddingComesOut(t, gone);
    } else {
      SameChoice(t, reserved, gone);
      hide Inv, LentOut;
    }
  }

  lemma {:induction false} PaddingComesOut(t: State, gone: set<nat>)
    requires LentOut(t, gone) && LeastClear(Cleared(t, gone).zones[0], 0) in gone
    ensures Alloc(Cleared(t, gone).zones).addr in Addresses(t.zones[0], gone)
  {
    var s := Cleared(t, gone);
    assert FirstZone(s.zones) == 0;
    assert Wrap(BlockAddress(t.zones[0].start, LeastClear(s.zones[0], 0))) in Addresses(t.zones[0], gone);
  }

  /** Such a run never allocates a block that is live. */
  lemma {:induction false} GivingAllocationIsFresh(ss: seq<Section>, resStart: nat, resEnd: nat, ops: seq<Op>)
    requires GivingFromStart(ss, resStart, resEnd, ops)
    ensures Alloc(AfterGiving(ss, resStart, resEnd, ops).zones).addr !in AfterGiving(ss, resStart, resEnd, ops).live
  {
    var heads, gone := GivingIsHeadOnlyWithout(ss, resStart, resEnd, ops);
    AfterInv(ss, resStart, resEnd, heads);
    ClearedAllocIsFresh(After(ss, resStart, resEnd, heads), Reserved(ss, resStart, resEnd), gone);
  }

  // ---- the memory maps for which every free gives back ----

  /** `a` lies a whole number of blocks from the head's start, modulo 2^32, and no further than its bitmap reaches. */
  predicate InHeadsReach(head: Section, a: nat) {
    Wrap(a - head.base) % BLOCK_SIZE == 0 && Wrap(a - head.base) / BLOCK_SIZE < WORD * BitmapWords(head)
  }

  ghost predicate NothingReservedBefore(ss: seq<Section>, resStart: nat, resEnd: nat, j: nat)
    requires j < |ss|
  {
    forall i :: 0 <= i < j ==> ReservedBlocks(ss[i], resStart, resEnd) == {}
  }

  /** Every unreserved block of a section without reserved blocks before it is in the head's reach. */
  ghost predicate HeadReachesAll(ss: seq<Section>, resStart: nat, resEnd: nat)
    requires ss != []
  {
    forall j, b ::
      (0 <= j < |ss| && 0 <= b < Blocks(ss[j]) && NothingReservedBefore(ss, resStart, resEnd, j) &&
       b !in ReservedBlocks(ss[j], resStart, resEnd)) ==> InHeadsReach(ss[0], BlockAddress(ss[j].base, b))
  }

  ghost predicate AllGivenBack(s: State) {
    s.zones != [] && forall a :: a in s.live ==> GivesBack(s.zones, a)
  }

  lemma {:induction false} LegalIsGiving(s: State, reserved: seq<set<nat>>, ops: seq<Op>)
    requires Inv(s, reserved) && LegalRun(s, ops)
    ensures GivingRun(s, ops)
    decreases |ops|
  {
    if ops != [] {
      match ops[0] {
        case AllocOp => AllocKeepsInv(s, reserved);
        case FreeOp(a) => FreeKeepsInv(s, reserved, a); HeadGivesBack(s.zones, a);
      }
      hide Inv;
      LegalIsGiving(Step(s, ops[0]), reserved, ops[1..]);
    }
  }

  /** In a state after a run, what the head gives back is what lies in its reach. */
  lemma {:induction false} GivenBackIsInReach(ss: seq<Section>, resStart: nat, resEnd: nat, zs: seq<ZoneState>, a: nat)
    requires ss != [] && ValidSections(ss) && a < TWO32
    requires SameRanges(InitialZones(ss, resStart, resEnd), zs)
    ensures GivesBack(zs, a) <==> InHeadsReach(ss[0], a)
  {
    assert SamePlace(InitialZones(ss, resStart, resEnd)[0], zs[0]);
    GivesBackIff(zs, a);
  }

  lemma {:induction false} ReachMakesGiving(ss: seq<Section>, resStart: nat, resEnd: nat, ops: seq<Op>, a: nat)
    requires GivingFromStart(ss, resStart, resEnd, ops) && HeadReachesAll(ss, resStart, resEnd)
    requires a in AfterGiving(ss, resStart, resEnd, ops).live
    ensures GivesBack(AfterGiving(ss, resStart, resEnd, ops).zones, a)
  {
    var s := AfterGiving(ss, resStart, resEnd, ops);
    var heads, gone := GivingIsHeadOnlyWithout(ss, resStart, resEnd, ops);
    var t := After(ss, resStart, resEnd, heads);
    AfterInv(ss, resStart, resEnd, heads);
    LiveIsNotNull(t, Reserved(ss, resStart, resEnd), a);
    GivenBackIsInReach(ss, resStart, resEnd, s.zones, a);
    hide Inv;
    var j, b := OwnerOf(ss, resStart, resEnd, heads, a);
    LiveIsUnblocked(ss, resStart, resEnd, heads, j, b);
    assert NothingReservedBefore(ss, resStart, resEnd, j);
  }

  lemma {:induction false} UnreachedIsLost(ss: seq<Section>, resStart: nat, resEnd: nat, j: nat, b: nat)
    returns (ops: seq<Op>)
    requires ss != [] && ValidSections(ss) && j < |ss| && b < Blocks(ss[j])
    requires NothingReservedBefore(ss, resStart, resEnd, j) && b !in ReservedBlocks(ss[j], resStart, resEnd)
    requires !InHeadsReach(ss[0], BlockAddress(ss[j].base, b))
    ensures GivingFromStart(ss, resStart, resEnd, ops) && !AllGivenBack(AfterGiving(ss, resStart, resEnd, ops))
  {
    var a := BlockAddress(ss[j].base, b);
    ReachableIff(ss, resStart, resEnd, j, b);
    ops :| FromStart(ss, resStart, resEnd, ops) && a in After(ss, resStart, resEnd, ops).live;
    InitialInv(ss, resStart, resEnd);
    LegalIsGiving(Start(ss, resStart, resEnd), Reserved(ss, resStart, resEnd), ops);
    AfterInv(ss, resStart, resEnd, ops);
    LiveIsNotNull(After(ss, resStart, resEnd, ops), Reserved(ss, resStart, resEnd), a);
    hide Inv;
    GivenBackIsInReach(ss, resStart, resEnd, After(ss, resStart, resEnd, ops).zones, a);
  }

  /**
   Every live block of every run whose frees give back would be given back too, if and only if every block that runs
   can reach lies in the head's reach.
   */
  lemma {:induction false} EveryFreeGivesBackIff(ss: seq<Section>, resStart: nat, resEnd: nat)
    requires ss != [] && ValidSections(ss)
    ensures HeadReachesAll(ss, resStart, resEnd) <==>
      forall ops :: GivingFromStart(ss, resStart, resEnd, ops) ==> AllGivenBack(AfterGiving(ss, resStart, resEnd, ops))
  {
    if HeadReachesAll(ss, resStart, resEnd) {
      forall ops | GivingFromStart(ss, resStart, resEnd, ops)
        ensures AllGivenBack(AfterGiving(ss, resStart, resEnd, ops))
      {
        forall a | a in AfterGiving(ss, resStart, resEnd, ops).live
          ensures GivesBack(AfterGiving(ss, resStart, resEnd, ops).zones, a)
        {
          ReachMakesGiving(ss, resStart, resEnd, ops, a);
        }
      }
    } else {
      var j: nat, b: nat :| j < |ss| && b < Blocks(ss[j]) && NothingReservedBefore(ss, resStart, resEnd, j) &&
        b !in ReservedBlocks(ss[j], resStart, resEnd) && !InHeadsReach(ss[0], BlockAddress(ss[j].base, b));
      var ops := UnreachedIsLost(ss, resStart, resEnd, j, b);
    }
  }

  // ---- offsets behind the head's bitmap ----

  /**
   Freeing block b of another zone k clears that very bit of k's bitmap exactly when k's start is as many blocks above
   the head's as k's header is bits, 8 to a byte, above the head's header: for all blocks of k or for none.
   */
  lemma {:induction false} FreeHitsOwnBitIff(ss: seq<Section>, first: nat, zs: seq<ZoneState>, k: nat, b: nat)
    requires ValidSections(ss) && 0 < k < |ss| && b < Blocks(ss[k]) && first + MetadataSize(ss) <= TWO32
    requires zs != [] && zs[0].start == ss[0].base
    ensures ClearsBit(ss, first, HeadOffset(zs, BlockAddress(ss[k].base, b)), k, b) <==>
      Wrap(ss[k].base - ss[0].base) / BLOCK_SIZE == 8 * (ZoneAddress(ss, first, k) - first)
  {
    hide ClearsBit, ZoneAddress;
    assert Disjoint(ss[0], ss[k]);
    OffsetOfOther(ss[0], ss[k], b);
    ClearsBitIff(ss, first, HeadOffset(zs, BlockAddress(ss[k].base, b)), k, b);
  }

  lemma {:induction false} OffsetOfOther(head: Section, s: Section, b: nat)
    requires Disjoint(head, s) && b < Blocks(s)
    requires head.base + head.length <= TWO32 && s.base + s.length <= TWO32
    ensures Wrap(BlockAddress(s.base, b) - head.base) / BLOCK_SIZE == Wrap(s.base - head.base) / BLOCK_SIZE + b
  {
  }

  /**
   With one block at 4K and the second section at 1M, freeing its first block writes the word that holds the second
   zone's bitmap pointer, and clears its top bit.
   */
  lemma {:induction false} FreeWritesBitmapPointer(ss: seq<Section>, first: nat, zs: seq<ZoneState>)
    requires |ss| == 2 && ss[0] == Section(0x1000, 0x1000) && ss[1].base == 0x10_0000
    requires first + MetadataSize(ss) <= TWO32 && zs != [] && zs[0].start == ss[0].base
    ensures WritesField(ss, first, HeadOffset(zs, 0x10_0000), 1, BITMAP_FIELD)
    ensures HeadOffset(zs, 0x10_0000) % WORD == 31
  {
    assert HeadOffset(zs, 0x10_0000) == 255;
    assert ss[..1] == [ss[0]] && ss[..0] == [];
    NextZoneAddress(ss, first, 0);
    var a := ZoneAddress(ss, first, 1) + 4 * BITMAP_FIELD;
    assert InMetadata(ss, first, 1, a);
    MetadataInRange(ss, first, 1, a);
    WriteDoesNotWrap(ss, first, 255, a);
  }

  // ---- a map on which a free leads to a wrong block ----

  const FAR_BLOCK_MAP := [Section(0x1000, 0x1000), Section(0x1_0800, 0x1000)]

  /** With the head used up, the next allocation gives the address of the bit that the free cleared. */
  lemma {:induction false} FreeInFullHead(s: State, reserved: seq<set<nat>>, a: nat)
    requires Inv(s, reserved) && s.zones[0].Clear() == {} && HitsHead(s, FreeOp(a))
    ensures Alloc(Free(s.zones, a)).addr == Wrap(BlockAddress(s.zones[0].start, HeadOffset(s.zones, a)))
  {
    FreeThenAlloc(s, reserved, a);
    hide Inv;
    SearchFinds(s.zones[0]);
  }

  /** The zone of a section of one block away from the kernel: block 0 can be taken, and then nothing is clear. */
  lemma {:induction false} OneBlockZone(base: nat)
    requires 0 < base < 0xF_0000
    ensures var z := InitialZone(Section(base, 0x1000), 0x10_0000, 0x10_FFFF);
      && z == ZoneState(base, base + 0xFFF, 1, 32, 1, z.used)
      && LeastClear(z, 0) == 0 && TakeBlock(z, 0).Clear() == {}
  {
    var z := InitialZone(Section(base, 0x1000), 0x10_0000, 0x10_FFFF);
    NothingReserved(Section(base, 0x1000), 0x10_0000, 0x10_FFFF);
    assert z.used == Numbers(1, 32) && z.capacity == 32;
    assert 0 !in z.used;
    AllTaken(z);
  }

  lemma {:induction false} AllTaken(z: ZoneState)
    requires z.free != 0 && z.used == Numbers(1, 32) && z.capacity == 32
    ensures TakeBlock(z, 0).Clear() == {}
  {
    var t := TakeBlock(z, 0);
    forall b | 0 <= b < 32 ensures b in t.used {
      assert b == 0 || b in z.used;
    }
    LeastClearUnique(t, 32);
    SearchFinds(t);
  }

  /** Two allocations make the only block of each section live. */
  lemma {:induction false} BothLive() returns (s: State)
    ensures FromStart(FAR_BLOCK_MAP, 0x10_0000, 0x10_FFFF, [AllocOp, AllocOp])
    ensures s == After(FAR_BLOCK_MAP, 0x10_0000, 0x10_FFFF, [AllocOp, AllocOp])
    ensures 0x1_0800 in s.live && |s.zones| == 2
    ensures s.zones[0].start == 0x1000 && s.zones[0].capacity == 32 && s.zones[0].Clear() == {}
  {
    var s0 := Start(FAR_BLOCK_MAP, 0x10_0000, 0x10_FFFF);
    var s1 := Step(s0, AllocOp);
    s := Step(s1, AllocOp);
    OneBlockZone(0x1000);
    OneBlockZone(0x1_0800);
    OneOp(s1, AllocOp);
    OpThenRun(s0, AllocOp, [AllocOp]);
    assert [AllocOp] + [AllocOp] == [AllocOp, AllocOp];
    hide InitialZone, LegalRun, Run, LeastClear;
    assert FirstZone(s0.zones) == 0;
    assert s1.zones[0] == TakeBlock(s0.zones[0], 0) && s1.zones[1] == s0.zones[1];
    assert FirstZone(s1.zones) == 1;
  }

  /** Freeing the live block at `a` makes the next allocation return `r`. */
  ghost predicate LeadsTo(s: State, a: nat, r: nat) {
    a in s.live && HitsHead(s, FreeOp(a)) && Alloc(Free(s.zones, a)).addr == r
  }

  lemma {:induction false} BothLiveLeads(s: State, reserved: seq<set<nat>>)
    requires Inv(s, reserved) && 0x1_0800 in s.live && s.zones[0].Clear() == {}
    requires s.zones[0].start == 0x1000 && s.zones[0].capacity == 32
    ensures LeadsTo(s, 0x1_0800, 0x1_0000)
  {
    assert HeadOffset(s.zones, 0x1_0800) == 15;
    FreeInFullHead(s, reserved, 0x1_0800);
  }

  ghost predicate InNoSection(ss: seq<Section>, a: nat) {
    forall s :: s in ss ==> !(s.base <= a <= LastByte(s))
  }

  /**
   One block at 4K, one at 66K, the kernel at 1M: with both live, freeing the second makes the next allocation
   return 64K, which is in no section.
   */
  lemma {:induction false} WrongBlockAfterFree() returns (ops: seq<Op>)
    ensures FromStart(FAR_BLOCK_MAP, 0x10_0000, 0x10_FFFF, ops)
    ensures LeadsTo(After(FAR_BLOCK_MAP, 0x10_0000, 0x10_FFFF, ops), 0x1_0800, 0x1_0000)
    ensures InNoSection(FAR_BLOCK_MAP, 0x1_0000)
  {
    hide Inv, LeadsTo, FromStart, After;
    ops := [AllocOp, AllocOp];
    var s := BothLive();
    var reserved := Reserved(FAR_BLOCK_MAP, 0x10_0000, 0x10_FFFF);
    assert Inv(s, reserved) by {
      AfterInv(FAR_BLOCK_MAP, 0x10_0000, 0x10_FFFF, ops);
    }
    BothLiveLeads(s, reserved);
  }

  const NEAR_BLOCK_MAP := [Section(0x1000, 0x1000), Section(0x1_0000, 0x1000)]

  lemma {:induction false} NearBlockInReach()
    ensures HeadReachesAll(NEAR_BLOCK_MAP, 0x10_0000, 0x10_FFFF)
  {
    assert Wrap(0x1_0000 - 0x1000) == 15 * BLOCK_SIZE;
  }

  /** With the second block at 64K instead, it can become live, and yet every free in every run gives its block back. */
  lemma {:induction false} PaddingReachesSecondBlock()
    ensures Reachable(NEAR_BLOCK_MAP, 0x10_0000, 0x10_FFFF, 1, 0) && HeadReachesAll(NEAR_BLOCK_MAP, 0x10_0000, 0x10_FFFF)
  {
    NearBlockInReach();
    hide HeadReachesAll, Reachable;
    NothingReserved(NEAR_BLOCK_MAP[0], 0x10_0000, 0x10_FFFF);
    NothingReserved(NEAR_BLOCK_MAP[1], 0x10_0000, 0x10_FFFF);
    ReachableIff(NEAR_BLOCK_MAP, 0x10_0000, 0x10_FFFF, 1, 0);
  }
}
