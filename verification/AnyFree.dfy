/**
 Runs that free live blocks of any zone, wherever the bit lies that `pmm_free` clears. A free behind the head's bitmap
 raises the head's counter and changes some other word, so nothing is assumed of the zones behind the head from then
 on. Here: such a free ends the service of every other zone for ever, and the maps on which no run loses a block.
 */
module AnyFree {
  import opened Machine
  import opened MemoryMap
  import opened Bitmap
  import opened Layout
  import opened Pool
  import opened PoolTheorems
  import opened Reach
  import opened OffHead

  /**
   One free of any address. When the computed offset is in the head's bitmap, it is `Free`. Otherwise the counter of
   the head rises, its bitmap stays, and `behind` is what the zones after the head look like once the word is written.
   */
  function FreeAny(zs: seq<ZoneState>, addr: nat, behind: seq<ZoneState>): (ts: seq<ZoneState>)
    requires zs != []
    ensures ts != []
  {
    if HeadOffset(zs, addr) < zs[0].capacity then Free(zs, addr)
    else [zs[0].(free := Wrap(zs[0].free + 1))] + behind
  }

  /** When nothing is known to change behind the head, a free is a change of the head alone. */
  lemma {:induction false} FreeAnyInHead(zs: seq<ZoneState>, addr: nat)
    requires zs != []
    ensures FreeAny(zs, addr, zs[1..]) ==
      zs[0 := if HeadOffset(zs, addr) < zs[0].capacity then ReleaseBlock(zs[0], HeadOffset(zs, addr))
              else zs[0].(free := Wrap(zs[0].free + 1))]
  {
  }

  /** The word written by a free behind the head's bitmap is none of the head's header or bitmap. */
  lemma {:induction false} FarFreeMissesHead(ss: seq<Section>, first: nat, zs: seq<ZoneState>, a: nat)
    requires ss != [] && zs != [] && first + MetadataSize(ss) <= TWO32
    requires HeadOffset(zs, a) >= WORD * BitmapWords(ss[0])
    ensures !InMetadata(ss, first, 0, WrittenWord(first, HeadOffset(zs, a)))
  {
    if InMetadata(ss, first, 0, WrittenWord(first, HeadOffset(zs, a))) {
      HeadIsHitIff(ss, first, HeadOffset(zs, a), 0);
    }
  }

  // ---- runs of allocations and frees of any address ----

  datatype Request = Allocate | Release(addr: nat, behind: seq<ZoneState>)

  function Serve(s: State, r: Request): (t: State)
    requires s.zones != []
    ensures t.zones != []
  {
    match r
    case Allocate =>
      var x := Alloc(s.zones);
      State(x.zones, if x.addr == NULL then s.live else s.live + {x.addr})
    case Release(addr, behind) =>
      State(FreeAny(s.zones, addr, behind), s.live - {addr})
  }

  /** Only live blocks are released. */
  predicate Proper(s: State, r: Request) {
    s.zones != [] && (r.Release? ==> r.addr in s.live)
  }

  predicate ProperRun(s: State, rs: seq<Request>)
    ensures ProperRun(s, rs) ==> s.zones != []
    decreases |rs|
  {
    if rs == [] then s.zones != [] else Proper(s, rs[0]) && ProperRun(Serve(s, rs[0]), rs[1..])
  }

  function ServeAll(s: State, rs: seq<Request>): (t: State)
    requires ProperRun(s, rs)
    ensures t.zones != []
    decreases |rs|
  {
    if rs == [] then s else ServeAll(Serve(s, rs[0]), rs[1..])
  }

  /** Every release clears a bit below `limit` of the head's bitmap, or one behind the bitmap. */
  predicate ReleasesBelow(s: State, rs: seq<Request>, limit: nat)
    requires ProperRun(s, rs)
    decreases |rs|
  {
    rs == [] ||
    ((rs[0].Release? ==>
        HeadOffset(s.zones, rs[0].addr) < limit || HeadOffset(s.zones, rs[0].addr) >= s.zones[0].capacity) &&
     ReleasesBelow(Serve(s, rs[0]), rs[1..], limit))
  }

  // ---- a free behind the head's bitmap is final ----

  /** The head's counter exceeds its clear bits, which are all below `limit`, and cannot come to 2^32. */
  ghost predicate Overcounted(s: State, limit: nat) {
    && s.zones != []
    && |s.zones[0].Clear()| < s.zones[0].free
    && (forall c :: c in s.zones[0].Clear() ==> c < limit)
    && s.zones[0].free + |s.live| < TWO32
  }

  /** `a` is the address of a bit below `limit` of the head's bitmap. */
  ghost predicate IsHeadBit(zs: seq<ZoneState>, a: nat, limit: nat) {
    zs != [] && exists c: nat :: c < limit && c < zs[0].capacity && a == Wrap(BlockAddress(zs[0].start, c))
  }

  /** With such a counter, an allocation looks at the head only. */
  lemma {:induction false} OvercountedAlloc(s: State, limit: nat)
    requires Overcounted(s, limit)
    ensures Overcounted(Serve(s, Allocate), limit)
    ensures FirstZone(s.zones) == 0 && SamePlace(s.zones[0], Serve(s, Allocate).zones[0])
    ensures Alloc(s.zones).addr == NULL || IsHeadBit(s.zones, Alloc(s.zones).addr, limit)
  {
    var z, t := s.zones[0], Serve(s, Allocate);
    var m := LeastClear(z, 0);
    SearchFinds(z);
    if m < z.capacity {
      assert t.zones[0].Clear() == z.Clear() - {m};
    }
  }

  lemma {:induction false} OvercountedRelease(s: State, limit: nat, a: nat, behind: seq<ZoneState>)
    requires Overcounted(s, limit) && a in s.live
    requires HeadOffset(s.zones, a) < limit || HeadOffset(s.zones, a) >= s.zones[0].capacity
    ensures Overcounted(Serve(s, Release(a, behind)), limit)
    ensures SamePlace(s.zones[0], Serve(s, Release(a, behind)).zones[0])
  {
    var z, t, o := s.zones[0], Serve(s, Release(a, behind)), HeadOffset(s.zones, a);
    assert |s.live - {a}| == |s.live| - 1;
    if o < z.capacity {
      assert t.zones[0].Clear() == z.Clear() + {o};
    } else {
      assert t.zones[0].Clear() == z.Clear();
    }
  }

  lemma {:induction false} StaysOvercounted(s: State, limit: nat, rs: seq<Request>)
    requires Overcounted(s, limit) && ProperRun(s, rs) && ReleasesBelow(s, rs, limit)
    ensures Overcounted(ServeAll(s, rs), limit) && SamePlace(s.zones[0], ServeAll(s, rs).zones[0])
    decreases |rs|
  {
    if rs != [] {
      match rs[0] {
        case Allocate => OvercountedAlloc(s, limit);
        case Release(a, behind) => OvercountedRelease(s, limit, a, behind);
      }
      hide Overcounted;
      StaysOvercounted(Serve(s, rs[0]), limit, rs[1..]);
    }
  }

  /** A free behind the bitmap makes the counter exceed the clear bits. */
  lemma {:induction false} FarFreeOvercounts(s: State, limit: nat, a: nat, behind: seq<ZoneState>)
    requires s.zones != [] && a in s.live && HeadOffset(s.zones, a) >= s.zones[0].capacity
    requires |s.zones[0].Clear()| <= s.zones[0].free && s.zones[0].free + |s.live| < TWO32
    requires forall c :: c in s.zones[0].Clear() ==> c < limit
    ensures Overcounted(Serve(s, Release(a, behind)), limit)
    ensures SamePlace(s.zones[0], Serve(s, Release(a, behind)).zones[0])
  {
    var t := Serve(s, Release(a, behind));
    assert |s.live - {a}| == |s.live| - 1;
    assert t.zones[0].Clear() == s.zones[0].Clear();
  }

  /** An address whose offset lies behind the head's bitmap is the address of none of its bits. */
  lemma {:induction false} FarIsNoHeadBit(zs: seq<ZoneState>, a: nat, limit: nat)
    requires zs != [] && HeadOffset(zs, a) >= zs[0].capacity
    ensures !IsHeadBit(zs, a, limit)
  {
    if IsHeadBit(zs, a, limit) {
      var c: nat :| c < limit && c < zs[0].capacity && a == Wrap(BlockAddress(zs[0].start, c));
      OffsetOfBit(zs, c);
    }
  }

  lemma {:induction false} OffsetOfBit(zs: seq<ZoneState>, c: nat)
    requires zs != []
    ensures HeadOffset(zs, Wrap(BlockAddress(zs[0].start, c))) <= c
  {
    var x := BlockAddress(zs[0].start, c);
    WrapOfSum(x, 0 - zs[0].start);
    assert Wrap(Wrap(x) - zs[0].start) == Wrap(c * BLOCK_SIZE) <= c * BLOCK_SIZE;
  }

  /** Repeated allocation is a run. */
  lemma {:induction false} OvercountedNeverGives(s: State, limit: nat, a: nat, n: nat)
    requires Overcounted(s, limit) && a != NULL && !IsHeadBit(s.zones, a, limit)
    ensures Alloc(AllocTimes(s.zones, n)).addr != a
    decreases n
  {
    OvercountedAlloc(s, limit);
    if n != 0 {
      hide Overcounted;
      OvercountedNeverGives(Serve(s, Allocate), limit, a, n - 1);
    }
  }

  // ---- the freed block comes back exactly when the free gives it back ----

  lemma {:induction false} CounterCoversClear(s: State, reserved: seq<set<nat>>)
    requires Inv(s, reserved)
    ensures |s.zones[0].Clear()| <= s.zones[0].free
    ensures forall c :: c in s.zones[0].Clear() ==> c < s.zones[0].length
  {
    UsedUp(s, reserved, 0);
    forall c | c in s.zones[0].Clear() ensures c < s.zones[0].length {
      ClearBitIsBlock(s, reserved, 0, c);
    }
  }

  lemma {:induction false} FarFreeLoses(zs: seq<ZoneState>, limit: nat, a: nat, behind: seq<ZoneState>)
    requires zs != [] && a != NULL && HeadOffset(zs, a) >= zs[0].capacity
    requires |zs[0].Clear()| <= zs[0].free < TWO32 - 1
    requires forall c :: c in zs[0].Clear() ==> c < limit
    ensures !ComesOut(FreeAny(zs, a, behind), a)
  {
    var alone := State(zs, {a});
    FarFreeOvercounts(alone, limit, a, behind);
    var t := Serve(alone, Release(a, behind));
    FarIsNoHeadBit(t.zones, a, limit);
    hide Overcounted, IsHeadBit;
    forall n: nat ensures Alloc(AllocTimes(t.zones, n)).addr != a {
      OvercountedNeverGives(t, limit, a, n);
    }
  }

  lemma {:induction false} FarFreeNeverComesBack(s: State, reserved: seq<set<nat>>, a: nat, behind: seq<ZoneState>)
    requires Inv(s, reserved) && a in s.live && HeadOffset(s.zones, a) >= s.zones[0].capacity
    ensures !ComesOut(FreeAny(s.zones, a, behind), a)
  {
    LiveIsNotNull(s, reserved, a);
    CounterCoversClear(s, reserved);
    CounterFits(s, reserved, 0);
    hide Inv, ComesOut;
    FarFreeLoses(s.zones, s.zones[0].length, a, behind);
  }

  /**
   Whatever live block is freed, in the head or not, near it or far: allocations give it out again exactly when the
   free gives it back, that is when it lies a whole number of blocks from the head's start, within its bitmap.
   */
  lemma {:induction false} FreedComesBackIff(s: State, reserved: seq<set<nat>>, a: nat, behind: seq<ZoneState>)
    requires Inv(s, reserved) && a in s.live
    ensures ComesOut(FreeAny(s.zones, a, behind), a) <==> GivesBack(s.zones, a)
  {
    hide ComesOut;
    if HeadOffset(s.zones, a) < s.zones[0].capacity {
      NearFreeComesBackIff(s, reserved, a);
    } else {
      FarFreeNeverComesBack(s, reserved, a, behind);
    }
  }

  // ---- how many blocks there are ----

  /** Addresses below 4096 n that are 4096 apart are at most n. */
  lemma {:induction false} FewApart(addrs: set<nat>, n: nat)
    requires forall a :: a in addrs ==> a < BLOCK_SIZE * n
    requires forall a, c :: a in addrs && c in addrs && a != c ==> a + BLOCK_SIZE <= c || c + BLOCK_SIZE <= a
    ensures |addrs| <= n
    decreases n
  {
    if n == 0 {
      assert addrs == {};
    } else if a :| a in addrs && a >= BLOCK_SIZE * (n - 1) {
      forall c | c in addrs - {a} ensures c < BLOCK_SIZE * (n - 1) {
      }
      FewApart(addrs - {a}, n - 1);
    } else {
      FewApart(addrs, n - 1);
    }
  }

  /** Addresses of the first n blocks of z. */
  ghost function BlockSet(z: ZoneState, n: nat): set<nat> {
    if n == 0 then {} else BlockSet(z, n - 1) + {BlockAddress(z.start, n - 1)}
  }

  lemma {:induction false} InBlockSet(z: ZoneState, n: nat, a: nat)
    ensures a in BlockSet(z, n) <==> exists b: nat :: b < n && a == BlockAddress(z.start, b)
  {
    if n != 0 {
      InBlockSet(z, n - 1, a);
    }
  }

  lemma {:induction false} BlockSetSize(z: ZoneState, n: nat)
    ensures |BlockSet(z, n)| == n
  {
    if n != 0 {
      BlockSetSize(z, n - 1);
      InBlockSet(z, n - 1, BlockAddress(z.start, n - 1));
    }
  }

  /** Addresses of the blocks of the first n zones. */
  ghost function AllBlocks(zs: seq<ZoneState>, n: nat): (r: set<nat>)
    requires n <= |zs|
  {
    if n == 0 then {} else AllBlocks(zs, n - 1) + BlockSet(zs[n - 1], zs[n - 1].length)
  }

  lemma {:induction false} InAllBlocks(zs: seq<ZoneState>, n: nat, a: nat)
    requires n <= |zs|
    ensures a in AllBlocks(zs, n) <==> exists k :: 0 <= k < n && IsBlockOf(zs[k], a)
    decreases n
  {
    if n != 0 {
      InAllBlocks(zs, n - 1, a);
      InBlockSet(zs[n - 1], zs[n - 1].length, a);
      assert a in BlockSet(zs[n - 1], zs[n - 1].length) <==> IsBlockOf(zs[n - 1], a);
    }
  }

  /** Sum of the counters of the first n zones. */
  function Total(zs: seq<ZoneState>, n: nat): nat
    requires n <= |zs|
  {
    if n == 0 then 0 else Total(zs, n - 1) + zs[n - 1].free
  }

  lemma {:induction false} TotalChanges(zs: seq<ZoneState>, k: nat, z: ZoneState, n: nat)
    requires k < |zs| && n <= |zs|
    ensures Total(zs[k := z], n) == Total(zs, n) + if k < n then z.free - zs[k].free else 0
    decreases n
  {
    if n != 0 {
      TotalChanges(zs, k, z, n - 1);
    }
  }

  lemma {:induction false} HeadIsInTotal(zs: seq<ZoneState>, n: nat)
    requires 0 < n <= |zs|
    ensures zs[0].free <= Total(zs, n)
    decreases n
  {
    if n != 1 {
      HeadIsInTotal(zs, n - 1);
    }
  }

  /** In zones without used blocks, the counters add up to the number of blocks. */
  lemma {:induction false} TotalOfFresh(zs: seq<ZoneState>, n: nat)
    requires Arranged(zs) && n <= |zs| && forall k :: 0 <= k < |zs| ==> zs[k].free == zs[k].length
    ensures |AllBlocks(zs, n)| == Total(zs, n)
    decreases n
  {
    if n != 0 {
      TotalOfFresh(zs, n - 1);
      BlockSetSize(zs[n - 1], zs[n - 1].length);
      var before, last := AllBlocks(zs, n - 1), BlockSet(zs[n - 1], zs[n - 1].length);
      hide Arranged;
      forall a | a in last ensures a !in before {
        NewBlock(zs, n - 1, a);
      }
      assert before !! last && AllBlocks(zs, n) == before + last;
    }
  }

  lemma {:induction false} NewBlock(zs: seq<ZoneState>, n: nat, a: nat)
    requires Arranged(zs) && n < |zs| && a in BlockSet(zs[n], zs[n].length)
    ensures a !in AllBlocks(zs, n)
  {
    InBlockSet(zs[n], zs[n].length, a);
    assert IsBlockOf(zs[n], a);
    InAllBlocks(zs, n, a);
    hide IsBlockOf, Arranged, BlockSet;
    forall k: nat | k < n ensures !IsBlockOf(zs[k], a) {
      NotBlockOfOther(zs, n, k, a);
    }
  }

  /** Zones that share no address have at most 2^20 blocks. */
  lemma {:induction false} FewBlocks(zs: seq<ZoneState>)
    requires Arranged(zs)
    ensures |AllBlocks(zs, |zs|)| <= 0x10_0000
  {
    var all := AllBlocks(zs, |zs|);
    forall a | a in all ensures a < BLOCK_SIZE * 0x10_0000 {
      InAllBlocks(zs, |zs|, a);
      var k :| 0 <= k < |zs| && IsBlockOf(zs[k], a);
      assert GoodGeometry(zs[k]);
    }
    forall a, c | a in all && c in all && a != c ensures a + BLOCK_SIZE <= c || c + BLOCK_SIZE <= a {
      BlocksFarEnough(zs, a, c);
    }
    FewApart(all, 0x10_0000);
  }

  lemma {:induction false} BlocksFarEnough(zs: seq<ZoneState>, a: nat, c: nat)
    requires Arranged(zs) && a in AllBlocks(zs, |zs|) && c in AllBlocks(zs, |zs|) && a != c
    ensures a + BLOCK_SIZE <= c || c + BLOCK_SIZE <= a
  {
    hide Arranged, IsBlockOf, AllBlocks;
    InAllBlocks(zs, |zs|, a);
    InAllBlocks(zs, |zs|, c);
    var j: nat :| j < |zs| && IsBlockOf(zs[j], a);
    var k: nat :| k < |zs| && IsBlockOf(zs[k], c);
    BlocksApart(zs, j, k, a, c);
    ShareIsOverlap(a, a + BLOCK_SIZE - 1, c, c + BLOCK_SIZE - 1);
  }

  // ---- what every run keeps, whatever it frees ----

  /** The head's counter is at least its clear bits, and cannot come to 2^32. */
  ghost predicate Counted(s: State) {
    && s.zones != []
    && |s.zones[0].Clear()| <= s.zones[0].free
    && (Total(s.zones, |s.zones|) + |s.live| < TWO32 || Overcounted(s, s.zones[0].capacity))
  }

  lemma {:induction false} StartIsCounted(ss: seq<Section>, resStart: nat, resEnd: nat)
    requires ss != [] && ValidSections(ss)
    ensures Counted(Start(ss, resStart, resEnd))
  {
    var s := Start(ss, resStart, resEnd);
    InitialInv(ss, resStart, resEnd);
    CounterCoversClear(s, Reserved(ss, resStart, resEnd));
    TotalOfFresh(s.zones, |s.zones|);
    FewBlocks(s.zones);
  }

  /** The counter has room for as many frees as there are live blocks. */
  lemma {:induction false} CountedFits(s: State)
    requires Counted(s)
    ensures s.zones[0].free + |s.live| < TWO32
  {
    HeadIsInTotal(s.zones, |s.zones|);
  }

  lemma {:induction false} CountedAlloc(s: State)
    requires Counted(s)
    ensures Counted(Serve(s, Allocate)) && SamePlace(s.zones[0], Serve(s, Allocate).zones[0])
  {
    var zs, k := s.zones, FirstZone(s.zones);
    var limit := zs[0].capacity;
    if Overcounted(s, limit) {
      OvercountedAlloc(s, limit);
    } else if k < |zs| && LeastClear(zs[k], 0) < zs[k].capacity {
      var m := LeastClear(zs[k], 0);
      TotalChanges(zs, k, TakeBlock(zs[k], m), |zs|);
      assert TakeBlock(zs[k], m).Clear() == zs[k].Clear() - {m};
    }
  }

  lemma {:induction false} CountedRelease(s: State, a: nat, behind: seq<ZoneState>)
    requires Counted(s) && a in s.live
    ensures Counted(Serve(s, Release(a, behind)))
    ensures SamePlace(s.zones[0], Serve(s, Release(a, behind)).zones[0])
  {
    var zs, o := s.zones, HeadOffset(s.zones, a);
    var limit := zs[0].capacity;
    CountedFits(s);
    if Overcounted(s, limit) {
      OvercountedRelease(s, limit, a, behind);
    } else if o >= limit {
      FarFreeOvercounts(s, limit, a, behind);
    } else {
      assert |s.live - {a}| == |s.live| - 1;
      TotalChanges(zs, 0, ReleaseBlock(zs[0], o), |zs|);
      ClearAfterRelease(zs[0], o);
    }
  }

  lemma {:induction false} RunIsCounted(s: State, rs: seq<Request>)
    requires Counted(s) && ProperRun(s, rs)
    ensures Counted(ServeAll(s, rs)) && SamePlace(s.zones[0], ServeAll(s, rs).zones[0])
    decreases |rs|
  {
    if rs != [] {
      match rs[0] {
        case Allocate => CountedAlloc(s);
        case Release(a, behind) => CountedRelease(s, a, behind);
      }
      hide Counted;
      RunIsCounted(Serve(s, rs[0]), rs[1..]);
    }
  }

  /** From now on allocations give NULL or addresses of head bits below `limit`. */
  ghost predicate OnlyHeadServes(s: State, limit: nat) {
    && s.zones != [] && FirstZone(s.zones) == 0
    && (Alloc(s.zones).addr == NULL || IsHeadBit(s.zones, Alloc(s.zones).addr, limit))
  }

  /**
   After any run from initialisation, let a live block be freed whose offset lies behind the head's bitmap. Then in
   every continuation, whatever live blocks it frees and whatever becomes of the other zones, no zone but the head
   serves a request, and neither that block nor any other behind the bitmap is ever allocated again.
   */
  lemma {:induction false} FarFreeIsFinal(
      ss: seq<Section>, resStart: nat, resEnd: nat, before: seq<Request>, s: State,
      a: nat, behind: seq<ZoneState>, after: seq<Request>, c: nat)
    requires ss != [] && ValidSections(ss)
    requires ProperRun(Start(ss, resStart, resEnd), before) && s == ServeAll(Start(ss, resStart, resEnd), before)
    requires a in s.live && HeadOffset(s.zones, a) >= s.zones[0].capacity
    requires c != NULL && HeadOffset(s.zones, c) >= s.zones[0].capacity
    requires ProperRun(Serve(s, Release(a, behind)), after)
    ensures var t := ServeAll(Serve(s, Release(a, behind)), after);
      OnlyHeadServes(t, s.zones[0].capacity) && SamePlace(s.zones[0], t.zones[0]) && Alloc(t.zones).addr != c
  {
    StartIsCounted(ss, resStart, resEnd);
    RunIsCounted(Start(ss, resStart, resEnd), before);
    hide Counted, OnlyHeadServes, SamePlace;
    FarFreeAndAfter(s, s.zones[0].capacity, a, behind, after, c);
  }

  lemma {:induction false} FarFreeAndAfter(
      s: State, limit: nat, a: nat, behind: seq<ZoneState>, after: seq<Request>, c: nat)
    requires Counted(s) && limit == s.zones[0].capacity && a in s.live
    requires HeadOffset(s.zones, a) >= limit && HeadOffset(s.zones, c) >= limit && c != NULL
    requires ProperRun(Serve(s, Release(a, behind)), after)
    ensures var t := ServeAll(Serve(s, Release(a, behind)), after);
      OnlyHeadServes(t, limit) && SamePlace(s.zones[0], t.zones[0]) && Alloc(t.zones).addr != c
  {
    var u := Serve(s, Release(a, behind));
    CountedFits(s);
    FarFreeOvercounts(s, limit, a, behind);
    AllReleasesBelow(u, after);
    StaysOvercounted(u, limit, after);
    var t := ServeAll(u, after);
    OvercountedAlloc(t, limit);
    hide Overcounted, Counted;
    FarIsNoHeadBit(t.zones, c, limit);
  }

  lemma {:induction false} AllReleasesBelow(s: State, rs: seq<Request>)
    requires ProperRun(s, rs) && Overcounted(s, s.zones[0].capacity)
    ensures ReleasesBelow(s, rs, s.zones[0].capacity)
    decreases |rs|
  {
    if rs != [] {
      match rs[0] {
        case Allocate => OvercountedAlloc(s, s.zones[0].capacity);
        case Release(a, behind) => OvercountedRelease(s, s.zones[0].capacity, a, behind);
      }
      hide Overcounted;
      AllReleasesBelow(Serve(s, rs[0]), rs[1..]);
    }
  }

  lemma {:induction false} LiveIsFew(s: State, reserved: seq<set<nat>>)
    requires Inv(s, reserved)
    ensures |s.live| <= 0x10_0000
  {
    var all := AllBlocks(s.zones, |s.zones|);
    FewBlocks(s.zones);
    forall a | a in s.live ensures a in all {
      InAllBlocks(s.zones, |s.zones|, a);
    }
    assert s.live <= all;
    assert |all - s.live| == |all| - |s.live|;
  }

  lemma {:induction false} HeadIsSmall(s: State, reserved: seq<set<nat>>)
    requires Inv(s, reserved)
    ensures GoodGeometry(s.zones[0]) && s.zones[0].length <= 0x10_0000
  {
  }

  /** When, after that, frees are of blocks of the head or behind the bitmap, allocations give NULL or blocks of the head. */
  lemma {:induction false} FarFreeLeavesHeadBlocks(
      s: State, reserved: seq<set<nat>>, a: nat, behind: seq<ZoneState>, after: seq<Request>)
    requires Inv(s, reserved) && a in s.live && HeadOffset(s.zones, a) >= s.zones[0].capacity
    requires ProperRun(Serve(s, Release(a, behind)), after)
    requires ReleasesBelow(Serve(s, Release(a, behind)), after, s.zones[0].length)
    ensures var t := ServeAll(Serve(s, Release(a, behind)), after);
      Alloc(t.zones).addr == NULL || IsBlockOf(s.zones[0], Alloc(t.zones).addr)
  {
    var limit, u := s.zones[0].length, Serve(s, Release(a, behind));
    CounterCoversClear(s, reserved);
    CounterFits(s, reserved, 0);
    LiveIsFew(s, reserved);
    HeadIsSmall(s, reserved);
    hide Inv, GoodGeometry;
    FarFreeOvercounts(s, limit, a, behind);
    StaysOvercounted(u, limit, after);
    var t := ServeAll(u, after);
    OvercountedAlloc(t, limit);
    hide Overcounted;
    HeadBitIsBlock(s.zones[0], t.zones, Alloc(t.zones).addr);
  }

  lemma {:induction false} HeadBitIsBlock(z: ZoneState, zs: seq<ZoneState>, a: nat)
    requires zs != [] && SamePlace(z, zs[0]) && GoodGeometry(z)
    ensures IsHeadBit(zs, a, z.length) ==> IsBlockOf(z, a)
  {
  }

  // ---- the maps on which no run loses a block ----

  lemma {:induction false} ServeOneMore(s: State, rs: seq<Request>, r: Request)
    ensures ProperRun(s, rs + [r]) <==> ProperRun(s, rs) && Proper(ServeAll(s, rs), r)
    ensures ProperRun(s, rs + [r]) ==> ServeAll(s, rs + [r]) == Serve(ServeAll(s, rs), r)
    decreases |rs|
  {
    if rs == [] {
      assert [] + [r] == [r] && [r][1..] == [];
      if Proper(s, r) {
        assert ServeAll(Serve(s, r), []) == Serve(s, r);
      }
    } else if Proper(s, rs[0]) {
      assert (rs + [r])[1..] == rs[1..] + [r];
      ServeOneMore(Serve(s, rs[0]), rs[1..], r);
    }
  }

  lemma {:induction false} GivingOneMore(s: State, ops: seq<Op>, op: Op)
    requires GivingRun(s, ops) && Gives(Run(s, ops), op)
    ensures GivingRun(s, ops + [op]) && Run(s, ops + [op]) == Step(Run(s, ops), op)
    decreases |ops|
  {
    if ops == [] {
      assert [] + [op] == [op] && [op][1..] == [];
      assert Run(Step(s, op), []) == Step(s, op);
    } else {
      assert (ops + [op])[1..] == ops[1..] + [op];
      GivingOneMore(Step(s, ops[0]), ops[1..], op);
    }
  }

  /** A request as an operation of the machine. */
  function AsOp(r: Request): Op {
    match r
    case Allocate => AllocOp
    case Release(addr, _) => FreeOp(addr)
  }

  lemma {:induction false} ServeIsStep(s: State, r: Request)
    requires Proper(s, r) && HitsHead(s, AsOp(r))
    ensures Serve(s, r) == Step(s, AsOp(r))
  {
  }

  lemma {:induction false} NextIsGiving(ss: seq<Section>, resStart: nat, resEnd: nat, ops: seq<Op>, r: Request)
    requires GivingFromStart(ss, resStart, resEnd, ops) && HeadReachesAll(ss, resStart, resEnd)
    requires Proper(AfterGiving(ss, resStart, resEnd, ops), r)
    ensures GivingFromStart(ss, resStart, resEnd, ops + [AsOp(r)])
    ensures AfterGiving(ss, resStart, resEnd, ops + [AsOp(r)]) == Serve(AfterGiving(ss, resStart, resEnd, ops), r)
  {
    var s := AfterGiving(ss, resStart, resEnd, ops);
    if r.Release? {
      ReachMakesGiving(ss, resStart, resEnd, ops, r.addr);
    }
    hide HeadReachesAll;
    ServeIsStep(s, r);
    hide Serve;
    GivingOneMore(Start(ss, resStart, resEnd), ops, AsOp(r));
  }

  lemma {:induction false} SplitLast(rs: seq<Request>)
    requires rs != []
    ensures rs == rs[..|rs| - 1] + [rs[|rs| - 1]]
  {
  }

  /** On a map whose reachable blocks are all in the head's reach, every run gives all blocks back. */
  lemma {:induction false} ProperIsGiving(ss: seq<Section>, resStart: nat, resEnd: nat, rs: seq<Request>)
    returns (ops: seq<Op>)
    requires ss != [] && ValidSections(ss) && HeadReachesAll(ss, resStart, resEnd)
    requires ProperRun(Start(ss, resStart, resEnd), rs)
    ensures GivingFromStart(ss, resStart, resEnd, ops)
    ensures AfterGiving(ss, resStart, resEnd, ops) == ServeAll(Start(ss, resStart, resEnd), rs)
    decreases |rs|
  {
    ops := [];
    if rs != [] {
      var before, last := rs[..|rs| - 1], rs[|rs| - 1];
      SplitLast(rs);
      ServeOneMore(Start(ss, resStart, resEnd), before, last);
      hide HeadReachesAll, Serve;
      ops := ProperIsGiving(ss, resStart, resEnd, before);
      hide GivingFromStart, AfterGiving;
      NextIsGiving(ss, resStart, resEnd, ops, last);
      ops := ops + [AsOp(last)];
    }
  }

  /** Requests that do what the operations do. */
  function Requests(ops: seq<Op>): seq<Request> {
    if ops == [] then []
    else [match ops[0] case AllocOp => Allocate case FreeOp(a) => Release(a, [])] + Requests(ops[1..])
  }

  lemma {:induction false} LegalIsProper(s: State, ops: seq<Op>)
    requires s.zones != [] && LegalRun(s, ops)
    ensures ProperRun(s, Requests(ops)) && ServeAll(s, Requests(ops)) == Run(s, ops)
    decreases |ops|
  {
    if ops != [] {
      assert Requests(ops)[1..] == Requests(ops[1..]);
      LegalIsProper(Step(s, ops[0]), ops[1..]);
    }
  }

  /** Every live block comes out again after its free, whatever becomes of the other zones. */
  ghost predicate LosesNothing(s: State) {
    s.zones != [] &&
    forall a, behind: seq<ZoneState> :: a in s.live ==> ComesOut(FreeAny(s.zones, a, behind), a)
  }

  lemma {:induction false} ReachLosesNothing(ss: seq<Section>, resStart: nat, resEnd: nat, rs: seq<Request>)
    requires ss != [] && ValidSections(ss) && HeadReachesAll(ss, resStart, resEnd)
    requires ProperRun(Start(ss, resStart, resEnd), rs)
    ensures LosesNothing(ServeAll(Start(ss, resStart, resEnd), rs))
  {
    var start := Start(ss, resStart, resEnd);
    var s := ServeAll(start, rs);
    var ops := ProperIsGiving(ss, resStart, resEnd, rs);
    StartIsCounted(ss, resStart, resEnd);
    RunIsCounted(start, rs);
    forall a, behind: seq<ZoneState> | a in s.live ensures ComesOut(FreeAny(s.zones, a, behind), a) {
      ReachMakesGiving(ss, resStart, resEnd, ops, a);
      CountedComesOut(s, a);
    }
  }

  lemma {:induction false} CountedComesOut(s: State, a: nat)
    requires Counted(s) && a in s.live && GivesBack(s.zones, a)
    ensures ComesOut(Free(s.zones, a), a)
  {
    CountedFits(s);
    assert |s.live - {a}| == |s.live| - 1;
    ClearAfterRelease(s.zones[0], HeadOffset(s.zones, a));
    ClearBitComesOut(Free(s.zones, a), HeadOffset(s.zones, a));
  }

  lemma {:induction false} UnreachedIsLostIn(ss: seq<Section>, resStart: nat, resEnd: nat, j: nat, b: nat)
    returns (rs: seq<Request>)
    requires ss != [] && ValidSections(ss) && j < |ss| && b < Blocks(ss[j])
    requires NothingReservedBefore(ss, resStart, resEnd, j) && b !in ReservedBlocks(ss[j], resStart, resEnd)
    requires !InHeadsReach(ss[0], BlockAddress(ss[j].base, b))
    ensures ProperRun(Start(ss, resStart, resEnd), rs)
    ensures !LosesNothing(ServeAll(Start(ss, resStart, resEnd), rs))
  {
    var a := BlockAddress(ss[j].base, b);
    ReachableIff(ss, resStart, resEnd, j, b);
    var ops :| FromStart(ss, resStart, resEnd, ops) && a in After(ss, resStart, resEnd, ops).live;
    var s, reserved := After(ss, resStart, resEnd, ops), Reserved(ss, resStart, resEnd);
    AfterInv(ss, resStart, resEnd, ops);
    LiveIsNotNull(s, reserved, a);
    GivenBackIsInReach(ss, resStart, resEnd, s.zones, a);
    FreedComesBackIff(s, reserved, a, []);
    hide Inv, ComesOut;
    rs := Requests(ops);
    LegalIsProper(Start(ss, resStart, resEnd), ops);
  }

  /**
   Exactly the maps on which the head-only search does no harm: no run of allocations and frees of live blocks loses
   a block, if and only if every block that runs can reach lies in the head's reach.
   */
  lemma {:induction false} NoBlockIsLostIff(ss: seq<Section>, resStart: nat, resEnd: nat)
    requires ss != [] && ValidSections(ss)
    ensures HeadReachesAll(ss, resStart, resEnd) <==>
      forall rs :: ProperRun(Start(ss, resStart, resEnd), rs) ==>
        LosesNothing(ServeAll(Start(ss, resStart, resEnd), rs))
  {
    hide LosesNothing;
    if HeadReachesAll(ss, resStart, resEnd) {
      forall rs | ProperRun(Start(ss, resStart, resEnd), rs)
        ensures LosesNothing(ServeAll(Start(ss, resStart, resEnd), rs))
      {
        ReachLosesNothing(ss, resStart, resEnd, rs);
      }
    } else {
      var j: nat, b: nat :| j < |ss| && b < Blocks(ss[j]) && NothingReservedBefore(ss, resStart, resEnd, j) &&
        b !in ReservedBlocks(ss[j], resStart, resEnd) && !InHeadsReach(ss[0], BlockAddress(ss[j].base, b));
      var rs := UnreachedIsLostIn(ss, resStart, resEnd, j, b);
    }
  }

  /** And on these maps all live blocks are safe in every run. */
  lemma {:induction false} EveryRunIsSafe(
      ss: seq<Section>, resStart: nat, resEnd: nat, rs: seq<Request>, a: nat, c: nat)
    requires ss != [] && ValidSections(ss) && HeadReachesAll(ss, resStart, resEnd)
    requires ProperRun(Start(ss, resStart, resEnd), rs)
    requires a in ServeAll(Start(ss, resStart, resEnd), rs).live && c in ServeAll(Start(ss, resStart, resEnd), rs).live
    ensures a != NULL && !BlockShares(a, resStart, resEnd)
    ensures exists k ::
      0 <= k < |ss| && ss[k].base <= a && a + BLOCK_SIZE <= ss[k].base + Blocks(ss[k]) * BLOCK_SIZE
    ensures a != c ==> !BlockShares(a, c, c + BLOCK_SIZE - 1)
  {
    var ops := ProperIsGiving(ss, resStart, resEnd, rs);
    hide HeadReachesAll, BlockShares;
    GivingRunIsSafe(ss, resStart, resEnd, ops, a, c);
  }

  // ---- a map with a block behind the head's bitmap ----

  const DISTANT_BLOCK_MAP := [Section(0x1000, 0x1000), Section(0x10_0000, 0x1000)]

  /** One block at 4K, one at 1M, the kernel at 2M: the second can become live, and its offset is far behind 32 bits. */
  lemma {:induction false} BlockBehindBitmap()
    ensures Reachable(DISTANT_BLOCK_MAP, 0x20_0000, 0x20_FFFF, 1, 0)
    ensures !HeadReachesAll(DISTANT_BLOCK_MAP, 0x20_0000, 0x20_FFFF)
    ensures HeadOffset(InitialZones(DISTANT_BLOCK_MAP, 0x20_0000, 0x20_FFFF), 0x10_0000) == 255
    ensures InitialZone(DISTANT_BLOCK_MAP[0], 0x20_0000, 0x20_FFFF).capacity == 32
  {
    var ss := DISTANT_BLOCK_MAP;
    assert BlockAddress(ss[1].base, 0) == 0x10_0000 && !InHeadsReach(ss[0], 0x10_0000);
    hide Reachable, InHeadsReach;
    NothingReserved(ss[0], 0x20_0000, 0x20_FFFF);
    NothingReserved(ss[1], 0x20_0000, 0x20_FFFF);
    ReachableIff(ss, 0x20_0000, 0x20_FFFF, 1, 0);
    assert NothingReservedBefore(ss, 0x20_0000, 0x20_FFFF, 1);
  }
}
