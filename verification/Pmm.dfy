/** The physical memory manager itself: zones with packed bitmaps, linked in map order. */
module Pmm {
  import opened Machine
  import opened MemoryMap
  import opened Bitmap
  import opened Layout
  import opened Pool
  import opened PoolTheorems
  import opened AnyFree
  import opened Boot

  const MBT_FLAG_IS_MMAP: bv32 := 0x40

  /** The flag for a memory map is bit 6. */
  lemma {:induction false} MapFlagIsBitSix(flags: bv32)
    ensures flags & MBT_FLAG_IS_MMAP != 0 <==> BinaryDigit(flags, 6) == 1
  {
    BitIsBinaryDigit(flags, 6);
    assert Mask(6) == 0x40;
  }

  /** Numbers below `n` of the bits that are set. */
  ghost function SetBelow(words: seq<bv32>, n: nat): (r: set<nat>)
    requires n <= WORD * |words|
    ensures forall b: nat :: b in r <==> b < n && Bit(words, b)
  {
    if n == 0 then {} else SetBelow(words, n - 1) + if Bit(words, n - 1) then {n - 1} else {}
  }

  /** A zone as it is before the kernel's blocks are reserved. */
  ghost function FreshZone(s: Section): ZoneState
    requires BLOCK_SIZE <= s.length
  {
    var capacity := WORD * BitmapWords(s);
    ZoneState(s.base, LastByte(s), Blocks(s), capacity, Blocks(s),
              Numbers(Blocks(s), capacity) + if s.base == 0 then {0} else {})
  }

  /** The zones of the first n sections before any reservation. */
  ghost predicate FreshView(zs: seq<ZoneState>, ss: seq<Section>, n: nat) {
    && |zs| == n <= |ss|
    && forall k :: 0 <= k < n ==> BLOCK_SIZE <= ss[k].length && zs[k] == FreshZone(ss[k])
  }

  /** Reading the entry at `off` tells whether it is the next section, and leaves the sections behind it. */
  lemma {:induction false} FirstSection(mem: seq<Byte>, base: nat, off: nat, ss: seq<Section>, n: nat)
    requires off < |mem| && Walkable(mem, base, off)
    requires n <= |ss| && ss[n..] == Sections(EntriesFrom(mem, base, off))
    ensures off + ENTRY_BYTES <= |mem| && Walkable(mem, base, NextOffset(mem, off))
    ensures var e, rest := ReadEntry(mem, off), Sections(EntriesFrom(mem, base, NextOffset(mem, off)));
      if e.kind != 1 || (e.baseLow == 0 && e.baseHigh != 0) then ss[n..] == rest
      else n < |ss| && ss[n] == Section(e.baseLow, e.lengthLow) && ss[n + 1..] == rest
  {
    var e, rest := ReadEntry(mem, off), EntriesFrom(mem, base, NextOffset(mem, off));
    assert EntriesFrom(mem, base, off) == [e] + rest && ([e] + rest)[1..] == rest;
    if !Skipped(e) {
      assert ss[n..] == [Section(e.baseLow, e.lengthLow)] + Sections(rest);
      assert ss[n + 1..] == ss[n..][1..];
    }
  }

  /** Adding the touched blocks to a fresh zone gives exactly the padding and the reserved blocks. */
  lemma {:induction false} ReservedFromFresh(s: Section, resStart: nat, resEnd: nat, used: set<nat>)
    requires BLOCK_SIZE <= s.length
    requires forall b: nat :: b in used <==>
      b in FreshZone(s).used || (b < Blocks(s) && Touched(s.base, b, resStart, resEnd))
    ensures used == InitialZone(s, resStart, resEnd).used
  {
    forall b: nat ensures b in used <==> b in InitialZone(s, resStart, resEnd).used {
      assert BlockAddress(s.base, b) == 0 <==> s.base == 0 && b == 0;
    }
  }

  lemma {:induction false} NoMoreSections(mem: seq<Byte>, base: nat, off: nat)
    requires |mem| <= off && Walkable(mem, base, off)
    ensures Sections(EntriesFrom(mem, base, off)) == []
  {
  }

  class Zone {
    const address: nat
    const start: nat
    const end: nat
    const length: nat
    const bitmapWords: nat
    const bitmap: array<bv32>
    var free: nat
    var lastOffset: nat
    var next: Zone?

    /** The bitmap has the words that cover every block. */
    ghost predicate Valid()
      reads this, bitmap
    {
      && 1 <= length && start <= end < TWO32 && BlockAddress(start, length) <= end + 1
      && bitmapWords == CeilDiv(length, WORD) == bitmap.Length
      && lastOffset == 0
    }

    ghost function View(): ZoneState
      requires Valid()
      reads this, bitmap
    {
      ZoneState(start, end, length, WORD * bitmapWords, free, SetBelow(bitmap[..], WORD * bitmapWords))
    }

    lemma {:induction false} Fields()
      requires Valid()
      ensures lastOffset == 0
      ensures View().start == start && View().end == end && View().free == free
      ensures View().length == length && View().capacity == WORD * bitmapWords
      ensures start <= end
    {
    }

    constructor (address: nat, s: Section)
      requires BLOCK_SIZE <= s.length && s.base + s.length <= TWO32
      ensures Valid() && View() == FreshZone(s)
      ensures this.address == address && bitmapWords == BitmapWords(s) && next == null && fresh(bitmap)
    {
      this.address := address;
      start := s.base;
      end := s.base + s.length - 1;
      lastOffset := 0;
      length := s.length / BLOCK_SIZE;
      free := s.length / BLOCK_SIZE;
      bitmapWords := CeilDiv(s.length / BLOCK_SIZE, WORD);
      bitmap := new bv32[CeilDiv(s.length / BLOCK_SIZE, WORD)];
      next := null;
      new;
      UnsetBits(bitmap, 0, length - 1);
      SetBits(bitmap, length, bitmapWords * 32 - 1);
      if start == 0 {
        SetBit(bitmap, 0);
      }
      assert View().used == FreshZone(s).used;
    }

    /** Withholds the blocks that touch the reserved range; the last bit set may be one of the padding. */
    method Reserve(ghost s: Section, resStart: nat, resEnd: nat)
      requires Valid() && BLOCK_SIZE <= s.length && resStart <= resEnd < TWO32
      requires start == s.base && end == LastByte(s) && length == Blocks(s)
      requires Numbers(length, WORD * bitmapWords) <= View().used
      requires ReservationFits(s, resStart, resEnd)
      modifies bitmap
      ensures Valid()
      ensures View() == old(View()).(used := View().used)
      ensures forall b: nat :: b in View().used <==>
        b in old(View()).used || (b < length && Touched(start, b, resStart, resEnd))
    {
      forall b: nat | b < length
        ensures Touched(start, b, resStart, resEnd) <==>
          OverlapTest(resStart, resEnd, start, end) && FirstReservedBit(s, resStart) <= b <= LastReservedBit(s, resEnd)
      {
        ReservedBitsAreTouched(s, resStart, resEnd, b);
      }
      if (resStart <= start && resEnd >= start) || (resStart >= start && resStart <= end) {
        var startbit := if start > resStart then start else resStart;
        var endbit := if end < resEnd then end else resEnd;
        startbit := (startbit - start) / BLOCK_SIZE;
        endbit := (endbit - start) / BLOCK_SIZE;
        SetBits(bitmap, startbit, endbit);
      }
    }

    /**
     The two-level scan: whole words first, then bits. Given that every bit below `from` is set, finds the least
     clear bit of the whole bitmap, padding included, or reports that there is none. A word that is not full has a
     clear bit, so the test for running off the word after the bit scan never holds and has no branch here.
     */
    method ScanFrom(from: nat) returns (found: bool, i: nat)
      requires Valid() && from % WORD == 0
      requires forall b :: 0 <= b < from && b < WORD * bitmapWords ==> Bit(bitmap[..], b)
      ensures found <==> LeastClear(View(), 0) < WORD * bitmapWords
      ensures found ==> i == LeastClear(View(), 0)
    {
      hide Bit;
      ghost var z := View();
      i := from;
      while i < length && bitmap[i / WORD] == 0xFFFF_FFFF
        invariant i % WORD == 0
        invariant forall b :: 0 <= b < i && b < WORD * bitmapWords ==> Bit(bitmap[..], b)
      {
        WordIsFull(bitmap[..], i / WORD);
        i := i + WORD;
      }
      if i >= length {
        LeastClearUnique(z, WORD * bitmapWords);
        return false, i;
      }
      WordIsFull(bitmap[..], i / WORD);
      ghost var clear :| i <= clear < i + WORD && !Bit(bitmap[..], clear);
      var end := i + 32;
      while i < end && TestBit(bitmap, i)
        invariant i <= clear < end
        invariant forall b :: 0 <= b < i && b < WORD * bitmapWords ==> Bit(bitmap[..], b)
      {
        i := i + 1;
      }
      LeastClearUnique(z, i);
      return true, i;
    }

    /** Sets bit i and counts it. */
    method Take(i: nat)
      requires Valid() && free != 0 && i < WORD * bitmapWords
      modifies `free, bitmap
      ensures Valid() && View() == TakeBlock(old(View()), i)
    {
      SetBit(bitmap, i);
      free := free - 1;
      assert View().used == old(View()).used + {i};
    }

    /** Clears bit i and counts it; the counter is a 32-bit field. */
    method Release(i: nat)
      requires Valid() && i < WORD * bitmapWords
      modifies `free, bitmap
      ensures Valid() && View() == ReleaseBlock(old(View()), i)
    {
      UnsetBit(bitmap, i);
      free := Wrap(free + 1);
      assert View().used == old(View()).used - {i};
    }
  }

  /** Zone headers lie where the layout puts them, from `first` on. */
  ghost predicate LaidOut(zones: seq<Zone>, ss: seq<Section>, first: nat) {
    && |zones| <= |ss|
    && forall k :: 0 <= k < |zones| ==>
      zones[k].address == ZoneAddress(ss, first, k) && zones[k].bitmapWords == BitmapWords(ss[k])
  }

  class PhysicalMemory {
    var head: Zone?
    /** The linked zones, in order, what they show, and the memory they occupy. */
    ghost var zones: seq<Zone>
    ghost var view: seq<ZoneState>
    ghost var Repr: set<object>
    /** Addresses handed out and not freed since. */
    ghost var live: set<nat>

    constructor ()
      ensures Linked() && zones == [] && view == [] && live == {} && fresh(Repr)
    {
      head := null;
      zones, view, live, Repr := [], [], {}, {this};
    }

    /** The state that runs are about. */
    ghost function Pool(): State
      reads this
    {
      State(view, live)
    }

    /** `zones` lists the zones in link order. */
    ghost predicate Chained()
      reads this, zones
    {
      && head == (if zones == [] then null else zones[0])
      && forall k :: 0 <= k < |zones| ==> zones[k].next == if k + 1 < |zones| then zones[k + 1] else null
    }

    /** Every zone is valid and shows its part of `view`. */
    ghost predicate Showing()
      reads this, Repr, zones
    {
      && |view| == |zones|
      && (forall k :: 0 <= k < |zones| ==> zones[k] in Repr && zones[k].bitmap in Repr)
      && (forall k :: 0 <= k < |zones| ==> zones[k].Valid() && zones[k].View() == view[k])
    }

    /** No two zones are the same object or share a bitmap. */
    ghost predicate Separate()
      reads this
    {
      forall j, k :: 0 <= j < k < |zones| ==> zones[j] != zones[k] && zones[j].bitmap != zones[k].bitmap
    }

    ghost predicate Linked()
      reads this, Repr, zones
    {
      this in Repr && Chained() && Separate() && Showing()
    }

    ghost predicate Valid()
      reads this, Repr, zones
    {
      zones != [] && Linked()
    }

    /** The first zone is valid and shows its part of `view`, whatever has become of the zones behind it. */
    ghost predicate HeadShown()
      reads this, Repr, zones
    {
      && this in Repr && zones != [] && |view| == |zones| && head == zones[0]
      && zones[0] in Repr && zones[0].bitmap in Repr && zones[0].Valid() && zones[0].View() == view[0]
    }

    /** The zones can be searched for a nonzero counter: they are linked, or the search ends at the head. */
    ghost predicate Searchable()
      reads this, Repr, zones
    {
      HeadShown() && (Linked() || view[0].free != 0)
    }

    /** Writing to the counter and bitmap of zone k leaves the contents of the other zones alone. */
    twostate lemma OthersUnchanged(k: nat)
      requires old(Linked()) && k < |zones| && zones == old(zones)
      requires forall j :: 0 <= j < |zones| && j != k ==> unchanged(zones[j]) && unchanged(zones[j].bitmap)
      ensures forall j :: 0 <= j < |zones| && j != k ==> zones[j].Valid() && zones[j].View() == old(view)[j]
    {
      forall j | 0 <= j < |zones| && j != k
        ensures zones[j].Valid() && zones[j].View() == old(view)[j]
      {
        assert old(zones[j].Valid() && zones[j].View() == view[j]);
        assert zones[j].bitmap[..] == old(zones[j].bitmap[..]);
      }
    }

    twostate lemma StillChained()
      requires old(Chained()) && zones == old(zones) && head == old(head)
      requires forall j :: 0 <= j < |zones| ==> zones[j].next == old(zones[j].next)
      ensures Chained()
    {
      assert old(forall j :: 0 <= j < |zones| ==> zones[j].next == if j + 1 < |zones| then zones[j + 1] else null);
    }

    /** Such a write keeps the zones linked, with the new contents of zone k in the view. */
    twostate lemma StillLinked(k: nat)
      requires old(Linked()) && k < |zones| && zones == old(zones) && head == old(head) && Repr == old(Repr)
      requires forall j :: 0 <= j < |zones| && j != k ==> unchanged(zones[j]) && unchanged(zones[j].bitmap)
      requires zones[k].next == old(zones[k].next) && zones[k].Valid()
      requires view == old(view)[k := zones[k].View()]
      ensures Linked()
    {
      hide Zone.Valid, Zone.View;
      assert Separate();
      assert Showing() by {
        OthersUnchanged(k);
      }
      StillChained();
    }

    /** Sets bit i of zone k. */
    method TakeFrom(z: Zone, ghost k: nat, i: nat, ghost nowLive: set<nat>)
      requires HeadShown() && (Linked() || k == 0) && k < |zones| && zones[k] == z
      requires z.free != 0 && i < WORD * z.bitmapWords
      modifies this`view, this`live, z`free, z.bitmap
      ensures HeadShown() && (old(Linked()) ==> Linked()) && live == nowLive
      ensures view == old(view)[k := TakeBlock(old(view)[k], i)]
    {
      hide Zone.Valid, Zone.View;
      ghost var linked := Linked();
      z.Take(i);
      view, live := view[k := z.View()], nowLive;
      if linked {
        StillLinked(k);
      }
    }

    /** Clears bit i of zone k. */
    method ReleaseTo(z: Zone, ghost k: nat, i: nat, ghost nowLive: set<nat>)
      requires HeadShown() && (Linked() || k == 0) && k < |zones| && zones[k] == z
      requires i < WORD * z.bitmapWords
      modifies this`view, this`live, z`free, z.bitmap
      ensures HeadShown() && (old(Linked()) ==> Linked()) && live == nowLive
      ensures view == old(view)[k := ReleaseBlock(old(view)[k], i)]
    {
      hide Zone.Valid, Zone.View;
      ghost var linked := Linked();
      z.Release(i);
      view, live := view[k := z.View()], nowLive;
      if linked {
        StillLinked(k);
      }
    }

    /** Linking a zone behind the last one leaves the contents of the earlier zones alone. */
    twostate lemma EarlierUnchanged()
      requires old(Showing()) && old(zones) <= zones
      requires forall j :: 0 <= j < |old(zones)| ==>
        && unchanged(zones[j].bitmap) && zones[j].free == old(zones[j].free)
        && zones[j].lastOffset == old(zones[j].lastOffset)
      ensures forall j :: 0 <= j < |old(zones)| ==> zones[j].Valid() && zones[j].View() == old(view)[j]
    {
      forall j | 0 <= j < |old(zones)|
        ensures zones[j].Valid() && zones[j].View() == old(view)[j]
      {
        assert zones[j] == old(zones)[j] && old(zones[j].Valid() && zones[j].View() == view[j]);
        assert zones[j].bitmap[..] == old(zones[j].bitmap[..]);
      }
    }

    /** Links a new zone behind `current`, the last zone so far (null when there is none). */
    method Append(current: Zone?, z: Zone)
      requires Linked() && current == if zones == [] then null else zones[|zones| - 1]
      requires z !in Repr && z.bitmap !in Repr && z.Valid() && z.next == null
      modifies this, Repr
      ensures Linked()
      ensures live == old(live)
      ensures Repr == old(Repr) + {z, z.bitmap} && zones == old(zones) + [z] && view == old(view) + [z.View()]
    {
      hide Zone.Valid, Zone.View;
      if current == null {
        head := z;
      } else {
        current.next := z;
      }
      zones, view, Repr := zones + [z], view + [z.View()], Repr + {z, z.bitmap};
      assert Separate();
      assert Showing() by {
        EarlierUnchanged();
      }
    }

    /** Builds the zone of section s behind `current`. */
    method AddZone(current: Zone?, address: nat, s: Section) returns (z: Zone)
      requires Linked() && current == if zones == [] then null else zones[|zones| - 1]
      requires BLOCK_SIZE <= s.length && s.base + s.length <= TWO32
      modifies Repr
      ensures Linked() && fresh(Repr - old(Repr))
      ensures zones == old(zones) + [z] && view == old(view) + [FreshZone(s)] && live == old(live)
      ensures z.address == address && z.bitmapWords == BitmapWords(s)
    {
      hide Zone.Valid, Zone.View;
      z := new Zone(address, s);
      Append(current, z);
    }

    // ---- initialisation ----

    lemma {:induction false} NothingBuilt(ss: seq<Section>, first: nat)
      requires zones == [] && view == []
      ensures FreshView(view, ss, 0) && LaidOut(zones, ss, first)
    {
    }

    /** Places the zone of a usable map entry right behind the metadata of the one before it. */
    method NextZone(current: Zone?, e: Entry, ghost ss: seq<Section>, ghost n: nat, kernelEnd: nat) returns (z: Zone)
      requires n < |ss| && ss[n] == Section(e.baseLow, e.lengthLow)
      requires BLOCK_SIZE <= ss[n].length && ss[n].base + ss[n].length <= TWO32
      requires Linked() && FreshView(view, ss, n) && LaidOut(zones, ss, kernelEnd)
      requires current == if zones == [] then null else zones[|zones| - 1]
      modifies Repr
      ensures Linked() && fresh(Repr - old(Repr)) && FreshView(view, ss, n + 1) && LaidOut(zones, ss, kernelEnd)
      ensures zones == old(zones) + [z] && z.bitmapWords == BitmapWords(ss[n]) && live == old(live)
    {
      hide Zone.Valid, Zone.View, FreshZone;
      var address := kernelEnd;
      assert ss[..0] == [];
      if current != null {
        address := current.address + ZONE_HEADER + current.bitmapWords * 4;
        NextZoneAddress(ss, kernelEnd, n - 1);
      }
      z := AddZone(current, address, Section(e.baseLow, e.lengthLow));
    }

    /** Walks the memory map and builds a zone for every usable entry; returns the bytes of metadata laid out. */
    method BuildZones(base: nat, mem: seq<Byte>, kernelEnd: nat, ghost ss: seq<Section>) returns (structuresSize: nat)
      requires Linked() && zones == [] && view == [] && Walkable(mem, base, 0)
      requires ss == Sections(EntriesFrom(mem, base, 0)) && ValidSections(ss)
      modifies Repr
      ensures Linked() && fresh(Repr - old(Repr)) && FreshView(view, ss, |ss|) && LaidOut(zones, ss, kernelEnd)
      ensures |zones| == |ss| && live == old(live)
      ensures structuresSize == MetadataSize(ss)
    {
      hide Zone.Valid, Zone.View, Linked, FreshView, LaidOut, Walkable, EntriesFrom, Sections;
      ghost var n := 0;
      structuresSize := 0;
      var current: Zone? := null;
      var section := base;
      assert ss[..0] == [] && ss[0..] == ss;
      assert FreshView(view, ss, 0) && LaidOut(zones, ss, kernelEnd) by {
        NothingBuilt(ss, kernelEnd);
      }
      while section < base + |mem|
        invariant base <= section && Walkable(mem, base, section - base)
        invariant n <= |ss| && ss[n..] == Sections(EntriesFrom(mem, base, section - base))
        invariant Linked() && FreshView(view, ss, n) && LaidOut(zones, ss, kernelEnd)
        invariant forall o :: o in Repr ==> o in old(Repr) || fresh(o)
        invariant live == old(live) && |zones| == n && current == if zones == [] then null else zones[|zones| - 1]
        invariant structuresSize == MetadataSize(ss[..n])
        decreases base + |mem| - section
      {
        FirstSection(mem, base, section - base, ss, n);
        ghost var next := NextOffset(mem, section - base);
        var e := ReadEntry(mem, section - base);
        section := section + e.size + SIZE_FIELD;
        assert section - base == next;
        if Skipped(e) {
          continue;
        }
        current := NextZone(current, e, ss, n, kernelEnd);
        NextZoneAddress(ss, 0, n);
        structuresSize := structuresSize + ZONE_HEADER + current.bitmapWords * 4;
        n := n + 1;
      }
      NoMoreSections(mem, base, section - base);
      assert ss[..n] == ss;
    }

    /** Reserves the blocks of zone k that touch the reserved range. */
    method ReserveZone(z: Zone, ghost k: nat, ghost s: Section, resStart: nat, resEnd: nat)
      requires Linked() && k < |zones| && zones[k] == z
      requires BLOCK_SIZE <= s.length && view[k] == FreshZone(s) && resStart <= resEnd < TWO32
      requires ReservationFits(s, resStart, resEnd)
      modifies this`view, z.bitmap
      ensures Linked() && view == old(view)[k := InitialZone(s, resStart, resEnd)]
    {
      z.Fields();
      z.Reserve(s, resStart, resEnd);
      ReservedFromFresh(s, resStart, resEnd, z.View().used);
      hide Zone.Valid, Zone.View;
      view := view[k := z.View()];
      StillLinked(k);
    }

    /** Reserves, in every zone, the blocks that touch the kernel or the zones' own metadata. */
    method ReserveAll(ghost ss: seq<Section>, resStart: nat, resEnd: nat)
      requires Valid() && FreshView(view, ss, |ss|)
      requires ValidSections(ss) && resStart <= resEnd < TWO32
      requires forall k :: 0 <= k < |ss| ==> ReservationFits(ss[k], resStart, resEnd)
      modifies Repr
      ensures Valid() && Repr == old(Repr) && zones == old(zones) && live == old(live)
      ensures view == InitialZones(ss, resStart, resEnd)
    {
      hide Zone.Valid, Zone.View, FreshZone;
      ghost var k := 0;
      var current := head;
      while current != null
        invariant 0 <= k <= |zones| && zones == old(zones) && Repr == old(Repr) && live == old(live)
        invariant current == if k < |zones| then zones[k] else null
        invariant Linked()
        invariant forall j :: 0 <= j < k ==> view[j] == InitialZone(ss[j], resStart, resEnd)
        invariant forall j :: k <= j < |zones| ==> view[j] == FreshZone(ss[j])
        decreases |zones| - k
      {
        assert current == zones[k];
        assert current.next == if k + 1 < |zones| then zones[k + 1] else null;
        ReserveZone(current, k, ss[k], resStart, resEnd);
        current := current.next;
        k := k + 1;
      }
    }

    /**
     Builds the zones from the memory map at address `mapAddress` and reserves what must not be handed out.
     Fails, as the kernel aborts, when the loader supplies no memory map.
     */
    method InitPmm(flags: bv32, mapAddress: nat, mem: seq<Byte>, kernelStart: nat, kernelEnd: nat, virtualOffset: nat)
      returns (ok: bool)
      requires Linked() && zones == [] && view == [] && live == {}
      requires BinaryDigit(flags, 6) == 1 ==>
        Bootable(Wrap(mapAddress + virtualOffset), mem, kernelStart, kernelEnd, virtualOffset)
      modifies Repr
      ensures ok <==> BinaryDigit(flags, 6) == 1
      ensures ok ==>
        var es := EntriesFrom(mem, Wrap(mapAddress + virtualOffset), 0);
        && Valid() && fresh(Repr - old(Repr)) && LaidOut(zones, Sections(es), kernelEnd)
        && Pool() == Booted(es, kernelStart, kernelEnd, virtualOffset)
        && WithholdsExactly(Pool(), Sections(es), kernelStart, kernelEnd, virtualOffset)
    {
      hide Zone.Valid, Zone.View, Linked, FreshView, LaidOut, Walkable, EntriesFrom, Sections, WithholdsExactly;
      MapFlagIsBitSix(flags);
      hide BinaryDigit;
      if flags & MBT_FLAG_IS_MMAP == 0 {
        return false;
      }
      var base := Wrap(mapAddress + virtualOffset);
      ghost var ss := Sections(EntriesFrom(mem, base, 0));
      var structuresSize := BuildZones(base, mem, kernelEnd, ss);
      ReserveAll(ss, kernelStart - virtualOffset, kernelEnd - virtualOffset - 1 + structuresSize);
      BootedWithholdsExactly(EntriesFrom(mem, base, 0), kernelStart, kernelEnd, virtualOffset);
      return true;
    }

    /** The zone search of both allocators: the first zone whose counter is not 0. */
    method FirstZoneWithFree() returns (z: Zone?)
      requires Searchable()
      ensures z == null <==> FirstZone(view) == |zones|
      ensures z != null ==> z == zones[FirstZone(view)]
    {
      z := head;
      ghost var k := 0;
      while z != null && z.free == 0
        invariant 0 <= k <= |zones|
        invariant z == if k < |zones| then zones[k] else null
        invariant forall j :: 0 <= j < k ==> view[j].free == 0
        invariant !Linked() ==> k == 0
        decreases |zones| - k
      {
        z := z.next;
        k := k + 1;
      }
    }

    /** The end of both allocators: takes the bit that the scan found and gives its address. */
    method TakeFound(z: Zone, i: nat) returns (addr: nat)
      requires Searchable() && FirstZone(view) < |zones| && z == zones[FirstZone(view)]
      requires i == LeastClear(view[FirstZone(view)], 0) < view[FirstZone(view)].capacity == WORD * z.bitmapWords
      requires z.free != 0 && z.start == view[FirstZone(view)].start
      modifies this`view, this`live, z`free, z.bitmap
      ensures HeadShown() && (old(Linked()) ==> Linked())
      ensures Allocation(view, addr) == Alloc(old(view))
      ensures live == if addr == NULL then old(live) else old(live) + {addr}
    {
      hide Zone.Valid, Zone.View, LeastClear, Linked;
      addr := Wrap(i * BLOCK_SIZE + z.start);
      TakeFrom(z, FirstZone(view), i, if addr == NULL then live else live + {addr});
    }

    /** Allocates one block, starting the scan at the zone's last offset. It is one step of a run. */
    method PmmAlloc() returns (addr: nat)
      requires Searchable()
      modifies Repr
      ensures HeadShown() && (old(Linked()) ==> Linked()) && Repr == old(Repr)
      ensures Allocation(view, addr) == Alloc(old(view))
      ensures Pool() == Step(old(Pool()), AllocOp)
    {
      hide Zone.Valid, Zone.View;
      var z := FirstZoneWithFree();
      if z == null {
        return NULL;
      }
      z.Fields();
      var found, i := z.ScanFrom(z.lastOffset);
      if !found {
        return NULL;
      }
      addr := TakeFound(z, i);
    }

    /** Allocates one block, starting the scan at bit 0. */
    method PmmAlloc2() returns (addr: nat)
      requires Searchable()
      modifies Repr
      ensures HeadShown() && (old(Linked()) ==> Linked()) && Repr == old(Repr)
      ensures Allocation(view, addr) == Alloc(old(view))
      ensures Pool() == Step(old(Pool()), AllocOp)
    {
      hide Zone.Valid, Zone.View;
      var z := FirstZoneWithFree();
      if z == null {
        return NULL;
      }
      z.Fields();
      var found, i := z.ScanFrom(0);
      if !found {
        return NULL;
      }
      addr := TakeFound(z, i);
    }

    /** The condition under which the search of `PmmFree` moves past zone k. */
    ghost predicate SearchSkips(k: nat, addr: nat)
      requires k < |zones|
      reads this, zones
    {
      zones[k].start > addr && addr > zones[k].end
    }

    /** The search of `PmmFree`: the first zone not skipped, whatever ranges the zones have. */
    method ZoneToFree(addr: nat) returns (z: Zone?)
      requires Chained() || (zones != [] && head == zones[0] && !SearchSkips(0, addr))
      ensures z == null ==> forall j :: 0 <= j < |zones| ==> SearchSkips(j, addr)
      ensures z != null ==> exists k ::
        && 0 <= k < |zones| && z == zones[k] && !SearchSkips(k, addr)
        && forall j :: 0 <= j < k ==> SearchSkips(j, addr)
    {
      z := head;
      ghost var k := 0;
      while z != null && z.start > addr && addr > z.end
        invariant 0 <= k <= |zones|
        invariant z == if k < |zones| then zones[k] else null
        invariant forall j :: 0 <= j < k ==> SearchSkips(j, addr)
        invariant !Chained() ==> k == 0
        decreases |zones| - k
      {
        z := z.next;
        k := k + 1;
      }
    }

    /**
     Frees the block at any address. A zone's start never exceeds its end, so the search skips no zone and stops at the
     head. An offset within the head's bitmap, padding included, is a bit of an array here. Behind it, the word that is
     written belongs to no object here; it is none of the head's, and nothing is promised of the other zones then.
     */
    method PmmFree(addr: nat)
      requires HeadShown() && addr < TWO32
      modifies Repr
      ensures HeadShown() && Repr == old(Repr)
      ensures old(Linked()) && HeadOffset(old(view), addr) < old(view)[0].capacity ==> Linked()
      ensures Pool() == Serve(old(Pool()), Release(addr, old(view)[1..]))
    {
      zones[0].Fields();
      hide Zone.Valid, Zone.View, Linked, FreeAny;
      assert !SearchSkips(0, addr);
      var z := ZoneToFree(addr);
      assert !SearchSkips(0, addr);
      if z == null {
        assert false;
      }
      FreeInHead(z, addr);
    }

    method FreeInHead(z: Zone, addr: nat)
      requires HeadShown() && zones[0] == z
      modifies this`view, this`live, z`free, z.bitmap
      ensures HeadShown()
      ensures old(Linked()) && HeadOffset(old(view), addr) < old(view)[0].capacity ==> Linked()
      ensures view == FreeAny(old(view), addr, old(view)[1..]) && live == old(live) - {addr}
    {
      z.Fields();
      var offset := Wrap(addr - z.start) / BLOCK_SIZE;
      FreeAnyInHead(view, addr);
      assert offset == HeadOffset(view, addr) && WORD * z.bitmapWords == view[0].capacity;
      hide Zone.Valid, Zone.View, Linked, HeadShown, FreeAny, ReleaseBlock, HeadOffset, Wrap;
      if offset < WORD * z.bitmapWords {
        ReleaseTo(z, 0, offset, live - {addr});
      } else {
        CountFree(z, live - {addr});
      }
    }

    /** A free that only raises the counter of the head. */
    method CountFree(z: Zone, ghost nowLive: set<nat>)
      requires HeadShown() && zones[0] == z
      modifies this`view, this`live, z`free
      ensures HeadShown() && live == nowLive
      ensures view == old(view)[0 := old(view)[0].(free := Wrap(old(view)[0].free + 1))]
    {
      z.free := Wrap(z.free + 1);
      view, live := view[0 := z.View()], nowLive;
    }
  }
}
