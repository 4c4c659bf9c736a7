/**
 Where the physical memory manager puts its zones and which blocks it withholds: the arithmetic of
 block numbers, bitmap sizes, zone addresses and the reserved address range.
 */
module Layout {
  import opened Machine
  import opened MemoryMap
  import opened Bitmap

  const BLOCK_SIZE := 4096
  /** Bytes of a packed zone header: eight 32-bit fields. */
  const ZONE_HEADER := 32

  function CeilDiv(x: nat, y: nat): nat
    requires y != 0
  {
    x / y + if x % y != 0 then 1 else 0
  }

  /** Whole blocks of a section. */
  function Blocks(s: Section): nat {
    s.length / BLOCK_SIZE
  }

  /** They are exactly the 4096-byte blocks from the base on that end within the section. */
  lemma {:induction false} BlocksAreWhole(s: Section, b: nat)
    ensures b < Blocks(s) <==> s.base + 4096 * (b + 1) <= s.base + s.length
  {
  }

  function BitmapWords(s: Section): nat {
    CeilDiv(Blocks(s), WORD)
  }

  /** Inclusive address of the last byte of a section. */
  function LastByte(s: Section): int {
    s.base + s.length - 1
  }

  predicate Disjoint(s: Section, t: Section) {
    s.base + s.length <= t.base || t.base + t.length <= s.base
  }

  /** What the allocator needs of the memory map: sections of at least one block, apart, in a 32-bit space. */
  ghost predicate ValidSections(ss: seq<Section>) {
    && (forall i :: 0 <= i < |ss| ==> BLOCK_SIZE <= ss[i].length && ss[i].base + ss[i].length <= TWO32)
    && (forall i, j :: 0 <= i < j < |ss| ==> Disjoint(ss[i], ss[j]))
  }

  // ---- zone metadata ----

  /** Bytes of one zone's header and bitmap. */
  function ZoneBytes(s: Section): nat {
    ZONE_HEADER + 4 * BitmapWords(s)
  }

  /** Bytes of all zones' headers and bitmaps. */
  function MetadataSize(ss: seq<Section>): nat {
    if ss == [] then 0 else MetadataSize(ss[..|ss| - 1]) + ZoneBytes(ss[|ss| - 1])
  }

  /** Address of the header of zone k when the first header is at `first`. */
  function ZoneAddress(ss: seq<Section>, first: nat, k: nat): nat
    requires k <= |ss|
  {
    first + MetadataSize(ss[..k])
  }

  lemma {:induction false} NextZoneAddress(ss: seq<Section>, first: nat, k: nat)
    requires k < |ss|
    ensures ZoneAddress(ss, first, k + 1) == ZoneAddress(ss, first, k) + ZoneBytes(ss[k])
  {
    assert ss[..k + 1][..k] == ss[..k];
  }

  lemma {:induction false} ZoneAddressesIncrease(ss: seq<Section>, first: nat, j: nat, k: nat)
    requires j < k <= |ss|
    ensures ZoneAddress(ss, first, j) + ZoneBytes(ss[j]) <= ZoneAddress(ss, first, k)
    decreases k
  {
    NextZoneAddress(ss, first, k - 1);
    if j < k - 1 {
      ZoneAddressesIncrease(ss, first, j, k - 1);
    }
  }

  /** Address `a` belongs to the header or the bitmap of zone k. */
  predicate InMetadata(ss: seq<Section>, first: nat, k: nat, a: nat)
    requires k < |ss|
  {
    ZoneAddress(ss, first, k) <= a < ZoneAddress(ss, first, k) + ZoneBytes(ss[k])
  }

  lemma {:induction false} SomeZoneHolds(ss: seq<Section>, first: nat, a: nat, n: nat)
    requires n <= |ss| && first <= a < ZoneAddress(ss, first, n)
    ensures exists k :: 0 <= k < n && InMetadata(ss, first, k, a)
  {
    assert ss[..0] == [];
    NextZoneAddress(ss, first, n - 1);
    if a < ZoneAddress(ss, first, n - 1) {
      SomeZoneHolds(ss, first, a, n - 1);
    } else {
      assert InMetadata(ss, first, n - 1, a);
    }
  }

  lemma {:induction false} MetadataInRange(ss: seq<Section>, first: nat, k: nat, a: nat)
    requires k < |ss| && InMetadata(ss, first, k, a)
    ensures first <= a < first + MetadataSize(ss)
  {
    assert ss[..|ss|] == ss;
    ZoneAddressesIncrease(ss, first, k, |ss|);
  }

  ghost predicate InNoMetadata(ss: seq<Section>, first: nat, a: nat) {
    forall k :: 0 <= k < |ss| ==> !InMetadata(ss, first, k, a)
  }

  lemma {:induction false} OutsideMetadata(ss: seq<Section>, first: nat, a: nat)
    requires !(first <= a < first + MetadataSize(ss))
    ensures InNoMetadata(ss, first, a)
  {
    forall k | 0 <= k < |ss| ensures !InMetadata(ss, first, k, a) {
      if InMetadata(ss, first, k, a) {
        MetadataInRange(ss, first, k, a);
      }
    }
  }

  /**
   Headers and bitmaps tile the metadata range: every address of the range lies in one zone's metadata,
   in no other zone's, and no address outside the range does.
   */
  lemma {:induction false} MetadataTiles(ss: seq<Section>, first: nat, a: nat)
    ensures first <= a < first + MetadataSize(ss) <==> exists k :: 0 <= k < |ss| && InMetadata(ss, first, k, a)
    ensures forall j, k :: 0 <= j < k < |ss| ==> !(InMetadata(ss, first, j, a) && InMetadata(ss, first, k, a))
  {
    assert ss[..|ss|] == ss;
    if first <= a < first + MetadataSize(ss) {
      SomeZoneHolds(ss, first, a, |ss|);
    }
    forall k | 0 <= k < |ss| && InMetadata(ss, first, k, a)
      ensures first <= a < first + MetadataSize(ss)
    {
      MetadataInRange(ss, first, k, a);
    }
    forall j, k | 0 <= j < k < |ss|
      ensures !(InMetadata(ss, first, j, a) && InMetadata(ss, first, k, a))
    {
      ZoneAddressesIncrease(ss, first, j, k);
    }
  }

  // ---- clearing a bit behind the head's bitmap ----

  /** The word written when bit `o` of the bitmap behind the header at `first` is cleared. */
  function WrittenWord(first: nat, o: nat): nat {
    Wrap(first + ZONE_HEADER + 4 * (o / WORD))
  }

  /** Clearing bit `o` of the head's bitmap clears bit c of zone k's bitmap. */
  predicate ClearsBit(ss: seq<Section>, first: nat, o: nat, k: nat, c: nat)
    requires k < |ss|
  {
    WrittenWord(first, o) == ZoneAddress(ss, first, k) + ZONE_HEADER + 4 * (c / WORD) && o % WORD == c % WORD
  }

  /** It writes field f, counted from 0, of zone k's header. */
  predicate WritesField(ss: seq<Section>, first: nat, o: nat, k: nat, f: nat)
    requires k < |ss|
  {
    WrittenWord(first, o) == ZoneAddress(ss, first, k) + 4 * f
  }

  lemma {:induction false} MetadataIsWords(ss: seq<Section>)
    ensures MetadataSize(ss) % 4 == 0
    decreases |ss|
  {
    if ss != [] {
      MetadataIsWords(ss[..|ss| - 1]);
    }
  }

  /** A write into the metadata reaches no address before `first`, by going past 2^32. */
  lemma {:induction false} WriteDoesNotWrap(ss: seq<Section>, first: nat, o: nat, a: nat)
    requires first <= a < first + MetadataSize(ss) <= TWO32 && o < 0x10_0000
    ensures WrittenWord(first, o) == a <==> first + ZONE_HEADER + 4 * (o / WORD) == a
  {
  }

  /** Bit c of zone k is the one cleared exactly when `o` exceeds it by 8 times the bytes from the head's header to k's. */
  lemma {:induction false} ClearsBitIff(ss: seq<Section>, first: nat, o: nat, k: nat, c: nat)
    requires k < |ss| && c < WORD * BitmapWords(ss[k])
    requires first + MetadataSize(ss) <= TWO32 && o < 0x10_0000
    ensures ClearsBit(ss, first, o, k, c) <==> o == 8 * (ZoneAddress(ss, first, k) - first) + c
  {
    var h := ZoneAddress(ss, first, k);
    var a := h + ZONE_HEADER + 4 * (c / WORD);
    assert InMetadata(ss, first, k, a);
    MetadataInRange(ss, first, k, a);
    WriteDoesNotWrap(ss, first, o, a);
    MetadataIsWords(ss[..k]);
    hide WrittenWord, ZoneAddress, InMetadata;
    EightBitsToTheByte(h - first, o, c);
  }

  lemma {:induction false} EightBitsToTheByte(d: nat, o: nat, c: nat)
    requires d % 4 == 0
    ensures 4 * (o / WORD) == d + 4 * (c / WORD) && o % WORD == c % WORD <==> o == 8 * d + c
  {
    assert o == WORD * (o / WORD) + o % WORD && c == WORD * (c / WORD) + c % WORD;
  }

  /** Word i of zone k's metadata is a header field, or holds bits of the bitmap. */
  lemma {:induction false} WordOfZone(ss: seq<Section>, first: nat, o: nat, k: nat)
    requires first + MetadataSize(ss) <= TWO32 && o < 0x10_0000
    requires k < |ss| && InMetadata(ss, first, k, WrittenWord(first, o))
    ensures var i := (WrittenWord(first, o) - ZoneAddress(ss, first, k)) / 4;
      if i < 8 then WritesField(ss, first, o, k, i)
      else i - 8 < BitmapWords(ss[k]) && ClearsBit(ss, first, o, k, WORD * (i - 8) + o % WORD)
  {
    var w := WrittenWord(first, o);
    MetadataInRange(ss, first, k, w);
    WriteDoesNotWrap(ss, first, o, w);
    MetadataIsWords(ss[..k]);
  }

  /** The zone hit is the head exactly when `o` is within the head's bitmap. */
  lemma {:induction false} HeadIsHitIff(ss: seq<Section>, first: nat, o: nat, k: nat)
    requires first + MetadataSize(ss) <= TWO32 && o < 0x10_0000
    requires k < |ss| && InMetadata(ss, first, k, WrittenWord(first, o))
    ensures k == 0 <==> o < WORD * BitmapWords(ss[0])
    ensures k == 0 ==> WrittenWord(first, o) - ZoneAddress(ss, first, 0) >= ZONE_HEADER
  {
    var w := WrittenWord(first, o);
    MetadataInRange(ss, first, k, w);
    WriteDoesNotWrap(ss, first, o, w);
    assert ss[..0] == [];
    if k != 0 {
      ZoneAddressesIncrease(ss, first, 0, k);
    }
  }

  /**
   Every write into the metadata either clears a bit of one zone's bitmap or changes one of the eight fields of a
   zone's header; the zone is the head exactly when `o` is within the head's bitmap.
   */
  lemma {:induction false} WriteHits(ss: seq<Section>, first: nat, o: nat) returns (k: nat)
    requires first + MetadataSize(ss) <= TWO32 && o < 0x10_0000
    requires first <= WrittenWord(first, o) < first + MetadataSize(ss)
    ensures k < |ss| && InMetadata(ss, first, k, WrittenWord(first, o))
    ensures k == 0 <==> o < WORD * BitmapWords(ss[0])
    ensures var i := (WrittenWord(first, o) - ZoneAddress(ss, first, k)) / 4;
      if i < 8 then k != 0 && WritesField(ss, first, o, k, i)
      else i - 8 < BitmapWords(ss[k]) && ClearsBit(ss, first, o, k, WORD * (i - 8) + o % WORD)
  {
    var w := WrittenWord(first, o);
    MetadataTiles(ss, first, w);
    k :| k < |ss| && InMetadata(ss, first, k, w);
    hide WrittenWord, ZoneAddress, WritesField, ClearsBit;
    WordOfZone(ss, first, o, k);
    HeadIsHitIff(ss, first, o, k);
  }

  // ---- the reserved range ----

  predicate Within(a: int, lo: int, hi: int) {
    lo <= a <= hi
  }

  /** Two inclusive address ranges have an address in common. */
  ghost predicate Share(lo1: int, hi1: int, lo2: int, hi2: int) {
    exists a :: Within(a, lo1, hi1) && Within(a, lo2, hi2)
  }

  lemma {:induction false} ShareIsOverlap(lo1: int, hi1: int, lo2: int, hi2: int)
    requires lo1 <= hi1 && lo2 <= hi2
    ensures Share(lo1, hi1, lo2, hi2) <==> lo1 <= hi2 && lo2 <= hi1
  {
    if lo1 <= hi2 && lo2 <= hi1 {
      var a := if lo1 <= lo2 then lo2 else lo1;
      assert Within(a, lo1, hi1) && Within(a, lo2, hi2);
    }
  }

  /** The test that decides whether a zone loses blocks to the reserved range. */
  predicate OverlapTest(resStart: int, resEnd: int, start: int, end: int) {
    (resStart <= start && resEnd >= start) || (resStart >= start && resStart <= end)
  }

  /** The two-way test is exactly intersection of the two ranges. */
  lemma {:induction false} OverlapTestIsShare(resStart: int, resEnd: int, start: int, end: int)
    requires resStart <= resEnd && start <= end
    ensures OverlapTest(resStart, resEnd, start, end) <==> Share(resStart, resEnd, start, end)
  {
    ShareIsOverlap(resStart, resEnd, start, end);
  }

  /** First byte of block b. */
  function BlockAddress(base: nat, b: nat): nat {
    base + b * BLOCK_SIZE
  }

  /** Some byte of block b lies in the reserved range. */
  ghost predicate Touched(base: nat, b: nat, resStart: nat, resEnd: nat) {
    Share(BlockAddress(base, b), BlockAddress(base, b) + BLOCK_SIZE - 1, resStart, resEnd)
  }

  /** The blocks that must never be handed out: those touching the reserved range, and the block at address 0. */
  ghost function ReservedBlocks(s: Section, resStart: nat, resEnd: nat): set<nat> {
    set b: nat | b < Blocks(s) && (Touched(s.base, b, resStart, resEnd) || BlockAddress(s.base, b) == 0)
  }

  /** A section loses a block exactly when it starts at address 0 or the reserved range meets its whole blocks. */
  lemma {:induction false} LosesBlockIff(s: Section, resStart: nat, resEnd: nat)
    requires BLOCK_SIZE <= s.length && resStart <= resEnd
    ensures ReservedBlocks(s, resStart, resEnd) != {} <==>
      s.base == 0 || (resStart < BlockAddress(s.base, Blocks(s)) && s.base <= resEnd)
  {
    var first := if s.base < resStart then resStart else s.base;
    if s.base == 0 {
      assert BlockAddress(s.base, 0) == 0;
      assert 0 in ReservedBlocks(s, resStart, resEnd);
    } else if resStart < BlockAddress(s.base, Blocks(s)) && s.base <= resEnd {
      var b := (first - s.base) / BLOCK_SIZE;
      assert Within(first, BlockAddress(s.base, b), BlockAddress(s.base, b) + BLOCK_SIZE - 1);
      assert Within(first, resStart, resEnd);
      assert b in ReservedBlocks(s, resStart, resEnd);
    } else {
      forall b: nat | b < Blocks(s) ensures !Touched(s.base, b, resStart, resEnd) {
        ShareIsOverlap(BlockAddress(s.base, b), BlockAddress(s.base, b) + BLOCK_SIZE - 1, resStart, resEnd);
      }
    }
  }

  /** First physical address of the kernel. */
  function ReservedStart(kernelStart: nat, virtualOffset: nat): nat
    requires virtualOffset <= kernelStart
  {
    kernelStart - virtualOffset
  }

  /** Last physical address of the kernel and the zone metadata behind it. */
  function ReservedEnd(ss: seq<Section>, kernelEnd: nat, virtualOffset: nat): nat
    requires virtualOffset < kernelEnd
  {
    kernelEnd - virtualOffset - 1 + MetadataSize(ss)
  }

  /** The byte at physical address x belongs to the kernel, or to the header or bitmap of some zone. */
  ghost predicate IsTaken(ss: seq<Section>, kernelStart: nat, kernelEnd: nat, virtualOffset: nat, x: nat) {
    kernelStart <= x + virtualOffset < kernelEnd || !InNoMetadata(ss, kernelEnd, x + virtualOffset)
  }

  lemma {:induction false} MetadataIff(ss: seq<Section>, first: nat, a: nat)
    ensures InNoMetadata(ss, first, a) <==> !(first <= a < first + MetadataSize(ss))
  {
    MetadataTiles(ss, first, a);
  }

  /** The reserved range is exactly the bytes of the kernel and of the zones' headers and bitmaps. */
  lemma {:induction false} ReservedRangeIsTaken(
      ss: seq<Section>, kernelStart: nat, kernelEnd: nat, virtualOffset: nat, x: nat)
    requires virtualOffset <= kernelStart < kernelEnd
    ensures Within(x, ReservedStart(kernelStart, virtualOffset), ReservedEnd(ss, kernelEnd, virtualOffset)) <==>
      IsTaken(ss, kernelStart, kernelEnd, virtualOffset, x)
  {
    hide InNoMetadata;
    MetadataIff(ss, kernelEnd, x + virtualOffset);
  }

  /** Block b of s is at address 0, or has a byte of the kernel or of a zone's header or bitmap. */
  ghost predicate MustWithhold(
      ss: seq<Section>, kernelStart: nat, kernelEnd: nat, virtualOffset: nat, s: Section, b: nat)
  {
    s.base + 4096 * b == 0 ||
    exists x: nat ::
      s.base + 4096 * b <= x < s.base + 4096 * b + 4096 && IsTaken(ss, kernelStart, kernelEnd, virtualOffset, x)
  }

  /** The reserved blocks are exactly those that must not be handed out, no more and no fewer. */
  lemma {:induction false} ReservedIff(
      ss: seq<Section>, kernelStart: nat, kernelEnd: nat, virtualOffset: nat, s: Section, b: nat)
    requires virtualOffset <= kernelStart < kernelEnd
    ensures b in ReservedBlocks(s, ReservedStart(kernelStart, virtualOffset), ReservedEnd(ss, kernelEnd, virtualOffset))
      <==> b < Blocks(s) && MustWithhold(ss, kernelStart, kernelEnd, virtualOffset, s, b)
  {
    var lo, hi := ReservedStart(kernelStart, virtualOffset), ReservedEnd(ss, kernelEnd, virtualOffset);
    hide IsTaken, ReservedStart, ReservedEnd;
    var first := s.base + 4096 * b;
    if x: nat :| first <= x < first + 4096 && IsTaken(ss, kernelStart, kernelEnd, virtualOffset, x) {
      ReservedRangeIsTaken(ss, kernelStart, kernelEnd, virtualOffset, x);
      assert Within(x, BlockAddress(s.base, b), BlockAddress(s.base, b) + BLOCK_SIZE - 1);
      assert Touched(s.base, b, lo, hi);
    }
    if Touched(s.base, b, lo, hi) {
      var x: int :| Within(x, BlockAddress(s.base, b), BlockAddress(s.base, b) + BLOCK_SIZE - 1) && Within(x, lo, hi);
      ReservedRangeIsTaken(ss, kernelStart, kernelEnd, virtualOffset, x);
    }
  }

  function FirstReservedBit(s: Section, resStart: nat): int {
    ((if s.base > resStart then s.base else resStart) - s.base) / BLOCK_SIZE
  }

  function LastReservedBit(s: Section, resEnd: nat): int {
    ((if LastByte(s) < resEnd then LastByte(s) else resEnd) - s.base) / BLOCK_SIZE
  }

  /** The bits set for an overlapping zone are exactly the blocks of it that touch the reserved range. */
  lemma {:induction false} ReservedBitsAreTouched(s: Section, resStart: nat, resEnd: nat, b: nat)
    requires BLOCK_SIZE <= s.length && resStart <= resEnd && b < Blocks(s)
    ensures Touched(s.base, b, resStart, resEnd) <==>
      OverlapTest(resStart, resEnd, s.base, LastByte(s)) &&
      FirstReservedBit(s, resStart) <= b <= LastReservedBit(s, resEnd)
  {
    var lo := BlockAddress(s.base, b);
    ShareIsOverlap(lo, lo + BLOCK_SIZE - 1, resStart, resEnd);
  }

  /** The last bit written for an overlapping zone lies in its bitmap. */
  predicate ReservationFits(s: Section, resStart: nat, resEnd: nat) {
    OverlapTest(resStart, resEnd, s.base, LastByte(s)) ==> LastReservedBit(s, resEnd) < WORD * BitmapWords(s)
  }

  /**
   The reservation runs past the bitmap exactly when the reserved range reaches the partial block at the end of
   a section whose whole blocks fill every bit of the bitmap.
   */
  lemma {:induction false} ReservationFitsIff(s: Section, resStart: nat, resEnd: nat)
    requires BLOCK_SIZE <= s.length && resStart <= resEnd
    ensures ReservationFits(s, resStart, resEnd) <==>
      !(Blocks(s) % WORD == 0 &&
        Share(resStart, resEnd, s.base, LastByte(s)) &&
        BlockAddress(s.base, Blocks(s)) <= resEnd && BlockAddress(s.base, Blocks(s)) <= LastByte(s))
  {
    OverlapTestIsShare(resStart, resEnd, s.base, LastByte(s));
  }
}
