/**
 The memory map handed over by the boot loader (Multiboot Specification 0.6.96, section 3.3): entries of
 varying size, each led by a 32-bit size that does not count itself.
 */
module MemoryMap {
  import opened Machine

  datatype Entry = Entry(size: nat, baseLow: nat, baseHigh: nat, lengthLow: nat, lengthHigh: nat, kind: nat)

  /** A run of usable memory, as the allocator sees it. */
  datatype Section = Section(base: nat, length: nat)

  const SIZE_FIELD := 4
  const ENTRY_BYTES := 24
  const AVAILABLE := 1

  // ---- reading ----

  function Read32(mem: seq<Byte>, off: nat): nat
    requires off + 4 <= |mem|
  {
    var b0: int, b1: int, b2: int, b3: int := mem[off], mem[off + 1], mem[off + 2], mem[off + 3];
    b0 + 0x100 * b1 + 0x1_0000 * b2 + 0x100_0000 * b3
  }

  function ReadEntry(mem: seq<Byte>, off: nat): Entry
    requires off + ENTRY_BYTES <= |mem|
  {
    Entry(Read32(mem, off), Read32(mem, off + 4), Read32(mem, off + 8),
          Read32(mem, off + 12), Read32(mem, off + 16), Read32(mem, off + 20))
  }

  /** Offset of the entry after the one at `off`. */
  function NextOffset(mem: seq<Byte>, off: nat): (next: nat)
    requires off + ENTRY_BYTES <= |mem|
    ensures off + SIZE_FIELD <= next
  {
    off + ReadEntry(mem, off).size + SIZE_FIELD
  }

  /** From `off` on, every entry reached lies inside the map, and no pointer `base + offset` wraps. */
  ghost predicate Walkable(mem: seq<Byte>, base: nat, off: nat)
    decreases |mem| - off
  {
    base + |mem| < TWO32 &&
    (off < |mem| ==>
       off + ENTRY_BYTES <= |mem| &&
       base + NextOffset(mem, off) < TWO32 &&
       Walkable(mem, base, NextOffset(mem, off)))
  }

  /** The entries found from `off` to the end of the map. */
  ghost function EntriesFrom(mem: seq<Byte>, base: nat, off: nat): seq<Entry>
    requires Walkable(mem, base, off)
    decreases |mem| - off
  {
    if off < |mem| then
      [ReadEntry(mem, off)] + EntriesFrom(mem, base, NextOffset(mem, off))
    else
      []
  }

  // ---- which entries become zones ----

  predicate Skipped(e: Entry) {
    (e.baseLow == 0 && e.baseHigh != 0) || e.kind != AVAILABLE
  }

  /** One section per entry that is not skipped, in map order. */
  function Sections(es: seq<Entry>): seq<Section> {
    if es == [] then []
    else if Skipped(es[0]) then Sections(es[1..])
    else [Section(es[0].baseLow, es[0].lengthLow)] + Sections(es[1..])
  }

  lemma {:induction false} SectionsOfConcat(es: seq<Entry>, fs: seq<Entry>)
    ensures Sections(es + fs) == Sections(es) + Sections(fs)
    decreases |es|
  {
    if es == [] {
      assert es + fs == fs;
    } else {
      assert (es + fs)[1..] == es[1..] + fs;
      SectionsOfConcat(es[1..], fs);
    }
  }

  /**
   The sections are the low words of the entries of type 1, one for each, in the order of the map, without those whose
   base is a multiple of 4 GB but not 0.
   */
  lemma {:induction false} SectionsInOrder(es: seq<Entry>, e: Entry, fs: seq<Entry>)
    ensures Sections(es + [e] + fs) ==
      Sections(es) +
      (if e.kind == 1 && (e.baseLow != 0 || e.baseHigh == 0) then [Section(e.baseLow, e.lengthLow)] else []) +
      Sections(fs)
  {
    assert [e][1..] == [] && Sections([]) == [];
    SectionsOfConcat(es, [e]);
    SectionsOfConcat(es + [e], fs);
  }

  /** There is a section of some base and length exactly when such an entry has these low words. */
  lemma {:induction false} SectionIffEntry(es: seq<Entry>, s: Section)
    ensures s in Sections(es) <==>
      exists e :: e in es && e.kind == 1 && (e.baseLow != 0 || e.baseHigh == 0) &&
        e.baseLow == s.base && e.lengthLow == s.length
    decreases |es|
  {
    if es != [] {
      SectionIffEntry(es[1..], s);
      assert es == [es[0]] + es[1..];
    }
  }

  // ---- which part of an entry becomes a section ----

  /** `a` is an address of the memory that the entry describes, by its 64-bit base and length. */
  predicate InEntry(e: Entry, a: nat) {
    TWO32 * e.baseHigh + e.baseLow <= a < TWO32 * e.baseHigh + e.baseLow + TWO32 * e.lengthHigh + e.lengthLow
  }

  predicate InSection(s: Section, a: nat) {
    s.base <= a < s.base + s.length
  }

  /**
   The section of an entry lies in the memory that the entry describes exactly when the entry's base is below 2^32;
   else it has no address in common with it. It is all of that memory exactly when the length is below 2^32 too.
   */
  lemma {:induction false} SectionLiesInEntryIff(e: Entry)
    requires 0 < e.lengthLow && e.baseLow + e.lengthLow <= TWO32
    ensures var s := Section(e.baseLow, e.lengthLow);
      && ((forall a: nat :: InSection(s, a) ==> InEntry(e, a)) <==> e.baseHigh == 0)
      && ((exists a: nat :: InSection(s, a) && InEntry(e, a)) <==> e.baseHigh == 0)
      && ((forall a: nat :: InSection(s, a) <==> InEntry(e, a)) <==> e.baseHigh == 0 && e.lengthHigh == 0)
  {
    var s := Section(e.baseLow, e.lengthLow);
    assert InSection(s, e.baseLow);
    if e.baseHigh == 0 {
      assert InEntry(e, e.baseLow);
      if e.lengthHigh != 0 {
        assert InEntry(e, e.baseLow + e.lengthLow) && !InSection(s, e.baseLow + e.lengthLow);
      }
    } else {
      assert !InEntry(e, e.baseLow);
    }
  }

  /** A page at 4 GB + 1 MB is not skipped, and becomes a zone at 1 MB. */
  lemma {:induction false} HighMemoryBecomesLow()
    ensures var e := Entry(20, 0x10_0000, 1, 0x1000, 0, AVAILABLE);
      Sections([e]) == [Section(0x10_0000, 0x1000)] && !InEntry(e, 0x10_0000)
  {
    assert Sections([]) == [];
  }

  // ---- where the fields are ----

  /** The number whose base-256 digits are the bytes, the lowest first. */
  function LittleEndian(bytes: seq<Byte>): nat {
    if bytes == [] then 0
    else
      var b: int := bytes[0];
      b + 256 * LittleEndian(bytes[1..])
  }

  lemma {:induction false} WordIsLittleEndian(mem: seq<Byte>, off: nat)
    requires off + 4 <= |mem|
    ensures Read32(mem, off) == LittleEndian(mem[off..off + 4])
  {
    var w := mem[off..off + 4];
    assert w[1..][1..] == w[2..] && w[2..][1..] == w[3..] && w[3..][1..] == [];
    assert LittleEndian(w[3..]) == w[3];
    assert LittleEndian(w[2..]) == w[2] + 256 * LittleEndian(w[3..]);
    assert LittleEndian(w[1..]) == w[1] + 256 * LittleEndian(w[2..]);
  }

  /** Size, base, length and type of an entry, the base and the length as 64-bit numbers, are where the boot loader puts them. */
  lemma {:induction false} EntryIsWhereLoaderPutsIt(mem: seq<Byte>, off: nat)
    requires off + 24 <= |mem|
    ensures var e := ReadEntry(mem, off);
      && e.size == LittleEndian(mem[off..off + 4])
      && e.baseLow == LittleEndian(mem[off + 4..off + 8]) && e.baseHigh == LittleEndian(mem[off + 8..off + 12])
      && e.lengthLow == LittleEndian(mem[off + 12..off + 16]) && e.lengthHigh == LittleEndian(mem[off + 16..off + 20])
      && e.kind == LittleEndian(mem[off + 20..off + 24])
  {
    hide Read32, LittleEndian;
    WordIsLittleEndian(mem, off);
    WordIsLittleEndian(mem, off + 4);
    WordIsLittleEndian(mem, off + 8);
    WordIsLittleEndian(mem, off + 12);
    WordIsLittleEndian(mem, off + 16);
    WordIsLittleEndian(mem, off + 20);
  }

  // ---- writing, for the round trip ----

  function Write32(x: nat): (bytes: seq<Byte>)
    requires x < TWO32
    ensures |bytes| == 4
  {
    [x % 0x100, x / 0x100 % 0x100, x / 0x1_0000 % 0x100, x / 0x100_0000]
  }

  /** A well-formed entry: every field is 32 bits, and its size covers the five fields that follow it. */
  predicate ValidEntry(e: Entry) {
    && 20 <= e.size < TWO32
    && e.baseLow < TWO32 && e.baseHigh < TWO32 && e.lengthLow < TWO32 && e.lengthHigh < TWO32 && e.kind < TWO32
  }

  function Fields(e: Entry): (bytes: seq<Byte>)
    requires ValidEntry(e)
    ensures |bytes| == ENTRY_BYTES
  {
    Write32(e.size) + Write32(e.baseLow) + Write32(e.baseHigh) +
    Write32(e.lengthLow) + Write32(e.lengthHigh) + Write32(e.kind)
  }

  /** An entry and the bytes that pad it to the size it states. */
  datatype Padded = Padded(entry: Entry, padding: seq<Byte>)
  {
    predicate Valid() {
      ValidEntry(entry) && |padding| == entry.size - 20
    }
  }

  /** The entry as a boot loader lays it out. */
  function WriteEntry(p: Padded): (bytes: seq<Byte>)
    requires p.Valid()
    ensures |bytes| == p.entry.size + SIZE_FIELD
  {
    Fields(p.entry) + p.padding
  }

  function WriteMap(ps: seq<Padded>): seq<Byte>
    requires forall p :: p in ps ==> p.Valid()
  {
    if ps == [] then [] else WriteEntry(ps[0]) + WriteMap(ps[1..])
  }

  function EntriesOf(ps: seq<Padded>): seq<Entry> {
    if ps == [] then [] else [ps[0].entry] + EntriesOf(ps[1..])
  }

  lemma {:induction false} ReadBackWord(before: seq<Byte>, x: nat, after: seq<Byte>)
    requires x < TWO32
    ensures Read32(before + Write32(x) + after, |before|) == x
  {
    var w, mem := Write32(x), before + Write32(x) + after;
    assert mem[|before|] == w[0] && mem[|before| + 1] == w[1];
    assert mem[|before| + 2] == w[2] && mem[|before| + 3] == w[3];
    FourBytes(x);
  }

  lemma {:induction false} FourBytes(x: nat)
    requires x < TWO32
    ensures x == x % 0x100 + 0x100 * (x / 0x100 % 0x100) +
                 0x1_0000 * (x / 0x1_0000 % 0x100) + 0x100_0000 * (x / 0x100_0000)
  {
  }

  lemma {:induction false} ReadBackFields(e: Entry)
    requires ValidEntry(e)
    ensures ReadEntry(Fields(e), 0) == e
  {
    var a, b, c := Write32(e.size), Write32(e.baseLow), Write32(e.baseHigh);
    var d, f, g := Write32(e.lengthLow), Write32(e.lengthHigh), Write32(e.kind);
    assert Fields(e) == [] + a + (b + c + d + f + g);
    ReadBackWord([], e.size, b + c + d + f + g);
    assert Fields(e) == a + b + (c + d + f + g);
    ReadBackWord(a, e.baseLow, c + d + f + g);
    assert Fields(e) == (a + b) + c + (d + f + g);
    ReadBackWord(a + b, e.baseHigh, d + f + g);
    assert Fields(e) == (a + b + c) + d + (f + g);
    ReadBackWord(a + b + c, e.lengthLow, f + g);
    ReadBackWord(a + b + c + d, e.lengthHigh, g);
    assert Fields(e) == (a + b + c + d + f) + g + [];
    ReadBackWord(a + b + c + d + f, e.kind, []);
  }

  /** An entry is read from its own 24 bytes only. */
  lemma {:induction false} ReadIsLocal(before: seq<Byte>, fields: seq<Byte>, after: seq<Byte>)
    requires |fields| == ENTRY_BYTES
    ensures ReadEntry(before + fields + after, |before|) == ReadEntry(fields, 0)
  {
  }

  lemma {:induction false} ReadBackEntry(before: seq<Byte>, p: Padded, after: seq<Byte>)
    requires p.Valid()
    ensures ReadEntry(before + WriteEntry(p) + after, |before|) == p.entry
  {
    var rest := p.padding + after;
    assert before + WriteEntry(p) + after == before + Fields(p.entry) + rest;
    ReadIsLocal(before, Fields(p.entry), rest);
    ReadBackFields(p.entry);
  }

  lemma {:induction false} ReadBackFrom(before: seq<Byte>, ps: seq<Padded>, base: nat)
    requires forall p :: p in ps ==> p.Valid()
    requires base + |before + WriteMap(ps)| < TWO32
    ensures Walkable(before + WriteMap(ps), base, |before|)
    ensures EntriesFrom(before + WriteMap(ps), base, |before|) == EntriesOf(ps)
    decreases ps
  {
    if ps != [] {
      var mem, next := before + WriteMap(ps), before + WriteEntry(ps[0]);
      assert mem == next + WriteMap(ps[1..]);
      hide ReadEntry, WriteEntry;
      ReadBackEntry(before, ps[0], WriteMap(ps[1..]));
      ReadBackFrom(next, ps[1..], base);
      assert NextOffset(mem, |before|) == |next|;
    }
  }

  /** The walk recovers exactly the entries of a map laid out in memory, whatever padding each entry carries. */
  lemma {:induction false} WalkRoundTrip(ps: seq<Padded>, base: nat)
    requires forall p :: p in ps ==> p.Valid()
    requires base + |WriteMap(ps)| < TWO32
    ensures Walkable(WriteMap(ps), base, 0)
    ensures EntriesFrom(WriteMap(ps), base, 0) == EntriesOf(ps)
  {
    assert [] + WriteMap(ps) == WriteMap(ps);
    ReadBackFrom([], ps, base);
  }
}
