/** The packed bitmaps of the physical memory manager: 32 blocks to a word, block b in bit b % 32 of word b / 32. */
module Bitmap {
  import opened Machine

  const WORD := 32
  const ALL_ONES: bv32 := 0xFFFF_FFFF

  /** `1 << k` for a bit position k of a word. */
  function Mask(k: nat): bv32
    requires k < WORD
  {
    1 << k
  }

  predicate Hits(w: bv32, mask: bv32) {
    w & mask != 0
  }

  /** Bit k of word w. */
  predicate TestWord(w: bv32, k: nat)
    requires k < WORD
  {
    Hits(w, Mask(k))
  }

  /** Digit k of w in base 2, the lowest being digit 0. */
  function BinaryDigit(w: bv32, k: nat): bv32 {
    if k == 0 then w % 2 else BinaryDigit(w / 2, k - 1)
  }

  /** Bit b of a whole bitmap. */
  predicate Bit(words: seq<bv32>, b: nat)
    requires b < WORD * |words|
  {
    TestWord(words[b / WORD], b % WORD)
  }

  // ---- one word ----

  lemma {:induction false} MasksDisjoint(j: nat, k: nat)
    requires j < WORD && k < WORD
    ensures Mask(k) != 0
    ensures j != k ==> Mask(j) & Mask(k) == 0
  {
  }

  lemma {:induction false} SetMask(w: bv32, a: bv32, b: bv32)
    requires a != 0 && (b == a || b & a == 0)
    ensures Hits(w | a, b) == (b == a || Hits(w, b))
  {
    assert (w | a) & a == a;
    assert b != a ==> (w | a) & b == w & b;
  }

  lemma {:induction false} ClearMask(w: bv32, a: bv32, b: bv32)
    requires a != 0 && (b == a || b & a == 0)
    ensures Hits(w & !a, b) == (b != a && Hits(w, b))
  {
    assert b != a ==> (w & !a) & b == w & b;
  }

  lemma {:induction false} MasksDiffer(j: nat, k: nat)
    requires j < WORD && k < WORD
    ensures Mask(k) != 0
    ensures if j == k then Mask(j) == Mask(k) else Mask(j) != Mask(k) && Mask(j) & Mask(k) == 0
  {
    MasksDisjoint(j, k);
    AndSelf(Mask(k));
  }

  lemma {:induction false} AndSelf(a: bv32)
    ensures a & a == a
  {
  }

  lemma {:induction false} SetInWord(w: bv32, k: nat, j: nat)
    requires j < WORD && k < WORD
    ensures TestWord(w | Mask(k), j) == (j == k || TestWord(w, j))
  {
    hide Mask, Hits;
    MasksDiffer(j, k);
    SetMask(w, Mask(k), Mask(j));
  }

  lemma {:induction false} ClearInWord(w: bv32, k: nat, j: nat)
    requires j < WORD && k < WORD
    ensures TestWord(w & !Mask(k), j) == (j != k && TestWord(w, j))
  {
    hide Mask, Hits;
    MasksDiffer(j, k);
    ClearMask(w, Mask(k), Mask(j));
  }

  lemma {:induction false} LowHalfSet(w: bv32)
    requires forall k :: 0 <= k < WORD ==> TestWord(w, k)
    ensures w & 0xFFFF == 0xFFFF
  {
    assert TestWord(w, 0) && TestWord(w, 1) && TestWord(w, 2) && TestWord(w, 3);
    assert TestWord(w, 4) && TestWord(w, 5) && TestWord(w, 6) && TestWord(w, 7);
    assert TestWord(w, 8) && TestWord(w, 9) && TestWord(w, 10) && TestWord(w, 11);
    assert TestWord(w, 12) && TestWord(w, 13) && TestWord(w, 14) && TestWord(w, 15);
  }

  lemma {:induction false} ThirdByteSet(w: bv32)
    requires forall k :: 0 <= k < WORD ==> TestWord(w, k)
    ensures w & 0x00FF_0000 == 0x00FF_0000
  {
    assert TestWord(w, 16) && TestWord(w, 17) && TestWord(w, 18) && TestWord(w, 19);
    assert TestWord(w, 20) && TestWord(w, 21) && TestWord(w, 22) && TestWord(w, 23);
  }

  lemma {:induction false} FourthByteSet(w: bv32)
    requires forall k :: 0 <= k < WORD ==> TestWord(w, k)
    ensures w & 0xFF00_0000 == 0xFF00_0000
  {
    assert TestWord(w, 24) && TestWord(w, 25) && TestWord(w, 26) && TestWord(w, 27);
    assert TestWord(w, 28) && TestWord(w, 29) && TestWord(w, 30) && TestWord(w, 31);
  }

  lemma {:induction false} AllSetIsOnes(w: bv32)
    requires forall k :: 0 <= k < WORD ==> TestWord(w, k)
    ensures w == ALL_ONES
  {
    hide TestWord;
    LowHalfSet(w);
    ThirdByteSet(w);
    FourthByteSet(w);
  }

  lemma {:induction false} AndOnes(a: bv32)
    ensures ALL_ONES & a == a
  {
  }

  /** The word scan's test: a word compares equal to 0xFFFFFFFF exactly when no bit of it is clear. */
  lemma {:induction false} OnesIffAllSet(w: bv32)
    ensures w == ALL_ONES <==> forall k :: 0 <= k < WORD ==> TestWord(w, k)
  {
    if w == ALL_ONES {
      forall k | 0 <= k < WORD ensures TestWord(w, k) {
        MasksDisjoint(k, k);
        AndOnes(Mask(k));
      }
    } else if forall k :: 0 <= k < WORD ==> TestWord(w, k) {
      AllSetIsOnes(w);
    }
  }

  lemma {:induction false} ZeroHasNoBits(k: nat)
    requires k < WORD
    ensures !TestWord(0, k)
  {
  }

  lemma {:induction false} LowestDigit(w: bv32)
    ensures w & 1 != 0 <==> w % 2 == 1
  {
  }

  lemma {:induction false} HalfMask(w: bv32, m: bv32)
    requires m & 0x8000_0000 == 0
    ensures w & (m << 1) != 0 <==> (w / 2) & m != 0
  {
  }

  lemma {:induction false} MaskDoubles(k: nat)
    requires 0 < k < WORD
    ensures Mask(k - 1) & 0x8000_0000 == 0 && Mask(k) == Mask(k - 1) << 1
  {
  }

  /** Testing a bit by its mask is reading a digit of the word in base 2. */
  lemma {:induction false} BitIsBinaryDigit(w: bv32, k: nat)
    requires k < WORD
    ensures TestWord(w, k) <==> BinaryDigit(w, k) == 1
    decreases k
  {
    if k == 0 {
      LowestDigit(w);
      assert Mask(0) == 1;
    } else {
      MaskDoubles(k);
      HalfMask(w, Mask(k - 1));
      hide Mask;
      BitIsBinaryDigit(w / 2, k - 1);
    }
  }

  // ---- a whole bitmap ----

  /** Replacing one word changes the 32 bits of that word and no others. */
  lemma {:induction false} WordWrite(words: seq<bv32>, i: nat, w: bv32, b: nat)
    requires i < |words| && b < WORD * |words|
    ensures Bit(words[i := w], b) == if b / WORD == i then TestWord(w, b % WORD) else Bit(words, b)
  {
  }

  /** Giving bit `offset` the value v, in its word, gives it that value in the bitmap and leaves the others alone. */
  lemma {:induction false} OneBitChanges(words: seq<bv32>, offset: nat, w: bv32, v: bool)
    requires offset < WORD * |words|
    requires forall k :: 0 <= k < WORD ==>
      TestWord(w, k) == if k == offset % WORD then v else TestWord(words[offset / WORD], k)
    ensures forall b :: 0 <= b < WORD * |words| ==>
      Bit(words[offset / WORD := w], b) == if b == offset then v else Bit(words, b)
  {
    hide TestWord;
    forall b | 0 <= b < WORD * |words|
      ensures Bit(words[offset / WORD := w], b) == if b == offset then v else Bit(words, b)
    {
      WordWrite(words, offset / WORD, w, b);
    }
  }

  lemma {:induction false} SetOne(words: seq<bv32>, offset: nat, w: bv32)
    requires offset < WORD * |words| && w == words[offset / WORD] | Mask(offset % WORD)
    ensures forall b :: 0 <= b < WORD * |words| ==>
      Bit(words[offset / WORD := w], b) == if b == offset then true else Bit(words, b)
  {
    hide Bit, Mask, TestWord;
    forall k | 0 <= k < WORD
      ensures TestWord(w, k) == if k == offset % WORD then true else TestWord(words[offset / WORD], k)
    {
      SetInWord(words[offset / WORD], offset % WORD, k);
    }
    OneBitChanges(words, offset, w, true);
  }

  lemma {:induction false} ClearOne(words: seq<bv32>, offset: nat, w: bv32)
    requires offset < WORD * |words| && w == words[offset / WORD] & !Mask(offset % WORD)
    ensures forall b :: 0 <= b < WORD * |words| ==>
      Bit(words[offset / WORD := w], b) == if b == offset then false else Bit(words, b)
  {
    hide Bit, Mask, TestWord;
    forall k | 0 <= k < WORD
      ensures TestWord(w, k) == if k == offset % WORD then false else TestWord(words[offset / WORD], k)
    {
      ClearInWord(words[offset / WORD], offset % WORD, k);
    }
    OneBitChanges(words, offset, w, false);
  }

  /** Writing a whole word of ones or of zeros changes the 32 bits of that word and no others. */
  lemma {:induction false} FillWord(words: seq<bv32>, i: nat, after: seq<bv32>)
    requires i < |words| && after == words[i := ALL_ONES]
    ensures forall b :: 0 <= b < WORD * |words| ==>
      Bit(after, b) == (WORD * i <= b < WORD * i + WORD || Bit(words, b))
  {
    OnesIffAllSet(ALL_ONES);
    forall b | 0 <= b < WORD * |words|
      ensures Bit(after, b) == (WORD * i <= b < WORD * i + WORD || Bit(words, b))
    {
      WordWrite(words, i, ALL_ONES, b);
    }
  }

  lemma {:induction false} EmptyWord(words: seq<bv32>, i: nat, after: seq<bv32>)
    requires i < |words| && after == words[i := 0]
    ensures forall b :: 0 <= b < WORD * |words| ==>
      Bit(after, b) == (!(WORD * i <= b < WORD * i + WORD) && Bit(words, b))
  {
    forall b | 0 <= b < WORD * |words|
      ensures Bit(after, b) == (!(WORD * i <= b < WORD * i + WORD) && Bit(words, b))
    {
      WordWrite(words, i, 0, b);
      ZeroHasNoBits(b % WORD);
    }
  }

  /** The word scan skips a word exactly when none of its 32 bits is clear. */
  lemma {:induction false} WordIsFull(words: seq<bv32>, i: nat)
    requires i < |words|
    ensures words[i] == ALL_ONES <==> forall b :: WORD * i <= b < WORD * i + WORD ==> Bit(words, b)
  {
    OnesIffAllSet(words[i]);
    hide TestWord;
    forall k | 0 <= k < WORD ensures TestWord(words[i], k) == Bit(words, WORD * i + k) {
    }
    forall b | WORD * i <= b < WORD * i + WORD ensures Bit(words, b) == TestWord(words[i], b - WORD * i) {
    }
  }

  // ---- the operations ----

  method SetBit(mapStart: array<bv32>, offset: nat)
    requires offset < WORD * mapStart.Length
    modifies mapStart
    ensures forall b :: 0 <= b < WORD * mapStart.Length ==>
      Bit(mapStart[..], b) == (b == offset || old(Bit(mapStart[..], b)))
  {
    hide Bit, Mask;
    var word := mapStart[offset / WORD] | Mask(offset % WORD);
    SetOne(mapStart[..], offset, word);
    mapStart[offset / WORD] := word;
  }

  method UnsetBit(mapStart: array<bv32>, offset: nat)
    requires offset < WORD * mapStart.Length
    modifies mapStart
    ensures forall b :: 0 <= b < WORD * mapStart.Length ==>
      Bit(mapStart[..], b) == (b != offset && old(Bit(mapStart[..], b)))
  {
    hide Bit, Mask;
    var word := mapStart[offset / WORD] & !Mask(offset % WORD);
    ClearOne(mapStart[..], offset, word);
    mapStart[offset / WORD] := word;
  }

  function TestBit(mapStart: array<bv32>, offset: nat): (r: bool)
    requires offset < WORD * mapStart.Length
    reads mapStart
    ensures r == Bit(mapStart[..], offset)
  {
    mapStart[offset / WORD] & Mask(offset % WORD) != 0
  }

  /** No sum in the loops exceeds 32 bits, because both offsets stay 32 below the wrap-around. */
  method SetBits(mapStart: array<bv32>, offsetStart: nat, offsetEnd: nat)
    requires offsetStart <= offsetEnd ==> offsetEnd < WORD * mapStart.Length
    requires offsetStart + WORD < TWO32 && offsetEnd + WORD < TWO32
    modifies mapStart
    ensures forall b :: 0 <= b < WORD * mapStart.Length ==>
      Bit(mapStart[..], b) == (offsetStart <= b <= offsetEnd || old(Bit(mapStart[..], b)))
  {
    var i := offsetStart;
    while i <= offsetEnd && i % WORD != 0
      invariant offsetStart <= i && (i == offsetStart || i <= offsetEnd + 1)
      invariant forall b :: 0 <= b < WORD * mapStart.Length ==>
        Bit(mapStart[..], b) == (offsetStart <= b < i || old(Bit(mapStart[..], b)))
    {
      SetBit(mapStart, i);
      i := i + 1;
    }
    while i + WORD <= offsetEnd
      invariant offsetStart <= i && (i == offsetStart || i <= offsetEnd + 1)
      invariant i <= offsetEnd ==> i % WORD == 0
      invariant forall b :: 0 <= b < WORD * mapStart.Length ==>
        Bit(mapStart[..], b) == (offsetStart <= b < i || old(Bit(mapStart[..], b)))
    {
      ghost var before := mapStart[..];
      mapStart[i / WORD] := ALL_ONES;
      FillWord(before, i / WORD, mapStart[..]);
      i := i + WORD;
    }
    while i <= offsetEnd
      invariant offsetStart <= i && (i == offsetStart || i <= offsetEnd + 1)
      invariant forall b :: 0 <= b < WORD * mapStart.Length ==>
        Bit(mapStart[..], b) == (offsetStart <= b < i || old(Bit(mapStart[..], b)))
    {
      SetBit(mapStart, i);
      i := i + 1;
    }
  }

  method UnsetBits(mapStart: array<bv32>, offsetStart: nat, offsetEnd: nat)
    requires offsetStart <= offsetEnd ==> offsetEnd < WORD * mapStart.Length
    requires offsetStart + WORD < TWO32 && offsetEnd + WORD < TWO32
    modifies mapStart
    ensures forall b :: 0 <= b < WORD * mapStart.Length ==>
      Bit(mapStart[..], b) == (!(offsetStart <= b <= offsetEnd) && old(Bit(mapStart[..], b)))
  {
    var i := offsetStart;
    while i <= offsetEnd && i % WORD != 0
      invariant offsetStart <= i && (i == offsetStart || i <= offsetEnd + 1)
      invariant forall b :: 0 <= b < WORD * mapStart.Length ==>
        Bit(mapStart[..], b) == (!(offsetStart <= b < i) && old(Bit(mapStart[..], b)))
    {
      UnsetBit(mapStart, i);
      i := i + 1;
    }
    while i + WORD <= offsetEnd
      invariant offsetStart <= i && (i == offsetStart || i <= offsetEnd + 1)
      invariant i <= offsetEnd ==> i % WORD == 0
      invariant forall b :: 0 <= b < WORD * mapStart.Length ==>
        Bit(mapStart[..], b) == (!(offsetStart <= b < i) && old(Bit(mapStart[..], b)))
    {
      ghost var before := mapStart[..];
      mapStart[i / WORD] := 0;
      EmptyWord(before, i / WORD, mapStart[..]);
      i := i + WORD;
    }
    while i <= offsetEnd
      invariant offsetStart <= i && (i == offsetStart || i <= offsetEnd + 1)
      invariant forall b :: 0 <= b < WORD * mapStart.Length ==>
        Bit(mapStart[..], b) == (!(offsetStart <= b < i) && old(Bit(mapStart[..], b)))
    {
      UnsetBit(mapStart, i);
      i := i + 1;
    }
  }
}
