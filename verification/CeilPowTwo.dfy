/** The least power of two that is not below a 32-bit number, by smearing bits. */
module CeilPowTwo {
  /** 1, 2, 4, up to 2^31. */
  predicate PowerOfTwo(p: bv32)
    decreases p
  {
    p == 1 || (p != 0 && p & 1 == 0 && PowerOfTwo(p >> 1))
  }

  predicate SingleBit(p: bv32) {
    p != 0 && p & (p - 1) == 0
  }

  lemma {:induction false} HalvingKeepsBits(p: bv32)
    requires p != 0 && p & 1 == 0
    ensures p >> 1 < p && (SingleBit(p >> 1) <==> SingleBit(p))
  {
  }

  lemma {:induction false} OddSingleBit(p: bv32)
    requires p & 1 != 0
    ensures SingleBit(p) <==> p == 1
  {
  }

  /** The powers of two are the numbers with a single bit. */
  lemma {:induction false} PowerIffSingleBit(p: bv32)
    ensures PowerOfTwo(p) <==> SingleBit(p)
    decreases p
  {
    if p != 0 && p & 1 == 0 {
      HalvingKeepsBits(p);
      PowerIffSingleBit(p >> 1);
    } else if p != 0 {
      OddSingleBit(p);
    }
  }

  /** A power of two whose half is below num is below every other power of two that is not. */
  lemma {:induction false} NoPowerBetween(num: bv32, r: bv32, p: bv32)
    requires SingleBit(r) && SingleBit(p) && num <= p && (r == 1 || r >> 1 < num)
    ensures r <= p
  {
  }

  /** Or-ing in shifted copies, each twice as far as the last, sets every bit below the highest one. */
  function Smear(x: bv32): bv32 {
    var x1 := x | (x >> 1);
    var x2 := x1 | (x1 >> 2);
    var x3 := x2 | (x2 >> 4);
    var x4 := x3 | (x3 >> 8);
    x4 | (x4 >> 16)
  }

  /** One above the smeared predecessor of num is a single bit, not below num, with its half below num. */
  lemma {:induction false} SmearRoundsUp(num: bv32)
    ensures num == 0 || num > 0x8000_0000 ==> Smear(num - 1) + 1 == 0
    ensures var r := Smear(num - 1) + 1;
      0 < num <= 0x8000_0000 ==> SingleBit(r) && num <= r && (r == 1 || r >> 1 < num)
  {
  }

  /** r is the least power of two that is not below num. */
  ghost predicate LeastPower(num: bv32, r: bv32) {
    PowerOfTwo(r) && num <= r && forall p: bv32 :: PowerOfTwo(p) && num <= p ==> r <= p
  }

  /** Rounds up to a power of two. There is none to give for 0, nor above 2^31; the result is then 0. */
  method CeilPowTwo(num: bv32) returns (r: bv32)
    ensures num == 0 || num > 0x8000_0000 ==> r == 0
    ensures 0 < num <= 0x8000_0000 ==> LeastPower(num, r)
  {
    r := num;
    r := r - 1;
    r := r | (r >> 1);
    r := r | (r >> 2);
    r := r | (r >> 4);
    r := r | (r >> 8);
    r := r | (r >> 16);
    assert r == Smear(num - 1);
    r := r + 1;
    SmearRoundsUp(num);
    if 0 < num <= 0x8000_0000 {
      SingleBitIsLeast(num, r);
    }
  }

  lemma {:induction false} SingleBitIsLeast(num: bv32, r: bv32)
    requires SingleBit(r) && num <= r && (r == 1 || r >> 1 < num)
    ensures LeastPower(num, r)
  {
    hide SingleBit, PowerOfTwo;
    PowerIffSingleBit(r);
    forall p: bv32 | PowerOfTwo(p) && num <= p ensures r <= p {
      PowerIffSingleBit(p);
      NoPowerBetween(num, r, p);
    }
  }
}
