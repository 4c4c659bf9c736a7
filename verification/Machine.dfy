/** Constants of the i386 target: `unsigned long`, `size_t` and pointers are all 32 bits wide. */
module Machine {
  /** One more than the largest unsigned 32-bit value. */
  const TWO32 := 0x1_0000_0000

  type Byte = x: int | 0 <= x < 256

  /** The largest signed 32-bit value. */
  const INT_MAX := 0x7FFF_FFFF

  /** Reduction of an unsigned result to 32 bits. */
  function Wrap(x: int): (r: nat)
    ensures r < TWO32
    ensures 0 <= x < TWO32 ==> r == x
  {
    x % TWO32
  }

  lemma {:induction false} WrapOf(q: int, r: nat)
    requires r < TWO32
    ensures Wrap(TWO32 * q + r) == r
  {
  }

  /** Half of a doubled 32-bit number has lost its top bit. */
  lemma {:induction false} HalfOfDouble(x: nat)
    ensures Wrap(2 * Wrap(x)) / 2 == x % 0x8000_0000
  {
    var r := x % 0x8000_0000;
    assert Wrap(x) == r || Wrap(x) == r + 0x8000_0000;
    WrapOf(0, 2 * r);
    WrapOf(1, 2 * r);
  }

  /** Reduction to 32 bits keeps the lower 31. */
  lemma {:induction false} LowerBitsOfWrap(x: nat)
    ensures Wrap(x) % 0x8000_0000 == x % 0x8000_0000
  {
  }

  lemma {:induction false} WrapOfSum(x: int, y: int)
    ensures Wrap(Wrap(x) + y) == Wrap(x + y)
  {
    assert x + y == Wrap(x) + y + TWO32 * (x / TWO32);
  }
}
