/** Number to text: digits from the low end into a buffer, then reversed in place. */
module Itoa {
  import opened Machine

  const NUL: char := '\0'

  predicate ValidRadix(radix: nat) {
    2 <= radix <= 36
  }

  /** '0' to '9', then 'A' on. */
  function Digit(d: nat): char
    requires d < 36
  {
    if d > 9 then 'A' + (d - 10) as char else d as char + '0'
  }

  function DigitValue(c: char): int {
    if '0' <= c <= '9' then c as int - '0' as int
    else if 'A' <= c <= 'Z' then c as int - 'A' as int + 10
    else -1
  }

  lemma {:induction false} DigitRoundTrip(d: nat)
    requires d < 36
    ensures DigitValue(Digit(d)) == d
    ensures Digit(d) != NUL && Digit(d) != '-' && (Digit(d) == '0' <==> d == 0)
  {
  }

  // ---- the text of a number ----

  /** Unsigned division by the radix. */
  function Quot(n: nat, radix: nat): (q: nat)
    requires ValidRadix(radix)
    ensures n != 0 ==> q < n
  {
    DivisionShrinks(n, radix);
    n / radix
  }

  function Rem(n: nat, radix: nat): (m: nat)
    requires ValidRadix(radix)
    ensures m < radix
  {
    n % radix
  }

  lemma {:induction false} DivisionShrinks(n: nat, radix: nat)
    requires 2 <= radix
    ensures 0 <= n / radix
    ensures n != 0 ==> n / radix < n
  {
    var q, m := n / radix, n % radix;
    assert n == radix * q + m;
    if q >= 1 {
      assert radix * q >= 2 * q;
    }
  }

  lemma {:induction false} DivMod(n: nat, radix: nat)
    requires ValidRadix(radix)
    ensures Quot(n, radix) * radix + Rem(n, radix) == n
  {
  }

  /** Digits of n from the low end, none for 0. */
  function LowFirst(n: nat, radix: nat): (r: string)
    requires ValidRadix(radix)
    decreases n
  {
    if n == 0 then "" else [Digit(Rem(n, radix))] + LowFirst(Quot(n, radix), radix)
  }

  function Reversed(s: string): (r: string)
    ensures |r| == |s|
  {
    if s == "" then "" else Reversed(s[1..]) + [s[0]]
  }

  /** Digits of n from the high end; "0" for 0. */
  function Digits(n: nat, radix: nat): string
    requires ValidRadix(radix)
  {
    if n == 0 then "0" else Reversed(LowFirst(n, radix))
  }

  /** Only radix 10 takes the number as signed. */
  predicate Negative(num: nat, radix: nat) {
    radix == 10 && num > INT_MAX
  }

  function Text(num: nat, radix: nat): string
    requires ValidRadix(radix) && num < TWO32
  {
    if Negative(num, radix) then "-" + Digits(TWO32 - num, radix) else Digits(num, radix)
  }

  // ---- reading the text back ----

  predicate AllDigits(s: string, radix: nat) {
    forall i :: 0 <= i < |s| ==> 0 <= DigitValue(s[i]) < radix
  }

  predicate IsNumeral(s: string, radix: nat) {
    s != "" && AllDigits(s, radix)
  }

  /** Value of a string of digits, high digit first. */
  function Value(s: string, radix: nat): int {
    if s == "" then 0 else Value(s[..|s| - 1], radix) * radix + DigitValue(s[|s| - 1])
  }

  function Parse(s: string, radix: nat): int {
    if s != "" && s[0] == '-' then -Value(s[1..], radix) else Value(s, radix)
  }

  /** A 32-bit pattern read as a signed number. */
  function Signed(num: nat): int {
    if num > INT_MAX then num - TWO32 else num
  }

  lemma {:induction false} ReversedLast(s: string)
    requires s != ""
    ensures Reversed(s)[..|s| - 1] == Reversed(s[1..]) && Reversed(s)[|s| - 1] == s[0]
  {
  }

  lemma {:induction false} ReversedAt(s: string, k: nat)
    requires k < |s|
    ensures Reversed(s)[k] == s[|s| - 1 - k]
  {
    if k < |s| - 1 {
      ReversedAt(s[1..], k);
    }
  }

  lemma {:induction false} LowFirstStep(n: nat, radix: nat)
    requires ValidRadix(radix) && n != 0
    ensures var s := LowFirst(n, radix);
      s != "" && s[0] == Digit(Rem(n, radix)) && s[1..] == LowFirst(Quot(n, radix), radix)
  {
    hide Quot, Rem;
  }

  lemma {:induction false} LowFirstValue(n: nat, radix: nat)
    requires ValidRadix(radix)
    ensures Value(Reversed(LowFirst(n, radix)), radix) == n
    ensures AllDigits(LowFirst(n, radix), radix)
    decreases n
  {
    if n != 0 {
      hide LowFirst, Quot, Rem;
      var s := LowFirst(n, radix);
      LowFirstStep(n, radix);
      LowFirstValue(Quot(n, radix), radix);
      ReversedLast(s);
      DivMod(n, radix);
      DigitRoundTrip(Rem(n, radix));
      assert s == [s[0]] + s[1..];
    }
  }

  lemma {:induction false} LastDigitNonzero(n: nat, radix: nat)
    requires ValidRadix(radix) && n != 0
    ensures var s := LowFirst(n, radix); s != "" && s[|s| - 1] != '0'
    decreases n
  {
    hide Quot, Rem;
    var q, s := Quot(n, radix), LowFirst(n, radix);
    LowFirstStep(n, radix);
    if q == 0 {
      DivMod(n, radix);
      DigitRoundTrip(Rem(n, radix));
    } else {
      hide LowFirst;
      LastDigitNonzero(q, radix);
    }
  }

  /** The digits of n form a numeral of value n without leading zeros. */
  lemma {:induction false} DigitsRoundTrip(n: nat, radix: nat)
    requires ValidRadix(radix)
    ensures IsNumeral(Digits(n, radix), radix) && Value(Digits(n, radix), radix) == n
    ensures Digits(n, radix)[0] == '0' <==> n == 0
  {
    if n == 0 {
      assert "0"[..0] == "";
    } else {
      var s := LowFirst(n, radix);
      LowFirstValue(n, radix);
      LastDigitNonzero(n, radix);
      forall i | 0 <= i < |s| ensures Reversed(s)[i] == s[|s| - 1 - i] {
        ReversedAt(s, i);
      }
    }
  }

  /**
   Reading the text back gives the number: as signed for radix 10, as unsigned otherwise. There is no leading zero,
   and no character that would end the string early.
   */
  lemma {:induction false} TextRoundTrip(num: nat, radix: nat)
    requires ValidRadix(radix) && num < TWO32
    ensures Parse(Text(num, radix), radix) == if radix == 10 then Signed(num) else num
    ensures forall i :: 0 <= i < |Text(num, radix)| ==> Text(num, radix)[i] != NUL
    ensures num != 0 ==> Text(num, radix)[if Negative(num, radix) then 1 else 0] != '0'
  {
    var n := if Negative(num, radix) then TWO32 - num else num;
    var d := Digits(n, radix);
    DigitsRoundTrip(n, radix);
    assert forall i :: 0 <= i < |d| ==> 0 <= DigitValue(d[i]);
    if Negative(num, radix) {
      assert Text(num, radix)[1..] == d;
    }
  }

  // ---- how long the text gets ----

  function Power(b: nat, e: nat): nat {
    if e == 0 then 1 else b * Power(b, e - 1)
  }

  lemma {:induction false} PowerPositive(b: nat, e: nat)
    requires b != 0
    ensures Power(b, e) >= 1
  {
    if e != 0 {
      PowerPositive(b, e - 1);
    }
  }

  /** n takes at most k digits exactly when it is below radix to the k. */
  lemma {:induction false} LengthIff(n: nat, radix: nat, k: nat)
    requires ValidRadix(radix)
    ensures |LowFirst(n, radix)| <= k <==> n < Power(radix, k)
    decreases k
  {
    PowerPositive(radix, k);
    if k != 0 && n != 0 {
      hide Quot, Rem, LowFirst;
      LowFirstStep(n, radix);
      LengthIff(Quot(n, radix), radix, k - 1);
      DivBelow(n, radix, Power(radix, k - 1));
    }
  }

  lemma {:induction false} MulMonotonic(a: nat, x: int, y: int)
    requires x <= y
    ensures a * x <= a * y
  {
  }

  lemma {:induction false} DivBelow(n: nat, radix: nat, p: nat)
    requires ValidRadix(radix)
    ensures Quot(n, radix) < p <==> n < radix * p
  {
    hide Quot, Rem;
    DivMod(n, radix);
    var q := Quot(n, radix);
    if q < p {
      MulMonotonic(radix, q + 1, p);
    } else {
      MulMonotonic(radix, p, q);
    }
  }

  /** The widest texts: 11 characters for radix 8 and for negative decimals, 8 for radix 16. With a NUL, 12 bytes do. */
  lemma {:induction false} TextLength(num: nat)
    requires num < TWO32
    ensures |Text(num, 8)| <= 11 && |Text(num, 10)| <= 11 && |Text(num, 16)| <= 8
  {
    assert Power(8, 11) == 0x2_0000_0000 by { Powers8(); }
    assert Power(10, 10) == 10_000_000_000 by { Powers10(); }
    assert Power(16, 8) == TWO32 by { Powers16(); }
    LengthIff(num, 8, 11);
    LengthIff(num, 16, 8);
    LengthIff(num, 10, 10);
    LengthIff(TWO32 - num, 10, 10);
  }

  lemma {:induction false} Powers8()
    ensures Power(8, 11) == 0x2_0000_0000 && Power(8, 10) == 0x4000_0000
  {
    assert Power(8, 4) == 4096;
    assert Power(8, 8) == 0x100_0000;
  }

  lemma {:induction false} Powers10()
    ensures Power(10, 10) == 10_000_000_000 && Power(10, 9) == 1_000_000_000
  {
    assert Power(10, 4) == 10_000;
    assert Power(10, 8) == 100_000_000;
  }

  lemma {:induction false} Powers16()
    ensures Power(16, 8) == TWO32
  {
    assert Power(16, 4) == 0x1_0000;
  }

  /** The bound of 12 bytes is reached: by the largest number in octal, and by the least in decimal. */
  lemma {:induction false} TextLengthReached()
    ensures |Text(TWO32 - 1, 8)| == 11 && |Text(INT_MAX + 1, 10)| == 11
  {
    TextLength(TWO32 - 1);
    TextLength(INT_MAX + 1);
    Powers8();
    Powers10();
    LengthIff(TWO32 - 1, 8, 10);
    LengthIff(INT_MAX + 1, 10, 9);
  }

  // ---- the conversion ----

  /** Reverses buf[lo..hi] in place, as the conversion's last loop does. */
  method ReverseInPlace(buf: array<char>, lo: nat, hi: nat)
    requires lo <= hi <= buf.Length
    modifies buf
    ensures buf[lo..hi] == Reversed(old(buf[lo..hi]))
    ensures buf[..lo] == old(buf[..lo]) && buf[hi..] == old(buf[hi..])
  {
    var i, j := hi, lo;
    while i > j
      invariant lo <= j <= hi && lo <= i <= hi && i - lo == hi - j && j <= i + 1
      invariant forall k :: 0 <= k < lo || hi <= k < buf.Length ==> buf[k] == old(buf[k])
      invariant forall k :: j <= k < i ==> buf[k] == old(buf[k])
      invariant forall k :: lo <= k < j || i <= k < hi ==> buf[k] == old(buf[hi - 1 - (k - lo)])
    {
      var temp := buf[j];
      i := i - 1;
      buf[j] := buf[i];
      j := j + 1;
      buf[i] := temp;
    }
    IsReversed(old(buf[lo..hi]), buf[lo..hi]);
  }

  lemma {:induction false} IsReversed(was: string, now: string)
    requires |now| == |was| && forall k :: 0 <= k < |was| ==> now[k] == was[|was| - 1 - k]
    ensures now == Reversed(was)
  {
    if was == [] {
      assert now == [];
    } else {
      forall k | 0 <= k < |was| ensures |Reversed(was)| == |was| && now[k] == Reversed(was)[k] {
        ReversedAt(was, k);
      }
    }
  }

  lemma {:induction false} NextDigit(done: string, n: nat, radix: nat, whole: string)
    requires ValidRadix(radix) && n != 0 && done + LowFirst(n, radix) == whole
    ensures done + [Digit(Rem(n, radix))] + LowFirst(Quot(n, radix), radix) == whole
  {
    hide LowFirst, Quot, Rem;
    LowFirstStep(n, radix);
  }

  /** The digit loop: writes the digits of num from the low end, from position `from` on. */
  method DigitsInto(num: nat, buf: array<char>, from: nat, radix: nat) returns (i: nat)
    requires ValidRadix(radix) && from + |LowFirst(num, radix)| <= buf.Length
    modifies buf
    ensures i == from + |LowFirst(num, radix)| && buf[from..i] == LowFirst(num, radix)
    ensures buf[..from] == old(buf[..from]) && buf[i..] == old(buf[i..])
  {
    var n := num;
    i := from;
    while n > 0
      invariant from <= i && i + |LowFirst(n, radix)| == from + |LowFirst(num, radix)|
      invariant buf[from..i] + LowFirst(n, radix) == LowFirst(num, radix)
      invariant buf[..from] == old(buf[..from]) && buf[i..] == old(buf[i..])
      decreases n
    {
      hide LowFirst, Quot, Rem;
      ghost var done := buf[from..i];
      NextDigit(done, n, radix, LowFirst(num, radix));
      LowFirstStep(n, radix);
      var digit := Rem(n, radix);
      buf[i] := if digit > 9 then 'A' + (digit - 10) as char else digit as char + '0';
      n := Quot(n, radix);
      i := i + 1;
      assert buf[from..i] == done + [Digit(digit)];
      assert buf[i..] == old(buf[i - 1..])[1..];
    }
  }

  /** Writes the text of num and a NUL into buf, and nothing behind them. */
  method Convert(num: nat, buf: array<char>, radix: nat)
    requires ValidRadix(radix) && num < TWO32
    requires |Text(num, radix)| < buf.Length
    modifies buf
    ensures var n := |Text(num, radix)|;
      buf[..n] == Text(num, radix) && buf[n] == NUL && buf[n + 1..] == old(buf[n + 1..])
  {
    hide LowFirst, Reversed;
    if num == 0 {
      buf[0] := '0';
      buf[1] := NUL;
      return;
    }
    var n, j := num, 0;
    if radix == 10 && n > INT_MAX {
      n := Wrap(0 - n);
      buf[0] := '-';
      j := 1;
    }
    var i := DigitsInto(n, buf, j, radix);
    buf[i] := NUL;
    ReverseInPlace(buf, j, i);
    assert buf[..i] == buf[..j] + buf[j..i];
  }
}
