/**
 The format language of `printf` and `logf`: what a format string and its arguments stand for, and what is emitted of
 it when the count of bytes may not exceed a bound.
 */
module Format {
  import opened Machine
  import opened Itoa

  /** An argument, of the kind its conversion takes. Strings are their characters before the NUL. */
  datatype Arg = Chr(c: char) | Str(s: string) | Num(n: nat)

  /** Characters of a C string: no NUL among them. */
  predicate CString(s: string) {
    NUL !in s
  }

  predicate IsConversion(c: char) {
    c == 'c' || c == 's' || c == 'd' || c == 'x' || c == 'o'
  }

  predicate Suits(c: char, a: Arg)
    requires IsConversion(c)
  {
    match c
    case 'c' => a.Chr?
    case 's' => a.Str? && CString(a.s)
    case _ => a.Num? && a.n < TWO32
  }

  function Radix(c: char): nat {
    if c == 'd' then 10 else if c == 'x' then 16 else 8
  }

  /** The text of one conversion. */
  function Converted(c: char, a: Arg): string
    requires IsConversion(c) && Suits(c, a)
  {
    match c
    case 'c' => [a.c]
    case 's' => a.s
    case _ => Text(a.n, Radix(c))
  }

  /** The format starts with two percent signs. */
  predicate Doubled(fmt: string) {
    |fmt| >= 2 && fmt[0] == '%' && fmt[1] == '%'
  }

  /** The format starts with a conversion. */
  predicate Converts(fmt: string) {
    |fmt| >= 2 && fmt[0] == '%' && IsConversion(fmt[1])
  }

  /** There is an argument of the right kind for every conversion reached. */
  predicate ArgsFit(fmt: string, args: seq<Arg>) {
    if fmt == "" then true
    else if fmt[0] != '%' then ArgsFit(fmt[1..], args)
    else if Doubled(fmt) then ArgsFit(fmt[2..], args)
    else if Converts(fmt) then args != [] && Suits(fmt[1], args[0]) && ArgsFit(fmt[2..], args[1..])
    else true
  }

  /**
   The meaning of a format: a character stands for itself, %% for a percent sign, a conversion for the text of its
   argument; a percent sign before anything else is dropped and the rest of the format stands for itself.
   */
  function Meaning(fmt: string, args: seq<Arg>): string
    requires ArgsFit(fmt, args)
  {
    if fmt == "" then ""
    else if fmt[0] != '%' then [fmt[0]] + Meaning(fmt[1..], args)
    else if Doubled(fmt) then "%" + Meaning(fmt[2..], args)
    else if Converts(fmt) then Converted(fmt[1], args[0]) + Meaning(fmt[2..], args[1..])
    else fmt[1..]
  }

  // ---- what each conversion stands for ----

  predicate NoPercent(s: string) {
    forall i :: 0 <= i < |s| ==> s[i] != '%'
  }

  lemma {:induction false} OrdinaryFormat(fmt: string, args: seq<Arg>)
    requires fmt != "" && fmt[0] != '%'
    ensures ArgsFit(fmt, args) <==> ArgsFit(fmt[1..], args)
    ensures ArgsFit(fmt, args) ==> Meaning(fmt, args) == [fmt[0]] + Meaning(fmt[1..], args)
  {
  }

  /** A run of ordinary characters stands for itself. */
  lemma {:induction false} RunFormat(run: string, rest: string, args: seq<Arg>)
    requires NoPercent(run)
    ensures ArgsFit(run + rest, args) <==> ArgsFit(rest, args)
    ensures ArgsFit(rest, args) ==> Meaning(run + rest, args) == run + Meaning(rest, args)
    decreases |run|
  {
    hide Meaning, ArgsFit;
    if run == "" {
      assert run + rest == rest;
    } else {
      OrdinaryFormat(run + rest, args);
      assert (run + rest)[1..] == run[1..] + rest;
      RunFormat(run[1..], rest, args);
      if ArgsFit(rest, args) {
        assert [run[0]] + (run[1..] + Meaning(rest, args)) == run + Meaning(rest, args);
      }
    }
  }

  /** A conversion behind a run takes the first argument; the rest of the format goes on with the others. */
  lemma {:induction false} ConversionBehindRun(run: string, c: char, rest: string, a: Arg, args: seq<Arg>)
    requires NoPercent(run) && IsConversion(c) && Suits(c, a) && ArgsFit(rest, args)
    ensures ArgsFit(run + (['%', c] + rest), [a] + args)
    ensures Meaning(run + (['%', c] + rest), [a] + args) == run + (Converted(c, a) + Meaning(rest, args))
  {
    var fmt := ['%', c] + rest;
    assert fmt[2..] == rest && ([a] + args)[1..] == args && Converts(fmt);
    hide Converted;
    RunFormat(run, fmt, [a] + args);
  }

  /** In place of %x, %o and %d stand the texts of a number in radix 16, 8 and 10. */
  lemma {:induction false} NumbersInText(run: string, rest: string, num: nat, args: seq<Arg>)
    requires NoPercent(run) && num < 0x1_0000_0000 && ArgsFit(rest, args)
    ensures var g := [Num(num)] + args;
      && ArgsFit(run + ("%x" + rest), g) && ArgsFit(run + ("%o" + rest), g) && ArgsFit(run + ("%d" + rest), g)
      && Meaning(run + ("%x" + rest), g) == run + (Text(num, 16) + Meaning(rest, args))
      && Meaning(run + ("%o" + rest), g) == run + (Text(num, 8) + Meaning(rest, args))
      && Meaning(run + ("%d" + rest), g) == run + (Text(num, 10) + Meaning(rest, args))
  {
    assert ['%', 'x'] == "%x" && ['%', 'o'] == "%o" && ['%', 'd'] == "%d";
    hide Meaning, ArgsFit, Text;
    ConversionBehindRun(run, 'x', rest, Num(num), args);
    ConversionBehindRun(run, 'o', rest, Num(num), args);
    ConversionBehindRun(run, 'd', rest, Num(num), args);
  }

  /** Reading back what they print gives the number: hexadecimal, octal, and decimal with a sign. */
  lemma {:induction false} NumbersReadBack(num: nat)
    requires num < 0x1_0000_0000
    ensures ArgsFit("%x", [Num(num)]) && ArgsFit("%o", [Num(num)]) && ArgsFit("%d", [Num(num)])
    ensures Parse(Meaning("%x", [Num(num)]), 16) == num
    ensures Parse(Meaning("%o", [Num(num)]), 8) == num
    ensures Parse(Meaning("%d", [Num(num)]), 10) == if num < 0x8000_0000 then num else num - 0x1_0000_0000
  {
    var g: seq<Arg> := [Num(num)];
    assert g + [] == g && Meaning("", []) == "" && ArgsFit("", []);
    assert "" + ("%x" + "") == "%x" && "" + ("%o" + "") == "%o" && "" + ("%d" + "") == "%d";
    hide Meaning, ArgsFit, Text, Parse;
    NumbersInText("", "", num, []);
    assert forall t: string {:trigger "" + (t + "")} :: "" + (t + "") == t;
    TextRoundTrip(num, 16);
    TextRoundTrip(num, 8);
    TextRoundTrip(num, 10);
  }

  /** %c stands for a character, %s for a text, %% for a percent sign and no argument. */
  lemma {:induction false} TextsInText(run: string, rest: string, c: char, s: string, args: seq<Arg>)
    requires NoPercent(run) && CString(s) && ArgsFit(rest, args)
    ensures ArgsFit(run + ("%c" + rest), [Chr(c)] + args)
    ensures Meaning(run + ("%c" + rest), [Chr(c)] + args) == run + ([c] + Meaning(rest, args))
    ensures ArgsFit(run + ("%s" + rest), [Str(s)] + args)
    ensures Meaning(run + ("%s" + rest), [Str(s)] + args) == run + (s + Meaning(rest, args))
    ensures ArgsFit(run + ("%%" + rest), args)
    ensures Meaning(run + ("%%" + rest), args) == run + ("%" + Meaning(rest, args))
  {
    assert ['%', 'c'] == "%c" && ['%', 's'] == "%s" && ("%%" + rest)[2..] == rest;
    ConversionBehindRun(run, 'c', rest, Chr(c), args);
    ConversionBehindRun(run, 's', rest, Str(s), args);
    RunFormat(run, "%%" + rest, args);
  }

  /** A percent sign before any other character is dropped, and what follows it is text to the end. */
  lemma {:induction false} UnknownInText(run: string, rest: string, args: seq<Arg>)
    requires NoPercent(run)
    requires rest != "" ==> rest[0] !in {'c', 's', 'd', 'x', 'o', '%'}
    ensures ArgsFit(run + ("%" + rest), args) && Meaning(run + ("%" + rest), args) == run + rest
  {
    assert ("%" + rest)[1..] == rest;
    RunFormat(run, "%" + rest, args);
  }

  // ---- the pieces that are emitted ----

  /** Length of the run that starts at the first character, whatever it is, and stops before the next percent sign. */
  function RunLength(s: string): (n: nat)
    requires s != ""
    ensures 1 <= n <= |s|
    ensures forall i :: 1 <= i < n ==> s[i] != '%'
    ensures n < |s| ==> s[n] == '%'
  {
    if |s| == 1 || s[1] == '%' then 1 else 1 + RunLength(s[1..])
  }

  lemma {:induction false} RunLengthUnique(s: string, n: nat)
    requires 1 <= n <= |s|
    requires forall i :: 1 <= i < n ==> s[i] != '%'
    requires n < |s| ==> s[n] == '%'
    ensures RunLength(s) == n
  {
    if |s| > 1 && s[1] != '%' {
      forall i | 1 <= i < n - 1 ensures s[1..][i] != '%' {
        assert s[i + 1] != '%';
      }
      RunLengthUnique(s[1..], n - 1);
    }
  }

  /** The next text to emit, and what is left of the format and the arguments. */
  datatype Piece = Piece(text: string, fmt: string, args: seq<Arg>)

  function Next(fmt: string, args: seq<Arg>): (p: Piece)
    requires fmt != "" && ArgsFit(fmt, args)
    ensures |p.fmt| < |fmt|
  {
    if fmt[0] != '%' then
      var n := RunLength(fmt);
      Piece(fmt[..n], fmt[n..], args)
    else if Doubled(fmt) then
      var n := RunLength(fmt[1..]);
      Piece(fmt[1..1 + n], fmt[1 + n..], args)
    else if Converts(fmt) then
      Piece(Converted(fmt[1], args[0]), fmt[2..], args[1..])
    else
      Piece(fmt[1..], "", args)
  }

  /** A doubled percent sign and the run behind it stand for the second sign and the run. */
  lemma {:induction false} DoubledFormat(run: string, rest: string, args: seq<Arg>)
    requires NoPercent(run) && ArgsFit("%%" + run + rest, args)
    ensures ArgsFit(rest, args)
    ensures Meaning("%%" + run + rest, args) == "%" + run + Meaning(rest, args)
  {
    assert ("%%" + run + rest)[2..] == run + rest;
    RunFormat(run, rest, args);
  }

  /** Taking a piece off splits the meaning at that piece. */
  lemma {:induction false} NextFormat(fmt: string, args: seq<Arg>)
    requires fmt != "" && ArgsFit(fmt, args)
    ensures var p := Next(fmt, args);
      ArgsFit(p.fmt, p.args) && Meaning(fmt, args) == p.text + Meaning(p.fmt, p.args)
  {
    hide Converted, Suits;
    if fmt[0] != '%' {
      hide Meaning, ArgsFit;
      var n := RunLength(fmt);
      assert fmt == fmt[..n] + fmt[n..];
      RunFormat(fmt[..n], fmt[n..], args);
    } else if Doubled(fmt) {
      hide Meaning, ArgsFit;
      var n := RunLength(fmt[1..]);
      var run, rest := fmt[2..1 + n], fmt[1 + n..];
      assert forall i :: 0 <= i < |run| ==> run[i] == fmt[1..][i + 1];
      assert fmt == "%%" + run + rest && fmt[1..1 + n] == "%" + run;
      DoubledFormat(run, rest, args);
    }
  }

  // ---- emission under a bound ----

  datatype Emission = Emission(out: string, ok: bool)

  /** Emits piece after piece while the total stays within `room`, and fails at the first piece that does not fit. */
  function Emit(fmt: string, args: seq<Arg>, room: nat): Emission
    requires ArgsFit(fmt, args)
    decreases |fmt|
  {
    if fmt == "" then Emission("", true)
    else
      NextFormat(fmt, args);
      var p := Next(fmt, args);
      if room < |p.text| then Emission("", false)
      else
        var rest := Emit(p.fmt, p.args, room - |p.text|);
        Emission(p.text + rest.out, rest.ok)
  }

  lemma {:induction false} EmitStep(fmt: string, args: seq<Arg>, room: nat)
    requires fmt != "" && ArgsFit(fmt, args)
    ensures var p := Next(fmt, args);
      && ArgsFit(p.fmt, p.args)
      && if room < |p.text| then Emit(fmt, args, room) == Emission("", false)
         else var behind := Emit(p.fmt, p.args, room - |p.text|);
           Emit(fmt, args, room) == Emission(p.text + behind.out, behind.ok)
  {
    NextFormat(fmt, args);
  }

  /** Success exactly when f fits the bound, and then exactly f; otherwise a proper beginning of it that fits. */
  predicate IsEmissionOf(e: Emission, f: string, room: nat) {
    && (e.ok <==> |f| <= room)
    && (e.ok ==> e.out == f)
    && (!e.ok ==> e.out < f && |e.out| <= room)
  }

  lemma {:induction false} TextInFront(text: string, e: Emission, f: string, room: nat)
    requires |text| <= room && IsEmissionOf(e, f, room - |text|)
    ensures IsEmissionOf(Emission(text + e.out, e.ok), text + f, room)
  {
  }

  lemma {:induction false} NothingFits(f: string, room: nat)
    requires room < |f|
    ensures IsEmissionOf(Emission("", false), f, room)
  {
  }

  /** Emission succeeds exactly when the meaning fits the bound, and then emits exactly the meaning. */
  lemma {:induction false} EmitIsFormat(fmt: string, args: seq<Arg>, room: nat)
    requires ArgsFit(fmt, args)
    ensures IsEmissionOf(Emit(fmt, args, room), Meaning(fmt, args), room)
    decreases |fmt|
  {
    if fmt != "" {
      NextFormat(fmt, args);
      EmitStep(fmt, args, room);
      hide Meaning, ArgsFit, Emit, Next, IsEmissionOf;
      var p := Next(fmt, args);
      if room < |p.text| {
        NothingFits(Meaning(fmt, args), room);
      } else {
        EmitIsFormat(p.fmt, p.args, room - |p.text|);
        TextInFront(p.text, Emit(p.fmt, p.args, room - |p.text|), Meaning(p.fmt, p.args), room);
      }
    }
  }

  /** What `printf` and `logf` return: the number of characters, or -1 when the bound is exceeded. */
  function ReturnValue(e: Emission): int {
    if e.ok then |e.out| else -1
  }

  /** It is the length of the format's meaning exactly when that is at most INT_MAX, and -1 otherwise. */
  lemma {:induction false} ReturnsLengthIff(fmt: string, args: seq<Arg>)
    requires ArgsFit(fmt, args)
    ensures var r, n := ReturnValue(Emit(fmt, args, INT_MAX)), |Meaning(fmt, args)|;
      (r == n <==> n <= 0x7FFF_FFFF) && (r == -1 <==> n > 0x7FFF_FFFF)
  {
    EmitIsFormat(fmt, args, INT_MAX);
  }

  function Pieces(fmt: string, args: seq<Arg>): seq<string>
    requires ArgsFit(fmt, args)
    decreases |fmt|
  {
    if fmt == "" then []
    else
      NextFormat(fmt, args);
      [Next(fmt, args).text] + Pieces(Next(fmt, args).fmt, Next(fmt, args).args)
  }

  function Joined(ss: seq<string>): string {
    if ss == [] then "" else ss[0] + Joined(ss[1..])
  }

  /** A failed emission consists of the pieces before the first one that takes the total over the bound. */
  lemma {:induction false} EmitStopsBeforeOverflow(fmt: string, args: seq<Arg>, room: nat) returns (n: nat)
    requires ArgsFit(fmt, args) && !Emit(fmt, args, room).ok
    ensures n < |Pieces(fmt, args)|
    ensures Emit(fmt, args, room).out == Joined(Pieces(fmt, args)[..n])
    ensures |Emit(fmt, args, room).out| + |Pieces(fmt, args)[n]| > room
    decreases |fmt|
  {
    NextFormat(fmt, args);
    EmitStep(fmt, args, room);
    hide Meaning, ArgsFit, Emit, Next;
    var p, all := Next(fmt, args), Pieces(fmt, args);
    if room < |p.text| {
      n := 0;
    } else {
      n := EmitStopsBeforeOverflow(p.fmt, p.args, room - |p.text|);
      assert all[..n + 1][1..] == Pieces(p.fmt, p.args)[..n];
      n := n + 1;
    }
  }

  // ---- printing any text ----

  /** The text with every percent sign doubled. */
  function Escaped(s: string): string {
    if s == "" then ""
    else if s[0] == '%' then "%%" + Escaped(s[1..])
    else [s[0]] + Escaped(s[1..])
  }

  /** A text with its percent signs doubled is a format that needs no arguments and means the text. */
  lemma {:induction false} EscapedMeansItself(s: string)
    ensures ArgsFit(Escaped(s), []) && Meaning(Escaped(s), []) == s
    ensures CString(s) ==> CString(Escaped(s))
    decreases |s|
  {
    if s != "" {
      EscapedMeansItself(s[1..]);
      var e := Escaped(s);
      if s[0] == '%' {
        assert e[2..] == Escaped(s[1..]);
      } else {
        assert e[1..] == Escaped(s[1..]);
      }
      assert s == [s[0]] + s[1..];
    }
  }

  /** Printing a text with its percent signs doubled emits exactly the text, if its length can be returned. */
  lemma {:induction false} EscapedPrintsItself(s: string)
    ensures ArgsFit(Escaped(s), [])
    ensures |s| <= INT_MAX ==> Emit(Escaped(s), [], INT_MAX) == Emission(s, true)
    ensures |s| > INT_MAX ==> !Emit(Escaped(s), [], INT_MAX).ok
  {
    EscapedMeansItself(s);
    EmitIsFormat(Escaped(s), [], INT_MAX);
  }
}
