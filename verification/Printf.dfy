/** `printf` to the terminal and `logf` to the serial port: the loops that interpret a format. */
module Printf {
  import opened Machine
  import opened Itoa
  import opened Format
  import opened Page
  import Tty

  const EOF := -1

  /** The serial port, as the sequence of bytes sent. */
  class Serial {
    var sent: string

    constructor ()
      ensures sent == ""
    {
      sent := "";
    }

    method Send(c: char)
      modifies this
      ensures sent == old(sent) + [c]
    {
      sent := sent + [c];
    }
  }

  // ---- reading the format ----

  /** The character at position p of a NUL-terminated string. */
  function CharAt(s: string, p: nat): char
    requires p <= |s|
  {
    if p < |s| then s[p] else NUL
  }

  /** The position of the NUL that ends the text in a buffer. */
  method StrLen(buf: array<char>) returns (n: nat)
    requires NUL in buf[..]
    ensures n < buf.Length && buf[n] == NUL && NUL !in buf[..n]
    ensures forall k :: 0 <= k < buf.Length && buf[k] == NUL && (forall i :: 0 <= i < k ==> buf[i] != NUL) ==> k == n
  {
    n := 0;
    while buf[n] != NUL
      invariant n < buf.Length && NUL in buf[n..] && NUL !in buf[..n]
      decreases buf.Length - n
    {
      n := n + 1;
    }
  }

  /** A number's text, by way of the 12-byte buffer on the stack. */
  method NumberText(num: nat, radix: nat) returns (text: string)
    requires num < TWO32 && (radix == 8 || radix == 10 || radix == 16)
    ensures text == Text(num, radix)
  {
    hide Text;
    var str := new char[12];
    TextLength(num);
    TextRoundTrip(num, radix);
    Convert(num, str, radix);
    ghost var t := Text(num, radix);
    assert str[|t|] == NUL && forall i :: 0 <= i < |t| ==> str[i] == t[i];
    var len := StrLen(str);
    text := str[..len];
  }

  /** Length of the run at position p, which stops before the next percent sign or the end. */
  method RunFrom(fmt: string, p: nat) returns (subLength: nat)
    requires CString(fmt) && p < |fmt|
    ensures p + subLength <= |fmt| && subLength == RunLength(fmt[p..])
  {
    subLength := 1;
    while CharAt(fmt, p + subLength) != NUL && CharAt(fmt, p + subLength) != '%'
      invariant 1 <= subLength && p + subLength <= |fmt|
      invariant forall i :: 1 <= i < subLength ==> fmt[p..][i] != '%'
      decreases |fmt| - subLength
    {
      subLength := subLength + 1;
    }
    RunLengthUnique(fmt[p..], subLength);
  }

  /** A conversion finds its argument first in line. */
  lemma {:induction false} FirstArgument(fmt: string, args: seq<Arg>)
    requires ArgsFit(fmt, args)
    ensures Converts(fmt) ==> args != [] && Suits(fmt[1], args[0])
  {
  }

  lemma {:induction false} SliceOfSlice(s: string, p: nat, i: nat, j: nat)
    requires i <= j && p + j <= |s|
    ensures s[p..][i..j] == s[p + i..p + j] && s[p..][j..] == s[p + j..] && s[p..][i..] == s[p + i..]
  {
  }

  /** The branches behind a percent sign at position p that is not doubled. */
  method TakeConversion(fmt: string, args: seq<Arg>, p: nat, a: nat) returns (text: string, p': nat, a': nat)
    requires CString(fmt) && p < |fmt| && a <= |args| && ArgsFit(fmt[p..], args[a..])
    requires fmt[p] == '%' && CharAt(fmt, p + 1) != '%'
    ensures p < p' <= |fmt| && a <= a' <= |args|
    ensures Next(fmt[p..], args[a..]) == Piece(text, fmt[p'..], args[a'..])
  {
    hide Text, RunLength, ArgsFit;
    ghost var f, g := fmt[p..], args[a..];
    FirstArgument(f, g);
    p', a' := p + 1, a;
    var c := CharAt(fmt, p');
    assert |f| >= 2 ==> f[1] == c && f[2..] == fmt[p + 2..];
    assert f[1..] == fmt[p + 1..];
    assert g != [] ==> g[0] == args[a] && g[1..] == args[a + 1..];
    if c == 'c' {
      text := [args[a'].c];
      p', a' := p' + 1, a' + 1;
    } else if c == 's' {
      text := args[a'].s;
      p', a' := p' + 1, a' + 1;
    } else if c == 'd' {
      text := NumberText(args[a'].n, 10);
      p', a' := p' + 1, a' + 1;
    } else if c == 'x' {
      text := NumberText(args[a'].n, 16);
      p', a' := p' + 1, a' + 1;
    } else if c == 'o' {
      text := NumberText(args[a'].n, 8);
      p', a' := p' + 1, a' + 1;
    } else {
      text := fmt[p'..];
      p' := |fmt|;
    }
  }

  /** One turn of the loop: the text to print, and where format and arguments continue. */
  method TakePiece(fmt: string, args: seq<Arg>, p: nat, a: nat) returns (text: string, p': nat, a': nat)
    requires CString(fmt) && p < |fmt| && a <= |args| && ArgsFit(fmt[p..], args[a..])
    ensures p < p' <= |fmt| && a <= a' <= |args|
    ensures Next(fmt[p..], args[a..]) == Piece(text, fmt[p'..], args[a'..])
  {
    hide Converted, RunLength, ArgsFit;
    p', a' := p, a;
    if fmt[p'] != '%' || CharAt(fmt, p' + 1) == '%' {
      if fmt[p'] == '%' {
        p' := p' + 1;
      }
      var subLength := RunFrom(fmt, p');
      SliceOfSlice(fmt, p, p' - p, p' - p + subLength);
      text := fmt[p'..p' + subLength];
      p' := p' + subLength;
    } else {
      text, p', a' := TakeConversion(fmt, args, p, a);
    }
  }

  // ---- printf ----

  /** Writes one character to the terminal and returns it, as an unsigned value. */
  method Putchar(t: Tty.Terminal, c: char) returns (r: int)
    requires t.Valid() && Lands(t.page, c)
    modifies t, t.buffer
    ensures t.Valid() && t.page == Step(old(t.page), c) && r == c as int
  {
    t.PutChar(c);
    return c as int;
  }

  /** Prints a text; it would report false if `Putchar` ever returned EOF. */
  method Print(t: Tty.Terminal, data: string) returns (ok: bool)
    requires t.Valid() && AllLand(t.page, data)
    modifies t, t.buffer
    ensures ok && t.Valid() && t.page == Feed(old(t.page), data)
  {
    assert data[..0] == [] && data[0..] == data;
    for i := 0 to |data|
      invariant t.Valid() && t.page == Feed(old(t.page), data[..i]) && AllLand(t.page, data[i..])
    {
      FeedOne(old(t.page), data[..i], data[i]);
      assert data[..i] + [data[i]] == data[..i + 1] && data[i..][0] == data[i] && data[i..][1..] == data[i + 1..];
      var r := Putchar(t, data[i]);
      if r == EOF {
        assert false;
      }
    }
    assert data[..|data|] == data;
    return true;
  }

  /**
   Prints a format to the terminal. Returns the number of characters, or -1 when there are more than INT_MAX; either
   way the terminal has taken exactly what `Emit` allows.
   */
  method Printf(t: Tty.Terminal, fmt: string, args: seq<Arg>) returns (r: int)
    requires CString(fmt) && ArgsFit(fmt, args)
    requires t.Valid() && AllLand(t.page, Emit(fmt, args, INT_MAX).out)
    modifies t, t.buffer
    ensures t.Valid()
    ensures var e := Emit(fmt, args, INT_MAX);
      t.page == Feed(old(t.page), e.out) && r == ReturnValue(e)
  {
    hide Emit, ArgsFit, Next, Pending, Feed, AllLand, Tty.Terminal.Valid;
    ghost var done := "";
    var bytesWritten, p, a := 0, 0, 0;
    PendingStart(fmt, args);
    FeedNothing(t.page);
    while p < |fmt|
      invariant Pending(fmt, args, done, p, a) && bytesWritten == |done| && p <= |fmt|
      invariant t.Valid() && t.page == Feed(old(t.page), done)
      decreases |fmt| - p
    {
      var maxRemaining := INT_MAX - bytesWritten;
      PendingBounds(fmt, args, done, p, a);
      var text, p', a' := TakePiece(fmt, args, p, a);
      PendingStep(fmt, args, done, p, a, text, p', a');
      p, a := p', a';
      if maxRemaining < |text| {
        return -1;
      }
      LandsNext(old(t.page), done, text, Emit(fmt, args, INT_MAX).out);
      var ok := Print(t, text);
      done := done + text;
      bytesWritten := bytesWritten + |text|;
    }
    PendingEnd(fmt, args, done, p, a);
    return bytesWritten;
  }

  // ---- the loop's progress ----

  /** `done` has been emitted, and what is left from positions p and a on completes the emission. */
  ghost predicate Pending(fmt: string, args: seq<Arg>, done: string, p: nat, a: nat)
    requires ArgsFit(fmt, args)
  {
    && p <= |fmt| && a <= |args| && |done| <= INT_MAX && ArgsFit(fmt[p..], args[a..])
    && var whole, rest := Emit(fmt, args, INT_MAX), Emit(fmt[p..], args[a..], INT_MAX - |done|);
      whole == Emission(done + rest.out, rest.ok)
  }

  lemma {:induction false} PendingStart(fmt: string, args: seq<Arg>)
    requires ArgsFit(fmt, args)
    ensures Pending(fmt, args, "", 0, 0)
  {
    assert fmt[0..] == fmt && args[0..] == args;
    assert "" + Emit(fmt, args, INT_MAX).out == Emit(fmt, args, INT_MAX).out;
  }

  lemma {:induction false} PendingBounds(fmt: string, args: seq<Arg>, done: string, p: nat, a: nat)
    requires ArgsFit(fmt, args) && Pending(fmt, args, done, p, a)
    ensures p <= |fmt| && a <= |args| && |done| <= INT_MAX && ArgsFit(fmt[p..], args[a..])
  {
  }

  lemma {:induction false} PendingStep(
      fmt: string, args: seq<Arg>, done: string, p: nat, a: nat, text: string, p': nat, a': nat)
    requires ArgsFit(fmt, args) && Pending(fmt, args, done, p, a) && p < p' <= |fmt| && a <= a' <= |args|
    requires Next(fmt[p..], args[a..]) == Piece(text, fmt[p'..], args[a'..])
    ensures if |done| + |text| > INT_MAX then Emit(fmt, args, INT_MAX) == Emission(done, false)
            else Pending(fmt, args, done + text, p', a') && done + text <= Emit(fmt, args, INT_MAX).out
  {
    hide Emit, Next, ArgsFit;
    var whole := Emit(fmt, args, INT_MAX);
    EmitStep(fmt[p..], args[a..], INT_MAX - |done|);
    if |done| + |text| > INT_MAX {
      assert whole.out == done + "" == done;
    } else {
      var behind := Emit(fmt[p'..], args[a'..], INT_MAX - |done| - |text|);
      assert done + (text + behind.out) == done + text + behind.out;
    }
  }

  lemma {:induction false} PendingEnd(fmt: string, args: seq<Arg>, done: string, p: nat, a: nat)
    requires ArgsFit(fmt, args) && Pending(fmt, args, done, p, a) && p == |fmt|
    ensures Emit(fmt, args, INT_MAX) == Emission(done, true)
  {
    assert fmt[p..] == "" && done + "" == done;
  }

  lemma {:induction false} FeedNothing(pg: Page)
    ensures Feed(pg, "") == pg
  {
  }

  /** The next part of a text that lands lands, after what comes before it. */
  lemma {:induction false} LandsNext(pg: Page, done: string, text: string, whole: string)
    requires AllLand(pg, whole) && done + text <= whole
    ensures AllLand(Feed(pg, done), text) && Feed(pg, done + text) == Feed(Feed(pg, done), text)
  {
    assert whole == done + text + whole[|done + text|..];
    AllLandAppend(pg, done + text, whole[|done + text|..]);
    AllLandAppend(pg, done, text);
    FeedAppend(pg, done, text);
  }

  // ---- logf ----

  method Log(s: Serial, data: string)
    modifies s
    ensures s.sent == old(s.sent) + data
  {
    for i := 0 to |data|
      invariant s.sent == old(s.sent) + data[..i]
    {
      s.Send(data[i]);
    }
  }

  /** The same for the serial port. */
  method Logf(s: Serial, fmt: string, args: seq<Arg>) returns (r: int)
    requires CString(fmt) && ArgsFit(fmt, args)
    modifies s
    ensures var e := Emit(fmt, args, INT_MAX);
      s.sent == old(s.sent) + e.out && r == ReturnValue(e)
  {
    hide Emit, ArgsFit, Next, Pending;
    ghost var done := "";
    var bytesWritten, p, a := 0, 0, 0;
    PendingStart(fmt, args);
    assert s.sent == old(s.sent) + done;
    while p < |fmt|
      invariant Pending(fmt, args, done, p, a) && bytesWritten == |done| && p <= |fmt|
      invariant s.sent == old(s.sent) + done
      decreases |fmt| - p
    {
      var maxRemaining := INT_MAX - bytesWritten;
      PendingBounds(fmt, args, done, p, a);
      var text, p', a' := TakePiece(fmt, args, p, a);
      PendingStep(fmt, args, done, p, a, text, p', a');
      p, a := p', a';
      if maxRemaining < |text| {
        return -1;
      }
      Log(s, text);
      assert old(s.sent) + done + text == old(s.sent) + (done + text);
      done := done + text;
      bytesWritten := bytesWritten + |text|;
    }
    PendingEnd(fmt, args, done, p, a);
    return bytesWritten;
  }
}
