/** The keyboard interrupt handler: modifier keys as bits of a status byte, other keys as characters on the terminal. */
module Keyboard {
  import opened Itoa
  import opened Format
  import opened Page
  import Machine
  import Printf
  import Tty

  const CTRL: bv8 := 0x01
  const SHIFT: bv8 := 0x02
  const CAPS_LOCK: bv8 := 0x04
  const NUM_LOCK: bv8 := 0x08
  const SCROLL_LOCK: bv8 := 0x10
  const ALT: bv8 := 0x20

  predicate Has(status: bv8, mask: bv8) {
    status & mask != 0
  }

  // ---- the key tables, NUL where a key has no character ----

  /** Characters of the keys without shift. */
  function Unshifted(scancode: nat): char {
    if 2 <= scancode < 14 then "1234567890-="[scancode - 2]
    else if scancode == 14 then BACKSPACE
    else if scancode == 15 then '\t'
    else if 16 <= scancode < 28 then "qwertyuiop[]"[scancode - 16]
    else if scancode == 28 then '\n'
    else if 30 <= scancode < 42 then "asdfghjkl;'`"[scancode - 30]
    else if 43 <= scancode < 54 then "\\zxcvbnm,./"[scancode - 43]
    else if scancode == 55 then '*'
    else if scancode == 57 then ' '
    else if scancode == 74 then '-'
    else if scancode == 78 then '+'
    else NUL
  }

  /** Characters of the keys with shift; two of them give a percent sign and none gives an ampersand. */
  function Shifted(scancode: nat): char {
    if 2 <= scancode < 14 then "!@#$%%^*()_+"[scancode - 2]
    else if scancode == 14 then BACKSPACE
    else if scancode == 15 then '\t'
    else if 16 <= scancode < 28 then "QWERTYUIOP{}"[scancode - 16]
    else if scancode == 28 then '\n'
    else if 30 <= scancode < 42 then "ASDFGHJKL:\"~"[scancode - 30]
    else if 43 <= scancode < 54 then "|ZXCVBNM<>?"[scancode - 43]
    else if scancode == 55 then '*'
    else if scancode == 57 then ' '
    else if scancode == 74 then '-'
    else if scancode == 78 then '+'
    else NUL
  }

  // ---- one scancode ----

  predicate IsLetter(c: char) {
    'A' <= c <= 'Z' || 'a' <= c <= 'z'
  }

  function Table(status: bv8, scancode: nat): char {
    if Has(status, SHIFT) then Shifted(scancode) else Unshifted(scancode)
  }

  /** A press of a key that has a character. */
  predicate Types(status: bv8, scancode: nat) {
    scancode < 0x80 && Table(status, scancode) != NUL
  }

  /** The characters a scancode prints. */
  function Printed(status: bv8, scancode: nat): string {
    if !Types(status, scancode) then ""
    else if Has(status, CAPS_LOCK) && IsLetter(Table(status, scancode)) then
      [if Has(status, SHIFT) then Unshifted(scancode) else Shifted(scancode)]
    else [Table(status, scancode)]
  }

  function WithSet(status: bv8, mask: bv8): bv8 {
    status | mask
  }

  function WithClear(status: bv8, mask: bv8): bv8 {
    status & !mask
  }

  function WithToggled(status: bv8, mask: bv8): bv8 {
    status ^ mask
  }

  /** What a scancode does to the status byte. */
  function StatusAfter(status: bv8, scancode: nat): bv8 {
    if Types(status, scancode) then status
    else match scancode
      case 0x1D => WithSet(status, CTRL)
      case 0x9D => WithClear(status, CTRL)
      case 0x2A => WithSet(status, SHIFT)
      case 0xAA => WithClear(status, SHIFT)
      case 0x36 => WithSet(status, SHIFT)
      case 0xB6 => WithClear(status, SHIFT)
      case 0x38 => WithSet(status, ALT)
      case 0xB8 => WithClear(status, ALT)
      case 0x3A => WithToggled(status, CAPS_LOCK)
      case 0x45 => WithToggled(status, NUM_LOCK)
      case 0x46 => WithToggled(status, SCROLL_LOCK)
      case _ => status
  }

  /** Printing a character by the format %c emits that character. */
  lemma {:induction false} PrintsOne(c: char)
    ensures CString("%c") && ArgsFit("%c", [Chr(c)])
    ensures Emit("%c", [Chr(c)], Machine.INT_MAX) == Emission([c], true)
  {
    assert "%c"[2..] == "" && [Chr(c)][1..] == [];
    assert Meaning("%c", [Chr(c)]) == [c];
    EmitIsFormat("%c", [Chr(c)], Machine.INT_MAX);
  }

  method PrintOne(t: Tty.Terminal, c: char)
    requires t.Valid() && AllLand(t.page, [c])
    modifies t, t.buffer
    ensures t.Valid() && t.page == Feed(old(t.page), [c])
  {
    hide Emit, ArgsFit, CString, AllLand, Feed, Tty.Terminal.Valid;
    PrintsOne(c);
    var r := Printf.Printf(t, "%c", [Chr(c)]);
  }

  class Keyboard {
    var status: bv8
    var lastScancode: nat

    constructor ()
      ensures status == 0 && lastScancode == 0
    {
      status, lastScancode := 0, 0;
    }

    /** The switch on keys without a character. */
    method Modify(scancode: nat)
      requires !Types(status, scancode)
      modifies `status
      ensures status == StatusAfter(old(status), scancode)
    {
      hide Types, WithSet, WithClear, WithToggled;
      match scancode {
        case 0x1D => status := WithSet(status, CTRL);
        case 0x9D => status := WithClear(status, CTRL);
        case 0x2A => status := WithSet(status, SHIFT);
        case 0xAA => status := WithClear(status, SHIFT);
        case 0x36 => status := WithSet(status, SHIFT);
        case 0xB6 => status := WithClear(status, SHIFT);
        case 0x38 => status := WithSet(status, ALT);
        case 0xB8 => status := WithClear(status, ALT);
        case 0x3A => status := WithToggled(status, CAPS_LOCK);
        case 0x45 => status := WithToggled(status, NUM_LOCK);
        case 0x46 => status := WithToggled(status, SCROLL_LOCK);
        case _ =>
      }
    }

    /** One interrupt. The table lookup is total; for codes from 0x80 on its result is not used. */
    method Handle(scancode: nat, t: Tty.Terminal)
      requires scancode < 0x100
      requires t.Valid() && AllLand(t.page, Printed(status, scancode))
      modifies this, t, t.buffer
      ensures status == StatusAfter(old(status), scancode) && lastScancode == scancode
      ensures t.Valid() && t.page == Feed(old(t.page), Printed(old(status), scancode))
    {
      hide Unshifted, Shifted, AllLand, Feed, Tty.Terminal.Valid;
      var temp := if status & SHIFT == 0 then Unshifted(scancode) else Shifted(scancode);
      if scancode < 0x80 && temp != NUL {
        var c := temp;
        if status & CAPS_LOCK != 0 && (65 <= temp as int <= 90 || 97 <= temp as int <= 122) {
          if status & SHIFT == 0 {
            c := Shifted(scancode);
          } else {
            c := Unshifted(scancode);
          }
        }
        assert Printed(status, scancode) == [c];
        PrintOne(t, c);
      } else {
        Printf.FeedNothing(t.page);
        Modify(scancode);
      }
      lastScancode := scancode;
    }
  }

  // ---- runs, from the status 0 ----

  function Status(codes: seq<nat>): bv8 {
    if codes == [] then 0 else StatusAfter(Status(codes[..|codes| - 1]), codes[|codes| - 1])
  }

  /** All that is printed over a run. */
  function Output(codes: seq<nat>): string {
    if codes == [] then ""
    else Output(codes[..|codes| - 1]) + Printed(Status(codes[..|codes| - 1]), codes[|codes| - 1])
  }

  // ---- what a run means, without the status byte ----

  function Count(codes: seq<nat>, code: nat): nat {
    if codes == [] then 0
    else Count(codes[..|codes| - 1], code) + if codes[|codes| - 1] == code then 1 else 0
  }

  predicate Odd(codes: seq<nat>, code: nat) {
    Count(codes, code) % 2 == 1
  }

  /** The latest of the given codes is a press. */
  predicate Down(codes: seq<nat>, presses: set<nat>, releases: set<nat>) {
    codes != [] &&
    var last := codes[|codes| - 1];
    last in presses || (last !in releases && Down(codes[..|codes| - 1], presses, releases))
  }

  predicate ShiftDown(codes: seq<nat>) {
    Down(codes, {0x2A, 0x36}, {0xAA, 0xB6})
  }

  predicate CtrlDown(codes: seq<nat>) {
    Down(codes, {0x1D}, {0x9D})
  }

  predicate AltDown(codes: seq<nat>) {
    Down(codes, {0x38}, {0xB8})
  }

  predicate IsFlag(m: bv8) {
    m == CTRL || m == SHIFT || m == CAPS_LOCK || m == NUM_LOCK || m == SCROLL_LOCK || m == ALT
  }

  /** t has the flags of s, except perhaps flag m. */
  predicate SameButFor(s: bv8, t: bv8, m: bv8) {
    && (m == CTRL || Has(t, CTRL) == Has(s, CTRL))
    && (m == SHIFT || Has(t, SHIFT) == Has(s, SHIFT))
    && (m == CAPS_LOCK || Has(t, CAPS_LOCK) == Has(s, CAPS_LOCK))
    && (m == NUM_LOCK || Has(t, NUM_LOCK) == Has(s, NUM_LOCK))
    && (m == SCROLL_LOCK || Has(t, SCROLL_LOCK) == Has(s, SCROLL_LOCK))
    && (m == ALT || Has(t, ALT) == Has(s, ALT))
  }

  lemma {:induction false} SetFlag(s: bv8, m: bv8)
    requires IsFlag(m)
    ensures Has(WithSet(s, m), m) && SameButFor(s, WithSet(s, m), m)
  {
  }

  lemma {:induction false} ClearFlag(s: bv8, m: bv8)
    requires IsFlag(m)
    ensures !Has(WithClear(s, m), m) && SameButFor(s, WithClear(s, m), m)
  {
  }

  lemma {:induction false} ToggleFlag(s: bv8, m: bv8)
    requires IsFlag(m)
    ensures Has(WithToggled(s, m), m) != Has(s, m) && SameButFor(s, WithToggled(s, m), m)
  {
  }

  /** Modifier keys have no character, with shift or without. */
  lemma {:induction false} ModifiersTypeNothing(status: bv8, scancode: nat)
    requires scancode in {0x1D, 0x2A, 0x36, 0x38, 0x3A, 0x45, 0x46} || 0x80 <= scancode
    ensures !Types(status, scancode)
  {
  }

  /**
   Over every run: each lock bit is the parity of its key's presses, and each modifier bit tells whether the latest
   code of its keys was a press.
   */
  lemma {:induction false} StatusOfRun(codes: seq<nat>)
    ensures FlagsOf(Status(codes), codes)
    decreases |codes|
  {
    if codes != [] {
      hide FlagsOf;
      var before, last := codes[..|codes| - 1], codes[|codes| - 1];
      StatusOfRun(before);
      FlagsStep(Status(before), before, last);
      assert codes == before + [last];
    }
  }

  ghost predicate FlagsOf(s: bv8, codes: seq<nat>) {
    && Has(s, CAPS_LOCK) == Odd(codes, 0x3A)
    && Has(s, NUM_LOCK) == Odd(codes, 0x45)
    && Has(s, SCROLL_LOCK) == Odd(codes, 0x46)
    && Has(s, SHIFT) == ShiftDown(codes)
    && Has(s, CTRL) == CtrlDown(codes)
    && Has(s, ALT) == AltDown(codes)
  }

  lemma {:induction false} OneMore(codes: seq<nat>, last: nat)
    ensures forall code :: Odd(codes + [last], code) == ((last == code) != Odd(codes, code))
    ensures forall presses, releases ::
      Down(codes + [last], presses, releases) ==
      (last in presses || (last !in releases && Down(codes, presses, releases)))
  {
    assert (codes + [last])[..|codes|] == codes;
  }

  /** What one code does to each flag. */
  lemma {:induction false} FlagsAfter(s: bv8, last: nat)
    ensures var t := StatusAfter(s, last);
      && Has(t, CAPS_LOCK) == ((last == 0x3A) != Has(s, CAPS_LOCK))
      && Has(t, NUM_LOCK) == ((last == 0x45) != Has(s, NUM_LOCK))
      && Has(t, SCROLL_LOCK) == ((last == 0x46) != Has(s, SCROLL_LOCK))
      && Has(t, SHIFT) == (last == 0x2A || last == 0x36 || (last != 0xAA && last != 0xB6 && Has(s, SHIFT)))
      && Has(t, CTRL) == (last == 0x1D || (last != 0x9D && Has(s, CTRL)))
      && Has(t, ALT) == (last == 0x38 || (last != 0xB8 && Has(s, ALT)))
  {
    hide Has, Types, WithSet, WithClear, WithToggled;
    if last in {0x1D, 0x2A, 0x36, 0x38, 0x3A, 0x45, 0x46} || 0x80 <= last {
      ModifiersTypeNothing(s, last);
      match last {
        case 0x1D => SetFlag(s, CTRL);
        case 0x9D => ClearFlag(s, CTRL);
        case 0x2A => SetFlag(s, SHIFT);
        case 0xAA => ClearFlag(s, SHIFT);
        case 0x36 => SetFlag(s, SHIFT);
        case 0xB6 => ClearFlag(s, SHIFT);
        case 0x38 => SetFlag(s, ALT);
        case 0xB8 => ClearFlag(s, ALT);
        case 0x3A => ToggleFlag(s, CAPS_LOCK);
        case 0x45 => ToggleFlag(s, NUM_LOCK);
        case 0x46 => ToggleFlag(s, SCROLL_LOCK);
        case _ =>
      }
    } else {
      assert StatusAfter(s, last) == s;
    }
  }

  lemma {:induction false} FlagsStep(s: bv8, codes: seq<nat>, last: nat)
    requires FlagsOf(s, codes)
    ensures FlagsOf(StatusAfter(s, last), codes + [last])
  {
    hide Has, Odd, Down, Types, StatusAfter;
    OneMore(codes, last);
    FlagsAfter(s, last);
  }

  // ---- letters ----

  /** The letter of a key, in lower case, or NUL. */
  function LetterOf(scancode: nat): char {
    if 16 <= scancode < 26 then "qwertyuiop"[scancode - 16]
    else if 30 <= scancode < 39 then "asdfghjkl"[scancode - 30]
    else if 44 <= scancode < 51 then "zxcvbnm"[scancode - 44]
    else NUL
  }

  function Upper(c: char): char
    requires 'a' <= c <= 'z'
  {
    c - 'a' + 'A'
  }

  /** Both tables have the key's letter, in the two cases, or neither has a letter. */
  predicate TablesAgree(scancode: nat) {
    && (var c := LetterOf(scancode);
        if c != NUL then 'a' <= c <= 'z' && Unshifted(scancode) == c && Shifted(scancode) == Upper(c)
        else !IsLetter(Unshifted(scancode)) && !IsLetter(Shifted(scancode)))
    && (Unshifted(scancode) == NUL <==> Shifted(scancode) == NUL)
    && (Unshifted(scancode) != NUL ==> scancode < 0x80)
  }

  lemma {:induction false} DigitRow(scancode: nat)
    requires scancode < 16
    ensures TablesAgree(scancode)
  {
  }

  lemma {:induction false} TopRow(scancode: nat)
    requires 16 <= scancode < 30
    ensures TablesAgree(scancode)
  {
  }

  lemma {:induction false} HomeRow(scancode: nat)
    requires 30 <= scancode < 43
    ensures TablesAgree(scancode)
  {
  }

  lemma {:induction false} BottomRow(scancode: nat)
    requires 43 <= scancode < 54
    ensures TablesAgree(scancode)
  {
  }

  lemma {:induction false} OtherKeys(scancode: nat)
    requires 54 <= scancode
    ensures TablesAgree(scancode)
  {
  }

  /** The tables give a letter in both cases for letter keys, and letters for no other key. */
  lemma {:induction false} LetterKeys(scancode: nat)
    ensures TablesAgree(scancode)
  {
    hide TablesAgree;
    if scancode < 16 {
      DigitRow(scancode);
    } else if scancode < 30 {
      TopRow(scancode);
    } else if scancode < 43 {
      HomeRow(scancode);
    } else if scancode < 54 {
      BottomRow(scancode);
    } else {
      OtherKeys(scancode);
    }
  }

  /**
   What a scancode prints after a run: a letter key a letter, in upper case exactly when shift and caps lock differ;
   any other key its character by shift alone, whatever caps lock is.
   */
  lemma {:induction false} PrintedAfterRun(codes: seq<nat>, scancode: nat)
    ensures var out, c := Printed(Status(codes), scancode), LetterOf(scancode);
      && (c != NUL ==>
            'a' <= c <= 'z' && out == [if ShiftDown(codes) != Odd(codes, 0x3A) then Upper(c) else c])
      && (c == NUL ==>
            var key := if ShiftDown(codes) then Shifted(scancode) else Unshifted(scancode);
            out == if key == NUL then "" else [key])
  {
    StatusOfRun(codes);
    LetterKeys(scancode);
  }

  // ---- the other keys, key by key ----

  /** The keys that print something: all but Escape, the modifiers, the locks and the keys without a character. */
  predicate HasCharacter(scancode: nat) {
    2 <= scancode <= 28 || 30 <= scancode <= 41 || 43 <= scancode <= 53 || scancode in {55, 57, 74, 78}
  }

  /** What a run of codes and then this one prints, by whether shift is down. */
  ghost predicate Prints(codes: seq<nat>, scancode: nat, plain: char, shifted: char) {
    Printed(Status(codes), scancode) == [if ShiftDown(codes) then shifted else plain]
  }

  lemma {:induction false} PrintsFromTables(codes: seq<nat>, scancode: nat)
    requires LetterOf(scancode) == NUL && Unshifted(scancode) != NUL
    ensures Prints(codes, scancode, Unshifted(scancode), Shifted(scancode))
  {
    hide Printed, Status, Unshifted, Shifted, ShiftDown, Odd;
    PrintedAfterRun(codes, scancode);
    LetterKeys(scancode);
  }

  /** The digit keys print 1 to 9 and 0, and with shift their symbols; two of them give a percent sign. */
  lemma {:induction false} DigitKeys(codes: seq<nat>, scancode: nat)
    requires 2 <= scancode <= 11
    ensures Prints(codes, scancode, '0' + ((scancode - 1) % 10) as char,
      match scancode
      case 2 => '!' case 3 => '@' case 4 => '#' case 5 => '$' case 6 => '%'
      case 7 => '%' case 8 => '^' case 9 => '*' case 10 => '(' case _ => ')')
  {
    PrintsFromTables(codes, scancode);
  }

  /** Backspace, tab, enter, space and the arithmetic keys print the same with shift and without. */
  lemma {:induction false} SameWithShift(codes: seq<nat>)
    ensures Prints(codes, 14, 8 as char, 8 as char)
    ensures Prints(codes, 15, 9 as char, 9 as char)
    ensures Prints(codes, 28, 10 as char, 10 as char)
    ensures Prints(codes, 57, 32 as char, 32 as char)
    ensures Prints(codes, 55, '*', '*') && Prints(codes, 74, '-', '-') && Prints(codes, 78, '+', '+')
  {
    hide Prints;
    PrintsFromTables(codes, 14);
    PrintsFromTables(codes, 15);
    PrintsFromTables(codes, 28);
    PrintsFromTables(codes, 57);
    PrintsFromTables(codes, 55);
    PrintsFromTables(codes, 74);
    PrintsFromTables(codes, 78);
  }

  /** The bracket keys and the backslash key give with shift the character 32 above. */
  lemma {:induction false} BracketKeys(codes: seq<nat>)
    ensures Prints(codes, 26, '[', '[' + 32 as char)
    ensures Prints(codes, 27, ']', ']' + 32 as char)
    ensures Prints(codes, 43, '\\', '\\' + 32 as char)
  {
    hide Prints;
    PrintsFromTables(codes, 26);
    PrintsFromTables(codes, 27);
    PrintsFromTables(codes, 43);
  }

  lemma {:induction false} PunctuationKeys(codes: seq<nat>)
    ensures Prints(codes, 12, '-', '_') && Prints(codes, 13, '=', '+')
    ensures Prints(codes, 39, ';', ':') && Prints(codes, 40, '\'', '"') && Prints(codes, 41, '`', '~')
    ensures Prints(codes, 51, ',', '<') && Prints(codes, 52, '.', '>') && Prints(codes, 53, '/', '?')
  {
    hide Prints;
    PrintsFromTables(codes, 12);
    PrintsFromTables(codes, 13);
    PrintsFromTables(codes, 39);
    PrintsFromTables(codes, 40);
    PrintsFromTables(codes, 41);
    PrintsFromTables(codes, 51);
    PrintsFromTables(codes, 52);
    PrintsFromTables(codes, 53);
  }

  /** After any run, a code prints something exactly when it is the press of one of these keys. */
  lemma {:induction false} PrintsSomethingIff(codes: seq<nat>, scancode: nat)
    ensures Printed(Status(codes), scancode) != "" <==> HasCharacter(scancode)
  {
    hide Printed, Status, ShiftDown, Odd;
    PrintedAfterRun(codes, scancode);
    LetterKeys(scancode);
    CharactersIff(scancode);
    hide Unshifted, Shifted;
  }

  lemma {:induction false} CharactersIff(scancode: nat)
    ensures Unshifted(scancode) != NUL <==> HasCharacter(scancode)
    ensures LetterOf(scancode) != NUL ==> HasCharacter(scancode)
  {
  }

  lemma {:induction false} NoAmpersandKey(scancode: nat)
    ensures Unshifted(scancode) != '&' && Shifted(scancode) != '&'
  {
  }

  /** No key sequence prints an ampersand. */
  lemma {:induction false} NeverAmpersand(codes: seq<nat>)
    ensures '&' !in Output(codes)
    decreases |codes|
  {
    if codes != [] {
      hide Unshifted, Shifted;
      NeverAmpersand(codes[..|codes| - 1]);
      NoAmpersandKey(codes[|codes| - 1]);
    }
  }
}
