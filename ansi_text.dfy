/**
 * ANSI colour codes in the size report (build/compare-size.js): `uncolor`,
 * which deletes every `ESC [ digits m`, and the token view of a text that
 * `wraptext` reads — a colour code, a newline, or one other character.
 */
module AnsiText {
  import opened Strings

  const Esc: char := 27 as char

  /** The number of digits at the front of `s`. */
  function DigitRun(s: string): (n: nat)
    ensures n <= |s|
    ensures forall i :: 0 <= i < n ==> IsDigit(s[i])
    ensures n < |s| ==> !IsDigit(s[n])
    decreases |s|
  {
    if s != [] && IsDigit(s[0]) then 1 + DigitRun(s[1..]) else 0
  }

  /** The length of the colour code `ESC [ digits m` at the front of `s`, or 0 if there is none. */
  function CodeAt(s: string): (n: nat)
    ensures n == 0 || (4 <= n <= |s| && s[0] == Esc && s[1] == '[' && s[n - 1] == 'm')
    ensures n > 0 ==> AllDigits(s[2..n - 1])
  {
    if |s| >= 4 && s[0] == Esc && s[1] == '[' then
      var d := DigitRun(s[2..]);
      if d >= 1 && 2 + d < |s| && s[2 + d] == 'm' then 3 + d else 0
    else 0
  }

  /** `uncolor(str)`: `str.replace(/\x1B\[\d+m/g, "")`, one left-to-right pass. */
  function Uncolor(s: string): (r: string)
    ensures |r| <= |s|
    ensures forall c :: c in r ==> c in s
    decreases |s|
  {
    if s == [] then ""
    else if CodeAt(s) > 0 then Uncolor(s[CodeAt(s)..])
    else [s[0]] + Uncolor(s[1..])
  }

  /** A text without an escape character has nothing to remove. */
  lemma {:induction false} UncolorPlain(s: string)
    requires Esc !in s
    ensures Uncolor(s) == s
    decreases |s|
  {
    if s != [] {
      assert s[0] in s;
      assert Esc !in s[1..] by {
        forall c | c in s[1..] ensures c in s { }
      }
      UncolorPlain(s[1..]);
    }
  }

  /** The removal is one pass: a code that appears only once an inner code is gone stays. */
  lemma UncolorIsOnePass()
    ensures Uncolor([Esc, '[', Esc, '[', '1', 'm', '2', 'm']) == [Esc, '[', '2', 'm']
  {
    var s := [Esc, '[', Esc, '[', '1', 'm', '2', 'm'];
    assert DigitRun(s[2..]) == 0;
    assert CodeAt(s) == 0;
    assert s[1..][0] == '[';
    assert CodeAt(s[1..]) == 0;
    var t := s[2..];
    assert t == [Esc, '[', '1', 'm', '2', 'm'];
    assert t[2..] == ['1', 'm', '2', 'm'];
    assert DigitRun(t[2..][1..]) == 0;
    assert DigitRun(t[2..]) == 1;
    assert CodeAt(t) == 4;
    assert t[4..] == ['2', 'm'];
    assert CodeAt(['2', 'm']) == 0 && CodeAt(['m']) == 0;
    assert Uncolor(['2', 'm']) == ['2', 'm'];
    assert Uncolor(t) == ['2', 'm'];
    assert Uncolor(s[1..]) == ['['] + Uncolor(t);
    assert Uncolor(s) == [Esc] + Uncolor(s[1..]);
  }

  /** One lexical item of the text `wraptext` reads (the regular expression at line 94). */
  datatype Token =
    /** `ESC [ digits m`: a colour code, kept as its digits. */
    | Code(digits: string)
    | Newline
    /** Any other single character. */
    | Char(c: char)

  /** A colour code has at least one digit and nothing but digits. */
  predicate WellFormed(ts: seq<Token>) {
    forall i :: 0 <= i < |ts| && ts[i].Code? ==> |ts[i].digits| >= 1 && AllDigits(ts[i].digits)
  }

  /** The characters a token stands for. */
  function RenderToken(t: Token): string {
    match t
    case Code(d) => [Esc, '['] + d + ['m']
    case Newline => "\n"
    case Char(c) => [c]
  }

  /** The text a token sequence stands for. */
  function Render(ts: seq<Token>): string
    decreases |ts|
  {
    if ts == [] then "" else RenderToken(ts[0]) + Render(ts[1..])
  }

  /** What a token sequence looks like on a terminal: the characters and newlines, no codes. */
  function Visible(ts: seq<Token>): string
    decreases |ts|
  {
    if ts == [] then ""
    else
      match ts[0]
      case Code(_) => Visible(ts[1..])
      case Newline => "\n" + Visible(ts[1..])
      case Char(c) => [c] + Visible(ts[1..])
  }

  lemma DigitRunCode(d: string, rest: string)
    requires AllDigits(d) && rest != [] && !IsDigit(rest[0])
    ensures DigitRun(d + rest) == |d|
    decreases |d|
  {
    if d != [] {
      assert (d + rest)[1..] == d[1..] + rest;
      DigitRunCode(d[1..], rest);
    }
  }

  /** A whole colour code at the front is removed. */
  /** Conversely, every `ESC [ digits m` at the front is found, whole, whatever follows it. */
  lemma CodeAtCode(d: string, rest: string)
    requires |d| >= 1 && AllDigits(d)
    ensures CodeAt([Esc, '['] + d + ['m'] + rest) == 3 + |d|
  {
    var s := [Esc, '['] + d + ['m'] + rest;
    assert s[2..] == d + (['m'] + rest);
    DigitRunCode(d, ['m'] + rest);
  }

  lemma UncolorCode(d: string, rest: string)
    requires |d| >= 1 && AllDigits(d)
    ensures Uncolor([Esc, '['] + d + ['m'] + rest) == Uncolor(rest)
  {
    var s := [Esc, '['] + d + ['m'] + rest;
    CodeAtCode(d, rest);
    assert s[3 + |d|..] == rest;
  }

  /** A character other than the escape character at the front is kept. */
  lemma UncolorChar(c: char, rest: string)
    requires c != Esc
    ensures Uncolor([c] + rest) == [c] + Uncolor(rest)
  {
    var s := [c] + rest;
    assert CodeAt(s) == 0 && s[1..] == rest;
  }

  /** Removing codes from one rendered token followed by more text. */
  lemma UncolorToken(t: Token, rest: string)
    requires t.Code? ==> |t.digits| >= 1 && AllDigits(t.digits)
    requires t != Char(Esc)
    ensures Uncolor(RenderToken(t) + rest) == Visible([t]) + Uncolor(rest)
  {
    VisibleOne(t);
    match t
    case Code(d) =>
      UncolorCode(d, rest);
    case Newline =>
      UncolorChar('\n', rest);
    case Char(c) =>
      UncolorChar(c, rest);
  }

  /** `uncolor` of a rendered text whose characters include no escape gives exactly the visible text. */
  lemma {:induction false} UncolorRender(ts: seq<Token>)
    requires WellFormed(ts)
    requires forall i :: 0 <= i < |ts| ==> ts[i] != Char(Esc)
    ensures Uncolor(Render(ts)) == Visible(ts)
    decreases |ts|
  {
    if ts != [] {
      TailOf(ts);
      UncolorRender(ts[1..]);
      UncolorToken(ts[0], Render(ts[1..]));
      VisibleCons(ts);
    }
  }

  /** The tail of a well-formed token sequence is well formed and has no escape character. */
  lemma TailOf(ts: seq<Token>)
    requires ts != [] && WellFormed(ts)
    requires forall i :: 0 <= i < |ts| ==> ts[i] != Char(Esc)
    ensures WellFormed(ts[1..]) && forall i :: 0 <= i < |ts[1..]| ==> ts[1..][i] != Char(Esc)
    ensures ts[0].Code? ==> |ts[0].digits| >= 1 && AllDigits(ts[0].digits)
  {
    forall i | 0 <= i < |ts[1..]| ensures ts[1..][i] == ts[i + 1] { }
  }

  lemma VisibleCons(ts: seq<Token>)
    requires ts != []
    ensures Visible(ts) == Visible([ts[0]]) + Visible(ts[1..])
  {
    VisibleOne(ts[0]);
    assert Visible(ts) == VisibleToken(ts[0]) + Visible(ts[1..]);
  }

  lemma VisibleOne(t: Token)
    ensures Visible([t]) == VisibleToken(t)
  {
    assert [t][1..] == [];
    assert Visible([t][1..]) == [];
  }

  /** What one token looks like on a terminal. */
  function VisibleToken(t: Token): string {
    match t
    case Code(_) => ""
    case Newline => "\n"
    case Char(c) => [c]
  }
}
