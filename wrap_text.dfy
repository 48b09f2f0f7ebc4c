/**
 * `wraptext(width, text)` (build/compare-size.js): an ANSI-aware word wrap.
 * The text is read token by token; colour codes take no width; a line that
 * grows past `width` at a non-space character is cut back to its last space
 * (dropping that space) or, with no space, just before that character; a new
 * line that starts after a colour code was seen begins by repeating it.
 */
module WrapText {
  import opened Wrappers
  import opened AnsiText

  // ----- The width of a line ---------------------------------------------------

  /** `s` without its trailing spaces. */
  function TrimEnd(s: seq<char>): (r: seq<char>)
    ensures |r| <= |s| && r == s[..|r|]
    decreases |s|
  {
    if s != [] && s[|s| - 1] == ' ' then TrimEnd(s[..|s| - 1]) else s
  }

  /** Trimming a text that is extended never makes it shorter. */
  lemma {:induction false} TrimEndGrows(s: seq<char>, t: seq<char>)
    ensures |TrimEnd(s)| <= |TrimEnd(s + t)|
    decreases |t|
  {
    if t != [] {
      var t' := t[..|t| - 1];
      assert s + t == (s + t') + [t[|t| - 1]];
      TrimEndGrows(s, t');
      if t[|t| - 1] != ' ' {
        assert TrimEnd(s + t) == s + t;
      }
    } else {
      assert s + t == s;
    }
  }

  /** The visible characters of a line, trailing spaces trimmed, take at most `width` columns. */
  predicate Fits(line: seq<Token>, width: int) {
    |TrimEnd(Visible(line))| <= width
  }

  lemma {:induction false} VisibleAppend(a: seq<Token>, b: seq<Token>)
    ensures Visible(a + b) == Visible(a) + Visible(b)
    decreases |a|
  {
    if a == [] {
      assert a + b == b;
    } else {
      assert (a + b)[0] == a[0] && (a + b)[1..] == a[1..] + b;
      VisibleAppend(a[1..], b);
    }
  }

  lemma FitsPrefix(p: seq<Token>, q: seq<Token>, width: int)
    requires Fits(p + q, width)
    ensures Fits(p, width)
  {
    VisibleAppend(p, q);
    TrimEndGrows(Visible(p), Visible(q));
  }

  /** What the report shows of a line that fits: `uncolor`, then trimmed, is no wider than `width`. */
  lemma FitsOnScreen(line: seq<Token>, width: int)
    requires WellFormed(line) && Fits(line, width)
    requires forall i :: 0 <= i < |line| ==> line[i] != Char(Esc)
    ensures |TrimEnd(Uncolor(Render(line)))| <= width
  {
    UncolorRender(line);
  }

  // ----- Lines, joined -----------------------------------------------------------

  /** The lines with a newline between neighbours (`result.join("\n")` before rendering). */
  function Flat(lines: seq<seq<Token>>): seq<Token>
    decreases |lines|
  {
    if lines == [] then []
    else if |lines| == 1 then lines[0]
    else Flat(lines[..|lines| - 1]) + [Newline] + lines[|lines| - 1]
  }

  lemma FlatSnoc(lines: seq<seq<Token>>, x: seq<Token>)
    ensures lines == [] ==> Flat(lines + [x]) == x
    ensures lines != [] ==> Flat(lines + [x]) == Flat(lines) + [Newline] + x
  {
    assert (lines + [x])[..|lines|] == lines;
  }

  lemma FlatExtend(lines: seq<seq<Token>>, x: seq<Token>, t: seq<Token>)
    ensures Flat(lines + [x + t]) == Flat(lines + [x]) + t
  {
    FlatSnoc(lines, x + t);
    FlatSnoc(lines, x);
  }

  // ----- Content preservation ----------------------------------------------------

  /**
   * `o` is `i` with line breaks added: every character of `i` appears in `o`
   * in order, except that some spaces became newlines, and newlines may stand
   * in `o` where `i` has none. Every newline of `i` is kept.
   */
  predicate Breaks(o: seq<char>, i: seq<char>)
    decreases |o| + |i|
  {
    if o == [] then i == []
    else
      || (i != [] && (o[0] == i[0] || (o[0] == '\n' && i[0] == ' ')) && Breaks(o[1..], i[1..]))
      || (o[0] == '\n' && Breaks(o[1..], i))
  }

  lemma {:induction false} BreaksRefl(s: seq<char>)
    ensures Breaks(s, s)
    decreases |s|
  {
    if s != [] { BreaksRefl(s[1..]); }
  }

  /** Turning a space into a newline keeps the relation. */
  lemma {:induction false} BreaksReplace(a: seq<char>, b: seq<char>, i: seq<char>)
    requires Breaks(a + [' '] + b, i)
    ensures Breaks(a + ['\n'] + b, i)
    decreases |a|
  {
    var o, o' := a + [' '] + b, a + ['\n'] + b;
    if a == [] {
      assert o[1..] == b && o'[1..] == b;
    } else {
      assert o[0] == a[0] && o'[0] == a[0];
      assert o[1..] == a[1..] + [' '] + b && o'[1..] == a[1..] + ['\n'] + b;
      if i != [] && (o[0] == i[0] || (o[0] == '\n' && i[0] == ' ')) && Breaks(o[1..], i[1..]) {
        BreaksReplace(a[1..], b, i[1..]);
      } else {
        BreaksReplace(a[1..], b, i);
      }
    }
  }

  /** Inserting a newline keeps the relation. */
  lemma {:induction false} BreaksInsert(a: seq<char>, b: seq<char>, i: seq<char>)
    requires Breaks(a + b, i)
    ensures Breaks(a + ['\n'] + b, i)
    decreases |a|
  {
    var o, o' := a + b, a + ['\n'] + b;
    if a == [] {
      assert o == b && o'[1..] == b;
    } else {
      assert o[0] == a[0] && o'[0] == a[0];
      assert o[1..] == a[1..] + b && o'[1..] == a[1..] + ['\n'] + b;
      if i != [] && (o[0] == i[0] || (o[0] == '\n' && i[0] == ' ')) && Breaks(o[1..], i[1..]) {
        BreaksInsert(a[1..], b, i[1..]);
      } else {
        BreaksInsert(a[1..], b, i);
      }
    }
  }

  /** The characters other than spaces and newlines, in order. */
  function Ink(s: seq<char>): seq<char>
    decreases |s|
  {
    if s == [] then [] else (if s[0] == ' ' || s[0] == '\n' then [] else [s[0]]) + Ink(s[1..])
  }

  /** Breaking lines never loses or reorders a character that is neither a space nor a newline. */
  lemma {:induction false} BreaksKeepsInk(o: seq<char>, i: seq<char>)
    requires Breaks(o, i)
    ensures Ink(o) == Ink(i)
    decreases |o| + |i|
  {
    if o != [] {
      if i != [] && (o[0] == i[0] || (o[0] == '\n' && i[0] == ' ')) && Breaks(o[1..], i[1..]) {
        BreaksKeepsInk(o[1..], i[1..]);
      } else {
        BreaksKeepsInk(o[1..], i);
      }
    }
  }

  /** The number of newlines in a text. */
  function Newlines(s: seq<char>): nat
    decreases |s|
  {
    if s == [] then 0 else (if s[0] == '\n' then 1 else 0) + Newlines(s[1..])
  }

  /** Breaking lines keeps every newline of the input: there are at least as many in the output. */
  lemma {:induction false} BreaksKeepsNewlines(o: seq<char>, i: seq<char>)
    requires Breaks(o, i)
    ensures Newlines(i) <= Newlines(o)
    decreases |o| + |i|
  {
    if o != [] {
      if i != [] && (o[0] == i[0] || (o[0] == '\n' && i[0] == ' ')) && Breaks(o[1..], i[1..]) {
        BreaksKeepsNewlines(o[1..], i[1..]);
      } else {
        BreaksKeepsNewlines(o[1..], i);
      }
    }
  }

  // ----- Colour at the start of a line -------------------------------------------

  /** The index of the first character token of a line, or its length if it has none. */
  function FirstChar(line: seq<Token>): (n: nat)
    ensures n <= |line|
    ensures forall i :: 0 <= i < n ==> !line[i].Char?
    ensures n < |line| ==> line[n].Char?
    decreases |line|
  {
    if line == [] then 0 else if line[0].Char? then 0 else 1 + FirstChar(line[1..])
  }

  predicate HasChar(line: seq<Token>) {
    FirstChar(line) < |line|
  }

  predicate HasCode(line: seq<Token>) {
    exists i :: 0 <= i < |line| && line[i].Code?
  }

  /** Some line holds a colour code. */
  predicate AnyCode(lines: seq<seq<Token>>)
    decreases |lines|
  {
    lines != [] && (AnyCode(lines[..|lines| - 1]) || HasCode(lines[|lines| - 1]))
  }

  /** The first character of the line is immediately preceded by a colour code. */
  predicate ColouredStart(line: seq<Token>) {
    HasChar(line) && FirstChar(line) > 0 && line[FirstChar(line) - 1].Code?
  }

  lemma {:induction false} FirstCharAppend(a: seq<Token>, b: seq<Token>)
    ensures HasChar(a) ==> FirstChar(a + b) == FirstChar(a)
    ensures !HasChar(a) ==> FirstChar(a + b) == |a| + FirstChar(b)
    decreases |a|
  {
    if a == [] {
      assert a + b == b;
    } else {
      assert (a + b)[0] == a[0] && (a + b)[1..] == a[1..] + b;
      FirstCharAppend(a[1..], b);
    }
  }

  lemma {:induction false} HasCharVisible(line: seq<Token>)
    requires Newline !in line
    ensures HasChar(line) <==> |Visible(line)| > 0
    decreases |line|
  {
    if line != [] {
      assert Newline !in line[1..] by {
        forall t | t in line[1..] ensures t in line { }
      }
      HasCharVisible(line[1..]);
    }
  }

  lemma ColouredStartPrefix(p: seq<Token>, q: seq<Token>)
    requires ColouredStart(p + q) && HasChar(p)
    ensures ColouredStart(p)
  {
    FirstCharAppend(p, q);
  }

  lemma AnyCodeSnoc(lines: seq<seq<Token>>, x: seq<Token>)
    ensures AnyCode(lines + [x]) <==> AnyCode(lines) || HasCode(x)
  {
    assert (lines + [x])[..|lines|] == lines;
  }

  // ----- Reading the lines back against the input --------------------------------

  /**
   * Where the read-back stands: the input still unread, the characters the
   * output line shows so far, and whether one of them is a space.
   */
  datatype Reading = Reading(unread: seq<Token>, col: nat, spaced: bool)

  /** The characters of the word at the front of `i`: those before its first space or newline, codes not counted. */
  function WordAhead(i: seq<Token>): nat
    decreases |i|
  {
    if i == [] then 0
    else
      match i[0]
      case Code(_) => WordAhead(i[1..])
      case Newline => 0
      case Char(c) => if c == ' ' then 0 else 1 + WordAhead(i[1..])
  }

  /**
   * Reads one output token `o` against the reading `s`. The token is a copy
   * of the next input token; or a newline standing for an input space, where
   * the word after that space would carry the line past `width`; or a
   * newline inserted where a line without a space shows exactly `width`
   * characters and a character other than a space comes next; or a colour
   * code of the input repeated at the start of a line, in front of an input
   * character. The answer is the reading after `o`, or None.
   */
  function ReadBack(width: int, text: seq<Token>, o: Token, s: Reading): Option<Reading> {
    var i := s.unread;
    if i != [] && i[0] == o then
      match o
      case Char(c) => Some(Reading(i[1..], s.col + 1, s.spaced || c == ' '))
      case Newline => Some(Reading(i[1..], 0, false))
      case Code(_) => Some(Reading(i[1..], s.col, s.spaced))
    else if o.Newline? && i != [] && i[0] == Char(' ') && WordAhead(i[1..]) >= 1 && s.col + 1 + WordAhead(i[1..]) > width then
      Some(Reading(i[1..], 0, false))
    else if o.Newline? && s.col == width && !s.spaced && i != [] && i[0].Char? && i[0].c != ' ' then
      Some(Reading(i, 0, false))
    else if o.Code? && s.col == 0 && o in text && i != [] && i[0].Char? then Some(s)
    else None
  }

  /** Reads the tokens `o` back, one by one, from the reading `s`. */
  function ReadAll(width: int, text: seq<Token>, o: seq<Token>, s: Reading): Option<Reading>
    decreases |o|
  {
    if o == [] then Some(s)
    else
      match ReadBack(width, text, o[0], s)
      case None => None
      case Some(s') => ReadAll(width, text, o[1..], s')
  }

  /** The output `o` reads back against all of `text`, token by token, with nothing left over. */
  predicate Rewrapped(width: int, text: seq<Token>, o: seq<Token>) {
    var r := ReadAll(width, text, o, Reading(text, 0, false));
    r.Some? && r.value.unread == []
  }

  lemma {:induction false} ReadAllAppend(width: int, text: seq<Token>, x: seq<Token>, y: seq<Token>, s: Reading)
    ensures ReadAll(width, text, x + y, s)
            == match ReadAll(width, text, x, s)
               case None => None
               case Some(s') => ReadAll(width, text, y, s')
    decreases |x|
  {
    if x == [] {
      assert x + y == y;
    } else {
      assert (x + y)[0] == x[0] && (x + y)[1..] == x[1..] + y;
      match ReadBack(width, text, x[0], s)
      case None =>
      case Some(s') => ReadAllAppend(width, text, x[1..], y, s');
    }
  }

  lemma ReadOne(width: int, text: seq<Token>, t: Token, s: Reading)
    ensures ReadAll(width, text, [t], s) == ReadBack(width, text, t, s)
  {
    assert [t][1..] == [];
  }

  /** What is left unread is always the end of the input. */
  lemma {:induction false} ReadAllSuffix(width: int, text: seq<Token>, o: seq<Token>, s: Reading)
    requires ReadAll(width, text, o, s).Some?
    ensures var r := ReadAll(width, text, o, s).value.unread;
            |r| <= |s.unread| && r == s.unread[|s.unread| - |r|..]
    decreases |o|
  {
    if o != [] {
      var i := s.unread;
      var s' := ReadBack(width, text, o[0], s).value;
      ReadAllSuffix(width, text, o[1..], s');
      var r := ReadAll(width, text, o, s).value.unread;
      assert r == s'.unread[|s'.unread| - |r|..];
      if s'.unread != i {
        assert s'.unread == i[1..];
        assert i[|i| - |r|..] == i[1..][|i| - 1 - |r|..];
      }
    }
  }

  /** Once a character is on the line, a token other than a newline reads back only as a copy. */
  lemma OnlyCopy(width: int, text: seq<Token>, t: Token, s: Reading)
    requires t != Newline && (s.col > 0 || t.Char?) && ReadBack(width, text, t, s).Some?
    ensures s.unread != [] && s.unread[0] == t
    ensures ReadBack(width, text, t, s).value == Reading(s.unread[1..], s.col + |VisibleToken(t)|, s.spaced || t == Char(' '))
  {
  }

  /** Once a character is on the line, tokens without a newline can only be copies, and each character is counted. */
  lemma {:induction false} ReadCopies(width: int, text: seq<Token>, y: seq<Token>, s: Reading)
    requires Newline !in y && (s.col > 0 || (y != [] && y[0].Char?))
    requires ReadAll(width, text, y, s).Some?
    ensures var r := ReadAll(width, text, y, s).value;
            s.unread == y + r.unread && r.col == s.col + |Visible(y)|
    decreases |y|
  {
    if y == [] {
      assert s.unread == y + s.unread;
    } else {
      assert y[0] in y;
      OnlyCopy(width, text, y[0], s);
      var s' := ReadBack(width, text, y[0], s).value;
      assert Newline !in y[1..] by {
        forall t | t in y[1..] ensures t in y { }
      }
      ReadCopies(width, text, y[1..], s');
      var i := s.unread;
      assert y == [y[0]] + y[1..] && i == [i[0]] + i[1..];
      VisibleCons(y);
      VisibleOne(y[0]);
    }
  }

  /** The characters of a word that holds no space or newline add up in front of the word after it. */
  lemma {:induction false} WordAheadAppend(a: seq<Token>, b: seq<Token>)
    requires forall j :: 0 <= j < |a| ==> a[j] != Newline && a[j] != Char(' ')
    ensures WordAhead(a + b) == |Visible(a)| + WordAhead(b)
    decreases |a|
  {
    if a == [] {
      assert a + b == b;
    } else {
      assert (a + b)[0] == a[0] && (a + b)[1..] == a[1..] + b;
      WordAheadAppend(a[1..], b);
      VisibleCons(a);
      VisibleOne(a[0]);
    }
  }

  /** The lines so far and the line being built read back to the unread input, with the shown count and its space; the colour is one of the input's codes. */
  predicate ReadsBack(width: int, text: seq<Token>, result: seq<seq<Token>>, captured: seq<Token>,
                      rest: seq<Token>, charlen: nat, colour: Option<string>)
  {
    && ReadAll(width, text, Flat(result + [captured]), Reading(text, 0, false)) == Some(Reading(rest, charlen, Char(' ') in captured))
    && (colour.Some? ==> Code(colour.value) in text)
  }

  lemma ReadsBackInit(width: int, text: seq<Token>)
    ensures ReadsBack(width, text, [], [], text, 0, None)
  {
    assert Flat([] + [[]]) == [];
  }

  /** A colour code read is copied, and becomes the colour. */
  lemma ReadsBackCode(width: int, text: seq<Token>, result: seq<seq<Token>>, captured: seq<Token>,
                      rest: seq<Token>, charlen: nat, colour: Option<string>)
    requires ReadsBack(width, text, result, captured, rest, charlen, colour)
    requires rest != [] && rest[0].Code?
    ensures ReadsBack(width, text, result, captured + [rest[0]], rest[1..], charlen, Some(rest[0].digits))
  {
    var o := Flat(result + [captured]);
    var s0 := Reading(text, 0, false);
    FlatExtend(result, captured, [rest[0]]);
    ReadAllAppend(width, text, o, [rest[0]], s0);
    ReadOne(width, text, rest[0], Reading(rest, charlen, Char(' ') in captured));
    ReadAllSuffix(width, text, o, s0);
    assert rest[0] == text[|text| - |rest|];
  }

  /** A character read is copied, after the colour when it is the first on its line. */
  lemma ReadsBackChar(width: int, text: seq<Token>, result: seq<seq<Token>>, captured: seq<Token>,
                      rest: seq<Token>, charlen: nat, colour: Option<string>, added: seq<Token>)
    requires ReadsBack(width, text, result, captured, rest, charlen, colour)
    requires rest != [] && rest[0].Char?
    requires added == if charlen == 0 && colour.Some? then [Code(colour.value), rest[0]] else [rest[0]]
    ensures ReadsBack(width, text, result, captured + added, rest[1..], charlen + 1, colour)
  {
    var o := Flat(result + [captured]);
    var s := Reading(rest, charlen, Char(' ') in captured);
    FlatExtend(result, captured, added);
    ReadAllAppend(width, text, o, added, Reading(text, 0, false));
    ReadOne(width, text, rest[0], s);
    if |added| == 2 {
      assert added[1..] == [rest[0]];
      ReadOne(width, text, rest[0], s);
    }
    assert Char(' ') in captured + added <==> Char(' ') in captured || rest[0] == Char(' ');
  }

  /** A newline read is copied, and ends the line. */
  lemma ReadsBackNewline(width: int, text: seq<Token>, result: seq<seq<Token>>, captured: seq<Token>,
                         rest: seq<Token>, charlen: nat, colour: Option<string>)
    requires ReadsBack(width, text, result, captured, rest, charlen, colour)
    requires rest != [] && rest[0] == Newline
    ensures ReadsBack(width, text, result + [captured], [], rest[1..], 0, colour)
  {
    var o := Flat(result + [captured]);
    FlatSnoc(result + [captured], []);
    assert Flat(result + [captured] + [[]]) == o + [Newline];
    ReadAllAppend(width, text, o, [Newline], Reading(text, 0, false));
    ReadOne(width, text, Newline, Reading(rest, charlen, Char(' ') in captured));
  }

  /** A full line without a space ends with an inserted newline, before the character that did not fit. */
  lemma ReadsBackFull(width: int, text: seq<Token>, result: seq<seq<Token>>, captured: seq<Token>,
                      rest: seq<Token>, charlen: nat, colour: Option<string>)
    requires ReadsBack(width, text, result, captured, rest, charlen, colour)
    requires rest != [] && rest[0].Char? && rest[0].c != ' ' && charlen == width && Char(' ') !in captured
    ensures ReadsBack(width, text, result + [captured], [], rest, 0, colour)
  {
    var o := Flat(result + [captured]);
    FlatSnoc(result + [captured], []);
    assert Flat(result + [captured] + [[]]) == o + [Newline];
    ReadAllAppend(width, text, o, [Newline], Reading(text, 0, false));
    ReadOne(width, text, Newline, Reading(rest, charlen, false));
  }

  /**
   * A space followed by a word `a` without a space, then the character
   * `rest[0]` that overflowed the line: that space reads back as the newline.
   */
  lemma BreakAtSpace(width: int, text: seq<Token>, p: Reading, a: seq<Token>, rest: seq<Token>, charlen: nat)
    requires p.unread == [Char(' ')] + a + rest && p.col + 1 + |Visible(a)| == charlen
    requires forall j :: 0 <= j < |a| ==> a[j] != Newline && a[j] != Char(' ')
    requires rest != [] && rest[0].Char? && rest[0].c != ' ' && charlen + 1 > width
    ensures ReadBack(width, text, Newline, p) == Some(Reading(a + rest, 0, false))
  {
    WordAheadAppend(a, rest);
    assert WordAhead(rest) >= 1;
    assert p.unread[1..] == a + rest;
  }

  /** Reading the line up to its space `tmp` leaves the space, its word and `rest` unread, with the space's column. */
  lemma ReadToSpace(width: int, text: seq<Token>, result: seq<seq<Token>>, captured: seq<Token>,
                    rest: seq<Token>, charlen: nat, tmp: nat)
    requires ReadAll(width, text, Flat(result + [captured]), Reading(text, 0, false)) == Some(Reading(rest, charlen, Char(' ') in captured))
    requires Newline !in captured && tmp < |captured| && captured[tmp] == Char(' ')
    ensures var p := ReadAll(width, text, Flat(result + [captured[..tmp]]), Reading(text, 0, false));
            && p.Some?
            && p.value.unread == [Char(' ')] + captured[tmp + 1..] + rest
            && p.value.col + 1 + |Visible(captured[tmp + 1..])| == charlen
  {
    var x := Flat(result + [captured[..tmp]]);
    var y := captured[tmp..];
    var s0 := Reading(text, 0, false);
    assert captured == captured[..tmp] + y;
    FlatExtend(result, captured[..tmp], y);
    ReadAllAppend(width, text, x, y, s0);
    var p := ReadAll(width, text, x, s0).value;
    assert Newline !in y by {
      forall t | t in y ensures t in captured { }
    }
    ReadCopies(width, text, y, p);
    assert y == [Char(' ')] + captured[tmp + 1..];
    VisibleCons(y);
    VisibleOne(Char(' '));
  }

  /**
   * A line cut at its last space `tmp`, after the character `rest[0]` overflowed
   * it: the space becomes the newline, since the word after it carries the
   * line past `width`, and what follows the space is unread again.
   */
  lemma ReadsBackAtSpace(width: int, text: seq<Token>, result: seq<seq<Token>>, captured: seq<Token>,
                         rest: seq<Token>, charlen: nat, colour: Option<string>, tmp: nat)
    requires ReadsBack(width, text, result, captured, rest, charlen, colour)
    requires Newline !in captured && tmp < |captured| && captured[tmp] == Char(' ')
    requires forall j :: tmp < j < |captured| ==> captured[j] != Char(' ')
    requires rest != [] && rest[0].Char? && rest[0].c != ' ' && charlen + 1 > width
    ensures ReadsBack(width, text, result + [captured[..tmp]], [], captured[tmp + 1..] + rest, 0, colour)
  {
    var x := Flat(result + [captured[..tmp]]);
    var a := captured[tmp + 1..];
    var s0 := Reading(text, 0, false);
    ReadToSpace(width, text, result, captured, rest, charlen, tmp);
    var p := ReadAll(width, text, x, s0).value;
    forall j | 0 <= j < |a| ensures a[j] != Newline && a[j] != Char(' ') {
      assert a[j] == captured[tmp + 1 + j] && a[j] in captured;
    }
    BreakAtSpace(width, text, p, a, rest, charlen);
    FlatSnoc(result + [captured[..tmp]], []);
    assert Flat(result + [captured[..tmp]] + [[]]) == x + [Newline];
    ReadAllAppend(width, text, x, [Newline], s0);
    ReadOne(width, text, Newline, p);
  }

  /** The input itself reads back: with nothing to wrap, every token is a copy. */
  lemma {:induction false} ReadSelf(width: int, text: seq<Token>, s: Reading)
    ensures var r := ReadAll(width, text, s.unread, s);
            r.Some? && r.value.unread == []
    decreases |s.unread|
  {
    var i := s.unread;
    if i != [] {
      var s' := ReadBack(width, text, i[0], s).value;
      assert s'.unread == i[1..];
      ReadSelf(width, text, s');
    }
  }

  /** "a b" fits in 10 columns: it reads back unchanged, and not broken at its space. */
  lemma NoBreakWhereItFits()
    ensures var t := [Char('a'), Char(' '), Char('b')];
            Rewrapped(10, t, t) && !Rewrapped(10, t, [Char('a'), Newline, Char('b')])
  {
    var t := [Char('a'), Char(' '), Char('b')];
    var o := [Char('a'), Newline, Char('b')];
    ReadSelf(10, t, Reading(t, 0, false));
    var s1 := Reading(t[1..], 1, false);
    assert ReadBack(10, t, o[0], Reading(t, 0, false)) == Some(s1);
    assert t[1..][1..] == [Char('b')];
    assert WordAhead([Char('b')]) == 1 + WordAhead([]);
    assert ReadBack(10, t, o[1], s1) == None;
    ReadAllAppend(10, t, o[..1], o[1..], Reading(t, 0, false));
    ReadOne(10, t, o[0], Reading(t, 0, false));
    assert o[..1] + o[1..] == o;
  }

  /** One token read: the rest is read from where it leaves the reading. */
  lemma ReadStep(width: int, text: seq<Token>, o: seq<Token>, s: Reading, s': Reading)
    requires o != [] && ReadBack(width, text, o[0], s) == Some(s')
    ensures ReadAll(width, text, o, s) == ReadAll(width, text, o[1..], s')
  {
  }

  /** "ab cde" in 4 columns breaks at its space, where the source breaks. */
  lemma BreakBeforeLongWord()
    ensures var t := [Char('a'), Char('b'), Char(' '), Char('c'), Char('d'), Char('e')];
            Rewrapped(4, t, [Char('a'), Char('b'), Newline, Char('c'), Char('d'), Char('e')])
  {
    var a, b, c, d, e, sp := Char('a'), Char('b'), Char('c'), Char('d'), Char('e'), Char(' ');
    var t := [a, b, sp, c, d, e];
    ReadStep(4, t, [a, b, Newline, c, d, e], Reading(t, 0, false), Reading([b, sp, c, d, e], 1, false));
    ReadStep(4, t, [b, Newline, c, d, e], Reading([b, sp, c, d, e], 1, false), Reading([sp, c, d, e], 2, false));
    assert WordAhead([c, d, e]) == 3 by {
      assert WordAhead([e]) == 1 + WordAhead([]);
      assert WordAhead([d, e]) == 1 + WordAhead([e]);
      assert WordAhead([c, d, e]) == 1 + WordAhead([d, e]);
    }
    ReadStep(4, t, [Newline, c, d, e], Reading([sp, c, d, e], 2, false), Reading([c, d, e], 0, false));
    ReadSelf(4, t, Reading([c, d, e], 0, false));
  }

  /** "ab cde" in 4 columns is not cut inside "cde": the line "ab c" holds a space to break at. */
  lemma NoCutAfterSpace()
    ensures var t := [Char('a'), Char('b'), Char(' '), Char('c'), Char('d'), Char('e')];
            !Rewrapped(4, t, [Char('a'), Char('b'), Char(' '), Char('c'), Newline, Char('d'), Char('e')])
  {
    var a, b, c, d, e, sp := Char('a'), Char('b'), Char('c'), Char('d'), Char('e'), Char(' ');
    var t := [a, b, sp, c, d, e];
    ReadStep(4, t, [a, b, sp, c, Newline, d, e], Reading(t, 0, false), Reading([b, sp, c, d, e], 1, false));
    ReadStep(4, t, [b, sp, c, Newline, d, e], Reading([b, sp, c, d, e], 1, false), Reading([sp, c, d, e], 2, false));
    ReadStep(4, t, [sp, c, Newline, d, e], Reading([sp, c, d, e], 2, false), Reading([c, d, e], 3, true));
    ReadStep(4, t, [c, Newline, d, e], Reading([c, d, e], 3, true), Reading([d, e], 4, true));
    assert ReadBack(4, t, Newline, Reading([d, e], 4, true)) == None;
  }

  /** "abc  d" in 3 columns keeps its first space and breaks at its second, the last one before "d". */
  lemma BreakAtLastSpace()
    ensures var t := [Char('a'), Char('b'), Char('c'), Char(' '), Char(' '), Char('d')];
            Rewrapped(3, t, [Char('a'), Char('b'), Char('c'), Char(' '), Newline, Char('d')])
  {
    var a, b, c, d, sp := Char('a'), Char('b'), Char('c'), Char('d'), Char(' ');
    var t := [a, b, c, sp, sp, d];
    var s3 := Reading([sp, sp, d], 3, false);
    ReadStep(3, t, [a, b, c, sp, Newline, d], Reading(t, 0, false), Reading([b, c, sp, sp, d], 1, false));
    ReadStep(3, t, [b, c, sp, Newline, d], Reading([b, c, sp, sp, d], 1, false), Reading([c, sp, sp, d], 2, false));
    ReadStep(3, t, [c, sp, Newline, d], Reading([c, sp, sp, d], 2, false), s3);
    ReadStep(3, t, [sp, Newline, d], s3, Reading([sp, d], 4, true));
    assert WordAhead([d]) == 1 + WordAhead([]);
    ReadStep(3, t, [Newline, d], Reading([sp, d], 4, true), Reading([d], 0, false));
    ReadSelf(3, t, Reading([d], 0, false));
  }

  /** "abc  d" in 3 columns is not broken at its first space: the word after it is empty. */
  lemma NoBreakBeforeSpace()
    ensures var t := [Char('a'), Char('b'), Char('c'), Char(' '), Char(' '), Char('d')];
            !Rewrapped(3, t, [Char('a'), Char('b'), Char('c'), Newline, Char(' '), Char('d')])
  {
    var a, b, c, d, sp := Char('a'), Char('b'), Char('c'), Char('d'), Char(' ');
    var t := [a, b, c, sp, sp, d];
    var s3 := Reading([sp, sp, d], 3, false);
    ReadStep(3, t, [a, b, c, Newline, sp, d], Reading(t, 0, false), Reading([b, c, sp, sp, d], 1, false));
    ReadStep(3, t, [b, c, Newline, sp, d], Reading([b, c, sp, sp, d], 1, false), Reading([c, sp, sp, d], 2, false));
    ReadStep(3, t, [c, Newline, sp, d], Reading([c, sp, sp, d], 2, false), s3);
    assert WordAhead([sp, d]) == 0;
    assert ReadBack(3, t, Newline, s3) == None;
  }

  // ----- The loop ---------------------------------------------------------------

  /** `captured.lastIndexOf(" ")`: the last space token, or -1. */
  function LastSpace(ts: seq<Token>): (r: int)
    ensures -1 <= r < |ts|
    ensures r >= 0 ==> ts[r] == Char(' ')
    ensures forall i :: r < i < |ts| ==> ts[i] != Char(' ')
    decreases |ts|
  {
    if ts == [] then -1
    else if ts[|ts| - 1] == Char(' ') then |ts| - 1
    else LastSpace(ts[..|ts| - 1])
  }

  /**
   * The loop invariant. `start` is the length of the unread text when the
   * current line began and `rep` says whether a repeated colour code was put
   * in front of the current line; both are bookkeeping for the proof.
   */
  ghost predicate Inv(width: int, text: seq<Token>, result: seq<seq<Token>>, captured: seq<Token>,
                      rest: seq<Token>, charlen: nat, colour: Option<string>, start: nat, rep: bool)
  {
    && width >= 1
    && (forall k :: 0 <= k < |result| ==> Newline !in result[k] && Fits(result[k], width))
    && (forall k :: 0 <= k < |result| && AnyCode(result[..k]) && HasChar(result[k]) ==> ColouredStart(result[k]))
    && Newline !in captured && Fits(captured, width)
    && charlen == |Visible(captured)|
    && Breaks(Visible(Flat(result + [captured]) + rest), Visible(text))
    && |rest| <= start
    && |captured| == start - |rest| + (if rep then 1 else 0)
    && charlen + (if rep then 1 else 0) <= |captured|
    && (rep ==> captured != [] && !captured[0].Char? && charlen >= 1)
    && (AnyCode(result) || HasCode(captured) ==> colour.Some?)
    && (AnyCode(result) && HasChar(captured) ==> ColouredStart(captured))
  }

  lemma InvInit(width: int, text: seq<Token>)
    requires width >= 1
    ensures Inv(width, text, [], [], text, 0, None, |text|, false)
  {
    assert Flat([] + [[]]) == [];
    assert Flat([] + [[]]) + text == text;
    BreaksRefl(Visible(text));
  }

  /** A colour code is read: it is captured and remembered. */
  lemma StepCode(width: int, text: seq<Token>, result: seq<seq<Token>>, captured: seq<Token>,
                 rest: seq<Token>, charlen: nat, colour: Option<string>, start: nat, rep: bool)
    requires Inv(width, text, result, captured, rest, charlen, colour, start, rep)
    requires rest != [] && rest[0].Code?
    ensures Inv(width, text, result, captured + [rest[0]], rest[1..], charlen, Some(rest[0].digits), start, rep)
  {
    var c' := captured + [rest[0]];
    assert Visible([rest[0]]) == [];
    VisibleAppend(captured, [rest[0]]);
    assert Visible(c') == Visible(captured);
    FlatExtend(result, captured, [rest[0]]);
    assert Flat(result + [c']) + rest[1..] == Flat(result + [captured]) + rest;
    assert |c'| - 1 < |c'| && c'[|c'| - 1].Code?;
    if HasChar(captured) { FirstCharAppend(captured, [rest[0]]); }
    if HasChar(c') { HasCharVisible(c'); HasCharVisible(captured); }
  }

  /** A line ends: the captured tokens become a result line and a new line begins. */
  lemma PushLine(width: int, result: seq<seq<Token>>, line: seq<Token>, colour: Option<string>)
    requires forall k :: 0 <= k < |result| ==> Newline !in result[k] && Fits(result[k], width)
    requires forall k :: 0 <= k < |result| && AnyCode(result[..k]) && HasChar(result[k]) ==> ColouredStart(result[k])
    requires Newline !in line && Fits(line, width)
    requires AnyCode(result) || HasCode(line) ==> colour.Some?
    requires AnyCode(result) && HasChar(line) ==> ColouredStart(line)
    ensures forall k :: 0 <= k < |result + [line]| ==> Newline !in (result + [line])[k] && Fits((result + [line])[k], width)
    ensures forall k :: 0 <= k < |result + [line]| && AnyCode((result + [line])[..k]) && HasChar((result + [line])[k]) ==> ColouredStart((result + [line])[k])
    ensures AnyCode(result + [line]) ==> colour.Some?
  {
    var r' := result + [line];
    AnyCodeSnoc(result, line);
    forall k | 0 <= k < |r'| && AnyCode(r'[..k]) && HasChar(r'[k]) ensures ColouredStart(r'[k]) {
      if k < |result| {
        assert r'[..k] == result[..k];
      } else {
        assert r'[..k] == result;
      }
    }
  }

  /** A newline is read: the line ends. */
  lemma StepNewline(width: int, text: seq<Token>, result: seq<seq<Token>>, captured: seq<Token>,
                    rest: seq<Token>, charlen: nat, colour: Option<string>, start: nat, rep: bool)
    requires Inv(width, text, result, captured, rest, charlen, colour, start, rep)
    requires rest != [] && rest[0].Newline?
    ensures Inv(width, text, result + [captured], [], rest[1..], 0, colour, |rest| - 1, false)
    ensures |rest| - 1 < start
  {
    var r' := result + [captured];
    PushLine(width, result, captured, colour);
    FlatSnoc(r', []);
    assert rest == [Newline] + rest[1..];
    assert Flat(r' + [[]]) + rest[1..] == Flat(r') + rest;
    if HasChar(captured) { HasCharVisible(captured); }
    InvEmptyLine(width, text, r', rest[1..], colour);
  }

  /** The state at the start of a line: nothing captured yet. */
  lemma InvEmptyLine(width: int, text: seq<Token>, result: seq<seq<Token>>, rest: seq<Token>, colour: Option<string>)
    requires width >= 1
    requires forall k :: 0 <= k < |result| ==> Newline !in result[k] && Fits(result[k], width)
    requires forall k :: 0 <= k < |result| && AnyCode(result[..k]) && HasChar(result[k]) ==> ColouredStart(result[k])
    requires AnyCode(result) ==> colour.Some?
    requires Breaks(Visible(Flat(result + [[]]) + rest), Visible(text))
    ensures Inv(width, text, result, [], rest, 0, colour, |rest|, false)
  {
    assert Fits([], width) && Visible([]) == [] && !HasCode([]) && !HasChar([]);
  }

  /** Turning a space token into a newline token keeps the relation. */
  lemma BreaksReplaceToken(x: seq<Token>, y: seq<Token>, i: seq<char>)
    requires Breaks(Visible(x + [Char(' ')] + y), i)
    ensures Breaks(Visible(x + [Newline] + y), i)
  {
    VisibleAppend(x + [Char(' ')], y);
    VisibleAppend(x, [Char(' ')]);
    VisibleAppend(x + [Newline], y);
    VisibleAppend(x, [Newline]);
    assert Visible([Char(' ')]) == [' '];
    assert Visible([Newline]) == ['\n'];
    BreaksReplace(Visible(x), Visible(y), i);
  }

  /** Inserting a newline token keeps the relation. */
  lemma BreaksInsertToken(x: seq<Token>, y: seq<Token>, i: seq<char>)
    requires Breaks(Visible(x + y), i)
    ensures Breaks(Visible(x + [Newline] + y), i)
  {
    VisibleAppend(x, y);
    VisibleAppend(x + [Newline], y);
    VisibleAppend(x, [Newline]);
    assert Visible([Newline]) == ['\n'];
    BreaksInsert(Visible(x), Visible(y), i);
  }

  /** Moving the visible tokens of `added` from the unread text to the current line changes nothing visible. */
  lemma SeenAfterChar(result: seq<seq<Token>>, captured: seq<Token>, added: seq<Token>, rest: seq<Token>)
    requires rest != [] && Visible(added) == Visible([rest[0]])
    ensures Visible(Flat(result + [captured + added]) + rest[1..]) == Visible(Flat(result + [captured]) + rest)
  {
    var f := Flat(result + [captured]);
    FlatExtend(result, captured, added);
    assert rest == [rest[0]] + rest[1..];
    assert f + rest == (f + [rest[0]]) + rest[1..];
    VisibleAppend(f + added, rest[1..]);
    VisibleAppend(f, added);
    VisibleAppend(f + [rest[0]], rest[1..]);
    VisibleAppend(f, [rest[0]]);
  }

  /** The line still fits once a character is added, if it is a space or keeps the count within the width. */
  lemma FitsAfterChar(captured: seq<Token>, added: seq<Token>, c: char, width: int)
    requires Fits(captured, width) && Visible(added) == [c]
    requires |Visible(captured)| + 1 <= width || c == ' '
    ensures Fits(captured + added, width)
    ensures |Visible(captured + added)| == |Visible(captured)| + 1
  {
    VisibleAppend(captured, added);
    if c == ' ' {
      assert TrimEnd(Visible(captured) + [' ']) == TrimEnd(Visible(captured));
    } else {
      assert TrimEnd(Visible(captured) + [c]) == Visible(captured) + [c];
    }
  }

  /** A newline or a code is in `a + b` exactly when it is in `a` or in `b`. */
  lemma AppendTokens(a: seq<Token>, b: seq<Token>)
    ensures Newline in a + b <==> Newline in a || Newline in b
    ensures HasCode(a + b) <==> HasCode(a) || HasCode(b)
  {
    if HasCode(a) {
      var i :| 0 <= i < |a| && a[i].Code?;
      assert (a + b)[i].Code?;
    }
    if HasCode(b) {
      var i :| 0 <= i < |b| && b[i].Code?;
      assert (a + b)[|a| + i].Code?;
    }
    if HasCode(a + b) {
      var i :| 0 <= i < |a + b| && (a + b)[i].Code?;
      if i < |a| { assert a[i].Code?; } else { assert b[i - |a|].Code?; }
    }
  }

  /** The colour facts of the invariant, once a character (perhaps after a repeated code) is added. */
  lemma ColourAfterChar(result: seq<seq<Token>>, captured: seq<Token>, captured': seq<Token>, t: Token,
                        charlen: nat, colour: Option<string>, rep: bool, rep': bool)
    requires Newline !in captured && charlen == |Visible(captured)| && t.Char?
    requires rep ==> captured != [] && !captured[0].Char?
    requires AnyCode(result) || HasCode(captured) ==> colour.Some?
    requires AnyCode(result) && HasChar(captured) ==> ColouredStart(captured)
    requires charlen == 0 && colour.Some? ==> captured' == captured + [Code(colour.value), t] && rep'
    requires !(charlen == 0 && colour.Some?) ==> captured' == captured + [t] && rep' == rep
    ensures rep' ==> captured' != [] && !captured'[0].Char?
    ensures AnyCode(result) || HasCode(captured') ==> colour.Some?
    ensures AnyCode(result) && HasChar(captured') ==> ColouredStart(captured')
    ensures Newline !in captured'
  {
    HasCharVisible(captured);
    if charlen == 0 && colour.Some? {
      ColourAfterRepeat(captured, colour.value, t);
    } else {
      ColourAfterPlain(captured, t);
    }
  }

  /** A character after the repeated code: the code colours the line's first character. */
  lemma ColourAfterRepeat(captured: seq<Token>, code: string, t: Token)
    requires Newline !in captured && !HasChar(captured) && t.Char?
    ensures var c' := captured + [Code(code), t];
            c' != [] && !c'[0].Char? && HasCode(c') && ColouredStart(c') && Newline !in c'
  {
    var added := [Code(code), t];
    FirstCharAppend(captured, added);
    AppendTokens(captured, added);
    assert FirstChar(added) == 1;
    assert added[0].Code?;
    var c' := captured + added;
    if captured != [] { assert c'[0] == captured[0]; }
  }

  /** A character after the others: the line's codes and its first character stay as they were. */
  lemma ColourAfterPlain(captured: seq<Token>, t: Token)
    requires Newline !in captured && t.Char?
    ensures var c' := captured + [t];
            c' != [] && (captured != [] ==> c'[0] == captured[0]) &&
            (HasCode(c') <==> HasCode(captured)) && Newline !in c' &&
            (HasChar(captured) && ColouredStart(captured) ==> ColouredStart(c'))
  {
    FirstCharAppend(captured, [t]);
    AppendTokens(captured, [t]);
    var c' := captured + [t];
    if captured != [] { assert c'[0] == captured[0]; }
    if ColouredStart(captured) {
      assert c'[FirstChar(captured) - 1] == captured[FirstChar(captured) - 1];
    }
  }

  /** A character is read and the line still fits, or it is a space. */
  lemma StepChar(width: int, text: seq<Token>, result: seq<seq<Token>>, captured: seq<Token>,
                 rest: seq<Token>, charlen: nat, colour: Option<string>, start: nat, rep: bool,
                 captured': seq<Token>, rep': bool)
    requires Inv(width, text, result, captured, rest, charlen, colour, start, rep)
    requires rest != [] && rest[0].Char?
    requires charlen == 0 && colour.Some? ==> captured' == captured + [Code(colour.value), rest[0]] && rep'
    requires !(charlen == 0 && colour.Some?) ==> captured' == captured + [rest[0]] && rep' == rep
    requires charlen + 1 <= width || rest[0].c == ' '
    ensures Inv(width, text, result, captured', rest[1..], charlen + 1, colour, start, rep')
  {
    var t := rest[0];
    var added := captured'[|captured|..];
    assert captured' == captured + added;
    assert Visible([t]) == [t.c];
    if |added| == 2 { assert added[1..] == [t]; }
    assert Visible(added) == [t.c];
    assert |added| == (if charlen == 0 && colour.Some? then 2 else 1);
    SeenAfterChar(result, captured, added, rest);
    FitsAfterChar(captured, added, t.c, width);
    ColourAfterChar(result, captured, captured', t, charlen, colour, rep, rep');
  }

  /** The part of an overlong line that is kept is a line of its own, and the invariant holds once it is pushed. */
  lemma CutLine(width: int, result: seq<seq<Token>>, captured: seq<Token>, cut: nat, colour: Option<string>)
    requires forall k :: 0 <= k < |result| ==> Newline !in result[k] && Fits(result[k], width)
    requires forall k :: 0 <= k < |result| && AnyCode(result[..k]) && HasChar(result[k]) ==> ColouredStart(result[k])
    requires Newline !in captured && Fits(captured, width)
    requires AnyCode(result) || HasCode(captured) ==> colour.Some?
    requires AnyCode(result) && HasChar(captured) ==> ColouredStart(captured)
    requires cut <= |captured|
    ensures var r' := result + [captured[..cut]];
            && (forall k :: 0 <= k < |r'| ==> Newline !in r'[k] && Fits(r'[k], width))
            && (forall k :: 0 <= k < |r'| && AnyCode(r'[..k]) && HasChar(r'[k]) ==> ColouredStart(r'[k]))
            && (AnyCode(r') ==> colour.Some?)
  {
    var line := captured[..cut];
    assert captured == line + captured[cut..];
    FitsPrefix(line, captured[cut..], width);
    assert Newline !in line by {
      forall i | 0 <= i < |line| ensures line[i] != Newline { assert line[i] == captured[i]; }
    }
    if HasCode(line) {
      var i :| 0 <= i < |line| && line[i].Code?;
      assert captured[i].Code?;
    }
    if AnyCode(result) && HasChar(line) {
      FirstCharAppend(line, captured[cut..]);
      ColouredStartPrefix(line, captured[cut..]);
    }
    PushLine(width, result, line, colour);
  }

  /** Without a space to cut at, the line ends just before the character that did not fit. */
  lemma CutBefore(text: seq<Token>, result: seq<seq<Token>>, line: seq<Token>, rest: seq<Token>)
    requires Breaks(Visible(Flat(result + [line]) + rest), Visible(text))
    ensures Breaks(Visible(Flat(result + [line] + [[]]) + rest), Visible(text))
  {
    FlatSnoc(result + [line], []);
    assert Flat(result + [line]) + rest == Flat(result + [line]) + [] + rest;
    assert Flat(result + [line] + [[]]) + rest == Flat(result + [line]) + [Newline] + rest;
    BreaksInsertToken(Flat(result + [line]), rest, Visible(text));
  }

  /** The line ends at its last space, which becomes the line break. */
  lemma CutAtSpace(text: seq<Token>, result: seq<seq<Token>>, line: seq<Token>, tail: seq<Token>, rest: seq<Token>)
    requires Breaks(Visible(Flat(result + [line + [Char(' ')] + tail]) + rest), Visible(text))
    ensures Breaks(Visible(Flat(result + [line] + [[]]) + (tail + rest)), Visible(text))
  {
    var before := Flat(result + [line]);
    FlatSnoc(result + [line], []);
    FlatExtend(result, line, [Char(' ')] + tail);
    assert line + [Char(' ')] + tail == line + ([Char(' ')] + tail);
    assert Flat(result + [line + [Char(' ')] + tail]) + rest == before + [Char(' ')] + (tail + rest);
    assert Flat(result + [line] + [[]]) + (tail + rest) == before + [Newline] + (tail + rest);
    BreaksReplaceToken(before, tail + rest, Visible(text));
  }

  /** The invariant at the start of a new, still empty line. */
  lemma InvFresh(width: int, text: seq<Token>, result: seq<seq<Token>>, rest: seq<Token>, colour: Option<string>)
    requires width >= 1
    requires forall k :: 0 <= k < |result| ==> Newline !in result[k] && Fits(result[k], width)
    requires forall k :: 0 <= k < |result| && AnyCode(result[..k]) && HasChar(result[k]) ==> ColouredStart(result[k])
    requires AnyCode(result) ==> colour.Some?
    requires Breaks(Visible(Flat(result + [[]]) + rest), Visible(text))
    ensures Inv(width, text, result, [], rest, 0, colour, |rest|, false)
  {
    assert Visible([]) == [];
    assert !HasCode([]);
  }

  /** An overlong line without a space: it ends before the character that did not fit. */
  lemma OverflowNoSpace(width: int, text: seq<Token>, result: seq<seq<Token>>, captured: seq<Token>,
                        rest: seq<Token>, charlen: nat, colour: Option<string>, start: nat, rep: bool)
    requires Inv(width, text, result, captured, rest, charlen, colour, start, rep)
    requires charlen >= 1
    ensures Inv(width, text, result + [captured], [], rest, 0, colour, |rest|, false)
    ensures |rest| < start
  {
    CutLine(width, result, captured, |captured|, colour);
    assert captured[..|captured|] == captured;
    CutBefore(text, result, captured, rest);
    InvFresh(width, text, result + [captured], rest, colour);
  }

  /** Tokens without a space show no space. */
  lemma {:induction false} NoSpaceVisible(ts: seq<Token>)
    requires forall i :: 0 <= i < |ts| ==> ts[i] != Char(' ')
    ensures ' ' !in Visible(ts)
    decreases |ts|
  {
    if ts != [] {
      NoSpaceVisible(ts[1..]);
    }
  }

  /**
   * A word with no space inside the limit is cut after exactly `width`
   * characters: when a non-space character overflows a line that holds no
   * space, that line already shows `width` characters.
   */
  lemma CutWordIsFull(width: int, text: seq<Token>, result: seq<seq<Token>>, captured: seq<Token>,
                      rest: seq<Token>, charlen: nat, colour: Option<string>, start: nat, rep: bool)
    requires Inv(width, text, result, captured, rest, charlen, colour, start, rep)
    requires rest != [] && rest[0].Char? && charlen + 1 > width
    requires LastSpace(captured + [rest[0]]) == -1
    ensures charlen == width
  {
    var full := captured + [rest[0]];
    forall i | 0 <= i < |captured| ensures captured[i] != Char(' ') {
      assert full[i] == captured[i];
    }
    NoSpaceVisible(captured);
    var v := Visible(captured);
    if v != [] {
      assert v[|v| - 1] in v;
    }
    assert TrimEnd(v) == v;
  }

  /** The token stream is the same whether the space at `tmp` is still in the line or about to be read. */
  lemma SplitAtSpace(result: seq<seq<Token>>, captured: seq<Token>, rest: seq<Token>, tmp: nat)
    requires rest != [] && tmp < |captured| && captured[tmp] == Char(' ')
    ensures Flat(result + [captured]) + rest
         == Flat(result + [captured[..tmp] + [Char(' ')] + (captured[tmp + 1..] + [rest[0]])]) + rest[1..]
  {
    var t := rest[0];
    var whole := captured + [t];
    assert whole == captured[..tmp] + [Char(' ')] + (captured[tmp + 1..] + [t]);
    FlatExtend(result, captured, [t]);
    calc {
      Flat(result + [captured]) + rest;
      { assert rest == [t] + rest[1..]; }
      (Flat(result + [captured]) + [t]) + rest[1..];
      Flat(result + [whole]) + rest[1..];
    }
  }

  /** Cutting at the space at `tmp` keeps the relation between what is seen and the input. */
  lemma BreaksAtSpace(text: seq<Token>, result: seq<seq<Token>>, captured: seq<Token>, rest: seq<Token>, tmp: nat)
    requires Breaks(Visible(Flat(result + [captured]) + rest), Visible(text))
    requires rest != [] && tmp < |captured| && captured[tmp] == Char(' ')
    ensures Breaks(Visible(Flat(result + [captured[..tmp]] + [[]]) + (captured[tmp + 1..] + rest)), Visible(text))
  {
    var tail := captured[tmp + 1..] + [rest[0]];
    SplitAtSpace(result, captured, rest, tmp);
    CutAtSpace(text, result, captured[..tmp], tail, rest[1..]);
    assert tail + rest[1..] == captured[tmp + 1..] + rest by {
      assert rest == [rest[0]] + rest[1..];
    }
  }

  /** An overlong line with a space at `tmp` (not its first token, which may be a repeated code): it ends there. */
  lemma OverflowAtSpace(width: int, text: seq<Token>, result: seq<seq<Token>>, captured: seq<Token>,
                        rest: seq<Token>, charlen: nat, colour: Option<string>, start: nat, rep: bool, tmp: nat)
    requires Inv(width, text, result, captured, rest, charlen, colour, start, rep)
    requires rest != [] && tmp < |captured| && captured[tmp] == Char(' ')
    ensures Inv(width, text, result + [captured[..tmp]], [], captured[tmp + 1..] + rest, 0, colour, |captured[tmp + 1..] + rest|, false)
    ensures |captured[tmp + 1..] + rest| < start
  {
    CutLine(width, result, captured, tmp, colour);
    BreaksAtSpace(text, result, captured, rest, tmp);
    assert tmp >= 1 || !rep;
    InvFresh(width, text, result + [captured[..tmp]], captured[tmp + 1..] + rest, colour);
  }

  /** With no space to cut at, `captured.slice(-1)` is the character that did not fit: the rest is read again unchanged. */
  lemma CutShapeNoSpace(captured: seq<Token>, rest: seq<Token>)
    requires rest != []
    ensures var full := captured + [rest[0]];
            full[..|full| - 1] == captured && full[|full| - 1..] + rest[1..] == rest
  {
    var full := captured + [rest[0]];
    assert full[..|full| - 1] == captured;
    assert full[|full| - 1..] == [rest[0]];
    assert [rest[0]] + rest[1..] == rest;
  }

  /** With a space at `tmp`, the line keeps what precedes it and what follows it is read again. */
  lemma CutShapeAtSpace(captured: seq<Token>, rest: seq<Token>, tmp: nat)
    requires rest != [] && tmp < |captured|
    ensures var full := captured + [rest[0]];
            full[..tmp] == captured[..tmp] && full[tmp + 1..] + rest[1..] == captured[tmp + 1..] + rest
  {
    var full := captured + [rest[0]];
    assert full[..tmp] == captured[..tmp];
    assert full[tmp + 1..] == captured[tmp + 1..] + [rest[0]];
    assert [rest[0]] + rest[1..] == rest;
    assert captured[tmp + 1..] + [rest[0]] + rest[1..] == captured[tmp + 1..] + ([rest[0]] + rest[1..]);
  }

  /** When nothing is left to read, the captured line is the last one and the result is complete. */
  lemma InvDone(width: int, text: seq<Token>, result: seq<seq<Token>>, captured: seq<Token>,
                charlen: nat, colour: Option<string>, start: nat, rep: bool)
    requires Inv(width, text, result, captured, [], charlen, colour, start, rep)
    ensures var lines := result + [captured];
            && (forall k :: 0 <= k < |lines| ==> Newline !in lines[k] && Fits(lines[k], width))
            && Breaks(Visible(Flat(lines)), Visible(text))
            && (forall k :: 0 <= k < |lines| && AnyCode(lines[..k]) && HasChar(lines[k]) ==> ColouredStart(lines[k]))
  {
    PushLine(width, result, captured, colour);
    assert Flat(result + [captured]) + [] == Flat(result + [captured]);
  }

  // ----- One turn of the loop ----------------------------------------------------

  /** What holds before every turn of the loop: the line invariants, and the lines read back against the input. */
  ghost predicate Loop(width: int, text: seq<Token>, result: seq<seq<Token>>, captured: seq<Token>,
                  rest: seq<Token>, charlen: nat, colour: Option<string>, start: nat, rep: bool)
  {
    Inv(width, text, result, captured, rest, charlen, colour, start, rep) && ReadsBack(width, text, result, captured, rest, charlen, colour)
  }

  /** A colour code: it joins the line and becomes the colour. */
  lemma TurnCode(width: int, text: seq<Token>, result: seq<seq<Token>>, captured: seq<Token>,
                  rest: seq<Token>, charlen: nat, colour: Option<string>, start: nat, rep: bool)
    requires Loop(width, text, result, captured, rest, charlen, colour, start, rep)
    requires rest != [] && rest[0].Code?
    ensures Loop(width, text, result, captured + [rest[0]], rest[1..], charlen, Some(rest[0].digits), start, rep)
  {
    StepCode(width, text, result, captured, rest, charlen, colour, start, rep);
    ReadsBackCode(width, text, result, captured, rest, charlen, colour);
  }

  /** A character that fits, or a space: it joins the line, after the colour when it is the line's first. */
  lemma TurnChar(width: int, text: seq<Token>, result: seq<seq<Token>>, captured: seq<Token>,
                  rest: seq<Token>, charlen: nat, colour: Option<string>, start: nat, rep: bool,
                 captured': seq<Token>, rep': bool)
    requires Loop(width, text, result, captured, rest, charlen, colour, start, rep)
    requires rest != [] && rest[0].Char? && (charlen + 1 <= width || rest[0].c == ' ')
    requires captured' == if charlen == 0 && colour.Some? then captured + [Code(colour.value), rest[0]] else captured + [rest[0]]
    requires rep' == if charlen == 0 && colour.Some? then true else rep
    ensures Loop(width, text, result, captured', rest[1..], charlen + 1, colour, start, rep')
  {
    StepChar(width, text, result, captured, rest, charlen, colour, start, rep, captured', rep');
    ReadsBackChar(width, text, result, captured, rest, charlen, colour, captured'[|captured|..]);
    assert captured + captured'[|captured|..] == captured';
  }

  /** The last space of a line with a non-space character added: none on the line, or one with no space after it on the line. */
  lemma LastSpaceOfLine(captured: seq<Token>, t: Token)
    requires t != Char(' ')
    ensures var tmp := LastSpace(captured + [t]);
            && (tmp == -1 ==> Char(' ') !in captured)
            && (tmp != -1 ==> tmp < |captured| && captured[tmp] == Char(' ')
                              && forall j :: tmp < j < |captured| ==> captured[j] != Char(' '))
  {
    var full := captured + [t];
    var tmp := LastSpace(full);
    assert full[|captured|] == t;
    forall j | tmp < j < |captured| ensures captured[j] != Char(' ') {
      assert full[j] == captured[j];
    }
    if tmp == -1 {
      assert forall j :: 0 <= j < |captured| ==> captured[j] != Char(' ');
    } else {
      assert captured[tmp] == full[tmp];
    }
  }

  /** A character that does not fit: the line is cut back to its last space, or just before the character. */
  lemma TurnCut(width: int, text: seq<Token>, result: seq<seq<Token>>, captured: seq<Token>,
                  rest: seq<Token>, charlen: nat, colour: Option<string>, start: nat, rep: bool,
                line: seq<Token>, rest': seq<Token>)
    requires Loop(width, text, result, captured, rest, charlen, colour, start, rep)
    requires rest != [] && rest[0].Char? && !(charlen + 1 <= width || rest[0].c == ' ')
    requires var full := captured + [rest[0]];
             var tmp := LastSpace(full);
             && line == full[..if tmp == -1 then |full| - 1 else tmp]
             && rest' == full[if tmp == -1 then |full| - 1 else tmp + 1..] + rest[1..]
    ensures Loop(width, text, result + [line], [], rest', 0, colour, |rest'|, false)
    ensures |rest'| < start
  {
    var full := captured + [rest[0]];
    var tmp := LastSpace(full);
    LastSpaceOfLine(captured, rest[0]);
    if tmp == -1 {
      CutShapeNoSpace(captured, rest);
      TurnCutNoSpace(width, text, result, captured, rest, charlen, colour, start, rep);
    } else {
      CutShapeAtSpace(captured, rest, tmp);
      TurnCutAtSpace(width, text, result, captured, rest, charlen, colour, start, rep, tmp);
    }
  }

  /** Without a space on the line, the line is kept whole and the character waits for the next line. */
  lemma TurnCutNoSpace(width: int, text: seq<Token>, result: seq<seq<Token>>, captured: seq<Token>,
                  rest: seq<Token>, charlen: nat, colour: Option<string>, start: nat, rep: bool)
    requires Loop(width, text, result, captured, rest, charlen, colour, start, rep)
    requires rest != [] && rest[0].Char? && !(charlen + 1 <= width || rest[0].c == ' ')
    requires LastSpace(captured + [rest[0]]) == -1
    ensures Loop(width, text, result + [captured], [], rest, 0, colour, |rest|, false)
    ensures |rest| < start
  {
    OverflowNoSpace(width, text, result, captured, rest, charlen, colour, start, rep);
    CutWordIsFull(width, text, result, captured, rest, charlen, colour, start, rep);
    LastSpaceOfLine(captured, rest[0]);
    ReadsBackFull(width, text, result, captured, rest, charlen, colour);
  }

  /** With its last space at `tmp`, the line keeps what precedes the space and what follows it is read again. */
  lemma TurnCutAtSpace(width: int, text: seq<Token>, result: seq<seq<Token>>, captured: seq<Token>,
                  rest: seq<Token>, charlen: nat, colour: Option<string>, start: nat, rep: bool, tmp: nat)
    requires Loop(width, text, result, captured, rest, charlen, colour, start, rep)
    requires rest != [] && tmp < |captured| && captured[tmp] == Char(' ')
    requires forall j :: tmp < j < |captured| ==> captured[j] != Char(' ')
    requires rest[0].Char? && rest[0].c != ' ' && charlen + 1 > width
    ensures Loop(width, text, result + [captured[..tmp]], [], captured[tmp + 1..] + rest, 0, colour, |captured[tmp + 1..] + rest|, false)
    ensures |captured[tmp + 1..] + rest| < start
  {
    OverflowAtSpace(width, text, result, captured, rest, charlen, colour, start, rep, tmp);
    ReadsBackAtSpace(width, text, result, captured, rest, charlen, colour, tmp);
  }

  /** A newline of the input: it ends the line. */
  lemma TurnNewline(width: int, text: seq<Token>, result: seq<seq<Token>>, captured: seq<Token>,
                  rest: seq<Token>, charlen: nat, colour: Option<string>, start: nat, rep: bool)
    requires Loop(width, text, result, captured, rest, charlen, colour, start, rep)
    requires rest != [] && rest[0].Newline?
    ensures Loop(width, text, result + [captured], [], rest[1..], 0, colour, |rest| - 1, false)
    ensures |rest| - 1 < start
  {
    StepNewline(width, text, result, captured, rest, charlen, colour, start, rep);
    ReadsBackNewline(width, text, result, captured, rest, charlen, colour);
  }

  /** Once nothing is left to read, the lines so far and the captured line are the answer, with all it promises. */
  lemma LoopDone(width: int, text: seq<Token>, result: seq<seq<Token>>, captured: seq<Token>,
                 charlen: nat, colour: Option<string>, start: nat, rep: bool)
    requires Loop(width, text, result, captured, [], charlen, colour, start, rep)
    ensures var lines := result + [captured];
            && |lines| >= 1
            && (forall k :: 0 <= k < |lines| ==> Newline !in lines[k] && Fits(lines[k], width))
            && Breaks(Visible(Flat(lines)), Visible(text))
            && (forall k :: 0 <= k < |lines| && AnyCode(lines[..k]) && HasChar(lines[k]) ==> ColouredStart(lines[k]))
            && Rewrapped(width, text, Flat(lines))
  {
    InvDone(width, text, result, captured, charlen, colour, start, rep);
  }

  /**
   * One turn of the `while` loop: the next token of `rest` is read, and the
   * line grows, is cut or ends. `start` (the length of the unread text when
   * the current line began) shrinks, or stays and `rest` shrinks.
   */
  method Step(width: int, text: seq<Token>, result: seq<seq<Token>>, captured: seq<Token>,
              rest: seq<Token>, charlen: nat, colour: Option<string>, ghost start: nat, ghost rep: bool)
    returns (result': seq<seq<Token>>, captured': seq<Token>, rest': seq<Token>, charlen': nat,
             colour': Option<string>, ghost start': nat, ghost rep': bool)
    requires Loop(width, text, result, captured, rest, charlen, colour, start, rep) && rest != []
    ensures Loop(width, text, result', captured', rest', charlen', colour', start', rep')
    ensures start' < start || (start' == start && |rest'| < |rest|)
  {
    var t := rest[0];
    match t {
      case Code(d) =>
        TurnCode(width, text, result, captured, rest, charlen, colour, start, rep);
        result', captured', rest', charlen', colour' := result, captured + [t], rest[1..], charlen, Some(d);
        start', rep' := start, rep;
      case Char(c) =>
        if charlen + 1 <= width || c == ' ' {
          captured' := if charlen == 0 && colour.Some? then captured + [Code(colour.value), t] else captured + [t];
          rep' := if charlen == 0 && colour.Some? then true else rep;
          TurnChar(width, text, result, captured, rest, charlen, colour, start, rep, captured', rep');
          result', rest', charlen', colour', start' := result, rest[1..], charlen + 1, colour, start;
        } else {
          // `captured` is cut back to its last space, or just before this character
          var full := captured + [t];
          var tmp := LastSpace(full);
          var line := full[..if tmp == -1 then |full| - 1 else tmp];
          rest' := full[if tmp == -1 then |full| - 1 else tmp + 1..] + rest[1..];
          TurnCut(width, text, result, captured, rest, charlen, colour, start, rep, line, rest');
          result', captured', charlen', colour' := result + [line], [], 0, colour;
          start', rep' := |rest'|, false;
        }
      case Newline =>
        TurnNewline(width, text, result, captured, rest, charlen, colour, start, rep);
        result', captured', rest', charlen', colour' := result + [captured], [], rest[1..], 0, colour;
        start', rep' := |rest| - 1, false;
    }
  }

  /** `wraptext(width, text)`, answering the array of lines that the source joins with "\n". */
  method WrapText(width: int, text: seq<Token>) returns (lines: seq<seq<Token>>)
    requires width >= 1
    ensures |lines| >= 1
    ensures forall k :: 0 <= k < |lines| ==> Newline !in lines[k] && Fits(lines[k], width)
    ensures Breaks(Visible(Flat(lines)), Visible(text))
    ensures forall k :: 0 <= k < |lines| && AnyCode(lines[..k]) && HasChar(lines[k]) ==> ColouredStart(lines[k])
    ensures Rewrapped(width, text, Flat(lines))
  {
    var result: seq<seq<Token>> := [];
    var captured: seq<Token> := [];
    var charlen: nat := 0;
    var colour: Option<string> := None;
    var rest := text;
    ghost var start: nat := |rest|;
    ghost var rep := false;
    InvInit(width, text);
    ReadsBackInit(width, text);
    while rest != []
      invariant Loop(width, text, result, captured, rest, charlen, colour, start, rep)
      decreases start, |rest|
    {
      result, captured, rest, charlen, colour, start, rep := Step(width, text, result, captured, rest, charlen, colour, start, rep);
    }
    LoopDone(width, text, result, captured, charlen, colour, start, rep);
    lines := result + [captured];
  }
}
