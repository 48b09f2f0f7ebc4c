/**
 * `helpers.delta(delta, width)` (build/compare-size.js): a size difference
 * as the report prints it. A growth is "+n" in red, no change is "=" and an
 * unknown difference "?" in grey, a shrink "-n" in green; the text is padded
 * on the left with spaces to `width` columns (`_.padStart`).
 */
module SizeDelta {
  import opened Wrappers
  import opened Strings

  /** The difference handed in: a whole number of bytes, or `undefined`/`NaN` when a size is missing. */
  datatype Change = Missing | NotANumber | Bytes(n: int)

  /** The `chalk` style the text is wrapped in. */
  datatype Colour = Green | Red | Grey

  datatype Styled = Styled(colour: Colour, text: string)

  /** JavaScript truthiness of the difference: `undefined`, `NaN` and 0 are falsy. */
  predicate Truthy(d: Change) {
    d.Bytes? && d.n != 0
  }

  /** `String(n)` for a whole number. */
  function NumberText(n: int): (s: string)
    ensures |s| >= 1 && s[0] != ' '
  {
    if n < 0 then "-" + Decimal(-n) else Decimal(n)
  }

  function Spaces(n: nat): (r: string)
    ensures |r| == n && forall i :: 0 <= i < n ==> r[i] == ' '
    decreases n
  {
    if n == 0 then [] else [' '] + Spaces(n - 1)
  }

  /** `_.padStart(s, width)`: spaces in front of `s` up to `width` characters; a longer `s` is kept whole. */
  function PadStart(s: string, width: int): (r: string)
  {
    if width > |s| then Spaces(width - |s|) + s else s
  }

  /** `delta(delta, width)`, following the source's three branches. */
  function Delta(d: Change, width: int): (r: Styled)
    ensures r.colour == Red <==> d.Bytes? && d.n > 0
    ensures r.colour == Green <==> d.Bytes? && d.n < 0
    ensures r.colour == Grey <==> !Truthy(d)
    ensures |r.text| >= width && |r.text| >= 1
    ensures |r.text| > width ==> r.text[0] != ' '
  {
    if d.Bytes? && d.n > 0 then
      Styled(Red, PadStart("+" + NumberText(d.n), width))
    else if !Truthy(d) then
      Styled(Grey, PadStart(if d == Bytes(0) then "=" else "?", width))
    else
      Styled(Green, PadStart(NumberText(d.n), width))
  }

  /** The text without its leading spaces. */
  function StripStart(s: string): (r: string)
    ensures r == [] || r[0] != ' '
    decreases |s|
  {
    if s != [] && s[0] == ' ' then StripStart(s[1..]) else s
  }

  lemma {:induction false} StripPadding(s: string, width: int)
    requires s != [] && s[0] != ' '
    ensures StripStart(PadStart(s, width)) == s
    decreases width
  {
    if width > |s| {
      var p := PadStart(s, width);
      assert p == [' '] + PadStart(s, width - 1) by {
        assert Spaces(width - |s|) == [' '] + Spaces(width - 1 - |s|);
      }
      assert p[1..] == PadStart(s, width - 1);
      StripPadding(s, width - 1);
    }
  }

  /** Reading a printed difference back: the number it shows, or None for "?". */
  function ReadDelta(s: string): Option<int>
  {
    if s == "=" then Some(0)
    else if |s| >= 2 && (s[0] == '+' || s[0] == '-') && ParseIndex(s[1..]).Some? then
      var v: int := ParseIndex(s[1..]).value;
      Some(if s[0] == '-' then -v else v)
    else None
  }

  /** The printed difference, padding removed, reads back as the number of bytes; a missing one as None. */
  lemma DeltaReadsBack(d: Change, width: int)
    ensures ReadDelta(StripStart(Delta(d, width).text)) == (if d.Bytes? then Some(d.n) else None)
    ensures !d.Bytes? ==> StripStart(Delta(d, width).text) == "?"
  {
    var shown :=
      if d.Bytes? && d.n > 0 then "+" + NumberText(d.n)
      else if !Truthy(d) then (if d == Bytes(0) then "=" else "?")
      else NumberText(d.n);
    assert Delta(d, width).text == PadStart(shown, width);
    StripPadding(shown, width);
    if d.Bytes? && d.n != 0 {
      var m := if d.n < 0 then -d.n else d.n;
      DecimalParses(m);
      assert shown == [if d.n < 0 then '-' else '+'] + Decimal(m);
      assert shown[1..] == Decimal(m);
    }
  }

  /** Padding never cuts: the unpadded text ends the printed text. */
  lemma PadStartKeeps(s: string, width: int)
    ensures var r := PadStart(s, width);
            |r| == (if width > |s| then width else |s|) && r[|r| - |s|..] == s
            && forall i :: 0 <= i < |r| - |s| ==> r[i] == ' '
  {
  }
}
