/**
 * String helpers shared by the models: decimal rendering of numbers and its
 * inverse (JavaScript's canonical numeric strings), `Array.prototype.join` and
 * `String.prototype.split` on a single-character separator, the character order
 * of the default `Array.prototype.sort`, and duplicate-freedom of sequences.
 */
module Strings {
  import opened Wrappers

  predicate IsDigit(c: char) {
    '0' <= c <= '9'
  }

  predicate AllDigits(s: string) {
    forall i :: 0 <= i < |s| ==> IsDigit(s[i])
  }

  function DigitChar(d: nat): (c: char)
    requires d < 10
    ensures IsDigit(c)
  {
    (('0' as int) + d) as char
  }

  function DigitValue(c: char): (d: nat)
    requires IsDigit(c)
    ensures d < 10 && DigitChar(d) == c
  {
    (c as int) - ('0' as int)
  }

  /** The decimal text of `n`, as `String(n)` writes a non-negative integer. */
  function Decimal(n: nat): (s: string)
    ensures |s| >= 1 && AllDigits(s)
    ensures IsCanonical(s)
    decreases n
  {
    if n < 10 then [DigitChar(n)] else Decimal(n / 10) + [DigitChar(n % 10)]
  }

  /** The number a string of digits denotes (leading zeros allowed). */
  function DigitsValue(s: string): nat
    requires AllDigits(s)
    decreases |s|
  {
    if s == [] then 0 else DigitsValue(s[..|s| - 1]) * 10 + DigitValue(s[|s| - 1])
  }

  /**
   * A canonical numeric string: what `String(k)` produces for a natural number
   * `k`, and so the only strings that name an array element in JavaScript.
   */
  predicate IsCanonical(s: string) {
    |s| >= 1 && AllDigits(s) && (s[0] == '0' ==> |s| == 1)
  }

  /** The array index a property name denotes, if it denotes one. */
  function ParseIndex(s: string): (r: Option<nat>)
    ensures r.Some? <==> IsCanonical(s)
  {
    if IsCanonical(s) then Some(DigitsValue(s)) else None
  }

  lemma {:induction false} DigitsValueOfDecimal(n: nat)
    ensures DigitsValue(Decimal(n)) == n
    decreases n
  {
    if n >= 10 {
      var p := Decimal(n / 10);
      assert (p + [DigitChar(n % 10)])[..|p|] == p;
      DigitsValueOfDecimal(n / 10);
    }
  }

  lemma {:induction false} DigitsValuePositive(s: string)
    requires |s| >= 1 && AllDigits(s) && s[0] != '0'
    ensures DigitsValue(s) >= 1
    decreases |s|
  {
    if |s| > 1 {
      DigitsValuePositive(s[..|s| - 1]);
    }
  }

  /** Rendering then parsing an index gives the index back. */
  lemma DecimalParses(n: nat)
    ensures ParseIndex(Decimal(n)) == Some(n)
  {
    DigitsValueOfDecimal(n);
  }

  /** A canonical numeric string is the rendering of the number it denotes. */
  lemma {:induction false} ParseIndexRenders(s: string)
    requires IsCanonical(s)
    ensures Decimal(ParseIndex(s).value) == s
    decreases |s|
  {
    if |s| > 1 {
      var p := s[..|s| - 1];
      assert IsCanonical(p);
      DigitsValuePositive(p);
      ParseIndexRenders(p);
      assert s == p + [s[|s| - 1]];
    }
  }

  /** `parts.join(sep)`: the parts with one separator between neighbours. */
  function Join(parts: seq<string>, sep: char): (s: string)
    decreases |parts|
  {
    if parts == [] then ""
    else if |parts| == 1 then parts[0]
    else Join(parts[..|parts| - 1], sep) + [sep] + parts[|parts| - 1]
  }

  /** `s.split(sep)`: the maximal separator-free pieces, always at least one. */
  function Split(s: string, sep: char): (parts: seq<string>)
    ensures |parts| >= 1
    ensures forall i :: 0 <= i < |parts| ==> sep !in parts[i]
    decreases |s|
  {
    if s == [] then [""]
    else if s[|s| - 1] == sep then Split(s[..|s| - 1], sep) + [""]
    else
      var init := Split(s[..|s| - 1], sep);
      init[..|init| - 1] + [init[|init| - 1] + [s[|s| - 1]]]
  }

  /** Joining what `split` produced gives the original string back. */
  lemma {:induction false} JoinSplit(s: string, sep: char)
    ensures Join(Split(s, sep), sep) == s
    decreases |s|
  {
    if s != [] {
      var init := Split(s[..|s| - 1], sep);
      JoinSplit(s[..|s| - 1], sep);
      if s[|s| - 1] == sep {
        assert (init + [""])[..|init|] == init;
      } else {
        var last := init[|init| - 1] + [s[|s| - 1]];
        var parts := init[..|init| - 1] + [last];
        assert parts[..|parts| - 1] == init[..|init| - 1];
        if |init| == 1 {
          assert s == s[..|s| - 1] + [s[|s| - 1]];
        } else {
          assert init[..|init| - 1][..|init| - 2] == init[..|init| - 2];
          assert s == s[..|s| - 1] + [s[|s| - 1]];
        }
      }
    }
  }

  /** A string without the separator splits into itself. */
  lemma {:induction false} SplitNoSep(s: string, sep: char)
    requires sep !in s
    ensures Split(s, sep) == [s]
    decreases |s|
  {
    if s != [] {
      assert sep !in s[..|s| - 1] by {
        forall c | c in s[..|s| - 1] ensures c in s { }
      }
      SplitNoSep(s[..|s| - 1], sep);
      assert s == s[..|s| - 1] + [s[|s| - 1]];
    }
  }

  /** One more character at the end: a separator opens an empty piece, any other character extends the last piece. */
  lemma SplitSnoc(s: string, sep: char, c: char)
    ensures var init := Split(s, sep);
            Split(s + [c], sep) == if c == sep then init + [""] else init[..|init| - 1] + [init[|init| - 1] + [c]]
  {
    assert (s + [c])[..|s|] == s;
  }

  /** Splitting `f`, a separator and `t` gives the pieces of `f` and then the pieces of `t`. */
  lemma {:induction false} SplitConcat(f: string, sep: char, t: string)
    ensures Split(f + [sep] + t, sep) == Split(f, sep) + Split(t, sep)
    decreases |t|
  {
    if t == [] {
      assert f + [sep] + t == f + [sep];
      SplitSnoc(f, sep, sep);
    } else {
      var t', c := t[..|t| - 1], t[|t| - 1];
      var u := f + [sep] + t';
      assert t == t' + [c];
      assert f + [sep] + t == u + [c];
      SplitConcat(f, sep, t');
      SplitSnoc(u, sep, c);
      SplitSnoc(t', sep, c);
      SplitLast(u, sep, c, Split(f, sep), Split(t', sep));
    }
  }

  /** The step of SplitConcat, on the pieces alone. */
  lemma SplitLast(u: string, sep: char, c: char, a: seq<string>, b: seq<string>)
    requires |b| >= 1 && Split(u, sep) == a + b
    ensures (if c == sep then (a + b) + [""] else (a + b)[..|a + b| - 1] + [(a + b)[|a + b| - 1] + [c]])
            == a + (if c == sep then b + [""] else b[..|b| - 1] + [b[|b| - 1] + [c]])
  {
    if c != sep {
      assert (a + b)[..|a + b| - 1] == a + b[..|b| - 1];
    }
  }

  /** Joining k leading parts, the separator and the remaining parts gives the whole join. */
  lemma {:induction false} JoinSplitAt(parts: seq<string>, sep: char, k: nat)
    requires 0 < k < |parts|
    ensures Join(parts[..k], sep) + [sep] + Join(parts[k..], sep) == Join(parts, sep)
    decreases |parts|
  {
    if k == |parts| - 1 {
      assert parts[k..] == [parts[k]];
    } else {
      var init := parts[..|parts| - 1];
      JoinSplitAt(init, sep, k);
      assert init[..k] == parts[..k];
      assert parts[k..][..|parts[k..]| - 1] == init[k..];
    }
  }

  /** The order of the default `Array.prototype.sort`: by character, a prefix first. */
  predicate LexLess(a: string, b: string)
    decreases |a|
  {
    if a == [] then b != []
    else b != [] && (a[0] < b[0] || (a[0] == b[0] && LexLess(a[1..], b[1..])))
  }

  lemma {:induction false} LexLessIrreflexive(a: string)
    ensures !LexLess(a, a)
    decreases |a|
  {
    if a != [] { LexLessIrreflexive(a[1..]); }
  }

  lemma {:induction false} LexLessTotal(a: string, b: string)
    ensures a == b || LexLess(a, b) || LexLess(b, a)
    decreases |a|
  {
    if a != [] && b != [] && a[0] == b[0] {
      LexLessTotal(a[1..], b[1..]);
      if a[1..] == b[1..] {
        assert a == [a[0]] + a[1..] && b == [b[0]] + b[1..];
      }
    }
  }

  lemma {:induction false} LexLessTransitive(a: string, b: string, c: string)
    requires LexLess(a, b) && LexLess(b, c)
    ensures LexLess(a, c)
    decreases |a|
  {
    if a != [] && a[0] == b[0] && b[0] == c[0] {
      LexLessTransitive(a[1..], b[1..], c[1..]);
    }
  }

  predicate NoDup<T(==)>(s: seq<T>) {
    forall i, j :: 0 <= i < j < |s| ==> s[i] != s[j]
  }
}
