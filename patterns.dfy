/**
 * `processPatterns(patterns, fn)` (build/compare-size.js): the patterns are
 * flattened one level and applied left to right; a pattern starting with "!"
 * removes the files that the rest of it matches, any other pattern adds its
 * matches. `fn` (a glob over the file system in the source) is a parameter.
 */
module Patterns {
  import opened Strings

  /** An element of the `patterns` array: a pattern, or an array of patterns. */
  datatype PatternItem = Single(p: string) | Nested(ps: seq<string>)

  /** `_.flatten(patterns)`: one level of nesting is removed. */
  function Flatten(items: seq<PatternItem>): (r: seq<string>)
    ensures |items| == 0 ==> r == []
    decreases |items|
  {
    if items == [] then []
    else
      (match items[0] case Single(p) => [p] case Nested(ps) => ps) + Flatten(items[1..])
  }

  /** A single item contributes its own pattern, or the patterns of its array, in order. */
  lemma FlattenOne(item: PatternItem)
    ensures Flatten([item]) == match item case Single(p) => [p] case Nested(ps) => ps
  {
    assert [item][1..] == [];
  }

  /** Flattening distributes over concatenation of the item lists. */
  lemma {:induction false} FlattenAppend(a: seq<PatternItem>, b: seq<PatternItem>)
    ensures Flatten(a + b) == Flatten(a) + Flatten(b)
    decreases |a|
  {
    if a != [] {
      assert (a + b)[0] == a[0] && (a + b)[1..] == a[1..] + b;
      FlattenAppend(a[1..], b);
    } else {
      assert a + b == b;
    }
  }

  lemma {:induction false} FlattenSingles(ps: seq<string>)
    ensures Flatten(seq(|ps|, i requires 0 <= i < |ps| => Single(ps[i]))) == ps
    decreases |ps|
  {
    var items := seq(|ps|, i requires 0 <= i < |ps| => Single(ps[i]));
    if ps != [] {
      assert items[1..] == seq(|ps[1..]|, i requires 0 <= i < |ps[1..]| => Single(ps[1..][i]));
      FlattenSingles(ps[1..]);
      assert ps == [ps[0]] + ps[1..];
    }
  }

  /** `pattern.indexOf("!") === 0`. */
  predicate IsExclusion(p: string) {
    |p| > 0 && p[0] == '!'
  }

  /** The pattern handed to `fn`: without its leading "!" when it has one. */
  function Glob(p: string): (g: string)
    ensures IsExclusion(p) ==> [p[0]] + g == p
    ensures !IsExclusion(p) ==> g == p
  {
    if IsExclusion(p) then p[1..] else p
  }

  // ----- lodash set operations on arrays ---------------------------------------

  /** The elements of `s` without repetitions, each where it first occurs. */
  function Dedup(s: seq<string>): (r: seq<string>)
    ensures NoDup(r)
    ensures forall x :: x in r <==> x in s
    decreases |s|
  {
    if s == [] then []
    else
      var d := Dedup(s[..|s| - 1]);
      assert forall x :: x in s <==> x in s[..|s| - 1] || x == s[|s| - 1];
      if s[|s| - 1] in d then d else d + [s[|s| - 1]]
  }

  lemma DedupStep(s: seq<string>, x: string)
    ensures |Dedup(s)| <= |Dedup(s + [x])| && Dedup(s + [x])[..|Dedup(s)|] == Dedup(s)
  {
    assert (s + [x])[..|s|] == s;
  }

  lemma {:induction false} DedupKeepsPrefix(a: seq<string>, b: seq<string>)
    ensures |Dedup(a)| <= |Dedup(a + b)| && Dedup(a + b)[..|Dedup(a)|] == Dedup(a)
    decreases |b|
  {
    if b == [] {
      assert a + b == a;
    } else {
      var b' := b[..|b| - 1];
      assert a + b == (a + b') + [b[|b| - 1]];
      DedupKeepsPrefix(a, b');
      DedupStep(a + b', b[|b| - 1]);
      var d, d', e := Dedup(a), Dedup(a + b'), Dedup(a + b);
      assert e[..|d|] == e[..|d'|][..|d|];
    }
  }

  lemma {:induction false} DedupOfNoDup(a: seq<string>)
    requires NoDup(a)
    ensures Dedup(a) == a
    decreases |a|
  {
    if a != [] {
      var a' := a[..|a| - 1];
      DedupOfNoDup(a');
      assert a[|a| - 1] !in a' by {
        forall i | 0 <= i < |a'| ensures a'[i] != a[|a| - 1] { assert a'[i] == a[i]; }
      }
      assert a == a' + [a[|a| - 1]];
    }
  }

  /** `_.union(a, b)`: the distinct elements of `a` and then of `b`, in order of first occurrence. */
  function Union(a: seq<string>, b: seq<string>): (r: seq<string>)
    ensures NoDup(r)
    ensures forall x :: x in r <==> x in a || x in b
  {
    Dedup(a + b)
  }

  /** Adding files keeps the files already there, in their order, at the front. */
  lemma UnionKeepsOrder(a: seq<string>, b: seq<string>)
    requires NoDup(a)
    ensures |a| <= |Union(a, b)| && Union(a, b)[..|a|] == a
  {
    DedupKeepsPrefix(a, b);
    DedupOfNoDup(a);
  }

  /** `_.difference(a, b)`: the elements of `a` not in `b`, in order. */
  function Difference(a: seq<string>, b: seq<string>): (r: seq<string>)
    ensures forall x :: x in r <==> x in a && x !in b
    ensures NoDup(a) ==> NoDup(r)
    decreases |a|
  {
    if a == [] then []
    else
      var d := Difference(a[..|a| - 1], b);
      var last := a[|a| - 1];
      assert forall x :: x in a <==> x in a[..|a| - 1] || x == last;
      ghost var a' := a[..|a| - 1];
      assert NoDup(a) ==> NoDup(a') && last !in a' by {
        if NoDup(a) {
          forall i | 0 <= i < |a'| ensures a'[i] != last { assert a'[i] == a[i]; }
        }
      }
      if last in b then d else d + [last]
  }

  // ----- The fold and its meaning ---------------------------------------------------

  /** One pattern applied to the files selected so far. */
  function Apply(result: seq<string>, pattern: string, matches: string -> seq<string>): seq<string>
  {
    if IsExclusion(pattern) then Difference(result, matches(Glob(pattern)))
    else Union(result, matches(Glob(pattern)))
  }

  /** The flattened patterns applied left to right to an empty selection. */
  function Fold(ps: seq<string>, matches: string -> seq<string>): (r: seq<string>)
    ensures NoDup(r)
    decreases |ps|
  {
    if ps == [] then [] else Apply(Fold(ps[..|ps| - 1], matches), ps[|ps| - 1], matches)
  }

  /** No exclusion pattern after position `i` matches `f`. */
  ghost predicate Survives(ps: seq<string>, matches: string -> seq<string>, f: string, i: int) {
    forall j :: 0 <= j < |ps| && i < j && IsExclusion(ps[j]) ==> f !in matches(Glob(ps[j]))
  }

  /** The inclusion pattern at `i` matches `f` and no later exclusion pattern removes it. */
  ghost predicate Picks(ps: seq<string>, matches: string -> seq<string>, f: string, i: int) {
    0 <= i < |ps| && !IsExclusion(ps[i]) && f in matches(ps[i]) && Survives(ps, matches, f, i)
  }

  /**
   * The reference meaning: `f` is selected when some inclusion pattern matches
   * it and no exclusion pattern after that one matches it.
   */
  ghost predicate Selected(ps: seq<string>, matches: string -> seq<string>, f: string) {
    exists i :: Picks(ps, matches, f, i)
  }

  lemma PicksSnoc(ps: seq<string>, p: string, matches: string -> seq<string>, f: string, i: int)
    requires 0 <= i < |ps|
    ensures Picks(ps + [p], matches, f, i) <==>
            Picks(ps, matches, f, i) && (IsExclusion(p) ==> f !in matches(Glob(p)))
  {
    var qs := ps + [p];
    assert qs[i] == ps[i] && qs[|ps|] == p;
    if Picks(ps, matches, f, i) && (IsExclusion(p) ==> f !in matches(Glob(p))) {
      forall j | i < j < |qs| && IsExclusion(qs[j]) ensures f !in matches(Glob(qs[j])) {
        if j < |ps| { assert qs[j] == ps[j]; }
      }
    }
    if Picks(qs, matches, f, i) {
      forall j | i < j < |ps| && IsExclusion(ps[j]) ensures f !in matches(Glob(ps[j])) {
        assert qs[j] == ps[j];
      }
    }
  }

  lemma PicksLast(ps: seq<string>, p: string, matches: string -> seq<string>, f: string)
    ensures Picks(ps + [p], matches, f, |ps|) <==> !IsExclusion(p) && f in matches(p)
  {
    assert (ps + [p])[|ps|] == p;
  }

  lemma {:induction false} FoldSelects(ps: seq<string>, matches: string -> seq<string>, f: string)
    ensures f in Fold(ps, matches) <==> Selected(ps, matches, f)
    decreases |ps|
  {
    if ps != [] {
      var ps' := ps[..|ps| - 1];
      var p := ps[|ps| - 1];
      assert ps == ps' + [p];
      FoldSelects(ps', matches, f);
      PicksLast(ps', p, matches, f);
      if f in Fold(ps, matches) {
        if !IsExclusion(p) && f in matches(p) {
          assert Picks(ps, matches, f, |ps'|);
        } else {
          var i :| Picks(ps', matches, f, i);
          PicksSnoc(ps', p, matches, f, i);
        }
      }
      if Selected(ps, matches, f) {
        var i :| Picks(ps, matches, f, i);
        if i < |ps'| {
          PicksSnoc(ps', p, matches, f, i);
          assert Selected(ps', matches, f);
        }
      }
    }
  }

  /** An inclusion pattern keeps what was selected before, in order, and adds its matches after it. */
  lemma FoldInclusionAppends(ps: seq<string>, p: string, matches: string -> seq<string>)
    requires !IsExclusion(p)
    ensures var before := Fold(ps, matches);
            var after := Fold(ps + [p], matches);
            |before| <= |after| && after[..|before|] == before
            && forall f :: f in after <==> f in before || f in matches(p)
  {
    assert (ps + [p])[..|ps|] == ps;
    UnionKeepsOrder(Fold(ps, matches), matches(p));
  }

  /** `processPatterns(patterns, fn)`, with `fn` as `matches`. */
  method ProcessPatterns(patterns: seq<PatternItem>, matches: string -> seq<string>) returns (result: seq<string>)
    ensures result == Fold(Flatten(patterns), matches)
    ensures NoDup(result)
    ensures forall f :: f in result <==> Selected(Flatten(patterns), matches, f)
  {
    var ps := Flatten(patterns);
    result := [];
    var i := 0;
    while i < |ps|
      invariant 0 <= i <= |ps|
      invariant result == Fold(ps[..i], matches)
    {
      var pattern := ps[i];
      var exclusion := |pattern| > 0 && pattern[0] == '!';
      if exclusion {
        pattern := pattern[1..];
      }
      var found := matches(pattern);
      if exclusion {
        result := Difference(result, found);
      } else {
        result := Union(result, found);
      }
      assert ps[..i + 1][..i] == ps[..i];
      i := i + 1;
    }
    assert ps[..i] == ps;
    forall f ensures f in result <==> Selected(ps, matches, f) {
      FoldSelects(ps, matches, f);
    }
  }
}
