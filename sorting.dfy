/**
 * Sorting a duplicate-free sequence by a comparator that is a strict total
 * order on its elements. `Array.prototype.sort` leaves the algorithm to the
 * engine; for such a comparator every algorithm gives the same result
 * (`SortedUnique`), so an insertion sort stands for it.
 */
module Sorting {
  import opened Strings

  /** `less` is irreflexive, transitive and total on the elements of `s`. */
  ghost predicate StrictTotalOn<T>(less: (T, T) -> bool, s: seq<T>) {
    && (forall a :: a in s ==> !less(a, a))
    && (forall a, b :: a in s && b in s ==> a == b || less(a, b) || less(b, a))
    && (forall a, b, c :: a in s && b in s && c in s && less(a, b) && less(b, c) ==> less(a, c))
  }

  predicate SortedBy<T>(less: (T, T) -> bool, s: seq<T>) {
    forall i, j :: 0 <= i < j < |s| ==> less(s[i], s[j])
  }

  lemma StrictTotalOnSub<T>(less: (T, T) -> bool, s: seq<T>, t: seq<T>)
    requires StrictTotalOn(less, s)
    requires forall a :: a in t ==> a in s
    ensures StrictTotalOn(less, t)
  {
  }

  /** Places `x` in front of the first element it precedes. */
  function Insert<T(==)>(less: (T, T) -> bool, x: T, s: seq<T>): (r: seq<T>)
    requires StrictTotalOn(less, s + [x]) && SortedBy(less, s) && x !in s
    ensures multiset(r) == multiset(s) + multiset{x}
    ensures SortedBy(less, r)
    decreases |s|
  {
    if s == [] then [x]
    else if less(x, s[0]) then
      InsertBelow(less, x, s);
      [x] + s
    else
      InsertPrep(less, x, s);
      var t := Insert(less, x, s[1..]);
      InsertAbove(less, x, s, t);
      ConsSorted(less, s[0], t);
      assert s == [s[0]] + s[1..];
      [s[0]] + t
  }

  /** `x` below the head of `s` is below all of `s`. */
  lemma InsertBelow<T>(less: (T, T) -> bool, x: T, s: seq<T>)
    requires StrictTotalOn(less, s + [x]) && SortedBy(less, s) && s != [] && less(x, s[0])
    ensures SortedBy(less, [x] + s)
  {
    assert forall j :: 0 < j < |s| ==> less(s[0], s[j]);
    assert forall j :: 0 <= j < |s| ==> s[j] in s + [x];
    ConsSorted(less, x, s);
  }

  /** The recursive call's precondition: `x` goes into the tail. */
  lemma InsertPrep<T>(less: (T, T) -> bool, x: T, s: seq<T>)
    requires StrictTotalOn(less, s + [x]) && SortedBy(less, s) && x !in s && s != []
    ensures StrictTotalOn(less, s[1..] + [x]) && SortedBy(less, s[1..]) && x !in s[1..]
    ensures less(s[0], x) || less(x, s[0])
  {
    assert s == [s[0]] + s[1..];
    assert s[0] in s + [x] && x in s + [x];
    StrictTotalOnSub(less, s + [x], s[1..] + [x]);
  }

  lemma ConsSorted<T>(less: (T, T) -> bool, h: T, t: seq<T>)
    requires SortedBy(less, t) && forall j :: 0 <= j < |t| ==> less(h, t[j])
    ensures SortedBy(less, [h] + t)
  {
  }

  lemma InsertAbove<T>(less: (T, T) -> bool, x: T, s: seq<T>, t: seq<T>)
    requires StrictTotalOn(less, s + [x]) && SortedBy(less, s) && s != []
    requires less(s[0], x)
    requires multiset(t) == multiset(s[1..]) + multiset{x}
    ensures forall j :: 0 <= j < |t| ==> less(s[0], t[j])
  {
    forall j | 0 <= j < |t| ensures less(s[0], t[j]) {
      assert t[j] in multiset(t);
      if t[j] != x {
        assert t[j] in multiset(s[1..]);
        assert t[j] in s[1..];
        var k :| 0 <= k < |s[1..]| && s[1..][k] == t[j];
        assert s[k + 1] == t[j];
      }
    }
  }

  lemma SortPrep<T>(less: (T, T) -> bool, s: seq<T>, t: seq<T>)
    requires s != [] && NoDup(s) && StrictTotalOn(less, s)
    requires multiset(t) == multiset(s[1..])
    ensures s[0] !in t
    ensures StrictTotalOn(less, t + [s[0]])
  {
    assert s[0] !in s[1..];
    forall a | a in t ensures a in s[1..] {
      assert a in multiset(t);
    }
    forall a | a in t + [s[0]] ensures a in s {
      if a in t {
        assert a in s[1..];
      }
    }
    StrictTotalOnSub(less, s, t + [s[0]]);
  }

  /** The elements of `s`, ordered by `less`. */
  function Sort<T(==)>(less: (T, T) -> bool, s: seq<T>): (r: seq<T>)
    requires StrictTotalOn(less, s) && NoDup(s)
    ensures multiset(r) == multiset(s)
    ensures SortedBy(less, r)
    decreases |s|
  {
    if s == [] then []
    else
      StrictTotalOnSub(less, s, s[1..]);
      var t := Sort(less, s[1..]);
      SortPrep(less, s, t);
      assert s == [s[0]] + s[1..];
      Insert(less, s[0], t)
  }

  lemma SortedHeads<T>(less: (T, T) -> bool, a: seq<T>, b: seq<T>)
    requires StrictTotalOn(less, a)
    requires SortedBy(less, a) && SortedBy(less, b)
    requires multiset(a) == multiset(b) && a != []
    ensures b != [] && a[0] == b[0]
  {
    assert a[0] in multiset(b) && a[0] in b;
    assert b[0] in multiset(a) && b[0] in a;
    if a[0] != b[0] {
      // a[0] precedes b[0] in a and b[0] precedes a[0] in b
      assert false;
    }
  }

  /** Two sequences sorted by the same strict total order with the same elements are equal. */
  lemma {:induction false} SortedUnique<T>(less: (T, T) -> bool, a: seq<T>, b: seq<T>)
    requires StrictTotalOn(less, a)
    requires SortedBy(less, a) && SortedBy(less, b)
    requires multiset(a) == multiset(b)
    ensures a == b
    decreases |a|
  {
    if a == [] {
      assert |b| == |multiset(b)| == 0;
    } else {
      SortedHeads(less, a, b);
      DropHead(less, a);
      DropHead(less, b);
      StrictTotalOnDrop(less, a);
      SortedUnique(less, a[1..], b[1..]);
      SameHeadSameTail(a, b);
    }
  }

  lemma StrictTotalOnDrop<T>(less: (T, T) -> bool, s: seq<T>)
    requires s != [] && StrictTotalOn(less, s)
    ensures StrictTotalOn(less, s[1..])
  {
    StrictTotalOnSub(less, s, s[1..]);
  }

  lemma SameHeadSameTail<T>(a: seq<T>, b: seq<T>)
    requires a != [] && b != [] && a[0] == b[0] && a[1..] == b[1..]
    ensures a == b
  {
    assert a == [a[0]] + a[1..] && b == [b[0]] + b[1..];
  }

  /** The tail of a sorted sequence is sorted and holds all but its head. */
  lemma DropHead<T>(less: (T, T) -> bool, s: seq<T>)
    requires s != [] && SortedBy(less, s)
    ensures multiset(s[1..]) == multiset(s) - multiset{s[0]}
    ensures SortedBy(less, s[1..])
  {
    assert s == [s[0]] + s[1..];
  }

  lemma MultisetTail<T>(r: seq<T>, t: seq<T>)
    requires r != [] && multiset(t) + multiset{r[0]} == multiset(r)
    ensures multiset(t) == multiset(r[1..])
  {
    assert r == [r[0]] + r[1..];
    assert multiset(r) == multiset{r[0]} + multiset(r[1..]);
    assert multiset(t) == multiset(r) - multiset{r[0]};
  }

  lemma StrictTotalOnTail<T>(less: (T, T) -> bool, s: seq<T>, r: seq<T>)
    requires StrictTotalOn(less, s) && multiset(r) == multiset(s) && r != []
    ensures StrictTotalOn(less, r[1..])
  {
    forall a | a in r[1..] ensures a in s {
      assert a in r;
      assert a in multiset(r);
    }
    StrictTotalOnSub(less, s, r[1..]);
  }

  /** A sorted rearrangement of `s` without its least element is the tail of `Sort(less, s)`. */
  lemma SortedTailUnique<T>(less: (T, T) -> bool, s: seq<T>, t: seq<T>)
    requires StrictTotalOn(less, s) && NoDup(s)
    requires |s| > 0 && multiset(t) + multiset{Sort(less, s)[0]} == multiset(s)
    requires SortedBy(less, t)
    ensures t == Sort(less, s)[1..]
  {
    var r := Sort(less, s);
    MultisetTail(r, t);
    StrictTotalOnTail(less, s, r);
    SortedUnique(less, r[1..], t);
  }

  /** The default `Array.prototype.sort` order on strings is a strict total order. */
  lemma LexLessStrictTotal(s: seq<string>)
    ensures StrictTotalOn(LexLess, s)
  {
    forall a | a in s ensures !LexLess(a, a) { LexLessIrreflexive(a); }
    forall a, b | a in s && b in s ensures a == b || LexLess(a, b) || LexLess(b, a) { LexLessTotal(a, b); }
    forall a, b, c | a in s && b in s && c in s && LexLess(a, b) && LexLess(b, c) ensures LexLess(a, c) {
      LexLessTransitive(a, b, c);
    }
  }
}
