/**
 * `helpers.sorted_labels(cache)` (build/compare-size.js): the keys of the
 * size cache in report order. The metadata key "" sorts first and is then
 * dropped; branch tips come before other labels, labels starting with a
 * space (such as " last run") come last within each of these groups, and
 * ties keep the order in which the labels were added.
 */
module Labels {
  import opened Strings
  import opened Sorting

  /** `keys.indexOf(x)`: the first index of `x`, or -1. */
  function IndexOf(keys: seq<string>, x: string): (r: int)
    ensures -1 <= r < |keys|
    ensures r == -1 <==> x !in keys
    ensures r >= 0 ==> keys[r] == x && forall i :: 0 <= i < r ==> keys[i] != x
    decreases |keys|
  {
    if keys == [] then -1
    else if keys[0] == x then 0
    else
      var r := IndexOf(keys[1..], x);
      if r == -1 then -1 else r + 1
  }

  /** `c ? 1 : 0`. */
  function Flag(c: bool): int {
    if c then 1 else 0
  }

  predicate StartsWithSpace(a: string) {
    |a| > 0 && a[0] == ' '
  }

  /**
   * The comparator, as the source writes it: the first non-zero difference of
   * "is not the metadata key", "is not a tip", "starts with a space" and the
   * index among the keys.
   */
  function Compare(keys: seq<string>, tips: set<string>, a: string, b: string): (d: int)
    ensures a == b ==> d == 0
  {
    var byMeta := Flag(a != "") - Flag(b != "");
    if byMeta != 0 then byMeta
    else
      var byTip := Flag(a !in tips) - Flag(b !in tips);
      if byTip != 0 then byTip
      else
        var bySpace := Flag(StartsWithSpace(a)) - Flag(StartsWithSpace(b));
        if bySpace != 0 then bySpace else IndexOf(keys, a) - IndexOf(keys, b)
  }

  /** `a` sorts before `b`. */
  function Before(keys: seq<string>, tips: set<string>): (string, string) -> bool {
    (a, b) => Compare(keys, tips, a, b) < 0
  }

  /** Compare is antisymmetric: it orders `a` before `b` exactly when it orders `b` after `a`. */
  lemma CompareAntisymmetric(keys: seq<string>, tips: set<string>, a: string, b: string)
    ensures Compare(keys, tips, a, b) < 0 <==> Compare(keys, tips, b, a) > 0
  {
  }

  /** Two different keys never compare equal: they differ at least in their index. */
  lemma CompareTotal(keys: seq<string>, tips: set<string>, a: string, b: string)
    requires a in keys && b in keys && a != b
    ensures Compare(keys, tips, a, b) != 0
  {
    assert IndexOf(keys, a) != IndexOf(keys, b);
  }

  /** The comparator orders consistently: before-before is before. */
  lemma CompareTransitive(keys: seq<string>, tips: set<string>, a: string, b: string, c: string)
    requires Compare(keys, tips, a, b) < 0 && Compare(keys, tips, b, c) < 0
    ensures Compare(keys, tips, a, c) < 0
  {
  }

  /** On duplicate-free keys the comparator is a strict total order, so the sort is well defined. */
  lemma BeforeIsStrictTotal(keys: seq<string>, tips: set<string>)
    requires NoDup(keys)
    ensures StrictTotalOn(Before(keys, tips), keys)
  {
    var less := Before(keys, tips);
    forall a, b | a in keys && b in keys ensures a == b || less(a, b) || less(b, a) {
      if a != b {
        CompareTotal(keys, tips, a, b);
        CompareAntisymmetric(keys, tips, b, a);
      }
    }
    forall a, b, c | a in keys && b in keys && c in keys && less(a, b) && less(b, c) ensures less(a, c) {
      CompareTransitive(keys, tips, a, b, c);
    }
  }

  /** `Object.keys(cache).sort(compare).slice(1)`, with the cache's keys in insertion order. */
  function SortedLabels(keys: seq<string>, tips: set<string>): (r: seq<string>)
    requires NoDup(keys) && "" in keys
    ensures "" !in r
    ensures multiset(r) + multiset{""} == multiset(keys)
    ensures SortedBy(Before(keys, tips), r)
  {
    BeforeIsStrictTotal(keys, tips);
    var sorted := Sort(Before(keys, tips), keys);
    MetaFirst(keys, tips, sorted);
    sorted[1..]
  }

  /** The metadata key sorts first and occurs once. */
  lemma MetaFirst(keys: seq<string>, tips: set<string>, sorted: seq<string>)
    requires "" in keys && multiset(sorted) == multiset(keys)
    requires SortedBy(Before(keys, tips), sorted)
    ensures sorted != [] && sorted[0] == "" && "" !in sorted[1..]
    ensures multiset(sorted[1..]) + multiset{""} == multiset(keys)
  {
    assert "" in multiset(sorted);
    var k :| 0 <= k < |sorted| && sorted[k] == "";
    assert sorted == [sorted[0]] + sorted[1..];
    forall i | 1 <= i < |sorted| ensures sorted[i] != "" {
      assert Before(keys, tips)(sorted[0], sorted[i]);
    }
  }

  /** Every engine's sort gives this result: it is the only sorted rearrangement of the keys. */
  lemma SortedLabelsUnique(keys: seq<string>, tips: set<string>, other: seq<string>)
    requires NoDup(keys) && "" in keys
    requires "" !in other && multiset(other) + multiset{""} == multiset(keys)
    requires SortedBy(Before(keys, tips), other)
    ensures other == SortedLabels(keys, tips)
  {
    BeforeIsStrictTotal(keys, tips);
    MetaFirst(keys, tips, Sort(Before(keys, tips), keys));
    SortedTailUnique(Before(keys, tips), keys, other);
  }

  /** Branch tips come before the other labels. */
  lemma TipsFirst(keys: seq<string>, tips: set<string>, i: nat, j: nat)
    requires NoDup(keys) && "" in keys
    requires i < j < |SortedLabels(keys, tips)|
    requires SortedLabels(keys, tips)[j] in tips
    ensures SortedLabels(keys, tips)[i] in tips
  {
    var r := SortedLabels(keys, tips);
    assert Before(keys, tips)(r[i], r[j]);
  }

  /** Within the tips, and within the other labels, labels starting with a space come last. */
  lemma SpaceLabelsLast(keys: seq<string>, tips: set<string>, i: nat, j: nat)
    requires NoDup(keys) && "" in keys
    requires i < j < |SortedLabels(keys, tips)|
    requires var r := SortedLabels(keys, tips);
             (r[i] in tips <==> r[j] in tips) && StartsWithSpace(r[i])
    ensures StartsWithSpace(SortedLabels(keys, tips)[j])
  {
    var r := SortedLabels(keys, tips);
    assert Before(keys, tips)(r[i], r[j]);
  }

  /** Labels that agree on both of the above keep the order in which they were added. */
  lemma TiesKeepInsertionOrder(keys: seq<string>, tips: set<string>, i: nat, j: nat)
    requires NoDup(keys) && "" in keys
    requires i < j < |SortedLabels(keys, tips)|
    requires var r := SortedLabels(keys, tips);
             (r[i] in tips <==> r[j] in tips) && (StartsWithSpace(r[i]) <==> StartsWithSpace(r[j]))
    ensures IndexOf(keys, SortedLabels(keys, tips)[i]) < IndexOf(keys, SortedLabels(keys, tips)[j])
  {
    var r := SortedLabels(keys, tips);
    assert Before(keys, tips)(r[i], r[j]);
    assert r[i] != "" && r[j] != "";
  }

  /** A small cache: one tip, a user label and the last run, in the order they were added. */
  const ExampleKeys: seq<string> := ["", " last run", "dev", "main"]
  const ExampleTips: set<string> := {"main"}

  lemma ExampleComparisons()
    ensures Compare(ExampleKeys, ExampleTips, "main", "dev") < 0
    ensures Compare(ExampleKeys, ExampleTips, "dev", " last run") < 0
    ensures Compare(ExampleKeys, ExampleTips, "main", " last run") < 0
  {
    assert IndexOf(ExampleKeys, "dev") == 2 && IndexOf(ExampleKeys, " last run") == 1;
    assert StartsWithSpace(" last run") && !StartsWithSpace("dev") && !StartsWithSpace("main");
  }

  lemma ExampleSorted()
    ensures SortedBy(Before(ExampleKeys, ExampleTips), ["main", "dev", " last run"])
  {
    ExampleComparisons();
  }

  /** The tip first, then the user label, then the last run; the metadata key is dropped. */
  lemma SortedLabelsExample()
    ensures SortedLabels(ExampleKeys, ExampleTips) == ["main", "dev", " last run"]
  {
    var expected := ["main", "dev", " last run"];
    assert NoDup(ExampleKeys);
    assert multiset(expected) + multiset{""} == multiset(ExampleKeys);
    ExampleSorted();
    SortedLabelsUnique(ExampleKeys, ExampleTips, expected);
  }
}
