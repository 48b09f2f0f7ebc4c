/**
 * The available-bundle lookup (src/bundle/lookup.js). The Cldr class keeps a
 * table from a minimised language id to the name of a loaded bundle, and a
 * queue of bundle names loaded since the last lookup. A lookup first drains the
 * queue into the table, then reads the table.
 */
module BundleLookup {
  import opened Wrappers
  import opened Strings

  /**
   * The subtag functions the lookup calls but does not define (subtags,
   * likely subtags, remove likely subtags) and `Cldr.localeSep`.
   */
  datatype Subtagger = Subtagger(
    subtags: string -> seq<string>,
    likelySubtags: seq<string> -> seq<string>,
    removeLikelySubtags: seq<string> -> seq<string>,
    localeSep: char)

  /** The minimised language id of a bundle name: the table key it is stored under. */
  function MinBundle(t: Subtagger, bundle: string): string {
    Join(t.removeLikelySubtags(t.likelySubtags(t.subtags(bundle))), t.localeSep)
  }

  /**
   * `availableBundleMapQueue[key]`: the guard indexes the queue ARRAY with a
   * locale string, so it finds an element only when the key is a canonical
   * array index below the queue's length.
   */
  function QueueSlot(queue: seq<string>, key: string): (r: Option<string>)
    ensures !IsCanonical(key) ==> r == None
    ensures forall k: nat :: key == Decimal(k) ==> r == (if k < |queue| then Some(queue[k]) else None)
  {
    if ParseIndex(key).Some? then
      var k := ParseIndex(key).value;
      ParseIndexRenders(key);
      assert forall k': nat :: key == Decimal(k') ==> k' == k by {
        forall k': nat | key == Decimal(k') ensures k' == k { DecimalParses(k'); }
      }
      if k < |queue| then Some(queue[k]) else None
    else None
  }

  /** Whether the guard at lines 26-29 skips `bundle`: a truthy, shorter entry was found. */
  predicate Skips(t: Subtagger, queue: seq<string>, bundle: string) {
    var existing := QueueSlot(queue, MinBundle(t, bundle));
    existing.Some? && existing.value != "" && |existing.value| < |bundle|
  }

  /** One step of the drain: store `bundle` under its minimised id unless the guard skips it. */
  function Install(t: Subtagger, table: map<string, string>, queue: seq<string>, bundle: string): (r: map<string, string>)
    ensures Skips(t, queue, bundle) ==> r == table
    ensures !Skips(t, queue, bundle) ==> r == table[MinBundle(t, bundle) := bundle]
  {
    if Skips(t, queue, bundle) then table else table[MinBundle(t, bundle) := bundle]
  }

  /** The table after the first `i` queued bundles were drained, front to back. */
  function Drained(t: Subtagger, table: map<string, string>, queue: seq<string>, i: nat): map<string, string>
    requires i <= |queue|
    decreases i
  {
    if i == 0 then table else Install(t, Drained(t, table, queue, i - 1), queue, queue[i - 1])
  }

  /** The whole drain of lines 19-33. */
  function Drain(t: Subtagger, table: map<string, string>, queue: seq<string>): map<string, string> {
    Drained(t, table, queue, |queue|)
  }

  /** `availableBundleMap[minLanguageId] || null`: an empty name reads as `null`. */
  function Found(table: map<string, string>, minLanguageId: string): (r: Option<string>)
    ensures r.Some? <==> minLanguageId in table && table[minLanguageId] != ""
    ensures r.Some? ==> r.value == table[minLanguageId]
  {
    if minLanguageId in table && table[minLanguageId] != "" then Some(table[minLanguageId]) else None
  }

  /** No minimised id of a queued bundle is a canonical array index, so the guard never fires. */
  predicate NoIndexKeys(t: Subtagger, queue: seq<string>) {
    forall j :: 0 <= j < |queue| ==> !IsCanonical(MinBundle(t, queue[j]))
  }

  /** The tables `Cldr._availableBundleMap` and `Cldr._availableBundleMapQueue`. */
  class AvailableBundles {
    var availableBundleMap: map<string, string>
    var availableBundleMapQueue: seq<string>

    constructor (table: map<string, string>, queue: seq<string>)
      ensures availableBundleMap == table && availableBundleMapQueue == queue
    {
      availableBundleMap := table;
      availableBundleMapQueue := queue;
    }

    /** `bundleLookup(Cldr, cldr, minLanguageId)`. */
    method Lookup(t: Subtagger, minLanguageId: string) returns (r: Option<string>)
      modifies this
      ensures availableBundleMapQueue == []
      ensures availableBundleMap == Drain(t, old(availableBundleMap), old(availableBundleMapQueue))
      ensures old(availableBundleMapQueue) == [] ==> availableBundleMap == old(availableBundleMap)
      ensures r == Found(availableBundleMap, minLanguageId)
    {
      if |availableBundleMapQueue| > 0 {
        var queue := availableBundleMapQueue;
        var i := 0;
        while i < |queue|
          invariant 0 <= i <= |queue|
          invariant availableBundleMapQueue == queue
          invariant availableBundleMap == Drained(t, old(availableBundleMap), queue, i)
        {
          var bundle := queue[i];
          var minBundle := MinBundle(t, bundle);
          var existing := QueueSlot(availableBundleMapQueue, minBundle);
          if !(existing.Some? && existing.value != "" && |existing.value| < |bundle|) {
            availableBundleMap := availableBundleMap[minBundle := bundle];
          }
          i := i + 1;
        }
        availableBundleMapQueue := [];
      }
      r := Found(availableBundleMap, minLanguageId);
    }

    /** Two lookups with nothing enqueued in between give the same answer; the second changes nothing. */
    method LookupTwice(t: Subtagger, minLanguageId: string) returns (first: Option<string>, second: Option<string>)
      modifies this
      ensures first == second
      ensures availableBundleMapQueue == []
      ensures availableBundleMap == Drain(t, old(availableBundleMap), old(availableBundleMapQueue))
    {
      first := Lookup(t, minLanguageId);
      ghost var between := availableBundleMap;
      second := Lookup(t, minLanguageId);
      assert availableBundleMap == between;
    }
  }

  /** Draining further never removes a key. */
  lemma {:induction false} DrainedGrows(t: Subtagger, table: map<string, string>, queue: seq<string>, i: nat, j: nat)
    requires i <= j <= |queue|
    ensures Drained(t, table, queue, i).Keys <= Drained(t, table, queue, j).Keys
    decreases j
  {
    if i < j {
      DrainedGrows(t, table, queue, i, j - 1);
    }
  }

  /** A key that no drained bundle minimises to keeps its old entry, or stays absent. */
  lemma {:induction false} DrainedUntouched(t: Subtagger, table: map<string, string>, queue: seq<string>, i: nat, key: string)
    requires i <= |queue|
    requires forall j :: 0 <= j < i ==> MinBundle(t, queue[j]) != key
    ensures key in Drained(t, table, queue, i) <==> key in table
    ensures key in table ==> Drained(t, table, queue, i)[key] == table[key]
    decreases i
  {
    if i > 0 {
      DrainedUntouched(t, table, queue, i - 1, key);
    }
  }

  /** Every name in the drained table was already in the table or was queued. */
  lemma {:induction false} DrainedValues(t: Subtagger, table: map<string, string>, queue: seq<string>, i: nat, key: string)
    requires i <= |queue|
    requires key in Drained(t, table, queue, i)
    ensures Drained(t, table, queue, i)[key] in table.Values || Drained(t, table, queue, i)[key] in queue[..i]
    decreases i
  {
    if i > 0 {
      var before := Drained(t, table, queue, i - 1);
      if key in before && Drained(t, table, queue, i)[key] == before[key] {
        DrainedValues(t, table, queue, i - 1, key);
        assert queue[..i - 1] <= queue[..i];
      } else {
        assert Drained(t, table, queue, i)[key] == queue[i - 1] == queue[..i][i - 1];
      }
    }
  }

  /**
   * The last queued bundle with a given minimised id is the one stored, when the
   * guard does not skip it: later bundles overwrite earlier ones.
   */
  lemma {:induction false} DrainedLastWins(t: Subtagger, table: map<string, string>, queue: seq<string>, i: nat, j: nat)
    requires j < i <= |queue|
    requires !Skips(t, queue, queue[j])
    requires forall j' :: j < j' < i ==> MinBundle(t, queue[j']) != MinBundle(t, queue[j])
    ensures MinBundle(t, queue[j]) in Drained(t, table, queue, i)
    ensures Drained(t, table, queue, i)[MinBundle(t, queue[j])] == queue[j]
    decreases i
  {
    if j < i - 1 {
      DrainedLastWins(t, table, queue, i - 1, j);
    }
  }

  /** After the drain, the minimised id of every queued bundle is a key, when no such id is an array index. */
  lemma {:induction false} DrainedHasEveryQueuedKey(t: Subtagger, table: map<string, string>, queue: seq<string>, j: nat)
    requires j < |queue|
    requires NoIndexKeys(t, queue)
    ensures MinBundle(t, queue[j]) in Drain(t, table, queue)
  {
    assert !Skips(t, queue, queue[j]);
    DrainedGrows(t, table, queue, j + 1, |queue|);
  }

  /** With no empty names stored, the lookup answers `null` exactly for absent ids. */
  lemma FoundNullIffAbsent(table: map<string, string>, minLanguageId: string)
    requires forall k :: k in table ==> table[k] != ""
    ensures Found(table, minLanguageId).None? <==> minLanguageId !in table
  {
  }

  /** Non-empty names in the table and the queue stay non-empty through the drain. */
  lemma DrainKeepsNamesNonEmpty(t: Subtagger, table: map<string, string>, queue: seq<string>)
    requires forall k :: k in table ==> table[k] != ""
    requires forall j :: 0 <= j < |queue| ==> queue[j] != ""
    ensures forall k :: k in Drain(t, table, queue) ==> Drain(t, table, queue)[k] != ""
  {
    forall k | k in Drain(t, table, queue) ensures Drain(t, table, queue)[k] != "" {
      DrainedValues(t, table, queue, |queue|, k);
      assert queue[..|queue|] == queue;
    }
  }

  /** Every bundle is minimised to "en": the id that all English bundles share. */
  function AllEnglish(): Subtagger {
    Subtagger(b => ["en"], s => s, s => s, '-')
  }

  /** Loading "en-GB" and then "en" leaves "en" stored: the later name wins, not the longer. */
  lemma LaterBundleOverwritesLonger()
    ensures Drain(AllEnglish(), map[], ["en-GB", "en"]) == map["en" := "en"]
  {
    var t, q := AllEnglish(), ["en-GB", "en"];
    assert MinBundle(t, "en-GB") == "en" && MinBundle(t, "en") == "en";
    assert !IsCanonical("en");
    assert !Skips(t, q, "en-GB") && !Skips(t, q, "en");
    assert Drained(t, map[], q, 1) == map["en" := "en-GB"];
  }

  /** Every bundle is minimised to "0", a canonical array index. */
  function AllIndexZero(): Subtagger {
    Subtagger(b => ["0"], s => s, s => s, '-')
  }

  /**
   * When the minimised id is an array index the guard does read a queue element:
   * with the queue ["ab", "abc"] the second, longer name is skipped.
   */
  lemma IndexKeyKeepsShorter()
    ensures Drain(AllIndexZero(), map[], ["ab", "abc"]) == map["0" := "ab"]
  {
    var t, q := AllIndexZero(), ["ab", "abc"];
    assert MinBundle(t, "ab") == "0" && MinBundle(t, "abc") == "0";
    assert Decimal(0) == "0";
    assert QueueSlot(q, "0") == Some("ab");
    assert !Skips(t, q, "ab") && Skips(t, q, "abc");
    assert Drained(t, map[], q, 1) == map["0" := "ab"];
  }
}
