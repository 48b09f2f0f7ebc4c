/**
 * The cache-format upgrade inside `helpers.get_cache` (build/compare-size.js).
 * A cache read from `.sizecache.json` may be in any of the tool's historical
 * formats; the upgrade brings it to the current one:
 * `{ "": {version: 0.4, tips: {...}}, label: { file: { "": size, compressor: size } } }`.
 * A cache that is not an object, or has no metadata entry, is taken to be the
 * sizes of the last run. Size entries named `file.suffix` are moved under the
 * entry `file` as compressed sizes; the others are wrapped as `{"": size}`.
 */
module SizeCache {
  import opened Wrappers
  import opened Strings
  import opened Sorting
  import opened JsValue

  /** Why the upgrade stops. */
  datatype Failure =
    /** A strict-mode write to a property of a primitive or of `null`. */
    | TypeError
    /** A named property written to an array or a non-plain object, which the value model cannot hold. */
    | Unmodelled

  /** The label under which a promoted cache keeps the sizes it held. */
  const LastRun: string := " last run"

  /** The metadata of a promoted cache: `{version: 0, tips: {}}`. */
  const InitialMeta: Value := Obj([("version", Num(0.0)), ("tips", Obj([]))])

  /** `v[k]` on a value that is neither `undefined` nor `null`, for a name that is not an array index. */
  function Member(v: Value, k: string): Value
    requires !v.Undefined? && !v.Null?
  {
    if v.Obj? then Get(v.entries, k) else Undefined
  }

  /** The object's names are distinct, and so are those of every object it holds directly. */
  predicate KeyedEntries(es: seq<(string, Value)>) {
    WellKeyed(es) && forall k :: k in Keys(es) && Get(es, k).Obj? ==> WellKeyed(Get(es, k).entries)
  }

  // ----- One size entry ---------------------------------------------------------

  /** Whether the dotted prefix of the first `k` pieces names an object (`typeof sizes[prefix] === "object"`). */
  predicate ObjectAt(sizes: seq<(string, Value)>, parts: seq<string>, k: nat)
    requires k <= |parts|
  {
    TypeOf(Get(sizes, Join(parts[..k], '.'))) == "object"
  }

  /** The smallest `j` from `k` on, below the number of pieces, whose dotted prefix names an object. */
  function FirstObjectPrefix(sizes: seq<(string, Value)>, parts: seq<string>, k: nat): (r: Option<nat>)
    requires 1 <= k <= |parts|
    ensures r.Some? ==> k <= r.value < |parts| && ObjectAt(sizes, parts, r.value)
    ensures forall j :: k <= j < (if r.Some? then r.value else |parts|) ==> !ObjectAt(sizes, parts, j)
    decreases |parts| - k
  {
    if k == |parts| then None
    else if ObjectAt(sizes, parts, k) then Some(k)
    else FirstObjectPrefix(sizes, parts, k + 1)
  }

  /**
   * Where the entry `file` goes: the shortest proper dotted prefix of `file`
   * that names an object, with the rest of the name; None when there is none.
   */
  function Target(sizes: seq<(string, Value)>, file: string): Option<(string, string)>
  {
    var parts := Split(file, '.');
    match FirstObjectPrefix(sizes, parts, 1)
    case None => None
    case Some(k) => Some((Join(parts[..k], '.'), Join(parts[k..], '.')))
  }

  /** The target prefix, a dot and the rest of the name spell the file name, and the prefix names an object. */
  lemma TargetSplitsFile(sizes: seq<(string, Value)>, file: string)
    ensures var t := Target(sizes, file);
            t.Some? ==> t.value.0 + "." + t.value.1 == file && TypeOf(Get(sizes, t.value.0)) == "object"
  {
    var parts := Split(file, '.');
    var r := FirstObjectPrefix(sizes, parts, 1);
    if r.Some? {
      JoinSplitAt(parts, '.', r.value);
      JoinSplit(file, '.');
    }
  }

  /** `prefix += "." + parts.shift()`: the prefix of `k + 1` pieces. */
  lemma PrefixGrows(all: seq<string>, k: nat)
    requires 1 <= k < |all|
    ensures Join(all[..k + 1], '.') == Join(all[..k], '.') + "." + all[k]
  {
    assert all[..k + 1][..k] == all[..k];
  }

  /** A prefix that names no object is passed over. */
  lemma FirstObjectPrefixSkips(sizes: seq<(string, Value)>, all: seq<string>, k: nat)
    requires 1 <= k < |all| && !ObjectAt(sizes, all, k)
    ensures FirstObjectPrefix(sizes, all, k) == FirstObjectPrefix(sizes, all, k + 1)
  {
  }

  /** The loop of the source that looks for the target: `prefix` grows by one piece per turn. */
  method FindTarget(sizes: seq<(string, Value)>, file: string) returns (target: Option<(string, string)>)
    ensures target == Target(sizes, file)
  {
    var all := Split(file, '.');
    var prefix := all[0];
    var parts := all[1..];
    ghost var k := 1;
    assert all[..1] == [all[0]];
    while parts != []
      invariant 1 <= k <= |all| && parts == all[k..] && prefix == Join(all[..k], '.')
      invariant FirstObjectPrefix(sizes, all, k) == FirstObjectPrefix(sizes, all, 1)
      decreases |parts|
    {
      if TypeOf(Get(sizes, prefix)) == "object" {
        assert FirstObjectPrefix(sizes, all, k) == Some(k);
        return Some((prefix, Join(parts, '.')));
      }
      FirstObjectPrefixSkips(sizes, all, k);
      PrefixGrows(all, k);
      prefix := prefix + "." + parts[0];
      parts := parts[1..];
      k := k + 1;
    }
    assert FirstObjectPrefix(sizes, all, k) == None;
    return None;
  }

  /** `sizes[file] = {"": sizes[file]}`. */
  function WrapEntry(sizes: seq<(string, Value)>, file: string): (r: seq<(string, Value)>)
    requires WellKeyed(sizes)
    ensures WellKeyed(r) && Get(r, file) == Obj([("", Get(sizes, file))])
  {
    SetWellKeyed(sizes, file, Obj([("", Get(sizes, file))]));
    Set(sizes, file, Obj([("", Get(sizes, file))]))
  }

  /** `sizes[prefix][rest] = sizes[file]; delete sizes[file]`. */
  function MoveEntry(sizes: seq<(string, Value)>, prefix: string, rest: string, file: string): (r: seq<(string, Value)>)
    requires WellKeyed(sizes) && Get(sizes, prefix).Obj?
    ensures WellKeyed(r) && file !in Keys(r)
  {
    var holder := Obj(Set(Get(sizes, prefix).entries, rest, Get(sizes, file)));
    SetWellKeyed(sizes, prefix, holder);
    Delete(Set(sizes, prefix, holder), file)
  }

  /** The upgrade of the entry `file`: moved under its target as a compressed size, or wrapped as `{"": size}`. */
  function FoldFile(sizes: seq<(string, Value)>, file: string): (r: Result<seq<(string, Value)>, Failure>)
    requires WellKeyed(sizes)
    ensures r.Ok? ==> WellKeyed(r.value)
  {
    Place(sizes, file, Target(sizes, file))
  }

  /** The entry `file` placed as `target` says. */
  function Place(sizes: seq<(string, Value)>, file: string, target: Option<(string, string)>): (r: Result<seq<(string, Value)>, Failure>)
    requires WellKeyed(sizes)
    ensures r.Ok? ==> WellKeyed(r.value)
  {
    if target.None? then Ok(WrapEntry(sizes, file))
    else
      var holder := Get(sizes, target.value.0);
      if holder.Obj? then Ok(MoveEntry(sizes, target.value.0, target.value.1, file))
      else if holder.Null? then Err(TypeError)
      else Err(Unmodelled)
  }

  /** No proper dotted prefix of `file` names an object. */
  predicate NoObjectPrefix(sizes: seq<(string, Value)>, file: string) {
    var parts := Split(file, '.');
    forall k :: 1 <= k < |parts| ==> !ObjectAt(sizes, parts, k)
  }

  /** An entry has no target exactly when no proper dotted prefix of its name names an object. */
  lemma NoObjectPrefixTarget(sizes: seq<(string, Value)>, file: string)
    ensures NoObjectPrefix(sizes, file) <==> Target(sizes, file).None?
  {
  }

  /** A name without a dot has no proper dotted prefix. */
  lemma DotlessNoObjectPrefix(sizes: seq<(string, Value)>, file: string)
    requires '.' !in file
    ensures NoObjectPrefix(sizes, file)
  {
    SplitNoSep(file, '.');
  }

  /** The search from `k` stops at the first prefix that names an object. */
  lemma {:induction false} FirstAt(sizes: seq<(string, Value)>, parts: seq<string>, k: nat, n: nat)
    requires 1 <= k <= n < |parts|
    requires forall j :: k <= j < n ==> !ObjectAt(sizes, parts, j)
    requires ObjectAt(sizes, parts, n)
    ensures FirstObjectPrefix(sizes, parts, k) == Some(n)
    decreases n - k
  {
    if k < n {
      assert !ObjectAt(sizes, parts, k);
      FirstAt(sizes, parts, k + 1, n);
      assert FirstObjectPrefix(sizes, parts, k) == FirstObjectPrefix(sizes, parts, k + 1);
    } else {
      assert FirstObjectPrefix(sizes, parts, n) == Some(n);
    }
  }

  /** Writing the property `file` itself leaves its proper prefixes, which are shorter names, as they were. */
  lemma NoObjectPrefixSet(sizes: seq<(string, Value)>, file: string, v: Value)
    requires NoObjectPrefix(sizes, file)
    ensures NoObjectPrefix(Set(sizes, file, v), file)
  {
    var parts := Split(file, '.');
    JoinSplit(file, '.');
    forall k | 1 <= k < |parts|
      ensures !ObjectAt(Set(sizes, file, v), parts, k)
    {
      JoinSplitAt(parts, '.', k);
      assert !ObjectAt(sizes, parts, k);
      assert Join(parts[..k], '.') != file by {
        assert |Join(parts[..k], '.')| < |file|;
      }
    }
  }

  /** An entry none of whose proper prefixes names an object is wrapped in place: `file: n` becomes `file: {"": n}`. */
  lemma FoldFileWraps(sizes: seq<(string, Value)>, file: string)
    requires WellKeyed(sizes) && NoObjectPrefix(sizes, file)
    ensures FoldFile(sizes, file) == Ok(WrapEntry(sizes, file))
  {
    NoObjectPrefixTarget(sizes, file);
    FoldFileAt(sizes, file, None);
  }

  /** The target of `f.suffix`, where `f` names an object and no proper prefix of `f` does, is `f` with the rest `suffix`. */
  lemma TargetOfSuffixed(sizes: seq<(string, Value)>, f: string, suffix: string)
    requires NoObjectPrefix(sizes, f) && TypeOf(Get(sizes, f)) == "object"
    ensures Target(sizes, f + "." + suffix) == Some((f, suffix))
  {
    var file := f + "." + suffix;
    SplitConcat(f, '.', suffix);
    var pf := Split(f, '.');
    var parts := Split(file, '.');
    var n := |pf|;
    assert parts == pf + Split(suffix, '.');
    forall j | 1 <= j < n
      ensures !ObjectAt(sizes, parts, j)
    {
      assert parts[..j] == pf[..j];
      assert !ObjectAt(sizes, pf, j);
    }
    assert parts[..n] == pf;
    JoinSplit(f, '.');
    assert ObjectAt(sizes, parts, n);
    FirstAt(sizes, parts, 1, n);
    assert parts[n..] == Split(suffix, '.');
    JoinSplit(suffix, '.');
  }

  /**
   * `f.suffix: m`, where `f` names an object and no proper prefix of `f` does,
   * is moved under `f` as `suffix: m` and deleted.
   */
  lemma FoldFileMoves(sizes: seq<(string, Value)>, f: string, suffix: string)
    requires WellKeyed(sizes) && NoObjectPrefix(sizes, f) && Get(sizes, f).Obj?
    ensures FoldFile(sizes, f + "." + suffix) == Ok(MoveEntry(sizes, f, suffix, f + "." + suffix))
  {
    var file := f + "." + suffix;
    ObjectIsObject(Get(sizes, f));
    TargetOfSuffixed(sizes, f, suffix);
    FoldFileAt(sizes, file, Some((f, suffix)));
    PlaceMoves(sizes, file, f, suffix);
  }

  /** An entry whose target names an object is moved under it. */
  lemma PlaceMoves(sizes: seq<(string, Value)>, file: string, prefix: string, rest: string)
    requires WellKeyed(sizes) && Get(sizes, prefix).Obj?
    ensures Place(sizes, file, Some((prefix, rest))) == Ok(MoveEntry(sizes, prefix, rest, file))
  {
  }

  /** FoldFile places the entry where its target says. */
  lemma FoldFileAt(sizes: seq<(string, Value)>, file: string, target: Option<(string, string)>)
    requires WellKeyed(sizes) && Target(sizes, file) == target
    ensures FoldFile(sizes, file) == Place(sizes, file, target)
  {
  }

  // ----- The size entries of one label --------------------------------------------

  /** The entries in `files` upgraded one after the other. */
  function FoldFiles(sizes: seq<(string, Value)>, files: seq<string>): (r: Result<seq<(string, Value)>, Failure>)
    requires WellKeyed(sizes)
    ensures r.Ok? ==> WellKeyed(r.value)
    decreases |files|
  {
    if files == [] then Ok(sizes)
    else
      match FoldFiles(sizes, files[..|files| - 1])
      case Err(e) => Err(e)
      case Ok(s) => FoldFile(s, files[|files| - 1])
  }

  /** A failure ends the fold: the later entries do not change it. */
  lemma {:induction false} FoldFilesFails(sizes: seq<(string, Value)>, files: seq<string>, i: nat)
    requires WellKeyed(sizes) && i <= |files| && FoldFiles(sizes, files[..i]).Err?
    ensures FoldFiles(sizes, files) == FoldFiles(sizes, files[..i])
    decreases |files|
  {
    if i < |files| {
      var init := files[..|files| - 1];
      assert init[..i] == files[..i];
      FoldFilesFails(sizes, init, i);
    } else {
      assert files[..i] == files;
    }
  }

  lemma FoldFilesStep(sizes: seq<(string, Value)>, files: seq<string>, i: nat, s: seq<(string, Value)>)
    requires WellKeyed(sizes) && i < |files| && FoldFiles(sizes, files[..i]) == Ok(s)
    ensures WellKeyed(s) && FoldFiles(sizes, files[..i + 1]) == FoldFile(s, files[i])
  {
    assert files[..i + 1][..i] == files[..i];
  }

  /** `Object.keys(sizes).sort()`. */
  function SortedNames(es: seq<(string, Value)>): seq<string>
    requires WellKeyed(es)
  {
    LexLessStrictTotal(Keys(es));
    Sort(LexLess, Keys(es))
  }

  /** The upgrade of the sizes stored under one label. */
  function SizesUpgraded(v: Value): (r: Result<Value, Failure>)
    requires v.Obj? ==> WellKeyed(v.entries)
    ensures r.Ok? && r.value.Obj? ==> WellKeyed(r.value.entries)
  {
    match v
    case Obj(es) =>
      (match FoldFiles(es, SortedNames(es))
       case Ok(s) => Ok(Obj(s))
       case Err(e) => Err(e))
    case Arr(items) => Ok(Arr(seq(|items|, i requires 0 <= i < |items| => Obj([("", items[i])]))))
    case Str(s) => if s == "" then Ok(v) else Err(TypeError)
    case _ => Ok(v)
  }

  /** An array has only index names, none with a dot: every element is wrapped. */
  lemma ArraySizesWrapped(items: seq<Value>)
    ensures SizesUpgraded(Arr(items)).Ok?
    ensures var r := SizesUpgraded(Arr(items)).value;
            r.Arr? && |r.items| == |items| && forall i :: 0 <= i < |items| ==> r.items[i] == Obj([("", items[i])])
  {
  }

  /** One turn of the source's loop over the size entries: find the target, then move or wrap. */
  method UpgradeFile(sizes: seq<(string, Value)>, file: string) returns (r: Result<seq<(string, Value)>, Failure>)
    requires WellKeyed(sizes)
    ensures r == FoldFile(sizes, file)
  {
    var target := FindTarget(sizes, file);
    match target {
      case None =>
        return Ok(WrapEntry(sizes, file));
      case Some((prefix, rest)) =>
        var holder := Get(sizes, prefix);
        if holder.Null? {
          return Err(TypeError);
        } else if !holder.Obj? {
          return Err(Unmodelled);
        }
        return Ok(MoveEntry(sizes, prefix, rest, file));
    }
  }

  /** `Object.keys(sizes).sort().forEach(...)` on an object of sizes. */
  method UpgradeEntries(es: seq<(string, Value)>) returns (r: Result<seq<(string, Value)>, Failure>)
    requires WellKeyed(es)
    ensures r == FoldFiles(es, SortedNames(es))
  {
    var files := SortedNames(es);
    var sizes := es;
    var i := 0;
    while i < |files|
      invariant 0 <= i <= |files|
      invariant FoldFiles(es, files[..i]) == Ok(sizes)
    {
      FoldFilesStep(es, files, i, sizes);
      var step := UpgradeFile(sizes, files[i]);
      if step.Err? {
        FoldFilesFails(es, files, i + 1);
        return Err(step.error);
      }
      sizes := step.value;
      i := i + 1;
    }
    assert files[..i] == files;
    return Ok(sizes);
  }

  /** The same loop on an array: each element is wrapped (the index names sort as strings, but each is rewritten on its own). */
  method WrapItems(items: seq<Value>) returns (wrapped: seq<Value>)
    ensures wrapped == seq(|items|, i requires 0 <= i < |items| => Obj([("", items[i])]))
  {
    wrapped := [];
    var i := 0;
    while i < |items|
      invariant 0 <= i <= |items| && |wrapped| == i
      invariant forall j :: 0 <= j < i ==> wrapped[j] == Obj([("", items[j])])
    {
      wrapped := wrapped + [Obj([("", items[i])])];
      i := i + 1;
    }
  }

  /** The upgrade of the sizes stored under one label. */
  method UpgradeSizes(v: Value) returns (r: Result<Value, Failure>)
    requires v.Obj? ==> WellKeyed(v.entries)
    ensures r == SizesUpgraded(v)
  {
    match v {
      case Obj(es) =>
        var folded := UpgradeEntries(es);
        if folded.Err? {
          return Err(folded.error);
        }
        return Ok(Obj(folded.value));
      case Arr(items) =>
        var wrapped := WrapItems(items);
        return Ok(Arr(wrapped));
      case Str(s) =>
        if s == "" {
          return Ok(v);
        }
        return Err(TypeError);
      case _ =>
        return Ok(v);
    }
  }

  // ----- All labels ---------------------------------------------------------------

  /** One turn of `_.forEach(cache, ...)`: the metadata and labels with falsy sizes are skipped. */
  function LabelStep(cur: seq<(string, Value)>, name: string): (r: Result<seq<(string, Value)>, Failure>)
    requires KeyedEntries(cur)
    ensures r.Ok? ==> KeyedEntries(r.value) && Keys(r.value) == Keys(cur) && Get(r.value, "") == Get(cur, "")
  {
    var sizes := Get(cur, name);
    if name == "" || !Truthy(sizes) then Ok(cur)
    else
      match SizesUpgraded(sizes)
      case Err(e) => Err(e)
      case Ok(v) =>
        SetWellKeyed(cur, name, v);
        Ok(Set(cur, name, v))
  }

  /** `_.forEach(cache, ...)` over `labels`. */
  function LabelsUpgraded(es: seq<(string, Value)>, labels: seq<string>): (r: Result<seq<(string, Value)>, Failure>)
    requires KeyedEntries(es)
    ensures r.Ok? ==> KeyedEntries(r.value) && Keys(r.value) == Keys(es) && Get(r.value, "") == Get(es, "")
    decreases |labels|
  {
    if labels == [] then Ok(es)
    else
      match LabelsUpgraded(es, labels[..|labels| - 1])
      case Err(e) => Err(e)
      case Ok(cur) => LabelStep(cur, labels[|labels| - 1])
  }

  /** The wrapped cache: fresh metadata beside the sizes of the last run. */
  function Wrapped(cache: Value): Value {
    Obj([("", InitialMeta), (LastRun, cache)])
  }

  lemma WrappedKeyed(cache: Value)
    requires cache.Obj? ==> KeyedEntries(cache.entries)
    ensures KeyedEntries(Wrapped(cache).entries)
  {
    var es := Wrapped(cache).entries;
    assert Keys(es) == ["", LastRun];
  }

  /** The first two steps: a non-object is dropped, and a cache without metadata is wrapped. */
  function Normalized(raw: Value): (c: Value)
    requires raw.Obj? ==> KeyedEntries(raw.entries)
    ensures c.Obj? && KeyedEntries(c.entries) && Truthy(Get(c.entries, ""))
  {
    var cache := if TypeOf(raw) != "object" then Undefined else raw;
    if !Truthy(cache) || !Truthy(Member(cache, "")) then
      WrappedKeyed(cache);
      Wrapped(cache)
    else cache
  }

  /** The metadata record stamped with version 0.4. */
  function Stamp(es: seq<(string, Value)>, m: seq<(string, Value)>): (r: seq<(string, Value)>)
    requires KeyedEntries(es) && Get(es, "") == Obj(m)
    ensures KeyedEntries(r) && Keys(r) == Keys(es)
    ensures Get(r, "") == Obj(Set(m, "version", Num(0.4)))
  {
    assert "" in Keys(es);
    SetWellKeyed(m, "version", Num(0.4));
    SetWellKeyed(es, "", Obj(Set(m, "version", Num(0.4))));
    Set(es, "", Obj(Set(m, "version", Num(0.4))))
  }

  /** The last steps on a cache with metadata but no version: stamp it, then upgrade every label. */
  function Stamped(es: seq<(string, Value)>): (r: Result<Value, Failure>)
    requires KeyedEntries(es) && Truthy(Get(es, ""))
    ensures r.Ok? ==> r.value.Obj? && KeyedEntries(r.value.entries)
    ensures r.Ok? ==> Get(r.value.entries, "").Obj? && Get(Get(r.value.entries, "").entries, "version") == Num(0.4)
  {
    match Get(es, "")
    case Obj(m) =>
      var stamped := Stamp(es, m);
      (match LabelsUpgraded(stamped, Keys(stamped))
       case Ok(s) => Ok(Obj(s))
       case Err(e) => Err(e))
    case Arr(_) => Err(Unmodelled)
    case OtherObject => Err(Unmodelled)
    case Function => Err(Unmodelled)
    case _ => Err(TypeError)
  }

  /** A failure ends the upgrade: the later labels do not change it. */
  lemma {:induction false} LabelsFail(es: seq<(string, Value)>, labels: seq<string>, i: nat)
    requires KeyedEntries(es) && i <= |labels| && LabelsUpgraded(es, labels[..i]).Err?
    ensures LabelsUpgraded(es, labels) == LabelsUpgraded(es, labels[..i])
    decreases |labels|
  {
    if i < |labels| {
      var init := labels[..|labels| - 1];
      assert init[..i] == labels[..i];
      LabelsFail(es, init, i);
    } else {
      assert labels[..i] == labels;
    }
  }

  lemma LabelsStep(es: seq<(string, Value)>, labels: seq<string>, i: nat, cur: seq<(string, Value)>)
    requires KeyedEntries(es) && i < |labels| && LabelsUpgraded(es, labels[..i]) == Ok(cur)
    ensures KeyedEntries(cur) && LabelsUpgraded(es, labels[..i + 1]) == LabelStep(cur, labels[i])
  {
    assert labels[..i + 1][..i] == labels[..i];
  }

  /** Whether the loop over `labels` rewrites the sizes stored under `k`: a label, not the metadata, with truthy sizes. */
  predicate Rewritten(es: seq<(string, Value)>, labels: seq<string>, k: string) {
    k in labels && k != "" && Truthy(Get(es, k))
  }

  /**
   * Label by label, with the labels distinct: the loop fails exactly when the
   * upgrade of some rewritten label's sizes fails, and otherwise each rewritten
   * label holds its upgraded sizes while every other property keeps its value.
   */
  lemma {:induction false} LabelsUpgradedPerKey(es: seq<(string, Value)>, labels: seq<string>)
    requires KeyedEntries(es) && NoDup(labels)
    ensures LabelsUpgraded(es, labels).Err? <==>
            exists k :: Rewritten(es, labels, k) && SizesUpgraded(Get(es, k)).Err?
    ensures LabelsUpgraded(es, labels).Ok? ==>
            forall k :: Get(LabelsUpgraded(es, labels).value, k) ==
                        if Rewritten(es, labels, k) then SizesUpgraded(Get(es, k)).value else Get(es, k)
    decreases |labels|
  {
    if labels != [] {
      var init, name := labels[..|labels| - 1], labels[|labels| - 1];
      assert labels == init + [name];
      assert NoDup(init) && name !in init;
      LabelsUpgradedPerKey(es, init);
      match LabelsUpgraded(es, init)
      case Err(_) =>
        assert forall k :: Rewritten(es, init, k) ==> Rewritten(es, labels, k);
      case Ok(cur) =>
        LabelStepPerKey(es, init, name, cur);
    }
  }

  /** The last turn of LabelsUpgradedPerKey, on the upgrade of the earlier labels. */
  lemma LabelStepPerKey(es: seq<(string, Value)>, init: seq<string>, name: string, cur: seq<(string, Value)>)
    requires KeyedEntries(es) && KeyedEntries(cur) && name !in init
    requires forall k :: Rewritten(es, init, k) ==> SizesUpgraded(Get(es, k)).Ok?
    requires forall k :: Get(cur, k) == if Rewritten(es, init, k) then SizesUpgraded(Get(es, k)).value else Get(es, k)
    ensures LabelStep(cur, name).Err? <==>
            exists k :: Rewritten(es, init + [name], k) && SizesUpgraded(Get(es, k)).Err?
    ensures LabelStep(cur, name).Ok? ==>
            forall k :: Get(LabelStep(cur, name).value, k) ==
                        if Rewritten(es, init + [name], k) then SizesUpgraded(Get(es, k)).value else Get(es, k)
  {
    var labels := init + [name];
    assert forall k :: Rewritten(es, labels, k) <==> Rewritten(es, init, k) || (k == name && Rewritten(es, labels, k));
    assert !Rewritten(es, init, name);
    assert Get(cur, name) == Get(es, name);
  }

  /** The cache after the upgrade, as the source computes it. */
  function Upgraded(raw: Value): (r: Result<Value, Failure>)
    requires raw.Obj? ==> KeyedEntries(raw.entries)
    ensures r.Ok? ==> r.value.Obj? && KeyedEntries(r.value.entries)
    ensures r.Ok? ==> var meta := Get(r.value.entries, "");
                      Truthy(meta) && Truthy(Member(meta, "version"))
  {
    var cache := Normalized(raw);
    if Truthy(Member(Get(cache.entries, ""), "version")) then Ok(cache)
    else Stamped(cache.entries)
  }

  /** The source's `_.forEach(cache, ...)` over the labels of a stamped cache. */
  method UpgradeLabels(es: seq<(string, Value)>) returns (r: Result<seq<(string, Value)>, Failure>)
    requires KeyedEntries(es)
    ensures r == LabelsUpgraded(es, Keys(es))
  {
    var labels := Keys(es);
    var cur := es;
    var i := 0;
    while i < |labels|
      invariant 0 <= i <= |labels|
      invariant LabelsUpgraded(es, labels[..i]) == Ok(cur)
    {
      var name := labels[i];
      LabelsStep(es, labels, i, cur);
      var sizes := Get(cur, name);
      if name != "" && Truthy(sizes) {
        var upgraded := UpgradeSizes(sizes);
        if upgraded.Err? {
          LabelsFail(es, labels, i + 1);
          return Err(upgraded.error);
        }
        cur := Set(cur, name, upgraded.value);
      }
      i := i + 1;
    }
    assert labels[..i] == labels;
    return Ok(cur);
  }

  /** Stamping the version and upgrading every label, as the source does after its version test. */
  method StampAndUpgrade(es: seq<(string, Value)>) returns (r: Result<Value, Failure>)
    requires KeyedEntries(es) && Truthy(Get(es, ""))
    ensures r == Stamped(es)
  {
    var meta := Get(es, "");
    if meta.Null? || meta.Undefined? || meta.Bool? || meta.Num? || meta.Str? {
      return Err(TypeError);
    } else if !meta.Obj? {
      return Err(Unmodelled);
    }
    var stamped := Stamp(es, meta.entries);
    var upgraded := UpgradeLabels(stamped);
    if upgraded.Err? {
      return Err(upgraded.error);
    }
    return Ok(Obj(upgraded.value));
  }

  /** The upgrade of `helpers.get_cache`, step by step as the source performs it. */
  method Upgrade(raw: Value) returns (r: Result<Value, Failure>)
    requires raw.Obj? ==> KeyedEntries(raw.entries)
    ensures r == Upgraded(raw)
  {
    var cache := raw;
    if TypeOf(cache) != "object" {
      cache := Undefined;
    }
    if !Truthy(cache) || !Truthy(Member(cache, "")) {
      cache := Wrapped(cache);
    }
    assert cache == Normalized(raw);
    if Truthy(Member(Get(cache.entries, ""), "version")) {
      return Ok(cache);
    }
    r := StampAndUpgrade(cache.entries);
  }

  // ----- What the upgrade promises ---------------------------------------------------

  /** A cache whose metadata already carries a version is returned unchanged. */
  lemma VersionedUnchanged(es: seq<(string, Value)>)
    requires KeyedEntries(es)
    requires Truthy(Get(es, "")) && Truthy(Member(Get(es, ""), "version"))
    ensures Upgraded(Obj(es)) == Ok(Obj(es))
  {
    assert Member(Obj(es), "") == Get(es, "");
    assert Normalized(Obj(es)) == Obj(es);
  }

  /** The upgrade is idempotent: an upgraded cache is upgraded to itself. */
  lemma UpgradeIdempotent(raw: Value)
    requires raw.Obj? ==> KeyedEntries(raw.entries)
    requires Upgraded(raw).Ok?
    ensures Upgraded(Upgraded(raw).value) == Upgraded(raw)
  {
    VersionedUnchanged(Upgraded(raw).value.entries);
  }

  /** The metadata a promoted cache ends with. */
  const StampedMeta: Value := Obj([("version", Num(0.4)), ("tips", Obj([]))])

  lemma StampWrapped(cache: Value)
    requires cache.Obj? ==> KeyedEntries(cache.entries)
    ensures (WrappedKeyed(cache); Stamp(Wrapped(cache).entries, InitialMeta.entries) == [("", StampedMeta), (LastRun, cache)])
  {
    WrappedKeyed(cache);
    assert Set(InitialMeta.entries, "version", Num(0.4)) == StampedMeta.entries;
  }

  /** The metadata entry is skipped. */
  lemma MetaSkipped(cache: Value)
    requires cache.Obj? ==> KeyedEntries(cache.entries)
    ensures var es := [("", StampedMeta), (LastRun, cache)];
            KeyedEntries(es) && LabelsUpgraded(es, [""]) == Ok(es)
  {
    var es := [("", StampedMeta), (LastRun, cache)];
    assert Keys(es) == ["", LastRun];
    assert [""][..0] == [];
    assert LabelStep(es, "") == Ok(es);
  }

  /** The labels of a freshly wrapped cache: the metadata is skipped, and the last run's sizes are upgraded if truthy. */
  lemma WrappedLabelsUpgraded(cache: Value)
    requires cache.Obj? ==> KeyedEntries(cache.entries)
    ensures var es := [("", StampedMeta), (LastRun, cache)];
            KeyedEntries(es) &&
            LabelsUpgraded(es, ["", LastRun])
            == if !Truthy(cache) then Ok(es)
               else match SizesUpgraded(cache)
                    case Ok(v) => Ok([("", StampedMeta), (LastRun, v)])
                    case Err(e) => Err(e)
  {
    var es := [("", StampedMeta), (LastRun, cache)];
    MetaSkipped(cache);
    assert ["", LastRun][..1] == [""];
    assert LabelsUpgraded(es, ["", LastRun]) == LabelStep(es, LastRun);
    LastRunStep(cache);
  }

  /** The turn for the last run's label. */
  lemma LastRunStep(cache: Value)
    requires cache.Obj? ==> KeyedEntries(cache.entries)
    requires KeyedEntries([("", StampedMeta), (LastRun, cache)])
    ensures var es := [("", StampedMeta), (LastRun, cache)];
            LabelStep(es, LastRun)
            == if !Truthy(cache) then Ok(es)
               else match SizesUpgraded(cache)
                    case Ok(v) => Ok([("", StampedMeta), (LastRun, v)])
                    case Err(e) => Err(e)
  {
    var es := [("", StampedMeta), (LastRun, cache)];
    assert Get(es, LastRun) == cache;
    if Truthy(cache) {
      match SizesUpgraded(cache) {
        case Ok(v) => SetSecond(StampedMeta, cache, v);
        case Err(_) =>
      }
    }
  }

  lemma SetSecond(meta: Value, cache: Value, v: Value)
    ensures Set([("", meta), (LastRun, cache)], LastRun, v) == [("", meta), (LastRun, v)]
  {
    var es := [("", meta), (LastRun, cache)];
    assert es[1..] == [(LastRun, cache)] && [(LastRun, cache)][1..] == [];
  }

  /** A wrapped cache is stamped, then its two labels are upgraded. */
  lemma StampedWrapped(cache: Value)
    requires cache.Obj? ==> KeyedEntries(cache.entries)
    ensures (WrappedKeyed(cache);
             var es := [("", StampedMeta), (LastRun, cache)];
             KeyedEntries(es) &&
             Stamped(Wrapped(cache).entries)
             == match LabelsUpgraded(es, ["", LastRun]) case Ok(s) => Ok(Obj(s)) case Err(e) => Err(e))
  {
    WrappedKeyed(cache);
    var w := Wrapped(cache).entries;
    assert Get(w, "") == Obj(InitialMeta.entries);
    StampWrapped(cache);
    var es := [("", StampedMeta), (LastRun, cache)];
    assert Keys(es) == ["", LastRun];
  }

  /** A wrapped cache is stamped, and the sizes of the last run are upgraded. */
  lemma WrappedUpgraded(cache: Value)
    requires cache.Obj? ==> KeyedEntries(cache.entries)
    ensures (WrappedKeyed(cache);
             Stamped(Wrapped(cache).entries)
             == if !Truthy(cache) then Ok(Obj([("", StampedMeta), (LastRun, cache)]))
                else match SizesUpgraded(cache)
                     case Ok(v) => Ok(Obj([("", StampedMeta), (LastRun, v)]))
                     case Err(e) => Err(e))
  {
    StampedWrapped(cache);
    WrappedLabelsUpgraded(cache);
  }

  /** A cache that is normalized by wrapping is stamped: fresh metadata has no truthy version. */
  lemma UpgradedWrapped(raw: Value, cache: Value)
    requires raw.Obj? ==> KeyedEntries(raw.entries)
    requires cache.Obj? ==> KeyedEntries(cache.entries)
    requires Normalized(raw) == Wrapped(cache)
    ensures (WrappedKeyed(cache); Upgraded(raw) == Stamped(Wrapped(cache).entries))
  {
    WrappedKeyed(cache);
    assert Get(Wrapped(cache).entries, "") == InitialMeta;
    assert Member(InitialMeta, "version") == Num(0.0);
  }

  /** Nothing, a primitive or `null` becomes an empty cache of the current format, with no last-run sizes. */
  lemma EmptyPromoted(raw: Value)
    requires TypeOf(raw) != "object" || raw.Null?
    ensures Upgraded(raw) == Ok(Obj([("", StampedMeta), (LastRun, if raw.Null? then Null else Undefined)]))
  {
    var cache := if raw.Null? then Null else Undefined;
    WrappedKeyed(cache);
    assert Normalized(raw) == Wrapped(cache);
    UpgradedWrapped(raw, cache);
    WrappedUpgraded(cache);
  }

  /**
   * An object without metadata holds the sizes of the last run: it is put
   * under " last run", beside fresh metadata, and its entries are upgraded.
   */
  lemma LegacyPromoted(es: seq<(string, Value)>)
    requires KeyedEntries(es) && !Truthy(Get(es, ""))
    ensures Upgraded(Obj(es)) == match SizesUpgraded(Obj(es))
                                 case Ok(v) => Ok(Obj([("", StampedMeta), (LastRun, v)]))
                                 case Err(e) => Err(e)
  {
    ObjectIsObject(Obj(es));
    WrappedKeyed(Obj(es));
    assert Member(Obj(es), "") == Get(es, "");
    assert Normalized(Obj(es)) == Wrapped(Obj(es));
    UpgradedWrapped(Obj(es), Obj(es));
    WrappedUpgraded(Obj(es));
  }

  // ----- Wrapping before moving ------------------------------------------------------

  /** An entry name sorts before the same name with a suffix, so `f` is upgraded before `f.gz`. */
  lemma {:induction false} PrefixSortsFirst(f: string, t: string)
    requires t != ""
    ensures LexLess(f, f + t)
    decreases |f|
  {
    if f != [] {
      assert (f + t)[0] == f[0] && (f + t)[1..] == f[1..] + t;
      PrefixSortsFirst(f[1..], t);
    }
  }

  lemma FoldOne(sizes: seq<(string, Value)>, a: string)
    requires WellKeyed(sizes)
    ensures FoldFiles(sizes, [a]) == FoldFile(sizes, a)
  {
    assert [a][..0] == [];
  }

  lemma FoldPair(sizes: seq<(string, Value)>, a: string, b: string)
    requires WellKeyed(sizes)
    ensures FoldFiles(sizes, [a, b]) == match FoldFiles(sizes, [a])
                                        case Ok(s) => FoldFile(s, b)
                                        case Err(e) => Err(e)
  {
    assert [a, b][..1] == [a];
  }

  /** Writing `suffix: m` into the wrapped entry `f`, where `m` is read before the wrap. */
  lemma WrappedHolder(sizes: seq<(string, Value)>, f: string, file: string, suffix: string)
    requires file != f && suffix != ""
    ensures var wrapped := Set(sizes, f, Obj([("", Get(sizes, f))]));
            Set(wrapped, f, Obj(Set(Get(wrapped, f).entries, suffix, Get(wrapped, file))))
            == Set(sizes, f, Obj([("", Get(sizes, f)), (suffix, Get(sizes, file))]))
  {
    var n := Get(sizes, f);
    var wrapped := Set(sizes, f, Obj([("", n)]));
    assert Get(wrapped, f).entries == [("", n)];
    assert Get(wrapped, file) == Get(sizes, file);
    var holder := Set([("", n)], suffix, Get(sizes, file));
    assert holder == [("", n), (suffix, Get(sizes, file))] by {
      assert [("", n)][1..] == [];
    }
    SetTwice(sizes, f, Obj([("", n)]), Obj(holder));
  }

  lemma MoveIntoWrapped(sizes: seq<(string, Value)>, f: string, suffix: string)
    requires WellKeyed(sizes) && NoObjectPrefix(sizes, f) && suffix != ""
    ensures var file := f + "." + suffix;
            var wrapped := Set(sizes, f, Obj([("", Get(sizes, f))]));
            WellKeyed(wrapped) &&
            FoldFile(wrapped, file)
            == Ok(Delete(Set(sizes, f, Obj([("", Get(sizes, f)), (suffix, Get(sizes, file))])), file))
  {
    var file := f + "." + suffix;
    SetWellKeyed(sizes, f, Obj([("", Get(sizes, f))]));
    NoObjectPrefixSet(sizes, f, Obj([("", Get(sizes, f))]));
    FoldFileMoves(Set(sizes, f, Obj([("", Get(sizes, f))])), f, suffix);
    assert file != f by {
      assert |file| > |f|;
    }
    WrappedHolder(sizes, f, file, suffix);
  }

  /**
   * `f: n, f.suffix: m`, where no proper prefix of `f` names an object,
   * upgrades in sorted order to `f: {"": n, suffix: m}`, and the entry
   * `f.suffix` is gone.
   */
  lemma WrapThenMove(sizes: seq<(string, Value)>, f: string, suffix: string)
    requires WellKeyed(sizes) && NoObjectPrefix(sizes, f) && suffix != ""
    ensures var file := f + "." + suffix;
            FoldFiles(sizes, [f, file])
            == Ok(Delete(Set(sizes, f, Obj([("", Get(sizes, f)), (suffix, Get(sizes, file))])), file))
  {
    FoldPair(sizes, f, f + "." + suffix);
    FoldOne(sizes, f);
    FoldFileWraps(sizes, f);
    MoveIntoWrapped(sizes, f, suffix);
  }
}
