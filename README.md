# cldr.js: bundle lookup, parameter validation and the size-report helpers

This project models three kinds of code from cldr.js:

- **The available-bundle lookup** (`src/bundle/lookup.js`). It is the class `BundleLookup.AvailableBundles`, which holds:
  - `availableBundleMap`, a table from a minimised language id to the name of a loaded bundle;
  - `availableBundleMapQueue`, the queue of bundle names loaded since the last lookup.

  `Lookup` drains the queue front to back into the table, empties the queue and reads the requested id. The three subtag functions (`subtags`, `likelySubtags`, `removeLikelySubtags`) and `Cldr.localeSep` are parameters, bundled in `Subtagger`.
- **The parameter validators** (`src/common/validate/`). Each one either passes or fails with an error code and an attribute record, as in `Validate.Outcome`.
- **The pure helpers of the size-report tool** (`build/compare-size.js`):
  - `uncolor` (`AnsiText`);
  - the ANSI-aware word wrap `wraptext` (`WrapText`, a method with its loop, whose body is the method `Step`);
  - `processPatterns` (`Patterns`, one method with its loop);
  - the comparator of `helpers.sorted_labels` (`Labels`);
  - `helpers.delta` (`SizeDelta`);
  - the format upgrade in `helpers.get_cache` (`SizeCache`, methods with loops, each proved equal to a recursive definition).

The supporting modules are:
- `JsValue`: JavaScript values — `typeof`, truthiness, and plain objects as own properties in insertion order, with `o[k]`, `o[k] = v` and `delete o[k]`.
- `Strings`: `join`, `split`, canonical numeric strings, and the default sort order.
- `Sorting`: a sort by a strict total order. It is unique (`Sorting.SortedUnique`), so it stands for any engine's `Array.prototype.sort`.

**Last wins, not longest.** The guard at `src/bundle/lookup.js:26-29` compares name lengths, but it reads `availableBundleMapQueue[minBundle]`: it indexes the queue array with a locale id, not the table. That finds nothing unless the id is a canonical array index such as "0". So among queued bundles that share a minimised id, the last one queued is stored (`BundleLookup.LaterBundleOverwritesLonger`). When the id is such an index, the guard reads the queue element at that index. It skips the new name when that element is a truthy string shorter than the new name (`BundleLookup.IndexKeyKeepsShorter`). For example, take the queue ["x", "abc"], where "x" does not minimise to "0" and "abc" does. Then "abc" is skipped, because the element at index 0 is "x", and the key "0" stays absent.

## Model

| member | source | states |
|---|---|---|
| BundleLookup.AvailableBundles.Lookup | src/bundle/lookup.js:15-36 | the queue is empty afterwards; the table becomes the front-to-back drain of the old queue into the old table; with an empty queue the table is unchanged; the answer is the entry for the id, or null when there is none or it is empty |
| BundleLookup.AvailableBundles.LookupTwice | src/bundle/lookup.js:19-35 | two lookups in a row give the same answer, and the second leaves the state as the first left it |
| BundleLookup.Install | src/bundle/lookup.js:21-30 | one drain step: the bundle is stored under join(minimize(maximize(subtags(b))), sep) unless the guard finds a truthy, shorter queue entry under that key |
| BundleLookup.QueueSlot | src/bundle/lookup.js:26 | indexing the queue array with a string finds an element only for a canonical index below the queue's length |
| BundleLookup.Found | src/bundle/lookup.js:35 | `map[id] \|\| null`: a result exactly when the id is a key with a non-empty name, and then that name |
| BundleLookup.DrainedGrows | src/bundle/lookup.js:20-31 | draining never removes a key |
| BundleLookup.DrainedUntouched | src/bundle/lookup.js:20-31 | a key no drained bundle produces keeps its old entry, or stays absent |
| BundleLookup.DrainedValues | src/bundle/lookup.js:20-31 | every stored name was already in the table or was queued |
| BundleLookup.DrainedLastWins | src/bundle/lookup.js:20-30 | a queued bundle the guard lets through, with no later bundle sharing its key, is the stored name for that key |
| BundleLookup.DrainedHasEveryQueuedKey | src/bundle/lookup.js:22-30 | when no minimised id is an array index, every queued bundle's key is present after the drain |
| BundleLookup.FoundNullIffAbsent | src/bundle/lookup.js:35 | with no empty names stored, the answer is null exactly when the id is not a key |
| BundleLookup.DrainKeepsNamesNonEmpty | src/bundle/lookup.js:20-31 | non-empty names in the table and the queue stay non-empty through the drain |
| BundleLookup.LaterBundleOverwritesLonger | src/bundle/lookup.js:26-30 | "en-GB" then "en", both minimising to "en", leave "en" stored: last wins, not longest |
| BundleLookup.IndexKeyKeepsShorter | src/bundle/lookup.js:26-29 | when the key is the index "0", the guard keeps the shorter "ab" over the later "abc" |
| Validate.Check | src/common/validate/type.js:4 | passes exactly when the check holds; a failure carries the given code and attributes |
| Validate.Presence | src/common/validate/presence.js:3-7 | passes exactly when the value is not undefined; otherwise E_MISSING_PARAMETER with exactly {name} |
| Validate.PresenceAcceptsFalsy | src/common/validate/presence.js:4 | null, false, 0 and "" are all present |
| Validate.TypeAttributes | src/common/validate/type.js:5-8 | the attributes are exactly expected, name and value, as passed in |
| Validate.Type | src/common/validate/type.js:3-9 | passes exactly when the flag holds; a failure is E_INVALID_PAR_TYPE with {expected, name, value} |
| Validate.TypeIgnoresValue | src/common/validate/type.js:3-4 | whether the check passes depends on the flag alone |
| Validate.TypePath | src/common/validate/type/path.js:4-6 | passes exactly for strings and arrays; otherwise E_INVALID_PAR_TYPE expecting "String or Array" |
| Validate.TypePlainObject | src/common/validate/type/plain_object.js:4-6 | passes exactly for undefined and plain objects; otherwise E_INVALID_PAR_TYPE expecting "Plain Object", with the name and value unchanged |
| Validate.PathAndPlainObjectDiffer | src/common/validate/type/path.js:5 | undefined fails the path check but passes the plain-object check; strings, arrays and plain objects split the other way |
| AnsiText.CodeAt | build/compare-size.js:75 | a match of `\x1B\[\d+m`: ESC, "[", at least one digit, "m" |
| AnsiText.CodeAtCode | build/compare-size.js:75 | conversely, ESC, "[", one or more digits and "m" at the front are matched whole, whatever follows |
| AnsiText.Uncolor | build/compare-size.js:74-76 | removing codes never lengthens the text or adds a character |
| AnsiText.UncolorPlain | build/compare-size.js:75 | a text without ESC is unchanged |
| AnsiText.UncolorIsOnePass | build/compare-size.js:75 | a code that appears only once an inner code is removed stays |
| AnsiText.UncolorRender | build/compare-size.js:74-76 | `uncolor` of a rendered token sequence is exactly its visible text |
| WrapText.WrapText | build/compare-size.js:79-137 | for width ≥ 1: at least one line; no line holds a newline; every line, without codes and trailing spaces, is at most `width` wide; the joined output relates to the input by Breaks; every line after a colour code that shows a character starts with a colour code; the joined output reads back against the input token by token (Rewrapped): each token is a copy of the next input token; or a newline in place of an input space, only where the word after that space (its characters up to the next space or newline) is non-empty and would carry the line past `width`; or a newline inserted only where a line with no space shows exactly `width` characters and a non-space character follows; or a code of the input repeated at a line's start in front of an input character |
| WrapText.NoBreakWhereItFits | build/compare-size.js:117-119 | "a b" in 10 columns reads back unchanged, and not as "a" / "b": a space that is not followed by an overflowing word is kept |
| WrapText.BreakBeforeLongWord | build/compare-size.js:117-126 | "ab cde" in 4 columns reads back as "ab" / "cde": the break is at the space before the word that overflows |
| WrapText.NoCutAfterSpace | build/compare-size.js:123-125 | "ab cde" in 4 columns does not read back as "ab c" / "de": a line that holds a space is cut at its space, never inside a word |
| WrapText.BreakAtLastSpace | build/compare-size.js:117-126 | "abc  d" in 3 columns reads back as "abc " / "d": the break is at the last space before the overflowing word |
| WrapText.NoBreakBeforeSpace | build/compare-size.js:117-125 | "abc  d" in 3 columns does not read back as "abc" / " d": a space followed by another space is not the break |
| WrapText.FitsOnScreen | build/compare-size.js:74-76 | a line that Fits measures at most `width` after `uncolor` and trimming trailing spaces |
| WrapText.BreaksKeepsInk | build/compare-size.js:118-129 | related texts have the same non-space, non-newline characters in the same order: nothing is lost or reordered |
| WrapText.BreaksKeepsNewlines | build/compare-size.js:94-131 | every input newline is still a line end in the output |
| WrapText.BreaksReplace | build/compare-size.js:124-126 | a break at a space drops only that space, which becomes the line end |
| WrapText.CutWordIsFull | build/compare-size.js:118-126 | a word with no space inside the limit is cut after exactly `width` characters |
| WrapText.LastSpace | build/compare-size.js:124 | `captured.lastIndexOf(" ")`: a space token, with none after it, or -1 |
| Patterns.Flatten | build/compare-size.js:178 | no items flatten to no patterns |
| Patterns.FlattenOne | build/compare-size.js:178 | one item contributes its pattern, or the patterns of its array in order |
| Patterns.FlattenAppend | build/compare-size.js:178 | flattening distributes over concatenation, so the items contribute in order |
| Patterns.Glob | build/compare-size.js:180-184 | an exclusion's pattern is passed on without its "!" |
| Patterns.Union | build/compare-size.js:192 | `_.union`: duplicate-free, holding exactly the elements of either side |
| Patterns.UnionKeepsOrder | build/compare-size.js:192 | files already selected keep their place at the front |
| Patterns.Difference | build/compare-size.js:189 | `_.difference`: exactly the elements of the first not in the second; duplicate-freedom is kept |
| Patterns.Fold | build/compare-size.js:176-195 | the result of applying the patterns left to right has no duplicates |
| Patterns.FoldSelects | build/compare-size.js:178-193 | a file is selected exactly when some inclusion pattern matches it and no later exclusion matches it |
| Patterns.FoldInclusionAppends | build/compare-size.js:192 | an inclusion keeps the earlier selection in order and adds its matches after it |
| Patterns.ProcessPatterns | build/compare-size.js:174-196 | the loop's result is Fold of the flattened patterns: duplicate-free, and a file is in it exactly when FoldSelects says so |
| Labels.IndexOf | build/compare-size.js:214 | `keys.indexOf(x)`: the first index of x, or -1 exactly when x is absent |
| Labels.CompareAntisymmetric | build/compare-size.js:210-215 | `a` before `b` exactly when `b` after `a` |
| Labels.BeforeIsStrictTotal | build/compare-size.js:207-216 | on distinct keys the comparator is a strict total order |
| Labels.SortedLabels | build/compare-size.js:200-218 | the metadata key "" is dropped; every other key appears once; the result is sorted by the comparator |
| Labels.SortedLabelsUnique | build/compare-size.js:206-217 | any sorted arrangement of the other keys equals SortedLabels: the result does not depend on the engine's sort |
| Labels.TipsFirst | build/compare-size.js:212 | tips come before non-tips |
| Labels.SpaceLabelsLast | build/compare-size.js:213 | within a group, labels starting with a space come last |
| Labels.TiesKeepInsertionOrder | build/compare-size.js:214 | labels tied on the earlier tests keep their insertion order |
| Labels.SortedLabelsExample | build/compare-size.js:203-217 | keys "", " last run", "dev", "main" with tip "main" sort to "main", "dev", " last run" |
| SizeDelta.Delta | build/compare-size.js:228-240 | red exactly for a positive difference, green exactly for a negative one, grey exactly for 0, undefined or NaN; the text is at least `width` long and is never cut; text longer than `width` has no leading space |
| SizeDelta.DeltaReadsBack | build/compare-size.js:231-239 | with padding removed, the text reads back as "+n", "=" for 0, the negative number itself, or "?" for a missing size |
| SizeDelta.StripPadding | build/compare-size.js:239 | `_.padStart` only adds leading spaces |
| SizeDelta.PadStartKeeps | build/compare-size.js:239 | the unpadded text ends the padded text |
| SizeCache.Upgraded | build/compare-size.js:259-294 | a successful upgrade is an object whose metadata carries a truthy version |
| SizeCache.Upgrade | build/compare-size.js:259-294 | the three steps and the loop over labels compute Upgraded |
| SizeCache.VersionedUnchanged | build/compare-size.js:262-266 | a cache whose metadata has a truthy version is returned unchanged |
| SizeCache.UpgradeIdempotent | build/compare-size.js:259-294 | upgrading an upgraded cache changes nothing |
| SizeCache.EmptyPromoted | build/compare-size.js:259-267 | nothing, a primitive or null becomes {"": {version: 0.4, tips: {}}, " last run": cache} |
| SizeCache.LegacyPromoted | build/compare-size.js:262-293 | an object without metadata becomes the sizes of the last run, beside fresh version-0.4 metadata, with its entries upgraded |
| SizeCache.LabelsUpgraded | build/compare-size.js:268-293 | the labels keep their names, the metadata stays as stamped, and distinct names are kept |
| SizeCache.LabelsUpgradedPerKey | build/compare-size.js:268-293 | with distinct labels, the loop fails exactly when the upgrade of some label's truthy sizes fails; otherwise each label other than "" with truthy sizes holds its upgraded sizes and every other property, the metadata included, keeps its value |
| SizeCache.UpgradeLabels | build/compare-size.js:268-293 | the loop over the labels computes LabelsUpgraded |
| SizeCache.TargetSplitsFile | build/compare-size.js:277-288 | the target prefix, a dot and the rest of the name spell the file name, and the prefix names an object |
| SizeCache.FindTarget | build/compare-size.js:277-288 | the prefix-growing loop finds the shortest proper dotted prefix that names an object, or none |
| SizeCache.FoldFile | build/compare-size.js:277-291 | upgrading one entry (moved under its target, wrapped, or a failure) keeps the names distinct |
| SizeCache.NoObjectPrefixTarget | build/compare-size.js:277-288 | an entry has no target exactly when no proper dotted prefix of its name names an object |
| SizeCache.DotlessNoObjectPrefix | build/compare-size.js:277-280 | a name without a dot has no proper dotted prefix |
| SizeCache.FoldFileWraps | build/compare-size.js:290-291 | an entry f: n none of whose proper dotted prefixes names an object becomes f: {"": n}, whatever n is |
| SizeCache.FoldFileMoves | build/compare-size.js:277-285 | f.suffix: m, with f an object and no proper dotted prefix of f an object, is written into f as suffix: m and deleted, as dist/cldr.js.gz moves into dist/cldr.js |
| SizeCache.Place | build/compare-size.js:281-291 | writing the entry into an object target, or wrapping it, keeps the names distinct |
| SizeCache.UpgradeFile | build/compare-size.js:277-291 | one turn of the loop over the sorted names computes FoldFile |
| SizeCache.UpgradeEntries | build/compare-size.js:274-292 | the loop over the sorted names computes FoldFiles over them, stopping at the first failure |
| SizeCache.WrappedUpgraded | build/compare-size.js:262-293 | a freshly wrapped cache gets version 0.4 metadata, and its last-run sizes are upgraded when truthy |
| SizeCache.WrapThenMove | build/compare-size.js:274-292 | f: n and f.suffix: m, with no proper dotted prefix of f an object, upgrade in sorted order to f: {"": n, suffix: m}, whatever n is, and f.suffix is gone |
| SizeCache.PrefixSortsFirst | build/compare-size.js:275 | a name sorts before itself with a suffix, so f is upgraded before f.gz |
| SizeCache.SizesUpgraded | build/compare-size.js:274-292 | the upgraded sizes still have distinct names |
| SizeCache.UpgradeSizes | build/compare-size.js:274-292 | the loop over the sorted names computes SizesUpgraded |
| SizeCache.ArraySizesWrapped | build/compare-size.js:274-292 | an array of sizes has every element wrapped as {"": x} |

## Left out

- Prototype properties: a queue, table or cache key that names a built-in property (`length`, `__proto__`, `slice`) is read as an own property only.
- `Object.keys` order: JavaScript lists integer-like names first, in numeric order. The model keeps plain insertion order, which affects the iteration order of the cache's labels.
- lodash `_.forEach` treats an object with a numeric `length` as array-like. The model iterates over own names.
- `likelySubtags`, `removeLikelySubtags`, `subtags` and `src/bundle/parent_lookup.js` are not part of this model. The first three are parameters.
- `src/core/load.js`, `set_available_bundles`, `src/item/get_resolved.js` and `src/supplemental.js` are not part of this model. The queue and the table are taken as given state.
- `src/common/create_error.js`: the message built with `JSON.stringify` and the `Error` object are not modelled. An error is its code plus its attributes.
- WrapText.WrapText works on a pre-tokenised input (codes, newlines, characters). It does not model:
  - the regular expression at line 94, including `.` not matching `\r`;
  - re-reading the rolled-back text as a string: the rolled-back tokens are kept as tokens, which is the same unless a code's characters were split;
  - the final `join("\n")`: the method returns the lines.
- WrapText.WrapText: the colour code repeated at the start of a line is stated to be a code of the input, not the last code before the character it precedes. That is because the source does not promise the latter: after a cut it reads the cut-off word again while `color` already holds the last code read so far, which can stand later in the input. With width 5, the input `aaa b`, ESC[31m, `b` gives the second line ESC[31m `b` ESC[31m `b`, which colours the first `b`.
- WrapText.WrapText: it is not proved that Rewrapped and Fits leave one output only for each input. The lemmas `NoBreakWhereItFits`, `BreakBeforeLongWord`, `NoCutAfterSpace`, `BreakAtLastSpace` and `NoBreakBeforeSpace` show, on three inputs, that a break the source does not make is rejected.
- WrapText.WrapText on an input char ESC: the width and uncolor facts (`FitsOnScreen`, `UncolorRender`) assume no literal escape character in the text that does not start a code.
- `writetableln`, `helpers.label`, `helpers.sizes`, and the `compareSizes` orchestration are not modelled. Neither are file reads and writes, `glob`, gzip sizes, the `git` subprocess, `console.log` and the `chalk` escape bytes: colours are a tag on the text.
- Characters: a Dafny `char` is a Unicode scalar value, not a UTF-16 code unit. Lone surrogates cannot occur, and a character outside the Basic Multilingual Plane counts 1 where JavaScript counts 2. This affects `bundle.length` (`src/bundle/lookup.js:27`), `charlen` in `wraptext`, and the default sort of names (`build/compare-size.js:206`, `build/compare-size.js:275`).
- Labels.SortedLabels takes the tips as a set of names. The `TypeError` thrown when `cache[""]` or its `tips` is missing, or when `tips` is a primitive (`build/compare-size.js:201`, `build/compare-size.js:212`), is not modelled.
- Validate.TypePlainObject: `isPlainObject`'s own test (the prototype of the value) is not modelled. The model's `Obj` values are the plain objects, and arrays, `null` and other objects are not.
- SizeDelta.Delta takes a whole number of bytes, `undefined` or `NaN`. Fractional and floating-point differences are left out.
- SizeCache.Upgrade runs on JSON-shaped values. Aliasing between objects is not modelled, since values are trees. A named property written into an array or a non-plain object (`sizes.f.gz = …` with `f` an array) ends in the error `Unmodelled` instead of the write. Strict-mode writes to a primitive or to `null` end in `TypeError`, as the source's `"use strict"` makes them throw.
- The parse error path of `get_cache` (lines 246-250) is reduced to its outcome: an unreadable file is the input `Undefined`.

