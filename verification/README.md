# H5P content upgrade engine

This project is a Dafny model of the H5P content upgrade process, in
`h5p-content-upgrade-process.js`. A piece of H5P content is a parameter tree
stored as JSON and tagged with its library's name and version. Upgrading it
from an old version of the library to a newer one involves four steps:

- **Dispatch.** Run the library's own upgrade hooks, taken from a registry
  indexed by major version and then minor version (`processParams`). A hook
  runs when its major lies between the old and new majors and its minor lies
  above the old minor and at most the new minor. Within one major this is the
  range being crossed; across majors it is not (see "## Findings"). Hooks run
  in ascending order, and each receives the parameters the previous one
  produced.
- **Walk.** Walk the target version's field descriptors (the "semantics") to
  find embedded sub-content. These are `library` fields, possibly inside
  `group` and `list` fields. A sub-content that is older than the version the
  field offers is upgraded by a recursive call, and its field is rewritten to
  name the new version (`processField`).
- **Iterate.** Every walk over fields, sub-fields, list entries and registry
  levels goes through one serial iterator. It visits entries in order, one at a
  time, and stops at the first error (`asyncSerial`).
- **Entry point.** Parse the stored text, refuse anything that is not an
  object with `errorParamsBroken`, upgrade it, and serialize the result (the
  `ContentUpgradeProcess` constructor).

The modules follow that structure:

- `Results`: the error kinds and the `Result`/`Option` wrappers.
- `JsonValues`: the JSON tree, JavaScript truthiness, and property reads and
  writes.
- `Text`: `split(' ', 2)` and decimal digits.
- `Versions`: "major.minor" parsing and formatting, and version order.
- `KeyOrder`: the ascending enumeration order of integer-like property names.
- `Iteration`: the serial iterator.
- `Schema`: field descriptors.
- `Dispatch`: the hook dispatcher.
- `Engine`: the orchestrator, the walker and the entry point.
- `WalkerProperties`, `WalkerLists`, `WalkerFields` and `UpgradeProperties`:
  what the walker and the whole upgrade guarantee.

Callbacks become results. Each callback-passing function is a pure function
that returns `Success(value)` or `Failure(error)`, and the iterator is a left
fold with early exit. The engine's collaborators are parameters:

- the library loader;
- the hook registry (the global `H5PUpgrades`);
- the hooks themselves;
- `JSON.parse` and `JSON.stringify`.

The engine's environment also names the minor-version filter the dispatcher
applies (`Env.minorRule`). The program as it stands is `Engine.Upgrade` with
`AsWritten`; `Corrected` is the filter it evidently intends. Every
upgrade-level property below holds for either filter.

Nesting depth is bounded by a fuel argument. Exhausting it is reported as
`NestingTooDeep`. `UpgradeFuelMono` shows that any outcome other than
`NestingTooDeep`, success or failure, stays the same with more fuel.

The model is functional. Every upgrade builds a new tree, so a failure leaves
no partial upgrade behind. The JavaScript, by contrast, mutates the parsed tree
in place.

## Model

All source paths are under `lib/assets/h5p-core/library/js/`.

| member | source | states |
|---|---|---|
| Iteration.Serial | lib/assets/h5p-core/library/js/h5p-content-upgrade-process.js:237-279 | `asyncSerial` as a fold that exits early. Its contract is stated by `Iteration.RunSerial` (the callback trace), `Iteration.SerialOutcomeAtLastVisit`, `Iteration.SerialStopsAtFirstError`, `Iteration.SerialAppend` and `Iteration.SerialInvariant`. |
| Iteration.RunSerial | lib/assets/h5p-core/library/js/h5p-content-upgrade-process.js:237-279 | The iterator invokes `process` on the entries in order, once each, up to and including the first failing one, and then calls `finished` exactly once with that error, or with none after the last entry. |
| Iteration.Visited | lib/assets/h5p-core/library/js/h5p-content-upgrade-process.js:265-275 | The number of `process` calls is at most the number of entries, and at least one when there are entries. |
| Iteration.Indices | lib/assets/h5p-core/library/js/h5p-content-upgrade-process.js:238-258 | The positions the iterator visits are 0 to n-1, each once, in order: an array's indices, or the positions of an object's keys snapshotted before the first step. |
| Iteration.SerialAppend | lib/assets/h5p-core/library/js/h5p-content-upgrade-process.js:265-275 | Iterating a concatenation is iterating its first part and then, only on success, its second part from the resulting state. |
| Iteration.SerialStopsAtFirstError | lib/assets/h5p-core/library/js/h5p-content-upgrade-process.js:269-271 | Once a step has failed, nothing after it matters: any sequence with the same visited prefix gives the same error after the same number of visits. |
| Iteration.SerialOutcomeAtLastVisit | lib/assets/h5p-core/library/js/h5p-content-upgrade-process.js:265-275 | The iterator succeeds only after visiting every entry. When it fails, every entry before the last one visited was processed successfully, and the step at that last entry failed with the iterator's error. |
| Iteration.SerialInvariant | lib/assets/h5p-core/library/js/h5p-content-upgrade-process.js:255-275 | A property of the state that every successful step preserves holds of the final state. |
| Iteration.SerialIdentity | lib/assets/h5p-core/library/js/h5p-content-upgrade-process.js:255-275 | When every step leaves the state unchanged and succeeds, the iteration succeeds with the initial state. |
| Iteration.SerialAgree | lib/assets/h5p-core/library/js/h5p-content-upgrade-process.js:255-275 | Two step functions that agree wherever the first succeeds give the same successful iteration. |
| Iteration.SerialAgreeUnless | lib/assets/h5p-core/library/js/h5p-content-upgrade-process.js:265-275 | Two step functions that agree wherever the first does not fail with a given error give the same iteration, success or failure, unless it ends with that error. |
| KeyOrder.Ascending | lib/assets/h5p-core/library/js/h5p-content-upgrade-process.js:241-247 | An object's integer-like keys are enumerated in strictly increasing order, each key exactly once. |
| KeyOrder.Least | lib/assets/h5p-core/library/js/h5p-content-upgrade-process.js:243-247 | Every non-empty key set has a member at most every other member: the first key enumerated. |
| JsonValues.Truthy | lib/assets/h5p-core/library/js/h5p-content-upgrade-process.js:58 | JavaScript truthiness, the test every write-back makes (lines 58, 187, 198 and 214). `WalkerFields.Written`, `WalkerLists.ListVisitAt` and `UpgradeProperties.SemanticsVisitAt` state what a falsy result leaves behind. |
| JsonValues.IsObject | lib/assets/h5p-core/library/js/h5p-content-upgrade-process.js:16 | `instanceof Object` on a parsed value, true for objects and arrays. `Engine.UpgradeContent` states that anything else fails with errorParamsBroken, and `UpgradeProperties.UpgradeContentRoundTrip` states that an object or array is upgraded. |
| JsonValues.Get | lib/assets/h5p-core/library/js/h5p-content-upgrade-process.js:57 | Reading a property fails (TypeError) exactly on `null`. A value is found only on an object, and it is the object's member under that key. |
| JsonValues.Lookup | lib/assets/h5p-core/library/js/h5p-content-upgrade-process.js:150 | A key is absent exactly when no member carries it. Otherwise the value read is the one at the key's first occurrence. |
| JsonValues.Put | lib/assets/h5p-core/library/js/h5p-content-upgrade-process.js:59 | After an assignment the key reads back as the assigned value. Every other key reads as before. The key order is kept, and a new key is appended. |
| JsonValues.Set | lib/assets/h5p-core/library/js/h5p-content-upgrade-process.js:199 | On an object the assigned key reads back as the value and all other keys are unchanged. On anything else the value is left as it is. |
| JsonValues.PutSame | lib/assets/h5p-core/library/js/h5p-content-upgrade-process.js:59 | Assigning a key the value it already holds gives back the same object. |
| JsonValues.SetSame | lib/assets/h5p-core/library/js/h5p-content-upgrade-process.js:199 | Writing back the value a key already holds leaves the value as it is. |
| JsonValues.Entries | lib/assets/h5p-core/library/js/h5p-content-upgrade-process.js:212 | The iterator visits an array's elements, or an object's member values in key order, and nothing for any other value. |
| JsonValues.WithEntry | lib/assets/h5p-core/library/js/h5p-content-upgrade-process.js:215 | Writing the i-th visited entry replaces exactly that entry. The kind of value is kept, and so are an object's keys. |
| JsonValues.WithEntrySame | lib/assets/h5p-core/library/js/h5p-content-upgrade-process.js:215 | Writing back the entry already there changes nothing. |
| Text.SplitTwo | lib/assets/h5p-core/library/js/h5p-content-upgrade-process.js:155 | `split(' ', 2)` gives the text before the first separator. It gives a second piece exactly when a separator occurs, and that piece stops before the next separator. |
| Text.SplitJoin | lib/assets/h5p-core/library/js/h5p-content-upgrade-process.js:155-157 | Splitting "a b" (where neither part holds a space) gives back exactly `a` and `b`. |
| Text.SplitWithout | lib/assets/h5p-core/library/js/h5p-content-upgrade-process.js:155 | A string without a space splits into itself alone, with no version piece. |
| Text.IndexOf | lib/assets/h5p-core/library/js/h5p-content-upgrade-process.js:155 | Finds the first position holding the character, or reports that none does. |
| Text.DecimalRoundTrip | lib/assets/h5p-core/library/js/h5p-content-upgrade-process.js:173 | Printing a version number in decimal and reading it back gives the number. |
| Versions.ParseFormat | lib/assets/h5p-core/library/js/h5p-content-upgrade-process.js:173 | The "major.minor" text written into an upgraded identifier parses back to the same version. |
| Versions.Parse | lib/assets/h5p-core/library/js/h5p-content-upgrade-process.js:164-165 | A version read comes from a dot with a non-empty run of digits on each side, and it is the version those digits spell. |
| Versions.ParseDigits | lib/assets/h5p-core/library/js/h5p-content-upgrade-process.js:164-165 | Every string made of two non-empty runs of digits joined by a dot reads as the version they spell. |
| Versions.Format | lib/assets/h5p-core/library/js/h5p-content-upgrade-process.js:173 | The written version contains a dot and no space, so it stays the second piece of an identifier. |
| Versions.IsUpgrade | lib/assets/h5p-core/library/js/h5p-content-upgrade-process.js:166 | The walker declines when the used major is greater, or when the majors are equal and the used minor is at least the offered one. So it upgrades exactly when the offered version is strictly later in (major, minor) order. |
| Dispatch.MajorInRange | lib/assets/h5p-core/library/js/h5p-content-upgrade-process.js:96 | The major filter: a major is visited when it lies between the old and new majors. `Dispatch.SelectedExactly` and `Dispatch.SelectedFromMembers` state its effect on which hooks run. |
| Dispatch.MinorInRange | lib/assets/h5p-core/library/js/h5p-content-upgrade-process.js:103 | The minor filter, as written and corrected. `Dispatch.SelectedExactly` states its effect as written, `Dispatch.CorrectedSelectsRange` states that the corrected one accepts exactly the versions in (old, new], and `Dispatch.RulesAgreeWithinMajor` states that the two agree within one major. |
| Dispatch.RunMinors | lib/assets/h5p-core/library/js/h5p-content-upgrade-process.js:102-126 | The inner iteration over one major's minors in ascending key order. `Dispatch.RunMinorsIsApplyHooks` states that it runs exactly that major's hooks that pass the minor filter. |
| Dispatch.RunMajors | lib/assets/h5p-core/library/js/h5p-content-upgrade-process.js:95-130 | The outer iteration over a library's majors. `Dispatch.RunMajorsIsApplyHooks` and `Dispatch.SelectedCharacterized` state that it runs exactly the registered hooks that pass both filters, in ascending order. |
| Dispatch.ProcessParams | lib/assets/h5p-core/library/js/h5p-content-upgrade-process.js:80-131 | With no hooks registered, the dispatcher fails with scriptMissing naming "name newVersion" if the library declares an upgrades script, and otherwise hands the parameters back unchanged. With hooks registered, it equals threading the parameters through exactly the selected hooks in order, stopping at the first failure. |
| Dispatch.ApplyHooksOne | lib/assets/h5p-core/library/js/h5p-content-upgrade-process.js:109-115 | Running one registered hook is calling the hook itself, or its `contentUpgrade` when the entry wraps one. |
| Dispatch.ApplyHooksAppend | lib/assets/h5p-core/library/js/h5p-content-upgrade-process.js:112-114 | Running a concatenation of hook lists is running the first, and then, only on success, the second on its output. |
| Dispatch.RunMinorsIsApplyHooks | lib/assets/h5p-core/library/js/h5p-content-upgrade-process.js:102-126 | The inner iteration over one major's minors threads the parameters through exactly that major's hooks that pass the minor filter, in order. |
| Dispatch.RunMajorsIsApplyHooks | lib/assets/h5p-core/library/js/h5p-content-upgrade-process.js:95-130 | The nested iteration over majors and minors equals running the reference list of selected hooks. |
| Dispatch.MinorPairsMembers | lib/assets/h5p-core/library/js/h5p-content-upgrade-process.js:102-106 | One major contributes exactly those of its minors that pass the minor filter. |
| Dispatch.SelectedFromMembers | lib/assets/h5p-core/library/js/h5p-content-upgrade-process.js:95-106 | A hook is among those selected from the visited majors exactly when its major was visited and is registered, and the hook passes both filters. |
| Dispatch.SelectedExactly | lib/assets/h5p-core/library/js/h5p-content-upgrade-process.js:95-106 | A hook runs if and only if it is registered and passes both filters. Within one major that means exactly the hooks with old minor < minor <= new minor. |
| Dispatch.MinorPairsAscend | lib/assets/h5p-core/library/js/h5p-content-upgrade-process.js:102 | One major's selected hooks come out in strictly ascending version order. |
| Dispatch.SelectedFromAscends | lib/assets/h5p-core/library/js/h5p-content-upgrade-process.js:95-102 | Hooks selected from majors visited in increasing order come out in strictly ascending version order. |
| Dispatch.AscendsConcat | lib/assets/h5p-core/library/js/h5p-content-upgrade-process.js:95-102 | Two ascending runs joined, where the first ends below the second, ascend. |
| Dispatch.SelectedAscends | lib/assets/h5p-core/library/js/h5p-content-upgrade-process.js:95-126 | Hooks run in strictly ascending (major, minor) order. |
| Dispatch.AscendsUnique | lib/assets/h5p-core/library/js/h5p-content-upgrade-process.js:95-126 | Two strictly ascending hook lists with the same members are equal, so membership and order together determine what runs. |
| Dispatch.AscendsSameHead | lib/assets/h5p-core/library/js/h5p-content-upgrade-process.js:95-126 | Two strictly ascending lists with the same members start with the same version. |
| Dispatch.AscendsFirstIsLeast | lib/assets/h5p-core/library/js/h5p-content-upgrade-process.js:95-126 | The first version of a strictly ascending list is before every other member. |
| Dispatch.AscendsSameTail | lib/assets/h5p-core/library/js/h5p-content-upgrade-process.js:95-126 | Two strictly ascending lists with the same members, less their common first version, have the same members. |
| Dispatch.SelectedCharacterized | lib/assets/h5p-core/library/js/h5p-content-upgrade-process.js:95-126 | The list of hooks run is the unique ascending list of the registered hooks that pass the filters. |
| Dispatch.SameVersionUnchanged | lib/assets/h5p-core/library/js/h5p-content-upgrade-process.js:96-106 | Upgrading to the version already held runs no hook and hands the parameters back unchanged. |
| Dispatch.RulesAgreeWithinMajor | lib/assets/h5p-core/library/js/h5p-content-upgrade-process.js:103 | Within one major the minor filter as written and the corrected one select the same hooks. |
| Dispatch.CrossMajorSkipsInRangeHooks | lib/assets/h5p-core/library/js/h5p-content-upgrade-process.js:96-106 | From 1.5 to 2.1 the versions 1.6, 2.0 and 2.1 all lie in the range crossed. The filter as written rejects all three, while the corrected one accepts them. |
| Dispatch.CrossMajorAsWrittenRunsNone | lib/assets/h5p-core/library/js/h5p-content-upgrade-process.js:103 | As written, an upgrade from 1.5 to 2.1 of a library with hooks at 1.6, 2.0 and 2.1 runs none of them. |
| Dispatch.CrossMajorCorrectedRunsAll | lib/assets/h5p-core/library/js/h5p-content-upgrade-process.js:96-106 | With the corrected filter the same upgrade runs 1.6, 2.0 and 2.1, in that order. |
| Dispatch.CorrectedSelectsRange | lib/assets/h5p-core/library/js/h5p-content-upgrade-process.js:96-106 | The corrected filter accepts a version exactly when it is after the version held and not after the target. |
| Dispatch.CorrectedSelectedIsRange | lib/assets/h5p-core/library/js/h5p-content-upgrade-process.js:96-106 | With the corrected filter, a registered hook runs if and only if its version lies in (old, new]. |
| Dispatch.TwoHooksBothSelected | lib/assets/h5p-core/library/js/h5p-content-upgrade-process.js:95-115 | With hooks at 1.2 and 1.5, an upgrade from 1.1 to 1.6 selects 1.2 and then 1.5. |
| Dispatch.TwoHooksLaterSelected | lib/assets/h5p-core/library/js/h5p-content-upgrade-process.js:103 | From 1.3 to 1.6 only the hook at 1.5 is selected: a hook at the held minor or below is skipped. |
| Dispatch.TwoHooksEarlierSelected | lib/assets/h5p-core/library/js/h5p-content-upgrade-process.js:103 | From 1.1 to 1.4 only the hook at 1.2 is selected: a hook above the target minor is skipped. |
| Dispatch.TwoHooksBothRun | lib/assets/h5p-core/library/js/h5p-content-upgrade-process.js:95-130 | From 1.1 to 1.6 the dispatcher feeds the 1.2 hook's output to the 1.5 hook, and a failure of the first is the result. |
| Dispatch.TwoHooksLaterOnly | lib/assets/h5p-core/library/js/h5p-content-upgrade-process.js:95-130 | From 1.3 to 1.6 the dispatcher's result is exactly the 1.5 hook's result. |
| Dispatch.TwoHooksEarlierOnly | lib/assets/h5p-core/library/js/h5p-content-upgrade-process.js:95-130 | From 1.1 to 1.4 the dispatcher's result is exactly the 1.2 hook's result. |
| Engine.Upgrade | lib/assets/h5p-core/library/js/h5p-content-upgrade-process.js:40-68 | The orchestrator: load, dispatch, walk the top-level fields. Its contract is stated by `UpgradeProperties.EarlyFailuresPassOn`, `UpgradeProperties.UpgradeUnchanged`, `UpgradeProperties.NullParamsFail`, `UpgradeProperties.UpgradeFuelMono` and the two cross-major upgrade lemmas. |
| Engine.WalkFields | lib/assets/h5p-core/library/js/h5p-content-upgrade-process.js:56-65 | The serial walk over the top-level fields. `Engine.WalkFieldsIsSerial` and `Engine.TopLoop` state that it is `asyncSerial` over the field positions. `WalkerFields.FieldsElementwise` states what it computes: with distinct field names it fails exactly when some field's own walk fails, with the first such error, and otherwise leaves each field's member or its truthy replacement and every other member as it was. |
| Engine.Walk | lib/assets/h5p-core/library/js/h5p-content-upgrade-process.js:141-227 | `processField`. Its contract is stated case by case: absent values and other kinds by `WalkerProperties.AbsentUnchanged` and `WalkerProperties.OtherKindUnchanged`; library fields by the `WalkerProperties` keep lemmas for every case that keeps the value, and by `WalkerProperties.NewerOfferedUpgraded` for the one case that upgrades it, from the value and options alone; groups by `WalkerProperties.SingleFieldGroupFlattens` and `WalkerFields.GroupElementwise`; lists by `WalkerLists.ListWalkElementwise`; and the whole walk by `UpgradeProperties.InertKeeps` and `UpgradeProperties.WalkFuelMono`. |
| Engine.LibraryPlan | lib/assets/h5p-core/library/js/h5p-content-upgrade-process.js:149-180 | The library-field decision. `WalkerProperties.LibraryWithoutIdentityKept`, `WalkerProperties.LibraryNotOfferedKept`, `WalkerProperties.LibrarySameVersionKept`, `WalkerProperties.LibraryNotNewerKept`, `WalkerProperties.NewerOfferedRaised`, `WalkerProperties.RaiseOnlyUpward` and `WalkerProperties.NoSecondUpgrade` state what it decides: it raises exactly when the first option of the used name offers a strictly newer version and the value carries `params`. |
| Engine.WalkGroup | lib/assets/h5p-core/library/js/h5p-content-upgrade-process.js:194-207 | The serial walk over a group's sub-fields. `Engine.WalkGroupIsSerial`, `Engine.GroupLoop`, `WalkerProperties.GroupWritesOnlySubFields` and `WalkerFields.GroupElementwise` state what it does. |
| Engine.WalkEntries | lib/assets/h5p-core/library/js/h5p-content-upgrade-process.js:210-222 | The serial walk over a list's entries. `Engine.WalkEntriesIsSerial`, `Engine.ListLoop` and `WalkerLists.ListWalkElementwise` state what it does. |
| Engine.SemanticsVisit | lib/assets/h5p-core/library/js/h5p-content-upgrade-process.js:56-62 | Visiting one top-level field. `UpgradeProperties.SemanticsVisitAt` states that it reads the field's member, walks it, and passes on a failure or writes back a truthy replacement; `WalkerFields.FieldsStep` states it on the original parameters. |
| Engine.GroupVisit | lib/assets/h5p-core/library/js/h5p-content-upgrade-process.js:195-201 | Visiting one sub-field of a group of several. `UpgradeProperties.GroupVisitAt` states that it walks the sub-field's value and passes on a failure or writes back a truthy replacement; `WalkerFields.SubFieldsStep` states it on the group's original value. |
| Engine.SubValue | lib/assets/h5p-core/library/js/h5p-content-upgrade-process.js:198 | The value a sub-field is walked on: its member of the group's value, or `null` when that value is falsy. `WalkerFields.SubFieldsStep` states that it is read from the group's original value. |
| Engine.ListVisit | lib/assets/h5p-core/library/js/h5p-content-upgrade-process.js:212-218 | Visiting one list entry. `WalkerLists.ListVisitAt` states that it walks the entry and passes on a failure, or replaces exactly that entry by its truthy replacement. |
| Engine.FindOption | lib/assets/h5p-core/library/js/h5p-content-upgrade-process.js:156-158 | No option is found exactly when no offered identifier has the used name. Otherwise the one found is the first with that name. |
| Engine.VersionOf | lib/assets/h5p-core/library/js/h5p-content-upgrade-process.js:164-165 | A version piece that parses gives that version. A missing or unparsable piece is a BadVersion error. |
| Engine.UpgradeContent | lib/assets/h5p-core/library/js/h5p-content-upgrade-process.js:14-25 | Text that does not parse, or parses to something other than an object, fails with errorParamsBroken carrying the content id. |
| Engine.WalkFieldsIsSerial | lib/assets/h5p-core/library/js/h5p-content-upgrade-process.js:56-65 | The walk over the top-level fields is the serial iterator over the field positions. |
| Engine.WalkGroupIsSerial | lib/assets/h5p-core/library/js/h5p-content-upgrade-process.js:195-206 | The walk over a group's sub-fields is the serial iterator over their positions. |
| Engine.WalkEntriesIsSerial | lib/assets/h5p-core/library/js/h5p-content-upgrade-process.js:212-221 | The walk over a list's entries is the serial iterator over the entry positions. |
| Engine.TopLoop | lib/assets/h5p-core/library/js/h5p-content-upgrade-process.js:56-65 | The whole top-level walk is one serial iteration starting from the dispatched parameters. |
| Engine.GroupLoop | lib/assets/h5p-core/library/js/h5p-content-upgrade-process.js:195-206 | A group of several fields walks as one serial iteration starting from its own value. |
| Engine.ListLoop | lib/assets/h5p-core/library/js/h5p-content-upgrade-process.js:212-221 | A list walks as one serial iteration over its entries, starting from its own value. |
| WalkerProperties.AbsentUnchanged | lib/assets/h5p-core/library/js/h5p-content-upgrade-process.js:144-146 | An absent value is never touched, whatever the descriptor. |
| WalkerProperties.OtherKindUnchanged | lib/assets/h5p-core/library/js/h5p-content-upgrade-process.js:224-225 | A descriptor type other than library, group or list is a leaf and leaves its value alone. |
| WalkerProperties.LibraryWithoutIdentityKept | lib/assets/h5p-core/library/js/h5p-content-upgrade-process.js:150-152 | A library value lacking `library` or `params` is left unchanged, without error. |
| WalkerProperties.LibraryOnNullFails | lib/assets/h5p-core/library/js/h5p-content-upgrade-process.js:150 | A library field holding `null` fails with a TypeError. |
| WalkerProperties.NotOfferedPlan | lib/assets/h5p-core/library/js/h5p-content-upgrade-process.js:155-180 | When no option carries the used library's name, the plan is to keep the value. |
| WalkerProperties.LibraryNotOfferedKept | lib/assets/h5p-core/library/js/h5p-content-upgrade-process.js:155-180 | A sub-content whose library is no longer offered is left as it is. |
| WalkerProperties.FirstOffered | lib/assets/h5p-core/library/js/h5p-content-upgrade-process.js:156-158 | The option consulted is the first one with the used name: later options with the same name are never looked at. |
| WalkerProperties.LibrarySameVersionKept | lib/assets/h5p-core/library/js/h5p-content-upgrade-process.js:158-161 | When the first option of the same name carries the same version string, nothing changes. |
| WalkerProperties.LibraryNotNewerKept | lib/assets/h5p-core/library/js/h5p-content-upgrade-process.js:164-168 | The walker never downgrades. When the first option of the same name is not strictly newer, nothing changes. |
| WalkerProperties.RaiseOnlyUpward | lib/assets/h5p-core/library/js/h5p-content-upgrade-process.js:155-171 | Whenever the walker upgrades, the version upgraded to is strictly newer than the one used, it is the first matching option's version, and the recursion is on the value's own `params`. |
| WalkerProperties.LibraryRaised | lib/assets/h5p-core/library/js/h5p-content-upgrade-process.js:171-177 | Once the plan is to raise, the sub-content is upgraded recursively from the used to the offered version. Only on success is the field rewritten. A failure is passed on unchanged. `WalkerProperties.NewerOfferedRaised` gives the condition under which the plan is to raise. |
| WalkerProperties.NewerOfferedRaised | lib/assets/h5p-core/library/js/h5p-content-upgrade-process.js:155-171 | The walker upgrades whenever it can. When the first option with the used name offers a strictly newer version and the value carries `params`, the plan is to raise it to that option's name and version, recursing on those `params`. With `WalkerProperties.RaiseOnlyUpward` this is an if-and-only-if. |
| WalkerProperties.NewerOfferedUpgraded | lib/assets/h5p-core/library/js/h5p-content-upgrade-process.js:155-177 | Walking such a field upgrades its sub-content from the used to the offered version. An upgrade failure is the walk's failure; a success rewrites the field to the new identifier and upgraded parameters. |
| WalkerProperties.SubOneToTwo | lib/assets/h5p-core/library/js/h5p-content-upgrade-process.js:149-177 | Content at "Sub 1.0", in a field offering "Sub 2.0", is upgraded from 1.0 to 2.0. On success the field names "Sub 2.0"; a failure is passed on. |
| WalkerProperties.RaisePlan | lib/assets/h5p-core/library/js/h5p-content-upgrade-process.js:158-171 | Once the option is found, its version piece differs from the used one, and both read as versions with the offered one newer, the plan is to raise to that option. |
| WalkerProperties.SubIdentifiers | lib/assets/h5p-core/library/js/h5p-content-upgrade-process.js:155-157 | The identifiers "Sub 1.0" and "Sub 2.0" split into the name "Sub" and their version pieces, and "Sub 2.0" is the identifier written for version 2.0. |
| WalkerProperties.SubVersions | lib/assets/h5p-core/library/js/h5p-content-upgrade-process.js:164-165 | The version pieces "1.0" and "2.0" read as versions 1.0 and 2.0. |
| WalkerProperties.RewriteContents | lib/assets/h5p-core/library/js/h5p-content-upgrade-process.js:173-174 | The rewritten field names "name major.minor" of the new version, holds the upgraded parameters, and keeps every other member. |
| WalkerProperties.NoSecondUpgrade | lib/assets/h5p-core/library/js/h5p-content-upgrade-process.js:155-177 | A rewritten field, walked again with the same options, is kept: the upgrade is idempotent. |
| WalkerProperties.SingleFieldGroupFlattens | lib/assets/h5p-core/library/js/h5p-content-upgrade-process.js:184-192 | A group of one sub-field stores that sub-field's value directly. Walking it fails exactly when walking the sub-field does, with the same error, and leaves the same value in the slot. |
| WalkerProperties.GroupWritesOnlySubFields | lib/assets/h5p-core/library/js/h5p-content-upgrade-process.js:194-207 | A group of several sub-fields changes only members named after its sub-fields and never changes the kind of value. |
| WalkerFields.Written | lib/assets/h5p-core/library/js/h5p-content-upgrade-process.js:58-60 | The member left under a field's name after its walk: the truthy replacement when there is one, otherwise the member walked on. On a present member this is `Engine.Effective`. |
| WalkerFields.FieldsStep | lib/assets/h5p-core/library/js/h5p-content-upgrade-process.js:56-62 | With distinct names, visiting top-level field i of a state where the earlier fields are done is that field's own walk on the original member. A failure is passed on; a success leaves the first i + 1 fields done. |
| WalkerFields.FieldsFrom | lib/assets/h5p-core/library/js/h5p-content-upgrade-process.js:56-65 | From such a state, the rest of the top-level walk succeeds exactly when every remaining field's own walk does, fails with the first failing field's error, and on success leaves every field done. |
| WalkerFields.FieldsElementwise | lib/assets/h5p-core/library/js/h5p-content-upgrade-process.js:56-65 | A `null` parameters object fails with a TypeError at the first field. Otherwise, with distinct field names, the top-level walk succeeds exactly when each field's own walk on its original member succeeds, and fails with the first failing field's error. On success each field's member is its truthy replacement or the original, and every other member is kept. |
| WalkerFields.SubFieldsStep | lib/assets/h5p-core/library/js/h5p-content-upgrade-process.js:195-201 | Visiting sub-field i of a group of several, where the earlier sub-fields are done, is that sub-field's own walk on the group's original member, or on `null` when the group's value is falsy. |
| WalkerFields.SubFieldsFrom | lib/assets/h5p-core/library/js/h5p-content-upgrade-process.js:195-206 | From such a state, the rest of the group walk succeeds exactly when every remaining sub-field's own walk does, fails with the first failing sub-field's error, and on success leaves every sub-field done. |
| WalkerFields.GroupElementwise | lib/assets/h5p-core/library/js/h5p-content-upgrade-process.js:194-207 | With distinct sub-field names, walking a group of several sub-fields succeeds exactly when each sub-field's own walk succeeds, and fails with the first failing one's error. On success it hands back an object value with each sub-field's member replaced by its truthy replacement and every other member kept, and any other value as it is. |
| WalkerLists.EachEntry | lib/assets/h5p-core/library/js/h5p-content-upgrade-process.js:212-221 | The reference for a list walk, which walks every entry on its own, yields one result per entry. |
| WalkerLists.EachEntryElementwise | lib/assets/h5p-core/library/js/h5p-content-upgrade-process.js:212-221 | The reference fails exactly when some entry's walk fails, with the first such error. Otherwise each result is that entry's effective value. |
| WalkerLists.ListWalkElementwise | lib/assets/h5p-core/library/js/h5p-content-upgrade-process.js:210-222 | Walking a list fails exactly when walking some entry on its own fails, with the first error. On success the list keeps its shape (an array stays an array, an object keeps its keys), and entry i becomes what walking entry i alone gives. |
| UpgradeProperties.InertKeeps | lib/assets/h5p-core/library/js/h5p-content-upgrade-process.js:141-227 | A descriptor with no library field inside it never fails, and hands back either nothing or the very value it was given. |
| UpgradeProperties.UpgradeUnchanged | lib/assets/h5p-core/library/js/h5p-content-upgrade-process.js:40-68 | When the loaded semantics have no library field, no hook is registered and no script is declared, the upgrade hands back any non-null parameters unchanged. (Null parameters fail on the first field read; see `NullParamsFail`.) |
| UpgradeProperties.NullParamsFail | lib/assets/h5p-core/library/js/h5p-content-upgrade-process.js:56-57 | When hooks produce `null` and the semantics have a field, reading that field fails with a TypeError. |
| UpgradeProperties.CrossMajorUpgradeAsWritten | lib/assets/h5p-core/library/js/h5p-content-upgrade-process.js:40-68 | The program as it stands, upgrading a library with hooks at 1.6, 2.0 and 2.1 and no sub-content from 1.5 to 2.1, runs no hook and returns the parameters unchanged. |
| UpgradeProperties.CrossMajorUpgradeCorrected | lib/assets/h5p-core/library/js/h5p-content-upgrade-process.js:40-68 | With the corrected filter, the same upgrade feeds the parameters through the 1.6, 2.0 and 2.1 hooks in that order and stops at the first failure. |
| UpgradeProperties.EarlyFailuresPassOn | lib/assets/h5p-core/library/js/h5p-content-upgrade-process.js:44-53 | A loader failure is the upgrade's result as it is. So is a dispatcher failure, and no walk happens after either. |
| UpgradeProperties.WalkFuelMono | lib/assets/h5p-core/library/js/h5p-content-upgrade-process.js:141-227 | A walk whose outcome is not `NestingTooDeep` has the same outcome, success or failure, with any greater depth bound. |
| UpgradeProperties.LibraryCaseFuelMono | lib/assets/h5p-core/library/js/h5p-content-upgrade-process.js:149-181 | A library field whose walk does not run out of nesting depth has the same outcome, success or failure, with any greater bound. |
| UpgradeProperties.LibraryFuelMono | lib/assets/h5p-core/library/js/h5p-content-upgrade-process.js:171-177 | An upgraded sub-content whose walk did not run out of depth is rewritten the same way, or fails with the same error, with any greater bound. |
| UpgradeProperties.GroupFuelMono | lib/assets/h5p-core/library/js/h5p-content-upgrade-process.js:194-207 | A group walk that does not run out of nesting depth has the same outcome, success or failure, with any greater bound. |
| UpgradeProperties.ListFuelMono | lib/assets/h5p-core/library/js/h5p-content-upgrade-process.js:212-221 | A list walk that does not run out of nesting depth has the same outcome, success or failure, with any greater bound. |
| UpgradeProperties.UpgradeWalkFuelMono | lib/assets/h5p-core/library/js/h5p-content-upgrade-process.js:56-65 | The walk over the top-level fields, when it does not run out of nesting depth, has the same outcome with any greater bound. |
| UpgradeProperties.UpgradeFuelMono | lib/assets/h5p-core/library/js/h5p-content-upgrade-process.js:40-68 | An upgrade whose outcome is not `NestingTooDeep` has the same outcome, success or failure, with any greater depth bound. |
| UpgradeProperties.UpgradeContentRoundTrip | lib/assets/h5p-core/library/js/h5p-content-upgrade-process.js:28-34 | The entry point passes an upgrade failure on as it is. On success it returns text that parses back to exactly the upgraded tree. |

## Left out

- The `setTimeout` between iterator steps is not modelled. It only clears the stack, and the model is a terminating fold.
- The `console.log` calls in the hook `catch` block (lines 118-122) are not modelled.
- Host collaborators are parameters, not models:
  - `JSON.parse` and `JSON.stringify` are the `Codec` parameter;
  - `loadLibrary` is a function parameter of `Env`;
  - the `H5PUpgrades` registry is `Env.registry`;
  - upgrade hooks are arbitrary functions from parameters to a result.
- `H5P.Version` is not part of this model. A version piece is read as "digits.digits". Anything else, including a missing piece, is a BadVersion error.
- Falsy errors are not modelled. Line 269 stops the iterator on any error other than `null` or `undefined`, so a falsy-but-present error such as `0`, `false` or `""` would stop it, but line 29 would then not report it. Errors are modelled as values, so no error is falsy.
- A hook that throws synchronously (lines 111-124) is modelled like one that reports the error through its callback. The source then calls the outer `next` directly instead of `nextMinor`; that detail is collapsed.
- A TypeError that the JavaScript would throw, for example reading a property of `null` or calling `split` on a non-string `library`, is modelled as a returned error. The JavaScript would raise an uncaught exception instead.
- Line 33 serializes the parsed `params`, not `result`. These are the same object only because the JavaScript mutates that object in place. The model is functional, so it serializes the upgraded tree. When a hook replaces the parameters object, the two differ, and the model follows what the upgrade computed.
- Dispatch.ProcessParams: the scriptMissing error names the new version as "major.minor" (`Versions.Format`). Line 86 formats the version object through JavaScript string conversion, which is not part of this model; it is assumed to print as "major.minor".
- WalkerFields.FieldsElementwise and WalkerFields.GroupElementwise: stated for fields with distinct names. When two fields share a name, the later one is walked on what the earlier one wrote; the serial-iterator lemmas (`Engine.TopLoop`, `Engine.GroupLoop`) still describe that case.
- Numbers are integers only; floating-point JSON numbers are not modelled.
- Strings handed to a list walk are not iterated by character. Index-like properties of arrays other than their elements are not modelled.
- Nesting depth is bounded by a fuel argument; exhaustion is a `NestingTooDeep` error. The fuel-monotonicity lemmas show that extra depth never changes an outcome, success or failure, other than `NestingTooDeep`.
- `WalkerLists.EachEntry`'s own contract states only the number of results. The per-entry content is in `WalkerLists.EachEntryElementwise`.
- Concurrency and reentrancy are not modelled. The source is single-threaded, and the registry and loader are treated as read-only during an upgrade.

## Findings

| source | as written | input that shows it | evidently intended | confidence | as-written member | corrected member |
|---|---|---|---|---|---|---|
| lib/assets/h5p-core/library/js/h5p-content-upgrade-process.js:103 | The minor filter compares every hook's minor with both endpoints' minors, whatever major the hook belongs to. | An upgrade from 1.5 to 2.1 of a library with hooks at 1.6, 2.0 and 2.1. Hook 1.6 is skipped by `minor > 1`, and 2.0 and 2.1 by `minor <= 5`, so none runs. | Run every registered hook whose version lies in (old, new]: compare the minor with the old minor only in the old major, and with the new minor only in the new major. | not executed | Dispatch.CrossMajorAsWrittenRunsNone | Dispatch.CorrectedSelectedIsRange |

The dispatcher takes the filter as a parameter (`Dispatch.MinorRule`), and
`Engine.Upgrade` takes it from its environment. With `AsWritten` it is the
program as it stands: `UpgradeProperties.CrossMajorUpgradeAsWritten` shows the
whole upgrade returning the parameters unchanged on the input above. With
`Corrected` it is the intended program:
`UpgradeProperties.CrossMajorUpgradeCorrected` shows the three hooks running
in order. `Dispatch.RulesAgreeWithinMajor` shows that the two filters agree
whenever the old and new versions share a major.
