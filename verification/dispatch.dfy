/** The hook dispatcher (`processParams`): run the upgrade hooks registered
    for a library whose major and minor pass the version filters, in
    ascending order, each one receiving the parameters the previous one
    produced. The minor filter comes in two forms: as the program writes it,
    and as it evidently intends (the range being crossed). */
module Dispatch {
  import opened Results
  import opened JsonValues
  import opened Versions
  import opened KeyOrder
  import opened Iteration
  import opened Schema

  /** An upgrade hook; its body belongs to the library, not to the engine. */
  type Hook = Json -> Result<Json>

  /** A registry entry is the hook itself or an object carrying it as
      `contentUpgrade`. */
  datatype HookEntry = Direct(run: Hook) | Wrapped(contentUpgrade: Hook) {
    function Runner(): Hook {
      if Wrapped? then contentUpgrade else run
    }
  }

  /** The hooks of one library, indexed by major and then minor version. */
  type Minors = map<nat, HookEntry>
  type Majors = map<nat, Minors>

  /** Every library's hooks, by library name. */
  type Registry = map<string, Majors>

  /** The major-version filter: the major lies within the range's majors. */
  predicate MajorInRange(major: nat, oldVersion: Version, newVersion: Version) {
    !(major < oldVersion.major || major > newVersion.major)
  }

  /** Which minor-version filter the dispatcher applies. */
  datatype MinorRule =
      /** The filter as written: the hook's minor is compared with both
          endpoints' minors whatever major the hook belongs to. */
    | AsWritten
      /** The filter as intended: the hook's minor is compared with an
          endpoint's minor only within that endpoint's major. */
    | Corrected

  /** The minor-version filter for a hook at (major, minor). */
  predicate MinorInRange(rule: MinorRule, major: nat, minor: nat, oldVersion: Version, newVersion: Version) {
    match rule
    case AsWritten => !(minor <= oldVersion.minor || minor > newVersion.minor)
    case Corrected =>
      !((major == oldVersion.major && minor <= oldVersion.minor) ||
        (major == newVersion.major && minor > newVersion.minor))
  }

  /** Whether the hook at `at` runs in an upgrade from `oldVersion` to
      `newVersion`. */
  predicate Selects(rule: MinorRule, at: Version, oldVersion: Version, newVersion: Version) {
    MajorInRange(at.major, oldVersion, newVersion) && MinorInRange(rule, at.major, at.minor, oldVersion, newVersion)
  }

  /** One step of the inner iteration over the minors of one major. */
  function MinorStep(rule: MinorRule, major: nat, minors: Minors, oldVersion: Version, newVersion: Version): (Json, nat) -> Result<Json> {
    (p: Json, minor: nat) =>
      if minor !in minors || !MinorInRange(rule, major, minor, oldVersion, newVersion) then Success(p)
      else minors[minor].Runner()(p)
  }

  function RunMinors(rule: MinorRule, major: nat, minors: Minors, oldVersion: Version, newVersion: Version, p: Json): Result<Json> {
    Serial(Ascending(minors.Keys), MinorStep(rule, major, minors, oldVersion, newVersion), p)
  }

  /** One step of the outer iteration over a library's majors. */
  function MajorStep(rule: MinorRule, majors: Majors, oldVersion: Version, newVersion: Version): (Json, nat) -> Result<Json> {
    (p: Json, major: nat) =>
      if major !in majors || !MajorInRange(major, oldVersion, newVersion) then Success(p)
      else RunMinors(rule, major, majors[major], oldVersion, newVersion, p)
  }

  function RunMajors(rule: MinorRule, majors: Majors, oldVersion: Version, newVersion: Version, p: Json): Result<Json> {
    Serial(Ascending(majors.Keys), MajorStep(rule, majors, oldVersion, newVersion), p)
  }

  // ---------------------------------------------------------------------
  // Reference: the list of selected hooks, and running a list of hooks.

  /** The selected minors of one major, in the order given. */
  function MinorPairs(rule: MinorRule, major: nat, minors: seq<nat>, oldVersion: Version, newVersion: Version): seq<Version>
    decreases |minors|
  {
    if |minors| == 0 then []
    else
      (if MinorInRange(rule, major, minors[0], oldVersion, newVersion) then [Version(major, minors[0])] else [])
      + MinorPairs(rule, major, minors[1..], oldVersion, newVersion)
  }

  function SelectedFrom(rule: MinorRule, majors: Majors, keys: seq<nat>, oldVersion: Version, newVersion: Version): seq<Version>
    decreases |keys|
  {
    if |keys| == 0 then []
    else
      (if keys[0] in majors && MajorInRange(keys[0], oldVersion, newVersion)
       then MinorPairs(rule, keys[0], Ascending(majors[keys[0]].Keys), oldVersion, newVersion)
       else [])
      + SelectedFrom(rule, majors, keys[1..], oldVersion, newVersion)
  }

  /** The versions of the hooks an upgrade from `oldVersion` to
      `newVersion` runs, in the order it runs them. */
  function Selected(rule: MinorRule, majors: Majors, oldVersion: Version, newVersion: Version): seq<Version> {
    SelectedFrom(rule, majors, Ascending(majors.Keys), oldVersion, newVersion)
  }

  /** Threads `p` through the hooks registered at `hooks`, in that order,
      stopping at the first failure. */
  function ApplyHooks(majors: Majors, hooks: seq<Version>, p: Json): Result<Json>
    decreases |hooks|
  {
    if |hooks| == 0 then Success(p)
    else
      var at := hooks[0];
      var q :- if at.major in majors && at.minor in majors[at.major]
               then majors[at.major][at.minor].Runner()(p)
               else Success(p);
      ApplyHooks(majors, hooks[1..], q)
  }

  /** Running one registered hook is calling its runner. */
  lemma ApplyHooksOne(majors: Majors, at: Version, p: Json)
    requires at.major in majors && at.minor in majors[at.major]
    ensures ApplyHooks(majors, [at], p) == majors[at.major][at.minor].Runner()(p)
  {
    match majors[at.major][at.minor].Runner()(p) {
      case Failure(e) =>
      case Success(q) =>
        assert ApplyHooks(majors, [at][1..], q) == Success(q);
    }
  }

  /** Running the hooks of `a + b` is running those of `a`, then those of `b`. */
  lemma {:induction false} ApplyHooksAppend(majors: Majors, a: seq<Version>, b: seq<Version>, p: Json)
    ensures ApplyHooks(majors, a + b, p) ==
      match ApplyHooks(majors, a, p)
      case Failure(e) => Failure(e)
      case Success(q) => ApplyHooks(majors, b, q)
    decreases |a|
  {
    if |a| == 0 {
      assert a + b == b;
    } else {
      assert (a + b)[1..] == a[1..] + b;
      var at := a[0];
      var r := if at.major in majors && at.minor in majors[at.major]
               then majors[at.major][at.minor].Runner()(p)
               else Success(p);
      if r.Success? {
        ApplyHooksAppend(majors, a[1..], b, r.value);
      }
    }
  }

  lemma {:induction false} RunMinorsIsApplyHooks(rule: MinorRule, majors: Majors, major: nat, keys: seq<nat>,
                                                  oldVersion: Version, newVersion: Version, p: Json)
    requires major in majors
    requires forall k :: k in keys ==> k in majors[major]
    ensures Serial(keys, MinorStep(rule, major, majors[major], oldVersion, newVersion), p)
         == ApplyHooks(majors, MinorPairs(rule, major, keys, oldVersion, newVersion), p)
    decreases |keys|
  {
    if |keys| > 0 {
      var step := MinorStep(rule, major, majors[major], oldVersion, newVersion);
      var head := if MinorInRange(rule, major, keys[0], oldVersion, newVersion) then [Version(major, keys[0])] else [];
      var tail := MinorPairs(rule, major, keys[1..], oldVersion, newVersion);
      ApplyHooksAppend(majors, head, tail, p);
      assert keys[0] in keys;
      match step(p, keys[0]) {
        case Failure(e) =>
        case Success(q) =>
          RunMinorsIsApplyHooks(rule, majors, major, keys[1..], oldVersion, newVersion, q);
      }
    }
  }

  lemma {:induction false} RunMajorsIsApplyHooks(rule: MinorRule, majors: Majors, keys: seq<nat>,
                                                  oldVersion: Version, newVersion: Version, p: Json)
    ensures Serial(keys, MajorStep(rule, majors, oldVersion, newVersion), p)
         == ApplyHooks(majors, SelectedFrom(rule, majors, keys, oldVersion, newVersion), p)
    decreases |keys|
  {
    if |keys| > 0 {
      var step := MajorStep(rule, majors, oldVersion, newVersion);
      var major := keys[0];
      var head := if major in majors && MajorInRange(major, oldVersion, newVersion)
                  then MinorPairs(rule, major, Ascending(majors[major].Keys), oldVersion, newVersion)
                  else [];
      var tail := SelectedFrom(rule, majors, keys[1..], oldVersion, newVersion);
      ApplyHooksAppend(majors, head, tail, p);
      if major in majors && MajorInRange(major, oldVersion, newVersion) {
        RunMinorsIsApplyHooks(rule, majors, major, Ascending(majors[major].Keys), oldVersion, newVersion, p);
      }
      match step(p, major) {
        case Failure(e) =>
        case Success(q) =>
          RunMajorsIsApplyHooks(rule, majors, keys[1..], oldVersion, newVersion, q);
      }
    }
  }

  /** The dispatcher. With no hooks registered for the library, it fails
      with `scriptMissing` naming "name newVersion" if the library declares
      an upgrades script, and otherwise returns the parameters unchanged.
      With hooks registered, it runs exactly the selected hooks in order. */
  function ProcessParams(rule: MinorRule, registry: Registry, library: Library, oldVersion: Version, newVersion: Version, p: Json): (r: Result<Json>)
    ensures library.name !in registry && library.upgradesScript ==>
      r == Failure(ScriptMissing(library.name + " " + Format(newVersion)))
    ensures library.name !in registry && !library.upgradesScript ==> r == Success(p)
    ensures library.name in registry ==>
      r == ApplyHooks(registry[library.name], Selected(rule, registry[library.name], oldVersion, newVersion), p)
  {
    if library.name !in registry then
      if library.upgradesScript then Failure(ScriptMissing(library.name + " " + Format(newVersion)))
      else Success(p)
    else
      var majors := registry[library.name];
      RunMajorsIsApplyHooks(rule, majors, Ascending(majors.Keys), oldVersion, newVersion, p);
      RunMajors(rule, majors, oldVersion, newVersion, p)
  }

  // ---------------------------------------------------------------------
  // What the selected list is.

  lemma {:induction false} MinorPairsMembers(rule: MinorRule, major: nat, keys: seq<nat>, oldVersion: Version, newVersion: Version)
    ensures forall v :: v in MinorPairs(rule, major, keys, oldVersion, newVersion) <==>
      v.major == major && v.minor in keys && MinorInRange(rule, major, v.minor, oldVersion, newVersion)
    decreases |keys|
  {
    if |keys| > 0 {
      MinorPairsMembers(rule, major, keys[1..], oldVersion, newVersion);
      assert forall k :: k in keys <==> k == keys[0] || k in keys[1..];
    }
  }

  lemma {:induction false} SelectedFromMembers(rule: MinorRule, majors: Majors, keys: seq<nat>, oldVersion: Version, newVersion: Version)
    ensures forall v :: v in SelectedFrom(rule, majors, keys, oldVersion, newVersion) <==>
      v.major in keys && v.major in majors && v.minor in majors[v.major] && Selects(rule, v, oldVersion, newVersion)
    decreases |keys|
  {
    if |keys| > 0 {
      SelectedFromMembers(rule, majors, keys[1..], oldVersion, newVersion);
      if keys[0] in majors {
        MinorPairsMembers(rule, keys[0], Ascending(majors[keys[0]].Keys), oldVersion, newVersion);
      }
      assert forall k :: k in keys <==> k == keys[0] || k in keys[1..];
    }
  }

  /** The dispatcher runs a hook if and only if it is registered and its
      (major, minor) passes both filters. On a range within one major that
      is exactly the hooks of that major with oldVersion.minor < minor <=
      newVersion.minor. */
  lemma SelectedExactly(rule: MinorRule, majors: Majors, oldVersion: Version, newVersion: Version)
    ensures forall v :: v in Selected(rule, majors, oldVersion, newVersion) <==>
      v.major in majors && v.minor in majors[v.major] && Selects(rule, v, oldVersion, newVersion)
    ensures oldVersion.major == newVersion.major ==>
      forall v :: v in Selected(rule, majors, oldVersion, newVersion) <==>
        v.major in majors && v.minor in majors[v.major] &&
        v.major == oldVersion.major && oldVersion.minor < v.minor <= newVersion.minor
  {
    SelectedFromMembers(rule, majors, Ascending(majors.Keys), oldVersion, newVersion);
  }

  /** Strictly ascending (major, minor) order. */
  predicate Ascends(vs: seq<Version>) {
    forall i, j :: 0 <= i < j < |vs| ==> Before(vs[i], vs[j])
  }

  lemma {:induction false} MinorPairsAscend(rule: MinorRule, major: nat, keys: seq<nat>, oldVersion: Version, newVersion: Version)
    requires StrictlyIncreasing(keys)
    ensures Ascends(MinorPairs(rule, major, keys, oldVersion, newVersion))
    decreases |keys|
  {
    if |keys| > 0 {
      var tail := MinorPairs(rule, major, keys[1..], oldVersion, newVersion);
      MinorPairsAscend(rule, major, keys[1..], oldVersion, newVersion);
      MinorPairsMembers(rule, major, keys[1..], oldVersion, newVersion);
      assert forall v :: v in tail ==> v.major == major && keys[0] < v.minor by {
        forall v | v in tail
          ensures v.major == major && keys[0] < v.minor
        {
          var j :| 0 <= j < |keys[1..]| && keys[1..][j] == v.minor;
          assert keys[j + 1] == v.minor;
        }
      }
    }
  }

  lemma {:induction false} SelectedFromAscends(rule: MinorRule, majors: Majors, keys: seq<nat>, oldVersion: Version, newVersion: Version)
    requires StrictlyIncreasing(keys)
    ensures Ascends(SelectedFrom(rule, majors, keys, oldVersion, newVersion))
    decreases |keys|
  {
    if |keys| > 0 {
      var major := keys[0];
      var head := if major in majors && MajorInRange(major, oldVersion, newVersion)
                  then MinorPairs(rule, major, Ascending(majors[major].Keys), oldVersion, newVersion)
                  else [];
      var tail := SelectedFrom(rule, majors, keys[1..], oldVersion, newVersion);
      SelectedFromAscends(rule, majors, keys[1..], oldVersion, newVersion);
      SelectedFromMembers(rule, majors, keys[1..], oldVersion, newVersion);
      if major in majors {
        MinorPairsAscend(rule, major, Ascending(majors[major].Keys), oldVersion, newVersion);
        MinorPairsMembers(rule, major, Ascending(majors[major].Keys), oldVersion, newVersion);
      }
      assert forall v :: v in head ==> v.major == major;
      assert forall w :: w in tail ==> major < w.major by {
        forall w | w in tail
          ensures major < w.major
        {
          var j :| 0 <= j < |keys[1..]| && keys[1..][j] == w.major;
          assert keys[j + 1] == w.major;
        }
      }
      AscendsConcat(head, tail);
    }
  }

  lemma AscendsConcat(a: seq<Version>, b: seq<Version>)
    requires Ascends(a) && Ascends(b)
    requires forall v, w :: v in a && w in b ==> Before(v, w)
    ensures Ascends(a + b)
  {
    var all := a + b;
    forall i, j | 0 <= i < j < |all|
      ensures Before(all[i], all[j])
    {
      if j < |a| {
        assert all[i] == a[i] && all[j] == a[j];
      } else if i >= |a| {
        assert all[i] == b[i - |a|] && all[j] == b[j - |a|];
      } else {
        assert all[i] in a && all[j] in b;
      }
    }
  }

  /** The hooks run in strictly ascending (major, minor) order. */
  lemma SelectedAscends(rule: MinorRule, majors: Majors, oldVersion: Version, newVersion: Version)
    ensures Ascends(Selected(rule, majors, oldVersion, newVersion))
  {
    SelectedFromAscends(rule, majors, Ascending(majors.Keys), oldVersion, newVersion);
  }

  /** Upgrading to the version already held runs no hook: no minor is both
      above and at most the same number. */
  lemma SameVersionUnchanged(rule: MinorRule, registry: Registry, library: Library, v: Version, p: Json)
    requires library.name in registry || !library.upgradesScript
    ensures ProcessParams(rule, registry, library, v, v, p) == Success(p)
  {
    if library.name in registry {
      var majors := registry[library.name];
      SelectedExactly(rule, majors, v, v);
    }
  }

  /** Within one major both filters select the same hooks. */
  lemma RulesAgreeWithinMajor(at: Version, oldVersion: Version, newVersion: Version)
    requires oldVersion.major == newVersion.major
    ensures Selects(AsWritten, at, oldVersion, newVersion) <==> Selects(Corrected, at, oldVersion, newVersion)
  {
  }

  /** Across majors the filter as written is not the version range: from
      1.5 to 2.1 the hooks at 1.6, 2.0 and 2.1 all lie in the range crossed,
      yet none of them is selected; the corrected filter selects all three. */
  lemma CrossMajorSkipsInRangeHooks()
    ensures Before(Version(1, 5), Version(1, 6)) && Before(Version(1, 6), Version(2, 1))
    ensures Before(Version(1, 5), Version(2, 0)) && Before(Version(2, 0), Version(2, 1))
    ensures !Selects(AsWritten, Version(1, 6), Version(1, 5), Version(2, 1))
    ensures !Selects(AsWritten, Version(2, 0), Version(1, 5), Version(2, 1))
    ensures !Selects(AsWritten, Version(2, 1), Version(1, 5), Version(2, 1))
    ensures Selects(Corrected, Version(1, 6), Version(1, 5), Version(2, 1))
    ensures Selects(Corrected, Version(2, 0), Version(1, 5), Version(2, 1))
    ensures Selects(Corrected, Version(2, 1), Version(1, 5), Version(2, 1))
  {
  }

  /** A library registering hooks at 1.6, 2.0 and 2.1. */
  function CrossMajorHooks(h16: Hook, h20: Hook, h21: Hook): Majors {
    map[1 := map[6 := Direct(h16)], 2 := map[0 := Direct(h20), 1 := Direct(h21)]]
  }

  /** As written, an upgrade from 1.5 to 2.1 of a library with hooks at 1.6,
      2.0 and 2.1 runs none of them. */
  lemma CrossMajorAsWrittenRunsNone(h16: Hook, h20: Hook, h21: Hook)
    ensures Selected(AsWritten, CrossMajorHooks(h16, h20, h21), Version(1, 5), Version(2, 1)) == []
  {
    SelectedCharacterized(AsWritten, CrossMajorHooks(h16, h20, h21), Version(1, 5), Version(2, 1), []);
  }

  /** With the corrected filter the same upgrade runs all three, in order. */
  lemma CrossMajorCorrectedRunsAll(h16: Hook, h20: Hook, h21: Hook)
    ensures Selected(Corrected, CrossMajorHooks(h16, h20, h21), Version(1, 5), Version(2, 1)) ==
      [Version(1, 6), Version(2, 0), Version(2, 1)]
  {
    SelectedCharacterized(Corrected, CrossMajorHooks(h16, h20, h21), Version(1, 5), Version(2, 1),
                          [Version(1, 6), Version(2, 0), Version(2, 1)]);
  }

  /** The corrected filter selects exactly the versions in the range
      crossed: above the version held and at most the version upgraded to. */
  lemma CorrectedSelectsRange(at: Version, oldVersion: Version, newVersion: Version)
    ensures Selects(Corrected, at, oldVersion, newVersion) <==> Before(oldVersion, at) && !Before(newVersion, at)
  {
  }

  /** With the corrected filter the dispatcher runs every registered hook
      whose version lies in the range crossed, and no other. */
  lemma CorrectedSelectedIsRange(majors: Majors, oldVersion: Version, newVersion: Version)
    ensures forall v :: v in Selected(Corrected, majors, oldVersion, newVersion) <==>
      v.major in majors && v.minor in majors[v.major] && Before(oldVersion, v) && !Before(newVersion, v)
  {
    SelectedExactly(Corrected, majors, oldVersion, newVersion);
    forall v {
      CorrectedSelectsRange(v, oldVersion, newVersion);
    }
  }

  /** Two strictly ascending lists with the same members are the same list,
      so membership and order together determine the selected hooks. */
  lemma {:induction false} AscendsUnique(a: seq<Version>, b: seq<Version>)
    requires Ascends(a) && Ascends(b)
    requires forall v :: v in a <==> v in b
    ensures a == b
    decreases |a|
  {
    assert |a| == 0 <==> |b| == 0 by {
      if |a| > 0 { assert a[0] in b; }
      if |b| > 0 { assert b[0] in a; }
    }
    if |a| > 0 {
      AscendsSameHead(a, b);
      AscendsSameTail(a, b);
      AscendsUnique(a[1..], b[1..]);
      assert a == [a[0]] + a[1..];
      assert b == [b[0]] + b[1..];
    }
  }

  /** Two strictly ascending lists with the same members start alike. */
  lemma AscendsSameHead(a: seq<Version>, b: seq<Version>)
    requires Ascends(a) && Ascends(b) && |a| > 0 && |b| > 0
    requires forall v :: v in a <==> v in b
    ensures a[0] == b[0]
  {
    AscendsFirstIsLeast(a, b[0]);
    AscendsFirstIsLeast(b, a[0]);
  }

  /** No member of a strictly ascending list comes before its first one. */
  lemma AscendsFirstIsLeast(a: seq<Version>, v: Version)
    requires Ascends(a) && v in a
    ensures !Before(v, a[0])
  {
    var j :| 0 <= j < |a| && a[j] == v;
    if j > 0 {
      assert Before(a[0], v);
    }
  }

  /** ... and, once their common first element is dropped, still have the
      same members. */
  lemma AscendsSameTail(a: seq<Version>, b: seq<Version>)
    requires Ascends(a) && Ascends(b) && |a| > 0 && |b| > 0 && a[0] == b[0]
    requires forall v :: v in a <==> v in b
    ensures Ascends(a[1..]) && Ascends(b[1..])
    ensures forall v :: v in a[1..] <==> v in b[1..]
  {
    forall v
      ensures v in a[1..] <==> v in b[1..]
    {
      assert v in a <==> v == a[0] || v in a[1..];
      assert v in b <==> v == b[0] || v in b[1..];
      if v in a[1..] {
        var j :| 1 <= j < |a| && a[j] == v;
        assert Before(a[0], v);
      }
      if v in b[1..] {
        var k :| 1 <= k < |b| && b[k] == v;
        assert Before(b[0], v);
      }
    }
  }

  /** The exact hooks an upgrade runs: the registered ones that pass the
      filters, in strictly ascending order, and nothing else. */
  lemma SelectedCharacterized(rule: MinorRule, majors: Majors, oldVersion: Version, newVersion: Version, hooks: seq<Version>)
    requires Ascends(hooks)
    requires forall v :: v in hooks <==>
      v.major in majors && v.minor in majors[v.major] && Selects(rule, v, oldVersion, newVersion)
    ensures Selected(rule, majors, oldVersion, newVersion) == hooks
  {
    SelectedExactly(rule, majors, oldVersion, newVersion);
    SelectedAscends(rule, majors, oldVersion, newVersion);
    AscendsUnique(Selected(rule, majors, oldVersion, newVersion), hooks);
  }

  /** A library "Foo" registering hooks at 1.2 and 1.5. */
  function TwoHooks(h2: Hook, h5: Hook): Majors {
    map[1 := map[2 := Direct(h2), 5 := Direct(h5)]]
  }

  /** From 1.1 to 1.6 the hook at 1.2 is selected, then the one at 1.5. */
  lemma TwoHooksBothSelected(rule: MinorRule, h2: Hook, h5: Hook)
    ensures Selected(rule, TwoHooks(h2, h5), Version(1, 1), Version(1, 6)) == [Version(1, 2), Version(1, 5)]
  {
    SelectedCharacterized(rule, TwoHooks(h2, h5), Version(1, 1), Version(1, 6), [Version(1, 2), Version(1, 5)]);
  }

  /** From 1.3 to 1.6 only the hook at 1.5 is selected. */
  lemma TwoHooksLaterSelected(rule: MinorRule, h2: Hook, h5: Hook)
    ensures Selected(rule, TwoHooks(h2, h5), Version(1, 3), Version(1, 6)) == [Version(1, 5)]
  {
    SelectedCharacterized(rule, TwoHooks(h2, h5), Version(1, 3), Version(1, 6), [Version(1, 5)]);
  }

  /** From 1.1 to 1.4 only the hook at 1.2 is selected. */
  lemma TwoHooksEarlierSelected(rule: MinorRule, h2: Hook, h5: Hook)
    ensures Selected(rule, TwoHooks(h2, h5), Version(1, 1), Version(1, 4)) == [Version(1, 2)]
  {
    SelectedCharacterized(rule, TwoHooks(h2, h5), Version(1, 1), Version(1, 4), [Version(1, 2)]);
  }

  /** From 1.1 to 1.6 both hooks run, 1.2 first and its output feeding 1.5. */
  lemma TwoHooksBothRun(rule: MinorRule, h2: Hook, h5: Hook, p: Json)
    ensures ProcessParams(rule, map["Foo" := TwoHooks(h2, h5)], Library("Foo", [], true), Version(1, 1), Version(1, 6), p) ==
      match h2(p)
      case Failure(e) => Failure(e)
      case Success(q) => h5(q)
  {
    TwoHooksBothSelected(rule, h2, h5);
    var hooks := [Version(1, 2), Version(1, 5)];
    assert hooks[1..] == [Version(1, 5)];
    match h2(p) {
      case Failure(e) =>
      case Success(q) =>
        ApplyHooksOne(TwoHooks(h2, h5), Version(1, 5), q);
    }
  }

  /** From 1.3 to 1.6 only the hook at 1.5 runs. */
  lemma TwoHooksLaterOnly(rule: MinorRule, h2: Hook, h5: Hook, p: Json)
    ensures ProcessParams(rule, map["Foo" := TwoHooks(h2, h5)], Library("Foo", [], true), Version(1, 3), Version(1, 6), p) == h5(p)
  {
    TwoHooksLaterSelected(rule, h2, h5);
    ApplyHooksOne(TwoHooks(h2, h5), Version(1, 5), p);
  }

  /** From 1.1 to 1.4 only the hook at 1.2 runs. */
  lemma TwoHooksEarlierOnly(rule: MinorRule, h2: Hook, h5: Hook, p: Json)
    ensures ProcessParams(rule, map["Foo" := TwoHooks(h2, h5)], Library("Foo", [], true), Version(1, 1), Version(1, 4), p) == h2(p)
  {
    TwoHooksEarlierSelected(rule, h2, h5);
    ApplyHooksOne(TwoHooks(h2, h5), Version(1, 2), p);
  }
}
