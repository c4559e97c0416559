/** What a whole upgrade guarantees: a schema without sub-content leaves
    the parameters alone, nesting fuel only bounds the recursion and never
    changes a result, and the entry point hands back the upgraded tree in
    text form. */
module UpgradeProperties {
  import opened Results
  import opened JsonValues
  import opened Versions
  import opened Iteration
  import opened Schema
  import opened Dispatch
  import opened Engine
  import opened WalkerProperties

  // ---------------------------------------------------------------------
  // Visiting one field.

  /** Visiting sub-field i of a group walks that sub-field's value and
      passes on its failure, or writes back its truthy replacement. */
  lemma GroupVisitAt(env: Env, fuel: nat, group: Field, v: Json, s: Json, i: nat)
    requires group.GroupField? && i < |group.fields|
    ensures var key := group.fields[i].name;
      var r := Walk(env, fuel, group.fields[i], SubValue(v, s, key));
      && (r.Failure? ==> GroupVisit(env, fuel, group, v, s, i) == Failure(r.error))
      && (r.Success? ==> GroupVisit(env, fuel, group, v, s, i) == Success(WriteBack(s, key, r.value)))
  {
  }

  /** Visiting top-level field i reads it from the parameters, walks it,
      and passes on the failure or writes back a truthy replacement. */
  lemma SemanticsVisitAt(env: Env, fuel: nat, fields: seq<Field>, s: Json, i: nat)
    requires i < |fields| && !s.Null?
    ensures var key := fields[i].name;
      var r := Walk(env, fuel, fields[i], Member(s, key));
      && (r.Failure? ==> SemanticsVisit(env, fuel, fields, s, i) == Failure(r.error))
      && (r.Success? ==> SemanticsVisit(env, fuel, fields, s, i) == Success(WriteBack(s, key, r.value)))
  {
  }

  // ---------------------------------------------------------------------
  // Schemas without sub-content.

  /** A descriptor with no `library` field inside never fails and never
      hands back anything but the value it was given. */
  lemma {:induction false} InertKeeps(env: Env, fuel: nat, f: Field, v: Json)
    requires Inert(f)
    ensures Walk(env, fuel, f, Some(v)) == Success(None) || Walk(env, fuel, f, Some(v)) == Success(Some(v))
    decreases f
  {
    match f {
      case OtherField(_, _) =>
      case GroupField(_, fields) =>
        if |fields| == 1 {
          InertKeeps(env, fuel, fields[0], v);
        } else {
          var step := GroupStep(env, fuel, f, v);
          forall x | x in Indices(|fields|)
            ensures step(v, x) == Success(v)
          {
            assert step(v, x) == GroupVisit(env, fuel, f, v, v, x);
            var key := fields[x].name;
            var sub := SubValue(v, v, key);
            GroupVisitAt(env, fuel, f, v, v, x);
            if sub.Some? {
              InertKeeps(env, fuel, fields[x], sub.value);
              if Truthy(v) {
                SetSame(v, key, sub.value);
              }
            }
          }
          SerialIdentity(Indices(|fields|), step, v);
          GroupLoop(env, fuel, f, v);
        }
      case ListField(_, elem) =>
        var step := ListStep(env, fuel, f);
        forall i | i in Indices(|Entries(v)|)
          ensures step(v, i) == Success(v)
        {
          assert step(v, i) == ListVisit(env, fuel, f, v, i);
          InertKeeps(env, fuel, elem, Entries(v)[i]);
          WithEntrySame(v, i, Entries(v)[i]);
        }
        SerialIdentity(Indices(|Entries(v)|), step, v);
        ListLoop(env, fuel, f, v);
    }
  }

  /** An upgrade of a library without hooks, without an upgrades script and
      without sub-content in its schema returns the parameters unchanged,
      unless they are `null`. */
  lemma UpgradeUnchanged(env: Env, fuel: nat, name: string, oldVersion: Version, newVersion: Version,
                         library: Library, p: Json)
    requires env.loadLibrary(name, newVersion) == Success(library)
    requires library.name !in env.registry && !library.upgradesScript
    requires forall i :: 0 <= i < |library.semantics| ==> Inert(library.semantics[i])
    requires !p.Null?
    ensures Upgrade(env, fuel, name, oldVersion, newVersion, p) == Success(p)
  {
    var step := SemanticsStep(env, fuel, library.semantics);
    forall i | i in Indices(|library.semantics|)
      ensures step(p, i) == Success(p)
    {
      assert step(p, i) == SemanticsVisit(env, fuel, library.semantics, p, i);
      var key := library.semantics[i].name;
      var current := Member(p, key);
      SemanticsVisitAt(env, fuel, library.semantics, p, i);
      if current.Some? {
        InertKeeps(env, fuel, library.semantics[i], current.value);
        SetSame(p, key, current.value);
      }
    }
    SerialIdentity(Indices(|library.semantics|), step, p);
    TopLoop(env, fuel, library.semantics, p);
  }

  /** When the hooks leave `null` behind, reading the first top-level field
      from it is a TypeError. */
  lemma NullParamsFail(env: Env, fuel: nat, name: string, oldVersion: Version, newVersion: Version,
                       library: Library, p: Json)
    requires env.loadLibrary(name, newVersion) == Success(library)
    requires ProcessParams(env.minorRule, env.registry, library, oldVersion, newVersion, p) == Success(Null)
    requires |library.semantics| > 0
    ensures Upgrade(env, fuel, name, oldVersion, newVersion, p).Failure?
    ensures Upgrade(env, fuel, name, oldVersion, newVersion, p).error.TypeError?
  {
    assert SemanticsVisit(env, fuel, library.semantics, Null, 0).Failure?;
  }

  /** A failure of the loader or of the hooks ends the upgrade with that
      failure, before any field is walked. */
  lemma EarlyFailuresPassOn(env: Env, fuel: nat, name: string, oldVersion: Version, newVersion: Version, p: Json)
    ensures env.loadLibrary(name, newVersion).Failure? ==>
      Upgrade(env, fuel, name, oldVersion, newVersion, p) == Failure(env.loadLibrary(name, newVersion).error)
    ensures env.loadLibrary(name, newVersion).Success? ==>
      var library := env.loadLibrary(name, newVersion).value;
      var q := ProcessParams(env.minorRule, env.registry, library, oldVersion, newVersion, p);
      q.Failure? ==> Upgrade(env, fuel, name, oldVersion, newVersion, p) == Failure(q.error)
  {
  }

  // ---------------------------------------------------------------------
  // The cross-major minor filter, seen from a whole upgrade.

  /** A library "Foo" with hooks at 1.6, 2.0 and 2.1 and no sub-content,
      upgraded from 1.5 to 2.1 by the program as it stands: no hook runs and
      the parameters come back as they were. */
  lemma CrossMajorUpgradeAsWritten(env: Env, fuel: nat, h16: Hook, h20: Hook, h21: Hook, p: Json)
    requires env.minorRule == AsWritten
    requires env.registry == map["Foo" := CrossMajorHooks(h16, h20, h21)]
    requires env.loadLibrary("Foo", Version(2, 1)) == Success(Library("Foo", [], true))
    ensures Upgrade(env, fuel, "Foo", Version(1, 5), Version(2, 1), p) == Success(p)
  {
    CrossMajorAsWrittenRunsNone(h16, h20, h21);
  }

  /** The same upgrade with the corrected filter runs the hooks at 1.6,
      2.0 and 2.1 in that order, each on the previous one's output. */
  lemma CrossMajorUpgradeCorrected(env: Env, fuel: nat, h16: Hook, h20: Hook, h21: Hook, p: Json)
    requires env.minorRule == Corrected
    requires env.registry == map["Foo" := CrossMajorHooks(h16, h20, h21)]
    requires env.loadLibrary("Foo", Version(2, 1)) == Success(Library("Foo", [], true))
    ensures Upgrade(env, fuel, "Foo", Version(1, 5), Version(2, 1), p) ==
      match h16(p)
      case Failure(e) => Failure(e)
      case Success(q) =>
        match h20(q)
        case Failure(e) => Failure(e)
        case Success(u) => h21(u)
  {
    var majors := CrossMajorHooks(h16, h20, h21);
    CrossMajorCorrectedRunsAll(h16, h20, h21);
    ApplyHooksAppend(majors, [Version(1, 6)], [Version(2, 0), Version(2, 1)], p);
    ApplyHooksOne(majors, Version(1, 6), p);
    match h16(p) {
      case Failure(e) =>
      case Success(q) =>
        ApplyHooksAppend(majors, [Version(2, 0)], [Version(2, 1)], q);
        ApplyHooksOne(majors, Version(2, 0), q);
        match h20(q) {
          case Failure(e) =>
          case Success(u) =>
            ApplyHooksOne(majors, Version(2, 1), u);
        }
    }
  }

  // ---------------------------------------------------------------------
  // Nesting fuel.

  /** A walk that does not run out of nesting depth has the same result,
      success or failure, with more fuel. */
  lemma {:induction false} WalkFuelMono(env: Env, fuel: nat, more: nat, f: Field, value: Option<Json>)
    requires fuel <= more
    requires Walk(env, fuel, f, value) != Failure(NestingTooDeep)
    ensures Walk(env, more, f, value) == Walk(env, fuel, f, value)
    decreases fuel, 0, f, 3
  {
    if value.Some? {
      match f {
        case LibraryField(name, options) =>
          LibraryCaseFuelMono(env, fuel, more, name, options, value.value);
        case GroupField(name, fields) =>
          if |fields| == 1 {
            WalkFuelMono(env, fuel, more, fields[0], value);
          } else {
            GroupFuelMono(env, fuel, more, f, value.value);
          }
        case ListField(_, elem) =>
          ListFuelMono(env, fuel, more, f, value.value);
        case OtherField(_, _) =>
      }
    }
  }

  /** A `library` field, with more fuel. */
  lemma {:induction false} LibraryCaseFuelMono(env: Env, fuel: nat, more: nat, name: string, options: seq<string>, v: Json)
    requires fuel <= more
    requires Walk(env, fuel, LibraryField(name, options), Some(v)) != Failure(NestingTooDeep)
    ensures Walk(env, more, LibraryField(name, options), Some(v)) == Walk(env, fuel, LibraryField(name, options), Some(v))
    decreases fuel, 0, LibraryField(name, options), 2
  {
    match LibraryPlan(options, v)
    case Failure(_) =>
    case Success(Keep) =>
      KeptUnchanged(env, fuel, name, options, v);
      KeptUnchanged(env, more, name, options, v);
    case Success(Raise(lib, used, available, params)) =>
      LibraryFuelMono(env, fuel, more, fuel - 1, more - 1, name, options, v, lib, used, available, params);
  }

  /** A `library` field whose sub-content is upgraded, with more fuel: the
      walk with `inner + 1` recurses with `inner`. */
  lemma {:induction false} LibraryFuelMono(env: Env, fuel: nat, more: nat, inner: nat, innerMore: nat,
                                           name: string, options: seq<string>, v: Json,
                                           lib: string, used: Version, available: Version, params: Json)
    requires LibraryPlan(options, v) == Success(Raise(lib, used, available, params))
    requires fuel == inner + 1 && more == innerMore + 1 && inner <= innerMore
    requires Walk(env, fuel, LibraryField(name, options), Some(v)) != Failure(NestingTooDeep)
    ensures Walk(env, more, LibraryField(name, options), Some(v)) == Walk(env, fuel, LibraryField(name, options), Some(v))
    decreases fuel, 0, LibraryField(name, options), 1
  {
    LibraryRaised(env, fuel, name, options, v, lib, used, available, params);
    UpgradeFuelMono(env, inner, innerMore, lib, used, available, params);
    LibraryRaised(env, more, name, options, v, lib, used, available, params);
  }

  /** The walk over a group of several sub-fields, with more fuel. */
  lemma {:induction false} GroupFuelMono(env: Env, fuel: nat, more: nat, f: Field, v: Json)
    requires fuel <= more && f.GroupField?
    requires WalkGroup(env, fuel, f, v, 0, v) != Failure(NestingTooDeep)
    ensures WalkGroup(env, more, f, v, 0, v) == WalkGroup(env, fuel, f, v, 0, v)
    decreases fuel, 0, f, 0
  {
    var step := GroupStep(env, fuel, f, v);
    var other := GroupStep(env, more, f, v);
    forall t, x | x in Indices(|f.fields|) && step(t, x) != Failure(NestingTooDeep)
      ensures other(t, x) == step(t, x)
    {
      assert step(t, x) == GroupVisit(env, fuel, f, v, t, x);
      assert other(t, x) == GroupVisit(env, more, f, v, t, x);
      GroupVisitAt(env, fuel, f, v, t, x);
      GroupVisitAt(env, more, f, v, t, x);
      WalkFuelMono(env, fuel, more, f.fields[x], SubValue(v, t, f.fields[x].name));
    }
    GroupLoop(env, fuel, f, v);
    GroupLoop(env, more, f, v);
    SerialAgreeUnless(Indices(|f.fields|), step, other, v, NestingTooDeep);
  }

  /** The walk over a list's entries, with more fuel. */
  lemma {:induction false} ListFuelMono(env: Env, fuel: nat, more: nat, f: Field, v: Json)
    requires fuel <= more && f.ListField?
    requires WalkEntries(env, fuel, f, |Entries(v)|, 0, v) != Failure(NestingTooDeep)
    ensures WalkEntries(env, more, f, |Entries(v)|, 0, v) == WalkEntries(env, fuel, f, |Entries(v)|, 0, v)
    decreases fuel, 0, f, 0
  {
    var step := ListStep(env, fuel, f);
    var other := ListStep(env, more, f);
    forall t, i | i in Indices(|Entries(v)|) && step(t, i) != Failure(NestingTooDeep)
      ensures other(t, i) == step(t, i)
    {
      assert step(t, i) == ListVisit(env, fuel, f, t, i);
      assert other(t, i) == ListVisit(env, more, f, t, i);
      if i < |Entries(t)| {
        WalkFuelMono(env, fuel, more, f.field, Some(Entries(t)[i]));
      }
    }
    ListLoop(env, fuel, f, v);
    ListLoop(env, more, f, v);
    SerialAgreeUnless(Indices(|Entries(v)|), step, other, v, NestingTooDeep);
  }

  /** An upgrade that does not run out of nesting depth has the same
      result, success or failure, with more fuel: the fuel only bounds the
      nesting, it never changes an outcome. */
  lemma {:induction false} UpgradeFuelMono(env: Env, fuel: nat, more: nat, name: string,
                                           oldVersion: Version, newVersion: Version, p: Json)
    requires fuel <= more
    requires Upgrade(env, fuel, name, oldVersion, newVersion, p) != Failure(NestingTooDeep)
    ensures Upgrade(env, more, name, oldVersion, newVersion, p) == Upgrade(env, fuel, name, oldVersion, newVersion, p)
    decreases fuel, 2
  {
    match env.loadLibrary(name, newVersion)
    case Failure(_) =>
    case Success(library) =>
      match ProcessParams(env.minorRule, env.registry, library, oldVersion, newVersion, p)
      case Failure(_) =>
      case Success(q) =>
        UpgradeWalkFuelMono(env, fuel, more, library.semantics, q);
  }

  /** The walk over the top-level fields, with more fuel. */
  lemma {:induction false} UpgradeWalkFuelMono(env: Env, fuel: nat, more: nat, fields: seq<Field>, q: Json)
    requires fuel <= more
    requires WalkFields(env, fuel, fields, 0, q) != Failure(NestingTooDeep)
    ensures WalkFields(env, more, fields, 0, q) == WalkFields(env, fuel, fields, 0, q)
    decreases fuel, 1
  {
    var step := SemanticsStep(env, fuel, fields);
    var other := SemanticsStep(env, more, fields);
    forall t, i | i in Indices(|fields|) && step(t, i) != Failure(NestingTooDeep)
      ensures other(t, i) == step(t, i)
    {
      assert step(t, i) == SemanticsVisit(env, fuel, fields, t, i);
      assert other(t, i) == SemanticsVisit(env, more, fields, t, i);
      if i < |fields| && !t.Null? {
        SemanticsVisitAt(env, fuel, fields, t, i);
        SemanticsVisitAt(env, more, fields, t, i);
        WalkFuelMono(env, fuel, more, fields[i], Member(t, fields[i].name));
      }
    }
    TopLoop(env, fuel, fields, q);
    TopLoop(env, more, fields, q);
    SerialAgreeUnless(Indices(|fields|), step, other, q, NestingTooDeep);
  }

  // ---------------------------------------------------------------------
  // The entry point.

  /** With a serializer that `parse` reads back, the entry point returns
      the text of exactly the upgraded tree, and passes on the upgrade's
      failure as it is. */
  lemma UpgradeContentRoundTrip(env: Env, codec: Codec, fuel: nat, name: string,
                                oldVersion: Version, newVersion: Version, text: string, id: string, p: Json)
    requires codec.parse(text) == Some(p) && IsObject(p)
    requires forall j :: codec.parse(codec.stringify(j)) == Some(j)
    ensures var u := Upgrade(env, fuel, name, oldVersion, newVersion, p);
      var r := UpgradeContent(env, codec, fuel, name, oldVersion, newVersion, text, id);
      && (u.Failure? ==> r == Failure(u.error))
      && (u.Success? ==> r.Success? && codec.parse(r.value) == Some(u.value))
  {
  }
}
