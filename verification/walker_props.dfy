/** What the field-descriptor walker guarantees: which `library` fields are
    left alone, how an upgraded one is rewritten, how groups and lists pass
    replacements back, and that a schema without sub-content changes
    nothing. */
module WalkerProperties {
  import opened Results
  import opened JsonValues
  import opened Text
  import opened Versions
  import opened Iteration
  import opened Schema
  import opened Dispatch
  import opened Engine

  // ---------------------------------------------------------------------
  // Values that are not there, and descriptor types that are not walked.

  /** An absent value is never touched, whatever the descriptor. */
  lemma AbsentUnchanged(env: Env, fuel: nat, field: Field)
    ensures Walk(env, fuel, field, None) == Success(None)
  {
  }

  /** A descriptor type other than library, group or list is a leaf. */
  lemma OtherKindUnchanged(env: Env, fuel: nat, name: string, kind: string, v: Json)
    ensures Walk(env, fuel, OtherField(name, kind), Some(v)) == Success(None)
  {
  }

  // ---------------------------------------------------------------------
  // Library fields.

  /** A `library` field whose plan is to keep it is left unchanged. */
  lemma KeptUnchanged(env: Env, fuel: nat, name: string, options: seq<string>, v: Json)
    requires LibraryPlan(options, v) == Success(Keep)
    ensures Walk(env, fuel, LibraryField(name, options), Some(v)) == Success(None)
  {
  }

  /** A library field is left unchanged, without error, when its value is
      not an object carrying both `library` and `params`. */
  lemma LibraryWithoutIdentityKept(env: Env, fuel: nat, name: string, options: seq<string>, v: Json)
    requires !v.Null?
    requires Member(v, "library").None? || Member(v, "params").None?
    ensures Walk(env, fuel, LibraryField(name, options), Some(v)) == Success(None)
  {
  }

  /** Reading `library` of a `null` value is a TypeError. */
  lemma LibraryOnNullFails(env: Env, fuel: nat, name: string, options: seq<string>)
    ensures Walk(env, fuel, LibraryField(name, options), Some(Null)).Failure?
    ensures Walk(env, fuel, LibraryField(name, options), Some(Null)).error.TypeError?
  {
  }

  /** A library no longer offered under its name is left as it is. */
  lemma LibraryNotOfferedKept(env: Env, fuel: nat, name: string, options: seq<string>, v: Json, id: string)
    requires Member(v, "library") == Some(Str(id)) && Member(v, "params").Some?
    requires forall i :: 0 <= i < |options| ==> SplitTwo(options[i], ' ').0 != SplitTwo(id, ' ').0
    ensures Walk(env, fuel, LibraryField(name, options), Some(v)) == Success(None)
  {
    NotOfferedPlan(options, v, id);
    KeptUnchanged(env, fuel, name, options, v);
  }

  /** The plan for a library not offered under its name is to keep it. */
  lemma NotOfferedPlan(options: seq<string>, v: Json, id: string)
    requires Member(v, "library") == Some(Str(id)) && Member(v, "params").Some?
    requires forall i :: 0 <= i < |options| ==> SplitTwo(options[i], ' ').0 != SplitTwo(id, ' ').0
    ensures LibraryPlan(options, v) == Success(Keep)
  {
    assert FindOption(options, SplitTwo(id, ' ').0) == None;
  }

  /** The first option with the same name decides; when its version part
      is the same string as the used one, nothing changes. */
  lemma LibrarySameVersionKept(env: Env, fuel: nat, name: string, options: seq<string>, v: Json, id: string, i: nat)
    requires Member(v, "library") == Some(Str(id)) && Member(v, "params").Some?
    requires i < |options| && SplitTwo(options[i], ' ') == SplitTwo(id, ' ')
    requires forall j :: 0 <= j < i ==> SplitTwo(options[j], ' ').0 != SplitTwo(id, ' ').0
    ensures Walk(env, fuel, LibraryField(name, options), Some(v)) == Success(None)
  {
    FirstOffered(options, SplitTwo(id, ' ').0, i);
    assert LibraryPlan(options, v) == Success(Keep);
    KeptUnchanged(env, fuel, name, options, v);
  }

  /** The option found for a name is the first one carrying that name. */
  lemma FirstOffered(options: seq<string>, name: string, i: nat)
    requires i < |options| && SplitTwo(options[i], ' ').0 == name
    requires forall j :: 0 <= j < i ==> SplitTwo(options[j], ' ').0 != name
    ensures FindOption(options, name) == Some(options[i])
  {
    var r := FindOption(options, name);
    var k :| 0 <= k < |options| && options[k] == r.value && SplitTwo(r.value, ' ').0 == name &&
      forall j :: 0 <= j < k ==> SplitTwo(options[j], ' ').0 != name;
    if k < i {
    } else if i < k {
    }
  }

  /** The walker never downgrades: when the first option with the same
      name offers a version that is not newer than the used one, nothing
      changes. */
  lemma LibraryNotNewerKept(env: Env, fuel: nat, name: string, options: seq<string>, v: Json, id: string, i: nat,
                            used: Version, available: Version)
    requires Member(v, "library") == Some(Str(id)) && Member(v, "params").Some?
    requires i < |options| && SplitTwo(options[i], ' ').0 == SplitTwo(id, ' ').0
    requires forall j :: 0 <= j < i ==> SplitTwo(options[j], ' ').0 != SplitTwo(id, ' ').0
    requires VersionOf(SplitTwo(id, ' ').1) == Success(used)
    requires VersionOf(SplitTwo(options[i], ' ').1) == Success(available)
    requires !Before(used, available)
    ensures Walk(env, fuel, LibraryField(name, options), Some(v)) == Success(None)
  {
    FirstOffered(options, SplitTwo(id, ' ').0, i);
    assert LibraryPlan(options, v) == Success(Keep);
    KeptUnchanged(env, fuel, name, options, v);
  }

  /** Whenever the walker decides to upgrade sub-content, the first option
      of the same name offers a strictly newer version, and the recursion
      is on the value's own `params`. */
  lemma RaiseOnlyUpward(options: seq<string>, v: Json, name: string, used: Version, available: Version, inner: Json)
    requires LibraryPlan(options, v) == Success(Raise(name, used, available, inner))
    ensures Before(used, available)
    ensures Member(v, "params") == Some(inner)
    ensures exists id :: (Member(v, "library") == Some(Str(id)) && SplitTwo(id, ' ').0 == name &&
      VersionOf(SplitTwo(id, ' ').1) == Success(used) &&
      FindOption(options, name).Some? && VersionOf(SplitTwo(FindOption(options, name).value, ' ').1) == Success(available))
  {
    var id := Member(v, "library").value.s;
    assert Member(v, "library") == Some(Str(id));
  }

  /** An offered newer version is upgraded to: the sub-content is upgraded
      from the used to the offered version and, only if that succeeds, the
      field is rewritten; a failure is passed on as it is. */
  lemma LibraryRaised(env: Env, fuel: nat, fieldName: string, options: seq<string>, v: Json,
                      name: string, used: Version, available: Version, inner: Json)
    requires LibraryPlan(options, v) == Success(Raise(name, used, available, inner))
    requires fuel > 0
    ensures Upgrade(env, fuel - 1, name, used, available, inner).Failure? ==>
      Walk(env, fuel, LibraryField(fieldName, options), Some(v)) ==
      Failure(Upgrade(env, fuel - 1, name, used, available, inner).error)
    ensures Upgrade(env, fuel - 1, name, used, available, inner).Success? ==>
      Walk(env, fuel, LibraryField(fieldName, options), Some(v)) ==
      Success(Some(Rewrite(v, name, available, Upgrade(env, fuel - 1, name, used, available, inner).value)))
  {
  }

  /** The walker upgrades whenever it can: when the first option with the
      same name offers a strictly newer version and the value carries
      `params`, the plan is to raise it to that option, recursing on those
      `params`. */
  lemma NewerOfferedRaised(options: seq<string>, v: Json, id: string, name: string, i: nat,
                           used: Version, available: Version, inner: Json)
    requires Member(v, "library") == Some(Str(id)) && Member(v, "params") == Some(inner)
    requires SplitTwo(id, ' ').0 == name
    requires i < |options| && SplitTwo(options[i], ' ').0 == name
    requires forall j :: 0 <= j < i ==> SplitTwo(options[j], ' ').0 != name
    requires VersionOf(SplitTwo(id, ' ').1) == Success(used)
    requires VersionOf(SplitTwo(options[i], ' ').1) == Success(available)
    requires Before(used, available)
    ensures LibraryPlan(options, v) == Success(Raise(name, used, available, inner))
  {
    FirstOffered(options, name, i);
    assert SplitTwo(options[i], ' ').1 != SplitTwo(id, ' ').1 by {
      assert IsUpgrade(used, available);
    }
    RaisePlan(options, v, id, options[i], used, available, inner);
  }

  /** The plan once the option is found and its version piece differs. */
  lemma RaisePlan(options: seq<string>, v: Json, id: string, option: string,
                  used: Version, available: Version, inner: Json)
    requires Member(v, "library") == Some(Str(id)) && Member(v, "params") == Some(inner)
    requires FindOption(options, SplitTwo(id, ' ').0) == Some(option)
    requires SplitTwo(option, ' ').1 != SplitTwo(id, ' ').1
    requires VersionOf(SplitTwo(id, ' ').1) == Success(used)
    requires VersionOf(SplitTwo(option, ' ').1) == Success(available)
    requires IsUpgrade(used, available)
    ensures LibraryPlan(options, v) == Success(Raise(SplitTwo(option, ' ').0, used, available, inner))
  {
  }

  /** Walking such a field upgrades its sub-content from the used to the
      offered version: a failure is passed on as it is, a success rewrites
      the field. */
  lemma NewerOfferedUpgraded(env: Env, fuel: nat, fieldName: string, options: seq<string>, v: Json, id: string,
                             name: string, i: nat, used: Version, available: Version, inner: Json)
    requires Member(v, "library") == Some(Str(id)) && Member(v, "params") == Some(inner)
    requires SplitTwo(id, ' ').0 == name
    requires i < |options| && SplitTwo(options[i], ' ').0 == name
    requires forall j :: 0 <= j < i ==> SplitTwo(options[j], ' ').0 != name
    requires VersionOf(SplitTwo(id, ' ').1) == Success(used)
    requires VersionOf(SplitTwo(options[i], ' ').1) == Success(available)
    requires Before(used, available)
    requires fuel > 0
    ensures Upgrade(env, fuel - 1, name, used, available, inner).Failure? ==>
      Walk(env, fuel, LibraryField(fieldName, options), Some(v)) ==
      Failure(Upgrade(env, fuel - 1, name, used, available, inner).error)
    ensures Upgrade(env, fuel - 1, name, used, available, inner).Success? ==>
      Walk(env, fuel, LibraryField(fieldName, options), Some(v)) ==
      Success(Some(Rewrite(v, name, available, Upgrade(env, fuel - 1, name, used, available, inner).value)))
  {
    NewerOfferedRaised(options, v, id, name, i, used, available, inner);
    LibraryRaised(env, fuel, fieldName, options, v, name, used, available, inner);
  }

  /** An instance: content at "Sub 1.0" in a field offering "Sub 2.0" is
      upgraded from 1.0 to 2.0 and rewritten to name "Sub 2.0". */
  lemma SubOneToTwo(env: Env, fuel: nat, v: Json, params: Json)
    requires v == Obj([("library", Str("Sub 1.0")), ("params", params)])
    requires fuel > 0
    ensures Upgrade(env, fuel - 1, "Sub", Version(1, 0), Version(2, 0), params).Failure? ==>
      Walk(env, fuel, LibraryField("content", ["Sub 2.0"]), Some(v)) ==
      Failure(Upgrade(env, fuel - 1, "Sub", Version(1, 0), Version(2, 0), params).error)
    ensures Upgrade(env, fuel - 1, "Sub", Version(1, 0), Version(2, 0), params).Success? ==>
      Walk(env, fuel, LibraryField("content", ["Sub 2.0"]), Some(v)) ==
      Success(Some(Rewrite(v, "Sub", Version(2, 0), Upgrade(env, fuel - 1, "Sub", Version(1, 0), Version(2, 0), params).value)))
    ensures Upgrade(env, fuel - 1, "Sub", Version(1, 0), Version(2, 0), params).Success? ==>
      Member(Walk(env, fuel, LibraryField("content", ["Sub 2.0"]), Some(v)).value.value, "library") == Some(Str("Sub 2.0"))
  {
    LookupCons(("library", Str("Sub 1.0")), [("params", params)]);
    assert v.members == [("library", Str("Sub 1.0"))] + [("params", params)];
    assert "library"[0] != "params"[0];
    assert Member(v, "params") == Some(params);
    SubIdentifiers();
    SubVersions();
    assert Before(Version(1, 0), Version(2, 0));
    NewerOfferedUpgraded(env, fuel, "content", ["Sub 2.0"], v, "Sub 1.0", "Sub", 0, Version(1, 0), Version(2, 0), params);
    var r := Upgrade(env, fuel - 1, "Sub", Version(1, 0), Version(2, 0), params);
    if r.Success? {
      var w := Rewrite(v, "Sub", Version(2, 0), r.value);
      assert Walk(env, fuel, LibraryField("content", ["Sub 2.0"]), Some(v)) == Success(Some(w));
      RewriteContents(v, "Sub", Version(2, 0), r.value);
      assert Member(w, "library") == Some(Str("Sub 2.0"));
    }
  }

  /** The identifiers of the instance above split into name and version. */
  lemma SubIdentifiers()
    ensures SplitTwo("Sub 1.0", ' ') == ("Sub", Some("1.0"))
    ensures SplitTwo("Sub 2.0", ' ') == ("Sub", Some("2.0"))
    ensures "Sub" + " " + Format(Version(2, 0)) == "Sub 2.0"
  {
    SubSplit("1.0");
    assert "Sub " + "1.0" == "Sub 1.0";
    SubSplit("2.0");
    assert "Sub " + "2.0" == "Sub 2.0";
    assert Format(Version(2, 0)) == "2.0";
    assert "Sub" + " " + "2.0" == "Sub 2.0";
  }

  /** Their version parts read as 1.0 and 2.0. */
  lemma SubVersions()
    ensures VersionOf(Some("1.0")) == Success(Version(1, 0))
    ensures VersionOf(Some("2.0")) == Success(Version(2, 0))
  {
    ParseDigits("1", "0");
    assert "1" + "." + "0" == "1.0";
    ParseDigits("2", "0");
    assert "2" + "." + "0" == "2.0";
  }

  lemma SubSplit(b: string)
    requires ' ' !in b
    ensures SplitTwo("Sub " + b, ' ') == ("Sub", Some(b))
  {
    SplitJoin("Sub", ' ', b);
    assert "Sub" + [' '] + b == "Sub " + b;
  }

  /** The rewritten field names the library at the version upgraded to,
      "name major.minor", holds the upgraded parameters, and keeps every
      other member. */
  lemma RewriteContents(v: Json, name: string, available: Version, upgraded: Json)
    requires v.Obj?
    ensures Member(Rewrite(v, name, available, upgraded), "library") == Some(Str(name + " " + Format(available)))
    ensures Member(Rewrite(v, name, available, upgraded), "params") == Some(upgraded)
    ensures forall k :: k != "library" && k != "params" ==>
      Member(Rewrite(v, name, available, upgraded), k) == Member(v, k)
  {
  }

  /** An upgraded field is not upgraded again: walking the rewritten value
      with the same options keeps it. */
  lemma NoSecondUpgrade(options: seq<string>, v: Json, name: string, used: Version, available: Version,
                        inner: Json, upgraded: Json)
    requires LibraryPlan(options, v) == Success(Raise(name, used, available, inner))
    ensures LibraryPlan(options, Rewrite(v, name, available, upgraded)) == Success(Keep)
  {
    RaiseOnlyUpward(options, v, name, used, available, inner);
    var id :| Member(v, "library") == Some(Str(id)) && SplitTwo(id, ' ').0 == name &&
      VersionOf(SplitTwo(id, ' ').1) == Success(used) &&
      FindOption(options, name).Some? && VersionOf(SplitTwo(FindOption(options, name).value, ' ').1) == Success(available);
    var w := Rewrite(v, name, available, upgraded);
    RewriteContents(v, name, available, upgraded);
    SplitJoin(name, ' ', Format(available));
    assert SplitTwo(Identifier(name, available), ' ') == (name, Some(Format(available)));
    ParseFormat(available);
    assert VersionOf(Some(Format(available))) == Success(available);
  }

  // ---------------------------------------------------------------------
  // Groups.

  /** A group of exactly one sub-field stores that sub-field's value
      directly: walking it is walking the sub-field on the same value, with
      the same error and the same value left in the slot. */
  lemma SingleFieldGroupFlattens(env: Env, fuel: nat, name: string, sub: Field, v: Json)
    ensures Walk(env, fuel, GroupField(name, [sub]), Some(v)).Failure? <==> Walk(env, fuel, sub, Some(v)).Failure?
    ensures Walk(env, fuel, GroupField(name, [sub]), Some(v)).Failure? ==>
      Walk(env, fuel, GroupField(name, [sub]), Some(v)).error == Walk(env, fuel, sub, Some(v)).error
    ensures Walk(env, fuel, GroupField(name, [sub]), Some(v)).Success? ==>
      Effective(v, Walk(env, fuel, GroupField(name, [sub]), Some(v)).value) ==
      Effective(v, Walk(env, fuel, sub, Some(v)).value)
  {
  }

  /** The names of a group's sub-fields. */
  ghost predicate NamedIn(fields: seq<Field>, k: string) {
    exists i :: 0 <= i < |fields| && fields[i].name == k
  }

  /** What a group of several sub-fields may change: only members named
      after one of its sub-fields, and never the kind of value. */
  ghost predicate ChangedOnlyUnder(fields: seq<Field>, v: Json, w: Json) {
    && w.Obj? == v.Obj?
    && (!v.Obj? ==> w == v)
    && forall k :: !NamedIn(fields, k) ==> Member(w, k) == Member(v, k)
  }

  /** A group of several sub-fields writes a replacement back only under a
      sub-field's own name; every other member is kept. */
  lemma GroupWritesOnlySubFields(env: Env, fuel: nat, name: string, fields: seq<Field>, v: Json)
    requires |fields| != 1
    requires Walk(env, fuel, GroupField(name, fields), Some(v)).Success?
    ensures Walk(env, fuel, GroupField(name, fields), Some(v)).value.Some?
    ensures ChangedOnlyUnder(fields, v, Walk(env, fuel, GroupField(name, fields), Some(v)).value.value)
  {
    var group := GroupField(name, fields);
    var step := GroupStep(env, fuel, group, v);
    var P := (t: Json) => ChangedOnlyUnder(fields, v, t);
    forall t, x | x in Indices(|fields|) && P(t) && step(t, x).Success?
      ensures P(step(t, x).value)
    {
      assert step(t, x) == GroupVisit(env, fuel, group, v, t, x);
      var key := fields[x].name;
      assert NamedIn(fields, key);
      var r := Walk(env, fuel, fields[x], SubValue(v, t, key));
      assert step(t, x) == Success(WriteBack(t, key, r.value));
    }
    SerialInvariant(Indices(|fields|), step, v, P);
    GroupLoop(env, fuel, group, v);
  }
}
