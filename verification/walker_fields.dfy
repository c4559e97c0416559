/** Field by field: with distinct field names, walking the top-level
    fields of the parameters, or the sub-fields of a group, is walking each
    field on its own original value, stopping at the first failure, and
    writing every truthy replacement under that field's name. */
module WalkerFields {
  import opened Results
  import opened JsonValues
  import opened Schema
  import opened Engine
  import opened WalkerProperties
  import opened UpgradeProperties

  /** No two fields share a name, so no visit reads what another wrote. */
  ghost predicate DistinctNames(fields: seq<Field>) {
    forall i, j :: 0 <= i < j < |fields| ==> fields[i].name != fields[j].name
  }

  /** The member left under a field's name once its walk result `r` is
      written back over the member `m` it was walked on. */
  function Written(m: Option<Json>, r: Option<Json>): (w: Option<Json>)
    ensures m.Some? ==> w == Some(Effective(m.value, r))
    ensures r.Some? && Truthy(r.value) ==> w == r
    ensures !(r.Some? && Truthy(r.value)) ==> w == m
  {
    if r.Some? && Truthy(r.value) then r else m
  }

  // ---------------------------------------------------------------------
  // Top-level fields.

  /** Top-level field `j` walked on its member of the original parameters. */
  function OwnWalk(env: Env, fuel: nat, fields: seq<Field>, q: Json, j: nat): Result<Option<Json>>
    requires j < |fields|
  {
    Walk(env, fuel, fields[j], Member(q, fields[j].name))
  }

  /** The state after the first `i` top-level fields: each of them walked
      on its own and written back, nothing else changed. */
  ghost predicate FieldsDone(env: Env, fuel: nat, fields: seq<Field>, q: Json, i: nat, s: Json)
    requires i <= |fields|
  {
    && !s.Null? && s.Obj? == q.Obj? && (!q.Obj? ==> s == q)
    && (forall j :: 0 <= j < i ==> OwnWalk(env, fuel, fields, q, j).Success?)
    && (forall j :: 0 <= j < i ==>
          Member(s, fields[j].name) == Written(Member(q, fields[j].name), OwnWalk(env, fuel, fields, q, j).value))
    && (forall j :: i <= j < |fields| ==> Member(s, fields[j].name) == Member(q, fields[j].name))
    && (forall k :: !NamedIn(fields, k) ==> Member(s, k) == Member(q, k))
  }

  /** The top-level walk from field `i` on, from a state holding the first
      `i` fields done. */
  lemma {:induction false} FieldsFrom(env: Env, fuel: nat, fields: seq<Field>, q: Json, i: nat, s: Json)
    requires DistinctNames(fields)
    requires i <= |fields| && FieldsDone(env, fuel, fields, q, i, s)
    ensures WalkFields(env, fuel, fields, i, s).Success? <==>
      forall j :: i <= j < |fields| ==> OwnWalk(env, fuel, fields, q, j).Success?
    ensures WalkFields(env, fuel, fields, i, s).Failure? ==>
      exists j :: i <= j < |fields| && OwnWalk(env, fuel, fields, q, j).Failure? &&
        (forall m :: i <= m < j ==> OwnWalk(env, fuel, fields, q, m).Success?) &&
        OwnWalk(env, fuel, fields, q, j).error == WalkFields(env, fuel, fields, i, s).error
    ensures WalkFields(env, fuel, fields, i, s).Success? ==>
      FieldsDone(env, fuel, fields, q, |fields|, WalkFields(env, fuel, fields, i, s).value)
    decreases |fields| - i
  {
    if i < |fields| {
      var r := OwnWalk(env, fuel, fields, q, i);
      FieldsStep(env, fuel, fields, q, i, s);
      if r.Success? {
        var t := WriteBack(s, fields[i].name, r.value);
        assert WalkFields(env, fuel, fields, i, s) == WalkFields(env, fuel, fields, i + 1, t);
        FieldsFrom(env, fuel, fields, q, i + 1, t);
      } else {
        assert WalkFields(env, fuel, fields, i, s) == Failure(r.error);
      }
    }
  }

  /** Visiting top-level field `i` of such a state is its own walk, and a
      success leaves the first `i + 1` fields done. */
  lemma FieldsStep(env: Env, fuel: nat, fields: seq<Field>, q: Json, i: nat, s: Json)
    requires DistinctNames(fields)
    requires i < |fields| && FieldsDone(env, fuel, fields, q, i, s)
    ensures OwnWalk(env, fuel, fields, q, i).Failure? ==>
      SemanticsVisit(env, fuel, fields, s, i) == Failure(OwnWalk(env, fuel, fields, q, i).error)
    ensures OwnWalk(env, fuel, fields, q, i).Success? ==>
      SemanticsVisit(env, fuel, fields, s, i) == Success(WriteBack(s, fields[i].name, OwnWalk(env, fuel, fields, q, i).value)) &&
      FieldsDone(env, fuel, fields, q, i + 1, WriteBack(s, fields[i].name, OwnWalk(env, fuel, fields, q, i).value))
  {
    var key := fields[i].name;
    SemanticsVisitAt(env, fuel, fields, s, i);
    var r := OwnWalk(env, fuel, fields, q, i);
    assert Walk(env, fuel, fields[i], Member(s, key)) == r;
    if r.Success? {
      var t := WriteBack(s, key, r.value);
      assert forall j :: 0 <= j < |fields| && j != i ==> Member(t, fields[j].name) == Member(s, fields[j].name);
      assert NamedIn(fields, key);
    }
  }

  /** Walking the top-level fields: a `null` state fails with a TypeError
      at the first field; otherwise, with distinct names, the walk
      succeeds exactly when every field's own walk on the original member
      does, fails with the error of the first failing field, and on success leaves
      under each field's name its original member or its truthy
      replacement, and every other member as it was. */
  lemma FieldsElementwise(env: Env, fuel: nat, fields: seq<Field>, q: Json)
    requires DistinctNames(fields)
    ensures q.Null? && |fields| > 0 ==>
      WalkFields(env, fuel, fields, 0, q).Failure? && WalkFields(env, fuel, fields, 0, q).error.TypeError?
    ensures !q.Null? ==> (WalkFields(env, fuel, fields, 0, q).Success? <==>
      forall j :: 0 <= j < |fields| ==> OwnWalk(env, fuel, fields, q, j).Success?)
    ensures !q.Null? && WalkFields(env, fuel, fields, 0, q).Failure? ==>
      exists j :: 0 <= j < |fields| && OwnWalk(env, fuel, fields, q, j).Failure? &&
        (forall m :: 0 <= m < j ==> OwnWalk(env, fuel, fields, q, m).Success?) &&
        OwnWalk(env, fuel, fields, q, j).error == WalkFields(env, fuel, fields, 0, q).error
    ensures !q.Null? && WalkFields(env, fuel, fields, 0, q).Success? ==>
      forall j :: 0 <= j < |fields| ==>
        Member(WalkFields(env, fuel, fields, 0, q).value, fields[j].name) ==
        Written(Member(q, fields[j].name), OwnWalk(env, fuel, fields, q, j).value)
    ensures !q.Null? && WalkFields(env, fuel, fields, 0, q).Success? ==>
      ChangedOnlyUnder(fields, q, WalkFields(env, fuel, fields, 0, q).value)
  {
    if q.Null? {
      if |fields| > 0 {
        assert SemanticsVisit(env, fuel, fields, Null, 0).Failure?;
      }
    } else {
      assert FieldsDone(env, fuel, fields, q, 0, q);
      FieldsFrom(env, fuel, fields, q, 0, q);
    }
  }

  // ---------------------------------------------------------------------
  // Groups of several sub-fields.

  /** Sub-field `j` walked on its own: on `v[name]`, or on `null` when the
      group's value is falsy. */
  function SubWalk(env: Env, fuel: nat, fields: seq<Field>, v: Json, j: nat): Result<Option<Json>>
    requires j < |fields|
  {
    Walk(env, fuel, fields[j], SubValue(v, v, fields[j].name))
  }

  /** The state after the first `i` sub-fields of a group holding `v`. */
  ghost predicate SubFieldsDone(env: Env, fuel: nat, fields: seq<Field>, v: Json, i: nat, s: Json)
    requires i <= |fields|
  {
    && s.Obj? == v.Obj? && (!v.Obj? ==> s == v)
    && (forall j :: 0 <= j < i ==> SubWalk(env, fuel, fields, v, j).Success?)
    && (forall j :: 0 <= j < i ==> v.Obj? ==>
          Member(s, fields[j].name) == Written(Member(v, fields[j].name), SubWalk(env, fuel, fields, v, j).value))
    && (forall j :: i <= j < |fields| ==> Member(s, fields[j].name) == Member(v, fields[j].name))
    && (forall k :: !NamedIn(fields, k) ==> Member(s, k) == Member(v, k))
  }

  /** The group walk from sub-field `i` on, from a state holding the first
      `i` sub-fields done. */
  lemma {:induction false} SubFieldsFrom(env: Env, fuel: nat, name: string, fields: seq<Field>, v: Json,
                                         i: nat, s: Json)
    requires DistinctNames(fields)
    requires i <= |fields| && SubFieldsDone(env, fuel, fields, v, i, s)
    ensures WalkGroup(env, fuel, GroupField(name, fields), v, i, s).Success? <==>
      forall j :: i <= j < |fields| ==> SubWalk(env, fuel, fields, v, j).Success?
    ensures WalkGroup(env, fuel, GroupField(name, fields), v, i, s).Failure? ==>
      exists j :: i <= j < |fields| && SubWalk(env, fuel, fields, v, j).Failure? &&
        (forall m :: i <= m < j ==> SubWalk(env, fuel, fields, v, m).Success?) &&
        SubWalk(env, fuel, fields, v, j).error == WalkGroup(env, fuel, GroupField(name, fields), v, i, s).error
    ensures WalkGroup(env, fuel, GroupField(name, fields), v, i, s).Success? ==>
      SubFieldsDone(env, fuel, fields, v, |fields|, WalkGroup(env, fuel, GroupField(name, fields), v, i, s).value)
    decreases |fields| - i
  {
    var group := GroupField(name, fields);
    if i < |fields| {
      var r := SubWalk(env, fuel, fields, v, i);
      SubFieldsStep(env, fuel, name, fields, v, i, s);
      if r.Success? {
        var t := WriteBack(s, fields[i].name, r.value);
        assert WalkGroup(env, fuel, group, v, i, s) == WalkGroup(env, fuel, group, v, i + 1, t);
        SubFieldsFrom(env, fuel, name, fields, v, i + 1, t);
      } else {
        assert WalkGroup(env, fuel, group, v, i, s) == Failure(r.error);
      }
    }
  }

  /** Visiting sub-field `i` of such a state is its own walk, and a
      success leaves the first `i + 1` sub-fields done. */
  lemma SubFieldsStep(env: Env, fuel: nat, name: string, fields: seq<Field>, v: Json, i: nat, s: Json)
    requires DistinctNames(fields)
    requires i < |fields| && SubFieldsDone(env, fuel, fields, v, i, s)
    ensures SubWalk(env, fuel, fields, v, i).Failure? ==>
      GroupVisit(env, fuel, GroupField(name, fields), v, s, i) == Failure(SubWalk(env, fuel, fields, v, i).error)
    ensures SubWalk(env, fuel, fields, v, i).Success? ==>
      GroupVisit(env, fuel, GroupField(name, fields), v, s, i) ==
        Success(WriteBack(s, fields[i].name, SubWalk(env, fuel, fields, v, i).value)) &&
      SubFieldsDone(env, fuel, fields, v, i + 1, WriteBack(s, fields[i].name, SubWalk(env, fuel, fields, v, i).value))
  {
    var key := fields[i].name;
    GroupVisitAt(env, fuel, GroupField(name, fields), v, s, i);
    var r := SubWalk(env, fuel, fields, v, i);
    assert SubValue(v, s, key) == SubValue(v, v, key);
    if r.Success? {
      var t := WriteBack(s, key, r.value);
      assert forall j :: 0 <= j < |fields| && j != i ==> Member(t, fields[j].name) == Member(s, fields[j].name);
      assert NamedIn(fields, key);
    }
  }

  /** Walking a group of several sub-fields with distinct names: it
      succeeds exactly when every sub-field's own walk does, fails with the
      error of the first failing sub-field, and on success hands back the group's
      value with each sub-field's member replaced by its truthy replacement
      and every other member kept. */
  lemma GroupElementwise(env: Env, fuel: nat, name: string, fields: seq<Field>, v: Json)
    requires |fields| != 1 && DistinctNames(fields)
    ensures Walk(env, fuel, GroupField(name, fields), Some(v)).Success? <==>
      forall j :: 0 <= j < |fields| ==> SubWalk(env, fuel, fields, v, j).Success?
    ensures Walk(env, fuel, GroupField(name, fields), Some(v)).Failure? ==>
      exists j :: 0 <= j < |fields| && SubWalk(env, fuel, fields, v, j).Failure? &&
        (forall m :: 0 <= m < j ==> SubWalk(env, fuel, fields, v, m).Success?) &&
        SubWalk(env, fuel, fields, v, j).error == Walk(env, fuel, GroupField(name, fields), Some(v)).error
    ensures Walk(env, fuel, GroupField(name, fields), Some(v)).Success? ==>
      Walk(env, fuel, GroupField(name, fields), Some(v)).value.Some?
    ensures Walk(env, fuel, GroupField(name, fields), Some(v)).Success? && v.Obj? ==>
      forall j :: 0 <= j < |fields| ==>
        Member(Walk(env, fuel, GroupField(name, fields), Some(v)).value.value, fields[j].name) ==
        Written(Member(v, fields[j].name), SubWalk(env, fuel, fields, v, j).value)
    ensures Walk(env, fuel, GroupField(name, fields), Some(v)).Success? ==>
      ChangedOnlyUnder(fields, v, Walk(env, fuel, GroupField(name, fields), Some(v)).value.value)
  {
    assert SubFieldsDone(env, fuel, fields, v, 0, v);
    SubFieldsFrom(env, fuel, name, fields, v, 0, v);
  }
}
