/** How the walker treats a `list` field: every entry is walked with the
    shared element descriptor, in order, each truthy replacement is
    written back in the entry's slot, and the first failure stops the walk. */
module WalkerLists {
  import opened Results
  import opened JsonValues
  import opened Iteration
  import opened Schema
  import opened Engine

  /** Reference definition: the entries `es` after walking each one with
      `elem`, left to right, up to the first failure. */
  function EachEntry(env: Env, fuel: nat, elem: Field, es: seq<Json>): (r: Result<seq<Json>>)
    ensures r.Success? ==> |r.value| == |es|
    decreases |es|
  {
    if |es| == 0 then Success([])
    else
      match Walk(env, fuel, elem, Some(es[0]))
      case Failure(e) => Failure(e)
      case Success(r) =>
        var rest :- EachEntry(env, fuel, elem, es[1..]);
        Success([Effective(es[0], r)] + rest)
  }

  /** What the reference computes: on success every entry walked
      successfully and holds its effective value; on failure the error is
      that of the first entry whose walk failed. */
  lemma EachEntryElementwise(env: Env, fuel: nat, elem: Field, es: seq<Json>)
    ensures var r := EachEntry(env, fuel, elem, es);
      r.Success? ==> forall j :: 0 <= j < |es| ==>
        Walk(env, fuel, elem, Some(es[j])).Success? &&
        r.value[j] == Effective(es[j], Walk(env, fuel, elem, Some(es[j])).value)
    ensures var r := EachEntry(env, fuel, elem, es);
      r.Failure? ==> exists j :: (0 <= j < |es| &&
        Walk(env, fuel, elem, Some(es[j])).Failure? && r.error == Walk(env, fuel, elem, Some(es[j])).error &&
        forall k :: 0 <= k < j ==> Walk(env, fuel, elem, Some(es[k])).Success?)
    ensures (forall j :: 0 <= j < |es| ==> Walk(env, fuel, elem, Some(es[j])).Success?) ==>
      EachEntry(env, fuel, elem, es).Success?
  {
    EachEntrySuccess(env, fuel, elem, es);
    EachEntryFailure(env, fuel, elem, es);
    if forall j :: 0 <= j < |es| ==> Walk(env, fuel, elem, Some(es[j])).Success? {
      EachEntryAllSucceed(env, fuel, elem, es);
    }
  }

  /** On success, entry by entry. */
  lemma {:induction false} EachEntrySuccess(env: Env, fuel: nat, elem: Field, es: seq<Json>)
    ensures var r := EachEntry(env, fuel, elem, es);
      r.Success? ==> forall j :: 0 <= j < |es| ==>
        Walk(env, fuel, elem, Some(es[j])).Success? &&
        r.value[j] == Effective(es[j], Walk(env, fuel, elem, Some(es[j])).value)
    decreases |es|
  {
    if |es| > 0 {
      EachEntrySuccess(env, fuel, elem, es[1..]);
      assert forall j :: 1 <= j < |es| ==> es[j] == es[1..][j - 1];
    }
  }

  /** On failure, the first failing entry. */
  lemma {:induction false} EachEntryFailure(env: Env, fuel: nat, elem: Field, es: seq<Json>)
    ensures var r := EachEntry(env, fuel, elem, es);
      r.Failure? ==> exists j :: (0 <= j < |es| &&
        Walk(env, fuel, elem, Some(es[j])).Failure? && r.error == Walk(env, fuel, elem, Some(es[j])).error &&
        forall k :: 0 <= k < j ==> Walk(env, fuel, elem, Some(es[k])).Success?)
    decreases |es|
  {
    if |es| > 0 {
      var r := EachEntry(env, fuel, elem, es);
      if r.Failure? && Walk(env, fuel, elem, Some(es[0])).Success? {
        EachEntryFailure(env, fuel, elem, es[1..]);
        var j :| 0 <= j < |es[1..]| &&
          Walk(env, fuel, elem, Some(es[1..][j])).Failure? && r.error == Walk(env, fuel, elem, Some(es[1..][j])).error &&
          forall k :: 0 <= k < j ==> Walk(env, fuel, elem, Some(es[1..][k])).Success?;
        assert es[j + 1] == es[1..][j];
        assert forall k :: 1 <= k < j + 1 ==> es[k] == es[1..][k - 1];
      }
    }
  }

  /** No failure without a failing entry. */
  lemma {:induction false} EachEntryAllSucceed(env: Env, fuel: nat, elem: Field, es: seq<Json>)
    requires forall j :: 0 <= j < |es| ==> Walk(env, fuel, elem, Some(es[j])).Success?
    ensures EachEntry(env, fuel, elem, es).Success?
    decreases |es|
  {
    if |es| > 0 {
      assert forall j :: 1 <= j < |es| ==> es[j] == es[1..][j - 1];
      EachEntryAllSucceed(env, fuel, elem, es[1..]);
    }
  }

  /** Two values of the same kind, with the same keys when objects. */
  predicate SameShape(a: Json, b: Json) {
    && a.Arr? == b.Arr?
    && a.Obj? == b.Obj?
    && (a.Obj? ==> Keys(a.members) == Keys(b.members))
    && (!IsObject(a) ==> a == b)
  }

  /** Visiting entry k walks that entry and, on success, puts the entry's
      effective value in its slot, keeping the value's kind and keys. */
  lemma ListVisitAt(env: Env, fuel: nat, list: Field, v: Json, s: Json, k: nat)
    requires list.ListField?
    requires k < |Entries(s)| && SameShape(v, s)
    ensures var r := Walk(env, fuel, list.field, Some(Entries(s)[k]));
      var out := ListVisit(env, fuel, list, s, k);
      && (r.Failure? ==> out == Failure(r.error))
      && (r.Success? ==> out.Success? && SameShape(v, out.value) &&
                         Entries(out.value) == Entries(s)[k := Effective(Entries(s)[k], r.value)])
  {
  }

  /** One step of the walk over a list value `v`: entry k is walked from a
      state `s` that still holds `v`'s entries from k on. */
  lemma ListFoldStep(env: Env, fuel: nat, list: Field, v: Json, s: Json, k: nat)
    requires list.ListField?
    requires k < |Entries(v)|
    requires SameShape(v, s) && |Entries(s)| == |Entries(v)|
    requires Entries(s)[k..] == Entries(v)[k..]
    ensures var n := |Entries(v)|;
      var step := ListStep(env, fuel, list);
      var r := Walk(env, fuel, list.field, Some(Entries(v)[k]));
      && (r.Failure? ==>
            Serial(Indices(n)[k..], step, s) == Failure(r.error) &&
            EachEntry(env, fuel, list.field, Entries(v)[k..]) == Failure(r.error))
      && (r.Success? ==>
            var t := ListVisit(env, fuel, list, s, k).value;
            var x := Effective(Entries(v)[k], r.value);
            && ListVisit(env, fuel, list, s, k).Success?
            && Serial(Indices(n)[k..], step, s) == Serial(Indices(n)[k + 1..], step, t)
            && SameShape(v, t) && |Entries(t)| == n
            && Entries(t)[k + 1..] == Entries(v)[k + 1..]
            && Entries(t)[..k + 1] == Entries(s)[..k] + [x]
            && EachEntry(env, fuel, list.field, Entries(v)[k..]) ==
                 match EachEntry(env, fuel, list.field, Entries(v)[k + 1..])
                 case Failure(e) => Failure(e)
                 case Success(rest) => Success([x] + rest))
  {
    var n := |Entries(v)|;
    var step := ListStep(env, fuel, list);
    var items := Indices(n)[k..];
    var es := Entries(v)[k..];
    assert items[0] == k && items[1..] == Indices(n)[k + 1..];
    assert Entries(s)[k] == es[0] == Entries(v)[k];
    assert es[1..] == Entries(v)[k + 1..];
    assert step(s, k) == ListVisit(env, fuel, list, s, k);
    ListVisitAt(env, fuel, list, v, s, k);
    var r := Walk(env, fuel, list.field, Some(es[0]));
    if r.Success? {
      var t := ListVisit(env, fuel, list, s, k).value;
      assert Entries(t)[k + 1..] == Entries(s)[k + 1..];
      assert Entries(s)[k + 1..] == Entries(s)[k..][1..];
    }
  }

  /** The walk over entries k, k+1, ... of a list value `v`, from a state
      `s` that still holds `v`'s entries from k on, fails exactly when the
      reference does, with the same error. */
  lemma {:induction false} ListFoldOutcome(env: Env, fuel: nat, list: Field, v: Json, s: Json, k: nat)
    requires list.ListField?
    requires k <= |Entries(v)|
    requires SameShape(v, s) && |Entries(s)| == |Entries(v)|
    requires Entries(s)[k..] == Entries(v)[k..]
    ensures var out := Serial(Indices(|Entries(v)|)[k..], ListStep(env, fuel, list), s);
      var ref := EachEntry(env, fuel, list.field, Entries(v)[k..]);
      && (out.Failure? <==> ref.Failure?)
      && (out.Failure? ==> out.error == ref.error)
    decreases |Entries(v)| - k
  {
    var n := |Entries(v)|;
    if k == n {
      assert Indices(n)[k..] == [] && Entries(v)[k..] == [];
    } else {
      ListFoldStep(env, fuel, list, v, s, k);
      var r := Walk(env, fuel, list.field, Some(Entries(v)[k]));
      if r.Success? {
        ListFoldOutcome(env, fuel, list, v, ListVisit(env, fuel, list, s, k).value, k + 1);
      }
    }
  }

  /** ... and when it succeeds, it holds a value of `v`'s kind and keys
      whose entries after k - 1 are the reference's. */
  lemma {:induction false} ListFoldValue(env: Env, fuel: nat, list: Field, v: Json, s: Json, k: nat)
    requires list.ListField?
    requires k <= |Entries(v)|
    requires SameShape(v, s) && |Entries(s)| == |Entries(v)|
    requires Entries(s)[k..] == Entries(v)[k..]
    requires Serial(Indices(|Entries(v)|)[k..], ListStep(env, fuel, list), s).Success?
    requires EachEntry(env, fuel, list.field, Entries(v)[k..]).Success?
    ensures var out := Serial(Indices(|Entries(v)|)[k..], ListStep(env, fuel, list), s).value;
      SameShape(v, out) && Entries(out) == Entries(s)[..k] + EachEntry(env, fuel, list.field, Entries(v)[k..]).value
    decreases |Entries(v)| - k
  {
    var n := |Entries(v)|;
    if k == n {
      assert Indices(n)[k..] == [] && Entries(v)[k..] == [];
      assert Entries(s)[..k] == Entries(s);
    } else {
      ListFoldStep(env, fuel, list, v, s, k);
      var t := ListVisit(env, fuel, list, s, k).value;
      ListFoldValue(env, fuel, list, v, t, k + 1);
      var r := Walk(env, fuel, list.field, Some(Entries(v)[k]));
      var x := Effective(Entries(v)[k], r.value);
      var rest := EachEntry(env, fuel, list.field, Entries(v)[k + 1..]).value;
      Regroup(Entries(s)[..k], x, rest);
    }
  }

  /** Concatenation regrouped, stated apart so that the proof above does
      not search for it among its other facts. */
  lemma Regroup(a: seq<Json>, x: Json, b: seq<Json>)
    ensures a + [x] + b == a + ([x] + b)
  {
  }

  /** Walking a `list` field never fails on its own account: it fails
      exactly when walking some entry fails, with the first such entry's
      error; otherwise it hands back a value of the same kind and keys whose
      every entry is the entry after its own walk. */
  lemma ListWalkElementwise(env: Env, fuel: nat, name: string, elem: Field, v: Json)
    ensures var out := Walk(env, fuel, ListField(name, elem), Some(v));
      var ref := EachEntry(env, fuel, elem, Entries(v));
      && (out.Failure? <==> ref.Failure?)
      && (out.Failure? ==> out.error == ref.error)
      && (out.Success? ==> out.value.Some? && SameShape(v, out.value.value) && Entries(out.value.value) == ref.value)
  {
    var list := ListField(name, elem);
    ListLoop(env, fuel, list, v);
    assert Indices(|Entries(v)|)[0..] == Indices(|Entries(v)|);
    assert Entries(v)[0..] == Entries(v);
    ListFoldOutcome(env, fuel, list, v, v, 0);
    if Walk(env, fuel, list, Some(v)).Success? {
      ListFoldValue(env, fuel, list, v, v, 0);
    }
  }
}
