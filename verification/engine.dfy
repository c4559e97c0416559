/** The upgrade orchestrator (`upgrade`), the field-descriptor walker
    (`processField`) and the entry point (the `ContentUpgradeProcess`
    constructor).

    The orchestrator loads the target version's schema, runs the library's
    own hooks over the parameters, then walks the schema's top-level fields
    to find embedded sub-content older than the version on offer, and
    upgrades that sub-content by calling itself. The walker answers
    `None` for "no change", `Some(v)` for a value to write back, or a
    failure. Every result is a new tree: nothing is changed in place, so a
    failure leaves no partial upgrade behind. */
module Engine {
  import opened Results
  import opened JsonValues
  import opened Text
  import opened Versions
  import opened Iteration
  import opened Schema
  import opened Dispatch

  /** The engine's collaborators: the read-only hook registry and the
      library loader; and the minor-version filter the dispatcher applies,
      `AsWritten` for the program as it stands, `Corrected` for the filter
      it evidently intends. */
  datatype Env = Env(registry: Registry, loadLibrary: (string, Version) -> Result<Library>, minorRule: MinorRule)

  /** What a `library` field calls for. */
  datatype Plan =
    | Keep
      /** Upgrade the sub-content `params` of library `name` from `used` to
          `available`. */
    | Raise(name: string, used: Version, available: Version, params: Json)

  /** The value a slot holds once the caller has acted on a walker result:
      a truthy replacement is written back, anything else leaves the slot. */
  function Effective(v: Json, r: Option<Json>): Json {
    if r.Some? && Truthy(r.value) then r.value else v
  }

  /** The parent's state after a visit: a truthy replacement is stored
      under the field's key, any other result leaves the state alone. */
  function WriteBack(s: Json, key: string, r: Option<Json>): Json {
    if r.Some? && Truthy(r.value) then Set(s, key, r.value) else s
  }

  /** The first offered identifier whose name part equals `name`. */
  function FindOption(options: seq<string>, name: string): (r: Option<string>)
    ensures r.None? <==> forall i :: 0 <= i < |options| ==> SplitTwo(options[i], ' ').0 != name
    ensures r.Some? ==>
      exists i :: 0 <= i < |options| && options[i] == r.value && SplitTwo(r.value, ' ').0 == name &&
        forall j :: 0 <= j < i ==> SplitTwo(options[j], ' ').0 != name
  {
    if |options| == 0 then None
    else if SplitTwo(options[0], ' ').0 == name then Some(options[0])
    else
      var r := FindOption(options[1..], name);
      assert forall i :: 1 <= i < |options| ==> options[i] == options[1..][i - 1];
      r
  }

  /** `new Version(piece)` for the version part of an identifier. */
  function VersionOf(piece: Option<string>): (r: Result<Version>)
    ensures piece.Some? && Parse(piece.value).Some? ==> r == Success(Parse(piece.value).value)
    ensures piece.None? || Parse(piece.value).None? ==> r.Failure? && r.error.BadVersion?
  {
    match piece
    case None => Failure(BadVersion(""))
    case Some(s) =>
      match Parse(s)
      case None => Failure(BadVersion(s))
      case Some(v) => Success(v)
  }

  /** The decision the walker takes for a `library` field holding `v`,
      before any recursion. */
  function LibraryPlan(options: seq<string>, v: Json): Result<Plan> {
    if v.Null? then Failure(TypeError("cannot read 'library' of null"))
    else if Member(v, "library").None? || Member(v, "params").None? then Success(Keep)
    else
      var library := Member(v, "library").value;
      var params := Member(v, "params").value;
      if !library.Str? then Failure(TypeError("library identifier is not a string"))
      else
        var (usedName, usedPiece) := SplitTwo(library.s, ' ');
        match FindOption(options, usedName)
        case None => Success(Keep)
        case Some(option) =>
          var (availableName, availablePiece) := SplitTwo(option, ' ');
          if availablePiece == usedPiece then Success(Keep)
          else
            var used :- VersionOf(usedPiece);
            var available :- VersionOf(availablePiece);
            if !IsUpgrade(used, available) then Success(Keep)
            else Success(Raise(availableName, used, available, params))
  }

  /** The identifier an upgraded sub-content is given. */
  function Identifier(name: string, v: Version): string {
    name + " " + Format(v)
  }

  /** A `library` field's value after its sub-content was upgraded. */
  function Rewrite(v: Json, name: string, available: Version, upgraded: Json): Json {
    Set(Set(v, "library", Str(Identifier(name, available))), "params", upgraded)
  }

  /** Upgrades `p` of library `name` from `oldVersion` to `newVersion`.
      `fuel` bounds how deeply sub-content may nest. */
  function Upgrade(env: Env, fuel: nat, name: string, oldVersion: Version, newVersion: Version, p: Json): Result<Json>
    decreases fuel, 3
  {
    var library :- env.loadLibrary(name, newVersion);
    var q :- ProcessParams(env.minorRule, env.registry, library, oldVersion, newVersion, p);
    WalkFields(env, fuel, library.semantics, 0, q)
  }

  /** The serial walk over the top-level fields, from field `i` on, with
      the parameters `s` as the state. */
  function WalkFields(env: Env, fuel: nat, fields: seq<Field>, i: nat, s: Json): Result<Json>
    decreases fuel, 2, |fields| - i
  {
    if i >= |fields| then Success(s)
    else
      var t :- SemanticsVisit(env, fuel, fields, s, i);
      WalkFields(env, fuel, fields, i + 1, t)
  }

  /** Visiting top-level field `i`: read `params[field.name]`, walk it,
      write back a truthy replacement. */
  function SemanticsVisit(env: Env, fuel: nat, fields: seq<Field>, s: Json, i: nat): Result<Json>
    decreases fuel, 1
  {
    if i < |fields| then
      var current :- Get(s, fields[i].name);
      var r :- Walk(env, fuel, fields[i], current);
      Success(WriteBack(s, fields[i].name, r))
    else Success(s)
  }

  /** `processField`: `None` leaves the value as it is; `Some(w)` hands
      back `w` for the caller to write, when truthy, in the value's slot. */
  function Walk(env: Env, fuel: nat, field: Field, value: Option<Json>): Result<Option<Json>>
    decreases fuel, 0, field, 3
  {
    if value.None? then Success(None)
    else
      var v := value.value;
      match field
      case LibraryField(_, options) =>
        var plan :- LibraryPlan(options, v);
        (match plan
         case Keep => Success(None)
         case Raise(name, used, available, inner) =>
           if fuel == 0 then Failure(NestingTooDeep)
           else
             var upgraded :- Upgrade(env, fuel - 1, name, used, available, inner);
             Success(Some(Rewrite(v, name, available, upgraded))))
      case GroupField(_, fields) =>
        if |fields| == 1 then
          var r :- Walk(env, fuel, fields[0], value);
          Success(Some(Effective(v, r)))
        else
          var w :- WalkGroup(env, fuel, field, v, 0, v);
          Success(Some(w))
      case ListField(_, _) =>
        var w :- WalkEntries(env, fuel, field, |Entries(v)|, 0, v);
        Success(Some(w))
      case OtherField(_, _) => Success(None)
  }

  /** The serial walk over the sub-fields of a group of several fields
      holding `v`, from sub-field `i` on, with `s` as the state. */
  function WalkGroup(env: Env, fuel: nat, group: Field, v: Json, i: nat, s: Json): Result<Json>
    requires group.GroupField?
    decreases fuel, 0, group, 2, |group.fields| - i
  {
    if i >= |group.fields| then Success(s)
    else
      var t :- GroupVisit(env, fuel, group, v, s, i);
      WalkGroup(env, fuel, group, v, i + 1, t)
  }

  /** The value a group's sub-field is walked on: `v[subField.name]` of the
      current state, or `null` when the group's value `v` is falsy. */
  function SubValue(v: Json, s: Json, key: string): Option<Json> {
    if Truthy(v) then Member(s, key) else Some(Null)
  }

  /** Visiting sub-field `i`: walk its value, write back a truthy
      replacement under the sub-field's name. */
  function GroupVisit(env: Env, fuel: nat, group: Field, v: Json, s: Json, i: nat): Result<Json>
    requires group.GroupField?
    decreases fuel, 0, group, 1
  {
    if i < |group.fields| then
      var r :- Walk(env, fuel, group.fields[i], SubValue(v, s, group.fields[i].name));
      Success(WriteBack(s, group.fields[i].name, r))
    else Success(s)
  }

  /** The serial walk over the `n` entries of a list's value, from entry
      `i` on, with `s` as the state. */
  function WalkEntries(env: Env, fuel: nat, list: Field, n: nat, i: nat, s: Json): Result<Json>
    requires list.ListField?
    decreases fuel, 0, list, 2, n - i
  {
    if i >= n then Success(s)
    else
      var t :- ListVisit(env, fuel, list, s, i);
      WalkEntries(env, fuel, list, n, i + 1, t)
  }

  /** Visiting entry `i`: walk it with the shared element descriptor,
      replace it by a truthy replacement. */
  function ListVisit(env: Env, fuel: nat, list: Field, s: Json, i: nat): Result<Json>
    requires list.ListField?
    decreases fuel, 0, list, 1
  {
    if i < |Entries(s)| then
      var r :- Walk(env, fuel, list.field, Some(Entries(s)[i]));
      Success(if r.Some? && Truthy(r.value) then WithEntry(s, i, r.value) else s)
    else Success(s)
  }

  // ---------------------------------------------------------------------
  // The three walks are the serial iterator over the positions.

  /** The step the iterator takes over the top-level fields. */
  function SemanticsStep(env: Env, fuel: nat, fields: seq<Field>): (Json, nat) -> Result<Json> {
    (s: Json, i: nat) => SemanticsVisit(env, fuel, fields, s, i)
  }

  /** The step the iterator takes over a group's sub-fields. */
  function GroupStep(env: Env, fuel: nat, group: Field, v: Json): (Json, nat) -> Result<Json>
    requires group.GroupField?
  {
    (s: Json, i: nat) => GroupVisit(env, fuel, group, v, s, i)
  }

  /** The step the iterator takes over a list's entries. */
  function ListStep(env: Env, fuel: nat, list: Field): (Json, nat) -> Result<Json>
    requires list.ListField?
  {
    (s: Json, i: nat) => ListVisit(env, fuel, list, s, i)
  }

  /** The walk over the top-level fields is `asyncSerial` over their
      positions. */
  lemma {:induction false} WalkFieldsIsSerial(env: Env, fuel: nat, fields: seq<Field>, i: nat, s: Json)
    requires i <= |fields|
    ensures WalkFields(env, fuel, fields, i, s) == Serial(Indices(|fields|)[i..], SemanticsStep(env, fuel, fields), s)
    decreases |fields| - i
  {
    var items := Indices(|fields|)[i..];
    if i < |fields| {
      assert items[0] == i && items[1..] == Indices(|fields|)[i + 1..];
      match SemanticsVisit(env, fuel, fields, s, i) {
        case Failure(e) =>
        case Success(t) =>
          WalkFieldsIsSerial(env, fuel, fields, i + 1, t);
      }
    } else {
      assert items == [];
    }
  }

  /** The walk over a group's sub-fields is `asyncSerial` over their
      positions. */
  lemma {:induction false} WalkGroupIsSerial(env: Env, fuel: nat, group: Field, v: Json, i: nat, s: Json)
    requires group.GroupField? && i <= |group.fields|
    ensures WalkGroup(env, fuel, group, v, i, s) ==
            Serial(Indices(|group.fields|)[i..], GroupStep(env, fuel, group, v), s)
    decreases |group.fields| - i
  {
    var items := Indices(|group.fields|)[i..];
    if i < |group.fields| {
      assert items[0] == i && items[1..] == Indices(|group.fields|)[i + 1..];
      match GroupVisit(env, fuel, group, v, s, i) {
        case Failure(e) =>
        case Success(t) =>
          WalkGroupIsSerial(env, fuel, group, v, i + 1, t);
      }
    } else {
      assert items == [];
    }
  }

  /** The walk over a list's entries is `asyncSerial` over their
      positions. */
  lemma {:induction false} WalkEntriesIsSerial(env: Env, fuel: nat, list: Field, n: nat, i: nat, s: Json)
    requires list.ListField? && i <= n
    ensures WalkEntries(env, fuel, list, n, i, s) == Serial(Indices(n)[i..], ListStep(env, fuel, list), s)
    decreases n - i
  {
    var items := Indices(n)[i..];
    if i < n {
      assert items[0] == i && items[1..] == Indices(n)[i + 1..];
      match ListVisit(env, fuel, list, s, i) {
        case Failure(e) =>
        case Success(t) =>
          WalkEntriesIsSerial(env, fuel, list, n, i + 1, t);
      }
    } else {
      assert items == [];
    }
  }

  /** The walk over the top-level fields, from the first one. */
  lemma TopLoop(env: Env, fuel: nat, fields: seq<Field>, s: Json)
    ensures WalkFields(env, fuel, fields, 0, s) == Serial(Indices(|fields|), SemanticsStep(env, fuel, fields), s)
  {
    WalkFieldsIsSerial(env, fuel, fields, 0, s);
    assert Indices(|fields|)[0..] == Indices(|fields|);
  }

  /** The walk over a group's sub-fields, from the first one. */
  lemma GroupLoop(env: Env, fuel: nat, group: Field, v: Json)
    requires group.GroupField?
    ensures WalkGroup(env, fuel, group, v, 0, v) == Serial(Indices(|group.fields|), GroupStep(env, fuel, group, v), v)
  {
    WalkGroupIsSerial(env, fuel, group, v, 0, v);
    assert Indices(|group.fields|)[0..] == Indices(|group.fields|);
  }

  /** The walk over a list's entries, from the first one. */
  lemma ListLoop(env: Env, fuel: nat, list: Field, v: Json)
    requires list.ListField?
    ensures WalkEntries(env, fuel, list, |Entries(v)|, 0, v) == Serial(Indices(|Entries(v)|), ListStep(env, fuel, list), v)
  {
    WalkEntriesIsSerial(env, fuel, list, |Entries(v)|, 0, v);
    assert Indices(|Entries(v)|)[0..] == Indices(|Entries(v)|);
  }

  /** `JSON.parse` and `JSON.stringify`, supplied by the host. */
  datatype Codec = Codec(parse: string -> Option<Json>, stringify: Json -> string)

  /** The entry point: parse, check that the parameters are an object,
      upgrade, serialize the upgraded tree. */
  function UpgradeContent(env: Env, codec: Codec, fuel: nat, name: string, oldVersion: Version, newVersion: Version,
                          text: string, id: string): (r: Result<string>)
    ensures codec.parse(text).None? ==> r == Failure(ParamsBroken(id))
    ensures codec.parse(text).Some? && !IsObject(codec.parse(text).value) ==> r == Failure(ParamsBroken(id))
  {
    match codec.parse(text)
    case None => Failure(ParamsBroken(id))
    case Some(p) =>
      if !IsObject(p) then Failure(ParamsBroken(id))
      else
        var q :- Upgrade(env, fuel, name, oldVersion, newVersion, p);
        Success(codec.stringify(q))
  }
}
