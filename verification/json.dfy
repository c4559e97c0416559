/** The untyped parameter tree the engine walks: a JSON value as JavaScript
    sees it after `JSON.parse`. An object keeps its own enumerable
    properties in enumeration order; reading a key takes its first
    occurrence (a parsed object never repeats a key). */
module JsonValues {
  import opened Results

  datatype Json =
    | Null
    | Bool(b: bool)
    | Num(n: int)
    | Str(s: string)
    | Arr(items: seq<Json>)
    | Obj(members: seq<(string, Json)>)

  /** JavaScript truthiness: what `if (upgradedParams)` tests. */
  predicate Truthy(v: Json) {
    match v
    case Null => false
    case Bool(b) => b
    case Num(n) => n != 0
    case Str(s) => s != ""
    case Arr(_) => true
    case Obj(_) => true
  }

  /** `v instanceof Object` for a parsed JSON value: arrays are objects too. */
  predicate IsObject(v: Json) {
    v.Arr? || v.Obj?
  }

  /** The keys of an object's members, in enumeration order. */
  function Keys(ms: seq<(string, Json)>): (ks: seq<string>)
    ensures |ks| == |ms|
    ensures forall i :: 0 <= i < |ms| ==> ks[i] == ms[i].0
  {
    if |ms| == 0 then [] else [ms[0].0] + Keys(ms[1..])
  }

  /** The value stored under `key`, from its first occurrence. */
  function Lookup(ms: seq<(string, Json)>, key: string): (r: Option<Json>)
    ensures r.None? <==> forall i :: 0 <= i < |ms| ==> ms[i].0 != key
    ensures r.Some? ==>
      exists i :: 0 <= i < |ms| && ms[i] == (key, r.value) &&
        forall j :: 0 <= j < i ==> ms[j].0 != key
  {
    if |ms| == 0 then None
    else if ms[0].0 == key then Some(ms[0].1)
    else
      var r := Lookup(ms[1..], key);
      assert forall i :: 1 <= i < |ms| ==> ms[i] == ms[1..][i - 1];
      r
  }

  /** JavaScript `v[key]` where the engine may meet `null`: reading a
      property of `null` throws, any other non-object has no such property. */
  function Get(v: Json, key: string): (r: Result<Option<Json>>)
    ensures r.Failure? <==> v.Null?
    ensures r.Failure? ==> r.error.TypeError?
    ensures r.Success? && r.value.Some? ==> v.Obj?
    ensures r.Success? ==> r.value == Member(v, key)
  {
    match v
    case Null => Failure(TypeError("cannot read '" + key + "' of null"))
    case Obj(ms) => Success(Lookup(ms, key))
    case _ => Success(None)
  }

  /** JavaScript `v[key]` on a value known not to be `null`. */
  function Member(v: Json, key: string): Option<Json> {
    if v.Obj? then Lookup(v.members, key) else None
  }

  /** Assigns `x` at the first occurrence of `key`, or appends a new member. */
  function Put(ms: seq<(string, Json)>, key: string, x: Json): (r: seq<(string, Json)>)
    ensures Lookup(r, key) == Some(x)
    ensures forall k :: k != key ==> Lookup(r, k) == Lookup(ms, k)
    ensures Lookup(ms, key).Some? ==> Keys(r) == Keys(ms)
    ensures Lookup(ms, key).None? ==> Keys(r) == Keys(ms) + [key]
  {
    if |ms| == 0 then
      LookupCons((key, x), []);
      [(key, x)]
    else if ms[0].0 == key then
      PutFront(ms, key, x);
      [(key, x)] + ms[1..]
    else
      var rest := Put(ms[1..], key, x);
      PutLater(ms, key, x, rest);
      [ms[0]] + rest
  }

  /** Replacing the first member, when it carries the key. */
  lemma PutFront(ms: seq<(string, Json)>, key: string, x: Json)
    requires |ms| > 0 && ms[0].0 == key
    ensures var r := [(key, x)] + ms[1..];
      && Lookup(r, key) == Some(x)
      && (forall k :: k != key ==> Lookup(r, k) == Lookup(ms, k))
      && Lookup(ms, key).Some? && Keys(r) == Keys(ms)
  {
    LookupCons((key, x), ms[1..]);
    LookupCons(ms[0], ms[1..]);
    KeysCons((key, x), ms[1..]);
    KeysCons(ms[0], ms[1..]);
    assert [ms[0]] + ms[1..] == ms;
  }

  /** Keeping the first member, which carries another key, in front of the
      rest after the assignment. */
  lemma PutLater(ms: seq<(string, Json)>, key: string, x: Json, rest: seq<(string, Json)>)
    requires |ms| > 0 && ms[0].0 != key
    requires Lookup(rest, key) == Some(x)
    requires forall k :: k != key ==> Lookup(rest, k) == Lookup(ms[1..], k)
    requires Lookup(ms[1..], key).Some? ==> Keys(rest) == Keys(ms[1..])
    requires Lookup(ms[1..], key).None? ==> Keys(rest) == Keys(ms[1..]) + [key]
    ensures var r := [ms[0]] + rest;
      && Lookup(r, key) == Some(x)
      && (forall k :: k != key ==> Lookup(r, k) == Lookup(ms, k))
      && (Lookup(ms, key).Some? ==> Keys(r) == Keys(ms))
      && (Lookup(ms, key).None? ==> Keys(r) == Keys(ms) + [key])
  {
    LookupCons(ms[0], rest);
    LookupCons(ms[0], ms[1..]);
    assert [ms[0]] + ms[1..] == ms;
    assert Lookup(ms, key) == Lookup(ms[1..], key);
    PutLaterKeys(ms, key, rest, Lookup(ms, key).Some?);
  }

  lemma PutLaterKeys(ms: seq<(string, Json)>, key: string, rest: seq<(string, Json)>, found: bool)
    requires |ms| > 0
    requires found ==> Keys(rest) == Keys(ms[1..])
    requires !found ==> Keys(rest) == Keys(ms[1..]) + [key]
    ensures found ==> Keys([ms[0]] + rest) == Keys(ms)
    ensures !found ==> Keys([ms[0]] + rest) == Keys(ms) + [key]
  {
    KeysCons(ms[0], rest);
    KeysCons(ms[0], ms[1..]);
    assert [ms[0]] + ms[1..] == ms;
    assert [ms[0].0] + (Keys(ms[1..]) + [key]) == [ms[0].0] + Keys(ms[1..]) + [key];
  }

  /** Looking a key up in a list that starts with `m`. */
  lemma LookupCons(m: (string, Json), ms: seq<(string, Json)>)
    ensures forall key :: Lookup([m] + ms, key) == if m.0 == key then Some(m.1) else Lookup(ms, key)
  {
    assert ([m] + ms)[1..] == ms;
  }

  /** The keys of a list that starts with `m`. */
  lemma KeysCons(m: (string, Json), ms: seq<(string, Json)>)
    ensures Keys([m] + ms) == [m.0] + Keys(ms)
  {
    assert ([m] + ms)[1..] == ms;
  }

  /** JavaScript `v[key] = x`: an object gains or replaces the member; the
      assignment is ignored on primitives and, as far as the JSON form is
      concerned, on arrays. */
  function Set(v: Json, key: string, x: Json): (r: Json)
    ensures v.Obj? ==> r.Obj? && Member(r, key) == Some(x)
    ensures v.Obj? ==> forall k :: k != key ==> Member(r, k) == Member(v, k)
    ensures !v.Obj? ==> r == v
  {
    if v.Obj? then Obj(Put(v.members, key, x)) else v
  }

  /** Writing back the value a key already holds changes nothing. */
  lemma {:induction false} PutSame(ms: seq<(string, Json)>, key: string, x: Json)
    requires Lookup(ms, key) == Some(x)
    ensures Put(ms, key, x) == ms
  {
    LookupCons(ms[0], ms[1..]);
    assert [ms[0]] + ms[1..] == ms;
    if ms[0].0 == key {
      assert ms[0] == (key, x);
    } else {
      PutSame(ms[1..], key, x);
    }
  }

  /** The values `asyncSerial` visits when handed `v`: an array's elements,
      an object's member values in key order, nothing for anything else. */
  function Entries(v: Json): (es: seq<Json>)
    ensures v.Arr? ==> es == v.items
    ensures v.Obj? ==> |es| == |v.members| && forall i :: 0 <= i < |es| ==> es[i] == v.members[i].1
    ensures !IsObject(v) ==> es == []
  {
    match v
    case Arr(items) => items
    case Obj(ms) => seq(|ms|, i requires 0 <= i < |ms| => ms[i].1)
    case _ => []
  }

  /** `v[index] = x` for the `index`-th visited entry. */
  function WithEntry(v: Json, i: nat, x: Json): (r: Json)
    requires i < |Entries(v)|
    ensures Entries(r) == Entries(v)[i := x]
    ensures r.Arr? == v.Arr? && r.Obj? == v.Obj?
    ensures v.Obj? ==> Keys(r.members) == Keys(v.members)
  {
    match v
    case Arr(items) => Arr(items[i := x])
    case Obj(ms) => Obj(ms[i := (ms[i].0, x)])
  }

  /** Writing back the entry already there changes nothing. */
  lemma WithEntrySame(v: Json, i: nat, x: Json)
    requires i < |Entries(v)| && Entries(v)[i] == x
    ensures WithEntry(v, i, x) == v
  {
    if v.Obj? {
      assert v.members[i] == (v.members[i].0, x);
    }
  }

  /** Writing back the value a key already holds changes nothing. */
  lemma SetSame(v: Json, key: string, x: Json)
    requires Member(v, key) == Some(x)
    ensures Set(v, key, x) == v
  {
    PutSame(v.members, key, x);
  }
}
