/** Library versions: a (major, minor) pair written "major.minor". */
module Versions {
  import opened Results
  import opened Text

  datatype Version = Version(major: nat, minor: nat)

  /** Lexicographic order on (major, minor). */
  predicate Before(a: Version, b: Version) {
    a.major < b.major || (a.major == b.major && a.minor < b.minor)
  }

  /** The "major.minor" string form, as the engine writes it back into a
      library identifier. */
  function Format(v: Version): (s: string)
    ensures '.' in s && ' ' !in s
  {
    var s := Decimal(v.major) + "." + Decimal(v.minor);
    assert s[|Decimal(v.major)|] == '.';
    s
  }

  /** Reads "major.minor" where both parts are non-empty decimal digits;
      anything else is not a version. A version read comes from exactly
      such a split, and `ParseDigits` shows every such string is read. */
  function Parse(s: string): (r: Option<Version>)
    ensures r.Some? ==>
      exists i :: 0 < i < |s| - 1 && s[i] == '.' && AllDigits(s[..i]) && AllDigits(s[i + 1..]) &&
        r.value == Version(DigitsValue(s[..i]), DigitsValue(s[i + 1..]))
  {
    match IndexOf(s, '.')
    case None => None
    case Some(i) =>
      var major := s[..i];
      var minor := s[i + 1..];
      if |major| > 0 && |minor| > 0 && AllDigits(major) && AllDigits(minor)
      then Some(Version(DigitsValue(major), DigitsValue(minor)))
      else None
  }

  /** Two non-empty runs of digits joined by a dot read as the version
      they spell. */
  lemma ParseDigits(a: string, b: string)
    requires |a| > 0 && |b| > 0 && AllDigits(a) && AllDigits(b)
    ensures Parse(a + "." + b) == Some(Version(DigitsValue(a), DigitsValue(b)))
  {
    var s := a + "." + b;
    assert s[..|a|] == a;
    assert s[|a|] == '.';
    assert IndexOf(s, '.') == Some(|a|);
    assert s[|a| + 1..] == b;
  }

  /** Formatting a version and parsing it back gives the version. */
  lemma ParseFormat(v: Version)
    ensures Parse(Format(v)) == Some(v)
  {
    ParseDigits(Decimal(v.major), Decimal(v.minor));
    DecimalRoundTrip(v.major);
    DecimalRoundTrip(v.minor);
  }

  /** The walker's test for "a newer version is on offer" (it declines when
      the used major is greater, or the majors agree and the used minor is
      at least the offered one): exactly the lexicographic order. */
  function IsUpgrade(used: Version, available: Version): (r: bool)
    ensures r <==> Before(used, available)
    ensures r ==> used != available
  {
    !(used.major > available.major || (used.major == available.major && used.minor >= available.minor))
  }
}
