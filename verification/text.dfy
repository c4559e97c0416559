/** The string handling the engine relies on: JavaScript's `split(sep, 2)`
    on library identifiers such as "H5P.Image 1.1", and the decimal digits
    of version numbers. */
module Text {
  import opened Results

  predicate IsDigit(c: char) {
    '0' <= c <= '9'
  }

  predicate AllDigits(s: string) {
    forall i :: 0 <= i < |s| ==> IsDigit(s[i])
  }

  /** The value of a string of decimal digits, most significant first. */
  function DigitsValue(s: string): nat
    requires AllDigits(s)
  {
    if |s| == 0 then 0
    else DigitsValue(s[..|s| - 1]) * 10 + (s[|s| - 1] as int - '0' as int)
  }

  /** JavaScript's string form of a non-negative integer. */
  function Decimal(n: nat): (s: string)
    ensures |s| > 0 && AllDigits(s)
  {
    if n < 10 then [('0' as int + n) as char]
    else Decimal(n / 10) + [('0' as int + n % 10) as char]
  }

  /** Printing a number and reading it back gives the number. */
  lemma {:induction false} DecimalRoundTrip(n: nat)
    ensures DigitsValue(Decimal(n)) == n
  {
    var s := Decimal(n);
    if n >= 10 {
      assert s[..|s| - 1] == Decimal(n / 10);
      DecimalRoundTrip(n / 10);
    }
  }

  /** The position of the first `c` in `s`, if any. */
  function IndexOf(s: string, c: char): (r: Option<nat>)
    ensures r.None? <==> c !in s
    ensures r.Some? ==> r.value < |s| && s[r.value] == c && c !in s[..r.value]
  {
    if |s| == 0 then None
    else if s[0] == c then Some(0)
    else
      match IndexOf(s[1..], c)
      case None => None
      case Some(i) =>
        assert s[..i + 1] == [s[0]] + s[1..][..i];
        Some(i + 1)
  }

  /** The text of `s` before its first `sep` (all of `s` if there is none). */
  function UpTo(s: string, sep: char): (r: string)
    ensures sep !in r
    ensures r <= s
    ensures |r| < |s| ==> s[|r|] == sep
  {
    match IndexOf(s, sep)
    case None => s
    case Some(i) => s[..i]
  }

  /** JavaScript `s.split(sep, 2)`: the first piece, and the second piece if
      `s` contains `sep` at all. */
  function SplitTwo(s: string, sep: char): (r: (string, Option<string>))
    ensures sep !in r.0
    ensures r.1.None? <==> sep !in s
    ensures r.1.None? ==> r.0 == s
    ensures r.1.Some? ==> sep !in r.1.value && r.0 + [sep] + r.1.value <= s
    ensures r.1.Some? ==> |r.0| + 1 + |r.1.value| < |s| ==> s[|r.0| + 1 + |r.1.value|] == sep
  {
    match IndexOf(s, sep)
    case None => (s, None)
    case Some(i) =>
      var rest := s[i + 1..];
      var second := UpTo(rest, sep);
      assert s[..i] + [sep] + second == s[..i + 1 + |second|];
      (s[..i], Some(second))
  }

  /** Splitting what `a + [sep] + b` joined gives back `a` and `b`. */
  lemma SplitJoin(a: string, sep: char, b: string)
    requires sep !in a && sep !in b
    ensures SplitTwo(a + [sep] + b, sep) == (a, Some(b))
  {
    var s := a + [sep] + b;
    assert s[..|a|] == a;
    assert s[|a|] == sep;
    var i := IndexOf(s, sep).value;
    assert i == |a|;
    assert s[|a| + 1..] == b;
  }

  /** A string without `sep` splits into itself alone. */
  lemma SplitWithout(a: string, sep: char)
    requires sep !in a
    ensures SplitTwo(a, sep) == (a, None)
  {
  }
}
