/** Enumeration order of a registry level. The registry's keys are
    integer-like property names ("1", "2", ...), which JavaScript enumerates
    in ascending numeric order whatever order they were added in. */
module KeyOrder {

  predicate StrictlyIncreasing(xs: seq<nat>) {
    forall i, j :: 0 <= i < j < |xs| ==> xs[i] < xs[j]
  }

  /** Every non-empty set of keys has a least element. */
  lemma LeastExists(s: set<nat>)
    requires s != {}
    ensures exists m :: m in s && forall x :: x in s ==> m <= x
  {
    var y :| y in s;
    LeastAtMost(s, y);
  }

  /** Descending from any member through smaller members reaches the least. */
  lemma {:induction false} LeastAtMost(s: set<nat>, y: nat)
    requires y in s
    ensures exists m :: m in s && forall x :: x in s ==> m <= x
    decreases y
  {
    if z :| z in s && z < y {
      LeastAtMost(s, z);
    } else {
      assert forall x :: x in s ==> y <= x;
    }
  }

  /** The smallest key. */
  function Least(s: set<nat>): (m: nat)
    requires s != {}
    ensures m in s && forall x :: x in s ==> m <= x
  {
    LeastExists(s);
    var m :| m in s && forall x :: x in s ==> m <= x;
    m
  }

  /** The keys of a registry level in the order `for (id in obj)` visits them. */
  function Ascending(s: set<nat>): (xs: seq<nat>)
    ensures StrictlyIncreasing(xs)
    ensures forall x :: x in xs <==> x in s
    decreases |s|
  {
    if s == {} then []
    else
      var m := Least(s);
      var rest := Ascending(s - {m});
      assert forall x :: x in rest ==> m < x;
      [m] + rest
  }
}
