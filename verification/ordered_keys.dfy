/** The ordering operations of `std::map` and `std::set` over unsigned keys:
    smallest and largest element, `lower_bound`/`upper_bound`-style
    neighbours, and ascending iteration order. */
module OrderedKeys {
  import opened Common

  /** The smallest element of a non-empty set, found by removing one
      element at a time. */
  lemma {:induction false} Least(s: set<nat>) returns (m: nat)
    requires s != {}
    ensures m in s && forall y :: y in s ==> m <= y
    decreases |s|
  {
    var x :| x in s;
    m := x;
    if s != {x} {
      var rest := s - {x};
      var k := Least(rest);
      if k < x {
        m := k;
      }
      forall y | y in s
        ensures m <= y
      {
        if y != x {
          assert y in rest;
        }
      }
    }
  }

  /** The largest element of a non-empty set. */
  lemma {:induction false} Greatest(s: set<nat>) returns (m: nat)
    requires s != {}
    ensures m in s && forall y :: y in s ==> y <= m
    decreases |s|
  {
    var x :| x in s;
    m := x;
    if s != {x} {
      var rest := s - {x};
      var k := Greatest(rest);
      if k > x {
        m := k;
      }
      forall y | y in s
        ensures y <= m
      {
        if y != x {
          assert y in rest;
        }
      }
    }
  }

  lemma MinExists(s: set<nat>)
    requires s != {}
    ensures exists m :: m in s && forall y :: y in s ==> m <= y
  {
    var m := Least(s);
  }

  lemma MaxExists(s: set<nat>)
    requires s != {}
    ensures exists m :: m in s && forall y :: y in s ==> y <= m
  {
    var m := Greatest(s);
  }

  function Min(s: set<nat>): (m: nat)
    requires s != {}
    ensures m in s && forall x :: x in s ==> m <= x
  {
    MinExists(s);
    var m :| m in s && forall y :: y in s ==> m <= y;
    m
  }

  function Max(s: set<nat>): (m: nat)
    requires s != {}
    ensures m in s && forall x :: x in s ==> x <= m
  {
    MaxExists(s);
    var m :| m in s && forall y :: y in s ==> y <= m;
    m
  }

  /** The largest key strictly below `a` (the `--lower_bound(a)` step). */
  function Below(s: set<nat>, a: nat): (r: Option<nat>)
    ensures r.None? <==> forall x :: x in s ==> x >= a
    ensures r.Some? ==> r.value in s && r.value < a && forall x :: x in s && x < a ==> x <= r.value
  {
    var lower := set x | x in s && x < a;
    assert forall x :: x in s && x < a ==> x in lower;
    if lower == {} then None else Some(Max(lower))
  }

  /** The smallest key strictly above `a` (`upper_bound(a)`). */
  function Above(s: set<nat>, a: nat): (r: Option<nat>)
    ensures r.None? <==> forall x :: x in s ==> x <= a
    ensures r.Some? ==> r.value in s && r.value > a && forall x :: x in s && x > a ==> r.value <= x
  {
    var upper := set x | x in s && x > a;
    assert forall x :: x in s && x > a ==> x in upper;
    if upper == {} then None else Some(Min(upper))
  }

  /** Ascending order of a finite set: the order in which `std::map`
      iterates its keys. */
  function Ascending(s: set<nat>): (r: seq<nat>)
    ensures |r| == |s|
    ensures forall x :: x in s <==> x in r
    ensures forall i, j :: 0 <= i < j < |r| ==> r[i] < r[j]
    decreases |s|
  {
    if s == {} then []
    else
      var m := Min(s);
      var rest := Ascending(s - {m});
      assert forall i :: 0 <= i < |rest| ==> m < rest[i] by {
        forall i | 0 <= i < |rest|
          ensures m < rest[i]
        {
          assert rest[i] in s - {m};
        }
      }
      [m] + rest
  }
}
