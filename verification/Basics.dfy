/** Stock helpers: an optional value, and the least and greatest id of a nonempty set. */
module Basics {
  datatype Option<+T> = None | Some(value: T)

  function Max(a: int, b: int): int {
    if a < b then b else a
  }

  predicate LowerBound(m: nat, s: set<nat>) {
    forall x :: x in s ==> m <= x
  }

  predicate UpperBound(m: nat, s: set<nat>) {
    forall x :: x in s ==> x <= m
  }

  lemma LeastExists(s: set<nat>)
    requires s != {}
    ensures exists m :: m in s && LowerBound(m, s)
  {
    var m :| m in s;
    var rest := s - {m};
    if rest == {} {
      assert s == {m};
      assert LowerBound(m, s);
    } else {
      LeastExists(rest);
      var l :| l in rest && LowerBound(l, rest);
      assert s == rest + {m};
      assert LowerBound(if l < m then l else m, s);
    }
  }

  lemma GreatestExists(s: set<nat>)
    requires s != {}
    ensures exists m :: m in s && UpperBound(m, s)
  {
    var m :| m in s;
    var rest := s - {m};
    if rest == {} {
      assert s == {m};
      assert UpperBound(m, s);
    } else {
      GreatestExists(rest);
      var l :| l in rest && UpperBound(l, rest);
      assert s == rest + {m};
      assert UpperBound(if l < m then m else l, s);
    }
  }

  /** The first row a query meets, in row id order. */
  function First(s: set<nat>): (r: Option<nat>)
    ensures r.None? <==> s == {}
    ensures r.Some? ==> r.value in s && forall x :: x in s ==> r.value <= x
  {
    if s == {} then None
    else
      LeastExists(s);
      var m :| m in s && LowerBound(m, s);
      Some(m)
  }

  /** The row that `ORDER BY id DESC LIMIT 1` keeps. */
  function Last(s: set<nat>): (r: Option<nat>)
    ensures r.None? <==> s == {}
    ensures r.Some? ==> r.value in s && forall x :: x in s ==> x <= r.value
  {
    if s == {} then None
    else
      GreatestExists(s);
      var m :| m in s && UpperBound(m, s);
      Some(m)
  }
}
