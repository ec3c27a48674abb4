/** Least and greatest elements of finite sets of numbers. */
module Extremes {

  /** m comes first in s. */
  predicate IsFirst(s: set<nat>, m: nat, before: (nat, nat) -> bool) {
    m in s && forall x :: x in s ==> x == m || before(m, x)
  }

  /** Of any two different numbers exactly one comes first, and coming first carries on. */
  ghost predicate TotalOrder(before: (nat, nat) -> bool) {
    && (forall x, y :: x == y || before(x, y) || before(y, x))
    && (forall x, y :: before(x, y) ==> !before(y, x))
    && forall x, y, z :: before(x, y) && before(y, z) ==> before(x, z)
  }

  lemma {:induction false} FirstExists(s: set<nat>, before: (nat, nat) -> bool)
    requires s != {} && TotalOrder(before)
    ensures exists m :: IsFirst(s, m, before)
    decreases |s|
  {
    var x :| x in s;
    var rest := s - {x};
    if rest == {} {
      assert s == {x};
      assert IsFirst(s, x, before);
    } else {
      FirstExists(rest, before);
      var m :| IsFirst(rest, m, before);
      FirstOfTwo(s, x, rest, m, before);
    }
  }

  lemma FirstOfTwo(s: set<nat>, x: nat, rest: set<nat>, m: nat, before: (nat, nat) -> bool)
    requires s == rest + {x} && IsFirst(rest, m, before) && TotalOrder(before)
    ensures IsFirst(s, if before(m, x) then m else x, before)
  {
  }

  function First(s: set<nat>, before: (nat, nat) -> bool): (m: nat)
    requires s != {} && TotalOrder(before)
    ensures IsFirst(s, m, before)
  {
    FirstExists(s, before);
    var m :| IsFirst(s, m, before);
    m
  }

  function Min(s: set<nat>): (m: nat)
    requires s != {}
    ensures m in s && forall x :: x in s ==> m <= x
  {
    First(s, (x, y) => x < y)
  }

  function Max(s: set<nat>): (m: nat)
    requires s != {}
    ensures m in s && forall x :: x in s ==> x <= m
  {
    First(s, (x, y) => x > y)
  }
}
