/** The first row of a query: the one with the least id. */
module Least {
  predicate IsLeast(rows: set<nat>, m: nat) {
    m in rows && forall r :: r in rows ==> m <= r
  }

  function First(rows: set<nat>): nat
    requires rows != {}
  {
    assert exists m: nat :: IsLeast(rows, m) by { var _ := LeastOf(rows); }
    var m: nat :| IsLeast(rows, m);
    m
  }

  lemma LeastOf(rows: set<nat>) returns (m: nat)
    requires rows != {}
    ensures IsLeast(rows, m)
  {
    m :| m in rows;
    var below := set r | r in rows && r < m;
    if below != {} {
      assert m in rows - below;
      m := LeastOf(below);
    }
    assert forall r :: r in rows && r < m ==> r in below;
  }
}
