/** Parent links between comments, without the rest of the row.

    A comment stores the id of the comment it answers (`Rid`, 0 for none). This module is the
    graph theory of that one column, for tables of any shape: chains may end at a row that does not
    exist any more, and may run into a cycle. `Walk` is the walk with a cycle guard that
    `FindCommentRootID` performs; `IsRootOf` says, without walking, which id it must find. */
module ParentLinks {

  /** comment id -> parent id. Ids are handed out from 1, so 0 is never a row. */
  type Links = m: map<nat, nat> | 0 !in m witness map[]

  /** A missing row reads as the zero struct, hence as a comment without a parent. */
  function Parent(l: Links, x: nat): nat {
    if x in l then l[x] else 0
  }

  /** The n-th ancestor of x; 0 once the chain has ended. */
  function Up(l: Links, x: nat, n: nat): nat
    decreases n
  {
    if n == 0 then x else Up(l, Parent(l, x), n - 1)
  }

  lemma {:induction false} UpAdd(l: Links, x: nat, m: nat, n: nat)
    ensures Up(l, x, m + n) == Up(l, Up(l, x, m), n)
    decreases m
  {
    if m > 0 {
      UpAdd(l, Parent(l, x), m - 1, n);
    }
  }

  lemma {:induction false} UpFromZero(l: Links, n: nat)
    ensures Up(l, 0, n) == 0
  {
    if n > 0 {
      UpFromZero(l, n - 1);
    }
  }

  /** A chain does not leave a set that is closed under parents. */
  lemma {:induction false} StaysIn(l: Links, S: set<nat>, x: nat, n: nat)
    requires x in S && forall y :: y in S ==> Parent(l, y) in S
    ensures Up(l, x, n) in S
    decreases n
  {
    if n > 0 {
      StaysIn(l, S, Parent(l, x), n - 1);
    }
  }

  // ---------------------------------------------------------------------------------------------
  // The root of a chain
  // ---------------------------------------------------------------------------------------------

  ghost predicate OnCycle(l: Links, x: nat) {
    x != 0 && exists n: nat :: n >= 1 && Up(l, x, n) == x
  }

  ghost predicate EndsChain(l: Links, r: nat) {
    r != 0 && Parent(l, r) == 0
  }

  /** r is n steps above x and is either the end of the chain, or the first id of it on a cycle. */
  ghost predicate RootAt(l: Links, x: nat, r: nat, n: nat) {
    && Up(l, x, n) == r
    && (EndsChain(l, r) || (OnCycle(l, r) && forall i: nat :: i < n ==> !OnCycle(l, Up(l, x, i))))
  }

  ghost predicate IsRootOf(l: Links, x: nat, r: nat) {
    exists n: nat :: RootAt(l, x, r, n)
  }

  function WalkFrom(l: Links, x: nat, visited: set<nat>): nat
    decreases l.Keys - visited
  {
    if x == 0 || x in visited || Parent(l, x) == 0 then x
    else WalkFrom(l, l[x], visited + {x})
  }

  function Walk(l: Links, x: nat): nat {
    WalkFrom(l, x, {})
  }

  /** A cycle never leads to the end of a chain. */
  lemma {:induction false} CycleHasNoEnd(l: Links, x: nat, p: nat, n: nat)
    requires x != 0 && p >= 1 && Up(l, x, p) == x
    ensures Up(l, x, n) != 0
    decreases n
  {
    if n < p {
      UpAdd(l, x, n, p - n);
      UpFromZero(l, p - n);
    } else {
      UpAdd(l, x, p, n - p);
      CycleHasNoEnd(l, x, p, n - p);
    }
  }

  lemma RootIsUnique(l: Links, x: nat, r: nat, n: nat, r': nat, n': nat)
    requires RootAt(l, x, r, n) && RootAt(l, x, r', n') && n <= n'
    ensures r == r'
  {
    if n < n' {
      assert Up(l, r', 1) == Up(l, Parent(l, r'), 0);
      UpAdd(l, x, n, n' - n);
      if EndsChain(l, r) {
        UpFromZero(l, n' - n - 1);
        assert false;
      } else {
        var p: nat :| p >= 1 && Up(l, r, p) == r;
        CycleHasNoEnd(l, r, p, n' - n + 1);
        UpAdd(l, r, n' - n, 1);
      }
    }
  }

  /** The ids before the first repetition are distinct, so a cycle cannot begin before it. */
  lemma {:induction false} NoEarlierCycle(l: Links, x: nat, n: nat, i: nat, j: nat, p: nat)
    requires forall a: nat, b: nat :: a < b < n ==> Up(l, x, a) != Up(l, x, b)
    requires j < i < n && Up(l, x, n) == Up(l, x, i)
    requires p >= 1 && Up(l, x, j + p) == Up(l, x, j)
    ensures false
    decreases p
  {
    if j + p >= n {
      var k := j + p - n;
      UpAdd(l, x, n, k);
      UpAdd(l, x, i, k);
      assert i + k == j + (i + p - n);
      NoEarlierCycle(l, x, n, i, j, i + p - n);
    }
  }

  lemma {:induction false} WalkFromFindsRoot(l: Links, x: nat, n: nat, visited: set<nat>)
    requires x != 0 && Up(l, x, n) != 0
    requires visited == set i: nat | i < n :: Up(l, x, i)
    requires forall a: nat, b: nat :: a < b < n ==> Up(l, x, a) != Up(l, x, b)
    ensures IsRootOf(l, x, WalkFrom(l, Up(l, x, n), visited))
    decreases l.Keys - visited
  {
    var y := Up(l, x, n);
    if y in visited {
      var i: nat :| i < n && Up(l, x, i) == y;
      UpAdd(l, x, i, n - i);
      assert OnCycle(l, y);
      forall j: nat | j < i
        ensures !OnCycle(l, Up(l, x, j))
      {
        if OnCycle(l, Up(l, x, j)) {
          var p: nat :| p >= 1 && Up(l, Up(l, x, j), p) == Up(l, x, j);
          UpAdd(l, x, j, p);
          NoEarlierCycle(l, x, n, i, j, p);
        }
      }
      assert RootAt(l, x, y, i);
    } else if Parent(l, y) == 0 {
      assert RootAt(l, x, y, n);
    } else {
      UpAdd(l, x, n, 1);
      assert Up(l, y, 1) == Parent(l, y);
      WalkFromFindsRoot(l, x, n + 1, visited + {y});
    }
  }

  /** The walk with its cycle guard finds the end of the chain, or the first id on its cycle, and
      nothing else answers to that description. */
  lemma WalkIsRoot(l: Links, x: nat, r: nat)
    requires x != 0
    ensures Walk(l, x) == r <==> IsRootOf(l, x, r)
    ensures Walk(l, x) != 0
  {
    WalkFromFindsRoot(l, x, 0, {});
    var w := Walk(l, x);
    var n: nat :| RootAt(l, x, w, n);
    if IsRootOf(l, x, r) {
      var m: nat :| RootAt(l, x, r, m);
      if n <= m {
        RootIsUnique(l, x, w, n, r, m);
      } else {
        RootIsUnique(l, x, r, m, w, n);
      }
    }
  }

  // ---------------------------------------------------------------------------------------------
  // Descent
  // ---------------------------------------------------------------------------------------------

  function Children(l: Links, p: nat): set<nat> {
    set x | x in l && l[x] == p
  }

  ghost predicate Below(l: Links, x: nat, p: nat) {
    x in l && exists n: nat :: n >= 1 && Up(l, x, n) == p
  }

  ghost function Descendants(l: Links, p: nat): set<nat> {
    set x | x in l && Below(l, x, p)
  }

  /** x is in S or has an ancestor in S. */
  ghost predicate Reaches(l: Links, x: nat, S: set<nat>) {
    exists n: nat :: Up(l, x, n) in S
  }

  /** The rows of S with everything below any id of S. */
  ghost function Closure(l: Links, S: set<nat>): set<nat> {
    set x | x in l && Reaches(l, x, S)
  }

  /** No row outside D answers a row inside D. */
  ghost predicate DescentClosed(l: Links, D: set<nat>) {
    forall x :: x in l && l[x] in D ==> x in D
  }

  lemma BelowStep(l: Links, x: nat, p: nat)
    requires x in l
    ensures Below(l, x, p) <==> l[x] == p || Below(l, l[x], p) || (l[x] !in l && p == 0)
  {
    assert Up(l, x, 1) == l[x] by { assert Up(l, l[x], 0) == l[x]; }
    if Below(l, x, p) {
      var n: nat :| n >= 1 && Up(l, x, n) == p;
      assert Up(l, x, n) == Up(l, l[x], n - 1);
      if n > 1 && l[x] !in l {
        UpFromZero(l, n - 2);
      }
    }
    if Below(l, l[x], p) {
      var n: nat :| n >= 1 && Up(l, l[x], n) == p;
      assert Up(l, x, n + 1) == p;
    }
    if l[x] !in l && p == 0 {
      assert Up(l, l[x], 1) == Up(l, 0, 0);
      assert Up(l, x, 2) == 0;
    }
  }

  lemma BelowTrans(l: Links, x: nat, y: nat, z: nat)
    requires Below(l, x, y) && Below(l, y, z)
    ensures Below(l, x, z)
  {
    var m: nat :| m >= 1 && Up(l, x, m) == y;
    var n: nat :| n >= 1 && Up(l, y, n) == z;
    UpAdd(l, x, m, n);
  }

  /** If p is not below itself then neither is any child of it, and the child's subtree is smaller. */
  lemma ChildIsSmaller(l: Links, p: nat, c: nat)
    requires p != 0 && !Below(l, p, p) && c in Children(l, p)
    ensures !Below(l, c, c)
    ensures Descendants(l, c) < Descendants(l, p)
  {
    BelowStep(l, c, p);
    assert Below(l, c, p);
    if Below(l, c, c) {
      BelowStep(l, c, c);
      if Below(l, p, c) {
        BelowTrans(l, p, c, p);
      }
      assert false;
    }
    forall x | x in Descendants(l, c)
      ensures x in Descendants(l, p)
    {
      BelowTrans(l, x, c, p);
    }
    assert c in Descendants(l, p) && c !in Descendants(l, c);
  }

  /** Subtrees of two children of p do not meet. */
  lemma SiblingsDisjoint(l: Links, p: nat, c: nat, d: nat, x: nat)
    requires p != 0 && !Below(l, p, p)
    requires c in Children(l, p) && d in Children(l, p)
    requires x == c || Below(l, x, c)
    requires x == d || Below(l, x, d)
    ensures c == d
  {
    var m: nat :| Up(l, x, m) == c by { if x == c { assert Up(l, x, 0) == c; } }
    var n: nat :| Up(l, x, n) == d by { if x == d { assert Up(l, x, 0) == d; } }
    if c != d {
      if m < n {
        MeetBelow(l, p, x, c, m, d, n);
      } else {
        MeetBelow(l, p, x, d, n, c, m);
      }
    }
  }

  lemma MeetBelow(l: Links, p: nat, x: nat, c: nat, m: nat, d: nat, n: nat)
    requires p != 0 && c in Children(l, p) && d in Children(l, p) && c != d
    requires Up(l, x, m) == c && Up(l, x, n) == d && m <= n
    ensures Below(l, p, p)
  {
    UpAdd(l, x, m, n - m);
    assert Up(l, c, n - m) == Up(l, p, n - m - 1);
    UpAdd(l, p, n - m - 1, 1);
    assert Up(l, d, 1) == Up(l, p, 0) == p;
    if p !in l {
      UpFromZero(l, n - m - 1);
      assert Up(l, p, n - m) == Up(l, 0, n - m - 1);
    }
  }

  // ---------------------------------------------------------------------------------------------
  // Removing rows
  // ---------------------------------------------------------------------------------------------

  /** Removing a descent-closed set changes no chain that starts outside of it. */
  lemma {:induction false} UpWithout(l: Links, D: set<nat>, x: nat, n: nat)
    requires DescentClosed(l, D) && x !in D && 0 !in D
    ensures Up(l - D, x, n) == Up(l, x, n) && Up(l, x, n) !in D
    decreases n
  {
    assert Parent(l - D, x) == Parent(l, x);
    if n > 0 {
      UpWithout(l, D, Parent(l, x), n - 1);
    }
  }

  lemma ClosureIsClosed(l: Links, S: set<nat>)
    ensures DescentClosed(l, Closure(l, S) + S)
    ensures S <= l.Keys ==> S <= Closure(l, S)
  {
    forall x | x in l && l[x] in Closure(l, S) + S
      ensures x in Closure(l, S)
    {
      if l[x] in S {
        assert Up(l, x, 1) == Up(l, l[x], 0) == l[x];
      } else {
        var n: nat :| Up(l, l[x], n) in S;
        assert Up(l, x, n + 1) == Up(l, l[x], n);
      }
    }
    forall x | x in S && x in l
      ensures x in Closure(l, S)
    {
      assert Up(l, x, 0) == x;
    }
  }

  /** Removing two subtrees one after the other removes the union of their subtrees. */
  lemma ClosureInSteps(l: Links, S: set<nat>, T: set<nat>)
    requires S <= l.Keys && T <= l.Keys
    ensures Closure(l, S) + Closure(l - Closure(l, S), T) == Closure(l, S + T)
  {
    var D := Closure(l, S);
    ClosureIsClosed(l, S);
    assert D + S == D;
    forall x | x in l
      ensures x in D || Reaches(l - D, x, T) <==> Reaches(l, x, S + T)
    {
      if x in D {
        var n: nat :| Up(l, x, n) in S;
        assert Up(l, x, n) in S + T;
      } else {
        forall n: nat
          ensures Up(l - D, x, n) == Up(l, x, n) && Up(l, x, n) !in D
        {
          UpWithout(l, D, x, n);
        }
      }
    }
  }

  /** Deleting a row first and everything below it afterwards removes its whole subtree, whatever
      the shape of the table: the row is gone before the descent starts, so no cycle is left. */
  lemma RowThenDescendants(l: Links, id: nat)
    requires id != 0
    ensures !Below(l - {id}, id, id)
    ensures {id} + Descendants(l - {id}, id) == {id} + Closure(l, {id})
  {
    var l' := l - {id};
    forall x | x in l && x != id
      ensures Below(l', x, id) <==> Reaches(l, x, {id})
    {
      if Below(l', x, id) {
        var n: nat :| n >= 1 && Up(l', x, n) == id;
        FirstHit(l', l, x, id, n);
      }
      if Reaches(l, x, {id}) {
        var n: nat :| Up(l, x, n) in {id};
        FirstHit(l, l', x, id, n);
      }
    }
  }

  /** Two tables that differ only in the row of id agree on whether a chain reaches id. */
  lemma {:induction false} FirstHit(l: Links, l': Links, x: nat, id: nat, n: nat)
    requires id != 0 && x != id && Up(l, x, n) == id
    requires l' - {id} == l - {id}
    ensures exists m: nat :: m >= 1 && Up(l', x, m) == id
    decreases n
  {
    assert Parent(l', x) == Parent(l, x) by {
      if x in l { assert x in l - {id}; }
      if x in l' { assert x in l' - {id}; }
    }
    if Parent(l, x) == id {
      assert Up(l', x, 1) == Up(l', id, 0);
    } else {
      FirstHit(l, l', Parent(l, x), id, n - 1);
      var m: nat :| m >= 1 && Up(l', Parent(l, x), m) == id;
      assert Up(l', x, m + 1) == id;
    }
  }

  lemma {:induction false} Laps(l: Links, p: nat, n: nat, k: nat)
    requires Up(l, p, n) == p
    ensures Up(l, p, n * k) == p
    decreases k
  {
    if k > 0 {
      assert n * k == n + n * (k - 1);
      UpAdd(l, p, n, n * (k - 1));
      Laps(l, p, n, k - 1);
    }
  }

  /** From an id below itself the depth-first descent never ends: it can be followed to any depth. */
  lemma CyclicDescentIsUnbounded(l: Links, p: nat, depth: nat) returns (path: seq<nat>)
    requires p != 0 && Below(l, p, p)
    ensures |path| == depth + 1 && path[0] == p
    ensures forall i :: 0 <= i < depth ==> path[i + 1] in Children(l, path[i])
  {
    var n: nat :| n >= 1 && Up(l, p, n) == p;
    Laps(l, p, n, depth);
    var laps := n * depth;
    assert laps >= depth;
    path := seq(depth + 1, i requires 0 <= i <= depth => Up(l, p, laps - i));
    forall i | 0 <= i < depth
      ensures path[i + 1] in Children(l, path[i])
    {
      var c := Up(l, p, laps - i - 1);
      UpAdd(l, p, laps - i - 1, 1);
      assert Up(l, c, 1) == Up(l, Parent(l, c), 0) == Parent(l, c);
      CycleHasNoEnd(l, p, n, laps - i);
    }
  }
}
