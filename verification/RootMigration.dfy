/** Filling the root column of a table that was created before the column existed.

    The migration first tries one recursive query, from the roots down; where the database cannot run
    it, it climbs from every comment instead. The two leave different columns: this module says
    exactly where they agree. A row that the query does not reach gets NULL. */
module RootMigration {
  import opened ParentLinks
  import opened Options

  /** The parent chain of x, x included, reaches an existing comment without a parent: that one. */
  ghost predicate ComesFrom(l: Links, x: nat, r: nat) {
    && x in l && r in l && l[r] == 0
    && exists n: nat :: Up(l, x, n) == r
  }

  /** The chain of x takes exactly n steps to the root r. */
  ghost predicate AtDepth(l: Links, x: nat, r: nat, n: nat) {
    && x in l && r in l && l[r] == 0 && Up(l, x, n) == r
  }

  lemma DepthIsUnique(l: Links, x: nat, r: nat, n: nat, r': nat, n': nat)
    requires AtDepth(l, x, r, n) && AtDepth(l, x, r', n')
    ensures r == r' && n == n'
  {
    if n < n' {
      UpAdd(l, x, n, n' - n);
      UpFromZero(l, n' - n - 1);
    } else if n' < n {
      UpAdd(l, x, n', n - n');
      UpFromZero(l, n - n' - 1);
    }
  }

  lemma DepthStep(l: Links, x: nat, r: nat, n: nat)
    requires x in l
    ensures AtDepth(l, x, r, n + 1) <==> AtDepth(l, l[x], r, n)
    ensures AtDepth(l, x, r, 0) <==> x == r && l[x] == 0
  {
    if Up(l, l[x], n) != 0 && l[x] !in l && n > 0 {
      UpFromZero(l, n - 1);
    }
  }

  ghost predicate Within(l: Links, x: nat, r: nat, n: nat) {
    exists d: nat :: d < n && AtDepth(l, x, r, d)
  }

  predicate Stores(column: map<nat, nat>, x: nat, r: nat) {
    x in column && column[x] == r
  }

  /** The rows of the recursive query whose root is less than n steps away, with that root. */
  ghost predicate ReachedWithin(l: Links, hierarchy: map<nat, nat>, n: nat) {
    forall x: nat, r: nat :: Stores(hierarchy, x, r) <==> Within(l, x, r, n)
  }

  ghost predicate IsLevel(l: Links, level: map<nat, nat>, n: nat) {
    forall x: nat, r: nat :: Stores(level, x, r) <==> AtDepth(l, x, r, n)
  }

  class Migration {
    const links: Links
    var rootColumn: map<nat, Option<nat>>

    constructor (links: Links)
      ensures this.links == links && rootColumn.Keys == links.Keys
      ensures forall x :: x in rootColumn ==> rootColumn[x] == None
    {
      this.links := links;
      rootColumn := map x | x in links :: None;
    }

    /** The recursive query: level by level, each row with the root of the row it answers. */
    method CommentHierarchy() returns (hierarchy: map<nat, nat>)
      ensures forall x: nat, r: nat :: Stores(hierarchy, x, r) <==> ComesFrom(links, x, r)
    {
      hierarchy := map[];
      var level := map x | x in links && links[x] == 0 :: x;
      ghost var n := 0;
      forall x: nat, r: nat
        ensures Stores(level, x, r) <==> AtDepth(links, x, r, 0)
      {
        if x in links { DepthStep(links, x, r, 0); }
      }
      while level != map[]
        invariant ReachedWithin(links, hierarchy, n)
        invariant IsLevel(links, level, n)
        decreases links.Keys - hierarchy.Keys
      {
        LevelIsNew(links, hierarchy, level, n);
        var next := map c | c in links && links[c] in level :: level[links[c]];
        NextLevel(links, level, next, n);
        LevelsAdd(links, hierarchy, level, n);
        ghost var some :| some in level;
        assert some in links.Keys - hierarchy.Keys;
        hierarchy := hierarchy + level;
        level := next;
        n := n + 1;
      }
      assert forall x: nat, r: nat :: !AtDepth(links, x, r, n) by {
        assert forall x: nat, r: nat :: !Stores(level, x, r);
      }
      forall x: nat, r: nat
        ensures Stores(hierarchy, x, r) <==> ComesFrom(links, x, r)
      {
        if ComesFrom(links, x, r) {
          var d: nat :| Up(links, x, d) == r;
          assert AtDepth(links, x, r, d);
          EmptyLevelEndsAll(links, x, r, d, n);
          assert Within(links, x, r, n);
        }
        if Within(links, x, r, n) {
          var d: nat :| d < n && AtDepth(links, x, r, d);
        }
      }
    }

    /** The recursive query and the update after it that puts 0 on the roots. */
    method MigrateTopDown()
      modifies this
      ensures rootColumn.Keys == links.Keys
      ensures forall x :: x in links ==> TopDownEntry(links, x, rootColumn[x])
    {
      var hierarchy := CommentHierarchy();
      rootColumn := map x | x in links :: if x in hierarchy then Some(hierarchy[x]) else None;
      rootColumn := map x | x in rootColumn :: if rootColumn[x] == Some(x) then Some(0) else rootColumn[x];
      forall x | x in links
        ensures TopDownEntry(links, x, rootColumn[x])
      {
        assert Up(links, x, 0) == x;
        assert Stores(hierarchy, x, x) <==> links[x] == 0;
        assert forall r: nat :: ComesFrom(links, x, r) ==> Stores(hierarchy, x, r);
        if x in hierarchy { assert Stores(hierarchy, x, hierarchy[x]); }
      }
    }

    /** The climb from every comment, one row after the other. */
    method MigrateBottomUp(order: seq<nat>)
      requires forall x :: x in order <==> x in links
      requires rootColumn.Keys == links.Keys
      modifies this
      ensures rootColumn.Keys == links.Keys
      ensures forall x :: x in links ==> rootColumn[x] == Some(Walk(links, x))
    {
      for i := 0 to |order|
        invariant rootColumn.Keys == links.Keys
        invariant forall x :: x in order[..i] ==> rootColumn[x] == Some(Walk(links, x))
      {
        assert order[..i + 1] == order[..i] + [order[i]];
        rootColumn := rootColumn[order[i] := Some(Walk(links, order[i]))];
      }
      assert order[..|order|] == order;
    }
  }

  lemma LevelIsNew(l: Links, hierarchy: map<nat, nat>, level: map<nat, nat>, n: nat)
    requires ReachedWithin(l, hierarchy, n) && IsLevel(l, level, n)
    ensures level.Keys <= l.Keys - hierarchy.Keys
  {
    forall x | x in level
      ensures x in l && x !in hierarchy
    {
      assert Stores(level, x, level[x]);
      if x in hierarchy {
        assert Stores(hierarchy, x, hierarchy[x]);
        var d: nat :| d < n && AtDepth(l, x, hierarchy[x], d);
        DepthIsUnique(l, x, level[x], n, hierarchy[x], d);
      }
    }
  }

  lemma NextLevel(l: Links, level: map<nat, nat>, next: map<nat, nat>, n: nat)
    requires IsLevel(l, level, n)
    requires next == map c | c in l && l[c] in level :: level[l[c]]
    ensures IsLevel(l, next, n + 1)
  {
    forall x: nat, r: nat
      ensures Stores(next, x, r) <==> AtDepth(l, x, r, n + 1)
    {
      if x in l {
        DepthStep(l, x, r, n);
        assert Stores(level, l[x], r) <==> AtDepth(l, l[x], r, n);
      }
    }
  }

  lemma LevelsAdd(l: Links, hierarchy: map<nat, nat>, level: map<nat, nat>, n: nat)
    requires ReachedWithin(l, hierarchy, n) && IsLevel(l, level, n)
    ensures ReachedWithin(l, hierarchy + level, n + 1)
  {
    LevelIsNew(l, hierarchy, level, n);
    forall x: nat, r: nat
      ensures Stores(hierarchy + level, x, r) <==> Within(l, x, r, n + 1)
    {
      assert Stores(hierarchy + level, x, r) <==> Stores(hierarchy, x, r) || Stores(level, x, r);
      if Within(l, x, r, n + 1) {
        var d: nat :| d < n + 1 && AtDepth(l, x, r, d);
        if d < n { assert Within(l, x, r, n); }
      }
    }
  }

  /** Once a level is empty no deeper one has rows. */
  lemma {:induction false} EmptyLevelEndsAll(l: Links, x: nat, r: nat, d: nat, n: nat)
    requires AtDepth(l, x, r, d)
    requires forall y: nat, s: nat :: !AtDepth(l, y, s, n)
    ensures d < n
    decreases d
  {
    if d > n {
      DepthStep(l, x, r, d - 1);
      EmptyLevelEndsAll(l, l[x], r, d - 1, n);
    }
  }

  /** What the top-down path stores: 0 on a root, the root on a row whose chain reaches one, NULL on
      every other row. */
  ghost predicate TopDownEntry(l: Links, x: nat, entry: Option<nat>)
    requires x in l
  {
    if l[x] == 0 then entry == Some(0)
    else match entry
      case Some(r) => ComesFrom(l, x, r)
      case None => forall r :: !ComesFrom(l, x, r)
  }

  /** On tables of any shape, the two paths store the same root for a comment if and only if it
      answers something and its chain reaches an existing root. On roots they differ (0 against the
      comment's own id), and on chains that dangle or run into a cycle only the climb stores an id. */
  lemma PathsAgree(l: Links, x: nat, entry: Option<nat>)
    requires x in l && TopDownEntry(l, x, entry)
    ensures entry == Some(Walk(l, x)) <==> l[x] != 0 && exists r :: ComesFrom(l, x, r)
    ensures l[x] == 0 ==> Walk(l, x) == x
  {
    WalkIsRoot(l, x, x);
    if l[x] == 0 {
      assert RootAt(l, x, x, 0);
    } else if entry.Some? {
      var r := entry.value;
      var n: nat :| Up(l, x, n) == r;
      assert RootAt(l, x, r, n);
      WalkIsRoot(l, x, r);
    }
  }

  /** For an answer, the climb that starts at the comment and the one the creation handler starts at
      its parent end at the same root, unless the comment is itself on a cycle. */
  lemma ClimbFromParent(l: Links, x: nat)
    requires x in l && l[x] != 0 && !OnCycle(l, x)
    ensures Walk(l, x) == Walk(l, l[x])
  {
    var r := Walk(l, l[x]);
    WalkIsRoot(l, l[x], r);
    var n: nat :| RootAt(l, l[x], r, n);
    assert Up(l, x, n + 1) == r;
    forall i: nat | OnCycle(l, r) && i < n + 1
      ensures EndsChain(l, r) || !OnCycle(l, Up(l, x, i))
    {
      if i > 0 { assert Up(l, x, i) == Up(l, l[x], i - 1); }
    }
    assert RootAt(l, x, r, n + 1);
    WalkIsRoot(l, x, r);
  }

  /** A root, an answer to a comment that is gone, and one that answers itself: none gets the same from both
      paths. */
  lemma PathsDisagree()
    ensures var l: Links := map[1 := 0, 2 := 9, 3 := 3];
            && (TopDownEntry(l, 1, Some(0)) && Walk(l, 1) == 1)
            && (TopDownEntry(l, 2, None) && Walk(l, 2) == 9)
            && (TopDownEntry(l, 3, None) && Walk(l, 3) == 3)
  {
    var l: Links := map[1 := 0, 2 := 9, 3 := 3];
    assert WalkFrom(l, 2, {}) == WalkFrom(l, 9, {2}) == 9;
    assert WalkFrom(l, 3, {}) == WalkFrom(l, 3, {3}) == 3;
    forall r
      ensures !ComesFrom(l, 2, r) && !ComesFrom(l, 3, r)
    {
      forall n: nat
        ensures Up(l, 2, n) in {2, 9, 0} && Up(l, 3, n) in {3}
      {
        StaysIn(l, {2, 9, 0}, 2, n);
        StaysIn(l, {3}, 3, n);
      }
    }
  }
}
