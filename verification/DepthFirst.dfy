/** What a depth-first listing of the answers below a comment is. */
module DepthFirst {
  import opened ParentLinks

  function Elems(s: seq<nat>): set<nat> {
    set x | x in s
  }

  predicate NoDup(s: seq<nat>) {
    forall i, j :: 0 <= i < j < |s| ==> s[i] != s[j]
  }

  /** c with everything below it, for every c of cs. */
  ghost predicate InSubtrees(l: Links, cs: set<nat>, x: nat) {
    exists c :: c in cs && (x == c || Below(l, x, c))
  }

  /** Every listed id answers p or an id listed before it. */
  ghost predicate ParentsFirst(l: Links, p: nat, s: seq<nat>) {
    forall i :: 0 <= i < |s| ==> s[i] in l && (l[s[i]] == p || l[s[i]] in s[..i])
  }

  /** Subtrees are contiguous: what stands between an id and something below it is below it too. */
  ghost predicate Contiguous(l: Links, s: seq<nat>) {
    forall i, k, m :: 0 <= i < k < m < |s| && Below(l, s[m], s[i]) ==> Below(l, s[k], s[i])
  }

  /** s lists the subtrees of the children cs of p, depth first and without duplicates. */
  ghost predicate Lists(l: Links, p: nat, cs: set<nat>, s: seq<nat>) {
    && NoDup(s)
    && (forall x :: x in s <==> InSubtrees(l, cs, x))
    && ParentsFirst(l, p, s)
    && Contiguous(l, s)
  }

  ghost predicate IsDepthFirst(l: Links, p: nat, s: seq<nat>) {
    Lists(l, p, Children(l, p), s)
  }

  /** A depth-first listing below p holds each descendant of p exactly once. */
  lemma DepthFirstIsDescendants(l: Links, p: nat, s: seq<nat>)
    requires p != 0 && IsDepthFirst(l, p, s)
    ensures NoDup(s) && Elems(s) == Descendants(l, p)
  {
    forall x
      ensures x in s <==> x in Descendants(l, p)
    {
      if x in s {
        var c :| c in Children(l, p) && (x == c || Below(l, x, c));
        BelowStep(l, c, p);
        if x != c { BelowTrans(l, x, c, p); }
      }
      if Below(l, x, p) {
        var n: nat :| n >= 1 && Up(l, x, n) == p;
        var c := Up(l, x, n - 1);
        UpAdd(l, x, n - 1, 1);
        assert Up(l, c, 1) == Up(l, Parent(l, c), 0) == Parent(l, c);
        assert c in Children(l, p);
        assert x == c || Below(l, x, c);
      }
    }
  }

  /** What is listed for another child is not below anything listed before. */
  lemma NotBelowEarlier(l: Links, p: nat, cs: set<nat>, x: nat, c: nat, y: nat)
    requires p != 0 && !Below(l, p, p) && cs <= Children(l, p) && c in Children(l, p) - cs
    requires InSubtrees(l, cs, x) && (y == c || Below(l, y, c))
    ensures !Below(l, y, x)
  {
    var d :| d in cs && (x == d || Below(l, x, d));
    if Below(l, y, x) {
      if x != d { BelowTrans(l, y, x, d); }
      SiblingsDisjoint(l, p, c, d, y);
    }
  }

  ghost predicate InBetween(l: Links, s: seq<nat>, i: nat, k: nat, m: nat) {
    i < k < m < |s| && Below(l, s[m], s[i]) ==> Below(l, s[k], s[i])
  }

  lemma ContiguousByTriples(l: Links, s: seq<nat>)
    requires forall i: nat, k: nat, m: nat :: InBetween(l, s, i, k, m)
    ensures Contiguous(l, s)
  {
    forall i, k, m | 0 <= i < k < m < |s| && Below(l, s[m], s[i])
      ensures Below(l, s[k], s[i])
    {
      assert InBetween(l, s, i, k, m);
    }
  }

  lemma NextSubtreeContiguous(l: Links, p: nat, cs: set<nat>, s: seq<nat>, c: nat, sub: seq<nat>)
    requires p != 0 && !Below(l, p, p) && cs <= Children(l, p) && c in Children(l, p) - cs
    requires Lists(l, p, cs, s) && Lists(l, c, Children(l, c), sub)
    requires forall x :: x in sub ==> Below(l, x, c)
    ensures Contiguous(l, s + [c] + sub)
  {
    var t := s + [c] + sub;
    forall i: nat, k: nat, m: nat
      ensures InBetween(l, t, i, k, m)
    {
      if i < k < m < |t| {
        if i < |s| <= m {
          assert t[i] == s[i] && t[i] in s && (t[m] == c || t[m] in sub);
          NotBelowEarlier(l, p, cs, t[i], c, t[m]);
        } else if i < |s| {
          assert t[i] == s[i] && t[k] == s[k] && t[m] == s[m];
        } else if i == |s| {
          assert t[k] in sub;
        } else {
          assert t[i] == sub[i - |s| - 1] && t[k] == sub[k - |s| - 1] && t[m] == sub[m - |s| - 1];
        }
      }
    }
    ContiguousByTriples(l, t);
  }

  lemma NextSubtreeDisjoint(l: Links, p: nat, cs: set<nat>, s: seq<nat>, c: nat, sub: seq<nat>)
    requires p != 0 && !Below(l, p, p) && cs <= Children(l, p) && c in Children(l, p) - cs
    requires NoDup(s) && NoDup(sub)
    requires forall x :: x in s ==> InSubtrees(l, cs, x)
    requires forall x :: x in sub ==> Below(l, x, c)
    requires !Below(l, c, c)
    ensures NoDup(s + [c] + sub)
  {
    forall x | x in s
      ensures x != c && x !in sub
    {
      var d :| d in cs && (x == d || Below(l, x, d));
      if x == c || x in sub { SiblingsDisjoint(l, p, c, d, x); }
    }
    var t := s + [c] + sub;
    forall i, j | 0 <= i < j < |t|
      ensures t[i] != t[j]
    {
      assert i < |s| ==> t[i] in s;
      assert j > |s| ==> t[j] in sub;
    }
  }

  lemma NextSubtreeParentsFirst(l: Links, p: nat, s: seq<nat>, c: nat, sub: seq<nat>)
    requires c in Children(l, p) && ParentsFirst(l, p, s) && ParentsFirst(l, c, sub)
    ensures ParentsFirst(l, p, s + [c] + sub)
  {
    var t := s + [c] + sub;
    forall i | 0 <= i < |t|
      ensures t[i] in l && (l[t[i]] == p || l[t[i]] in t[..i])
    {
      if i < |s| {
        assert t[i] == s[i] && t[..i] == s[..i];
      } else if i > |s| {
        var k := i - |s| - 1;
        assert t[i] == sub[k] && t[..i] == s + [c] + sub[..k];
      }
    }
  }

  /** Listing one more child and then what is below it keeps the listing depth first. */
  lemma NextSubtree(l: Links, p: nat, cs: set<nat>, s: seq<nat>, c: nat, sub: seq<nat>)
    requires p != 0 && !Below(l, p, p) && cs <= Children(l, p) && c in Children(l, p) - cs
    requires Lists(l, p, cs, s) && IsDepthFirst(l, c, sub) && c != 0
    ensures Lists(l, p, cs + {c}, s + [c] + sub)
  {
    ChildIsSmaller(l, p, c);
    DepthFirstIsDescendants(l, c, sub);
    forall x
      ensures x in sub <==> Below(l, x, c)
    {
      assert x in sub <==> x in Elems(sub);
    }
    NextSubtreeContiguous(l, p, cs, s, c, sub);
    NextSubtreeDisjoint(l, p, cs, s, c, sub);
    NextSubtreeParentsFirst(l, p, s, c, sub);
    forall x
      ensures x in s + [c] + sub <==> InSubtrees(l, cs + {c}, x)
    {
      assert InSubtrees(l, cs + {c}, x) <==> InSubtrees(l, cs, x) || x == c || Below(l, x, c);
    }
  }
}
