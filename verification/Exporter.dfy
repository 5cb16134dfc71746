/** Exporting comments, and importing what was exported.

    Ids are written in decimal. The exporter looks up the user, the page and the site of each comment
    and remembers what it found; pages are remembered by key alone, so a comment gets the page that was
    looked up for the first comment with that key. */
module Exporter {
  import opened Least
  import opened Text
  import opened Entity
  import opened PageCache
  import opened GenIds
  import opened Importer

  function KeyOf(page: Lookup): string {
    if page.Found? then page.page.key else ""
  }

  /** The site that a query by name finds; an empty name matches any. */
  function SiteNameOf(sites: map<nat, string>, name: string): string {
    var ids := set id | id in sites && (name == "" || sites[id] == name);
    if ids == {} then "" else sites[First(ids)]
  }

  /** A comment as it was read from its table. */
  datatype Saved = Saved(id: nat, row: Comment)

  /** All sites, unless some are named. */
  predicate InScope(c: Comment, scope: seq<string>) {
    scope == [] || c.siteName in scope
  }

  ghost predicate Distinct(found: seq<Saved>) {
    forall i: nat, j: nat :: i < j < |found| ==> found[i].id != found[j].id
  }

  ghost predicate IsListed(found: seq<Saved>, x: nat) {
    exists i: nat :: i < |found| && found[i].id == x
  }

  predicate IsRead(comments: CommentTable, scope: seq<string>, s: Saved) {
    s.id in comments && comments[s.id] == s.row && InScope(s.row, scope)
  }

  /** The comments of the named sites, each once, in some order. */
  ghost predicate IsReading(comments: CommentTable, scope: seq<string>, found: seq<Saved>) {
    && Distinct(found)
    && (forall i: nat :: i < |found| ==> IsRead(comments, scope, found[i]))
    && (forall x :: x in comments && InScope(comments[x], scope) ==> IsListed(found, x))
  }

  /** If no site is named all comments are read, otherwise those of the named sites; each as it is stored. */
  lemma ReadsNamedSites(comments: CommentTable, scope: seq<string>, found: seq<Saved>)
    requires IsReading(comments, scope, found)
    ensures forall x :: IsListed(found, x) <==> x in comments && (scope == [] || comments[x].siteName in scope)
    ensures forall i: nat :: i < |found| ==> found[i].id in comments && found[i].row == comments[found[i].id]
    ensures |found| <= |comments.Keys| && (scope == [] ==> |found| == |comments.Keys|)
  {
    forall x
      ensures IsListed(found, x) <==> x in comments && (scope == [] || comments[x].siteName in scope)
    {
      if i: nat :| i < |found| && found[i].id == x {
        assert IsRead(comments, scope, found[i]);
      }
    }
    assert forall i: nat :: i < |found| ==> IsRead(comments, scope, found[i]);
    DistinctIds(found);
    assert IdsOf(found) <= comments.Keys;
    SubsetIsSmaller(IdsOf(found), comments.Keys);
    if scope == [] {
      forall x | x in comments
        ensures x in IdsOf(found)
      {
        assert IsListed(found, x);
      }
      assert IdsOf(found) == comments.Keys;
    }
  }

  ghost function IdsOf(found: seq<Saved>): set<nat> {
    set i | 0 <= i < |found| :: found[i].id
  }

  lemma {:induction false} DistinctIds(found: seq<Saved>)
    requires Distinct(found)
    ensures |IdsOf(found)| == |found|
    decreases |found|
  {
    if found != [] {
      var n := |found| - 1;
      DistinctIds(found[..n]);
      assert IdsOf(found) == IdsOf(found[..n]) + {found[n].id};
      assert found[n].id !in IdsOf(found[..n]);
    }
  }

  lemma SubsetIsSmaller(a: set<nat>, b: set<nat>)
    requires a <= b
    ensures |a| <= |b|
  {
    assert b == a + (b - a);
  }

  method ReadComments(comments: CommentTable, scope: seq<string>) returns (found: seq<Saved>)
    ensures IsReading(comments, scope, found)
    ensures forall x :: IsListed(found, x) <==> x in comments && (scope == [] || comments[x].siteName in scope)
  {
    found := [];
    var rest := set x | x in comments && InScope(comments[x], scope);
    while rest != {}
      invariant Distinct(found)
      invariant forall i: nat :: i < |found| ==> IsRead(comments, scope, found[i]) && found[i].id !in rest
      invariant forall x :: x in rest ==> x in comments && InScope(comments[x], scope)
      invariant forall x :: x in comments && InScope(comments[x], scope) ==> x in rest || IsListed(found, x)
      decreases rest
    {
      var id :| id in rest;
      ListedSnoc(found, Saved(id, comments[id]));
      found := found + [Saved(id, comments[id])];
      rest := rest - {id};
    }
    ReadsNamedSites(comments, scope, found);
  }

  lemma ListedSnoc(found: seq<Saved>, s: Saved)
    ensures forall x :: IsListed(found + [s], x) <==> IsListed(found, x) || x == s.id
  {
    forall x
      ensures IsListed(found + [s], x) <==> IsListed(found, x) || x == s.id
    {
      assert (found + [s])[|found|] == s;
      if i: nat :| i < |found| && found[i].id == x {
        assert (found + [s])[i].id == x;
      }
    }
  }

  function RowOf(s: Saved, user: User, pageKey: string, siteName: string): Artran {
    var c := s.row;
    Artran(Decimal(s.id), Decimal(c.rid), c.content, c.ua, c.ip,
           BoolString(c.isCollapsed), BoolString(c.isPending), BoolString(c.isPinned), IntString(c.voteUp),
           IntString(c.voteDown),
           c.createdAt, c.updatedAt, user.name, user.email, pageKey, siteName)
  }

  predicate HasKey(s: Saved, key: string) {
    s.row.pageKey == key
  }

  /** j is the first of the comments that is on a page with this key. */
  ghost predicate IsFirstOnKey(found: seq<Saved>, key: string, j: nat) {
    j < |found| && HasKey(found[j], key) && forall h: nat :: h < j ==> !HasKey(found[h], key)
  }

  /** The page looked up for the first comment with this key. */
  ghost predicate IsPageOfKey(pages: map<nat, Page>, found: seq<Saved>, key: string, page: Lookup) {
    exists j: nat :: IsFirstOnKey(found, key, j) && page == ByKey(pages, key, found[j].row.siteName)
  }

  ghost predicate IsExportOf(db: Tables, siteRows: map<nat, string>, found: seq<Saved>, s: Saved, row: Artran) {
    exists page :: IsPageOfKey(db.pages, found, s.row.pageKey, page) &&
      row == RowOf(s, UserOf(db.users, s.row.userId), KeyOf(page), SiteNameOf(siteRows, s.row.siteName))
  }

  /** The first n comments exported. */
  ghost predicate IsExportSoFar(db: Tables, siteRows: map<nat, string>, found: seq<Saved>, rows: seq<Artran>, n: nat) {
    && |rows| == n <= |found|
    && forall i: nat {:trigger IsExportOf(db, siteRows, found, found[i], rows[i])} ::
         i < n ==> IsExportOf(db, siteRows, found, found[i], rows[i])
  }

  ghost predicate IsExport(db: Tables, siteRows: map<nat, string>, found: seq<Saved>, rows: seq<Artran>) {
    IsExportSoFar(db, siteRows, found, rows, |found|)
  }

  lemma OneMoreExported(db: Tables, siteRows: map<nat, string>, found: seq<Saved>, rows: seq<Artran>, row: Artran)
    requires |rows| < |found| && IsExportSoFar(db, siteRows, found, rows, |rows|)
    requires IsExportOf(db, siteRows, found, found[|rows|], row)
    ensures IsExportSoFar(db, siteRows, found, rows + [row], |rows| + 1)
  {
    forall i: nat | i < |rows| + 1
      ensures IsExportOf(db, siteRows, found, found[i], (rows + [row])[i])
    {
      assert i < |rows| ==> IsExportOf(db, siteRows, found, found[i], rows[i]);
    }
  }

  ghost predicate SeenKey(found: seq<Saved>, i: nat, key: string) {
    i <= |found| && exists h: nat :: h < i && HasKey(found[h], key)
  }

  lemma SeenOneMore(found: seq<Saved>, i: nat, key: string)
    requires i < |found|
    ensures SeenKey(found, i + 1, key) <==> SeenKey(found, i, key) || HasKey(found[i], key)
  {
  }

  lemma FirstPageOfKey(pages: map<nat, Page>, found: seq<Saved>, i: nat)
    requires i < |found| && !SeenKey(found, i, found[i].row.pageKey)
    ensures var c := found[i].row;
            IsPageOfKey(pages, found, c.pageKey, ByKey(pages, c.pageKey, c.siteName))
  {
    assert IsFirstOnKey(found, found[i].row.pageKey, i);
  }

  /** What the exporter remembers of its look-ups. */
  class ExportCache {
    var users: map<nat, User>
    var pages: map<string, Lookup>
    var sites: map<string, string>

    constructor ()
      ensures users == map[] && pages == map[] && sites == map[]
    {
      users, pages, sites := map[], map[], map[];
    }

    /** Right after the first i comments. */
    ghost predicate Valid(db: Tables, siteRows: map<nat, string>, found: seq<Saved>, i: nat)
      reads this
    {
      && i <= |found|
      && (forall u :: u in users ==> users[u] == UserOf(db.users, u))
      && (forall s :: s in sites ==> sites[s] == SiteNameOf(siteRows, s))
      && PagesValid(db.pages, found, i)
    }

    ghost predicate PagesValid(pageRows: map<nat, Page>, found: seq<Saved>, i: nat)
      reads this`pages
    {
      forall key ::
        && (key in pages <==> SeenKey(found, i, key))
        && (key in pages ==> IsPageOfKey(pageRows, found, key, pages[key]))
    }

    method FindPage(pageRows: map<nat, Page>, s: Saved, ghost found: seq<Saved>, ghost i: nat) returns (page: Lookup)
      requires PagesValid(pageRows, found, i) && i < |found| && found[i] == s
      modifies this`pages
      ensures PagesValid(pageRows, found, i + 1) && IsPageOfKey(pageRows, found, s.row.pageKey, page)
    {
      var c := s.row;
      if c.pageKey !in pages {
        FirstPageOfKey(pageRows, found, i);
        pages := pages[c.pageKey := ByKey(pageRows, c.pageKey, c.siteName)];
      }
      page := pages[c.pageKey];
      forall key
        ensures SeenKey(found, i + 1, key) <==> SeenKey(found, i, key) || c.pageKey == key
      {
        SeenOneMore(found, i, key);
      }
    }

    /** One comment as a row. */
    method CommentToArtran(db: Tables, siteRows: map<nat, string>, s: Saved, ghost found: seq<Saved>, ghost i: nat)
      returns (row: Artran)
      requires Valid(db, siteRows, found, i) && i < |found| && found[i] == s
      modifies this
      ensures Valid(db, siteRows, found, i + 1)
      ensures IsExportOf(db, siteRows, found, s, row)
    {
      var c := s.row;
      if c.userId !in users {
        users := users[c.userId := UserOf(db.users, c.userId)];
      }
      var page := FindPage(db.pages, s, found, i);
      if c.siteName !in sites {
        sites := sites[c.siteName := SiteNameOf(siteRows, c.siteName)];
      }
      row := RowOf(s, users[c.userId], KeyOf(page), sites[c.siteName]);
    }
  }

  /** Exports the comments of the named sites, in the order in which they were read. */
  method ExportArtrans(db: Tables, siteRows: map<nat, string>, scope: seq<string>)
    returns (rows: seq<Artran>, ghost found: seq<Saved>)
    ensures IsReading(db.comments, scope, found)
    ensures IsExport(db, siteRows, found, rows)
  {
    var read := ReadComments(db.comments, scope);
    found := read;
    rows := [];
    var cache := new ExportCache();
    for i := 0 to |read|
      invariant cache.Valid(db, siteRows, found, i)
      invariant IsExportSoFar(db, siteRows, found, rows, i)
    {
      var row := cache.CommentToArtran(db, siteRows, read[i], found, i);
      OneMoreExported(db, siteRows, found, rows, row);
      rows := rows + [row];
    }
  }
}
