/** Export followed by import: the comments come back under new ids, as the same threads. */
module RoundTrip {
  import opened ParentLinks
  import opened Text
  import opened Entity
  import opened CommentForest
  import opened VoteLedger
  import opened Least
  import opened PageCache
  import opened PageRename
  import opened GenIds
  import opened Importer
  import opened ImportedThreads
  import opened Exporter

  // ---------------------------------------------------------------------------------------------
  // Old ids and positions
  // ---------------------------------------------------------------------------------------------

  /** The position of comment x in an export, counted from 1; 0 if it is not exported. */
  function Place(found: seq<Saved>, x: nat): (g: nat)
    ensures g <= |found| && (g != 0 ==> found[g - 1].id == x)
  {
    if found == [] then 0
    else if found[|found| - 1].id == x then |found|
    else Place(found[..|found| - 1], x)
  }

  lemma {:induction false} PlaceFinds(found: seq<Saved>, i: nat)
    requires i < |found|
    ensures Place(found, found[i].id) > i
    decreases |found|
  {
    var n := |found| - 1;
    if found[n].id != found[i].id {
      assert found[..n][i] == found[i];
      PlaceFinds(found[..n], i);
    }
  }

  lemma PlaceOf(found: seq<Saved>, i: nat)
    requires Distinct(found) && i < |found|
    ensures Place(found, found[i].id) == i + 1
  {
    PlaceFinds(found, i);
  }

  ghost predicate IsRow(l: Links, s: Saved) {
    s.id in l && l[s.id] == s.row.rid
  }

  /** The exported comments are rows of the table with these links. */
  ghost predicate AreRows(l: Links, found: seq<Saved>) {
    forall i: nat :: i < |found| ==> IsRow(l, found[i])
  }

  predicate IsNamed(row: Artran, s: Saved) {
    row.id == Decimal(s.id) && row.rid == Decimal(s.row.rid)
  }

  ghost predicate AreNamed(rows: seq<Artran>, found: seq<Saved>) {
    |rows| == |found| && forall i: nat :: i < |found| ==> IsNamed(rows[i], found[i])
  }

  lemma {:induction false} GenIdIsPlace(rows: seq<Artran>, found: seq<Saved>, x: nat)
    requires AreNamed(rows, found)
    ensures GenId(rows, Decimal(x)) == Place(found, x)
    decreases |rows|
  {
    if rows != [] {
      var n := |rows| - 1;
      assert IsNamed(rows[n], found[n]);
      DecimalInjective(x, found[n].id);
      assert forall i: nat :: i < n ==>
               rows[..n][i] == rows[i] && found[..n][i] == found[i] && IsNamed(rows[i], found[i]);
      GenIdIsPlace(rows[..n], found[..n], x);
    }
  }

  lemma BlankDecimal(n: nat)
    ensures Blank(Decimal(n)) <==> n == 0
  {
    DecimalInjective(n, 0);
  }

  // ---------------------------------------------------------------------------------------------
  // Chains
  // ---------------------------------------------------------------------------------------------

  /** The links of the exported comments alone. */
  function Within(l: Links, found: seq<Saved>): Links {
    map x | x in l && Place(found, x) != 0 :: l[x]
  }

  lemma PlaceOfParent(rows: seq<Artran>, l: Links, found: seq<Saved>, x: nat)
    requires AreNamed(rows, found) && AreRows(l, found) && Place(found, x) != 0
    ensures x in l
    ensures GenId(rows, rows[Place(found, x) - 1].rid) == Place(found, l[x])
    ensures Blank(rows[Place(found, x) - 1].rid) <==> l[x] == 0
  {
    var g := Place(found, x);
    assert IsNamed(rows[g - 1], found[g - 1]) && IsRow(l, found[g - 1]);
    GenIdIsPlace(rows, found, l[x]);
    BlankDecimal(l[x]);
  }

  /** One step up among positions is one step up among ids. */
  ghost predicate StepAgrees(gl: Links, w: Links, found: seq<Saved>, x: nat) {
    Parent(gl, Place(found, x)) == Place(found, Parent(w, x))
  }

  lemma StepUp(rows: seq<Artran>, l: Links, found: seq<Saved>, x: nat)
    requires AreNamed(rows, found) && AreRows(l, found) && Place(found, x) != 0
    ensures StepAgrees(GenLinks(rows), Within(l, found), found, x)
  {
    WithinIsExported(l, found, x);
    GenLinksStep(rows, Place(found, x));
    PlaceOfParent(rows, l, found, x);
  }

  lemma NoStepUp(gl: Links, l: Links, found: seq<Saved>, x: nat)
    requires AreRows(l, found) && Place(found, x) == 0
    ensures StepAgrees(gl, Within(l, found), found, x)
  {
    WithinIsExported(l, found, x);
    NoPlaceForZero(l, found);
  }

  lemma WithinIsExported(l: Links, found: seq<Saved>, x: nat)
    requires AreRows(l, found)
    ensures Parent(Within(l, found), x) == if Place(found, x) == 0 then 0 else Parent(l, x)
  {
    var g := Place(found, x);
    assert g != 0 ==> IsRow(l, found[g - 1]);
  }

  lemma NoPlaceForZero(l: Links, found: seq<Saved>)
    requires AreRows(l, found)
    ensures Place(found, 0) == 0
  {
    var g := Place(found, 0);
    assert g != 0 ==> IsRow(l, found[g - 1]);
  }

  lemma {:induction false} UpAgrees(gl: Links, w: Links, found: seq<Saved>, x: nat, n: nat)
    requires forall y: nat :: StepAgrees(gl, w, found, y)
    ensures Up(gl, Place(found, x), n) == Place(found, Up(w, x, n))
    decreases n
  {
    if n > 0 {
      assert StepAgrees(gl, w, found, x);
      UpAgrees(gl, w, found, Parent(w, x), n - 1);
    }
  }

  lemma UpOfExport(rows: seq<Artran>, l: Links, found: seq<Saved>, x: nat, n: nat)
    requires AreNamed(rows, found) && AreRows(l, found)
    ensures Up(GenLinks(rows), Place(found, x), n) == Place(found, Up(Within(l, found), x, n))
  {
    forall y: nat
      ensures StepAgrees(GenLinks(rows), Within(l, found), found, y)
    {
      if Place(found, y) == 0 {
        NoStepUp(GenLinks(rows), l, found, y);
      } else {
        StepUp(rows, l, found, y);
      }
    }
    UpAgrees(GenLinks(rows), Within(l, found), found, x, n);
  }

  lemma {:induction false} UpWithin(l: Links, found: seq<Saved>, x: nat, n: nat)
    requires Up(Within(l, found), x, n) != 0
    ensures Up(l, x, n) == Up(Within(l, found), x, n)
    decreases n
  {
    if n > 0 {
      if x !in Within(l, found) { UpFromZero(Within(l, found), n - 1); }
      UpWithin(l, found, Parent(Within(l, found), x), n - 1);
    }
  }

  /** Positions visited on one climb, ids visited on the other. */
  ghost predicate SameVisited(found: seq<Saved>, visited: set<nat>, visited': set<nat>) {
    forall v: nat :: Place(found, v) != 0 ==> (v in visited' <==> Place(found, v) in visited)
  }

  lemma VisitOneMore(found: seq<Saved>, visited: set<nat>, visited': set<nat>, x: nat)
    requires SameVisited(found, visited, visited') && Place(found, x) != 0
    ensures SameVisited(found, visited + {Place(found, x)}, visited' + {x})
  {
  }

  /** The importer climbs the exported comments as FindCommentRootID would climb them, had the others
      never existed; an end outside of the export becomes 0. */
  lemma {:induction false} ClimbOfExport(rows: seq<Artran>, l: Links, found: seq<Saved>, x: nat, visited: set<nat>,
                                         visited': set<nat>)
    requires AreNamed(rows, found) && AreRows(l, found)
    requires SameVisited(found, visited, visited')
    ensures GenWalkFrom(rows, Place(found, x), visited) == Place(found, WalkFrom(Within(l, found), x, visited'))
    decreases Positions(|rows|) - visited
  {
    var g := Place(found, x);
    WithinIsExported(l, found, x);
    NoPlaceForZero(l, found);
    if g != 0 {
      PlaceOfParent(rows, l, found, x);
      assert IsPosition(g, |rows|);
      if g !in visited && l[x] != 0 {
        VisitOneMore(found, visited, visited', x);
        ClimbOfExport(rows, l, found, l[x], visited + {g}, visited' + {x});
      }
    }
  }

  ghost predicate IsExportedAt(l: Links, found: seq<Saved>, x: nat, n: nat) {
    Up(l, x, n) != 0 ==> Place(found, Up(l, x, n)) != 0
  }

  /** From x up to the root of its thread, every comment is exported. */
  ghost predicate ChainExported(l: Links, found: seq<Saved>, x: nat) {
    forall n: nat :: IsExportedAt(l, found, x, n)
  }

  lemma ChainExportedStep(l: Links, found: seq<Saved>, x: nat)
    requires x != 0
    ensures ChainExported(l, found, x) <==> Place(found, x) != 0 && ChainExported(l, found, Parent(l, x))
    ensures ChainExported(l, found, 0)
  {
    forall n: nat
      ensures Up(l, 0, n) == 0 && Up(l, x, n + 1) == Up(l, Parent(l, x), n)
      ensures IsExportedAt(l, found, x, n + 1) <==> IsExportedAt(l, found, Parent(l, x), n)
      ensures IsExportedAt(l, found, 0, n)
    {
      UpFromZero(l, n);
    }
    assert IsExportedAt(l, found, x, 0) <==> Place(found, x) != 0;
    if ChainExported(l, found, Parent(l, x)) && Place(found, x) != 0 {
      forall n: nat
        ensures IsExportedAt(l, found, x, n)
      {
        if n > 0 { assert IsExportedAt(l, found, Parent(l, x), n - 1); }
      }
    }
    if ChainExported(l, found, x) {
      forall n: nat
        ensures IsExportedAt(l, found, Parent(l, x), n)
      {
        assert IsExportedAt(l, found, x, n + 1);
      }
    }
  }

  /** In a forest, the climb through the exported comments finds the root if the whole chain is
      exported, and ends outside of the export otherwise. */
  lemma {:induction false} WalkWithin(l: Links, found: seq<Saved>, x: nat, visited: set<nat>)
    requires IsForest(l) && x in l && forall n: nat :: Up(l, x, n) !in visited
    ensures ChainExported(l, found, x) ==> WalkFrom(Within(l, found), x, visited) == WalkFrom(l, x, visited)
    ensures !ChainExported(l, found, x) ==> Place(found, WalkFrom(Within(l, found), x, visited)) == 0
    decreases l.Keys - visited
  {
    assert Up(l, x, 0) == x;
    ChainExportedStep(l, found, x);
    if Place(found, x) != 0 && l[x] != 0 {
      assert !Below(l, x, x);
      forall n: nat
        ensures Up(l, l[x], n) !in visited + {x}
      {
        assert Up(l, x, n + 1) == Up(l, l[x], n);
      }
      WalkWithin(l, found, l[x], visited + {x});
    }
  }

  // ---------------------------------------------------------------------------------------------
  // Rows
  // ---------------------------------------------------------------------------------------------

  lemma ExportIsNamed(db: Tables, siteRows: map<nat, string>, found: seq<Saved>, rows: seq<Artran>)
    requires IsExport(db, siteRows, found, rows)
    ensures AreNamed(rows, found)
  {
    assert forall i: nat :: i < |found| ==> IsExportOf(db, siteRows, found, found[i], rows[i]);
  }

  /** Where comment x of an export is stored, from id base on; 0 for one that was not exported. */
  function Image(found: seq<Saved>, base: nat, x: nat): nat {
    DbId(base, |found|, Place(found, x))
  }

  /** The text, flags, dates and counters of a comment. */
  ghost predicate SameContent(c: Comment, c': Comment) {
    && c'.content == c.content && c'.ua == c.ua && c'.ip == c.ip
    && c'.isCollapsed == c.isCollapsed && c'.isPending == c.isPending && c'.isPinned == c.isPinned
    && (IsInt64(c.voteUp) ==> c'.voteUp == c.voteUp) && (IsInt64(c.voteDown) ==> c'.voteDown == c.voteDown)
    && c'.createdAt == c.createdAt && (c.updatedAt != "" ==> c'.updatedAt == c.updatedAt)
  }

  lemma ContentSurvives(db: Tables, siteRows: map<nat, string>, found: seq<Saved>, s: Saved, row: Artran, p: Params,
                        c': Comment)
    requires IsExportOf(db, siteRows, found, s, row) && IsCopied(p, row, c')
    ensures SameContent(s.row, c')
  {
    if IsInt64(s.row.voteUp) { AtoiOfIntString(s.row.voteUp); }
    if IsInt64(s.row.voteDown) { AtoiOfIntString(s.row.voteDown); }
  }

  /** What the i-th exported comment is stored as: its content, an answer to what its parent was stored
      as (none, if that was not exported), filed under what its root among the exported comments was
      stored as. */
  ghost predicate Returns(l: Links, found: seq<Saved>, base: nat, i: nat, c: Comment)
    requires i < |found|
  {
    && SameContent(found[i].row, c)
    && c.rid == Image(found, base, found[i].row.rid)
    && c.rootId == Image(found, base, Walk(Within(l, found), found[i].row.rid))
  }

  lemma ThreadReturns(l: Links, found: seq<Saved>, rows: seq<Artran>, base: nat, i: nat, c: Comment)
    requires AreNamed(rows, found) && AreRows(l, found) && i < |found| && IsThreaded(rows, base, i, c)
    ensures c.rid == Image(found, base, found[i].row.rid)
    ensures c.rootId == Image(found, base, Walk(Within(l, found), found[i].row.rid))
  {
    assert IsNamed(rows[i], found[i]);
    GenIdIsPlace(rows, found, found[i].row.rid);
    ClimbOfExport(rows, l, found, found[i].row.rid, {}, {});
  }

  /** The i-th exported comment is back, under the i-th id from base on. */
  ghost predicate IsBack(l: Links, found: seq<Saved>, base: nat, i: nat, t: CommentTable)
    requires i < |found|
  {
    && Image(found, base, found[i].id) == base + i
    && base + i in t && Returns(l, found, base, i, t[base + i])
  }

  /** Its author, page and site are those of the exported row. */
  ghost predicate IsFromRow(users: map<nat, User>, p: Params, s: Saved, row: Artran, c: Comment) {
    var user := UserOf(users, s.row.userId);
    && c.userId == p.accountOf(user.name, user.email)
    && c.pageKey == p.resolve(TrimSpace(row.pageKey)) && c.siteName == SiteOf(p, row)
  }

  ghost predicate IsFromRowAt(users: map<nat, User>, p: Params, found: seq<Saved>, rows: seq<Artran>, base: nat, i: nat,
                              t: CommentTable)
    requires i < |found| == |rows|
  {
    base + i in t && IsFromRow(users, p, found[i], rows[i], t[base + i])
  }

  ghost predicate AllFromRows(users: map<nat, User>, p: Params, found: seq<Saved>, rows: seq<Artran>, base: nat,
                              t: CommentTable) {
    |found| == |rows| && forall i: nat :: i < |found| ==> IsFromRowAt(users, p, found, rows, base, i, t)
  }

  lemma StoredRowsAreFrom(db: Tables, siteRows: map<nat, string>, found: seq<Saved>, rows: seq<Artran>, t: CommentTable,
                          p: Params, base: Id)
    requires IsExport(db, siteRows, found, rows) && AllStored(p, rows, base, t)
    ensures AllFromRows(db.users, p, found, rows, base, t)
  {
    forall i: nat | i < |found|
      ensures IsFromRowAt(db.users, p, found, rows, base, i, t)
    {
      assert IsStored(p, rows, base, i, t) && IsExportOf(db, siteRows, found, found[i], rows[i]);
    }
  }

  ghost predicate AllBack(l: Links, found: seq<Saved>, base: nat, t: CommentTable) {
    forall i: nat :: i < |found| ==> IsBack(l, found, base, i, t)
  }

  /** Export and import give every comment back. */
  lemma EveryCommentReturns(db: Tables, siteRows: map<nat, string>, found: seq<Saved>, rows: seq<Artran>, db2: Tables,
                            p: Params)
    requires IsExport(db, siteRows, found, rows) && AreRows(LinksOf(db.comments), found) && Distinct(found)
    requires NoneSkipped(p, rows)
    ensures AllBack(LinksOf(db.comments), found, db2.nextComment, AfterImport(db2, p, rows).comments)
    ensures AllFromRows(db.users, p, found, rows, db2.nextComment, AfterImport(db2, p, rows).comments)
  {
    EveryRowIsStored(db2, p, rows);
    StoredRowsAreFrom(db, siteRows, found, rows, AfterImport(db2, p, rows).comments, p, db2.nextComment);
    StoredRowsReturn(db, siteRows, found, rows, AfterImport(db2, p, rows).comments, p, db2.nextComment);
  }

  lemma StoredRowsReturn(db: Tables, siteRows: map<nat, string>, found: seq<Saved>, rows: seq<Artran>, t: CommentTable,
                         p: Params, base: Id)
    requires IsExport(db, siteRows, found, rows) && AreRows(LinksOf(db.comments), found) && Distinct(found)
    requires AllStored(p, rows, base, t)
    ensures AllBack(LinksOf(db.comments), found, base, t)
  {
    forall i: nat | i < |found|
      ensures IsBack(LinksOf(db.comments), found, base, i, t)
    {
      assert IsStored(p, rows, base, i, t);
      StoredReturns(db, siteRows, found, rows, p, base, i, t[base + i]);
      PlaceOf(found, i);
    }
  }

  lemma StoredReturns(db: Tables, siteRows: map<nat, string>, found: seq<Saved>, rows: seq<Artran>, p: Params,
                      base: nat, i: nat, c: Comment)
    requires IsExport(db, siteRows, found, rows) && AreRows(LinksOf(db.comments), found) && i < |found|
    requires IsThreaded(rows, base, i, c) && IsCopied(p, rows[i], c)
    ensures Returns(LinksOf(db.comments), found, base, i, c)
  {
    ExportIsNamed(db, siteRows, found, rows);
    assert IsExportOf(db, siteRows, found, found[i], rows[i]);
    ContentSurvives(db, siteRows, found, found[i], rows[i], p, c);
    ThreadReturns(LinksOf(db.comments), found, rows, base, i, c);
  }

  /** In a valid table the root column comes back as the image of the old one if and only if the old
      root was not exported, or all comments between were. */
  lemma RootReturns(comments: CommentTable, found: seq<Saved>, base: Id, i: nat, c: Comment)
    requires ValidForest(comments) && AreRows(LinksOf(comments), found) && i < |found|
    requires found[i].row == comments[found[i].id] && Returns(LinksOf(comments), found, base, i, c)
    ensures c.rootId == Image(found, base, found[i].row.rootId) <==>
            Place(found, found[i].row.rootId) == 0 || ChainExported(LinksOf(comments), found, found[i].row.rid)
  {
    var l, rid := LinksOf(comments), found[i].row.rid;
    assert IsRow(l, found[i]);
    assert found[i].row.rootId == Walk(l, rid);
    NoPlaceForZero(l, found);
    if rid == 0 {
      assert Walk(l, 0) == 0;
    } else {
      WalkWithin(l, found, rid, {});
    }
  }

  // ---------------------------------------------------------------------------------------------
  // No row is skipped, if pages and sites exist
  // ---------------------------------------------------------------------------------------------

  ghost predicate HasSite(siteRows: map<nat, string>, name: string) {
    exists id :: id in siteRows && siteRows[id] == name
  }

  /** The page and the site of a comment exist and are not blank. */
  ghost predicate IsComplete(db: Tables, siteRows: map<nat, string>, s: Saved) {
    && TrimSpace(s.row.pageKey) != "" && TrimSpace(s.row.siteName) != ""
    && HasPage(db.pages, s.row.pageKey, s.row.siteName) && HasSite(siteRows, s.row.siteName)
  }

  ghost predicate AllComplete(db: Tables, siteRows: map<nat, string>, found: seq<Saved>) {
    forall i: nat {:trigger IsComplete(db, siteRows, found[i])} :: i < |found| ==> IsComplete(db, siteRows, found[i])
  }

  lemma PageIsFound(pages: map<nat, Page>, key: string, site: string)
    requires HasPage(pages, key, site) && key != "" && site != ""
    ensures KeyOf(ByKey(pages, key, site)) == key
  {
    var ids := set id | id in pages && Matches(pages[id], key, site);
    var id :| id in pages && pages[id].key == key && pages[id].siteName == site;
    assert id in ids;
    assert First(ids) in ids;
  }

  /** A comment is exported with its page key if and only if the page exists on the site of the first
      exported comment with that key; otherwise the key is lost, and the import will skip the row. */
  lemma KeyIsExported(db: Tables, siteRows: map<nat, string>, found: seq<Saved>, i: nat, row: Artran, j: nat)
    requires i < |found| && IsExportOf(db, siteRows, found, found[i], row)
    requires IsFirstOnKey(found, found[i].row.pageKey, j)
    requires found[i].row.pageKey != "" && found[j].row.siteName != ""
    ensures row.pageKey ==
              if HasPage(db.pages, found[i].row.pageKey, found[j].row.siteName) then found[i].row.pageKey else ""
  {
    var key, site := found[i].row.pageKey, found[j].row.siteName;
    var page :| IsPageOfKey(db.pages, found, key, page)
      && row == RowOf(found[i], UserOf(db.users, found[i].row.userId), KeyOf(page),
                      SiteNameOf(siteRows, found[i].row.siteName));
    assert page == ByKey(db.pages, key, site);
    KeyOfLookup(db.pages, key, site);
  }

  lemma KeyOfLookup(pages: map<nat, Page>, key: string, site: string)
    requires key != "" && site != ""
    ensures KeyOf(ByKey(pages, key, site)) == if HasPage(pages, key, site) then key else ""
  {
    if HasPage(pages, key, site) {
      PageIsFound(pages, key, site);
    } else {
      assert forall id :: id in pages ==> !Matches(pages[id], key, site);
    }
  }

  lemma SiteIsFound(siteRows: map<nat, string>, name: string)
    requires HasSite(siteRows, name) && name != ""
    ensures SiteNameOf(siteRows, name) == name
  {
    var ids := set id | id in siteRows && (name == "" || siteRows[id] == name);
    var id :| id in siteRows && siteRows[id] == name;
    assert id in ids;
    assert First(ids) in ids;
  }

  /** Although pages are remembered by key alone, every comment is exported with its own page key and
      site name. */
  lemma OwnPageAndSite(db: Tables, siteRows: map<nat, string>, found: seq<Saved>, i: nat, row: Artran)
    requires AllComplete(db, siteRows, found) && i < |found| && IsExportOf(db, siteRows, found, found[i], row)
    ensures row.pageKey == found[i].row.pageKey && row.siteName == found[i].row.siteName
  {
    var key := found[i].row.pageKey;
    var page :| IsPageOfKey(db.pages, found, key, page)
      && row == RowOf(found[i], UserOf(db.users, found[i].row.userId), KeyOf(page),
                      SiteNameOf(siteRows, found[i].row.siteName));
    var j: nat :| IsFirstOnKey(found, key, j) && page == ByKey(db.pages, key, found[j].row.siteName);
    assert IsComplete(db, siteRows, found[i]) && IsComplete(db, siteRows, found[j]);
    PageIsFound(db.pages, key, found[j].row.siteName);
    SiteIsFound(siteRows, found[i].row.siteName);
  }

  lemma NoExportIsSkipped(db: Tables, siteRows: map<nat, string>, found: seq<Saved>, rows: seq<Artran>, p: Params)
    requires IsExport(db, siteRows, found, rows) && AllComplete(db, siteRows, found)
    requires p.targetSiteName == "" || TrimSpace(p.targetSiteName) != ""
    ensures NoneSkipped(p, rows)
  {
    forall i: nat | i < |rows|
      ensures !Skipped(p, rows[i])
    {
      assert IsExportOf(db, siteRows, found, found[i], rows[i]) && IsComplete(db, siteRows, found[i]);
      OwnPageAndSite(db, siteRows, found, i, rows[i]);
    }
  }

  // ---------------------------------------------------------------------------------------------
  // Whole threads
  // ---------------------------------------------------------------------------------------------

  /** Whatever an exported comment answers is exported too. */
  ghost predicate IsWhole(found: seq<Saved>) {
    forall i: nat :: i < |found| ==> found[i].row.rid == 0 || Place(found, found[i].row.rid) != 0
  }

  ghost predicate AreFrom(comments: CommentTable, found: seq<Saved>) {
    forall i: nat :: i < |found| ==> found[i].id in comments && comments[found[i].id] == found[i].row
  }

  lemma {:induction false} PlaceIsListed(found: seq<Saved>, x: nat)
    ensures Place(found, x) != 0 <==> IsListed(found, x)
  {
    if i: nat :| i < |found| && found[i].id == x {
      PlaceFinds(found, i);
    }
  }

  /** What was read for one or more sites is whole threads if and only if every answer on those sites
      answers a comment on them. */
  lemma SitesAreWhole(comments: CommentTable, scope: seq<string>, found: seq<Saved>)
    requires IsForest(LinksOf(comments)) && IsReading(comments, scope, found)
    ensures AreFrom(comments, found)
    ensures IsWhole(found) <==>
            scope == [] ||
            forall x :: x in comments && comments[x].siteName in scope && comments[x].rid != 0 ==>
              comments[x].rid in comments && comments[comments[x].rid].siteName in scope
  {
    forall i: nat | i < |found|
      ensures found[i].id in comments && comments[found[i].id] == found[i].row && InScope(found[i].row, scope)
    {
      assert IsRead(comments, scope, found[i]);
    }
    assert forall x :: x in comments ==> x in LinksOf(comments) && LinksOf(comments)[x] == comments[x].rid;
    forall y
      ensures Place(found, y) != 0 <==> y in comments && InScope(comments[y], scope)
    {
      PlaceIsListed(found, y);
    }
    if IsWhole(found) {
      forall x | x in comments && InScope(comments[x], scope) && comments[x].rid != 0
        ensures comments[x].rid in comments && InScope(comments[comments[x].rid], scope)
      {
        assert IsListed(found, x);
        var i: nat :| i < |found| && found[i].id == x;
        assert Place(found, found[i].row.rid) != 0;
      }
    }
  }

  /** A backup of all sites is whole threads. */
  lemma BackupIsWhole(comments: CommentTable, found: seq<Saved>)
    requires IsForest(LinksOf(comments)) && IsReading(comments, [], found)
    ensures AreFrom(comments, found) && IsWhole(found)
    ensures |found| == |comments.Keys| && forall x :: x in comments ==> IsListed(found, x)
  {
    ReadsNamedSites(comments, [], found);
    SitesAreWhole(comments, [], found);
    forall x | x in comments && comments[x].rid != 0
      ensures comments[x].rid in comments
    {
      assert x in LinksOf(comments) && LinksOf(comments)[x] == comments[x].rid;
    }
  }

  lemma ExportIsForest(rows: seq<Artran>, l: Links, found: seq<Saved>)
    requires AreNamed(rows, found) && AreRows(l, found) && Distinct(found) && IsForest(l)
    ensures IsForest(GenLinks(rows))
  {
    forall g | g in GenLinks(rows)
      ensures GenLinks(rows)[g] == 0 || GenLinks(rows)[g] in GenLinks(rows)
    {
      GenLinkStays(rows, g);
    }
    forall g | g in GenLinks(rows)
      ensures !Below(GenLinks(rows), g, g)
    {
      ExportedNotBelowItself(l, found, g);
      PositionNotBelowItself(rows, l, found, g, found[g - 1].id);
    }
  }

  lemma ExportedNotBelowItself(l: Links, found: seq<Saved>, g: nat)
    requires AreRows(l, found) && Distinct(found) && IsForest(l) && 0 < g <= |found|
    ensures Place(found, found[g - 1].id) == g && !Below(l, found[g - 1].id, found[g - 1].id)
    ensures found[g - 1].id in l
  {
    PlaceOf(found, g - 1);
    assert IsRow(l, found[g - 1]);
  }

  lemma PositionNotBelowItself(rows: seq<Artran>, l: Links, found: seq<Saved>, g: nat, x: nat)
    requires AreNamed(rows, found) && AreRows(l, found)
    requires g != 0 && Place(found, x) == g && x in l && !Below(l, x, x)
    ensures !Below(GenLinks(rows), g, g)
  {
    forall n: nat | n >= 1
      ensures Up(GenLinks(rows), g, n) != g
    {
      NotBackOnExport(rows, l, found, x, n);
    }
  }

  lemma NotBackOnExport(rows: seq<Artran>, l: Links, found: seq<Saved>, x: nat, n: nat)
    requires AreNamed(rows, found) && AreRows(l, found) && Place(found, x) != 0 && Up(l, x, n) != x
    ensures Up(GenLinks(rows), Place(found, x), n) != Place(found, x)
  {
    var u := Up(Within(l, found), x, n);
    UpOfExport(rows, l, found, x, n);
    NoPlaceForZero(l, found);
    if u != 0 {
      UpWithin(l, found, x, n);
    }
    PlacesDiffer(found, u, x);
  }

  lemma PlacesDiffer(found: seq<Saved>, u: nat, x: nat)
    requires u != x && Place(found, x) != 0
    ensures Place(found, u) != Place(found, x)
  {
  }

  lemma FromAreRows(comments: CommentTable, found: seq<Saved>)
    requires AreFrom(comments, found)
    ensures AreRows(LinksOf(comments), found)
  {
    assert forall i: nat :: i < |found| ==> found[i].id in comments && IsRow(LinksOf(comments), found[i]);
  }

  ghost predicate HasPageOfParent(found: seq<Saved>, i: nat)
    requires i < |found|
  {
    var g := Place(found, found[i].row.rid);
    g != 0 ==> found[g - 1].row.pageKey == found[i].row.pageKey
  }

  lemma SamePageKey(comments: CommentTable, found: seq<Saved>, i: nat)
    requires PageKept(comments) && AreFrom(comments, found) && i < |found|
    ensures HasPageOfParent(found, i)
  {
    var g := Place(found, found[i].row.rid);
    assert found[i].id in comments && (g != 0 ==> found[g - 1].id in comments);
  }

  /** Whole threads of a valid table, exported and imported into any other valid table, are threads
      there: the export brings a forest. */
  lemma WholeExportBringsForest(db: Tables, siteRows: map<nat, string>, found: seq<Saved>, rows: seq<Artran>, p: Params)
    requires IsExport(db, siteRows, found, rows) && AllComplete(db, siteRows, found)
    requires p.targetSiteName == "" || TrimSpace(p.targetSiteName) != ""
    requires ValidForest(db.comments) && AreFrom(db.comments, found) && Distinct(found) && IsWhole(found)
    ensures NoneSkipped(p, rows) && BringsForest(p, rows)
  {
    var l := LinksOf(db.comments);
    FromAreRows(db.comments, found);
    ExportIsNamed(db, siteRows, found, rows);
    NoExportIsSkipped(db, siteRows, found, rows, p);
    ExportIsForest(rows, l, found);
    IdsAndParents(rows, l, found);
    ClosedAnswersAreSound(rows);
    ExportKeepsKeys(db, siteRows, found, rows);
    forall i: nat | i < |rows|
      ensures PageAgrees(p, rows, i)
    {
      SamePageKey(db.comments, found, i);
      PageComesAlong(found, rows, p, i);
    }
  }

  lemma IdsAndParents(rows: seq<Artran>, l: Links, found: seq<Saved>)
    requires AreNamed(rows, found) && AreRows(l, found) && IsWhole(found)
    ensures BlanksMeanNone(rows) && RidsClosed(rows)
  {
    NoPlaceForZero(l, found);
    forall g: nat | 0 < g <= |rows|
      ensures IsClosed(rows, g) && MeansNone(rows, g)
    {
      assert IsNamed(rows[g - 1], found[g - 1]);
      BlankDecimal(found[g - 1].row.rid);
      GenIdIsPlace(rows, found, found[g - 1].row.rid);
    }
  }

  lemma PageComesAlong(found: seq<Saved>, rows: seq<Artran>, p: Params, i: nat)
    requires AreNamed(rows, found) && i < |rows| && HasPageOfParent(found, i)
    requires forall h: nat :: h < |rows| ==> KeepsKey(found, rows, h)
    ensures PageAgrees(p, rows, i)
  {
    var g := Place(found, found[i].row.rid);
    assert IsNamed(rows[i], found[i]) && KeepsKey(found, rows, i);
    GenIdIsPlace(rows, found, found[i].row.rid);
    if g != 0 {
      assert KeepsKey(found, rows, g - 1);
      SameKeySamePage(p, rows, i, g);
    }
  }

  lemma SameKeySamePage(p: Params, rows: seq<Artran>, i: nat, g: nat)
    requires i < |rows| && g == GenId(rows, rows[i].rid) && g != 0 && rows[g - 1].pageKey == rows[i].pageKey
    ensures PageAgrees(p, rows, i)
  {
  }

  ghost predicate KeepsKey(found: seq<Saved>, rows: seq<Artran>, h: nat)
    requires h < |found| == |rows|
  {
    rows[h].pageKey == found[h].row.pageKey
  }

  lemma ExportKeepsKeys(db: Tables, siteRows: map<nat, string>, found: seq<Saved>, rows: seq<Artran>)
    requires IsExport(db, siteRows, found, rows) && AllComplete(db, siteRows, found)
    ensures forall h: nat :: h < |rows| ==> KeepsKey(found, rows, h)
  {
    forall h: nat | h < |rows|
      ensures KeepsKey(found, rows, h)
    {
      assert IsExportOf(db, siteRows, found, found[h], rows[h]);
      OwnPageAndSite(db, siteRows, found, h, rows[h]);
    }
  }

  lemma {:induction false} WholeUp(l: Links, found: seq<Saved>, x: nat, n: nat)
    requires AreRows(l, found) && IsWhole(found) && (x == 0 || Place(found, x) != 0)
    ensures IsExportedAt(l, found, x, n)
    decreases n
  {
    if n > 0 {
      var g := Place(found, x);
      if g == 0 {
        UpFromZero(l, n);
      } else {
        assert IsRow(l, found[g - 1]);
        WholeUp(l, found, l[x], n - 1);
      }
    }
  }

  lemma WholeChain(l: Links, found: seq<Saved>, x: nat)
    requires AreRows(l, found) && IsWhole(found) && (x == 0 || Place(found, x) != 0)
    ensures ChainExported(l, found, x)
  {
    forall n: nat
      ensures IsExportedAt(l, found, x, n)
    {
      WholeUp(l, found, x, n);
    }
  }

  /** A comment is where it was (as page keys are resolved, and unless all go to another site), and belongs to
      the account of its author. */
  ghost predicate AtHome(users: map<nat, User>, p: Params, c: Comment, c': Comment) {
    var user := UserOf(users, c.userId);
    && c'.userId == p.accountOf(user.name, user.email)
    && c'.pageKey == p.resolve(TrimSpace(c.pageKey))
    && c'.siteName == TrimSpace(if p.targetSiteName != "" then p.targetSiteName else c.siteName)
  }

  ghost predicate IsAtHome(users: map<nat, User>, p: Params, found: seq<Saved>, base: nat, i: nat, t: CommentTable)
    requires i < |found|
  {
    base + i in t && AtHome(users, p, found[i].row, t[base + i])
  }

  lemma AllAtHome(db: Tables, siteRows: map<nat, string>, found: seq<Saved>, rows: seq<Artran>, t: CommentTable,
                  p: Params, base: Id)
    requires IsExport(db, siteRows, found, rows) && AllComplete(db, siteRows, found)
    requires AllFromRows(db.users, p, found, rows, base, t)
    ensures forall i: nat :: i < |found| ==> IsAtHome(db.users, p, found, base, i, t)
  {
    forall i: nat | i < |found|
      ensures IsAtHome(db.users, p, found, base, i, t)
    {
      assert IsFromRowAt(db.users, p, found, rows, base, i, t) && IsExportOf(db, siteRows, found, found[i], rows[i]);
      OwnPageAndSite(db, siteRows, found, i, rows[i]);
    }
  }

  /** The i-th exported comment in the table after the import: new parent and new root are the images
      of the old ones. */
  ghost predicate SameThread(found: seq<Saved>, base: nat, i: nat, t: CommentTable)
    requires i < |found|
  {
    && base + i in t && base + i == Image(found, base, found[i].id)
    && SameContent(found[i].row, t[base + i])
    && t[base + i].rid == Image(found, base, found[i].row.rid)
    && t[base + i].rootId == Image(found, base, found[i].row.rootId)
  }

  lemma BackInSameThread(comments: CommentTable, found: seq<Saved>, base: Id, t: CommentTable, i: nat)
    requires ValidForest(comments) && AreFrom(comments, found) && IsWhole(found) && i < |found|
    requires IsBack(LinksOf(comments), found, base, i, t)
    ensures SameThread(found, base, i, t)
  {
    FromAreRows(comments, found);
    assert found[i].id in comments;
    WholeChain(LinksOf(comments), found, found[i].row.rid);
    RootReturns(comments, found, base, i, t[base + i]);
  }

  /** Whole threads of one valid database, exported and imported into another, are there with the same
      content, the same parents and the same roots, under new ids, and the other database stays valid. */
  lemma ThreadsReturn(db: Tables, siteRows: map<nat, string>, found: seq<Saved>, rows: seq<Artran>, db2: Tables,
                      p: Params)
    requires IsExport(db, siteRows, found, rows) && AllComplete(db, siteRows, found)
    requires p.targetSiteName == "" || TrimSpace(p.targetSiteName) != ""
    requires ValidForest(db.comments) && AreFrom(db.comments, found) && Distinct(found) && IsWhole(found)
    requires FreshIds(db2) && ValidForest(db2.comments)
    ensures ValidForest(AfterImport(db2, p, rows).comments)
    ensures forall i: nat :: i < |found| ==> SameThread(found, db2.nextComment, i, AfterImport(db2, p, rows).comments)
    ensures forall i: nat :: i < |found| ==>
              IsAtHome(db.users, p, found, db2.nextComment, i, AfterImport(db2, p, rows).comments)
  {
    WholeExportBringsForest(db, siteRows, found, rows, p);
    ImportKeepsForest(db2, p, rows);
    FromAreRows(db.comments, found);
    EveryCommentReturns(db, siteRows, found, rows, db2, p);
    AllInSameThread(db.comments, found, db2.nextComment, AfterImport(db2, p, rows).comments);
    AllAtHome(db, siteRows, found, rows, AfterImport(db2, p, rows).comments, p, db2.nextComment);
  }

  lemma AllInSameThread(comments: CommentTable, found: seq<Saved>, base: Id, t: CommentTable)
    requires ValidForest(comments) && AreFrom(comments, found) && IsWhole(found)
    requires AllBack(LinksOf(comments), found, base, t)
    ensures forall i: nat :: i < |found| ==> SameThread(found, base, i, t)
  {
    forall i: nat | i < |found|
      ensures SameThread(found, base, i, t)
    {
      assert IsBack(LinksOf(comments), found, base, i, t);
      BackInSameThread(comments, found, base, t, i);
    }
  }

  /** A counter comes back as exactly that many vote rows; a negative one as none. */
  lemma VotesReturn(db: Tables, siteRows: map<nat, string>, found: seq<Saved>, rows: seq<Artran>, db2: Tables,
                    p: Params, i: nat)
    requires IsExport(db, siteRows, found, rows) && NoneSkipped(p, rows) && FreshIds(db2) && NoOrphanVotes(db2)
    requires i < |found| && IsInt64(found[i].row.voteUp) && IsInt64(found[i].row.voteDown)
    ensures CountFor(AfterImport(db2, p, rows).votes, OnComment, db2.nextComment + i, ThumbUp) ==
              Positive(found[i].row.voteUp)
    ensures CountFor(AfterImport(db2, p, rows).votes, OnComment, db2.nextComment + i, ThumbDown) ==
              Positive(found[i].row.voteDown)
  {
    assert IsExportOf(db, siteRows, found, found[i], rows[i]);
    AtoiOfIntString(found[i].row.voteUp);
    AtoiOfIntString(found[i].row.voteDown);
    ImportedVotes(db2, p, rows, i);
  }

  /** Two comments on pages "k" of two sites, where only the second page exists: its key is lost, because the
      first comment was looked up first. */
  lemma KeyIsLost(db: Tables, siteRows: map<nat, string>, found: seq<Saved>, rows: seq<Artran>)
    requires IsExport(db, siteRows, found, rows) && |found| == 2
    requires found[0].row.pageKey == found[1].row.pageKey == "k" && found[0].row.siteName == "a"
    requires found[1].row.siteName == "b"
    requires !HasPage(db.pages, "k", "a") && HasPage(db.pages, "k", "b")
    ensures rows[1].pageKey == ""
  {
    assert IsExportOf(db, siteRows, found, found[1], rows[1]);
    assert IsFirstOnKey(found, "k", 0);
    KeyIsExported(db, siteRows, found, 1, rows[1], 0);
  }
}
