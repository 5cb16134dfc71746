/** What an import makes of threads and votes. */
module ImportedThreads {
  import opened ParentLinks
  import opened Text
  import opened Entity
  import opened CommentForest
  import opened VoteLedger
  import opened GenIds
  import opened Importer

  predicate NoneSkipped(p: Params, rows: seq<Artran>) {
    forall i {:trigger Skipped(p, rows[i])} :: 0 <= i < |rows| ==> !Skipped(p, rows[i])
  }

  lemma {:induction false} AllKept(p: Params, rows: seq<Artran>)
    requires NoneSkipped(p, rows)
    ensures |Kept(p, rows)| == |rows| && forall k :: 0 <= k < |rows| ==> Kept(p, rows)[k] == k
    decreases |rows|
  {
    if rows != [] {
      var before := rows[..|rows| - 1];
      assert forall i :: 0 <= i < |before| ==> before[i] == rows[i];
      AllKept(p, before);
    }
  }

  /** The parent and the root of the k-th stored row, as the numbering of the import has them. */
  ghost predicate IsThreaded(rows: seq<Artran>, base: nat, k: nat, c: Comment)
    requires k < |rows|
  {
    && c.rid == DbId(base, |rows|, GenId(rows, rows[k].rid))
    && c.rootId == DbId(base, |rows|, GenRoot(rows, rows[k].rid))
  }

  /** Everything else in the k-th stored row. */
  ghost predicate IsCopied(p: Params, row: Artran, c: Comment) {
    && c.pageKey == p.resolve(TrimSpace(row.pageKey))
    && c.siteName == SiteOf(p, row) && c.userId == p.accountOf(row.nick, row.email)
    && c.content == row.content && c.ua == row.ua && c.ip == row.ip
    && c.isCollapsed == IsTrue(row.isCollapsed) && c.isPending == IsTrue(row.isPending)
    && c.isPinned == IsTrue(row.isPinned)
    && c.voteUp == Atoi(row.voteUp) && c.voteDown == Atoi(row.voteDown)
    && c.createdAt == row.createdAt
    && c.updatedAt == if row.updatedAt != "" then row.updatedAt else row.createdAt
  }

  /** The k-th row of the import is in the table, under the k-th id from base on. */
  ghost predicate IsStored(p: Params, rows: seq<Artran>, base: nat, k: nat, t: CommentTable)
    requires k < |rows|
  {
    base + k in t && IsThreaded(rows, base, k, t[base + k]) && IsCopied(p, rows[k], t[base + k])
  }

  ghost predicate AllStored(p: Params, rows: seq<Artran>, base: nat, t: CommentTable) {
    forall k: nat :: k < |rows| ==> IsStored(p, rows, base, k, t)
  }

  lemma RelinkedIsStored(p: Params, rows: seq<Artran>, base: nat, k: nat)
    requires k < |rows| && !Skipped(p, rows[k])
    ensures var c := Relinked(p, rows, Prepared(p, rows, k), k, base, |rows|);
            IsThreaded(rows, base, k, c) && IsCopied(p, rows[k], c)
  {
  }

  lemma BatchRow(t: CommentTable, added: seq<Comment>, base: Id, id: nat)
    ensures base <= id < base + |added| ==>
              id in t + Batch(added, base) && (t + Batch(added, base))[id] == added[id - base]
    ensures !(base <= id < base + |added|) ==>
              (id in t + Batch(added, base) <==> id in t) && (id in t ==> (t + Batch(added, base))[id] == t[id])
  {
    assert InBatch(id, base, |added|) <==> base <= id < base + |added|;
  }

  /** If no row is skipped, every row is stored with its own data, answers the row that its parent was
      stored as, and nothing else is added. */
  lemma EveryRowIsStored(db: Tables, p: Params, rows: seq<Artran>)
    requires NoneSkipped(p, rows)
    ensures AllStored(p, rows, db.nextComment, AfterImport(db, p, rows).comments)
  {
    AllKept(p, rows);
    RowsLand(p, rows, db.nextComment, StoredRows(p, rows, db.nextComment), db.comments,
             AfterImport(db, p, rows).comments);
  }

  lemma NothingElseIsAdded(db: Tables, p: Params, rows: seq<Artran>)
    requires NoneSkipped(p, rows) && FreshIds(db)
    ensures IsLaidOver(db.comments, AfterImport(db, p, rows).comments, db.nextComment, |rows|)
  {
    AllKept(p, rows);
    RowsAreLaidOver(StoredRows(p, rows, db.nextComment), db.nextComment, db.comments);
  }

  lemma StoredUnskipped(p: Params, rows: seq<Artran>, base: Id, k: nat)
    requires k < |rows| == |Kept(p, rows)| && Kept(p, rows)[k] == k && !Skipped(p, rows[k])
    ensures var c := StoredRows(p, rows, base);
            |c| == |rows| && IsThreaded(rows, base, k, c[k]) && IsCopied(p, rows[k], c[k])
  {
    StoredAt(p, rows, base, |rows|, k);
    RelinkedIsStored(p, rows, base, k);
  }

  lemma RowLands(t: CommentTable, added: seq<Comment>, base: Id, k: nat, t': CommentTable)
    requires k < |added| && t' == t + Batch(added, base)
    ensures base + k in t' && t'[base + k] == added[k]
  {
    BatchRow(t, added, base, base + k);
  }

  lemma RowsLand(p: Params, rows: seq<Artran>, base: Id, added: seq<Comment>, t: CommentTable, t': CommentTable)
    requires NoneSkipped(p, rows) && |Kept(p, rows)| == |rows| && forall k :: 0 <= k < |rows| ==> Kept(p, rows)[k] == k
    requires added == StoredRows(p, rows, base) && t' == t + Batch(added, base)
    ensures AllStored(p, rows, base, t')
  {
    forall k: nat | k < |rows|
      ensures IsStored(p, rows, base, k, t')
    {
      assert Kept(p, rows)[k] == k && !Skipped(p, rows[k]);
      StoredUnskipped(p, rows, base, k);
      RowLands(t, added, base, k, t');
    }
  }

  lemma RowsAreLaidOver(added: seq<Comment>, base: Id, t: CommentTable)
    requires forall id :: id in t ==> id < base
    ensures IsLaidOver(t, t + Batch(added, base), base, |added|)
  {
    var t' := t + Batch(added, base);
    forall id | id in t' || id in t
      ensures !(base <= id < base + |added|) ==> id in t && id in t' && t'[id] == t[id]
    {
      BatchRow(t, added, base, id);
    }
  }

  /** t' is t with n rows from id base on. */
  ghost predicate IsLaidOver(t: CommentTable, t': CommentTable, base: nat, n: nat) {
    && (forall id :: id in t ==> id < base && id in t' && t'[id] == t[id])
    && (forall id :: id in t' ==> id in t || base <= id < base + n)
  }

  // ---------------------------------------------------------------------------------------------
  // Links and roots
  // ---------------------------------------------------------------------------------------------

  lemma LinksAreStored(p: Params, rows: seq<Artran>, t: CommentTable, base: nat)
    requires AllStored(p, rows, base, t)
    ensures StoredLinks(LinksOf(t), rows, base)
  {
    forall g: nat | 0 < g <= |rows|
      ensures LinkIsStored(LinksOf(t), rows, base, g)
    {
      assert IsStored(p, rows, base, g - 1, t);
    }
  }

  /** The root column of a row agrees with FindCommentRootID on its parent. */
  ghost predicate RootIsRight(t: CommentTable, id: nat) {
    id in t && t[id].rootId == Walk(LinksOf(t), t[id].rid)
  }

  lemma StoredRootIsRight(p: Params, rows: seq<Artran>, t: CommentTable, base: Id, k: nat)
    requires AllStored(p, rows, base, t) && BlanksMeanNone(rows) && k < |rows|
    ensures RootIsRight(t, base + k) <==> !LeavesImport(rows, rows[k].rid)
  {
    LinksAreStored(p, rows, t, base);
    assert IsStored(p, rows, base, k, t);
    StoredRootIsWalk(LinksOf(t), rows, base, rows[k].rid);
  }

  ghost predicate RootIsExact(rows: seq<Artran>, base: nat, k: nat, t: CommentTable)
    requires k < |rows|
  {
    RootIsRight(t, base + k) <==> !LeavesImport(rows, rows[k].rid)
  }

  /** If no row is skipped and no blank parent names a row, the root stored with a row is the root that
      FindCommentRootID finds from its stored parent if and only if the chain of its parent does not
      end at a row whose own parent is missing from the import. Cycles and duplicate ids do no harm. */
  lemma ImportedRootsAreExact(db: Tables, p: Params, rows: seq<Artran>)
    requires NoneSkipped(p, rows) && BlanksMeanNone(rows)
    ensures forall k: nat :: k < |rows| ==> RootIsExact(rows, db.nextComment, k, AfterImport(db, p, rows).comments)
  {
    EveryRowIsStored(db, p, rows);
    StoredRootsAreExact(p, rows, AfterImport(db, p, rows).comments, db.nextComment);
  }

  lemma StoredRootsAreExact(p: Params, rows: seq<Artran>, t: CommentTable, base: Id)
    requires AllStored(p, rows, base, t) && BlanksMeanNone(rows)
    ensures forall k: nat :: k < |rows| ==> RootIsExact(rows, base, k, t)
  {
    forall k: nat | k < |rows|
      ensures RootIsExact(rows, base, k, t)
    {
      StoredRootIsRight(p, rows, t, base, k);
    }
  }

  ghost predicate IsIndexed(t: CommentTable, base: nat, k: nat) {
    RootIsRight(t, base + k)
  }

  /** With closed parents every stored root is right. */
  lemma ClosedImportIsIndexed(db: Tables, p: Params, rows: seq<Artran>)
    requires NoneSkipped(p, rows) && BlanksMeanNone(rows) && RidsClosed(rows)
    ensures forall k: nat :: k < |rows| ==> IsIndexed(AfterImport(db, p, rows).comments, db.nextComment, k)
  {
    EveryRowIsStored(db, p, rows);
    ClosedRowsAreIndexed(p, rows, AfterImport(db, p, rows).comments, db.nextComment);
  }

  lemma ClosedRowsAreIndexed(p: Params, rows: seq<Artran>, t: CommentTable, base: Id)
    requires AllStored(p, rows, base, t) && BlanksMeanNone(rows) && RidsClosed(rows)
    ensures forall k: nat :: k < |rows| ==> IsIndexed(t, base, k)
  {
    forall k: nat | k < |rows|
      ensures IsIndexed(t, base, k)
    {
      ClosedChainStays(rows, rows[k].rid);
      StoredRootIsRight(p, rows, t, base, k);
    }
  }

  lemma StoredRootsAgree(p: Params, rows: seq<Artran>, t: CommentTable, base: Id)
    requires AllStored(p, rows, base, t)
    ensures forall k: nat :: k < |rows| ==> (IsIndexed(t, base, k) <==> RootAgrees(rows, k))
  {
    LinksAreStored(p, rows, t, base);
    forall k: nat | k < |rows|
      ensures IsIndexed(t, base, k) <==> RootAgrees(rows, k)
    {
      assert IsStored(p, rows, base, k, t);
      StoredRootAgrees(LinksOf(t), rows, base, rows[k].rid);
    }
  }

  ghost predicate AllIndexed(t: CommentTable, base: nat, n: nat) {
    forall k: nat :: k < n ==> IsIndexed(t, base, k)
  }

  /** For every file of which no row is skipped: all stored roots are right if and only if every row that is
      answered has its own parent in the file (or none), and no such row has a blank parent that another row
      is named after (but for two rows that name each other). */
  lemma ImportIsIndexed(db: Tables, p: Params, rows: seq<Artran>)
    requires NoneSkipped(p, rows)
    ensures AllIndexed(AfterImport(db, p, rows).comments, db.nextComment, |rows|) <==> AllAnswersSound(rows)
  {
    EveryRowIsStored(db, p, rows);
    RowsAreIndexed(p, rows, AfterImport(db, p, rows).comments, db.nextComment);
  }

  lemma RowsAreIndexed(p: Params, rows: seq<Artran>, t: CommentTable, base: Id)
    requires AllStored(p, rows, base, t)
    ensures AllIndexed(t, base, |rows|) <==> AllAnswersSound(rows)
  {
    StoredRootsAgree(p, rows, t, base);
    RootsAgree(rows);
    assert AllIndexed(t, base, |rows|) <==> AllRootsAgree(rows);
  }

  /** Closed parents, and no blank ones that name a row, make sound answers. */
  lemma ClosedAnswersAreSound(rows: seq<Artran>)
    requires BlanksMeanNone(rows) && RidsClosed(rows)
    ensures AllAnswersSound(rows)
  {
    forall k: nat | k < |rows|
      ensures AnswersSound(rows, k)
    {
      var g := GenId(rows, rows[k].rid);
      assert g != 0 ==> IsClosed(rows, g) && MeansNone(rows, g);
    }
  }

  lemma ClosedChainStays(rows: seq<Artran>, rid: string)
    requires BlanksMeanNone(rows) && RidsClosed(rows)
    ensures !LeavesImport(rows, rid)
  {
    GenWalkIsWalk(rows, GenId(rows, rid), {});
  }

  // ---------------------------------------------------------------------------------------------
  // Skipped rows
  // ---------------------------------------------------------------------------------------------

  lemma {:induction false} KeptAscends(p: Params, rows: seq<Artran>, k: nat)
    requires k < |Kept(p, rows)|
    ensures k <= Kept(p, rows)[k] < |rows|
    decreases |rows|
  {
    var before := rows[..|rows| - 1];
    KeptCountsUnskipped(p, before);
    if k < |Kept(p, before)| {
      KeptAscends(p, before, k);
    }
  }

  /** Positions of stored rows ascend; the k-th is k exactly if nothing up to it was skipped. */
  lemma {:induction false} KeptInPlace(p: Params, rows: seq<Artran>, k: nat)
    requires k < |Kept(p, rows)| <= |rows|
    ensures Kept(p, rows)[k] == k <==> NoneSkipped(p, rows[..k + 1])
    decreases |rows|
  {
    var before := rows[..|rows| - 1];
    KeptCountsUnskipped(p, before);
    if k < |Kept(p, before)| {
      KeptInPlace(p, before, k);
      assert before[..k + 1] == rows[..k + 1];
    } else {
      LastKept(p, rows, k);
    }
  }

  /** The case of the last row. */
  lemma LastKept(p: Params, rows: seq<Artran>, k: nat)
    requires rows != [] && k == |Kept(p, rows[..|rows| - 1])| && !Skipped(p, rows[|rows| - 1]) && k < |rows|
    ensures k == |rows| - 1 <==> NoneSkipped(p, rows[..k + 1])
  {
    var before := rows[..|rows| - 1];
    if k == |rows| - 1 {
      NoneBeforeSkipped(p, rows);
      assert rows[..k + 1] == rows;
    } else {
      TooFewKept(p, before, k + 1);
      assert before[..k + 1] == rows[..k + 1];
    }
  }

  lemma NoneBeforeSkipped(p: Params, rows: seq<Artran>)
    requires rows != [] && |Kept(p, rows[..|rows| - 1])| == |rows| - 1 && !Skipped(p, rows[|rows| - 1])
    ensures NoneSkipped(p, rows)
  {
    KeptCountsUnskipped(p, rows[..|rows| - 1]);
    NoneSkippedSnoc(p, rows);
  }

  lemma TooFewKept(p: Params, rows: seq<Artran>, m: nat)
    requires |Kept(p, rows)| < m <= |rows|
    ensures !NoneSkipped(p, rows[..m])
  {
    KeptGrows(p, rows, m);
    KeptCountsUnskipped(p, rows[..m]);
  }

  lemma NoneSkippedSnoc(p: Params, rows: seq<Artran>)
    requires rows != []
    ensures NoneSkipped(p, rows) <==> NoneSkipped(p, rows[..|rows| - 1]) && !Skipped(p, rows[|rows| - 1])
  {
    var before := rows[..|rows| - 1];
    assert forall i :: 0 <= i < |before| ==> before[i] == rows[i];
    if NoneSkipped(p, before) && !Skipped(p, rows[|rows| - 1]) {
      forall i | 0 <= i < |rows|
        ensures !Skipped(p, rows[i])
      {
        assert i < |before| ==> !Skipped(p, before[i]);
      }
    }
    if NoneSkipped(p, rows) {
      forall i | 0 <= i < |before|
        ensures !Skipped(p, before[i])
      {
        assert !Skipped(p, rows[i]);
      }
    }
  }

  lemma {:induction false} KeptGrows(p: Params, rows: seq<Artran>, m: nat)
    requires m <= |rows|
    ensures |Kept(p, rows[..m])| <= |Kept(p, rows)|
    decreases |rows|
  {
    if m < |rows| {
      var before := rows[..|rows| - 1];
      assert before[..m] == rows[..m];
      KeptGrows(p, before, m);
      assert |Kept(p, before)| <= |Kept(p, rows)|;
    } else {
      assert rows[..m] == rows;
    }
  }

  lemma {:induction false} KeptCountsUnskipped(p: Params, rows: seq<Artran>)
    ensures |Kept(p, rows)| <= |rows|
    ensures |Kept(p, rows)| == |rows| <==> NoneSkipped(p, rows)
    decreases |rows|
  {
    if rows != [] {
      KeptCountsUnskipped(p, rows[..|rows| - 1]);
      NoneSkippedSnoc(p, rows);
    }
  }

  /** GenIds count all rows, ids only the stored ones. So the parent link of a stored row names the row
      its parent was stored as (the j-th) if and only if no row was skipped up to that parent. */
  lemma SkippingShiftsParents(p: Params, rows: seq<Artran>, base: Id, k: nat, j: nat)
    requires k < |Kept(p, rows)| && j < |Kept(p, rows)| <= |rows|
    requires GenId(rows, rows[Kept(p, rows)[k]].rid) == Kept(p, rows)[j] + 1
    ensures Stored(p, rows, k, base).rid == base + j <==> NoneSkipped(p, rows[..j + 1])
  {
    KeptAscends(p, rows, j);
    KeptInPlace(p, rows, j);
  }

  /** A row is skipped exactly if its page key, or the site name that counts for it, is white space only. */
  lemma SkippedExactly(p: Params, row: Artran)
    ensures Skipped(p, row) <==>
            || AllSpace(row.pageKey)
            || (p.targetSiteName != "" && AllSpace(p.targetSiteName))
            || (p.targetSiteName == "" && AllSpace(row.siteName))
  {
    BlankIsAllSpace(row.pageKey);
    BlankIsAllSpace(p.targetSiteName);
    BlankIsAllSpace(row.siteName);
  }

  /** The k-th stored row has the content of its own row, but the dates of the k-th row of the file, and none
      if that was skipped. */
  lemma KeptRowIsCopied(p: Params, rows: seq<Artran>, k: nat, base: nat)
    requires k < |Kept(p, rows)|
    ensures |Kept(p, rows)| <= |rows|
    ensures var c, row := Stored(p, rows, k, base), rows[Kept(p, rows)[k]];
            && c.content == row.content && c.ua == row.ua && c.ip == row.ip
            && c.pageKey == p.resolve(TrimSpace(row.pageKey)) && c.userId == p.accountOf(row.nick, row.email)
            && c.siteName == TrimSpace(if p.targetSiteName != "" then p.targetSiteName else row.siteName)
            && c.voteUp == Atoi(row.voteUp) && c.voteDown == Atoi(row.voteDown)
            && (c.isPending <==> row.isPending in {"true", "1"})
            && (c.isCollapsed <==> row.isCollapsed in {"true", "1"})
            && (c.isPinned <==> row.isPinned in {"true", "1"})
    ensures var c := Stored(p, rows, k, base);
            && (Skipped(p, rows[k]) ==> c.createdAt == "" && c.updatedAt == "")
            && (!Skipped(p, rows[k]) ==>
                  && c.createdAt == rows[k].createdAt
                  && c.updatedAt == if rows[k].updatedAt == "" then rows[k].createdAt else rows[k].updatedAt)
  {
    KeptCountsUnskipped(p, rows);
  }

  /** After a skipped row the first comment that is stored has no dates. */
  lemma SkippedRowTakesDates(p: Params, r1: Artran, r2: Artran, base: Id)
    requires Skipped(p, r1) && !Skipped(p, r2)
    ensures |Kept(p, [r1, r2])| == 1 && Stored(p, [r1, r2], 0, base).content == r2.content
    ensures Stored(p, [r1, r2], 0, base).createdAt == ""
  {
    KeptOfTwo(p, r1, r2);
    KeptRowIsCopied(p, [r1, r2], 0, base);
  }

  // ---------------------------------------------------------------------------------------------
  // The forest after an import
  // ---------------------------------------------------------------------------------------------

  predicate PageAgrees(p: Params, rows: seq<Artran>, i: nat)
    requires i < |rows|
  {
    var g := GenId(rows, rows[i].rid);
    g != 0 ==> p.resolve(TrimSpace(rows[g - 1].pageKey)) == p.resolve(TrimSpace(rows[i].pageKey))
  }

  /** Imported answers are on the page of what they answer. */
  predicate PagesAgree(p: Params, rows: seq<Artran>) {
    forall i: nat :: i < |rows| ==> PageAgrees(p, rows, i)
  }

  /** An import that brings a forest. */
  ghost predicate BringsForest(p: Params, rows: seq<Artran>) {
    AllAnswersSound(rows) && PagesAgree(p, rows) && IsForest(GenLinks(rows))
  }

  /** The chain above an imported row runs through imported rows, as in the import. */
  lemma {:induction false} UpOfStored(l: Links, rows: seq<Artran>, base: nat, g: nat, n: nat)
    requires base > 0 && StoredLinks(l, rows, base) && g <= |rows|
    ensures Up(GenLinks(rows), g, n) <= |rows|
    ensures Up(l, DbId(base, |rows|, g), n) == DbId(base, |rows|, Up(GenLinks(rows), g, n))
    decreases n
  {
    if n > 0 {
      if g == 0 {
        UpFromZero(l, n);
        UpFromZero(GenLinks(rows), n);
      } else {
        assert g in Positions(|rows|) by { assert IsPosition(g, |rows|); }
        assert LinkIsStored(l, rows, base, g);
        UpOfStored(l, rows, base, GenId(rows, rows[g - 1].rid), n - 1);
      }
    }
  }

  ghost predicate RowIsValid(t: CommentTable, x: nat)
    requires x in t
  {
    var l := LinksOf(t);
    && (t[x].rid == 0 || t[x].rid in t)
    && !Below(l, x, x)
    && t[x].rootId == Walk(l, t[x].rid)
    && (t[x].rid in t ==> t[x].pageKey == t[t[x].rid].pageKey)
  }

  lemma RowsAreValid(t: CommentTable)
    requires forall x :: x in t ==> RowIsValid(t, x)
    ensures ValidForest(t)
  {
    assert forall x :: x in LinksOf(t) ==> RowIsValid(t, x);
  }

  /** A table over which rows of higher ids are laid. */
  ghost predicate Extends(l: Links, l': Links) {
    (forall y :: y in l ==> y in l' && l'[y] == l[y])
  }

  lemma {:induction false} ChainStays(l: Links, l': Links, y: nat, n: nat)
    requires Extends(l, l') && IsForest(l) && (y == 0 || y in l)
    ensures Up(l', y, n) == Up(l, y, n)
    decreases n
  {
    if n > 0 {
      ChainStays(l, l', Parent(l, y), n - 1);
    }
  }

  /** A forest keeps its shape and its roots in every table that extends it. */
  lemma ForestStays(l: Links, l': Links, x: nat)
    requires Extends(l, l') && IsForest(l) && x in l
    ensures !Below(l', x, x)
    ensures Walk(l', l[x]) == Walk(l, l[x])
  {
    forall y, n: nat | y == 0 || y in l
      ensures Up(l', y, n) == Up(l, y, n)
    {
      ChainStays(l, l', y, n);
    }
    assert !Below(l, x, x);
    if l[x] != 0 {
      var r := Walk(l, l[x]);
      WalkIsRoot(l, l[x], r);
      var n: nat :| RootAt(l, l[x], r, n);
      ForestChainEnds(l, l[x], r);
      assert RootAt(l', l[x], r, n);
      WalkIsRoot(l', l[x], r);
    }
  }

  lemma OldRowIsValid(t: CommentTable, t': CommentTable, x: nat)
    requires ValidForest(t) && x in t && forall id :: id in t ==> id in t' && t'[id] == t[id]
    ensures RowIsValid(t', x)
  {
    var l, l' := LinksOf(t), LinksOf(t');
    assert x in l && (l[x] == 0 || l[x] in l);
    ForestStays(l, l', x);
  }

  lemma NewRowIsValid(p: Params, rows: seq<Artran>, t: CommentTable, base: Id, k: nat)
    requires BringsForest(p, rows) && AllStored(p, rows, base, t) && k < |rows|
    ensures base + k in t && RowIsValid(t, base + k)
  {
    PositionIsFree(rows, k);
    NewRowNotBelowItself(p, rows, t, base, k);
    NewRowIsIndexed(p, rows, t, base, k);
    NewRowIsLinked(p, rows, t, base, k);
  }

  lemma PositionIsFree(rows: seq<Artran>, k: nat)
    requires IsForest(GenLinks(rows)) && k < |rows|
    ensures !Below(GenLinks(rows), k + 1, k + 1)
  {
    assert IsPosition(k + 1, |rows|) && k + 1 in GenLinks(rows);
  }

  lemma NewRowIsIndexed(p: Params, rows: seq<Artran>, t: CommentTable, base: Id, k: nat)
    requires AllAnswersSound(rows) && AllStored(p, rows, base, t) && k < |rows|
    ensures RootIsRight(t, base + k)
  {
    RowsAreIndexed(p, rows, t, base);
    assert IsIndexed(t, base, k);
  }

  lemma NewRowIsLinked(p: Params, rows: seq<Artran>, t: CommentTable, base: Id, k: nat)
    requires PagesAgree(p, rows) && AllStored(p, rows, base, t) && k < |rows|
    ensures base + k in t
    ensures var c := t[base + k];
            (c.rid == 0 || c.rid in t) && (c.rid in t ==> c.pageKey == t[c.rid].pageKey)
  {
    var g := GenId(rows, rows[k].rid);
    assert IsStored(p, rows, base, k, t) && PageAgrees(p, rows, k);
    if g != 0 {
      assert IsStored(p, rows, base, g - 1, t);
    }
  }

  lemma NewRowNotBelowItself(p: Params, rows: seq<Artran>, t: CommentTable, base: Id, k: nat)
    requires AllStored(p, rows, base, t) && k < |rows| && !Below(GenLinks(rows), k + 1, k + 1)
    ensures !Below(LinksOf(t), base + k, base + k)
  {
    var l, x := LinksOf(t), base + k;
    LinksAreStored(p, rows, t, base);
    assert IsPosition(k + 1, |rows|) && k + 1 in GenLinks(rows);
    forall m: nat | m >= 1
      ensures Up(l, x, m) != x
    {
      NotBackAfter(l, rows, base, k, m);
    }
  }

  lemma NotBackAfter(l: Links, rows: seq<Artran>, base: nat, k: nat, m: nat)
    requires base > 0 && StoredLinks(l, rows, base) && k < |rows| && Up(GenLinks(rows), k + 1, m) != k + 1
    ensures Up(l, base + k, m) != base + k
  {
    UpOfStored(l, rows, base, k + 1, m);
  }

  /** An import of which no row is skipped leaves a valid table if and only if it brings a forest: its own
      links are acyclic, its answers are sound, and on the pages of what they answer. */
  lemma ImportKeepsForest(db: Tables, p: Params, rows: seq<Artran>)
    requires FreshIds(db) && ValidForest(db.comments) && NoneSkipped(p, rows)
    ensures ValidForest(AfterImport(db, p, rows).comments) <==> BringsForest(p, rows)
  {
    EveryRowIsStored(db, p, rows);
    NothingElseIsAdded(db, p, rows);
    var t := AfterImport(db, p, rows).comments;
    if BringsForest(p, rows) {
      StoredForest(p, rows, db.comments, t, db.nextComment);
    }
    if ValidForest(t) {
      ForestWasBrought(p, rows, t, db.nextComment);
    }
  }

  lemma StoredForest(p: Params, rows: seq<Artran>, t: CommentTable, t': CommentTable, base: Id)
    requires ValidForest(t) && IsLaidOver(t, t', base, |rows|)
    requires BringsForest(p, rows) && AllStored(p, rows, base, t')
    ensures ValidForest(t')
  {
    forall x | x in t'
      ensures RowIsValid(t', x)
    {
      if x in t {
        OldRowIsValid(t, t', x);
      } else {
        NewRowIsValid(p, rows, t', base, x - base);
      }
    }
    RowsAreValid(t');
  }

  lemma ForestWasBrought(p: Params, rows: seq<Artran>, t: CommentTable, base: Id)
    requires ValidForest(t) && AllStored(p, rows, base, t)
    ensures BringsForest(p, rows)
  {
    forall k: nat | k < |rows|
      ensures PageAgrees(p, rows, k) && IsIndexed(t, base, k)
    {
      assert IsStored(p, rows, base, k, t);
      PageIsKept(t, base + k);
      PageWasKept(p, rows, t, base, k);
    }
    RowsAreIndexed(p, rows, t, base);
    LinksWereForest(p, rows, t, base);
  }

  ghost predicate HasPageOfParent(t: CommentTable, x: nat)
    requires x in t
  {
    t[x].rid in t ==> t[x].pageKey == t[t[x].rid].pageKey
  }

  lemma PageIsKept(t: CommentTable, x: nat)
    requires PageKept(t) && x in t
    ensures HasPageOfParent(t, x)
  {
  }

  lemma PageWasKept(p: Params, rows: seq<Artran>, t: CommentTable, base: Id, k: nat)
    requires AllStored(p, rows, base, t) && k < |rows| && base + k in t && HasPageOfParent(t, base + k)
    ensures PageAgrees(p, rows, k)
  {
    var g := GenId(rows, rows[k].rid);
    assert IsStored(p, rows, base, k, t);
    if g != 0 {
      assert IsStored(p, rows, base, g - 1, t);
      assert t[base + k].rid == base + (g - 1);
      CopiedPagesAgree(p, rows, k, t[base + k], t[base + (g - 1)]);
    }
  }

  lemma CopiedPagesAgree(p: Params, rows: seq<Artran>, k: nat, c: Comment, parent: Comment)
    requires k < |rows| && GenId(rows, rows[k].rid) != 0 && c.pageKey == parent.pageKey
    requires IsCopied(p, rows[k], c) && IsCopied(p, rows[GenId(rows, rows[k].rid) - 1], parent)
    ensures PageAgrees(p, rows, k)
  {
  }

  lemma LinksWereForest(p: Params, rows: seq<Artran>, t: CommentTable, base: Id)
    requires IsForest(LinksOf(t)) && AllStored(p, rows, base, t)
    ensures IsForest(GenLinks(rows))
  {
    LinksAreStored(p, rows, t, base);
    forall g | g in GenLinks(rows)
      ensures GenLinks(rows)[g] == 0 || GenLinks(rows)[g] in GenLinks(rows)
      ensures !Below(GenLinks(rows), g, g)
    {
      GenLinkStays(rows, g);
      assert IsStored(p, rows, base, g - 1, t);
      assert base + g - 1 in LinksOf(t) && !Below(LinksOf(t), base + g - 1, base + g - 1);
      PositionWasNotBelowItself(LinksOf(t), rows, base, g);
    }
  }

  lemma PositionWasNotBelowItself(l: Links, rows: seq<Artran>, base: Id, g: nat)
    requires StoredLinks(l, rows, base) && 0 < g <= |rows|
    requires base + g - 1 in l && !Below(l, base + g - 1, base + g - 1)
    ensures !Below(GenLinks(rows), g, g)
  {
    forall n: nat | n >= 1
      ensures Up(GenLinks(rows), g, n) != g
    {
      UpOfStored(l, rows, base, g, n);
      assert Up(l, base + g - 1, n) != base + g - 1;
    }
  }

  // ---------------------------------------------------------------------------------------------
  // Votes
  // ---------------------------------------------------------------------------------------------

  function CountIn(votes: seq<Vote>, target: Target, id: nat, c: Choice): nat {
    if votes == [] then 0
    else
      var v := votes[|votes| - 1];
      CountIn(votes[..|votes| - 1], target, id, c)
        + (if (v.target, v.targetId, v.choice) == (target, id, c) then 1 else 0)
  }

  lemma {:induction false} CountInConcat(a: seq<Vote>, b: seq<Vote>, target: Target, id: nat, c: Choice)
    ensures CountIn(a + b, target, id, c) == CountIn(a, target, id, c) + CountIn(b, target, id, c)
    decreases |b|
  {
    if b == [] {
      assert a + b == a;
    } else {
      assert (a + b)[..|a + b| - 1] == a + b[..|b| - 1];
      CountInConcat(a, b[..|b| - 1], target, id, c);
    }
  }

  lemma {:induction false} CountInCopies(v: Vote, n: nat, target: Target, id: nat, c: Choice)
    ensures CountIn(Copies(v, n), target, id, c) == if (v.target, v.targetId, v.choice) == (target, id, c) then n else 0
    decreases n
  {
    if n > 0 {
      CountInCopies(v, n - 1, target, id, c);
      assert Copies(v, n)[..|Copies(v, n)| - 1] == Copies(v, n - 1);
    }
  }

  function CounterIn(row: Comment, c: Choice): int {
    if c == ThumbUp then row.voteUp else row.voteDown
  }

  lemma CountInMocksOf(row: Comment, here: nat, target: Target, id: nat, c: Choice)
    ensures CountIn(MocksOf(row, here), target, id, c) ==
              if target == OnComment && id == here then Positive(CounterIn(row, c)) else 0
  {
    var up, down := Vote(OnComment, here, ThumbUp, 0, ""), Vote(OnComment, here, ThumbDown, 0, "");
    CountInConcat(Copies(up, Positive(row.voteUp)), Copies(down, Positive(row.voteDown)), target, id, c);
    CountInCopies(up, Positive(row.voteUp), target, id, c);
    CountInCopies(down, Positive(row.voteDown), target, id, c);
  }

  lemma {:induction false} CountInMocks(added: seq<Comment>, base: nat, target: Target, id: nat, c: Choice)
    ensures CountIn(MocksOfAll(added, base), target, id, c) ==
              if target == OnComment && base <= id < base + |added| then Positive(CounterIn(added[id - base], c)) else 0
    decreases |added|
  {
    if added != [] {
      var n := |added| - 1;
      CountInMocks(added[..n], base, target, id, c);
      CountInConcat(MocksOfAll(added[..n], base), MocksOf(added[n], base + n), target, id, c);
      CountInMocksOf(added[n], base + n, target, id, c);
    }
  }

  lemma {:induction false} CountOfBatch(votes: map<nat, Vote>, added: seq<Vote>, base: Id, target: Target, id: nat,
                                        c: Choice)
    requires forall v :: v in votes ==> v < base
    ensures CountFor(votes + VoteBatch(added, base), target, id, c) ==
              CountFor(votes, target, id, c) + CountIn(added, target, id, c)
    decreases |added|
  {
    if added == [] {
      assert votes + VoteBatch(added, base) == votes;
    } else {
      var n := |added| - 1;
      CountOfBatch(votes, added[..n], base, target, id, c);
      VoteBatchSnoc(votes, added[..n], added[n], base);
      assert added[..n] + [added[n]] == added;
      VoteAdds(votes + VoteBatch(added[..n], base), base + n, added[n], target, id, c);
    }
  }

  /** The vote rows after storing rows with their mock votes. */
  ghost function WithMocks(votes: map<nat, Vote>, added: seq<Comment>, base: Id, voteBase: Id): map<nat, Vote> {
    votes + VoteBatch(MocksOfAll(added, base), voteBase)
  }

  /** Each stored comment gets exactly as many vote rows as its counters say, none for a negative
      counter; nothing else gets any. */
  lemma MockVotesCount(votes: map<nat, Vote>, added: seq<Comment>, base: Id, voteBase: Id, target: Target, id: nat,
                       c: Choice)
    requires forall v :: v in votes ==> v < voteBase
    ensures CountFor(WithMocks(votes, added, base, voteBase), target, id, c) == CountFor(votes, target, id, c)
              + if target != OnComment || !(base <= id < base + |added|) then 0
                else Positive(CounterIn(added[id - base], c))
  {
    CountOfBatch(votes, MocksOfAll(added, base), voteBase, target, id, c);
    CountInMocks(added, base, target, id, c);
  }

  /** If no row is skipped, each imported comment gets as many vote rows as its row counts, none for a
      negative count. */
  lemma ImportedVotes(db: Tables, p: Params, rows: seq<Artran>, k: nat)
    requires FreshIds(db) && NoOrphanVotes(db) && NoneSkipped(p, rows) && k < |rows|
    ensures CountFor(AfterImport(db, p, rows).votes, OnComment, db.nextComment + k, ThumbUp) ==
              Positive(Atoi(rows[k].voteUp))
    ensures CountFor(AfterImport(db, p, rows).votes, OnComment, db.nextComment + k, ThumbDown) ==
              Positive(Atoi(rows[k].voteDown))
  {
    var added := StoredRows(p, rows, db.nextComment);
    CountersAreStored(p, rows, db.nextComment, k);
    RowVotes(db, added, k, ThumbUp);
    RowVotes(db, added, k, ThumbDown);
  }

  lemma RowVotes(db: Tables, added: seq<Comment>, k: nat, c: Choice)
    requires FreshIds(db) && NoOrphanVotes(db) && k < |added|
    ensures CountFor(WithMocks(db.votes, added, db.nextComment, db.nextVote), OnComment, db.nextComment + k, c) ==
              Positive(CounterIn(added[k], c))
  {
    MockVotesCount(db.votes, added, db.nextComment, db.nextVote, OnComment, db.nextComment + k, c);
    assert VotesFor(db.votes, OnComment, db.nextComment + k, c) == {};
  }

  lemma CountersAreStored(p: Params, rows: seq<Artran>, base: Id, k: nat)
    requires NoneSkipped(p, rows) && k < |rows|
    ensures |StoredRows(p, rows, base)| == |rows|
    ensures CounterIn(StoredRows(p, rows, base)[k], ThumbUp) == Atoi(rows[k].voteUp)
    ensures CounterIn(StoredRows(p, rows, base)[k], ThumbDown) == Atoi(rows[k].voteDown)
  {
    AllKept(p, rows);
    assert Kept(p, rows)[k] == k && !Skipped(p, rows[k]);
    StoredUnskipped(p, rows, base, k);
  }

  lemma {:induction false} CopiesAre(v: Vote, n: nat)
    ensures forall w :: w in Copies(v, n) ==> w == v
    decreases n
  {
    if n > 0 {
      CopiesAre(v, n - 1);
    }
  }

  predicate IsMockOf(v: Vote, base: nat, n: nat) {
    v.ip == "" && v.userId == 0 && v.target == OnComment && base <= v.targetId < base + n
  }

  lemma {:induction false} MocksAreAnonymous(added: seq<Comment>, base: nat)
    ensures forall v :: v in MocksOfAll(added, base) ==> IsMockOf(v, base, |added|)
    decreases |added|
  {
    if added != [] {
      var n := |added| - 1;
      MocksAreAnonymous(added[..n], base);
      CopiesAre(Vote(OnComment, base + n, ThumbUp, 0, ""), Positive(added[n].voteUp));
      CopiesAre(Vote(OnComment, base + n, ThumbDown, 0, ""), Positive(added[n].voteDown));
      assert forall v :: v in MocksOf(added[n], base + n) ==> IsMockOf(v, base, |added|);
      assert forall v :: v in MocksOfAll(added[..n], base) ==> IsMockOf(v, base, |added|);
    }
  }

  lemma BatchVoteRows(votes: map<nat, Vote>, added: seq<Comment>, base: Id, voteBase: Id)
    requires forall v :: v in votes ==> v < voteBase
    ensures var votes' := WithMocks(votes, added, base, voteBase);
            && (forall v :: v in votes' && v in votes ==> votes'[v] == votes[v])
            && (forall v :: v in votes' && v !in votes ==>
                IsMockOf(votes'[v], base, |added|) && v < voteBase + |MocksOfAll(added, base)|)
  {
    var mocks := MocksOfAll(added, base);
    MocksAreAnonymous(added, base);
    forall v | v in WithMocks(votes, added, base, voteBase) && v !in votes
      ensures v in VoteBatch(mocks, voteBase) && IsMockOf(VoteBatch(mocks, voteBase)[v], base, |added|)
      ensures v < voteBase + |mocks|
    {
      assert InBatch(v, voteBase, |mocks|);
      assert mocks[v - voteBase] in mocks;
    }
    forall v | v in votes
      ensures v !in VoteBatch(mocks, voteBase)
    {
      assert !InBatch(v, voteBase, |mocks|);
    }
  }

  ghost predicate NonNegative(added: seq<Comment>) {
    forall k :: 0 <= k < |added| ==> added[k].voteUp >= 0 && added[k].voteDown >= 0
  }

  /** Storing rows with their mock votes keeps the ledger right if and only if no counter is negative. */
  lemma BatchKeepsLedger(db: Tables, db': Tables, added: seq<Comment>)
    requires FreshIds(db) && ValidLedger(db) && db'.pages == db.pages
    requires db'.comments == db.comments + Batch(added, db.nextComment)
    requires db'.votes == WithMocks(db.votes, added, db.nextComment, db.nextVote)
    ensures ValidLedger(db') <==> NonNegative(added)
  {
    BatchVoteRows(db.votes, added, db.nextComment, db.nextVote);
    if NonNegative(added) {
      forall target, id: nat, c | TargetExists(db', target, id)
        ensures CounterOf(db', target, id, c) == CountFor(db'.votes, target, id, c)
      {
        BatchCounter(db, db', added, target, id, c);
      }
      forall v | v in db'.votes
        ensures TargetExists(db', db'.votes[v].target, db'.votes[v].targetId)
      {
        BatchRow(db.comments, added, db.nextComment, db'.votes[v].targetId);
      }
    } else {
      var k: nat :| k < |added| && (added[k].voteUp < 0 || added[k].voteDown < 0);
      NegativeCounterBreaks(db, db', added, k);
    }
  }

  lemma NegativeCounterBreaks(db: Tables, db': Tables, added: seq<Comment>, k: nat)
    requires db'.comments == db.comments + Batch(added, db.nextComment)
    requires k < |added| && (added[k].voteUp < 0 || added[k].voteDown < 0)
    ensures !CountersMatch(db')
  {
    var c := if added[k].voteUp < 0 then ThumbUp else ThumbDown;
    BatchRow(db.comments, added, db.nextComment, db.nextComment + k);
    assert TargetExists(db', OnComment, db.nextComment + k);
    assert CounterOf(db', OnComment, db.nextComment + k, c) < 0;
  }

  lemma BatchCounter(db: Tables, db': Tables, added: seq<Comment>, target: Target, id: nat, c: Choice)
    requires FreshIds(db) && ValidLedger(db) && db'.pages == db.pages && NonNegative(added)
    requires db'.comments == db.comments + Batch(added, db.nextComment)
    requires db'.votes == WithMocks(db.votes, added, db.nextComment, db.nextVote)
    requires TargetExists(db', target, id)
    ensures CounterOf(db', target, id, c) == CountFor(db'.votes, target, id, c)
  {
    MockVotesCount(db.votes, added, db.nextComment, db.nextVote, target, id, c);
    if target == OnComment {
      BatchRow(db.comments, added, db.nextComment, id);
      if id >= db.nextComment {
        assert VotesFor(db.votes, target, id, c) == {};
      } else {
        assert CounterOf(db', target, id, c) == CounterOf(db, target, id, c);
      }
    } else {
      assert TargetExists(db, target, id);
      assert CounterOf(db', target, id, c) == CounterOf(db, target, id, c);
    }
  }

  lemma BatchKeepsFreshIds(db: Tables, db': Tables, added: seq<Comment>)
    requires FreshIds(db)
    requires db'.comments == db.comments + Batch(added, db.nextComment) && db'.nextComment == db.nextComment + |added|
    requires db'.votes == WithMocks(db.votes, added, db.nextComment, db.nextVote)
    requires db'.nextVote == db.nextVote + |MocksOfAll(added, db.nextComment)|
    requires db'.pages == db.pages && db'.users == db.users && db'.nextPage == db.nextPage
    requires db'.nextUser == db.nextUser
    ensures FreshIds(db')
  {
    BatchVoteRows(db.votes, added, db.nextComment, db.nextVote);
    forall id | id in db'.comments
      ensures id < db'.nextComment
    {
      BatchRow(db.comments, added, db.nextComment, id);
    }
    forall v | v in db'.votes
      ensures 0 < v < db'.nextVote
    {
      if v !in db.votes { assert v in VoteBatch(MocksOfAll(added, db.nextComment), db.nextVote); }
    }
  }

  /** What ImportArtrans leaves has valid vote counters if and only if no stored counter is negative. */
  lemma ImportKeepsLedger(db: Tables, p: Params, rows: seq<Artran>)
    requires FreshIds(db) && ValidLedger(db)
    ensures ValidLedger(AfterImport(db, p, rows)) <==> NonNegative(StoredRows(p, rows, db.nextComment))
  {
    BatchKeepsLedger(db, AfterImport(db, p, rows), StoredRows(p, rows, db.nextComment));
  }

  lemma ImportKeepsFreshIds(db: Tables, p: Params, rows: seq<Artran>)
    requires FreshIds(db)
    ensures FreshIds(AfterImport(db, p, rows))
  {
    BatchKeepsFreshIds(db, AfterImport(db, p, rows), StoredRows(p, rows, db.nextComment));
  }

  // ---------------------------------------------------------------------------------------------
  // Imports that go wrong
  // ---------------------------------------------------------------------------------------------

  function On(id: string, rid: string): Artran {
    Artran(id, rid, "", "", "", "", "", "", "", "", "", "", "", "", "k", "s")
  }

  lemma OnIsKept(p: Params, row: Artran)
    requires p.targetSiteName == "" && row.pageKey == "k" && row.siteName == "s"
    ensures !Skipped(p, row)
  {
    assert TrimLeft("k") == "k" && TrimRight("k") == "k" && TrimLeft("s") == "s" && TrimRight("s") == "s";
  }

  /** A chain that leaves the file: "b" answers "a", which answers a comment that is not imported. */
  lemma ParentLeftBehind(db: Tables, p: Params)
    requires p.targetSiteName == ""
    ensures var rows := [On("a", "x"), On("b", "a")];
            NoneSkipped(p, rows) && !AllIndexed(AfterImport(db, p, rows).comments, db.nextComment, |rows|)
  {
    var rows := [On("a", "x"), On("b", "a")];
    forall i | 0 <= i < |rows|
      ensures !Skipped(p, rows[i])
    {
      OnIsKept(p, rows[i]);
    }
    AnswerToDangling(On("a", "x"), On("b", "a"));
    ImportIsIndexed(db, p, rows);
  }

  /** A blank parent that is taken for a row: "a" answers none, but is stored as an answer to the comment
      named "0". The root of "d", which answers "a", is wrong although all parents are in the file. */
  lemma BlankParentMisread(db: Tables, p: Params)
    requires p.targetSiteName == ""
    ensures var rows := [On("a", "0"), On("0", "c"), On("c", ""), On("d", "a")];
            && NoneSkipped(p, rows) && RidsClosed(rows)
            && !AllIndexed(AfterImport(db, p, rows).comments, db.nextComment, |rows|)
  {
    var rows := [On("a", "0"), On("0", "c"), On("c", ""), On("d", "a")];
    forall i | 0 <= i < |rows|
      ensures !Skipped(p, rows[i])
    {
      OnIsKept(p, rows[i]);
    }
    BlankIdBreaksRoots(On("a", "0"), On("0", "c"), On("c", ""), On("d", "a"));
    ImportIsIndexed(db, p, rows);
  }

  lemma KeptSnoc(p: Params, rows: seq<Artran>, row: Artran)
    ensures Kept(p, rows + [row]) == Kept(p, rows) + KeptAt(p, row, |rows|)
  {
    assert (rows + [row])[..|rows|] == rows;
  }

  function KeptAt(p: Params, row: Artran, i: nat): seq<nat> {
    if Skipped(p, row) then [] else [i]
  }

  lemma KeptOfThree(p: Params, r1: Artran, r2: Artran, r3: Artran)
    ensures Kept(p, [r1, r2, r3]) == KeptAt(p, r1, 0) + KeptAt(p, r2, 1) + KeptAt(p, r3, 2)
  {
    KeptOfTwo(p, r1, r2);
    KeptSnoc(p, [r1, r2], r3);
    assert [r1, r2] + [r3] == [r1, r2, r3];
  }

  lemma KeptOfTwo(p: Params, r1: Artran, r2: Artran)
    ensures Kept(p, [r1, r2]) == KeptAt(p, r1, 0) + KeptAt(p, r2, 1)
  {
    KeptSnoc(p, [], r1);
    KeptSnoc(p, [r1], r2);
    assert [] + [r1] == [r1] && [r1] + [r2] == [r1, r2];
  }

  /** A skipped row before a thread: its first answer becomes an answer to itself. */
  lemma SkippedRowShifts(p: Params, r1: Artran, r2: Artran, r3: Artran, base: Id)
    requires Skipped(p, r1) && !Skipped(p, r2) && !Skipped(p, r3)
    requires r1.id == "s" && r2.id == "a" && r3.id == "b" && r3.rid == "a"
    ensures var rows := [r1, r2, r3];
            |Kept(p, rows)| == 2 && Stored(p, rows, 1, base).rid == base + 1
  {
    KeptOfThree(p, r1, r2, r3);
    GenIdOfThree(r1, r2, r3, "a");
  }

  lemma NegativeCounterBreaksLedger(db: Tables, p: Params)
    requires FreshIds(db) && ValidLedger(db) && p.targetSiteName == ""
    ensures !ValidLedger(AfterImport(db, p, [On("a", "").(voteUp := IntString(-1))]))
  {
    var rows := [On("a", "").(voteUp := IntString(-1))];
    OnIsKept(p, rows[0]);
    assert NoneSkipped(p, rows);
    CountersAreStored(p, rows, db.nextComment, 0);
    AtoiOfIntString(-1);
    ImportKeepsLedger(db, p, rows);
  }
}
