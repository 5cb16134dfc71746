/** The comment forest: what creating a comment, deleting one and deleting a user do to the tables,
    and what every one of them keeps. */
module CommentForest {
  import opened ParentLinks
  import opened Entity

  /** No parent link dangles and no chain runs into a cycle. */
  ghost predicate IsForest(l: Links) {
    && (forall x :: x in l ==> l[x] == 0 || l[x] in l)
    && (forall x :: x in l ==> !Below(l, x, x))
  }

  /** The denormalised root column is 0 on roots and the root of the parent on answers. */
  ghost predicate RootIndexed(comments: CommentTable) {
    forall x :: x in comments ==> comments[x].rootId == Walk(LinksOf(comments), comments[x].rid)
  }

  /** An answer stays on the page of the comment it answers. */
  ghost predicate PageKept(comments: CommentTable) {
    forall x :: x in comments && comments[x].rid in comments ==>
      comments[x].pageKey == comments[comments[x].rid].pageKey
  }

  ghost predicate ValidForest(comments: CommentTable) {
    IsForest(LinksOf(comments)) && RootIndexed(comments) && PageKept(comments)
  }

  // ---------------------------------------------------------------------------------------------
  // What the root column means
  // ---------------------------------------------------------------------------------------------

  lemma ForestChainEnds(l: Links, x: nat, r: nat)
    requires IsForest(l) && x in l && IsRootOf(l, x, r)
    ensures EndsChain(l, r) && r in l
  {
    var n: nat :| RootAt(l, x, r, n);
    StaysInForest(l, x, n);
    if OnCycle(l, r) {
      assert Below(l, r, r);
    }
  }

  lemma {:induction false} StaysInForest(l: Links, x: nat, n: nat)
    requires IsForest(l) && (x == 0 || x in l)
    ensures Up(l, x, n) == 0 || Up(l, x, n) in l
    decreases n
  {
    if n > 0 {
      StaysInForest(l, Parent(l, x), n - 1);
    }
  }

  /** In a valid table the root column is 0 exactly on the roots, and otherwise names a root. */
  lemma RootColumnNamesRoots(comments: CommentTable, x: nat)
    requires ValidForest(comments) && x in comments
    ensures comments[x].rootId == 0 <==> comments[x].rid == 0
    ensures comments[x].rid != 0 ==>
              comments[x].rootId in comments && comments[comments[x].rootId].rid == 0
  {
    var l := LinksOf(comments);
    assert x in l;
    if l[x] != 0 {
      var r := Walk(l, l[x]);
      WalkIsRoot(l, l[x], r);
      ForestChainEnds(l, l[x], r);
    }
  }

  /** For each root r the rows whose root column is r are exactly the rows below r, which is also
      what the depth-first search from r returns (Database.Dao.FindCommentChildren). */
  lemma RootColumnIsDescent(comments: CommentTable, r: nat)
    requires ValidForest(comments) && r in comments && comments[r].rid == 0
    ensures (set x | x in comments && comments[x].rootId == r) == Descendants(LinksOf(comments), r)
  {
    var l := LinksOf(comments);
    assert r in l;
    forall x | x in l
      ensures comments[x].rootId == r <==> Below(l, x, r)
    {
      RootColumnOf(l, x, r);
    }
  }

  lemma RootColumnOf(l: Links, x: nat, r: nat)
    requires IsForest(l) && x in l && r in l && l[r] == 0
    ensures Walk(l, l[x]) == r <==> Below(l, x, r)
  {
    if l[x] == 0 {
      assert Walk(l, 0) == 0;
      if Below(l, x, r) {
        var n: nat :| n >= 1 && Up(l, x, n) == r;
        UpFromZero(l, n - 1);
        assert false;
      }
    } else {
      WalkIsRoot(l, l[x], r);
      if Walk(l, l[x]) == r {
        var n: nat :| RootAt(l, l[x], r, n);
        assert Up(l, x, n + 1) == r;
      }
      if Below(l, x, r) {
        var n: nat :| n >= 1 && Up(l, x, n) == r;
        assert RootAt(l, l[x], r, n - 1);
      }
    }
  }

  // ---------------------------------------------------------------------------------------------
  // Creation
  // ---------------------------------------------------------------------------------------------

  datatype NewComment = NewComment(content: string, pageKey: string, siteName: string, userId: nat, ua: string,
                                   ip: string, rid: nat, isPending: bool)

  datatype CreateOutcome =
    | Created(id: nat)
    | InvalidEmail
    | NotAllowed
    | ParentNotFound
    | PageKeyMismatch
    | ReplyNotAllowed
    | AuthorRefused

  /** The comment answers none, or one on its own page that is open to answers. */
  ghost predicate MayAnswer(comments: CommentTable, c: NewComment) {
    c.rid != 0 ==>
      && c.rid in comments
      && comments[c.rid].pageKey == c.pageKey
      && comments[c.rid].IsAllowReply()
  }

  function NewRow(c: NewComment, rootId: nat, now: string): Comment {
    Comment(c.content, c.pageKey, c.siteName, c.userId, c.ua, c.ip, c.rid, rootId, false, c.isPending, false, 0, 0,
            now, now)
  }

  /** Adding a leaf to a forest gives a forest in which no existing chain has changed. */
  lemma LeafKeepsForest(l: Links, id: nat, rid: nat)
    requires IsForest(l) && id != 0 && id !in l && (rid == 0 || rid in l)
    ensures IsForest(l[id := rid])
    ensures forall x :: x == 0 || x in l ==> Walk(l[id := rid], x) == Walk(l, x)
  {
    var l' := l[id := rid];
    assert l' - {id} == l;
    assert DescentClosed(l', {id});
    forall x | x in l
      ensures !Below(l', x, x)
    {
      if Below(l', x, x) {
        var n: nat :| n >= 1 && Up(l', x, n) == x;
        UpWithout(l', {id}, x, n);
        assert Below(l, x, x);
      }
    }
    assert !Below(l', id, id) by {
      BelowStep(l', id, id);
      if Below(l', rid, id) {
        var n: nat :| n >= 1 && Up(l', rid, n) == id;
        UpWithout(l', {id}, rid, n);
      }
    }
    forall x | x in l
      ensures Walk(l', x) == Walk(l, x)
    {
      WalkWithout(l', {id}, x);
    }
  }

  /** The tables with one more comment row. */
  ghost function AfterCreate(db: Tables, c: NewComment, now: string): Tables {
    db.(comments := db.comments[db.nextComment := NewRow(c, Walk(LinksOf(db.comments), c.rid), now)],
        nextComment := db.nextComment + 1)
  }

  ghost function AfterCreatePage(db: Tables, key: string, title: string, siteName: string): Tables {
    db.(pages := db.pages[db.nextPage := Page(key, siteName, title, false, 0, 0, 0)], nextPage := db.nextPage + 1)
  }

  /** A fresh row that answers an existing comment (or none) keeps the forest and its root column:
      the new row's entry is the root of its parent, and no other root changes. */
  lemma CreationKeepsForest(comments: CommentTable, id: nat, c: NewComment, now: string)
    requires ValidForest(comments) && MayAnswer(comments, c) && id != 0 && id !in comments
    ensures ValidForest(comments[id := NewRow(c, Walk(LinksOf(comments), c.rid), now)])
  {
    RowKeepsForest(comments, id, NewRow(c, Walk(LinksOf(comments), c.rid), now));
  }

  lemma RowKeepsForest(comments: CommentTable, id: nat, row: Comment)
    requires ValidForest(comments) && id != 0 && id !in comments
    requires row.rid == 0 || (row.rid in comments && comments[row.rid].pageKey == row.pageKey)
    requires row.rootId == Walk(LinksOf(comments), row.rid)
    ensures ValidForest(comments[id := row])
  {
    LinksWith(comments, id, row);
    LeafKeepsForest(LinksOf(comments), id, row.rid);
    assert LinksClosed(comments) by {
      assert forall x :: x in comments ==> x in LinksOf(comments) && LinksOf(comments)[x] == comments[x].rid;
    }
    RowKeepsColumns(comments, id, row);
  }

  ghost predicate LinksClosed(comments: CommentTable) {
    forall x :: x in comments ==> comments[x].rid == 0 || comments[x].rid in comments
  }

  lemma RowKeepsColumns(comments: CommentTable, id: nat, row: Comment)
    requires RootIndexed(comments) && PageKept(comments) && LinksClosed(comments) && id != 0 && id !in comments
    requires row.rid == 0 || (row.rid in comments && comments[row.rid].pageKey == row.pageKey)
    requires row.rootId == Walk(LinksOf(comments), row.rid)
    requires forall x :: x == 0 || x in comments ==> Walk(LinksOf(comments[id := row]), x) == Walk(LinksOf(comments), x)
    ensures RootIndexed(comments[id := row]) && PageKept(comments[id := row])
  {
  }

  /** Rows outside a removed descent-closed set keep their roots. */
  lemma WalkWithout(l: Links, D: set<nat>, x: nat)
    requires DescentClosed(l, D) && x !in D && 0 !in D && x != 0
    ensures Walk(l - D, x) == Walk(l, x)
  {
    var r := Walk(l, x);
    WalkIsRoot(l, x, r);
    var n: nat :| RootAt(l, x, r, n);
    forall y, k: nat | y !in D
      ensures Up(l - D, y, k) == Up(l, y, k) && Up(l, y, k) !in D
    {
      UpWithout(l, D, y, k);
    }
    assert forall y :: y !in D ==> (OnCycle(l - D, y) <==> OnCycle(l, y));
    assert RootAt(l - D, x, r, n);
    WalkIsRoot(l - D, x, r);
  }

  // ---------------------------------------------------------------------------------------------
  // Deletion
  // ---------------------------------------------------------------------------------------------

  ghost function OwnedBy(db: Tables, userId: nat): set<nat> {
    set id | id in db.comments && db.comments[id].userId == userId
  }

  ghost function IdentitiesWithout(db: Tables, userId: nat): map<nat, AuthIdentity> {
    map a | a in db.identities && db.identities[a].userId != userId :: db.identities[a]
  }

  /** Deleting a user takes the comments of that user with everything below them. */
  ghost function AfterDelUser(db: Tables, userId: nat): Tables {
    RemoveComments(db.(users := db.users - {userId}, identities := IdentitiesWithout(db, userId)),
                   Closure(LinksOf(db.comments), OwnedBy(db, userId)))
  }

  ghost function AfterDelComment(db: Tables, id: nat): Tables {
    if id in db.comments then RemoveComments(db, Closure(LinksOf(db.comments), {id})) else db
  }

  /** The comments that stay are as they were. A notify or a comment vote stays, as it was, exactly if its
      comment does not go; votes on pages stay. */
  ghost predicate LosesWithComments(db: Tables, db': Tables) {
    && db'.comments.Keys <= db.comments.Keys
    && (forall x :: x in db'.comments ==> db'.comments[x] == db.comments[x])
    && (forall n :: n in db.notifies ==>
          (n in db'.notifies <==> !(db.notifies[n].commentId in db.comments.Keys - db'.comments.Keys)))
    && (forall n :: n in db'.notifies ==> n in db.notifies && db'.notifies[n] == db.notifies[n])
    && (forall v :: v in db.votes && db.votes[v].target == OnComment ==>
          (v in db'.votes <==> !(db.votes[v].targetId in db.comments.Keys - db'.comments.Keys)))
    && (forall v :: v in db'.votes ==> v in db.votes && db'.votes[v] == db.votes[v])
  }

  /** Deleting a comment deletes it and everything below it, with notifies and votes, and nothing else. */
  lemma CommentDeletionTakes(db: Tables, id: nat)
    requires id in db.comments
    ensures var db', l := AfterDelComment(db, id), LinksOf(db.comments);
            && (forall x :: x in db'.comments <==> x in db.comments && x != id && !Below(l, x, id))
            && LosesWithComments(db, db')
            && (forall v :: v in db.votes && db.votes[v].target == OnPage ==> v in db'.votes)
            && db'.pages == db.pages && db'.users == db.users && db'.identities == db.identities
  {
    var l := LinksOf(db.comments);
    forall x | x in db.comments
      ensures x in Closure(l, {id}) <==> x == id || Below(l, x, id)
    {
      ClosureOfOne(l, id, x);
    }
  }

  lemma ClosureOfOne(l: Links, id: nat, x: nat)
    requires x in l
    ensures x in Closure(l, {id}) <==> x == id || Below(l, x, id)
  {
    assert Up(l, x, 0) == x;
    if x in Closure(l, {id}) {
      var n: nat :| Up(l, x, n) == id;
    }
  }

  /** Deleting a user deletes the account, its identities, and all its comments with everything below them,
      notifies and votes included, and nothing else. */
  lemma UserDeletionTakes(db: Tables, userId: nat)
    ensures var db', l := AfterDelUser(db, userId), LinksOf(db.comments);
            && (forall x :: x in db'.comments <==>
                  && x in db.comments
                  && forall y :: y in db.comments && db.comments[y].userId == userId ==> x != y && !Below(l, x, y))
            && LosesWithComments(db, db')
            && (forall v :: v in db.votes && db.votes[v].target == OnPage ==> v in db'.votes)
            && (forall u :: u in db'.users <==> u in db.users && u != userId)
            && (forall u :: u in db'.users ==> db'.users[u] == db.users[u])
            && (forall a :: a in db'.identities <==> a in db.identities && db.identities[a].userId != userId)
            && (forall a :: a in db'.identities ==> db'.identities[a] == db.identities[a])
            && db'.pages == db.pages
  {
    var l, S := LinksOf(db.comments), OwnedBy(db, userId);
    forall x | x in db.comments
      ensures x in Closure(l, S) <==>
              exists y :: y in db.comments && db.comments[y].userId == userId && (x == y || Below(l, x, y))
    {
      ClosureOfOwned(l, S, x);
      assert forall y :: y in S <==> y in db.comments && db.comments[y].userId == userId;
    }
  }

  lemma ClosureOfOwned(l: Links, S: set<nat>, x: nat)
    requires x in l && 0 !in S
    ensures x in Closure(l, S) <==> exists y :: y in S && (x == y || Below(l, x, y))
  {
    assert Up(l, x, 0) == x;
    if x in Closure(l, S) {
      var n: nat :| Up(l, x, n) in S;
      assert n == 0 || Below(l, x, Up(l, x, n));
    }
    if y :| y in S && Below(l, x, y) {
      var n: nat :| n >= 1 && Up(l, x, n) == y;
    }
  }

  /** Removing rows with all answers to them keeps a forest a forest and its root column right. */
  lemma ClosedRemovalKeepsForest(comments: CommentTable, D: set<nat>)
    requires ValidForest(comments) && DescentClosed(LinksOf(comments), D) && 0 !in D
    ensures ValidForest(comments - D)
  {
    var l := LinksOf(comments);
    LinksWithout(comments, D);
    forall x, n: nat | x in l && x !in D
      ensures Up(l - D, x, n) == Up(l, x, n)
    {
      UpWithout(l, D, x, n);
    }
    forall x | x in l - D
      ensures !Below(l - D, x, x)
    {
      if Below(l - D, x, x) {
        assert Below(l, x, x);
      }
    }
    forall x | x in l && x !in D && l[x] != 0
      ensures Walk(l - D, l[x]) == Walk(l, l[x])
    {
      WalkWithout(l, D, l[x]);
    }
  }

  /** So does removing whole subtrees. */
  lemma SubtreeRemovalKeepsForest(comments: CommentTable, S: set<nat>)
    requires ValidForest(comments) && S <= comments.Keys
    ensures ValidForest(comments - Closure(LinksOf(comments), S))
  {
    var l := LinksOf(comments);
    ClosureIsClosed(l, S);
    assert Closure(l, S) + S == Closure(l, S);
    ClosedRemovalKeepsForest(comments, Closure(l, S));
  }

  /** On a table of any shape, subtree removal leaves a dangling link only where there was one. */
  lemma SubtreeRemovalAddsNoDanglingLink(comments: CommentTable, S: set<nat>, x: nat)
    requires S <= comments.Keys
    requires x in comments - Closure(LinksOf(comments), S)
    ensures comments[x].rid in comments ==>
              comments[x].rid in comments - Closure(LinksOf(comments), S)
  {
    var l := LinksOf(comments);
    ClosureIsClosed(l, S);
    assert Closure(l, S) + S == Closure(l, S);
    assert x in l && l[x] == comments[x].rid;
  }
}
