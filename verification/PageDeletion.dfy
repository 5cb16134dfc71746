/** Deleting a page with its comments and votes. Comments are deleted one by one, not with what is below
    them. */
module PageDeletion {
  import opened ParentLinks
  import opened Entity
  import opened CommentForest
  import opened VoteLedger

  function CommentsOn(comments: CommentTable, key: string, site: string): set<nat> {
    set x | x in comments && comments[x].pageKey == key && comments[x].siteName == site
  }

  ghost function WithoutPageVotes(votes: map<nat, Vote>, id: nat): map<nat, Vote> {
    map v | v in votes && !(votes[v].target == OnPage && votes[v].targetId == id) :: votes[v]
  }

  ghost function AfterDelPage(db: Tables, id: nat): Tables
    requires id in db.pages
  {
    var gone := CommentsOn(db.comments, db.pages[id].key, db.pages[id].siteName);
    var rest := RemoveComments(db.(pages := db.pages - {id}), gone);
    rest.(votes := WithoutPageVotes(rest.votes, id))
  }

  /** Deleting a page deletes the page, the comments with its key and site, not those below them, their
      notifies and votes, and the votes of the page; nothing else. */
  lemma PageDeletionTakes(db: Tables, id: nat)
    requires id in db.pages
    ensures var db', page := AfterDelPage(db, id), db.pages[id];
            && (forall x :: x in db'.comments <==>
                  x in db.comments && !(db.comments[x].pageKey == page.key && db.comments[x].siteName == page.siteName))
            && LosesWithComments(db, db')
            && (forall v :: v in db.votes && db.votes[v].target == OnPage ==>
                  (v in db'.votes <==> db.votes[v].targetId != id))
            && (forall p :: p in db'.pages <==> p in db.pages && p != id)
            && (forall p :: p in db'.pages ==> db'.pages[p] == db.pages[p])
            && db'.users == db.users && db'.identities == db.identities
  {
  }

  /** No comment on another site answers one of this page. */
  predicate AnswersStay(comments: CommentTable, key: string, site: string) {
    forall x :: x in comments && comments[x].rid in CommentsOn(comments, key, site) ==> comments[x].siteName == site
  }

  /** Deleting the comments of a page leaves a valid table if and only if no comment on another site answers
      one of them. Otherwise such an answer is left with a parent that does not exist. */
  lemma PageDeletionKeepsForest(comments: CommentTable, key: string, site: string)
    requires ValidForest(comments)
    ensures ValidForest(comments - CommentsOn(comments, key, site)) <==> AnswersStay(comments, key, site)
  {
    var gone := CommentsOn(comments, key, site);
    var l := LinksOf(comments);
    LinksWithout(comments, gone);
    if AnswersStay(comments, key, site) {
      assert DescentClosed(l, gone);
      ClosedRemovalKeepsForest(comments, gone);
    } else {
      var x :| x in comments && comments[x].rid in gone && comments[x].siteName != site;
      assert x in l - gone && (l - gone)[x] == comments[x].rid;
    }
  }

  /** Two sites with a page of the same key: a comment on one of them, answered on the other. */
  lemma AnswerOnOtherSiteDangles(first: Comment, second: Comment)
    requires first.rid == 0 && first.rootId == 0 && second.rid == 1 && second.rootId == 1
    requires first.pageKey == second.pageKey && first.siteName != second.siteName
    ensures var comments: CommentTable := map[1 := first, 2 := second];
            ValidForest(comments) && !ValidForest(comments - CommentsOn(comments, first.pageKey, first.siteName))
  {
    var comments: CommentTable := map[1 := first, 2 := second];
    TwoRowsAreValid(first, second);
    assert comments[2].rid in CommentsOn(comments, first.pageKey, first.siteName);
    PageDeletionKeepsForest(comments, first.pageKey, first.siteName);
  }

  lemma TwoRowsAreValid(first: Comment, second: Comment)
    requires first.rid == 0 && first.rootId == 0 && second.rid == 1 && second.rootId == 1
    requires first.pageKey == second.pageKey
    ensures ValidForest(map[1 := first, 2 := second])
  {
    EmptyForest();
    RowKeepsForest(map[], 1, first);
    var one: CommentTable := map[1 := first];
    assert map[][1 := first] == one;
    assert LinksOf(one)[1] == 0;
    assert Walk(LinksOf(one), 1) == 1;
    RowKeepsForest(one, 2, second);
    assert one[2 := second] == map[1 := first, 2 := second];
  }

  lemma EmptyForest()
    ensures ValidForest(map[])
  {
  }

  /** Deleting a page keeps every counter right, and orphans no vote. */
  lemma PageDeletionKeepsLedger(db: Tables, id: nat)
    requires ValidLedger(db) && id in db.pages
    ensures ValidLedger(AfterDelPage(db, id))
  {
    var gone := CommentsOn(db.comments, db.pages[id].key, db.pages[id].siteName);
    RemovalKeepsLedger(db, gone);
    PageRowRemoval(RemoveComments(db, gone), id, AfterDelPage(db, id));
  }

  lemma PageRowRemoval(db: Tables, id: nat, db': Tables)
    requires ValidLedger(db) && db'.comments == db.comments && db'.pages == db.pages - {id}
    requires db'.votes == WithoutPageVotes(db.votes, id)
    ensures ValidLedger(db')
  {
    forall target, x: nat, c | TargetExists(db', target, x)
      ensures CounterOf(db', target, x, c) == CountFor(db'.votes, target, x, c)
    {
      assert TargetExists(db, target, x) && CounterOf(db', target, x, c) == CounterOf(db, target, x, c);
      assert VotesFor(db'.votes, target, x, c) == VotesFor(db.votes, target, x, c);
    }
    forall v, w | v in db'.votes && w in db'.votes && SameVoter(db'.votes[v], db'.votes[w])
      ensures v == w
    {
      assert SameVoter(db.votes[v], db.votes[w]);
    }
  }
}
