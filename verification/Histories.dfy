/** Whole runs: any sequence of requests, one after the other, keeps the comment forest, its root
    column and the vote ledger. */
module Histories {
  import opened ParentLinks
  import opened DepthFirst
  import opened Options
  import opened Entity
  import opened Text
  import opened CommentForest
  import opened VoteLedger
  import opened AccountMerge
  import opened PageRename
  import opened PageDeletion
  import opened PageCache
  import opened Authoring
  import opened GenIds
  import opened Importer
  import opened ImportedThreads

  datatype Request =
    | CreateComment(comment: NewComment, author: Author, title: string, now: string)
    | UpdateComment(id: nat, edit: Edit, now: string)
    | CreatePage(key: string, title: string, siteName: string)
    | DeleteComment(id: nat)
    | DeleteUser(userId: nat)
    | DeletePage(id: nat)
    | UpdatePage(id: nat, key: string, title: string, adminOnly: bool)
    | CastVote(ballot: Ballot)
    | SyncVotes
    | MergeAccounts(email: string, userName: string, isEmail: string -> bool)
    | ImportRows(params: Params, rows: seq<Artran>)

  /** Three requests can do harm, and are part of a run only where they do not. An edit must not take a
      comment out of its thread, and the page deleted must not have answers on another site; otherwise they do
      harm (Authoring.EditKeepsForest, PageDeletion.PageDeletionKeepsForest). An import must bring a forest and
      no negative counters, without which it does harm as well (ImportedThreads.ImportKeepsForest,
      ImportKeepsLedger), and no row of it may be skipped: that may do harm or not
      (ImportedThreads.SkippingShiftsParents), and is no part of a run in any case. */
  ghost predicate IsSound(db: Tables, r: Request) {
    match r
    case UpdateComment(id, e, _) =>
      id in db.comments ==> KeepsThreadsTogether(db.comments, id, FirstNonEmpty(e.pageKey, db.comments[id].pageKey))
    case DeletePage(id) => id in db.pages ==> AnswersStay(db.comments, db.pages[id].key, db.pages[id].siteName)
    case ImportRows(p, rows) =>
      NoneSkipped(p, rows) && BringsForest(p, rows) && NonNegative(StoredRows(p, rows, db.nextComment))
    case _ => true
  }

  /** db' is a state that the request may leave; Server.Execute performs every request so. */
  ghost predicate Step(db: Tables, r: Request, db': Tables) {
    match r
    case CreateComment(c, a, title, now) =>
      if IsAccepted(db, c, a) then IsCreation(db, db', c, a, title, now) else db' == db
    case UpdateComment(id, e, now) =>
      if id in db.comments && !e.IsRefused() then IsEdit(db, db', id, e, now) else db' == db
    case CreatePage(key, title, siteName) => db' == AfterCreatePage(db, key, title, siteName)
    case DeleteComment(id) => db' == AfterDelComment(db, id)
    case DeleteUser(userId) => db' == AfterDelUser(db, userId)
    case DeletePage(id) => db' == if id in db.pages then AfterDelPage(db, id) else db
    case UpdatePage(id, key, title, adminOnly) =>
      db' == if MayUpdatePage(db.pages, id, key) then AfterPageUpdate(db, id, key, title, adminOnly) else db
    case CastVote(b) =>
      if TargetExists(db, b.target, b.id) then
        exists held :: HoldsAmong(db.votes, b, held) && db' == AfterVote(db, b, Selected(b, held))
      else db' == db
    case SyncVotes => db' == AfterVoteSync(db)
    case MergeAccounts(email, userName, _) =>
      db' == db || exists target :: IsMerge(db, db', email, TrimSpace(userName), TrimSpace(email), target)
    case ImportRows(p, rows) => db' == if rows == [] then db else AfterImport(db, p, rows)
  }

  ghost predicate IsSoundStep(db: Tables, r: Request, db': Tables) {
    IsSound(db, r) && Step(db, r, db')
  }

  ghost predicate Valid(db: Tables) {
    FreshIds(db) && ValidForest(db.comments) && ValidLedger(db)
  }

  lemma EmptyIsValid()
    ensures Valid(Tables(map[], map[], map[], map[], map[], map[], 1, 1, 1, 1))
  {
    EmptyForest();
  }

  lemma RowKeepsValid(db: Tables, c: NewComment, now: string)
    requires Valid(db) && MayAnswer(db.comments, c)
    ensures Valid(AfterCreate(db, c, now))
  {
    var db' := AfterCreate(db, c, now);
    assert db.nextComment !in db.comments;
    CreationKeepsForest(db.comments, db.nextComment, c, now);
    CreationKeepsLedger(db, db', OnComment, db.nextComment);
  }

  /** Nothing that is kept depends on users, but for their ids. */
  lemma UsersKeepValid(db: Tables, users: map<nat, User>, nextUser: Id)
    requires Valid(db) && forall u :: u in users ==> 0 < u < nextUser
    ensures Valid(db.(users := users, nextUser := nextUser))
  {
    var db' := db.(users := users, nextUser := nextUser);
    forall target, id: nat, c | TargetExists(db', target, id)
      ensures CounterOf(db', target, id, c) == CountFor(db'.votes, target, id, c)
    {
      assert TargetExists(db, target, id) && CounterOf(db', target, id, c) == CounterOf(db, target, id, c);
    }
  }

  lemma AccountKeepsValid(db: Tables, db': Tables, name: string, email: string, userId: nat)
    requires Valid(db) && IsAccountReady(db, db', name, email, userId)
    ensures Valid(db')
  {
    UsersKeepValid(db, db'.users, db'.nextUser);
  }

  /** Taking over a visitor's profile changes no id. */
  lemma ProfileKeepsValid(db: Tables, userId: nat, user: User)
    requires Valid(db) && userId in db.users
    ensures Valid(db.(users := db.users[userId := user]))
  {
    UsersKeepValid(db, db.users[userId := user], db.nextUser);
  }

  lemma AuthorKeepsValid(db: Tables, db': Tables, a: Author, userId: nat)
    requires Valid(db) && IsAuthorReady(db, db', a, userId)
    ensures Valid(db') && db'.comments == db.comments
  {
    match a.login
    case Token(_) =>
    case NoToken =>
      var db1 :| IsAccountReady(db, db1, a.name, a.email, userId)
        && db' == if a.authEnabled then db1 else WithProfile(db1, userId, a.name, a.email);
      AccountKeepsValid(db, db1, a.name, a.email, userId);
      if !a.authEnabled {
        ProfileKeepsValid(db1, userId, db1.users[userId].(name := a.name, email := a.email));
      }
  }

  lemma PageKeepsValid(db: Tables, key: string, title: string, siteName: string)
    requires Valid(db)
    ensures Valid(WithPage(db, key, title, siteName)) && WithPage(db, key, title, siteName).comments == db.comments
  {
    if ByKey(db.pages, key, siteName).Nothing? {
      CreatePageKeepsValid(db, key, title, siteName);
    }
  }

  lemma CreationKeepsValid(db: Tables, db': Tables, c: NewComment, a: Author, title: string, now: string)
    requires Valid(db) && MayAnswer(db.comments, c) && IsCreation(db, db', c, a, title, now)
    ensures Valid(db')
  {
    var db1, userId :| IsAuthorReady(db, db1, a, userId)
      && db' == AfterCreate(WithPage(db1, c.pageKey, title, c.siteName), c.(userId := userId), now);
    AuthorKeepsValid(db, db1, a, userId);
    PageKeepsValid(db1, c.pageKey, title, c.siteName);
    RowKeepsValid(WithPage(db1, c.pageKey, title, c.siteName), c.(userId := userId), now);
  }

  lemma EditKeepsValid(db: Tables, db': Tables, id: nat, e: Edit, now: string)
    requires Valid(db) && id in db.comments && IsEdit(db, db', id, e, now)
    requires KeepsThreadsTogether(db.comments, id, FirstNonEmpty(e.pageKey, db.comments[id].pageKey))
    ensures Valid(db')
  {
    var c := db.comments[id];
    var db1, userId :| IsEditorReady(db, db1, c, e, userId)
      && db1.comments == db.comments && db' == WithEdit(db1, id, e, userId, now);
    EditorKeepsValid(db, db1, c, e, userId);
    PageKeepsValid(db1, e.pageKey, "", e.siteName);
    EditedRowKeepsValid(WithEditPage(db1, c, e), id, Edited(c, e, userId, now));
  }

  lemma EditorKeepsValid(db: Tables, db': Tables, c: Comment, e: Edit, userId: nat)
    requires Valid(db) && IsEditorReady(db, db', c, e, userId)
    ensures Valid(db') && db'.comments == db.comments
  {
    if HasNoAccount(db.users, c, e) {
      UsersKeepValid(db, WithBlankAccount(db).users, db.nextUser + 1);
    } else {
      AccountKeepsValid(db, db', NickOf(db.users, c, e), EmailOf(db.users, c, e), userId);
    }
  }

  lemma EditedRowKeepsValid(db: Tables, id: nat, row: Comment)
    requires Valid(db) && id in db.comments && KeepsThreadsTogether(db.comments, id, row.pageKey)
    requires row.rid == db.comments[id].rid && row.rootId == db.comments[id].rootId
    requires row.voteUp == db.comments[id].voteUp && row.voteDown == db.comments[id].voteDown
    ensures Valid(db.(comments := db.comments[id := row]))
  {
    var db' := db.(comments := db.comments[id := row]);
    EditKeepsForest(db.comments, id, row);
    forall target, x: nat, c | TargetExists(db', target, x)
      ensures CounterOf(db', target, x, c) == CountFor(db'.votes, target, x, c)
    {
      assert TargetExists(db, target, x) && CounterOf(db', target, x, c) == CounterOf(db, target, x, c);
    }
  }

  lemma DelPageKeepsValid(db: Tables, id: nat)
    requires Valid(db) && id in db.pages && AnswersStay(db.comments, db.pages[id].key, db.pages[id].siteName)
    ensures Valid(AfterDelPage(db, id))
  {
    PageDeletionKeepsForest(db.comments, db.pages[id].key, db.pages[id].siteName);
    PageDeletionKeepsLedger(db, id);
  }

  lemma CreatePageKeepsValid(db: Tables, key: string, title: string, siteName: string)
    requires Valid(db)
    ensures Valid(AfterCreatePage(db, key, title, siteName))
  {
    assert db.nextPage !in db.pages;
    CreationKeepsLedger(db, AfterCreatePage(db, key, title, siteName), OnPage, db.nextPage);
  }

  lemma RemovalKeepsValid(db: Tables, S: set<nat>, users: map<nat, User>, identities: map<nat, AuthIdentity>)
    requires Valid(db) && S <= db.comments.Keys && users.Keys <= db.users.Keys
    ensures Valid(RemoveComments(db.(users := users, identities := identities), Closure(LinksOf(db.comments), S)))
  {
    SubtreeRemovalKeepsForest(db.comments, S);
    RemovalKeepsLedger(db.(users := users, identities := identities), Closure(LinksOf(db.comments), S));
  }

  /** The root column does not depend on counters or owners. */
  lemma SameLinksKeepForest(t: CommentTable, t': CommentTable)
    requires ValidForest(t) && t'.Keys == t.Keys
    requires forall c :: c in t ==>
               t'[c].rid == t[c].rid && t'[c].rootId == t[c].rootId && t'[c].pageKey == t[c].pageKey
    ensures ValidForest(t')
  {
    assert LinksOf(t') == LinksOf(t);
  }

  lemma VoteKeepsValid(db: Tables, b: Ballot, selected: Option<Choice>)
    requires Valid(db) && TargetExists(db, b.target, b.id)
    ensures Valid(AfterVote(db, b, selected))
  {
    VoteKeepsLedger(db, b, selected);
    VoteKeepsTargets(db, b, selected);
    VoteKeepsForest(db, b, selected);
  }

  lemma VoteKeepsForest(db: Tables, b: Ballot, selected: Option<Choice>)
    requires ValidForest(db.comments) && TargetExists(db, b.target, b.id)
    ensures ValidForest(AfterVote(db, b, selected).comments)
  {
    SameLinksKeepForest(db.comments, AfterVote(db, b, selected).comments);
  }

  /** Counters, like links, do not depend on page keys. */
  lemma UpdatePageKeepsValid(db: Tables, id: nat, key: string, title: string, adminOnly: bool)
    requires Valid(db) && id in db.pages
    ensures Valid(AfterPageUpdate(db, id, key, title, adminOnly))
  {
    var db' := AfterPageUpdate(db, id, key, title, adminOnly);
    RekeyKeepsForest(db.comments, db.pages[id].key, key);
    forall target, x: nat, c | TargetExists(db', target, x)
      ensures CounterOf(db', target, x, c) == CountFor(db'.votes, target, x, c)
    {
      assert TargetExists(db, target, x);
      assert CounterOf(db', target, x, c) == CounterOf(db, target, x, c);
    }
  }

  lemma MergeKeepsValid(db: Tables, db': Tables, email: string, name: string, targetEmail: string, target: nat)
    requires Valid(db) && IsMerge(db, db', email, name, targetEmail, target)
    ensures Valid(db')
  {
    var others := UsersWithEmail(db.users, email) - {target};
    ReassignKeepsForest(db.comments, others, target);
    ReassignKeepsLedger(db, others, target, db');
    MergeKeepsFreshIds(db, db', email, name, targetEmail, target);
  }

  lemma MergeKeepsFreshIds(db: Tables, db': Tables, email: string, name: string, targetEmail: string, target: nat)
    requires FreshIds(db) && IsMerge(db, db', email, name, targetEmail, target)
    ensures FreshIds(db')
  {
    assert db'.users.Keys <= db.users.Keys + {target};
    assert db'.comments.Keys == db.comments.Keys && db'.votes.Keys == db.votes.Keys;
  }

  lemma ImportKeepsValid(db: Tables, p: Params, rows: seq<Artran>)
    requires Valid(db) && NoneSkipped(p, rows) && BringsForest(p, rows)
    requires NonNegative(StoredRows(p, rows, db.nextComment))
    ensures Valid(AfterImport(db, p, rows))
  {
    ImportKeepsForest(db, p, rows);
    ImportKeepsLedger(db, p, rows);
    ImportKeepsFreshIds(db, p, rows);
  }

  lemma BallotKeepsValid(db: Tables, db': Tables, b: Ballot)
    requires Valid(db) && Step(db, CastVote(b), db')
    ensures Valid(db')
  {
    if TargetExists(db, b.target, b.id) {
      var held :| HoldsAmong(db.votes, b, held) && db' == AfterVote(db, b, Selected(b, held));
      VoteKeepsValid(db, b, Selected(b, held));
    }
  }

  lemma MergeRequestKeepsValid(db: Tables, db': Tables, email: string, userName: string)
    requires Valid(db)
    requires db' == db || exists target :: IsMerge(db, db', email, TrimSpace(userName), TrimSpace(email), target)
    ensures Valid(db')
  {
    if db' != db {
      var target :| IsMerge(db, db', email, TrimSpace(userName), TrimSpace(email), target);
      MergeKeepsValid(db, db', email, TrimSpace(userName), TrimSpace(email), target);
    }
  }

  lemma StepKeepsValid(db: Tables, r: Request, db': Tables)
    requires Valid(db) && IsSound(db, r) && Step(db, r, db')
    ensures Valid(db')
  {
    match r {
      case CreateComment(c, a, title, now) =>
        if IsAccepted(db, c, a) { CreationKeepsValid(db, db', c, a, title, now); }
      case UpdateComment(id, e, now) =>
        if id in db.comments && !e.IsRefused() { EditKeepsValid(db, db', id, e, now); }
      case CreatePage(key, title, siteName) =>
        CreatePageKeepsValid(db, key, title, siteName);
      case DeleteComment(id) =>
        if id in db.comments { RemovalKeepsValid(db, {id}, db.users, db.identities); }
      case DeleteUser(userId) =>
        RemovalKeepsValid(db, OwnedBy(db, userId), db.users - {userId}, IdentitiesWithout(db, userId));
      case DeletePage(id) =>
        if id in db.pages { DelPageKeepsValid(db, id); }
      case UpdatePage(id, key, title, adminOnly) =>
        if MayUpdatePage(db.pages, id, key) { UpdatePageKeepsValid(db, id, key, title, adminOnly); }
      case CastVote(b) =>
        BallotKeepsValid(db, db', b);
      case SyncVotes =>
        VoteSyncRepairs(db);
      case MergeAccounts(email, userName, _) =>
        MergeRequestKeepsValid(db, db', email, userName);
      case ImportRows(p, rows) =>
        if rows != [] { ImportKeepsValid(db, p, rows); }
    }
  }

  ghost predicate IsRun(run: seq<Tables>, requests: seq<Request>) {
    && |run| == |requests| + 1
    && Valid(run[0])
    && forall i :: 0 <= i < |requests| ==> IsSoundStep(run[i], requests[i], run[i + 1])
  }

  /** In every state of every run parents exist, nothing is below itself, the root column agrees with
      FindCommentRootID, answers are on the page of what they answer, and the ledger is right. What the root
      column means then is in `RootColumnInEveryState` and `ListingIsRootColumn`. */
  lemma {:induction false} EveryStateIsValid(run: seq<Tables>, requests: seq<Request>, i: nat)
    requires IsRun(run, requests) && i < |run|
    ensures Valid(run[i])
    decreases i
  {
    if i > 0 {
      EveryStateIsValid(run, requests, i - 1);
      assert IsSoundStep(run[i - 1], requests[i - 1], run[i - 1 + 1]);
      StepKeepsValid(run[i - 1], requests[i - 1], run[i]);
    }
  }

  /** In every state of a run the root column is 0 exactly on roots and otherwise names a root, and every
      counter is the number of its vote rows. */
  lemma RootColumnInEveryState(run: seq<Tables>, requests: seq<Request>, i: nat, x: nat)
    requires IsRun(run, requests) && i < |run| && x in run[i].comments
    ensures var t := run[i].comments;
            && (t[x].rootId == 0 <==> t[x].rid == 0)
            && (t[x].rid != 0 ==> t[x].rootId in t && t[t[x].rootId].rid == 0 && Below(LinksOf(t), x, t[x].rootId))
    ensures run[i].comments[x].voteUp == CountFor(run[i].votes, OnComment, x, ThumbUp)
    ensures run[i].comments[x].voteDown == CountFor(run[i].votes, OnComment, x, ThumbDown)
  {
    EveryStateIsValid(run, requests, i);
    var t := run[i].comments;
    RootColumnNamesRoots(t, x);
    if t[x].rid != 0 {
      assert t[x].rootId in LinksOf(t) && LinksOf(t)[t[x].rootId] == 0 && x in LinksOf(t);
      RootColumnOf(LinksOf(t), x, t[x].rootId);
    }
    assert TargetExists(run[i], OnComment, x);
    assert CounterOf(run[i], OnComment, x, ThumbUp) == t[x].voteUp;
    assert CounterOf(run[i], OnComment, x, ThumbDown) == t[x].voteDown;
  }

  /** In no state of a run would synchronising the counters change anything. */
  lemma SyncNeverNeeded(run: seq<Tables>, requests: seq<Request>, i: nat)
    requires IsRun(run, requests) && i < |run|
    ensures AfterVoteSync(run[i]) == run[i]
  {
    EveryStateIsValid(run, requests, i);
    VoteSyncRepairs(run[i]);
  }

  /** A depth-first listing of a thread, taken in any state of a run, is the set of rows whose root
      column names that thread. */
  lemma ListingIsRootColumn(run: seq<Tables>, requests: seq<Request>, i: nat, r: nat, listing: seq<nat>)
    requires IsRun(run, requests) && i < |run|
    requires r in run[i].comments && run[i].comments[r].rid == 0 && IsDepthFirst(LinksOf(run[i].comments), r, listing)
    ensures NoDup(listing)
    ensures forall x :: x in listing <==> x in run[i].comments && run[i].comments[x].rootId == r
  {
    EveryStateIsValid(run, requests, i);
    RootColumnIsDescent(run[i].comments, r);
    DepthFirstIsDescendants(LinksOf(run[i].comments), r, listing);
    assert forall x :: x in listing <==> x in Elems(listing);
  }
}
