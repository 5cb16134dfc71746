/** The data access object (cache switched off) and the handlers that change comments, votes and
    users through it. Every method updates the tables in place, row by row or statement by statement;
    its contract gives the tables it leaves in terms of the specification modules. A query without
    ORDER BY returns its rows in some unspecified order. */
module Database {
  import opened ParentLinks
  import opened DepthFirst
  import opened Options
  import opened Entity
  import opened Text
  import opened CommentForest
  import opened VoteLedger
  import opened AccountMerge
  import opened PageRename
  import opened PageDeletion
  import opened Authoring
  import opened Least
  import opened PageCache

  datatype MergeResult =
    | NoEmail
    | NoAccount
    | NoTarget
    | Merged(target: nat, comments: nat, notifies: nat, votes: nat, deletedUsers: nat)

  /** The rows of a query, each exactly once. */
  method Rows(s: set<nat>) returns (ids: seq<nat>)
    ensures NoDup(ids) && Elems(ids) == s
  {
    ids := [];
    var rest := s;
    while rest != {}
      invariant NoDup(ids) && Elems(ids) == s - rest && rest <= s
      decreases rest
    {
      var id :| id in rest;
      assert Elems(ids + [id]) == Elems(ids) + {id};
      ids := ids + [id];
      rest := rest - {id};
    }
  }

  lemma ElemsSnoc(ids: seq<nat>, i: nat)
    requires i < |ids| && NoDup(ids)
    ensures Elems(ids[..i + 1]) == Elems(ids[..i]) + {ids[i]}
    ensures ids[i] !in Elems(ids[..i])
    ensures Elems(ids[..|ids|]) == Elems(ids)
  {
    assert ids[..i + 1] == ids[..i] + [ids[i]];
    assert ids[..|ids|] == ids;
  }

  lemma NextChild(l: Links, p: nat, children: seq<nat>, i: nat)
    requires p != 0 && !Below(l, p, p) && Elems(children) == Children(l, p) && i < |children|
    ensures children[i] != 0 && !Below(l, children[i], children[i])
    ensures Descendants(l, children[i]) < Descendants(l, p)
  {
    assert children[i] in Elems(children);
    ChildIsSmaller(l, p, children[i]);
  }

  lemma NextIsNew(cs: set<nat>, children: seq<nat>, i: nat)
    requires NoDup(children) && Elems(children) == cs && i < |children|
    ensures Elems(children[..i]) <= cs && children[i] in cs - Elems(children[..i])
    ensures Elems(children[..i + 1]) == Elems(children[..i]) + {children[i]}
  {
    ElemsSnoc(children, i);
    assert children[i] in Elems(children);
    assert forall x :: x in Elems(children[..i]) ==> x in Elems(children);
  }

  /** One more child with everything below it. */
  lemma ListNext(l: Links, p: nat, children: seq<nat>, i: nat, listed: seq<nat>, sub: seq<nat>)
    requires p != 0 && !Below(l, p, p) && NoDup(children) && Elems(children) == Children(l, p) && i < |children|
    requires Lists(l, p, Elems(children[..i]), listed) && IsDepthFirst(l, children[i], sub)
    ensures Lists(l, p, Elems(children[..i + 1]), listed + [children[i]] + sub)
  {
    NextIsNew(Children(l, p), children, i);
    NextChild(l, p, children, i);
    NextSubtree(l, p, Elems(children[..i]), listed, children[i], sub);
  }

  /** What has been listed after one more child, in the slice that already held `source`. */
  lemma NextListed(l: Links, p: nat, children: seq<nat>, i: nat, source: seq<nat>, listed: seq<nat>, deeper: seq<nat>)
    returns (listed': seq<nat>)
    requires p != 0 && !Below(l, p, p) && NoDup(children) && Elems(children) == Children(l, p) && i < |children|
    requires Lists(l, p, Elems(children[..i]), listed)
    requires source + listed + [children[i]] <= deeper && IsDepthFirst(l, children[i], deeper[|source + listed| + 1..])
    ensures Lists(l, p, Elems(children[..i + 1]), listed') && deeper == source + listed'
  {
    var sub := deeper[|source + listed| + 1..];
    ListNext(l, p, children, i, listed, sub);
    listed' := listed + [children[i]] + sub;
    Appended(source, listed, children[i], sub, deeper);
  }

  lemma Appended(source: seq<nat>, listed: seq<nat>, child: nat, sub: seq<nat>, deeper: seq<nat>)
    requires source + listed + [child] <= deeper && sub == deeper[|source + listed| + 1..]
    ensures deeper == source + (listed + [child] + sub)
  {
    assert deeper == source + listed + [child] + sub;
  }

  /** Halfway through a recount: the first i of the ids have been recounted. */
  ghost predicate SyncedComments(votes: map<nat, Vote>, before: CommentTable, now: CommentTable, ids: seq<nat>,
                                 i: nat) {
    && i <= |ids| && NoDup(ids) && now.Keys == before.Keys
    && forall c :: c in now ==> now[c] == if c in ids[..i] then RecountedComment(votes, c, before[c]) else before[c]
  }

  lemma OneMoreSynced(votes: map<nat, Vote>, before: CommentTable, now: CommentTable, ids: seq<nat>, i: nat)
    requires SyncedComments(votes, before, now, ids, i) && i < |ids| && ids[i] in now
    ensures now[ids[i]] == before[ids[i]]
    ensures SyncedComments(votes, before, now[ids[i] := RecountedComment(votes, ids[i], now[ids[i]])], ids, i + 1)
  {
    ElemsSnoc(ids, i);
    assert ids[..i + 1] == ids[..i] + [ids[i]];
  }

  ghost predicate RekeyedSoFar(before: CommentTable, now: CommentTable, ids: seq<nat>, i: nat, key: string) {
    && i <= |ids| && NoDup(ids) && now.Keys == before.Keys
    && forall c :: c in now ==> now[c] == if c in ids[..i] then before[c].(pageKey := key) else before[c]
  }

  lemma OneMoreRekeyed(before: CommentTable, now: CommentTable, ids: seq<nat>, i: nat, key: string)
    requires RekeyedSoFar(before, now, ids, i, key) && i < |ids| && ids[i] in now
    ensures RekeyedSoFar(before, now[ids[i] := now[ids[i]].(pageKey := key)], ids, i + 1, key)
  {
    ElemsSnoc(ids, i);
    assert ids[..i + 1] == ids[..i] + [ids[i]];
  }

  ghost predicate SyncedPages(votes: map<nat, Vote>, before: map<nat, Page>, now: map<nat, Page>, ids: seq<nat>,
                              i: nat) {
    && i <= |ids| && NoDup(ids) && now.Keys == before.Keys
    && forall p :: p in now ==> now[p] == if p in ids[..i] then RecountedPage(votes, p, before[p]) else before[p]
  }

  lemma OneMorePageSynced(votes: map<nat, Vote>, before: map<nat, Page>, now: map<nat, Page>, ids: seq<nat>, i: nat)
    requires SyncedPages(votes, before, now, ids, i) && i < |ids| && ids[i] in now
    ensures now[ids[i]] == before[ids[i]]
    ensures SyncedPages(votes, before, now[ids[i] := RecountedPage(votes, ids[i], now[ids[i]])], ids, i + 1)
  {
    ElemsSnoc(ids, i);
    assert ids[..i + 1] == ids[..i] + [ids[i]];
  }

  class Dao {
    var comments: CommentTable
    var pages: map<nat, Page>
    var users: map<nat, User>
    var identities: map<nat, AuthIdentity>
    var notifies: map<nat, Notify>
    var votes: map<nat, Vote>
    var nextComment: Id
    var nextPage: Id
    var nextUser: Id
    var nextVote: Id

    ghost function View(): Tables
      reads this
    {
      Tables(comments, pages, users, identities, notifies, votes, nextComment, nextPage, nextUser, nextVote)
    }

    ghost function Links(): Links
      reads this
    {
      LinksOf(comments)
    }

    constructor ()
      ensures View() == Tables(map[], map[], map[], map[], map[], map[], 1, 1, 1, 1)
    {
      comments, pages, users, identities, notifies, votes := map[], map[], map[], map[], map[], map[];
      nextComment, nextPage, nextUser, nextVote := 1, 1, 1, 1;
    }

    // -------------------------------------------------------------------------------------------
    // Lookups
    // -------------------------------------------------------------------------------------------

    /** Climbs from rid to the root of its thread; the guard stops the climb on a cycle. */
    method FindCommentRootID(rid: nat) returns (rootId: nat)
      ensures rootId == Walk(Links(), rid)
      ensures rid == 0 ==> rootId == 0
      ensures rid != 0 ==> IsRootOf(Links(), rid, rootId)
    {
      var visited: set<nat> := {};
      rootId := rid;
      while rootId != 0 && rootId !in visited
        invariant WalkFrom(Links(), rootId, visited) == Walk(Links(), rid)
        invariant rid != 0 ==> rootId != 0
        invariant visited <= comments.Keys
        decreases comments.Keys - visited
      {
        visited := visited + {rootId};
        var parent := if rootId in comments then comments[rootId].rid else 0;
        if parent == 0 {
          break;
        }
        rootId := parent;
      }
      if rid != 0 {
        WalkIsRoot(Links(), rid, rootId);
      }
    }

    method FindCommentChildrenShallow(parentID: nat) returns (children: seq<nat>)
      requires parentID != 0
      ensures NoDup(children) && Elems(children) == Children(Links(), parentID)
    {
      children := Rows(set c | c in comments && comments[c].rid == parentID);
    }

    /** All answers below a comment, depth first. */
    method FindCommentChildren(parentID: nat) returns (all: seq<nat>)
      requires parentID != 0 && !Below(Links(), parentID, parentID)
      ensures IsDepthFirst(Links(), parentID, all)
      ensures NoDup(all) && Elems(all) == Descendants(Links(), parentID)
    {
      all := AppendChildren([], parentID);
      DepthFirstIsDescendants(Links(), parentID, all);
    }

    method AppendChildren(source: seq<nat>, parentID: nat) returns (result: seq<nat>)
      requires parentID != 0 && !Below(Links(), parentID, parentID)
      ensures source <= result && IsDepthFirst(Links(), parentID, result[|source|..])
      decreases Descendants(Links(), parentID)
    {
      var children := FindCommentChildrenShallow(parentID);
      ghost var l, listed: seq<nat> := Links(), [];
      result := source;
      for i := 0 to |children|
        invariant result == source + listed
        invariant Lists(l, parentID, Elems(children[..i]), listed)
      {
        var child := children[i];
        NextChild(l, parentID, children, i);
        var deeper := AppendChildren(result + [child], child);
        listed := NextListed(l, parentID, children, i, source, listed, deeper);
        result := deeper;
      }
      assert children[..|children|] == children && result[|source|..] == listed;
    }

    // -------------------------------------------------------------------------------------------
    // Deletion
    // -------------------------------------------------------------------------------------------

    /** Deletes one comment with its notifies and its comment votes. */
    method DelComment(id: nat)
      modifies this
      ensures View() == RemoveComments(old(View()), {id})
      ensures forall n :: n in notifies <==> n in old(notifies) && old(notifies)[n].commentId != id
      ensures forall v :: v in votes <==>
                v in old(votes) && !(old(votes)[v].target == OnComment && old(votes)[v].targetId == id)
      ensures forall x :: x in comments <==> x in old(comments) && x != id
    {
      notifies := map n | n in notifies && notifies[n].commentId != id :: notifies[n];
      votes := map v | v in votes && !(votes[v].targetId == id && votes[v].target == OnComment) :: votes[v];
      comments := comments - {id};
    }

    method DelCommentChildren(parentID: nat)
      requires parentID != 0 && !Below(Links(), parentID, parentID)
      modifies this
      ensures View() == RemoveComments(old(View()), Descendants(old(Links()), parentID))
    {
      var children := FindCommentChildren(parentID);
      DelComments(children);
    }

    /** Deletes a comment row and then everything below it. No precondition on the shape of the table
        is needed, and the descent always ends: see ParentLinks.RowThenDescendants. */
    method DelCommentTree(id: nat)
      requires id != 0
      modifies this
      ensures View() == RemoveComments(old(View()), {id} + Closure(old(Links()), {id}))
    {
      RowThenDescendants(Links(), id);
      LinksWithout(comments, {id});
      DelComment(id);
      DelCommentChildren(id);
      RemoveTwice(old(View()), {id}, Descendants(old(Links()) - {id}, id));
    }

    /** The handler that deletes a comment. */
    method CommentDelete(id: nat) returns (found: bool)
      modifies this
      ensures found <==> id in old(comments)
      ensures View() == AfterDelComment(old(View()), id)
    {
      found := id in comments;
      if found {
        ClosureIsClosed(Links(), {id});
        assert {id} + Closure(Links(), {id}) == Closure(Links(), {id});
        DelCommentTree(id);
      }
    }

    /** Deletes a user, every comment of that user with everything below it, and the identities. The
        list of comments is read once; rows on it may be gone by the time their turn comes. */
    method DelUser(userId: nat)
      modifies this
      ensures View() == AfterDelUser(old(View()), userId)
    {
      users := users - {userId};
      var owned := Rows(set c | c in comments && comments[c].userId == userId);
      assert Elems(owned) == OwnedBy(old(View()), userId);
      DelCommentTrees(owned);
      identities := map a | a in identities && identities[a].userId != userId :: identities[a];
    }

    method DelCommentTrees(ids: seq<nat>)
      requires NoDup(ids) && Elems(ids) <= comments.Keys
      modifies this
      ensures View() == RemoveComments(old(View()), Closure(old(Links()), Elems(ids)))
    {
      ghost var db := View();
      assert Closure(LinksOf(db.comments), {}) == {};
      RemoveNothing(db);
      for i := 0 to |ids|
        invariant View() == RemoveComments(db, Closure(LinksOf(db.comments), Elems(ids[..i])))
      {
        NextTree(db, ids, i);
        DelCommentTree(ids[i]);
      }
      assert ids[..|ids|] == ids;
    }

    // -------------------------------------------------------------------------------------------
    // Creation
    // -------------------------------------------------------------------------------------------

    /** The account of whoever writes; None if there is none to be had. */
    method ResolveAuthor(a: Author) returns (userId: Option<nat>)
      requires FreshIds(View())
      modifies this`users, this`nextUser
      ensures userId.None? <==> a.IsRefused(old(users))
      ensures userId.None? ==> View() == old(View())
      ensures userId.Some? ==> IsAuthorReady(old(View()), View(), a, userId.value)
    {
      match a.login
      case Token(id) =>
        userId := if id in users then Some(id) else None;
      case BadToken =>
        userId := None;
      case NoToken =>
        if a.authEnabled && !a.allowsVisitors {
          return None;
        }
        userId := FindCreateUser(a.name, a.email, a.isEmail);
        if userId.Some? {
          assert IsAccountReady(old(View()), View(), a.name, a.email, userId.value);
          if !a.authEnabled {
            users := users[userId.value := users[userId.value].(name := a.name, email := a.email)];
          }
        }
    }

    method FindPage(key: string, siteName: string) returns (page: Lookup)
      ensures page == ByKey(pages, key, siteName)
    {
      var ids := set id | id in pages && Matches(pages[id], key, siteName);
      if ids == {} {
        return Nothing;
      }
      page := Found(First(ids), pages[First(ids)]);
    }

    /** Looks a page up, and creates it if it does not exist. */
    method FindCreatePage(key: string, title: string, siteName: string)
      modifies this`pages, this`nextPage
      ensures View() == WithPage(old(View()), key, title, siteName)
      ensures key != "" && siteName != "" ==> HasPage(pages, key, siteName)
    {
      if key != "" && siteName != "" {
        PageIsThere(View(), key, title, siteName);
      }
      var page := FindPage(key, siteName);
      if page.Nothing? {
        var _ := CreatePage(key, title, siteName);
      }
    }

    method IsAllowComment(c: NewComment, a: Author) returns (ok: bool)
      ensures ok <==> MayWrite(users, pages, c, a)
    {
      var page := FindPage(c.pageKey, c.siteName);
      var admins := set u | u in users && users[u].isAdmin;
      var isAdminUser := exists u :: u in admins && IsAccount(users, u, a.name, a.email);
      if isAdminUser || (page.Found? && page.page.adminOnly) {
        if !IsAdmin(users, a.login) {
          return false;
        }
      }
      ok := a.login.NoToken? || IsLoggedIn(users, a.login);
    }

    /** The handler that creates a comment: checks on the request, the page and the parent, then the account
        and the page it needs, then the row with its root. */
    method CommentCreate(c: NewComment, a: Author, title: string, now: string) returns (r: CreateOutcome)
      requires FreshIds(View())
      modifies this
      ensures r.InvalidEmail? <==> !a.isEmail(a.email)
      ensures r.NotAllowed? <==> a.isEmail(a.email) && !MayWrite(old(users), old(pages), c, a)
      ensures r.ParentNotFound? <==> IsWelcome(old(View()), c, a) && c.rid != 0 && c.rid !in old(comments)
      ensures r.PageKeyMismatch? <==>
        && IsWelcome(old(View()), c, a)
        && c.rid != 0 && c.rid in old(comments) && old(comments)[c.rid].pageKey != c.pageKey
      ensures r.AuthorRefused? <==>
        IsWelcome(old(View()), c, a) && MayAnswer(old(comments), c) && a.IsRefused(old(users))
      ensures r.Created? <==> IsAccepted(old(View()), c, a)
      ensures !r.Created? ==> View() == old(View())
      ensures r.Created? ==> r.id == old(nextComment) && IsCreation(old(View()), View(), c, a, title, now)
    {
      if !a.isEmail(a.email) {
        return InvalidEmail;
      }
      var isAllowed := IsAllowComment(c, a);
      if !isAllowed {
        return NotAllowed;
      }
      if c.rid != 0 {
        if c.rid !in comments {
          return ParentNotFound;
        }
        if comments[c.rid].pageKey != c.pageKey {
          return PageKeyMismatch;
        }
        if !comments[c.rid].IsAllowReply() {
          return ReplyNotAllowed;
        }
      }
      var userId := ResolveAuthor(a);
      if userId.None? {
        return AuthorRefused;
      }
      var id := SaveComment(c.(userId := userId.value), title, now);
      r := Created(id);
    }

    /** The page of a comment, and its row. */
    method SaveComment(c: NewComment, title: string, now: string) returns (id: nat)
      modifies this`pages, this`nextPage, this`comments, this`nextComment
      ensures id == old(nextComment)
      ensures View() == AfterCreate(WithPage(old(View()), c.pageKey, title, c.siteName), c, now)
    {
      FindCreatePage(c.pageKey, title, c.siteName);
      var rootId := FindCommentRootID(c.rid);
      id := nextComment;
      comments := comments[id := NewRow(c, rootId, now)];
      nextComment := nextComment + 1;
    }

    method CreatePage(key: string, title: string, siteName: string) returns (id: nat)
      modifies this`pages, this`nextPage
      ensures id == old(nextPage) && View() == AfterCreatePage(old(View()), key, title, siteName)
    {
      id := nextPage;
      pages := pages[id := Page(key, siteName, title, false, 0, 0, 0)];
      nextPage := nextPage + 1;
    }

    /** The handler that edits a comment. */
    method CommentUpdate(id: nat, e: Edit, now: string) returns (found: bool)
      requires FreshIds(View())
      modifies this
      ensures found <==> id in old(comments)
      ensures !found || e.IsRefused() ==> View() == old(View())
      ensures found && !e.IsRefused() ==> IsEdit(old(View()), View(), id, e, now)
    {
      found := id in comments;
      if !found || (e.email != "" && !e.isEmail(e.email)) || (e.link != "" && !e.isLink) {
        return;
      }
      var userId := ResolveEditor(comments[id], e);
      SaveEdit(id, e, userId, now);
    }

    /** The page an edit names, if it is another one, and the row. */
    method SaveEdit(id: nat, e: Edit, userId: nat, now: string)
      requires id in comments
      modifies this`pages, this`nextPage, this`comments
      ensures View() == WithEdit(old(View()), id, e, userId, now)
    {
      var c := comments[id];
      if e.pageKey != "" && e.pageKey != c.pageKey {
        FindCreatePage(e.pageKey, "", e.siteName);
      }
      comments := comments[id := Edited(c, e, userId, now)];
    }

    /** The account an edit names. Without one the zero user is saved if there is a link to save. */
    method ResolveEditor(c: Comment, e: Edit) returns (userId: nat)
      requires FreshIds(View())
      modifies this`users, this`nextUser
      ensures IsEditorReady(old(View()), View(), c, e, userId)
    {
      var account := FindCreateUser(NickOf(users, c, e), EmailOf(users, c, e), e.isEmail);
      userId := if account.Some? then account.value else c.userId;
      if account.None? && e.link != "" {
        users := users[nextUser := User("", "", false)];
        nextUser := nextUser + 1;
      }
    }

    /** Deletes a page, then its comments one by one, then its votes. */
    method DelPage(id: nat)
      requires id in pages
      modifies this
      ensures View() == AfterDelPage(old(View()), id)
    {
      var key, site := pages[id].key, pages[id].siteName;
      pages := pages - {id};
      ghost var db := View();
      var ids := Rows(set x | x in comments && comments[x].pageKey == key && comments[x].siteName == site);
      assert Elems(ids) == CommentsOn(comments, key, site);
      DelComments(ids);
      votes := map v | v in votes && !(votes[v].target == OnPage && votes[v].targetId == id) :: votes[v];
    }

    method DelComments(ids: seq<nat>)
      requires NoDup(ids)
      modifies this
      ensures View() == RemoveComments(old(View()), Elems(ids))
    {
      RemoveNothing(View());
      for i := 0 to |ids|
        invariant View() == RemoveComments(old(View()), Elems(ids[..i]))
      {
        ElemsSnoc(ids, i);
        RemoveTwice(old(View()), Elems(ids[..i]), {ids[i]});
        DelComment(ids[i]);
      }
      assert ids[..|ids|] == ids;
    }

    /** The handler that edits a page, its key included. */
    method PageUpdate(id: nat, key: string, title: string, adminOnly: bool) returns (ok: bool)
      modifies this`comments, this`pages
      ensures ok <==> id in old(pages)
                      && (key == old(pages)[id].key || ByKey(old(pages), key, old(pages)[id].siteName).Nothing?)
      ensures View() == if ok then AfterPageUpdate(old(View()), id, key, title, adminOnly) else old(View())
    {
      ok := false;
      if id !in pages {
        return;
      }
      var page := pages[id];
      if key != page.key {
        var other := FindPage(key, page.siteName);
        if other.Found? {
          return;
        }
        MoveCommentsToKey(page.key, key);
      }
      assert Rekeyed(old(comments), key, key) == old(comments);
      pages := pages[id := page.(key := key, title := title, adminOnly := adminOnly)];
      ok := true;
    }

    /** The part of editing a page that moves its comments to its new key, row by row. */
    method MoveCommentsToKey(oldKey: string, newKey: string)
      modifies this`comments
      ensures comments == Rekeyed(old(comments), oldKey, newKey)
    {
      var ids := Rows(set x | x in comments && comments[x].pageKey == oldKey);
      for i := 0 to |ids|
        invariant RekeyedSoFar(old(comments), comments, ids, i, newKey)
      {
        assert ids[i] in Elems(ids);
        OneMoreRekeyed(old(comments), comments, ids, i, newKey);
        comments := comments[ids[i] := comments[ids[i]].(pageKey := newKey)];
      }
      forall x | x in comments
        ensures comments[x] == MovedTo(old(comments)[x], oldKey, newKey)
      {
        assert x in ids[..|ids|] <==> x in Elems(ids);
      }
    }

    // -------------------------------------------------------------------------------------------
    // Votes
    // -------------------------------------------------------------------------------------------

    method GetVoteNum(targetID: nat, target: Target, choice: Choice) returns (num: nat)
      ensures num == CountFor(votes, target, targetID, choice)
    {
      var rows := set v |
        v in votes && votes[v].target == target && votes[v].targetId == targetID && votes[v].choice == choice;
      assert rows == VotesFor(votes, target, targetID, choice);
      num := |rows|;
    }

    /** Deletes the existing votes of the address and inserts the choice, unless it repeats the first
        of them. */
    method ReplaceVotes(b: Ballot) returns (selected: Option<Choice>)
      modifies this`votes, this`nextVote
      ensures exists held :: HoldsAmong(old(votes), b, held) && selected == Selected(b, held)
      ensures votes == RowsAfterVote(old(votes), b, selected, old(nextVote))
      ensures nextVote == old(nextVote) + if selected.Some? then 1 else 0
    {
      var existing := set v |
        v in votes && votes[v].target == b.target && votes[v].targetId == b.id && votes[v].ip == b.ip;
      assert existing == VotesOf(votes, b.target, b.id, b.ip);
      selected := Some(b.choice);
      ghost var held := None;
      if existing != {} {
        var first :| first in existing;
        held := Some(votes[first].choice);
        if votes[first].choice == b.choice {
          selected := None;
        }
        votes := votes - existing;
      } else {
        assert votes - {} == votes;
      }
      assert HoldsAmong(old(votes), b, held) && selected == Selected(b, held);
      if selected.Some? {
        votes := votes[nextVote := Vote(b.target, b.id, selected.value, b.userId, b.ip)];
        nextVote := nextVote + 1;
      }
    }

    /** One vote request on a comment or a page. Both counters of the target are recounted from the
        rows, and the counts and the choice now held are reported. */
    method UpdateVote(b: Ballot) returns (found: bool, up: nat, down: nat, selected: Option<Choice>)
      modifies this
      ensures found <==> TargetExists(old(View()), b.target, b.id)
      ensures !found ==> View() == old(View())
      ensures found ==>
        && (exists held :: HoldsAmong(old(votes), b, held) && selected == Selected(b, held))
        && View() == AfterVote(old(View()), b, selected)
        && up == CountFor(votes, b.target, b.id, ThumbUp) && down == CountFor(votes, b.target, b.id, ThumbDown)
    {
      up, down, selected := 0, 0, None;
      found := match b.target case OnComment => b.id in comments case OnPage => b.id in pages;
      if !found {
        return;
      }
      selected := ReplaceVotes(b);
      up := GetVoteNum(b.id, b.target, ThumbUp);
      down := GetVoteNum(b.id, b.target, ThumbDown);
      match b.target {
        case OnComment => comments := comments[b.id := comments[b.id].(voteUp := up, voteDown := down)];
        case OnPage => pages := pages[b.id := pages[b.id].(voteUp := up, voteDown := down)];
      }
    }

    /** Recomputes every counter from the vote rows. */
    method VoteSync()
      modifies this
      ensures View() == AfterVoteSync(old(View()))
    {
      VoteSyncComments();
      VoteSyncPages();
    }

    method VoteSyncComments()
      modifies this`comments
      ensures comments == AfterVoteSync(old(View())).comments
    {
      var ids := Rows(comments.Keys);
      for i := 0 to |ids|
        invariant SyncedComments(votes, old(comments), comments, ids, i)
      {
        var id := ids[i];
        assert id in Elems(ids);
        var up := GetVoteNum(id, OnComment, ThumbUp);
        var down := GetVoteNum(id, OnComment, ThumbDown);
        OneMoreSynced(votes, old(comments), comments, ids, i);
        comments := comments[id := comments[id].(voteUp := up, voteDown := down)];
      }
      assert forall c :: c in comments ==> c in Elems(ids);
    }

    method VoteSyncPages()
      modifies this`pages
      ensures pages == AfterVoteSync(old(View())).pages
    {
      var ids := Rows(pages.Keys);
      for i := 0 to |ids|
        invariant SyncedPages(votes, old(pages), pages, ids, i)
      {
        var id := ids[i];
        assert id in Elems(ids);
        var up := GetVoteNum(id, OnPage, ThumbUp);
        var down := GetVoteNum(id, OnPage, ThumbDown);
        OneMorePageSynced(votes, old(pages), pages, ids, i);
        pages := pages[id := pages[id].(voteUp := up, voteDown := down)];
      }
      assert forall p :: p in pages ==> p in Elems(ids);
    }

    // -------------------------------------------------------------------------------------------
    // Accounts
    // -------------------------------------------------------------------------------------------

    method FindCreateUser(name: string, email: string, isEmail: string -> bool) returns (id: Option<nat>)
      requires FreshIds(View())
      modifies this`users, this`nextUser
      ensures View() == old(View()).(users := users, nextUser := nextUser) && FreshIds(View())
      ensures id.None? <==> TrimSpace(name) == "" || TrimSpace(email) == "" || !isEmail(TrimSpace(email))
      ensures id.None? ==> View() == old(View())
      ensures id.Some? ==> IsFoundOrCreated(old(users), users, TrimSpace(name), TrimSpace(email), id.value)
      ensures id.Some? && id.value in old(users) ==> View() == old(View())
      ensures id.Some? && id.value !in old(users) ==> id.value == old(nextUser) && nextUser == id.value + 1
    {
      var n, e := TrimSpace(name), TrimSpace(email);
      if n == "" || e == "" || !isEmail(e) {
        return None;
      }
      var matches := set u | u in users && Lower(users[u].name) == Lower(n) && Lower(users[u].email) == Lower(e);
      if matches != {} {
        var u :| u in matches;
        assert users == users[u := users[u]];
        return Some(u);
      }
      id := Some(nextUser);
      assert forall u :: IsAccount(users, u, n, e) ==> u in matches;
      users := users[nextUser := User(n, e, false)];
      nextUser := nextUser + 1;
    }

    method MoveCommentsOf(u: nat, target: nat) returns (count: nat)
      modifies this`comments
      ensures comments == MoveComments(old(comments), {u}, target) && count == |CommentsOf(old(comments), {u})|
    {
      var own := set x | x in comments && comments[x].userId == u;
      assert own == CommentsOf(comments, {u});
      count := |own|;
      comments := map x | x in comments :: if x in own then comments[x].(userId := target) else comments[x];
    }

    method MoveNotifiesOf(u: nat, target: nat) returns (count: nat)
      modifies this`notifies
      ensures notifies == MoveNotifies(old(notifies), {u}, target) && count == |NotifiesOf(old(notifies), {u})|
    {
      var own := set x | x in notifies && notifies[x].userId == u;
      assert own == NotifiesOf(notifies, {u});
      count := |own|;
      notifies := map x | x in notifies :: if x in own then notifies[x].(userId := target) else notifies[x];
    }

    method MoveVotesOf(u: nat, target: nat) returns (count: nat)
      modifies this`votes
      ensures votes == MoveVotes(old(votes), {u}, target) && count == |BallotsOf(old(votes), {u})|
    {
      var own := set x | x in votes && votes[x].userId == u;
      assert own == BallotsOf(votes, {u});
      count := |own|;
      votes := map x | x in votes :: if x in own then votes[x].(userId := target) else votes[x];
    }

    method MoveIdentitiesOf(u: nat, target: nat)
      modifies this`identities
      ensures identities == MoveIdentities(old(identities), {u}, target)
    {
      identities := map x | x in identities ::
        if identities[x].userId == u then AuthIdentity(target) else identities[x];
    }

    /** Moves the rows of one account to the target, table by table, counting them. */
    method MoveRowsOf(u: nat, target: nat) returns (c: nat, n: nat, v: nat)
      modifies this`comments, this`notifies, this`votes, this`identities
      ensures View() == Reassigned(old(View()), {u}, target)
      ensures AreCounts(old(View()), {u}, c, n, v)
    {
      c := MoveCommentsOf(u, target);
      n := MoveNotifiesOf(u, target);
      v := MoveVotesOf(u, target);
      MoveIdentitiesOf(u, target);
    }

    method MoveAllRows(others: seq<nat>, target: nat) returns (c: nat, n: nat, v: nat)
      requires NoDup(others) && target !in others
      modifies this`comments, this`notifies, this`votes, this`identities
      ensures View() == Reassigned(old(View()), Elems(others), target)
      ensures AreCounts(old(View()), Elems(others), c, n, v)
    {
      c, n, v := 0, 0, 0;
      ghost var db := View();
      assert Elems(others[..0]) == {};
      ReassignNothing(db, target);
      for i := 0 to |others|
        invariant View() == Reassigned(db, Elems(others[..i]), target)
        invariant AreCounts(db, Elems(others[..i]), c, n, v)
      {
        ghost var now := View();
        var c', n', v' := MoveRowsOf(others[i], target);
        MoveNext(db, others, i, target, now, c, n, v, c', n', v');
        c, n, v := c + c', n + n', v + v';
      }
      assert others[..|others|] == others;
    }

    /** Deletes users that own nothing any more. */
    method DelUsers(others: seq<nat>, ghost db: Tables, target: nat)
      requires NoDup(others) && target !in others
      requires View() == Reassigned(db, Elems(others), target)
      modifies this
      ensures View() == Reassigned(db, Elems(others), target).(users := db.users - Elems(others))
    {
      assert db.users - {} == db.users;
      for i := 0 to |others|
        invariant View() == Reassigned(db, Elems(others), target).(users := db.users - Elems(others[..i]))
      {
        ElemsSnoc(others, i);
        assert others[i] in Elems(others);
        CascadeIsEmpty(db.(users := db.users - Elems(others[..i])), Elems(others), target, others[i]);
        assert db.users - Elems(others[..i]) - {others[i]} == db.users - Elems(others[..i + 1]);
        DelUser(others[i]);
      }
      assert others[..|others|] == others;
    }

    /** Merges all accounts with the email of the logged-in user into the named one. */
    method AuthMergeApply(loginEmail: string, userName: string, isEmail: string -> bool) returns (r: MergeResult)
      requires FreshIds(View())
      modifies this
      ensures !r.Merged? ==> View() == old(View())
      ensures r.NoEmail? <==> loginEmail == ""
      ensures r.NoTarget? <==>
        && loginEmail != "" && UsersWithEmail(old(users), loginEmail) != {}
        && (TrimSpace(userName) == "" || TrimSpace(loginEmail) == "" || !isEmail(TrimSpace(loginEmail)))
      ensures r.NoAccount? <==> loginEmail != "" && UsersWithEmail(old(users), loginEmail) == {}
      ensures r.Merged? ==>
                IsMerge(old(View()), View(), loginEmail, TrimSpace(userName), TrimSpace(loginEmail), r.target)
      ensures r.Merged? ==>
        var others := UsersWithEmail(old(users), loginEmail) - {r.target};
        AreCounts(old(View()), others, r.comments, r.notifies, r.votes) && r.deletedUsers == |others|
    {
      if loginEmail == "" {
        return NoEmail;
      }
      var sameEmail := set u | u in users && Lower(users[u].email) == Lower(loginEmail);
      assert sameEmail == UsersWithEmail(users, loginEmail);
      if sameEmail == {} {
        return NoAccount;
      }
      var isAdmin := exists u :: u in sameEmail && users[u].isAdmin;
      var target := FindCreateUser(userName, loginEmail, isEmail);
      if target.None? {
        return NoTarget;
      }
      ghost var db1 := View();
      r := MergeInto(target.value, sameEmail - {target.value}, isAdmin);
      var name, email := TrimSpace(userName), TrimSpace(loginEmail);
      StepsAreMerge(old(View()), db1, View(), loginEmail, name, email, target.value, isAdmin);
    }

    method MergeInto(target: nat, others: set<nat>, isAdmin: bool) returns (r: MergeResult)
      requires target in users && target !in others
      modifies this
      ensures var users' := old(users)[target := old(users)[target].(isAdmin := isAdmin)];
              View() == Reassigned(old(View()), others, target).(users := users' - others)
      ensures r.Merged? && r.target == target && r.deletedUsers == |others|
      ensures AreCounts(old(View()), others, r.comments, r.notifies, r.votes)
    {
      if users[target].isAdmin != isAdmin {
        users := users[target := users[target].(isAdmin := isAdmin)];
      }
      assert users == old(users)[target := old(users)[target].(isAdmin := isAdmin)];
      ghost var db := View();
      var list := Rows(others);
      assert target !in list by { assert target !in Elems(list); }
      var c, n, v := MoveAllRows(list, target);
      DelUsers(list, db, target);
      CardOfElems(list);
      r := Merged(target, c, n, v, |list|);
    }
  }

  /** The rows of one more account on the list. */
  lemma MoveNext(db: Tables, others: seq<nat>, i: nat, target: nat, now: Tables,
                 c: nat, n: nat, v: nat, c': nat, n': nat, v': nat)
    requires NoDup(others) && target !in others && i < |others|
    requires now == Reassigned(db, Elems(others[..i]), target) && AreCounts(db, Elems(others[..i]), c, n, v)
    requires AreCounts(now, {others[i]}, c', n', v')
    ensures Reassigned(now, {others[i]}, target) == Reassigned(db, Elems(others[..i + 1]), target)
    ensures AreCounts(db, Elems(others[..i + 1]), c + c', n + n', v + v')
  {
    ElemsSnoc(others, i);
    MoveOneMore(db, Elems(others[..i]), others[i], target);
    CountOneMore(db, Elems(others[..i]), others[i], target, c, n, v, c', n', v');
  }

  lemma ReassignNothing(db: Tables, target: nat)
    ensures Reassigned(db, {}, target) == db
    ensures AreCounts(db, {}, 0, 0, 0)
  {
    assert MoveComments(db.comments, {}, target) == db.comments;
    assert CommentsOf(db.comments, {}) == {} && NotifiesOf(db.notifies, {}) == {} && BallotsOf(db.votes, {}) == {};
  }

  lemma CardOfElems(ids: seq<nat>)
    requires NoDup(ids)
    ensures |Elems(ids)| == |ids|
  {
    if ids == [] {
    } else {
      var n := |ids| - 1;
      ElemsSnoc(ids, n);
      CardOfElems(ids[..n]);
    }
  }

  lemma RemoveNothing(db: Tables)
    ensures RemoveComments(db, {}) == db
  {
    assert db.comments - {} == db.comments;
  }

  /** One more owned comment: removing its tree from what is left gives the closure of one more id. */
  lemma OneMoreTree(db: Tables, S: set<nat>, id: nat)
    requires S <= db.comments.Keys && id in db.comments
    ensures var l := LinksOf(db.comments);
            var db' := RemoveComments(db, Closure(l, S));
            && LinksOf(db'.comments) == l - Closure(l, S)
            && RemoveComments(db', {id} + Closure(LinksOf(db'.comments), {id})) ==
                 RemoveComments(db, Closure(l, S + {id}))
  {
    var l := LinksOf(db.comments);
    var D := Closure(l, S);
    LinksWithout(db.comments, D);
    RemoveTwice(db, D, {id} + Closure(l - D, {id}));
    ClosureInSteps(l, S, {id});
    assert Up(l, id, 0) == id;
    assert D + ({id} + Closure(l - D, {id})) == Closure(l, S + {id});
  }

  lemma NextTree(db: Tables, ids: seq<nat>, i: nat)
    requires NoDup(ids) && Elems(ids) <= db.comments.Keys && i < |ids|
    ensures ids[i] != 0
    ensures var now := RemoveComments(db, Closure(LinksOf(db.comments), Elems(ids[..i])));
            RemoveComments(now, {ids[i]} + Closure(LinksOf(now.comments), {ids[i]}))
            == RemoveComments(db, Closure(LinksOf(db.comments), Elems(ids[..i + 1])))
  {
    NextIsNew(Elems(ids), ids, i);
    OneMoreTree(db, Elems(ids[..i]), ids[i]);
  }
}
