/** Who writes a comment, on which page, and what an administrator may change in it afterwards. */
module Authoring {
  import opened ParentLinks
  import opened Text
  import opened Entity
  import opened CommentForest
  import opened AccountMerge
  import opened PageRename
  import opened Least
  import opened PageCache

  /** The token a request comes with: none, one that is not accepted, or that of an account. */
  datatype Login = NoToken | BadToken | Token(userId: nat)

  /** Who writes, as the request says, and the settings it meets. Everyone gives a name and an email.
      Without a login system (`authEnabled`) the account of a visitor takes them over as they are given; with
      one, visitors may be shut out. */
  datatype Author = Author(
    name: string, email: string, login: Login,
    isEmail: string -> bool, authEnabled: bool, allowsVisitors: bool)
  {
    predicate IsRefused(users: map<nat, User>) {
      match login
      case NoToken =>
        (authEnabled && !allowsVisitors)
        || TrimSpace(name) == "" || TrimSpace(email) == "" || !isEmail(TrimSpace(email))
      case BadToken => true
      case Token(id) => id !in users
    }
  }

  predicate IsLoggedIn(users: map<nat, User>, login: Login) {
    login.Token? && login.userId in users
  }

  predicate IsAdmin(users: map<nat, User>, login: Login) {
    IsLoggedIn(users, login) && users[login.userId].isAdmin
  }

  predicate NamesAdmin(users: map<nat, User>, name: string, email: string) {
    exists u :: u in users && users[u].isAdmin && IsAccount(users, u, name, email)
  }

  predicate IsAdminPage(pages: map<nat, Page>, key: string, siteName: string) {
    var page := ByKey(pages, key, siteName);
    page.Found? && page.page.adminOnly
  }

  /** Whoever writes under the name and email of an administrator, or on a page for administrators, must be
      logged in as one; and a token that is given must be good. */
  predicate MayWrite(users: map<nat, User>, pages: map<nat, Page>, c: NewComment, a: Author) {
    && (NamesAdmin(users, a.name, a.email) || IsAdminPage(pages, c.pageKey, c.siteName) ==> IsAdmin(users, a.login))
    && (a.login.NoToken? || IsLoggedIn(users, a.login))
  }

  /** The request gets as far as the comment it answers. */
  ghost predicate IsWelcome(db: Tables, c: NewComment, a: Author) {
    a.isEmail(a.email) && MayWrite(db.users, db.pages, c, a)
  }

  ghost predicate IsAccepted(db: Tables, c: NewComment, a: Author) {
    IsWelcome(db, c, a) && MayAnswer(db.comments, c) && !a.IsRefused(db.users)
  }

  ghost predicate IsAccountReady(db: Tables, db': Tables, name: string, email: string, userId: nat) {
    && db' == db.(users := db'.users, nextUser := db'.nextUser)
    && IsFoundOrCreated(db.users, db'.users, TrimSpace(name), TrimSpace(email), userId)
    && if userId in db.users then db'.nextUser == db.nextUser else userId == db.nextUser && db'.nextUser == userId + 1
  }

  ghost function WithProfile(db: Tables, userId: nat, name: string, email: string): Tables
    requires userId in db.users
  {
    db.(users := db.users[userId := db.users[userId].(name := name, email := email)])
  }

  /** The author's account has been found, or created. */
  ghost predicate IsAuthorReady(db: Tables, db': Tables, a: Author, userId: nat) {
    match a.login
    case NoToken =>
      exists db1 :: IsAccountReady(db, db1, a.name, a.email, userId)
        && db' == if a.authEnabled then db1 else WithProfile(db1, userId, a.name, a.email)
    case BadToken => false
    case Token(id) => db' == db && userId == id
  }

  /** The page has been found, or created. */
  ghost function WithPage(db: Tables, key: string, title: string, siteName: string): Tables {
    if ByKey(db.pages, key, siteName).Found? then db else AfterCreatePage(db, key, title, siteName)
  }

  lemma PageIsThere(db: Tables, key: string, title: string, siteName: string)
    requires key != "" && siteName != ""
    ensures HasPage(WithPage(db, key, title, siteName).pages, key, siteName)
  {
    var ids := set id | id in db.pages && Matches(db.pages[id], key, siteName);
    if ids != {} {
      assert First(ids) in ids;
    } else {
      var pages := WithPage(db, key, title, siteName).pages;
      assert db.nextPage in pages && pages[db.nextPage].key == key && pages[db.nextPage].siteName == siteName;
    }
  }

  /** A page that is edited exists, and keeps its key or takes one that its site does not use. */
  predicate MayUpdatePage(pages: map<nat, Page>, id: nat, key: string) {
    id in pages && (key == pages[id].key || ByKey(pages, key, pages[id].siteName).Nothing?)
  }

  /** What an accepted comment leaves: its author's account, its page, and its row. */
  ghost predicate IsCreation(db: Tables, db': Tables, c: NewComment, a: Author, title: string, now: string) {
    exists db1, userId ::
      && IsAuthorReady(db, db1, a, userId)
      && db' == AfterCreate(WithPage(db1, c.pageKey, title, c.siteName), c.(userId := userId), now)
  }

  /** A request is accepted exactly under these conditions: its email is one; on a page for administrators, or
      under the name and email of one in any case, it comes from an administrator; a token names an account; a
      visitor may write, and gives a name and an email; and what is answered exists on that page, and is
      neither collapsed nor pending. */
  lemma AcceptedExactly(db: Tables, c: NewComment, a: Author)
    ensures IsAccepted(db, c, a) <==>
            && a.isEmail(a.email)
            && ((exists u :: u in db.users && db.users[u].isAdmin
                   && Lower(db.users[u].name) == Lower(a.name) && Lower(db.users[u].email) == Lower(a.email))
                || (ByKey(db.pages, c.pageKey, c.siteName).Found?
                    && ByKey(db.pages, c.pageKey, c.siteName).page.adminOnly)
                ==> a.login.Token? && a.login.userId in db.users && db.users[a.login.userId].isAdmin)
            && !a.login.BadToken? && (a.login.Token? ==> a.login.userId in db.users)
            && (a.login.NoToken? ==>
                  && (!a.authEnabled || a.allowsVisitors)
                  && !AllSpace(a.name) && !AllSpace(a.email) && a.isEmail(TrimSpace(a.email)))
            && (c.rid != 0 ==>
                  && c.rid in db.comments && db.comments[c.rid].pageKey == c.pageKey
                  && !db.comments[c.rid].isCollapsed && !db.comments[c.rid].isPending)
  {
    BlankIsAllSpace(a.name);
    BlankIsAllSpace(a.email);
    assert NamesAdmin(db.users, a.name, a.email) <==>
           exists u :: u in db.users && db.users[u].isAdmin
             && Lower(db.users[u].name) == Lower(a.name) && Lower(db.users[u].email) == Lower(a.email) by {
      assert forall u :: IsAccount(db.users, u, a.name, a.email) <==>
               u in db.users && Lower(db.users[u].name) == Lower(a.name) && Lower(db.users[u].email) == Lower(a.email);
    }
  }

  /** Under the name and email of an administrator nobody else writes. */
  lemma NobodyWritesAsAdmin(db: Tables, db': Tables, c: NewComment, a: Author, title: string, now: string, admin: nat)
    requires IsAccepted(db, c, a) && FreshIds(db) && IsCreation(db, db', c, a, title, now)
    requires admin in db.users && db.users[admin].isAdmin
    requires Lower(db.users[admin].name) == Lower(a.name) && Lower(db.users[admin].email) == Lower(a.email)
    ensures db.nextComment in db'.comments && IsAdmin(db.users, Token(db'.comments[db.nextComment].userId))
  {
    CommentIsAsSent(db, db', c, a, title, now);
    assert IsAccount(db.users, admin, a.name, a.email);
  }

  /** The account of a visitor: the one of that name and email in any case, which existed or is new; without a
      login system it has them as they were given. */
  ghost predicate IsVisitorsAccount(users: map<nat, User>, users': map<nat, User>, a: Author, userId: nat) {
    var name, email := TrimSpace(a.name), TrimSpace(a.email);
    && users'.Keys == users.Keys + {userId}
    && (userId in users ==>
          && Lower(users[userId].name) == Lower(name) && Lower(users[userId].email) == Lower(email)
          && users'[userId].isAdmin == users[userId].isAdmin)
    && (userId !in users ==> !users'[userId].isAdmin)
    && (!a.authEnabled ==> users'[userId].name == a.name && users'[userId].email == a.email)
    && (a.authEnabled && userId in users ==> users'[userId] == users[userId])
    && (a.authEnabled && userId !in users ==> users'[userId].name == name && users'[userId].email == email)
    && (forall u :: u in users && u != userId ==> users'[u] == users[u])
  }

  /** The row of an accepted comment holds what was sent, under the account of the token or of the visitor, and
      all other rows are as they were. */
  lemma CommentIsAsSent(db: Tables, db': Tables, c: NewComment, a: Author, title: string, now: string)
    requires FreshIds(db) && IsCreation(db, db', c, a, title, now)
    ensures db'.comments.Keys == db.comments.Keys + {db.nextComment} && db.nextComment !in db.comments
    ensures forall x :: x in db.comments ==> db'.comments[x] == db.comments[x]
    ensures var row := db'.comments[db.nextComment];
            && row.content == c.content && row.pageKey == c.pageKey && row.siteName == c.siteName
            && row.ua == c.ua && row.ip == c.ip && row.rid == c.rid && row.isPending == c.isPending
            && !row.isCollapsed && !row.isPinned && row.voteUp == 0 && row.voteDown == 0
            && row.createdAt == now && row.updatedAt == now
            && (if a.login.Token? then row.userId == a.login.userId && db'.users == db.users
                else IsVisitorsAccount(db.users, db'.users, a, row.userId))
  {
    var db1, db2, userId := CreationSteps(db, db', c, a, title, now);
    AuthorIsReady(db, db1, a, userId);
    RowIsAdded(db2, c.(userId := userId), now);
  }

  /** The page exists afterwards; a new one has the title that was sent. No other page changes, and no other
      table. */
  lemma CreationAddsPage(db: Tables, db': Tables, c: NewComment, a: Author, title: string, now: string)
    requires FreshIds(db) && IsCreation(db, db', c, a, title, now)
    ensures forall p :: p in db.pages ==> p in db'.pages && db'.pages[p] == db.pages[p]
    ensures forall p :: p in db'.pages && p !in db.pages ==>
              db'.pages[p] == Page(c.pageKey, c.siteName, title, false, 0, 0, 0)
    ensures c.pageKey != "" && c.siteName != "" ==> HasPage(db'.pages, c.pageKey, c.siteName)
    ensures db'.votes == db.votes && db'.notifies == db.notifies && db'.identities == db.identities
  {
    var db1, db2, userId := CreationSteps(db, db', c, a, title, now);
    PageIsAdded(db1, c.pageKey, title, c.siteName);
    RowIsAdded(db2, c.(userId := userId), now);
    if c.pageKey != "" && c.siteName != "" {
      PageIsThere(db1, c.pageKey, title, c.siteName);
    }
  }

  lemma CreationSteps(db: Tables, db': Tables, c: NewComment, a: Author, title: string, now: string)
    returns (db1: Tables, db2: Tables, userId: nat)
    requires FreshIds(db) && IsCreation(db, db', c, a, title, now)
    ensures IsAuthorReady(db, db1, a, userId) && db1 == db.(users := db1.users, nextUser := db1.nextUser)
    ensures db2 == WithPage(db1, c.pageKey, title, c.siteName) && FreshIds(db2)
    ensures db2 == db1.(pages := db2.pages, nextPage := db2.nextPage)
    ensures db' == AfterCreate(db2, c.(userId := userId), now)
  {
    db1, userId :| IsAuthorReady(db, db1, a, userId)
      && db' == AfterCreate(WithPage(db1, c.pageKey, title, c.siteName), c.(userId := userId), now);
    db2 := WithPage(db1, c.pageKey, title, c.siteName);
    AuthorIsReady(db, db1, a, userId);
    PageIsAdded(db1, c.pageKey, title, c.siteName);
  }

  lemma AuthorIsReady(db: Tables, db': Tables, a: Author, userId: nat)
    requires FreshIds(db) && IsAuthorReady(db, db', a, userId)
    ensures db' == db.(users := db'.users, nextUser := db'.nextUser)
    ensures if a.login.Token? then userId == a.login.userId && db'.users == db.users
            else IsVisitorsAccount(db.users, db'.users, a, userId)
    ensures FreshIds(db')
  {
  }

  lemma PageIsAdded(db: Tables, key: string, title: string, siteName: string)
    requires FreshIds(db)
    ensures FreshIds(WithPage(db, key, title, siteName))
    ensures var db' := WithPage(db, key, title, siteName);
            && db' == db.(pages := db'.pages, nextPage := db'.nextPage)
            && (forall p :: p in db.pages ==> p in db'.pages && db'.pages[p] == db.pages[p])
            && (forall p :: p in db'.pages && p !in db.pages ==>
                  db'.pages[p] == Page(key, siteName, title, false, 0, 0, 0))
  {
  }

  lemma RowIsAdded(db: Tables, c: NewComment, now: string)
    requires FreshIds(db)
    ensures var db' := AfterCreate(db, c, now);
            && db' == db.(comments := db'.comments, nextComment := db'.nextComment)
            && db'.comments.Keys == db.comments.Keys + {db.nextComment} && db.nextComment !in db.comments
            && (forall x :: x in db.comments ==> db'.comments[x] == db.comments[x])
            && db'.comments[db.nextComment] == NewRow(c, Walk(LinksOf(db.comments), c.rid), now)
  {
  }

  // ---------------------------------------------------------------------------------------------
  // Editing a comment
  // ---------------------------------------------------------------------------------------------

  /** Empty fields leave what the comment has. `isLink` tells whether the link is one. */
  datatype Edit = Edit(
    content: string, nick: string, email: string, isEmail: string -> bool, link: string, isLink: bool,
    pageKey: string, siteName: string, ua: string, ip: string, isCollapsed: bool, isPending: bool, isPinned: bool)
  {
    predicate IsRefused() {
      (email != "" && !isEmail(email)) || (link != "" && !isLink)
    }
  }

  function Edited(c: Comment, e: Edit, userId: nat, now: string): Comment {
    c.(content := FirstNonEmpty(e.content, c.content), userId := userId,
       pageKey := FirstNonEmpty(e.pageKey, c.pageKey),
       ua := FirstNonEmpty(e.ua, c.ua), ip := FirstNonEmpty(e.ip, c.ip),
       isCollapsed := e.isCollapsed, isPending := e.isPending, isPinned := e.isPinned, updatedAt := now)
  }

  /** The name and the email that an edit asks for; what it leaves out is taken from the comment's account. */
  function NickOf(users: map<nat, User>, c: Comment, e: Edit): string {
    FirstNonEmpty(e.nick, UserOf(users, c.userId).name)
  }

  function EmailOf(users: map<nat, User>, c: Comment, e: Edit): string {
    FirstNonEmpty(e.email, UserOf(users, c.userId).email)
  }

  /** They are not the name and email of an account. */
  predicate HasNoAccount(users: map<nat, User>, c: Comment, e: Edit) {
    var email := TrimSpace(EmailOf(users, c, e));
    TrimSpace(NickOf(users, c, e)) == "" || email == "" || !e.isEmail(email)
  }

  ghost function WithBlankAccount(db: Tables): Tables {
    db.(users := db.users[db.nextUser := User("", "", false)], nextUser := db.nextUser + 1)
  }

  /** An edit keeps the author if there is no account to be had. If it gives a link then, the zero user is
      saved with it. */
  ghost predicate IsEditorReady(db: Tables, db': Tables, c: Comment, e: Edit, userId: nat) {
    if HasNoAccount(db.users, c, e) then userId == c.userId && db' == if e.link != "" then WithBlankAccount(db) else db
    else IsAccountReady(db, db', NickOf(db.users, c, e), EmailOf(db.users, c, e), userId)
  }

  /** A page is looked up or created only for a key that is new to the comment, on the site that the
      request names. */
  ghost function WithEditPage(db: Tables, c: Comment, e: Edit): Tables {
    if e.pageKey != "" && e.pageKey != c.pageKey then WithPage(db, e.pageKey, "", e.siteName) else db
  }

  /** The page and the row of an edit. */
  ghost function WithEdit(db: Tables, id: nat, e: Edit, userId: nat, now: string): Tables
    requires id in db.comments
  {
    var c := db.comments[id];
    WithEditPage(db, c, e).(comments := db.comments[id := Edited(c, e, userId, now)])
  }

  ghost predicate IsEdit(db: Tables, db': Tables, id: nat, e: Edit, now: string)
    requires id in db.comments
  {
    exists db1, userId ::
      && IsEditorReady(db, db1, db.comments[id], e, userId)
      && db1.comments == db.comments && db' == WithEdit(db1, id, e, userId, now)
  }

  /** An edit replaces the fields that are given, sets the three flags and the date, and leaves the rest of the
      row, and all other rows, as they are. */
  lemma EditChangesWhatIsGiven(db: Tables, db': Tables, id: nat, e: Edit, now: string)
    requires FreshIds(db) && id in db.comments && IsEdit(db, db', id, e, now)
    ensures db'.comments.Keys == db.comments.Keys
    ensures forall x :: x in db.comments && x != id ==> db'.comments[x] == db.comments[x]
    ensures var c, c' := db.comments[id], db'.comments[id];
            && c'.content == (if e.content == "" then c.content else e.content)
            && c'.pageKey == (if e.pageKey == "" then c.pageKey else e.pageKey)
            && c'.ua == (if e.ua == "" then c.ua else e.ua) && c'.ip == (if e.ip == "" then c.ip else e.ip)
            && c'.isCollapsed == e.isCollapsed && c'.isPending == e.isPending && c'.isPinned == e.isPinned
            && c'.updatedAt == now && c'.createdAt == c.createdAt && c'.siteName == c.siteName
            && c'.rid == c.rid && c'.rootId == c.rootId && c'.voteUp == c.voteUp && c'.voteDown == c.voteDown
    ensures db'.votes == db.votes && db'.notifies == db.notifies && db'.identities == db.identities
  {
    var db1, userId :| IsEditorReady(db, db1, db.comments[id], e, userId)
      && db1.comments == db.comments && db' == WithEdit(db1, id, e, userId, now);
    EditIsWritten(db1, id, e, userId, now);
    EditorIsReady(db, db1, db.comments[id], e, userId);
  }

  /** An edit adds a page, without a title and on the site of the request, only for a key that is new to the
      comment; no page changes. */
  lemma EditAddsPage(db: Tables, db': Tables, id: nat, e: Edit, now: string)
    requires FreshIds(db) && id in db.comments && IsEdit(db, db', id, e, now)
    ensures forall p :: p in db.pages ==> p in db'.pages && db'.pages[p] == db.pages[p]
    ensures forall p :: p in db'.pages && p !in db.pages ==>
              && e.pageKey != "" && e.pageKey != db.comments[id].pageKey
              && db'.pages[p] == Page(e.pageKey, e.siteName, "", false, 0, 0, 0)
    ensures e.pageKey != "" && e.pageKey != db.comments[id].pageKey && e.siteName != "" ==>
              HasPage(db'.pages, e.pageKey, e.siteName)
  {
    var db1, userId :| IsEditorReady(db, db1, db.comments[id], e, userId)
      && db1.comments == db.comments && db' == WithEdit(db1, id, e, userId, now);
    EditorIsReady(db, db1, db.comments[id], e, userId);
    PageOfEdit(db1, db.comments[id], e);
    assert db'.pages == WithEditPage(db1, db.comments[id], e).pages;
  }

  lemma PageOfEdit(db: Tables, c: Comment, e: Edit)
    requires FreshIds(db)
    ensures var pages := WithEditPage(db, c, e).pages;
            && (forall p :: p in db.pages ==> p in pages && pages[p] == db.pages[p])
            && (forall p :: p in pages && p !in db.pages ==>
                  && e.pageKey != "" && e.pageKey != c.pageKey
                  && pages[p] == Page(e.pageKey, e.siteName, "", false, 0, 0, 0))
            && (e.pageKey != "" && e.pageKey != c.pageKey && e.siteName != "" ==>
                  HasPage(pages, e.pageKey, e.siteName))
  {
    PageIsAdded(db, e.pageKey, "", e.siteName);
    if e.pageKey != "" && e.siteName != "" {
      PageIsThere(db, e.pageKey, "", e.siteName);
    }
  }

  lemma EditIsWritten(db: Tables, id: nat, e: Edit, userId: nat, now: string)
    requires id in db.comments
    ensures var db' := WithEdit(db, id, e, userId, now);
            && db' == db.(comments := db'.comments, pages := db'.pages, nextPage := db'.nextPage)
            && db'.comments == db.comments[id := Edited(db.comments[id], e, userId, now)]
  {
  }

  lemma EditorIsReady(db: Tables, db': Tables, c: Comment, e: Edit, userId: nat)
    requires IsEditorReady(db, db', c, e, userId)
    ensures db' == db.(users := db'.users, nextUser := db'.nextUser)
    ensures FreshIds(db) ==> FreshIds(db')
  {
  }

  /** The account of an edited comment is that of the name and email that the edit gives, or the comment's
      account has if it does not give them; where these are no account's, it stays. */
  lemma EditedAccount(db: Tables, db': Tables, id: nat, e: Edit, now: string)
    requires FreshIds(db) && id in db.comments && IsEdit(db, db', id, e, now)
    ensures var c, owner := db.comments[id], db'.comments[id].userId;
            var known := c.userId in db.users;
            var name := TrimSpace(if e.nick != "" then e.nick else if known then db.users[c.userId].name else "");
            var email := TrimSpace(if e.email != "" then e.email else if known then db.users[c.userId].email else "");
            var isNone := name == "" || email == "" || !e.isEmail(email);
            && (isNone ==> owner == c.userId)
            && (!isNone ==> owner in db'.users && Lower(db'.users[owner].name) == Lower(name)
                            && Lower(db'.users[owner].email) == Lower(email))
  {
    var db1, userId :| IsEditorReady(db, db1, db.comments[id], e, userId)
      && db1.comments == db.comments && db' == WithEdit(db1, id, e, userId, now);
    EditIsWritten(db1, id, e, userId, now);
  }

  ghost predicate AddsBlankAccount(users: map<nat, User>, users': map<nat, User>) {
    exists u :: u in users' && u !in users && users'[u].name == ""
  }

  lemma EditorAddsBlankAccount(db: Tables, db': Tables, c: Comment, e: Edit, userId: nat)
    requires FreshIds(db) && IsEditorReady(db, db', c, e, userId)
    ensures AddsBlankAccount(db.users, db'.users) <==> e.link != "" && HasNoAccount(db.users, c, e)
  {
    if e.link != "" && HasNoAccount(db.users, c, e) {
      assert db.nextUser in db'.users && db.nextUser !in db.users;
    }
  }

  lemma UsersAfterEdit(db: Tables, id: nat, e: Edit, userId: nat, now: string)
    requires id in db.comments
    ensures WithEdit(db, id, e, userId, now).users == db.users
  {
  }

  /** An edit adds an account without a name if and only if it gives a link and there is no account to be had. */
  lemma EditAddsBlankAccount(db: Tables, db': Tables, id: nat, e: Edit, now: string)
    requires FreshIds(db) && id in db.comments && IsEdit(db, db', id, e, now)
    ensures AddsBlankAccount(db.users, db'.users) <==> e.link != "" && HasNoAccount(db.users, db.comments[id], e)
  {
    var c := db.comments[id];
    var db1, userId :| IsEditorReady(db, db1, c, e, userId)
      && db1.comments == db.comments && db' == WithEdit(db1, id, e, userId, now);
    UsersAfterEdit(db1, id, e, userId, now);
    EditorAddsBlankAccount(db, db1, c, e, userId);
  }

  /** Only a link is given, for a comment of an account of the configuration file whose email is none. */
  lemma LinkAddsBlankAccount(db: Tables, id: nat, e: Edit, now: string)
    requires id in db.comments && db.comments[id].userId == 1
    requires 1 in db.users && db.users[1] == User("admin", "admin", true) && !e.isEmail("admin")
    requires e.nick == e.email == e.pageKey == "" && e.link != "" && e.isLink
    ensures !e.IsRefused()
    ensures IsEdit(db, WithEdit(WithBlankAccount(db), id, e, 1, now), id, e, now)
  {
    assert TrimLeft("admin") == "admin" && TrimRight("admin") == "admin";
    var c := db.comments[id];
    assert IsEditorReady(db, WithBlankAccount(db), c, e, 1);
  }

  /** The edit leaves the comment on its page, or moves a comment that neither answers nor is answered. */
  predicate KeepsThreadsTogether(comments: CommentTable, id: nat, newKey: string)
    requires id in comments
  {
    newKey == comments[id].pageKey || (comments[id].rid == 0 && forall x :: x in comments ==> comments[x].rid != id)
  }

  lemma EditKeepsPages(comments: CommentTable, id: nat, row: Comment)
    requires PageKept(comments) && LinksClosed(comments) && id in comments
    requires row.rid == comments[id].rid != id
    ensures PageKept(comments[id := row]) <==> KeepsThreadsTogether(comments, id, row.pageKey)
  {
    var comments' := comments[id := row];
    assert id in comments' && comments'[id] == row;
    assert row.rid in comments ==> comments'[row.rid] == comments[row.rid];
    if PageKept(comments') && row.pageKey != comments[id].pageKey {
      forall x | x in comments
        ensures comments[x].rid != id
      {
        assert comments'[x].rid in comments' ==> comments'[x].pageKey == comments'[comments'[x].rid].pageKey;
      }
    }
  }

  /** Changing a row, but not its links, keeps the table valid if and only if it does not take a comment of
      a thread to another page. */
  lemma EditKeepsForest(comments: CommentTable, id: nat, row: Comment)
    requires ValidForest(comments) && id in comments
    requires row.rid == comments[id].rid && row.rootId == comments[id].rootId
    ensures ValidForest(comments[id := row]) <==> KeepsThreadsTogether(comments, id, row.pageKey)
  {
    var l := LinksOf(comments);
    assert LinksOf(comments[id := row]) == l;
    NotOwnParent(l, id);
    assert LinksClosed(comments) by {
      assert forall x :: x in comments ==> x in l && l[x] == comments[x].rid;
    }
    EditKeepsPages(comments, id, row);
    assert RootIndexed(comments[id := row]);
  }

  lemma NotOwnParent(l: Links, x: nat)
    requires IsForest(l) && x in l
    ensures l[x] != x
  {
    assert Up(l, x, 1) == Up(l, l[x], 0) == l[x];
    assert !Below(l, x, x);
  }

  /** An answer that is moved to another page. */
  lemma MovedAnswerLeavesThread(comments: CommentTable, id: nat, newKey: string)
    requires ValidForest(comments) && id in comments && comments[id].rid != 0 && newKey != comments[id].pageKey
    ensures !ValidForest(comments[id := comments[id].(pageKey := newKey)])
  {
    EditKeepsForest(comments, id, comments[id].(pageKey := newKey));
  }
}
