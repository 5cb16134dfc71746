/** The rows of the database and the tables they live in. */
module Entity {
  import opened ParentLinks

  datatype Comment = Comment(
    content: string,
    pageKey: string,
    siteName: string,
    userId: nat,
    ua: string,
    ip: string,
    rid: nat,      // the comment this one answers, 0 for none
    rootId: nat,   // the root of the thread, 0 when the comment is itself a root
    isCollapsed: bool,
    isPending: bool,
    isPinned: bool,
    voteUp: int,
    voteDown: int,
    createdAt: string,
    updatedAt: string)
  {
    predicate IsAllowReply() {
      !isCollapsed && !isPending
    }
  }

  datatype Page = Page(key: string, siteName: string, title: string, adminOnly: bool, voteUp: int, voteDown: int,
                       pv: nat)

  datatype User = User(name: string, email: string, isAdmin: bool)

  datatype AuthIdentity = AuthIdentity(userId: nat)

  datatype Notify = Notify(userId: nat, commentId: nat)

  /** The four vote types of the vote table: a target table and a choice. */
  datatype Target = OnComment | OnPage
  datatype Choice = ThumbUp | ThumbDown

  datatype Vote = Vote(target: Target, targetId: nat, choice: Choice, userId: nat, ip: string)

  /** Ids come from auto-increment columns, which start at 1. */
  type Id = i: nat | 0 < i witness 1

  type CommentTable = m: map<nat, Comment> | 0 !in m witness map[]

  /** All tables, and for those that rows are added to, the next id to be handed out. */
  datatype Tables = Tables(
    comments: CommentTable,
    pages: map<nat, Page>,
    users: map<nat, User>,
    identities: map<nat, AuthIdentity>,
    notifies: map<nat, Notify>,
    votes: map<nat, Vote>,
    nextComment: Id,
    nextPage: Id,
    nextUser: Id,
    nextVote: Id)

  /** The user a query by id returns, the zero user if there is none. */
  function UserOf(users: map<nat, User>, id: nat): User {
    if id in users then users[id] else User("", "", false)
  }

  function LinksOf(comments: CommentTable): Links {
    map id | id in comments :: comments[id].rid
  }

  /** No row has an id that is still to be handed out. */
  ghost predicate FreshIds(db: Tables) {
    && (forall id :: id in db.comments ==> id < db.nextComment)
    && (forall id :: id in db.pages ==> 0 < id < db.nextPage)
    && (forall id :: id in db.users ==> 0 < id < db.nextUser)
    && (forall id :: id in db.votes ==> 0 < id < db.nextVote)
  }

  /** The tables without the comments of `gone`, their notifies and their votes. */
  ghost function RemoveComments(db: Tables, gone: set<nat>): Tables {
    db.(comments := db.comments - gone,
        notifies := map n | n in db.notifies && db.notifies[n].commentId !in gone :: db.notifies[n],
        votes := map v | v in db.votes && !(db.votes[v].target == OnComment && db.votes[v].targetId in gone)
                   :: db.votes[v])
  }

  lemma RemoveTwice(db: Tables, A: set<nat>, B: set<nat>)
    ensures RemoveComments(RemoveComments(db, A), B) == RemoveComments(db, A + B)
  {
    assert (db.comments - A) - B == db.comments - (A + B);
  }

  lemma LinksWith(comments: CommentTable, id: nat, row: Comment)
    requires id != 0
    ensures LinksOf(comments[id := row]) == LinksOf(comments)[id := row.rid]
  {
  }

  lemma LinksWithout(comments: CommentTable, gone: set<nat>)
    ensures LinksOf(comments - gone) == LinksOf(comments) - gone
  {
  }
}
