/** Merging all accounts that share an email into one of them. */
module AccountMerge {
  import opened ParentLinks
  import opened Entity
  import opened Text
  import opened CommentForest
  import opened VoteLedger

  ghost function UsersWithEmail(users: map<nat, User>, email: string): set<nat> {
    set u | u in users && Lower(users[u].email) == Lower(email)
  }

  /** The account a name and an email belong to, in any case. */
  predicate IsAccount(users: map<nat, User>, u: nat, name: string, email: string) {
    u in users && Lower(users[u].name) == Lower(name) && Lower(users[u].email) == Lower(email)
  }

  function NewOwner(owner: nat, others: set<nat>, target: nat): nat {
    if owner in others then target else owner
  }

  ghost function MoveComments(t: CommentTable, others: set<nat>, target: nat): CommentTable {
    map c | c in t :: t[c].(userId := NewOwner(t[c].userId, others, target))
  }

  ghost function MoveNotifies(t: map<nat, Notify>, others: set<nat>, target: nat): map<nat, Notify> {
    map n | n in t :: t[n].(userId := NewOwner(t[n].userId, others, target))
  }

  ghost function MoveVotes(t: map<nat, Vote>, others: set<nat>, target: nat): map<nat, Vote> {
    map v | v in t :: t[v].(userId := NewOwner(t[v].userId, others, target))
  }

  ghost function MoveIdentities(t: map<nat, AuthIdentity>, others: set<nat>, target: nat): map<nat, AuthIdentity> {
    map a | a in t :: t[a].(userId := NewOwner(t[a].userId, others, target))
  }

  /** Every row of the four tables that `others` own now belongs to the target; no row is added,
      dropped or changed otherwise. */
  ghost function Reassigned(db: Tables, others: set<nat>, target: nat): Tables {
    db.(comments := MoveComments(db.comments, others, target),
        notifies := MoveNotifies(db.notifies, others, target),
        votes := MoveVotes(db.votes, others, target),
        identities := MoveIdentities(db.identities, others, target))
  }

  ghost function CommentsOf(t: CommentTable, owners: set<nat>): set<nat> {
    set c | c in t && t[c].userId in owners
  }

  ghost function NotifiesOf(t: map<nat, Notify>, owners: set<nat>): set<nat> {
    set n | n in t && t[n].userId in owners
  }

  ghost function BallotsOf(t: map<nat, Vote>, owners: set<nat>): set<nat> {
    set v | v in t && t[v].userId in owners
  }

  lemma CommentsMovedTwice(t: CommentTable, others: set<nat>, u: nat, target: nat)
    requires target !in others && target != u && u !in others
    ensures MoveComments(MoveComments(t, others, target), {u}, target) == MoveComments(t, others + {u}, target)
  {
  }

  /** Moving the rows of one more user adds exactly that user's rows to those moved so far. */
  lemma MoveOneMoreComments(t: CommentTable, others: set<nat>, u: nat, target: nat)
    requires target !in others && target != u && u !in others
    ensures MoveComments(MoveComments(t, others, target), {u}, target) == MoveComments(t, others + {u}, target)
    ensures |CommentsOf(t, others + {u})| ==
              |CommentsOf(t, others)| + |CommentsOf(MoveComments(t, others, target), {u})|
  {
    CommentsMovedTwice(t, others, u, target);
    var t' := MoveComments(t, others, target);
    assert forall c :: c in t' ==> t'[c].userId == NewOwner(t[c].userId, others, target);
    assert CommentsOf(t, others + {u}) == CommentsOf(t, others) + CommentsOf(t', {u});
    assert CommentsOf(t, others) !! CommentsOf(t', {u});
  }

  lemma MoveOneMoreNotifies(t: map<nat, Notify>, others: set<nat>, u: nat, target: nat)
    requires target !in others && target != u && u !in others
    ensures MoveNotifies(MoveNotifies(t, others, target), {u}, target) == MoveNotifies(t, others + {u}, target)
    ensures |NotifiesOf(t, others + {u})| ==
              |NotifiesOf(t, others)| + |NotifiesOf(MoveNotifies(t, others, target), {u})|
  {
    var t' := MoveNotifies(t, others, target);
    assert NotifiesOf(t, others + {u}) == NotifiesOf(t, others) + NotifiesOf(t', {u});
    assert NotifiesOf(t, others) !! NotifiesOf(t', {u});
  }

  lemma MoveOneMoreVotes(t: map<nat, Vote>, others: set<nat>, u: nat, target: nat)
    requires target !in others && target != u && u !in others
    ensures MoveVotes(MoveVotes(t, others, target), {u}, target) == MoveVotes(t, others + {u}, target)
    ensures |BallotsOf(t, others + {u})| == |BallotsOf(t, others)| + |BallotsOf(MoveVotes(t, others, target), {u})|
  {
    var t' := MoveVotes(t, others, target);
    assert BallotsOf(t, others + {u}) == BallotsOf(t, others) + BallotsOf(t', {u});
    assert BallotsOf(t, others) !! BallotsOf(t', {u});
  }

  /** How many rows of each table the owners have. */
  ghost predicate AreCounts(db: Tables, owners: set<nat>, comments: nat, notifies: nat, votes: nat) {
    && comments == |CommentsOf(db.comments, owners)|
    && notifies == |NotifiesOf(db.notifies, owners)|
    && votes == |BallotsOf(db.votes, owners)|
  }

  lemma MoveOneMore(db: Tables, others: set<nat>, u: nat, target: nat)
    requires target !in others && target != u && u !in others
    ensures Reassigned(Reassigned(db, others, target), {u}, target) == Reassigned(db, others + {u}, target)
  {
    MoveOneMoreComments(db.comments, others, u, target);
    MoveOneMoreNotifies(db.notifies, others, u, target);
    MoveOneMoreVotes(db.votes, others, u, target);
    var t := db.identities;
    assert MoveIdentities(MoveIdentities(t, others, target), {u}, target) == MoveIdentities(t, others + {u}, target);
  }

  lemma CountOneMore(db: Tables, others: set<nat>, u: nat, target: nat, c: nat, n: nat, v: nat, c': nat, n': nat,
                     v': nat)
    requires target !in others && target != u && u !in others
    requires AreCounts(db, others, c, n, v) && AreCounts(Reassigned(db, others, target), {u}, c', n', v')
    ensures AreCounts(db, others + {u}, c + c', n + n', v + v')
  {
    MoveOneMoreComments(db.comments, others, u, target);
    MoveOneMoreNotifies(db.notifies, others, u, target);
    MoveOneMoreVotes(db.votes, others, u, target);
  }

  /** The account is the existing one of that name and email, or a new one if there was none. */
  ghost predicate IsFoundOrCreated(users: map<nat, User>, users': map<nat, User>, name: string, email: string,
                                   id: nat) {
    && IsAccount(users', id, name, email)
    && (id in users ==> users' == users)
    && (id !in users ==>
        users' == users[id := User(name, email, false)] && !exists u :: IsAccount(users, u, name, email))
  }

  /** What a successful merge does. Only the rows of the other accounts with the email change, and
      only their owner; only those accounts disappear; the target account is the named one, and is an
      administrator iff one of the merged accounts was. */
  ghost predicate IsMerge(db: Tables, db': Tables, email: string, targetName: string, targetEmail: string,
                          target: nat) {
    var merged := UsersWithEmail(db.users, email);
    && IsAccount(db'.users, target, targetName, targetEmail)
    && db' == Reassigned(db, merged - {target}, target).(users := db'.users, nextUser := db'.nextUser)
    && db'.users == db.users[target := db'.users[target]] - (merged - {target})
    && (db'.users[target].isAdmin <==> exists u :: u in merged && db.users[u].isAdmin)
    && (target in db.users ==>
        db'.users[target] == db.users[target].(isAdmin := db'.users[target].isAdmin) && db'.nextUser == db.nextUser)
    && (target !in db.users ==>
          && target == db.nextUser && db'.nextUser == target + 1
          && db'.users[target] == User(targetName, targetEmail, db'.users[target].isAdmin))
  }

  /** Finding or creating the account, setting its administrator flag, moving the rows and deleting
      the other accounts, in that order, is a merge. */
  lemma StepsAreMerge(db: Tables, db1: Tables, db': Tables, email: string, name: string, targetEmail: string,
                      target: nat, isAdmin: bool)
    requires IsFoundOrCreated(db.users, db1.users, name, targetEmail, target)
    requires db1 == db.(users := db1.users, nextUser := db1.nextUser)
    requires if target in db.users then db1.nextUser == db.nextUser
             else target == db.nextUser && db1.nextUser == target + 1
    requires isAdmin <==> exists u :: u in UsersWithEmail(db.users, email) && db.users[u].isAdmin
    requires var others := UsersWithEmail(db.users, email) - {target};
             var users' := db1.users[target := db1.users[target].(isAdmin := isAdmin)];
             db' == Reassigned(db1, others, target).(users := users' - others)
    ensures IsMerge(db, db', email, name, targetEmail, target)
  {
  }

  /** After a merge the target is the only account left with the email, provided trimming the email
      leaves it the same address; otherwise the target has the trimmed address and none is left. */
  lemma MergeLeavesOneAccount(db: Tables, db': Tables, email: string, name: string, target: nat)
    requires IsMerge(db, db', email, name, TrimSpace(email), target)
    ensures UsersWithEmail(db'.users, email) == if Lower(TrimSpace(email)) == Lower(email) then {target} else {}
  {
    assert Lower(db'.users[target].email) == Lower(TrimSpace(email));
  }

  /** A merge loses and invents no row, and orphans none: a row whose owner had an account still has one. */
  lemma MergeOrphansNothing(db: Tables, db': Tables, email: string, name: string, target: nat)
    requires IsMerge(db, db', email, name, TrimSpace(email), target)
    ensures db'.comments.Keys == db.comments.Keys && db'.identities.Keys == db.identities.Keys
    ensures db'.notifies.Keys == db.notifies.Keys && db'.votes.Keys == db.votes.Keys
    ensures forall c :: c in db.comments && db.comments[c].userId in db.users ==> db'.comments[c].userId in db'.users
    ensures forall n :: n in db.notifies && db.notifies[n].userId in db.users ==> db'.notifies[n].userId in db'.users
    ensures forall v :: v in db.votes && db.votes[v].userId in db.users ==> db'.votes[v].userId in db'.users
    ensures forall a :: a in db.identities && db.identities[a].userId in db.users ==>
              db'.identities[a].userId in db'.users
  {
  }

  /** The owner of a row after a merge: the target, if the owner before was another account with the email. */
  function OwnerAfter(users: map<nat, User>, owner: nat, email: string, target: nat): nat {
    if owner in users && Lower(users[owner].email) == Lower(email) then target else owner
  }

  /** The other accounts with the email are gone, and all others are as they were. The target has the name asked
      for, and is an administrator exactly if one of those with the email was. */
  lemma MergeKeepsOtherUsers(db: Tables, db': Tables, email: string, name: string, targetEmail: string, target: nat)
    requires IsMerge(db, db', email, name, targetEmail, target)
    ensures forall u :: u in db'.users <==>
              u == target || (u in db.users && Lower(db.users[u].email) != Lower(email))
    ensures forall u :: u in db'.users && u != target ==> db'.users[u] == db.users[u]
    ensures target in db'.users && Lower(db'.users[target].name) == Lower(name)
    ensures Lower(db'.users[target].email) == Lower(targetEmail)
    ensures db'.users[target].isAdmin <==>
              exists u :: u in db.users && Lower(db.users[u].email) == Lower(email) && db.users[u].isAdmin
    ensures db'.pages == db.pages
  {
  }

  lemma MergedOwners(users: map<nat, User>, email: string, target: nat)
    ensures forall owner :: NewOwner(owner, UsersWithEmail(users, email) - {target}, target) ==
              OwnerAfter(users, owner, email, target)
  {
  }

  /** The rows of merged accounts get the target as their owner, and nothing else changes in the four tables. */
  lemma MergeChangesOwnersOnly(db: Tables, db': Tables, email: string, name: string, targetEmail: string, target: nat)
    requires IsMerge(db, db', email, name, targetEmail, target)
    ensures db'.comments.Keys == db.comments.Keys && db'.notifies.Keys == db.notifies.Keys
    ensures forall c :: c in db.comments ==>
              db'.comments[c] == db.comments[c].(userId := OwnerAfter(db.users, db.comments[c].userId, email, target))
    ensures forall n :: n in db.notifies ==>
              db'.notifies[n] == db.notifies[n].(userId := OwnerAfter(db.users, db.notifies[n].userId, email, target))
  {
    MergedOwners(db.users, email, target);
  }

  lemma MergeChangesVotersOnly(db: Tables, db': Tables, email: string, name: string, targetEmail: string, target: nat)
    requires IsMerge(db, db', email, name, targetEmail, target)
    ensures db'.votes.Keys == db.votes.Keys && db'.identities.Keys == db.identities.Keys
    ensures forall v :: v in db.votes ==>
              db'.votes[v] == db.votes[v].(userId := OwnerAfter(db.users, db.votes[v].userId, email, target))
    ensures forall a :: a in db.identities ==>
              db'.identities[a].userId == OwnerAfter(db.users, db.identities[a].userId, email, target)
  {
    MergedOwners(db.users, email, target);
  }

  /** Once a user owns nothing, deleting the user deletes the user row and nothing else: the cascade
      finds no comment and no identity. */
  lemma CascadeIsEmpty(db: Tables, others: set<nat>, target: nat, u: nat)
    requires u in others && target !in others
    ensures AfterDelUser(Reassigned(db, others, target), u) == Reassigned(db, others, target).(users := db.users - {u})
  {
    var db' := Reassigned(db, others, target);
    assert OwnedBy(db', u) == {};
    assert Closure(LinksOf(db'.comments), {}) == {};
    assert IdentitiesWithout(db', u) == db'.identities;
    assert db'.comments - {} == db'.comments;
  }

  /** Reassigning owners changes no link, no root and no counter. */
  lemma ReassignKeepsForest(t: CommentTable, others: set<nat>, target: nat)
    requires ValidForest(t)
    ensures ValidForest(MoveComments(t, others, target))
  {
    assert LinksOf(MoveComments(t, others, target)) == LinksOf(t);
  }

  lemma ReassignKeepsLedger(db: Tables, others: set<nat>, target: nat, db': Tables)
    requires ValidLedger(db) && db'.pages == db.pages
    requires db'.comments == MoveComments(db.comments, others, target)
    requires db'.votes == MoveVotes(db.votes, others, target)
    ensures ValidLedger(db')
  {
    forall t, id: nat, c | TargetExists(db', t, id)
      ensures CounterOf(db', t, id, c) == CountFor(db'.votes, t, id, c)
    {
      assert TargetExists(db, t, id);
      assert CounterOf(db', t, id, c) == CounterOf(db, t, id, c);
      assert VotesFor(db'.votes, t, id, c) == VotesFor(db.votes, t, id, c);
    }
    forall v, w | v in db'.votes && w in db'.votes && SameVoter(db'.votes[v], db'.votes[w])
      ensures v == w
    {
      assert SameVoter(db.votes[v], db.votes[w]);
    }
  }

  lemma TrimmedIsAnother()
    ensures TrimSpace(" a@b.co") == "a@b.co" && Lower(" a@b.co") != Lower("a@b.co")
  {
    assert " a@b.co"[1..] == "a@b.co";
    assert TrimLeft(" a@b.co") == TrimLeft("a@b.co") == "a@b.co" && TrimRight("a@b.co") == "a@b.co";
    assert |Lower("a@b.co")| == 6 && |Lower(" a@b.co")| == 7;
  }

  /** An account stored with an untrimmed email, as accounts from the configuration file can be. A merge of it
      creates another account with the trimmed email and deletes this one. */
  lemma UntrimmedEmailIsLost(db: Tables, isAdmin: bool)
    requires db.users == map[1 := User("n", " a@b.co", isAdmin)] && db.nextUser == 2
    ensures var db' := Reassigned(db, {1}, 2).(users := map[2 := User("n", "a@b.co", isAdmin)], nextUser := 3);
            && IsMerge(db, db', " a@b.co", "n", TrimSpace(" a@b.co"), 2)
            && UsersWithEmail(db'.users, " a@b.co") == {}
  {
    TrimmedIsAnother();
    MergeIntoNewAccount(db, " a@b.co", "n", "a@b.co", isAdmin);
  }

  lemma MergeIntoNewAccount(db: Tables, email: string, name: string, trimmed: string, isAdmin: bool)
    requires db.users == map[1 := User(name, email, isAdmin)] && db.nextUser == 2 && Lower(email) != Lower(trimmed)
    ensures var db' := Reassigned(db, {1}, 2).(users := map[2 := User(name, trimmed, isAdmin)], nextUser := 3);
            IsMerge(db, db', email, name, trimmed, 2) && UsersWithEmail(db'.users, email) == {}
  {
    var after := map[2 := User(name, trimmed, isAdmin)];
    var db1 := db.(users := db.users[2 := User(name, trimmed, false)], nextUser := 3);
    OneUserWithEmail(db.users, email, name, isAdmin);
    NewAccount(db.users, email, name, trimmed, isAdmin);
    assert {1} - {2} == {1};
    assert Reassigned(db1, {1}, 2).(users := after) == Reassigned(db, {1}, 2).(users := after, nextUser := 3);
    StepsAreMerge(db, db1, Reassigned(db1, {1}, 2).(users := after), email, name, trimmed, 2, isAdmin);
  }

  lemma NewAccount(users: map<nat, User>, email: string, name: string, trimmed: string, isAdmin: bool)
    requires users == map[1 := User(name, email, isAdmin)] && Lower(email) != Lower(trimmed)
    ensures var users1, after := users[2 := User(name, trimmed, false)], map[2 := User(name, trimmed, isAdmin)];
            && IsFoundOrCreated(users, users1, name, trimmed, 2)
            && after == users1[2 := users1[2].(isAdmin := isAdmin)] - {1}
            && UsersWithEmail(after, email) == {}
  {
  }

  lemma OneUserWithEmail(users: map<nat, User>, email: string, name: string, isAdmin: bool)
    requires users == map[1 := User(name, email, isAdmin)]
    ensures UsersWithEmail(users, email) == {1}
    ensures isAdmin <==> exists u :: u in UsersWithEmail(users, email) && users[u].isAdmin
  {
    assert 1 in UsersWithEmail(users, email);
  }
}
