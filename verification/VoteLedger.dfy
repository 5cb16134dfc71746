/** Vote rows against the counters kept on comments and pages. */
module VoteLedger {
  import opened Options
  import opened Entity

  ghost function VotesFor(votes: map<nat, Vote>, target: Target, id: nat, choice: Choice): set<nat> {
    set v | v in votes && votes[v].target == target && votes[v].targetId == id && votes[v].choice == choice
  }

  ghost function CountFor(votes: map<nat, Vote>, target: Target, id: nat, choice: Choice): nat {
    |VotesFor(votes, target, id, choice)|
  }

  /** The votes one address holds on one target. */
  ghost function VotesOf(votes: map<nat, Vote>, target: Target, id: nat, ip: string): set<nat> {
    set v | v in votes && votes[v].target == target && votes[v].targetId == id && votes[v].ip == ip
  }

  ghost predicate TargetExists(db: Tables, target: Target, id: nat) {
    match target
    case OnComment => id in db.comments
    case OnPage => id in db.pages
  }

  /** The counters stored on a target. */
  ghost function CounterOf(db: Tables, target: Target, id: nat, choice: Choice): int
    requires TargetExists(db, target, id)
  {
    match (target, choice)
    case (OnComment, ThumbUp) => db.comments[id].voteUp
    case (OnComment, ThumbDown) => db.comments[id].voteDown
    case (OnPage, ThumbUp) => db.pages[id].voteUp
    case (OnPage, ThumbDown) => db.pages[id].voteDown
  }

  ghost predicate CountersMatch(db: Tables) {
    forall target, id, choice :: TargetExists(db, target, id) ==>
      CounterOf(db, target, id, choice) == CountFor(db.votes, target, id, choice)
  }

  ghost predicate NoOrphanVotes(db: Tables) {
    forall v :: v in db.votes ==> TargetExists(db, db.votes[v].target, db.votes[v].targetId)
  }

  ghost predicate SameVoter(v: Vote, w: Vote) {
    v.ip != "" && v.ip == w.ip && v.target == w.target && v.targetId == w.targetId
  }

  /** Imported votes carry no address; every real address has at most one vote per target. */
  ghost predicate OneVotePerAddress(votes: map<nat, Vote>) {
    forall v, w :: v in votes && w in votes && SameVoter(votes[v], votes[w]) ==> v == w
  }

  ghost predicate ValidLedger(db: Tables) {
    CountersMatch(db) && NoOrphanVotes(db) && OneVotePerAddress(db.votes)
  }

  // ---------------------------------------------------------------------------------------------
  // Casting a vote
  // ---------------------------------------------------------------------------------------------

  datatype Ballot = Ballot(target: Target, id: nat, choice: Choice, userId: nat, ip: string)

  /** Repeating the choice of an existing vote selects nothing. */
  function Selected(b: Ballot, existing: Option<Choice>): Option<Choice> {
    if existing == Some(b.choice) then None else Some(b.choice)
  }

  /** The vote rows after a ballot: the old rows of the address are gone, the selected choice (if
      any) is a new one. */
  ghost function RowsAfterVote(votes: map<nat, Vote>, b: Ballot, selected: Option<Choice>, newId: nat): map<nat, Vote> {
    var kept := votes - VotesOf(votes, b.target, b.id, b.ip);
    match selected
    case None => kept
    case Some(c) => kept[newId := Vote(b.target, b.id, c, b.userId, b.ip)]
  }

  ghost function WithCounters(db: Tables, target: Target, id: nat): Tables
    requires TargetExists(db, target, id)
  {
    var up, down := CountFor(db.votes, target, id, ThumbUp), CountFor(db.votes, target, id, ThumbDown);
    match target
    case OnComment => db.(comments := db.comments[id := db.comments[id].(voteUp := up, voteDown := down)])
    case OnPage => db.(pages := db.pages[id := db.pages[id].(voteUp := up, voteDown := down)])
  }

  /** The tables after a ballot: new vote rows, and both counters of the target recounted. */
  ghost function AfterVote(db: Tables, b: Ballot, selected: Option<Choice>): Tables
    requires TargetExists(db, b.target, b.id)
  {
    var db' := db.(votes := RowsAfterVote(db.votes, b, selected, db.nextVote),
                   nextVote := if selected.Some? then db.nextVote + 1 else db.nextVote);
    WithCounters(db', b.target, b.id)
  }

  /** What the address currently holds on the target, where at most one row can be. */
  ghost predicate Holds(votes: map<nat, Vote>, b: Ballot, held: Option<Choice>) {
    match held
    case None => VotesOf(votes, b.target, b.id, b.ip) == {}
    case Some(c) => exists v :: VotesOf(votes, b.target, b.id, b.ip) == {v} && votes[v].choice == c
  }

  /** The choice of one of the rows the address holds on the target; None if it holds no row. */
  ghost predicate HoldsAmong(votes: map<nat, Vote>, b: Ballot, held: Option<Choice>) {
    match held
    case None => VotesOf(votes, b.target, b.id, b.ip) == {}
    case Some(c) => exists v :: v in VotesOf(votes, b.target, b.id, b.ip) && votes[v].choice == c
  }

  /** With one vote per address there is no doubt what a real address holds. */
  lemma OneVoteIsHeld(votes: map<nat, Vote>, b: Ballot, held: Option<Choice>)
    requires OneVotePerAddress(votes) && b.ip != "" && HoldsAmong(votes, b, held)
    ensures Holds(votes, b, held)
    ensures forall other :: HoldsAmong(votes, b, other) ==> other == held
  {
    var mine := VotesOf(votes, b.target, b.id, b.ip);
    if held.Some? {
      var v :| v in mine && votes[v].choice == held.value;
      forall w | w in mine
        ensures w == v
      {
        assert SameVoter(votes[v], votes[w]);
      }
      assert mine == {v};
    }
  }

  /** A ballot changes no vote row of any other target, or of any other address. */
  lemma VoteTouchesOnlyItsOwn(votes: map<nat, Vote>, b: Ballot, selected: Option<Choice>, newId: nat, target: Target,
                              id: nat)
    requires newId !in votes
    ensures var votes' := RowsAfterVote(votes, b, selected, newId);
            && (forall v ::
                  v in votes && (votes[v].target, votes[v].targetId, votes[v].ip) != (b.target, b.id, b.ip) ==>
                  v in votes' && votes'[v] == votes[v])
            && (forall v :: v in votes' && v != newId ==> v in votes && votes'[v] == votes[v])
            && ((target, id) != (b.target, b.id) ==>
                  forall choice :: VotesFor(votes', target, id, choice) == VotesFor(votes, target, id, choice))
  {
    var votes' := RowsAfterVote(votes, b, selected, newId);
    if (target, id) != (b.target, b.id) {
      forall choice
        ensures VotesFor(votes', target, id, choice) == VotesFor(votes, target, id, choice)
      {
      }
    }
  }

  /** The address holds what was selected, and nothing else. */
  lemma VoteIsHeld(votes: map<nat, Vote>, b: Ballot, selected: Option<Choice>, newId: nat)
    requires newId !in votes
    ensures VotesOf(RowsAfterVote(votes, b, selected, newId), b.target, b.id, b.ip) ==
              if selected.Some? then {newId} else {}
    ensures Holds(RowsAfterVote(votes, b, selected, newId), b, selected)
  {
    var votes' := RowsAfterVote(votes, b, selected, newId);
    assert VotesOf(votes', b.target, b.id, b.ip) == if selected.Some? then {newId} else {};
  }

  lemma SplitCount<T>(s: set<T>, part: set<T>)
    ensures |s| == |s - part| + |s * part|
  {
    assert s == (s - part) + (s * part);
  }

  lemma VoteMovesCount(votes: map<nat, Vote>, b: Ballot, held: Option<Choice>, selected: Option<Choice>, newId: nat,
                       c: Choice)
    requires newId !in votes && Holds(votes, b, held)
    ensures CountFor(RowsAfterVote(votes, b, selected, newId), b.target, b.id, c) ==
              CountFor(votes, b.target, b.id, c)
                + (if selected == Some(c) then 1 else 0) - (if held == Some(c) then 1 else 0)
  {
    var votes' := RowsAfterVote(votes, b, selected, newId);
    var mine, mine' := VotesOf(votes, b.target, b.id, b.ip), if selected.Some? then {newId} else {};
    KeptVotesCount(votes, b, selected, newId, c);
    CountMoves(VotesFor(votes, b.target, b.id, c), mine, VotesFor(votes', b.target, b.id, c), mine');
    HeldCounts(votes, b, held, c);
    SelectedCounts(votes, b, selected, newId, c);
  }

  lemma CountMoves(before: set<nat>, mine: set<nat>, after: set<nat>, mine': set<nat>)
    requires after - mine' == before - mine
    ensures |after| == |before| - |before * mine| + |after * mine'|
  {
    SplitCount(before, mine);
    SplitCount(after, mine');
  }

  lemma SelectedCounts(votes: map<nat, Vote>, b: Ballot, selected: Option<Choice>, newId: nat, c: Choice)
    requires newId !in votes
    ensures var mine' := if selected.Some? then {newId} else {};
            |VotesFor(RowsAfterVote(votes, b, selected, newId), b.target, b.id, c) * mine'| ==
              if selected == Some(c) then 1 else 0
  {
    var after := VotesFor(RowsAfterVote(votes, b, selected, newId), b.target, b.id, c);
    if selected.Some? {
      assert after * {newId} == if selected == Some(c) then {newId} else {};
    }
  }

  lemma HeldCounts(votes: map<nat, Vote>, b: Ballot, held: Option<Choice>, c: Choice)
    requires Holds(votes, b, held)
    ensures |VotesFor(votes, b.target, b.id, c) * VotesOf(votes, b.target, b.id, b.ip)| ==
              if held == Some(c) then 1 else 0
  {
    var mine, before := VotesOf(votes, b.target, b.id, b.ip), VotesFor(votes, b.target, b.id, c);
    if held.Some? {
      var v :| mine == {v} && votes[v].choice == held.value;
      assert v in mine;
      assert before * mine == if held == Some(c) then {v} else {};
    }
  }

  lemma KeptVotesCount(votes: map<nat, Vote>, b: Ballot, selected: Option<Choice>, newId: nat, c: Choice)
    requires newId !in votes
    ensures VotesFor(RowsAfterVote(votes, b, selected, newId), b.target, b.id, c)
              - (if selected.Some? then {newId} else {})
         == VotesFor(votes, b.target, b.id, c) - VotesOf(votes, b.target, b.id, b.ip)
  {
  }

  /** One more row is counted once, where it belongs. */
  lemma VoteAdds(votes: map<nat, Vote>, id: nat, v: Vote, target: Target, targetId: nat, c: Choice)
    requires id !in votes
    ensures CountFor(votes[id := v], target, targetId, c) ==
              CountFor(votes, target, targetId, c)
                + (if (v.target, v.targetId, v.choice) == (target, targetId, c) then 1 else 0)
  {
    var before, after := VotesFor(votes, target, targetId, c), VotesFor(votes[id := v], target, targetId, c);
    forall w
      ensures w in after <==> w in before || (w == id && (v.target, v.targetId, v.choice) == (target, targetId, c))
    {
    }
    assert id !in before;
    if (v.target, v.targetId, v.choice) == (target, targetId, c) {
      assert after == before + {id};
    } else {
      assert after == before;
    }
  }

  /** A ballot keeps the ledger right. */
  lemma VoteKeepsLedger(db: Tables, b: Ballot, selected: Option<Choice>)
    requires FreshIds(db) && ValidLedger(db) && TargetExists(db, b.target, b.id)
    ensures ValidLedger(AfterVote(db, b, selected))
  {
    var db' := AfterVote(db, b, selected);
    assert CountersMatch(db') by {
      forall target, id: nat, choice | TargetExists(db', target, id)
        ensures CounterOf(db', target, id, choice) == CountFor(db'.votes, target, id, choice)
      {
        VoteKeepsCounter(db, b, selected, target, id, choice);
      }
    }
    VoteKeepsOnePerAddress(db.votes, b, selected, db.nextVote);
    VoteKeepsTargets(db, b, selected);
  }

  lemma VoteKeepsTargets(db: Tables, b: Ballot, selected: Option<Choice>)
    requires FreshIds(db) && NoOrphanVotes(db) && TargetExists(db, b.target, b.id)
    ensures NoOrphanVotes(AfterVote(db, b, selected)) && FreshIds(AfterVote(db, b, selected))
  {
    VoteTouchesOnlyItsOwn(db.votes, b, selected, db.nextVote, b.target, b.id);
    VoteKeepsTables(db, b, selected);
    VotesHaveTargets(db, AfterVote(db, b, selected), b, selected);
  }

  /** The new row is the voter's, under the address and for the target of the ballot. Of the rows before, those
      of that address on that target go, and all others stay as they were. */
  lemma VoteIsRecorded(db: Tables, b: Ballot, selected: Option<Choice>)
    requires FreshIds(db) && TargetExists(db, b.target, b.id)
    ensures var db' := AfterVote(db, b, selected);
            && (selected.Some? ==>
                  && db.nextVote !in db.votes && db.nextVote in db'.votes
                  && db'.votes[db.nextVote].userId == b.userId && db'.votes[db.nextVote].ip == b.ip
                  && db'.votes[db.nextVote].target == b.target && db'.votes[db.nextVote].targetId == b.id
                  && db'.votes[db.nextVote].choice == selected.value)
            && (forall v :: v in db'.votes && !(selected.Some? && v == db.nextVote) ==>
                  v in db.votes && db'.votes[v] == db.votes[v])
            && (forall v :: v in db.votes ==>
                  (v in db'.votes <==>
                   !(db.votes[v].target == b.target && db.votes[v].targetId == b.id && db.votes[v].ip == b.ip)))
  {
    VoteKeepsTables(db, b, selected);
  }

  /** Nothing but the two counters of the target changes in comments and pages. */
  lemma VoteChangesCountersOnly(db: Tables, b: Ballot, selected: Option<Choice>)
    requires TargetExists(db, b.target, b.id)
    ensures var db' := AfterVote(db, b, selected);
            && db'.comments.Keys == db.comments.Keys && db'.pages.Keys == db.pages.Keys
            && (forall x :: x in db.comments ==>
                  if b.target == OnComment && x == b.id then
                    db'.comments[x].(voteUp := 0, voteDown := 0) == db.comments[x].(voteUp := 0, voteDown := 0)
                  else db'.comments[x] == db.comments[x])
            && (forall p :: p in db.pages ==>
                  if b.target == OnPage && p == b.id then
                    db'.pages[p].(voteUp := 0, voteDown := 0) == db.pages[p].(voteUp := 0, voteDown := 0)
                  else db'.pages[p] == db.pages[p])
            && db'.users == db.users && db'.identities == db.identities && db'.notifies == db.notifies
  {
  }

  /** No row of a table other than the votes comes or goes. */
  lemma VoteKeepsTables(db: Tables, b: Ballot, selected: Option<Choice>)
    requires TargetExists(db, b.target, b.id)
    ensures var db' := AfterVote(db, b, selected);
            && db'.comments.Keys == db.comments.Keys && db'.pages.Keys == db.pages.Keys && db'.users == db.users
            && db'.nextComment == db.nextComment && db'.nextPage == db.nextPage && db'.nextUser == db.nextUser
            && db'.votes == RowsAfterVote(db.votes, b, selected, db.nextVote)
            && db'.nextVote == if selected.Some? then db.nextVote + 1 else db.nextVote
  {
  }

  lemma VotesHaveTargets(db: Tables, db': Tables, b: Ballot, selected: Option<Choice>)
    requires FreshIds(db) && NoOrphanVotes(db) && TargetExists(db, b.target, b.id)
    requires db'.comments.Keys == db.comments.Keys && db'.pages.Keys == db.pages.Keys && db'.users == db.users
    requires db'.nextComment == db.nextComment && db'.nextPage == db.nextPage && db'.nextUser == db.nextUser
    requires db'.votes == RowsAfterVote(db.votes, b, selected, db.nextVote)
    requires db'.nextVote == if selected.Some? then db.nextVote + 1 else db.nextVote
    ensures NoOrphanVotes(db') && FreshIds(db')
  {
    forall v | v in db'.votes
      ensures TargetExists(db', db'.votes[v].target, db'.votes[v].targetId) && 0 < v < db'.nextVote
    {
      if v in db.votes && v != db.nextVote {
        assert TargetExists(db, db.votes[v].target, db.votes[v].targetId);
      }
    }
  }

  lemma VoteKeepsOnePerAddress(votes: map<nat, Vote>, b: Ballot, selected: Option<Choice>, newId: nat)
    requires OneVotePerAddress(votes) && newId !in votes
    ensures OneVotePerAddress(RowsAfterVote(votes, b, selected, newId))
  {
    var votes' := RowsAfterVote(votes, b, selected, newId);
    VoteTouchesOnlyItsOwn(votes, b, selected, newId, b.target, b.id);
    VoteIsHeld(votes, b, selected, newId);
    forall v, w | v in votes' && w in votes' && SameVoter(votes'[v], votes'[w])
      ensures v == w
    {
      if v == newId || w == newId {
        assert v in VotesOf(votes', b.target, b.id, b.ip) && w in VotesOf(votes', b.target, b.id, b.ip);
      }
    }
  }

  lemma VoteKeepsCounter(db: Tables, b: Ballot, selected: Option<Choice>, target: Target, id: nat, choice: Choice)
    requires FreshIds(db) && CountersMatch(db) && TargetExists(db, b.target, b.id)
    requires TargetExists(AfterVote(db, b, selected), target, id)
    ensures TargetExists(db, target, id)
    ensures CounterOf(AfterVote(db, b, selected), target, id, choice) ==
              CountFor(AfterVote(db, b, selected).votes, target, id, choice)
  {
    var votes' := RowsAfterVote(db.votes, b, selected, db.nextVote);
    CountersAfterVote(db, b, selected, target, id, choice);
    VoteKeepsTables(db, b, selected);
    if (target, id) != (b.target, b.id) {
      VoteTouchesOnlyItsOwn(db.votes, b, selected, db.nextVote, target, id);
      assert VotesFor(votes', target, id, choice) == VotesFor(db.votes, target, id, choice);
    }
  }

  /** The target is recounted, other counters are untouched. */
  lemma CountersAfterVote(db: Tables, b: Ballot, selected: Option<Choice>, target: Target, id: nat, choice: Choice)
    requires TargetExists(db, b.target, b.id) && TargetExists(AfterVote(db, b, selected), target, id)
    ensures TargetExists(db, target, id)
    ensures CounterOf(AfterVote(db, b, selected), target, id, choice) ==
              if (target, id) == (b.target, b.id)
              then CountFor(RowsAfterVote(db.votes, b, selected, db.nextVote), target, id, choice)
              else CounterOf(db, target, id, choice)
  {
  }

  /** A ballot toggles: afterwards the address holds its choice, unless that is what it held already,
      in which case it holds nothing; and each counter moves by exactly that difference. */
  lemma VoteToggles(db: Tables, b: Ballot, held: Option<Choice>)
    requires FreshIds(db) && ValidLedger(db) && TargetExists(db, b.target, b.id)
    requires Holds(db.votes, b, held)
    ensures var db' := AfterVote(db, b, Selected(b, held));
            && Holds(db'.votes, b, if held == Some(b.choice) then None else Some(b.choice))
            && TargetExists(db', b.target, b.id)
            && forall c :: CounterOf(db', b.target, b.id, c) == CounterOf(db, b.target, b.id, c)
                 + (if Selected(b, held) == Some(c) then 1 else 0) - (if held == Some(c) then 1 else 0)
  {
    VoteKeepsTables(db, b, Selected(b, held));
    VoteIsHeld(db.votes, b, Selected(b, held), db.nextVote);
    forall c
      ensures CounterOf(AfterVote(db, b, Selected(b, held)), b.target, b.id, c) == CounterOf(db, b.target, b.id, c)
                + (if Selected(b, held) == Some(c) then 1 else 0) - (if held == Some(c) then 1 else 0)
    {
      CountersAfterVote(db, b, Selected(b, held), b.target, b.id, c);
      VoteMovesCount(db.votes, b, held, Selected(b, held), db.nextVote, c);
    }
  }

  /** Casting the same ballot twice puts both counts back exactly when the address had not voted the
      other way before: then it ends with what it held. From the opposite choice the first ballot
      switches the vote and the second withdraws it. */
  lemma VoteTwice(votes: map<nat, Vote>, b: Ballot, held: Option<Choice>, newId: nat, newId': nat)
    requires newId !in votes && newId' !in votes && newId != newId' && Holds(votes, b, held)
    ensures var votes1 := RowsAfterVote(votes, b, Selected(b, held), newId);
            var votes2 := RowsAfterVote(votes1, b, Selected(b, Selected(b, held)), newId');
            && ((forall c :: CountFor(votes2, b.target, b.id, c) == CountFor(votes, b.target, b.id, c)) <==>
                held.None? || held.value == b.choice)
            && (held.None? ==> votes2 == votes)
            && Holds(votes2, b, if held == Some(b.choice) then held else None)
  {
    var votes1 := RowsAfterVote(votes, b, Selected(b, held), newId);
    VoteIsHeld(votes, b, Selected(b, held), newId);
    VoteIsHeld(votes1, b, Selected(b, Selected(b, held)), newId');
    var votes2 := RowsAfterVote(votes1, b, Selected(b, Selected(b, held)), newId');
    forall c
      ensures CountFor(votes2, b.target, b.id, c) == CountFor(votes, b.target, b.id, c)
                + (if Selected(b, Selected(b, held)) == Some(c) then 1 else 0) - (if held == Some(c) then 1 else 0)
    {
      VoteMovesCount(votes, b, held, Selected(b, held), newId, c);
      VoteMovesCount(votes1, b, Selected(b, held), Selected(b, Selected(b, held)), newId', c);
    }
    if held.None? {
      VoteThenWithdraw(votes, b, newId, newId');
    } else if held.value != b.choice {
      assert CountFor(votes2, b.target, b.id, held.value) == CountFor(votes, b.target, b.id, held.value) - 1;
    }
  }

  lemma VoteThenWithdraw(votes: map<nat, Vote>, b: Ballot, newId: nat, newId': nat)
    requires newId !in votes && VotesOf(votes, b.target, b.id, b.ip) == {}
    ensures RowsAfterVote(RowsAfterVote(votes, b, Some(b.choice), newId), b, None, newId') == votes
  {
    VoteIsHeld(votes, b, Some(b.choice), newId);
    assert votes - {} == votes;
  }

  // ---------------------------------------------------------------------------------------------
  // Recomputing all counters, and the other operations
  // ---------------------------------------------------------------------------------------------

  ghost function RecountedComment(votes: map<nat, Vote>, id: nat, c: Comment): Comment {
    c.(voteUp := CountFor(votes, OnComment, id, ThumbUp), voteDown := CountFor(votes, OnComment, id, ThumbDown))
  }

  ghost function RecountedPage(votes: map<nat, Vote>, id: nat, p: Page): Page {
    p.(voteUp := CountFor(votes, OnPage, id, ThumbUp), voteDown := CountFor(votes, OnPage, id, ThumbDown))
  }

  ghost function AfterVoteSync(db: Tables): Tables {
    db.(comments := map id | id in db.comments :: RecountedComment(db.votes, id, db.comments[id]),
        pages := map id | id in db.pages :: RecountedPage(db.votes, id, db.pages[id]))
  }

  lemma SyncMatches(db: Tables)
    ensures CountersMatch(AfterVoteSync(db))
  {
  }

  lemma SyncOfMatchingComments(db: Tables)
    requires CountersMatch(db)
    ensures AfterVoteSync(db).comments == db.comments
  {
    forall id | id in db.comments
      ensures AfterVoteSync(db).comments[id] == db.comments[id]
    {
      assert TargetExists(db, OnComment, id);
      assert CounterOf(db, OnComment, id, ThumbUp) == db.comments[id].voteUp;
      assert CounterOf(db, OnComment, id, ThumbDown) == db.comments[id].voteDown;
    }
  }

  lemma SyncOfMatchingPages(db: Tables)
    requires CountersMatch(db)
    ensures AfterVoteSync(db).pages == db.pages
  {
    forall id | id in db.pages
      ensures AfterVoteSync(db).pages[id] == db.pages[id]
    {
      assert TargetExists(db, OnPage, id);
      assert CounterOf(db, OnPage, id, ThumbUp) == db.pages[id].voteUp;
      assert CounterOf(db, OnPage, id, ThumbDown) == db.pages[id].voteDown;
    }
  }

  lemma SyncOfMatching(db: Tables)
    requires CountersMatch(db)
    ensures AfterVoteSync(db) == db
  {
    SyncOfMatchingComments(db);
    SyncOfMatchingPages(db);
  }

  /** Synchronising touches nothing but counters. */
  lemma SyncChangesCountersOnly(db: Tables)
    ensures var db' := AfterVoteSync(db);
            && db'.comments.Keys == db.comments.Keys && db'.pages.Keys == db.pages.Keys
            && (forall x :: x in db.comments ==>
                  db'.comments[x].(voteUp := 0, voteDown := 0) == db.comments[x].(voteUp := 0, voteDown := 0))
            && (forall p :: p in db.pages ==>
                  db'.pages[p].(voteUp := 0, voteDown := 0) == db.pages[p].(voteUp := 0, voteDown := 0))
            && db'.votes == db.votes && db'.users == db.users && db'.notifies == db.notifies
            && db'.identities == db.identities
  {
  }

  /** Synchronising repairs any counters, and changes nothing exactly when none was wrong. */
  lemma VoteSyncRepairs(db: Tables)
    ensures CountersMatch(AfterVoteSync(db))
    ensures AfterVoteSync(db) == db <==> CountersMatch(db)
  {
    SyncMatches(db);
    if CountersMatch(db) {
      SyncOfMatching(db);
    }
  }

  /** Removing comments removes their votes and no vote of anything else, a page with the same id
      included. */
  lemma RemovalKeepsLedger(db: Tables, gone: set<nat>)
    requires ValidLedger(db)
    ensures ValidLedger(RemoveComments(db, gone))
  {
    var db' := RemoveComments(db, gone);
    forall target, id: nat, choice | TargetExists(db', target, id)
      ensures CounterOf(db', target, id, choice) == CountFor(db'.votes, target, id, choice)
    {
      assert TargetExists(db, target, id);
      assert VotesFor(db'.votes, target, id, choice) == VotesFor(db.votes, target, id, choice);
      assert CounterOf(db', target, id, choice) == CounterOf(db, target, id, choice);
    }
  }

  /** A new row starts with counters 0, and no vote names it yet. */
  lemma CreationKeepsLedger(db: Tables, db': Tables, target: Target, id: nat)
    requires FreshIds(db) && ValidLedger(db) && db'.votes == db.votes && !TargetExists(db, target, id)
    requires match target
      case OnComment =>
        id in db'.comments && db'.comments == db.comments[id := db'.comments[id]] && db'.pages == db.pages
      case OnPage => id in db'.pages && db'.pages == db.pages[id := db'.pages[id]] && db'.comments == db.comments
    requires CounterOf(db', target, id, ThumbUp) == 0 == CounterOf(db', target, id, ThumbDown)
    ensures ValidLedger(db')
  {
    forall t, i: nat, choice | TargetExists(db', t, i)
      ensures CounterOf(db', t, i, choice) == CountFor(db'.votes, t, i, choice)
    {
      if (t, i) == (target, id) {
        assert VotesFor(db'.votes, t, i, choice) == {};
      } else {
        assert TargetExists(db, t, i);
      }
    }
  }

  /** An address that held "down" and votes "up" twice ends with no vote: its "down" is gone. */
  lemma SwitchIsNotUndone(down: Vote, b: Ballot)
    requires down == Vote(b.target, b.id, ThumbDown, b.userId, b.ip) && b.choice == ThumbUp
    ensures var votes := map[1 := down];
            var votes1 := RowsAfterVote(votes, b, Selected(b, Some(ThumbDown)), 2);
            var votes2 := RowsAfterVote(votes1, b, Selected(b, Selected(b, Some(ThumbDown))), 3);
            Holds(votes, b, Some(ThumbDown)) && votes2 == map[]
  {
    var votes := map[1 := down];
    assert VotesOf(votes, b.target, b.id, b.ip) == {1};
    var votes1 := RowsAfterVote(votes, b, Some(ThumbUp), 2);
    assert votes1 == map[2 := Vote(b.target, b.id, ThumbUp, b.userId, b.ip)];
    assert VotesOf(votes1, b.target, b.id, b.ip) == {2};
  }
}
