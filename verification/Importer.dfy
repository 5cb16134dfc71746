/** Importing rows: numbering, batch insert, relinking, and one mock vote per imported vote.

    How page keys are resolved and which account a row belongs to are functions given with the
    parameters. Rows without a site name or a page key are skipped. */
module Importer {
  import opened Text
  import opened Entity
  import opened Database
  import opened GenIds

  datatype Params = Params(targetSiteName: string, resolve: string -> string, accountOf: (string, string) -> nat)

  predicate IsTrue(s: string) {
    s == "true" || s == "1"
  }

  function SiteOf(p: Params, row: Artran): string {
    TrimSpace(if p.targetSiteName != "" then p.targetSiteName else row.siteName)
  }

  predicate Skipped(p: Params, row: Artran) {
    SiteOf(p, row) == "" || TrimSpace(row.pageKey) == ""
  }

  /** The positions of the rows that are not skipped. */
  function Kept(p: Params, rows: seq<Artran>): seq<nat>
    ensures forall k :: 0 <= k < |Kept(p, rows)| ==> Kept(p, rows)[k] < |rows|
  {
    if rows == [] then []
    else Kept(p, rows[..|rows| - 1]) + if Skipped(p, rows[|rows| - 1]) then [] else [|rows| - 1]
  }

  /** A row as it is first inserted: links are still GenIds. */
  function Prepared(p: Params, rows: seq<Artran>, i: nat): Comment
    requires i < |rows|
  {
    var c := rows[i];
    Comment(c.content, p.resolve(TrimSpace(c.pageKey)), SiteOf(p, c), p.accountOf(c.nick, c.email), c.ua, c.ip,
            GenId(rows, c.rid), GenRoot(rows, c.rid), IsTrue(c.isCollapsed), IsTrue(c.isPending), IsTrue(c.isPinned),
            Atoi(c.voteUp), Atoi(c.voteDown), "", "")
  }

  /** The dates to restore are kept by the position of the row, but looked up by the position among
      the rows that were inserted; a skipped position has none. */
  function CreatedAt(p: Params, rows: seq<Artran>, k: nat): string {
    if k < |rows| && !Skipped(p, rows[k]) then rows[k].createdAt else ""
  }

  function UpdatedAt(p: Params, rows: seq<Artran>, k: nat): string {
    if k >= |rows| || Skipped(p, rows[k]) then ""
    else if rows[k].updatedAt != "" then rows[k].updatedAt
    else rows[k].createdAt
  }

  /** The k-th inserted row after relinking; n rows were inserted from id base on. */
  function Relinked(p: Params, rows: seq<Artran>, c: Comment, k: nat, base: nat, n: nat): Comment {
    var dated := c.(createdAt := CreatedAt(p, rows, k), updatedAt := UpdatedAt(p, rows, k));
    if c.rid == 0 then dated else dated.(rid := DbId(base, n, c.rid), rootId := DbId(base, n, c.rootId))
  }

  function Stored(p: Params, rows: seq<Artran>, k: nat, base: nat): Comment
    requires k < |Kept(p, rows)|
  {
    Relinked(p, rows, Prepared(p, rows, Kept(p, rows)[k]), k, base, |Kept(p, rows)|)
  }

  function Positive(n: int): nat {
    if n > 0 then n else 0
  }

  /** The mock votes of one comment: one row per counted vote, of no address; none for a counter that
      is negative. */
  function MocksOf(c: Comment, id: nat): seq<Vote> {
    Copies(Vote(OnComment, id, ThumbUp, 0, ""), Positive(c.voteUp))
      + Copies(Vote(OnComment, id, ThumbDown, 0, ""), Positive(c.voteDown))
  }

  function Copies(v: Vote, n: nat): seq<Vote> {
    if n == 0 then [] else Copies(v, n - 1) + [v]
  }

  /** The mock votes of comments stored from id base on. */
  function MocksOfAll(added: seq<Comment>, base: nat): seq<Vote> {
    if added == [] then []
    else MocksOfAll(added[..|added| - 1], base) + MocksOf(added[|added| - 1], base + |added| - 1)
  }

  function StoredUpTo(p: Params, rows: seq<Artran>, base: nat, n: nat): (added: seq<Comment>)
    requires n <= |Kept(p, rows)|
    ensures |added| == n
  {
    if n == 0 then [] else StoredUpTo(p, rows, base, n - 1) + [Stored(p, rows, n - 1, base)]
  }

  lemma {:induction false} StoredAt(p: Params, rows: seq<Artran>, base: nat, n: nat, k: nat)
    requires k < n <= |Kept(p, rows)|
    ensures StoredUpTo(p, rows, base, n)[k] == Stored(p, rows, k, base)
    decreases n
  {
    if k < n - 1 {
      StoredAt(p, rows, base, n - 1, k);
    }
  }

  function StoredRows(p: Params, rows: seq<Artran>, base: nat): seq<Comment> {
    StoredUpTo(p, rows, base, |Kept(p, rows)|)
  }

  predicate InBatch(id: nat, base: nat, n: nat) {
    base <= id < base + n
  }

  /** The added comments under consecutive ids. */
  function Batch(added: seq<Comment>, base: Id): CommentTable {
    map id: nat | id < base + |added| && InBatch(id, base, |added|) :: added[id - base]
  }

  function VoteBatch(added: seq<Vote>, base: Id): map<nat, Vote> {
    map id: nat | id < base + |added| && InBatch(id, base, |added|) :: added[id - base]
  }

  /** The tables after an import. */
  ghost function AfterImport(db: Tables, p: Params, rows: seq<Artran>): Tables {
    var added := StoredRows(p, rows, db.nextComment);
    var mocks := MocksOfAll(added, db.nextComment);
    db.(comments := db.comments + Batch(added, db.nextComment), nextComment := db.nextComment + |added|,
        votes := db.votes + VoteBatch(mocks, db.nextVote), nextVote := db.nextVote + |mocks|)
  }

  // ---------------------------------------------------------------------------------------------
  // Numbering
  // ---------------------------------------------------------------------------------------------

  function Lookup(m: map<string, nat>, s: string): nat {
    if s in m then m[s] else 0
  }

  method BuildGenIdMap(rows: seq<Artran>) returns (genIdMap: map<string, nat>)
    ensures forall s :: Lookup(genIdMap, s) == GenId(rows, s)
  {
    genIdMap := map[];
    for i := 0 to |rows|
      invariant forall s :: Lookup(genIdMap, s) == GenId(rows[..i], s)
    {
      assert rows[..i + 1][..i] == rows[..i];
      genIdMap := genIdMap[rows[i].id := i + 1];
    }
    assert rows[..|rows|] == rows;
  }

  method GetRootID(rows: seq<Artran>, genIdMap: map<string, nat>, rid: string) returns (rootId: nat)
    requires forall s :: Lookup(genIdMap, s) == GenId(rows, s)
    ensures rootId == GenRoot(rows, rid)
  {
    var visited: set<nat> := {};
    rootId := Lookup(genIdMap, rid);
    while rootId != 0 && rootId !in visited
      invariant rootId <= |rows| && visited <= Positions(|rows|)
      invariant GenWalkFrom(rows, rootId, visited) == GenRoot(rows, rid)
      decreases Positions(|rows|) - visited
    {
      assert IsPosition(rootId, |rows|);
      visited := visited + {rootId};
      var comment := rows[rootId - 1];
      if comment.rid == "0" || comment.rid == "" {
        return;
      }
      rootId := Lookup(genIdMap, comment.rid);
    }
  }

  method BuildRid2RootGenIdMap(rows: seq<Artran>, genIdMap: map<string, nat>) returns (rootIdMap: map<string, nat>)
    requires forall s :: Lookup(genIdMap, s) == GenId(rows, s)
    ensures forall i :: 0 <= i < |rows| ==> Lookup(rootIdMap, rows[i].rid) == GenRoot(rows, rows[i].rid)
  {
    rootIdMap := map[];
    for i := 0 to |rows|
      invariant forall j :: 0 <= j < i ==> rows[j].rid in rootIdMap
      invariant forall s :: s in rootIdMap ==> rootIdMap[s] == GenRoot(rows, s)
    {
      var root := GetRootID(rows, genIdMap, rows[i].rid);
      rootIdMap := rootIdMap[rows[i].rid := root];
    }
  }

  /** The rows to insert, skips left out. */
  method PrepareRows(p: Params, rows: seq<Artran>) returns (comments: seq<Comment>)
    ensures |comments| == |Kept(p, rows)|
    ensures forall k :: 0 <= k < |comments| ==> comments[k] == Prepared(p, rows, Kept(p, rows)[k])
  {
    var genIdMap := BuildGenIdMap(rows);
    var rootIdMap := BuildRid2RootGenIdMap(rows, genIdMap);
    comments := [];
    for i := 0 to |rows|
      invariant |comments| == |Kept(p, rows[..i])|
      invariant forall k :: 0 <= k < |comments| ==> comments[k] == Prepared(p, rows, Kept(p, rows[..i])[k])
    {
      assert rows[..i + 1][..i] == rows[..i];
      var c := rows[i];
      var siteName := TrimSpace(if p.targetSiteName != "" then p.targetSiteName else c.siteName);
      if siteName == "" {
        continue;
      }
      var pageKey := TrimSpace(c.pageKey);
      if pageKey == "" {
        continue;
      }
      comments := comments + [Comment(c.content, p.resolve(pageKey), siteName, p.accountOf(c.nick, c.email), c.ua, c.ip,
        Lookup(genIdMap, c.rid), Lookup(rootIdMap, c.rid),
        IsTrue(c.isCollapsed), IsTrue(c.isPending), IsTrue(c.isPinned),
        Atoi(c.voteUp), Atoi(c.voteDown), "", "")];
    }
    assert rows[..|rows|] == rows;
  }

  // ---------------------------------------------------------------------------------------------
  // Storing
  // ---------------------------------------------------------------------------------------------

  lemma VoteBatchSnoc(votes: map<nat, Vote>, added: seq<Vote>, v: Vote, base: Id)
    ensures (votes + VoteBatch(added, base))[base + |added| := v] == votes + VoteBatch(added + [v], base)
  {
    assert InBatch(base + |added|, base, |added + [v]|);
  }

  /** Mock votes of one choice for one comment: none if the count is negative. */
  method CreateMockVotes(dao: Dao, v: Vote, count: int, ghost votes: map<nat, Vote>, ghost before: seq<Vote>,
                         ghost base: Id)
    requires dao.votes == votes + VoteBatch(before, base) && dao.nextVote == base + |before|
    modifies dao`votes, dao`nextVote
    ensures var after := before + Copies(v, Positive(count));
            dao.votes == votes + VoteBatch(after, base) && dao.nextVote == base + |after|
  {
    var i := 0;
    ghost var sofar := before;
    while i < count
      invariant 0 <= i <= Positive(count) && sofar == before + Copies(v, i)
      invariant dao.votes == votes + VoteBatch(sofar, base) && dao.nextVote == base + |sofar|
    {
      VoteBatchSnoc(votes, sofar, v, base);
      sofar := sofar + [v];
      dao.votes := dao.votes[dao.nextVote := v];
      dao.nextVote := dao.nextVote + 1;
      i := i + 1;
    }
  }

  /** The mock votes of one imported comment. */
  method CreateMocks(dao: Dao, id: nat, c: Comment, ghost votes: map<nat, Vote>, ghost before: seq<Vote>,
                     ghost base: Id)
    requires dao.votes == votes + VoteBatch(before, base) && dao.nextVote == base + |before|
    modifies dao`votes, dao`nextVote
    ensures dao.votes == votes + VoteBatch(before + MocksOf(c, id), base)
    ensures dao.nextVote == base + |before + MocksOf(c, id)|
  {
    var up, down := Vote(OnComment, id, ThumbUp, 0, ""), Vote(OnComment, id, ThumbDown, 0, "");
    CreateMockVotes(dao, up, c.voteUp, votes, before, base);
    CreateMockVotes(dao, down, c.voteDown, votes, before + Copies(up, Positive(c.voteUp)), base);
    assert before + Copies(up, Positive(c.voteUp)) + Copies(down, Positive(c.voteDown)) == before + MocksOf(c, id);
  }

  lemma BatchSnoc(comments: CommentTable, added: seq<Comment>, c: Comment, base: Id)
    ensures (comments + Batch(added, base))[base + |added| := c] == comments + Batch(added + [c], base)
  {
    assert InBatch(base + |added|, base, |added + [c]|);
  }

  lemma BatchUpdate(comments: CommentTable, added: seq<Comment>, k: nat, c: Comment, base: Id)
    requires k < |added|
    ensures (comments + Batch(added, base))[base + k := c] == comments + Batch(added[k := c], base)
  {
    assert InBatch(base + k, base, |added|);
  }

  method BatchInsert(dao: Dao, rows: seq<Comment>) returns (ids: seq<nat>)
    modifies dao`comments, dao`nextComment
    ensures dao.comments == old(dao.comments) + Batch(rows, old(dao.nextComment))
    ensures dao.nextComment == old(dao.nextComment) + |rows|
    ensures |ids| == |rows| && forall k :: 0 <= k < |rows| ==> ids[k] == old(dao.nextComment) + k
  {
    ids := [];
    assert dao.comments + Batch(rows[..0], dao.nextComment) == dao.comments;
    for i := 0 to |rows|
      invariant dao.comments == old(dao.comments) + Batch(rows[..i], old(dao.nextComment))
      invariant dao.nextComment == old(dao.nextComment) + i
      invariant |ids| == i && forall k :: 0 <= k < i ==> ids[k] == old(dao.nextComment) + k
    {
      assert rows[..i + 1] == rows[..i] + [rows[i]];
      BatchSnoc(old(dao.comments), rows[..i], rows[i], old(dao.nextComment));
      ids := ids + [dao.nextComment];
      dao.comments := dao.comments[dao.nextComment := rows[i]];
      dao.nextComment := dao.nextComment + 1;
    }
    assert rows[..|rows|] == rows;
  }

  function LookupId(m: map<nat, nat>, g: nat): nat {
    if g in m then m[g] else 0
  }

  method BuildDbIdMap(ids: seq<nat>, ghost base: nat) returns (m: map<nat, nat>)
    requires forall k :: 0 <= k < |ids| ==> ids[k] == base + k
    ensures forall g: nat :: LookupId(m, g) == DbId(base, |ids|, g)
  {
    m := map[];
    for i := 0 to |ids|
      invariant forall g: nat :: LookupId(m, g) == DbId(base, i, g)
    {
      m := m[i + 1 := ids[i]];
    }
  }

  /** Restores the dates and replaces GenIds by stored ids in one row. */
  method Relink(dao: Dao, p: Params, rows: seq<Artran>, k: nat, id: Id, dbIds: map<nat, nat>, ghost base: nat,
                ghost n: nat, ghost row: Comment)
    requires id in dao.comments && row == Relinked(p, rows, dao.comments[id], k, base, n)
    requires forall g: nat :: LookupId(dbIds, g) == DbId(base, n, g)
    modifies dao`comments
    ensures dao.comments == old(dao.comments)[id := row]
  {
    var saved := dao.comments[id];
    var updated := saved.(createdAt := CreatedAt(p, rows, k), updatedAt := UpdatedAt(p, rows, k));
    if saved.rid != 0 {
      updated := updated.(rid := LookupId(dbIds, saved.rid), rootId := LookupId(dbIds, saved.rootId));
    }
    dao.comments := dao.comments[id := updated];
  }

  lemma RelinkedSoFar(comments: CommentTable, stored: seq<Comment>, prepared: seq<Comment>, k: nat, base: Id, id: nat)
    requires k < |stored| == |prepared| && id == base + k
    ensures var now := comments + Batch(stored[..k] + prepared[k..], base);
            && id in now && now[id] == prepared[k]
            && now[id := stored[k]] == comments + Batch(stored[..k + 1] + prepared[k + 1..], base)
  {
    var now := stored[..k] + prepared[k..];
    assert InBatch(base + k, base, |now|) && now[k] == prepared[k];
    BatchUpdate(comments, now, k, stored[k], base);
    assert now[k := stored[k]] == stored[..k + 1] + prepared[k + 1..];
  }

  lemma RelinkKeepsCounters(p: Params, rows: seq<Artran>, c: Comment, k: nat, base: nat, n: nat)
    ensures Relinked(p, rows, c, k, base, n).voteUp == c.voteUp
    ensures Relinked(p, rows, c, k, base, n).voteDown == c.voteDown
  {
  }

  /** What holds after k rounds of the loop below: k rows relinked, with their votes. */
  ghost predicate Progress(comments: CommentTable, votes: map<nat, Vote>, nextVote: nat, comments0: CommentTable,
                           votes0: map<nat, Vote>, prepared: seq<Comment>, stored: seq<Comment>,
                           k: nat, base: Id, voteBase: Id)
    requires k <= |stored| == |prepared|
  {
    && comments == comments0 + Batch(stored[..k] + prepared[k..], base)
    && votes == votes0 + VoteBatch(MocksOfAll(stored[..k], base), voteBase)
    && nextVote == voteBase + |MocksOfAll(stored[..k], base)|
  }

  /** One round: links, dates and votes of the k-th inserted row. */
  method RelinkRow(dao: Dao, p: Params, rows: seq<Artran>, k: nat, id: Id, dbIds: map<nat, nat>,
                   ghost comments0: CommentTable, ghost votes0: map<nat, Vote>,
                   ghost prepared: seq<Comment>, ghost stored: seq<Comment>, ghost base: Id, ghost voteBase: Id)
    requires k < |stored| == |prepared| && id == base + k
    requires stored[k] == Relinked(p, rows, prepared[k], k, base, |stored|)
    requires forall g: nat :: LookupId(dbIds, g) == DbId(base, |stored|, g)
    requires Progress(dao.comments, dao.votes, dao.nextVote, comments0, votes0, prepared, stored, k, base, voteBase)
    modifies dao`comments, dao`votes, dao`nextVote
    ensures Progress(dao.comments, dao.votes, dao.nextVote, comments0, votes0, prepared, stored, k + 1, base, voteBase)
  {
    ghost var mocks := MocksOfAll(stored[..k], base);
    RelinkedSoFar(comments0, stored, prepared, k, base, id);
    var c := dao.comments[id];
    RelinkKeepsCounters(p, rows, c, k, base, |stored|);
    MocksSnoc(stored, k, base, id, c, mocks);
    Relink(dao, p, rows, k, id, dbIds, base, |stored|, stored[k]);
    CreateMocks(dao, id, c, votes0, mocks, voteBase);
  }

  /** The loop over all inserted rows. */
  method RelinkAll(dao: Dao, p: Params, rows: seq<Artran>, ids: seq<nat>, dbIds: map<nat, nat>,
                   ghost comments0: CommentTable, ghost prepared: seq<Comment>, ghost stored: seq<Comment>,
                   ghost base: Id)
    requires |ids| == |prepared| == |stored| && forall k :: 0 <= k < |ids| ==> ids[k] == base + k
    requires forall k: nat :: k < |ids| ==> stored[k] == Relinked(p, rows, prepared[k], k, base, |ids|)
    requires forall g: nat :: LookupId(dbIds, g) == DbId(base, |ids|, g)
    requires dao.comments == comments0 + Batch(prepared, base)
    modifies dao`comments, dao`votes, dao`nextVote
    ensures dao.comments == comments0 + Batch(stored, base)
    ensures dao.votes == old(dao.votes) + VoteBatch(MocksOfAll(stored, base), old(dao.nextVote))
    ensures dao.nextVote == old(dao.nextVote) + |MocksOfAll(stored, base)|
  {
    assert stored[..0] + prepared[0..] == prepared;
    assert dao.votes + VoteBatch([], dao.nextVote) == dao.votes;
    for k := 0 to |ids|
      invariant Progress(dao.comments, dao.votes, dao.nextVote, comments0, old(dao.votes), prepared, stored, k, base,
                         old(dao.nextVote))
    {
      RelinkRow(dao, p, rows, k, ids[k], dbIds, comments0, old(dao.votes), prepared, stored, base, old(dao.nextVote));
    }
    assert stored[..|ids|] + prepared[|ids|..] == stored && stored[..|ids|] == stored;
  }

  lemma MocksSnoc(stored: seq<Comment>, k: nat, base: nat, id: nat, c: Comment, mocks: seq<Vote>)
    requires k < |stored| && c.voteUp == stored[k].voteUp && c.voteDown == stored[k].voteDown
    requires id == base + k && mocks == MocksOfAll(stored[..k], base)
    ensures mocks + MocksOf(c, id) == MocksOfAll(stored[..k + 1], base)
  {
    assert stored[..k + 1][..k] == stored[..k];
  }

  /** Inserts prepared rows and replaces their GenIds by the ids they were given. */
  method StoreRows(dao: Dao, p: Params, rows: seq<Artran>, prepared: seq<Comment>, ghost stored: seq<Comment>)
    requires |stored| == |prepared|
    requires forall k: nat :: k < |prepared| ==>
               stored[k] == Relinked(p, rows, prepared[k], k, dao.nextComment, |prepared|)
    modifies dao`comments, dao`nextComment, dao`votes, dao`nextVote
    ensures dao.comments == old(dao.comments) + Batch(stored, old(dao.nextComment))
    ensures dao.nextComment == old(dao.nextComment) + |stored|
    ensures dao.votes == old(dao.votes) + VoteBatch(MocksOfAll(stored, old(dao.nextComment)), old(dao.nextVote))
    ensures dao.nextVote == old(dao.nextVote) + |MocksOfAll(stored, old(dao.nextComment))|
  {
    var ids := BatchInsert(dao, prepared);
    var dbIds := BuildDbIdMap(ids, old(dao.nextComment));
    RelinkAll(dao, p, rows, ids, dbIds, old(dao.comments), prepared, stored, old(dao.nextComment));
  }

  lemma RelinkedAreStored(p: Params, rows: seq<Artran>, prepared: seq<Comment>, base: Id)
    requires |prepared| == |Kept(p, rows)|
    requires forall k :: 0 <= k < |prepared| ==> prepared[k] == Prepared(p, rows, Kept(p, rows)[k])
    ensures |StoredRows(p, rows, base)| == |prepared|
    ensures forall k: nat :: k < |prepared| ==>
              StoredRows(p, rows, base)[k] == Relinked(p, rows, prepared[k], k, base, |prepared|)
  {
    forall k: nat | k < |prepared|
      ensures StoredRows(p, rows, base)[k] == Relinked(p, rows, prepared[k], k, base, |prepared|)
    {
      StoredAt(p, rows, base, |prepared|, k);
    }
  }

  lemma TablesAfterImport(db: Tables, p: Params, rows: seq<Artran>, stored: seq<Comment>, mocks: seq<Vote>)
    requires stored == StoredRows(p, rows, db.nextComment) && mocks == MocksOfAll(stored, db.nextComment)
    ensures AfterImport(db, p, rows) ==
              db.(comments := db.comments + Batch(stored, db.nextComment), nextComment := db.nextComment + |stored|,
                  votes := db.votes + VoteBatch(mocks, db.nextVote), nextVote := db.nextVote + |mocks|)
  {
  }

  /** Imports rows: the stored rows, their links and roots, and the votes. */
  method ImportArtrans(dao: Dao, p: Params, rows: seq<Artran>) returns (ok: bool)
    modifies dao
    ensures ok <==> rows != []
    ensures dao.View() == if ok then AfterImport(old(dao.View()), p, rows) else old(dao.View())
  {
    if rows == [] {
      return false;
    }
    var prepared := PrepareRows(p, rows);
    ghost var stored := StoredRows(p, rows, dao.nextComment);
    RelinkedAreStored(p, rows, prepared, dao.nextComment);
    StoreRows(dao, p, rows, prepared, stored);
    TablesAfterImport(old(dao.View()), p, rows, stored, MocksOfAll(stored, old(dao.nextComment)));
    return true;
  }
}
