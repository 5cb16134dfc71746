/** The email verification challenge as a protocol between concurrent requests.

    One stored row per email holds the current challenge. Requests that verify a code read the row,
    compare, and then consume the version they read in one conditional write, retrying if it has
    changed meanwhile. Requests that issue a code check a cooldown, look the row up, and replace the
    challenge in another conditional write; one mutex per email keeps them apart from each other, but
    not from the verifications. Every database statement is one atomic step, and anything may happen
    between two steps of one request.

    `issues` and `commits` record the history: every challenge that was ever stored, and every
    conditional write of a verification that took effect. Times are in seconds. */
module EmailVerify {
  import opened Options

  const MAX_ATTEMPTS: nat := 5
  const MINUTE: nat := 60
  const LIFETIME: nat := 5 * MINUTE

  datatype Challenge = Challenge(code: string, attempts: nat, updatedAt: nat, expiresAt: nat)

  datatype Sender =
    | Idle
    | Started(now: nat)
    | Checked(now: nat)
    | LookedUp(now: nat, found: bool)

  datatype Verifier =
    | Ready(code: string, retry: nat)
    | Compared(code: string, retry: nat, challenge: Challenge, issue: nat)
    | Done(code: string, ok: bool)

  datatype Issue = Issue(code: string, at: nat, expiresAt: nat)

  datatype Commit = Commit(request: nat, code: string, issue: nat, matched: bool, at: nat)

  datatype State = State(
    clock: nat,
    row: Option<Challenge>,
    sender: Sender,
    verifiers: map<nat, Verifier>,
    issues: seq<Issue>,
    commits: seq<Commit>)

  datatype Event =
    | Tick(to: nat)
    | SendStart
    | SendCheck(recentIp: bool)
    | SendLookup
    | SendWrite(newCode: string)
    | VerifyStart(request: nat, code: string)
    | VerifyRead(request: nat)
    | VerifyWrite(request: nat)

  const INIT: State := State(0, None, Idle, map[], [], [])

  /** Issued within the last minute, or exhausted by failures and not yet expired. */
  predicate CoolingDown(c: Challenge, now: nat) {
    c.updatedAt + MINUTE > now || (c.attempts >= MAX_ATTEMPTS && c.code != "" && c.expiresAt > now)
  }

  predicate Live(c: Challenge, now: nat) {
    c.expiresAt > now && c.attempts < MAX_ATTEMPTS && c.code != ""
  }

  /** The condition of the write that replaces a challenge, as of the time the request started. */
  predicate Replaceable(c: Challenge, now: nat) {
    c.updatedAt + MINUTE <= now && (c.attempts < MAX_ATTEMPTS || c.code == "" || c.expiresAt <= now)
  }

  /** The condition of the write that consumes an attempt: the version read is the one stored. */
  predicate SameVersion(stored: Option<Challenge>, read: Challenge, now: nat) {
    && stored.Some?
    && stored.value.code == read.code && stored.value.attempts == read.attempts
    && stored.value.updatedAt == read.updatedAt
    && stored.value.expiresAt > now
  }

  function Consume(c: Challenge, matched: bool): Challenge {
    if matched then c.(code := "", attempts := MAX_ATTEMPTS) else c.(attempts := c.attempts + 1)
  }

  /** A new challenge: the expiry counts from the start of the request, the issuance time from the
      write. */
  function Issued(s: State, code: string, now: nat): State {
    s.(row := Some(Challenge(code, 0, s.clock, now + LIFETIME)),
       sender := Idle,
       issues := s.issues + [Issue(code, s.clock, now + LIFETIME)])
  }

  function NextSend(s: State, e: Event): State
    requires e.SendStart? || e.SendCheck? || e.SendLookup? || e.SendWrite?
  {
    match (e, s.sender)
    case (SendStart, Idle) => s.(sender := Started(s.clock))
    case (SendCheck(recentIp), Started(now)) =>
      if recentIp || (s.row.Some? && CoolingDown(s.row.value, now)) then s.(sender := Idle)
      else s.(sender := Checked(now))
    case (SendLookup, Checked(now)) => s.(sender := LookedUp(now, s.row.Some?))
    case (SendWrite(code), LookedUp(now, found)) =>
      if code == "" then s
      else if !found || (s.row.Some? && Replaceable(s.row.value, now)) then Issued(s, code, now)
      else s.(sender := Idle)
    case _ => s
  }

  function NextRead(s: State, r: nat): State {
    if r in s.verifiers && s.verifiers[r].Ready? then
      var v := s.verifiers[r];
      if v.retry < MAX_ATTEMPTS && s.row.Some? && Live(s.row.value, s.clock) && s.issues != []
      then s.(verifiers := s.verifiers[r := Compared(v.code, v.retry, s.row.value, |s.issues| - 1)])
      else s.(verifiers := s.verifiers[r := Done(v.code, false)])
    else s
  }

  function NextWrite(s: State, r: nat): State {
    if r in s.verifiers && s.verifiers[r].Compared? then
      var v := s.verifiers[r];
      var matched := v.challenge.code == v.code;
      if SameVersion(s.row, v.challenge, s.clock) then
        s.(row := Some(Consume(s.row.value, matched)),
           verifiers := s.verifiers[r := Done(v.code, matched)],
           commits := s.commits + [Commit(r, v.code, v.issue, matched, s.clock)])
      else if v.retry + 1 < MAX_ATTEMPTS then s.(verifiers := s.verifiers[r := Ready(v.code, v.retry + 1)])
      else s.(verifiers := s.verifiers[r := Done(v.code, false)])
    else s
  }

  /** One atomic step; an event that does not apply in a state changes nothing. */
  function Next(s: State, e: Event): State {
    match e
    case Tick(to) => if to >= s.clock then s.(clock := to) else s
    case VerifyStart(r, code) =>
      if r !in s.verifiers && code != "" then s.(verifiers := s.verifiers[r := Ready(code, 0)]) else s
    case VerifyRead(r) => NextRead(s, r)
    case VerifyWrite(r) => NextWrite(s, r)
    case _ => NextSend(s, e)
  }

  function Run(s: State, events: seq<Event>): State
    decreases |events|
  {
    if events == [] then s else Run(Next(s, events[0]), events[1..])
  }

  // ---------------------------------------------------------------------------------------------
  // The history
  // ---------------------------------------------------------------------------------------------

  /** How many writes consumed an attempt of the k-th challenge. */
  function Spent(commits: seq<Commit>, k: nat): nat {
    if commits == [] then 0
    else Spent(commits[..|commits| - 1], k) + (if commits[|commits| - 1].issue == k then 1 else 0)
  }

  predicate Succeeded(commits: seq<Commit>, k: nat) {
    exists i :: 0 <= i < |commits| && commits[i].issue == k && commits[i].matched
  }

  lemma SpentSnoc(commits: seq<Commit>, c: Commit, k: nat)
    ensures Spent(commits + [c], k) == Spent(commits, k) + (if c.issue == k then 1 else 0)
    ensures Succeeded(commits + [c], k) <==> Succeeded(commits, k) || (c.issue == k && c.matched)
  {
    var cs := commits + [c];
    assert cs[..|cs| - 1] == commits;
    assert cs[|cs| - 1] == c;
    if Succeeded(commits, k) {
      var i :| 0 <= i < |commits| && commits[i].issue == k && commits[i].matched;
      assert cs[i] == commits[i];
    }
  }

  lemma {:induction false} NoneSpentAhead(commits: seq<Commit>, k: nat)
    requires forall i :: 0 <= i < |commits| ==> commits[i].issue < k
    ensures Spent(commits, k) == 0 && !Succeeded(commits, k)
  {
    if commits != [] {
      NoneSpentAhead(commits[..|commits| - 1], k);
    }
  }

  // ---------------------------------------------------------------------------------------------
  // The invariant
  // ---------------------------------------------------------------------------------------------

  /** Challenges are at least a minute apart, and one whose attempts were all spent without success
      was not replaced before it expired. */
  ghost predicate IssuesSpaced(issues: seq<Issue>, commits: seq<Commit>) {
    && (forall k: nat :: k < |issues| ==> issues[k].code != "")
    && (forall k: nat :: k + 1 < |issues| ==> Spaced(issues, commits, k))
  }

  ghost predicate Spaced(issues: seq<Issue>, commits: seq<Commit>, k: nat)
    requires k + 1 < |issues|
  {
    && issues[k].at + MINUTE <= issues[k + 1].at
    && (Spent(commits, k) == MAX_ATTEMPTS && !Succeeded(commits, k) ==> issues[k].expiresAt <= issues[k + 1].at)
  }

  /** The stored row is the last challenge, with the attempts spent on it, or consumed. */
  ghost predicate RowIsLast(s: State) {
    && (s.row.None? <==> s.issues == [])
    && (s.row.Some? ==>
          var k := |s.issues| - 1;
          && s.row.value.updatedAt == s.issues[k].at && s.row.value.expiresAt == s.issues[k].expiresAt
          && if Succeeded(s.commits, k) then s.row.value.code == "" && s.row.value.attempts == MAX_ATTEMPTS
             else s.row.value.code == s.issues[k].code && s.row.value.attempts == Spent(s.commits, k))
  }

  /** A write that took effect compared the code of the then current, unexpired challenge, and no
      write took effect on a challenge after a success on it. */
  ghost predicate CommitSound(issues: seq<Issue>, commits: seq<Commit>, i: nat)
    requires i < |commits|
  {
    var c := commits[i];
    && c.issue < |issues|
    && (c.matched <==> c.code == issues[c.issue].code)
    && issues[c.issue].at <= c.at < issues[c.issue].expiresAt
    && (c.issue + 1 < |issues| ==> c.at <= issues[c.issue + 1].at)
    && (forall j :: i < j < |commits| && commits[j].issue == c.issue ==> !c.matched)
  }

  ghost predicate CommitsSound(issues: seq<Issue>, commits: seq<Commit>) {
    forall i: nat :: i < |commits| ==> CommitSound(issues, commits, i)
  }

  ghost predicate AttemptsBounded(issues: seq<Issue>, commits: seq<Commit>) {
    forall k: nat :: k < |issues| ==> Spent(commits, k) <= MAX_ATTEMPTS
  }

  ghost predicate InThePast(s: State) {
    && (forall k: nat :: k < |s.issues| ==> s.issues[k].at <= s.clock)
    && (forall i: nat :: i < |s.commits| ==> s.commits[i].at <= s.clock)
  }

  /** What a verification in progress remembers is a version of a challenge that was issued. */
  ghost predicate VerifiersSound(s: State) {
    && (forall r :: r in s.verifiers && s.verifiers[r].Compared? ==>
          var v := s.verifiers[r];
          && v.issue < |s.issues| && v.challenge.updatedAt == s.issues[v.issue].at
          && v.challenge.code == s.issues[v.issue].code && v.challenge.attempts < MAX_ATTEMPTS)
    && (forall i :: 0 <= i < |s.commits| ==>
          && s.commits[i].request in s.verifiers
          && s.verifiers[s.commits[i].request] == Done(s.commits[i].code, s.commits[i].matched))
    && (forall r :: r in s.verifiers && s.verifiers[r].Done? && s.verifiers[r].ok ==>
          exists i :: 0 <= i < |s.commits| && s.commits[i].request == r)
    && (forall i, j :: 0 <= i < j < |s.commits| ==> s.commits[i].request != s.commits[j].request)
  }

  ghost predicate SenderSound(s: State) {
    && (s.sender != Idle ==> s.sender.now <= s.clock)
    && (s.sender.LookedUp? && !s.sender.found ==> s.row.None?)
  }

  ghost predicate Inv(s: State) {
    && IssuesSpaced(s.issues, s.commits) && CommitsSound(s.issues, s.commits) && AttemptsBounded(s.issues, s.commits)
    && RowIsLast(s) && InThePast(s) && VerifiersSound(s) && SenderSound(s)
  }

  lemma IssueKeepsInv(s: State, code: string, now: nat)
    requires Inv(s) && code != "" && now <= s.clock
    requires s.row.None? || Replaceable(s.row.value, now)
    ensures Inv(Issued(s, code, now))
  {
    var s' := Issued(s, code, now);
    forall i: nat | i < |s.commits|
      ensures s.commits[i].issue < |s.issues| && CommitSound(s'.issues, s.commits, i)
    {
      assert CommitSound(s.issues, s.commits, i);
    }
    NoneSpentAhead(s.commits, |s.issues|);
    forall k: nat | k + 1 < |s'.issues|
      ensures Spaced(s'.issues, s.commits, k)
    {
      if k + 1 < |s.issues| {
        assert Spaced(s.issues, s.commits, k);
      }
    }
  }

  /** The write of a verification can only hit the challenge it read: issuance times are distinct. */
  lemma NoABA(s: State, v: Verifier)
    requires Inv(s) && v.Compared? && v.issue < |s.issues|
    requires v.challenge.updatedAt == s.issues[v.issue].at
    requires s.row.Some? && s.row.value.updatedAt == v.challenge.updatedAt
    ensures v.issue == |s.issues| - 1
  {
    if v.issue < |s.issues| - 1 {
      AtIncreases(s, v.issue, |s.issues| - 1);
    }
  }

  lemma {:induction false} AtIncreases(s: State, i: nat, j: nat)
    requires IssuesSpaced(s.issues, s.commits) && i < j < |s.issues|
    ensures s.issues[i].at + MINUTE <= s.issues[j].at
    decreases j
  {
    assert Spaced(s.issues, s.commits, j - 1);
    if i < j - 1 {
      AtIncreases(s, i, j - 1);
    }
  }

  /** A verification that has not committed may move on without touching the history. */
  lemma ProgressKeepsInv(s: State, r: nat, v: Verifier)
    requires Inv(s) && (r in s.verifiers ==> !s.verifiers[r].Done?)
    requires v.Done? ==> !v.ok
    requires v.Compared? ==>
      && v.issue < |s.issues| && v.challenge.updatedAt == s.issues[v.issue].at
      && v.challenge.code == s.issues[v.issue].code && v.challenge.attempts < MAX_ATTEMPTS
    ensures Inv(s.(verifiers := s.verifiers[r := v]))
  {
    assert VerifiersSound(s.(verifiers := s.verifiers[r := v]));
  }

  lemma WriteKeepsInv(s: State, r: nat)
    requires Inv(s)
    ensures Inv(NextWrite(s, r))
  {
    if r in s.verifiers && s.verifiers[r].Compared? {
      var v := s.verifiers[r];
      if SameVersion(s.row, v.challenge, s.clock) {
        NoABA(s, v);
        var c := Commit(r, v.code, v.issue, v.challenge.code == v.code, s.clock);
        CommitKeepsHistory(s, r, c);
        CommitKeepsVerifiers(s, r, c);
      } else {
        ProgressKeepsInv(s, r, if v.retry + 1 < MAX_ATTEMPTS then Ready(v.code, v.retry + 1) else Done(v.code, false));
      }
    }
  }

  lemma ReadKeepsInv(s: State, r: nat)
    requires Inv(s)
    ensures Inv(NextRead(s, r))
  {
    if r in s.verifiers && s.verifiers[r].Ready? {
      ProgressKeepsInv(s, r, NextRead(s, r).verifiers[r]);
    }
  }

  lemma CommitKeepsHistory(s: State, r: nat, c: Commit)
    requires Inv(s) && r in s.verifiers && s.verifiers[r].Compared?
    requires SameVersion(s.row, s.verifiers[r].challenge, s.clock)
    requires var v := s.verifiers[r];
             v.issue == |s.issues| - 1 && c == Commit(r, v.code, v.issue, v.challenge.code == v.code, s.clock)
    ensures var s' := NextWrite(s, r);
            && IssuesSpaced(s'.issues, s'.commits) && CommitsSound(s'.issues, s'.commits)
            && AttemptsBounded(s'.issues, s'.commits)
            && RowIsLast(s') && InThePast(s') && SenderSound(s')
  {
    var s' := NextWrite(s, r);
    assert s'.commits == s.commits + [c];
    forall k: nat
      ensures Spent(s'.commits, k) == Spent(s.commits, k) + (if c.issue == k then 1 else 0)
      ensures Succeeded(s'.commits, k) <==> Succeeded(s.commits, k) || (c.issue == k && c.matched)
    {
      SpentSnoc(s.commits, c, k);
    }
    forall k: nat | k + 1 < |s.issues|
      ensures Spaced(s.issues, s'.commits, k)
    {
      assert Spaced(s.issues, s.commits, k);
    }
    forall i: nat | i < |s'.commits|
      ensures CommitSound(s.issues, s'.commits, i)
    {
      if i < |s.commits| {
        assert CommitSound(s.issues, s.commits, i);
        assert s.commits[i].issue == c.issue ==> !s.commits[i].matched;
      }
    }
  }

  lemma CommitKeepsVerifiers(s: State, r: nat, c: Commit)
    requires Inv(s) && r in s.verifiers && s.verifiers[r].Compared?
    requires SameVersion(s.row, s.verifiers[r].challenge, s.clock)
    requires var v := s.verifiers[r];
             v.issue == |s.issues| - 1 && c == Commit(r, v.code, v.issue, v.challenge.code == v.code, s.clock)
    ensures VerifiersSound(NextWrite(s, r))
  {
    var s' := NextWrite(s, r);
    assert s'.commits == s.commits + [c] && s'.commits[|s.commits|] == c;
    forall q | q in s'.verifiers && s'.verifiers[q].Done? && s'.verifiers[q].ok
      ensures exists i :: 0 <= i < |s'.commits| && s'.commits[i].request == q
    {
      if q != r {
        var i :| 0 <= i < |s.commits| && s.commits[i].request == q;
        assert s'.commits[i] == s.commits[i];
      }
    }
  }

  lemma SendKeepsInv(s: State, e: Event)
    requires Inv(s) && (e.SendStart? || e.SendCheck? || e.SendLookup? || e.SendWrite?)
    ensures Inv(NextSend(s, e))
  {
    match (e, s.sender) {
      case (SendWrite(code), LookedUp(now, found)) =>
        if code != "" && (!found || (s.row.Some? && Replaceable(s.row.value, now))) {
          IssueKeepsInv(s, code, now);
        }
      case _ =>
    }
  }

  lemma NextKeepsInv(s: State, e: Event)
    requires Inv(s)
    ensures Inv(Next(s, e))
  {
    match e {
      case Tick(_) => TickKeepsInv(s, e);
      case VerifyStart(r, code) =>
        if r !in s.verifiers && code != "" { ProgressKeepsInv(s, r, Ready(code, 0)); }
      case VerifyRead(r) => ReadKeepsInv(s, r);
      case VerifyWrite(r) => WriteKeepsInv(s, r);
      case _ => SendKeepsInv(s, e);
    }
  }

  lemma TickKeepsInv(s: State, e: Event)
    requires Inv(s) && e.Tick?
    ensures Inv(Next(s, e))
  {
  }

  lemma {:induction false} RunKeepsInv(s: State, events: seq<Event>)
    requires Inv(s)
    ensures Inv(Run(s, events))
    decreases |events|
  {
    if events != [] {
      NextKeepsInv(s, events[0]);
      RunKeepsInv(Next(s, events[0]), events[1..]);
    }
  }

  // ---------------------------------------------------------------------------------------------
  // What every interleaving guarantees
  // ---------------------------------------------------------------------------------------------

  /** No challenge lets more than five requests compare a code against it, and none lets more than
      one request succeed; after a success nothing is compared against it any more. */
  lemma AttemptsAreBounded(events: seq<Event>, k: nat)
    requires k < |Run(INIT, events).issues|
    ensures var s := Run(INIT, events);
            && Spent(s.commits, k) <= 5
            && forall i, j :: 0 <= i < j < |s.commits| && s.commits[i].issue == s.commits[j].issue == k ==>
                 !s.commits[i].matched && s.commits[i].request != s.commits[j].request
  {
    RunKeepsInv(INIT, events);
    var s := Run(INIT, events);
    forall i: nat, j: nat | i < j < |s.commits| && s.commits[i].issue == s.commits[j].issue == k
      ensures !s.commits[i].matched && s.commits[i].request != s.commits[j].request
    {
      assert CommitSound(s.issues, s.commits, i);
    }
  }

  /** A request that succeeds gave the code of a challenge, at a time between its issuance and its
      expiry and not after the next challenge was issued; and it is the only one to succeed with it. */
  lemma SuccessIsGenuine(events: seq<Event>, r: nat)
    requires r in Run(INIT, events).verifiers && Run(INIT, events).verifiers[r].Done?
    requires Run(INIT, events).verifiers[r].ok
    ensures var s := Run(INIT, events);
            exists i :: 0 <= i < |s.commits| && s.commits[i].request == r && s.commits[i].matched
              && s.commits[i].code == s.verifiers[r].code && s.commits[i].issue < |s.issues|
              && s.commits[i].code == s.issues[s.commits[i].issue].code
              && s.issues[s.commits[i].issue].at <= s.commits[i].at < s.issues[s.commits[i].issue].expiresAt
              && (s.commits[i].issue + 1 < |s.issues| ==> s.commits[i].at <= s.issues[s.commits[i].issue + 1].at)
              && forall j ::
                   0 <= j < |s.commits| && s.commits[j].matched && s.commits[j].issue == s.commits[i].issue ==> j == i
  {
    RunKeepsInv(INIT, events);
    var s := Run(INIT, events);
    var i: nat :| i < |s.commits| && s.commits[i].request == r;
    assert CommitSound(s.issues, s.commits, i);
    forall j: nat | j < |s.commits| && s.commits[j].matched && s.commits[j].issue == s.commits[i].issue
      ensures j == i
    {
      assert CommitSound(s.issues, s.commits, j);
    }
  }

  /** A write that takes effect hits the challenge that is stored at that moment, the one the request
      has read, although it may have been replaced any number of times by equal codes before. */
  lemma WriteHitsCurrentChallenge(events: seq<Event>, r: nat)
    requires var s := Run(INIT, events); |NextWrite(s, r).commits| > |s.commits|
    ensures var s := Run(INIT, events);
            && s.verifiers[r].issue == |s.issues| - 1
            && NextWrite(s, r).commits[|s.commits|].issue == |s.issues| - 1
            && s.clock < s.issues[|s.issues| - 1].expiresAt
  {
    RunKeepsInv(INIT, events);
    NoABA(Run(INIT, events), Run(INIT, events).verifiers[r]);
  }

  /** By the history alone: no code was issued within the last minute, and the last one is not exhausted by
      failures before its expiry. */
  ghost predicate IsDue(s: State) {
    var k := |s.issues| - 1;
    s.issues != [] ==>
      && s.issues[k].at + 60 <= s.clock
      && !(Spent(s.commits, k) == 5 && !Succeeded(s.commits, k) && s.clock < s.issues[k].expiresAt)
  }

  lemma CoolingDownIsNotDue(s: State)
    requires Inv(s)
    ensures s.row.Some? && CoolingDown(s.row.value, s.clock) <==> !IsDue(s)
    ensures s.row.Some? ==> (Replaceable(s.row.value, s.clock) <==> IsDue(s))
  {
    if s.row.Some? {
      var k := |s.issues| - 1;
      assert Spent(s.commits, k) <= MAX_ATTEMPTS;
    }
  }

  /** Issuances for one email are at least a minute apart, and a challenge whose five attempts all
      failed is not replaced before it expires. */
  lemma IssuanceIsPaced(events: seq<Event>, k: nat)
    requires k + 1 < |Run(INIT, events).issues|
    ensures var s := Run(INIT, events);
            && s.issues[k].at + 60 <= s.issues[k + 1].at
            && (Spent(s.commits, k) == 5 && !Succeeded(s.commits, k) ==>
                s.issues[k].expiresAt <= s.issues[k + 1].at)
  {
    RunKeepsInv(INIT, events);
    var s := Run(INIT, events);
    assert Spaced(s.issues, s.commits, k);
  }

  // ---------------------------------------------------------------------------------------------
  // The handlers
  // ---------------------------------------------------------------------------------------------

  lemma {:induction false} RunAppend(s: State, a: seq<Event>, b: seq<Event>)
    ensures Run(s, a + b) == Run(Run(s, a), b)
    decreases |a|
  {
    if a == [] {
      assert a + b == b;
    } else {
      assert (a + b)[1..] == a[1..] + b;
      RunAppend(Next(s, a[0]), a[1..], b);
    }
  }

  lemma RunSnoc(s: State, a: seq<Event>, e: Event)
    ensures Run(s, a + [e]) == Next(Run(s, a), e)
  {
    RunAppend(s, a, [e]);
    assert Run(Run(s, a), [e]) == Run(Next(Run(s, a), e), [e][1..]);
  }

  // ---------------------------------------------------------------------------------------------
  // The right code is not refused
  // ---------------------------------------------------------------------------------------------

  /** Challenge k is the current one, and neither expired nor spent. */
  ghost predicate Alive(s: State, k: nat) {
    && k + 1 == |s.issues| && s.clock < s.issues[k].expiresAt
    && Spent(s.commits, k) < MAX_ATTEMPTS && !Succeeded(s.commits, k)
  }

  /** A request that gave this code has succeeded or can still succeed: it has lost no more writes than there
      were attempts of others. */
  ghost predicate Hopeful(s: State, r: nat, code: string, k: nat)
    requires k < |s.issues|
  {
    r in s.verifiers &&
    match s.verifiers[r]
    case Ready(c, retry) => c == code && retry <= Spent(s.commits, k)
    case Compared(c, retry, read, issue) =>
      c == code && read.code == code && read.updatedAt == s.issues[k].at
        && retry <= read.attempts <= Spent(s.commits, k)
    case Done(c, ok) => c == code && ok
  }

  lemma AliveBefore(s: State, e: Event, k: nat)
    requires k < |s.issues| && Alive(Next(s, e), k)
    ensures Alive(s, k)
    ensures Next(s, e).issues == s.issues && Spent(s.commits, k) <= Spent(Next(s, e).commits, k)
  {
    if Next(s, e).commits != s.commits {
      var c := Next(s, e).commits[|s.commits|];
      assert Next(s, e).commits == s.commits + [c];
      SpentSnoc(s.commits, c, k);
    }
  }

  lemma HopefulRead(s: State, r: nat, code: string, k: nat)
    requires Inv(s) && Alive(s, k) && s.issues[k].code == code && Hopeful(s, r, code, k)
    ensures Hopeful(NextRead(s, r), r, code, k)
  {
    assert s.row.Some? && s.row.value.attempts == Spent(s.commits, k);
    assert Live(s.row.value, s.clock);
  }

  lemma HopefulWrite(s: State, r: nat, code: string, k: nat)
    requires Inv(s) && Alive(s, k) && s.issues[k].code == code && Hopeful(s, r, code, k)
    requires Spent(s.commits, k) <= Spent(NextWrite(s, r).commits, k)
    ensures NextWrite(s, r).issues == s.issues && Hopeful(NextWrite(s, r), r, code, k)
  {
    if s.verifiers[r].Compared? {
      var v := s.verifiers[r];
      assert s.row.Some? && s.row.value.code == code && s.row.value.updatedAt == s.issues[k].at;
      assert !SameVersion(s.row, v.challenge, s.clock) ==> v.challenge.attempts < Spent(s.commits, k);
    }
  }

  lemma HopefulNext(s: State, e: Event, r: nat, code: string, k: nat)
    requires Inv(s) && k < |s.issues| && Alive(Next(s, e), k) && s.issues[k].code == code && Hopeful(s, r, code, k)
    ensures Hopeful(Next(s, e), r, code, k)
  {
    AliveBefore(s, e, k);
    if e == VerifyRead(r) {
      HopefulRead(s, r, code, k);
    } else if e == VerifyWrite(r) {
      HopefulWrite(s, r, code, k);
    } else {
      OthersLeaveVerifier(s, e, r);
    }
  }

  lemma OthersLeaveVerifier(s: State, e: Event, r: nat)
    requires r in s.verifiers && e != VerifyRead(r) && e != VerifyWrite(r)
    ensures r in Next(s, e).verifiers && Next(s, e).verifiers[r] == s.verifiers[r]
  {
  }

  lemma {:induction false} IssuesGrow(s: State, events: seq<Event>)
    ensures |s.issues| <= |Run(s, events).issues| && s.issues == Run(s, events).issues[..|s.issues|]
    decreases |events|
  {
    if events != [] {
      var n := Next(s, events[0]);
      assert |s.issues| <= |n.issues| && n.issues[..|s.issues|] == s.issues;
      IssuesGrow(n, events[1..]);
      assert Run(s, events).issues[..|s.issues|] == Run(s, events).issues[..|n.issues|][..|s.issues|];
    }
  }

  lemma {:induction false} AliveAllAlong(s: State, events: seq<Event>, k: nat)
    requires k < |s.issues| && Alive(Run(s, events), k)
    ensures Alive(s, k)
    decreases |events|
  {
    if events != [] {
      IssuesGrow(s, events[..1]);
      assert Run(s, events[..1]) == Next(s, events[0]) by {
        assert Run(Next(s, events[0]), events[..1][1..]) == Next(s, events[0]);
      }
      AliveAllAlong(Next(s, events[0]), events[1..], k);
      AliveBefore(s, events[0], k);
    }
  }

  lemma {:induction false} HopefulAllAlong(s: State, events: seq<Event>, r: nat, code: string, k: nat)
    requires Inv(s) && k < |s.issues| && s.issues[k].code == code && Hopeful(s, r, code, k) && Alive(Run(s, events), k)
    ensures Hopeful(Run(s, events), r, code, k)
    decreases |events|
  {
    if events != [] {
      var n := Next(s, events[0]);
      IssuesGrow(s, [events[0]]);
      assert Run(s, [events[0]]) == n by { assert [events[0]][1..] == []; }
      AliveAllAlong(n, events[1..], k);
      AliveBefore(s, events[0], k);
      NextKeepsInv(s, events[0]);
      HopefulNext(s, events[0], r, code, k);
      HopefulAllAlong(n, events[1..], r, code, k);
    }
  }

  /** A request that starts with the code of the current challenge is not refused, whatever others do in
      between, as long as that challenge is neither replaced nor expired nor spent: it can lose a write only
      to an attempt of somebody else, and there are no more of these than it has retries. So a right code that
      was refused belongs to a challenge that is replaced, expired, exhausted or consumed by then. */
  lemma RightCodeIsNotRefused(before: seq<Event>, r: nat, code: string, after: seq<Event>, k: nat)
    requires var s := Run(INIT, before); k + 1 == |s.issues| && s.issues[k].code == code && r !in s.verifiers
    requires var s' := Run(INIT, before + [VerifyStart(r, code)] + after);
             r in s'.verifiers && s'.verifiers[r] == Done(code, false)
    ensures var s' := Run(INIT, before + [VerifyStart(r, code)] + after);
            && k < |s'.issues| && s'.issues[k].code == code
            && (k + 1 < |s'.issues| || s'.issues[k].expiresAt <= s'.clock
                || Spent(s'.commits, k) >= 5 || Succeeded(s'.commits, k))
  {
    var s, start := Run(INIT, before), VerifyStart(r, code);
    var s1, s' := Next(s, start), Run(INIT, before + [start] + after);
    RunKeepsInv(INIT, before);
    NextKeepsInv(s, start);
    RunSnoc(INIT, before, start);
    RunAppend(INIT, before + [start], after);
    IssuesGrow(s1, after);
    assert s'.issues[k] == s'.issues[..|s1.issues|][k];
    if Alive(s', k) {
      HopefulAllAlong(s1, after, r, code, k);
    }
  }

  /** The events of others: they leave request r alone. */
  predicate IsForeign(e: Event, r: nat) {
    !(e.VerifyStart? && e.request == r) && !(e.VerifyRead? && e.request == r) && !(e.VerifyWrite? && e.request == r)
  }

  predicate AllForeign(events: seq<Event>, r: nat) {
    forall i :: 0 <= i < |events| ==> IsForeign(events[i], r)
  }

  lemma {:induction false} ForeignKeepsVerifier(s: State, events: seq<Event>, r: nat)
    requires AllForeign(events, r)
    ensures r in Run(s, events).verifiers <==> r in s.verifiers
    ensures r in s.verifiers ==> Run(s, events).verifiers[r] == s.verifiers[r]
    decreases |events|
  {
    if events != [] {
      assert IsForeign(events[0], r);
      ForeignKeepsVerifier(Next(s, events[0]), events[1..], r);
    }
  }

  class Store {
    var state: State

    /** What other requests do before the next statement of request r. */
    method Interfere(ghost start: State, ghost schedule: seq<Event>, r: nat, events: seq<Event>)
      returns (ghost schedule': seq<Event>)
      requires state == Run(start, schedule) && r in state.verifiers && Inv(state) && AllForeign(events, r)
      modifies this
      ensures state == Run(start, schedule') && Inv(state)
      ensures r in state.verifiers && state.verifiers[r] == old(state).verifiers[r]
    {
      RunAppend(start, schedule, events);
      ForeignKeepsVerifier(state, events, r);
      RunKeepsInv(state, events);
      for i := 0 to |events|
        invariant Run(state, events[i..]) == Run(old(state), events)
      {
        state := Next(state, events[i]);
      }
      schedule' := schedule + events;
    }

    /** First statement of an attempt: the live challenge of the email, if there is one. */
    method FindLive(ghost start: State, ghost schedule: seq<Event>, r: nat)
      returns (challenge: Option<Challenge>, ghost schedule': seq<Event>)
      requires state == Run(start, schedule) && Inv(state)
      requires r in state.verifiers && state.verifiers[r].Ready? && state.verifiers[r].retry < MAX_ATTEMPTS
      modifies this
      ensures state == Run(start, schedule') && Inv(state) && r in state.verifiers
      ensures var v := old(state).verifiers[r];
              match challenge
              case None => state.verifiers[r] == Done(v.code, false)
              case Some(c) =>
                state.verifiers[r].Compared? && state.verifiers[r].(issue := 0) == Compared(v.code, v.retry, c, 0)
    {
      RunSnoc(start, schedule, VerifyRead(r));
      NextKeepsInv(state, VerifyRead(r));
      schedule' := schedule + [VerifyRead(r)];
      var v := state.verifiers[r];
      if state.row.None? || !Live(state.row.value, state.clock) {
        state := state.(verifiers := state.verifiers[r := Done(v.code, false)]);
        return None, schedule';
      }
      challenge := state.row;
      var compared := Compared(v.code, v.retry, state.row.value, |state.issues| - 1);
      state := state.(verifiers := state.verifiers[r := compared]);
    }

    /** Second statement: consume an attempt of the version read, or all of them on a match. Returns
        the number of rows updated. */
    method ConsumeVersion(ghost start: State, ghost schedule: seq<Event>, r: nat, challenge: Challenge, matched: bool)
      returns (rowsAffected: nat, ghost schedule': seq<Event>)
      requires state == Run(start, schedule) && Inv(state)
      requires r in state.verifiers && state.verifiers[r].Compared? && state.verifiers[r].challenge == challenge
      requires matched <==> challenge.code == state.verifiers[r].code
      modifies this
      ensures state == Run(start, schedule') && Inv(state) && r in state.verifiers
      ensures var v := old(state).verifiers[r];
              state.verifiers[r] ==
                if rowsAffected == 1 then Done(v.code, matched)
                else if v.retry + 1 < MAX_ATTEMPTS then Ready(v.code, v.retry + 1) else Done(v.code, false)
    {
      RunSnoc(start, schedule, VerifyWrite(r));
      NextKeepsInv(state, VerifyWrite(r));
      schedule' := schedule + [VerifyWrite(r)];
      ghost var after := Next(state, VerifyWrite(r));
      assert after == Run(start, schedule') && Inv(after);
      var v := state.verifiers[r];
      if SameVersion(state.row, challenge, state.clock) {
        var code, attempts := state.row.value.code, challenge.attempts + 1;
        if matched {
          code, attempts := "", MAX_ATTEMPTS;
        }
        state := state.(row := Some(state.row.value.(code := code, attempts := attempts)),
                        verifiers := state.verifiers[r := Done(v.code, matched)],
                        commits := state.commits + [Commit(r, v.code, v.issue, matched, state.clock)]);
        assert state == after;
        return 1, schedule';
      }
      var next := if v.retry + 1 < MAX_ATTEMPTS then Ready(v.code, v.retry + 1) else Done(v.code, false);
      state := state.(verifiers := state.verifiers[r := next]);
      assert state == after;
      rowsAffected := 0;
    }

    /** One round: read the live challenge, compare, consume the version read. None means that the
        write missed and another round is due. */
    method Attempt(ghost start: State, ghost schedule: seq<Event>, r: nat, code: string, before: seq<Event>,
                   between: seq<Event>)
      returns (outcome: Option<bool>, ghost schedule': seq<Event>)
      requires state == Run(start, schedule) && Inv(state) && AllForeign(before, r) && AllForeign(between, r)
      requires r in state.verifiers && state.verifiers[r].Ready? && state.verifiers[r].code == code
      requires state.verifiers[r].retry < MAX_ATTEMPTS
      modifies this
      ensures state == Run(start, schedule') && Inv(state) && r in state.verifiers
      ensures var retry := old(state).verifiers[r].retry;
              match outcome
              case Some(ok) => state.verifiers[r] == Done(code, ok)
              case None =>
                state.verifiers[r] == if retry + 1 < MAX_ATTEMPTS then Ready(code, retry + 1) else Done(code, false)
    {
      schedule' := Interfere(start, schedule, r, before);
      var challenge;
      challenge, schedule' := FindLive(start, schedule', r);
      if challenge.None? {
        return Some(false), schedule';
      }
      var matched := challenge.value.code == code;
      schedule' := Interfere(start, schedule', r, between);
      var rowsAffected;
      rowsAffected, schedule' := ConsumeVersion(start, schedule', r, challenge.value, matched);
      outcome := if rowsAffected == 1 then Some(matched) else None;
    }

    /** The verification handler of request r, with what others do before each of its statements; it
        tries at most five times. Its answer is that of a run of the protocol. */
    method CheckEmailVerifyCode(r: nat, code: string, others: seq<seq<Event>>)
      returns (ok: bool, ghost schedule: seq<Event>)
      requires Inv(state) && r !in state.verifiers
      requires |others| == 2 * MAX_ATTEMPTS && forall i :: 0 <= i < |others| ==> AllForeign(others[i], r)
      modifies this
      ensures state == Run(old(state), schedule) && Inv(state)
      ensures code == "" ==> !ok && state == old(state)
      ensures code != "" ==> r in state.verifiers && state.verifiers[r] == Done(code, ok)
    {
      schedule := [];
      if code == "" {
        return false, schedule;
      }
      RunSnoc(state, [], VerifyStart(r, code));
      NextKeepsInv(state, VerifyStart(r, code));
      schedule := [] + [VerifyStart(r, code)];
      state := state.(verifiers := state.verifiers[r := Ready(code, 0)]);
      for retry := 0 to MAX_ATTEMPTS
        invariant state == Run(old(state), schedule) && Inv(state)
        invariant r in state.verifiers
        invariant state.verifiers[r] == if retry < MAX_ATTEMPTS then Ready(code, retry) else Done(code, false)
      {
        var outcome;
        outcome, schedule := Attempt(old(state), schedule, r, code, others[2 * retry], others[2 * retry + 1]);
        if outcome.Some? {
          return outcome.value, schedule;
        }
      }
      ok := false;
    }

    /** What verifications (and the clock) do while the mutex of the email is held. */
    method InterfereWithSender(ghost start: State, ghost schedule: seq<Event>, events: seq<Event>)
      returns (ghost schedule': seq<Event>)
      requires state == Run(start, schedule) && NoSends(events)
      modifies this
      ensures state == Run(start, schedule')
      ensures state.sender == old(state).sender && state.issues == old(state).issues
      ensures state.row.Some? == old(state).row.Some?
      ensures state.clock >= old(state).clock
      ensures events == [] ==> state == old(state)
    {
      RunAppend(start, schedule, events);
      VerificationsIssueNothing(state, events);
      for i := 0 to |events|
        invariant Run(state, events[i..]) == Run(old(state), events)
      {
        state := Next(state, events[i]);
      }
      schedule' := schedule + events;
    }

    /** The handler that issues a code, holding the mutex of the email: cooldown check, lookup, and
        creation or guarded replacement of the challenge. `recentIp` is the verdict of the part of the
        cooldown query that looks at other emails of the same address. */
    method AuthEmailSend(newCode: string, recentIp: bool, others: seq<seq<Event>>)
      returns (sent: bool, ghost schedule: seq<Event>)
      requires Inv(state) && state.sender == Idle && newCode != ""
      requires |others| == 3 && forall i :: 0 <= i < 3 ==> NoSends(others[i])
      modifies this
      ensures state == Run(old(state), schedule) && Inv(state) && state.sender == Idle
      ensures sent ==> state.issues == old(state).issues + [Issue(newCode, state.clock, old(state).clock + 300)]
      ensures !sent ==> state.issues == old(state).issues
      ensures others == [[], [], []] ==> (sent <==> !recentIp && IsDue(old(state)))
    {
      var now := state.clock;
      CoolingDownIsNotDue(state);
      RunSnoc(state, [], SendStart);
      state := state.(sender := Started(now));
      schedule := InterfereWithSender(old(state), [] + [SendStart], others[0]);

      RunSnoc(old(state), schedule, SendCheck(recentIp));
      schedule := schedule + [SendCheck(recentIp)];
      if recentIp || (state.row.Some? && CoolingDown(state.row.value, now)) {
        state := state.(sender := Idle);
        RunKeepsInv(old(state), schedule);
        return false, schedule;
      }
      state := state.(sender := Checked(now));
      schedule := InterfereWithSender(old(state), schedule, others[1]);

      sent, schedule := SaveChallenge(old(state), schedule, newCode, now, others[2]);
      RunKeepsInv(old(state), schedule);
    }

    /** Looks the row up, and creates or conditionally replaces it. */
    method SaveChallenge(ghost start: State, ghost schedule: seq<Event>, newCode: string, now: nat, between: seq<Event>)
      returns (saved: bool, ghost schedule': seq<Event>)
      requires state == Run(start, schedule) && state.sender == Checked(now) && newCode != "" && NoSends(between)
      modifies this
      ensures state == Run(start, schedule') && state.sender == Idle
      ensures state.issues == old(state).issues + if saved then [Issue(newCode, state.clock, now + LIFETIME)] else []
      ensures between == [] ==> (saved <==> old(state).row.None? || Replaceable(old(state).row.value, now))
    {
      var found := state.row.Some?;
      RunSnoc(start, schedule, SendLookup);
      state := state.(sender := LookedUp(now, found));
      schedule' := InterfereWithSender(start, schedule + [SendLookup], between);

      RunSnoc(start, schedule', SendWrite(newCode));
      schedule' := schedule' + [SendWrite(newCode)];
      saved := !found || Replaceable(state.row.value, now);
      if saved {
        state := state.(row := Some(Challenge(newCode, 0, state.clock, now + LIFETIME)),
                        issues := state.issues + [Issue(newCode, state.clock, now + LIFETIME)]);
      }
      state := state.(sender := Idle);
    }
  }

  predicate NoSends(events: seq<Event>) {
    forall i :: 0 <= i < |events| ==>
      events[i].Tick? || events[i].VerifyStart? || events[i].VerifyRead? || events[i].VerifyWrite?
  }

  lemma {:induction false} VerificationsIssueNothing(s: State, events: seq<Event>)
    requires NoSends(events)
    ensures var s' := Run(s, events);
            s'.sender == s.sender && s'.issues == s.issues && s'.row.Some? == s.row.Some? && s'.clock >= s.clock
    decreases |events|
  {
    if events != [] {
      assert events[0].Tick? || events[0].VerifyStart? || events[0].VerifyRead? || events[0].VerifyWrite?;
      VerificationsIssueNothing(Next(s, events[0]), events[1..]);
    }
  }
}
