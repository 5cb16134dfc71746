/** What the steps of the email verification protocol do, exactly, in terms of the history of challenges
    and attempts alone. */
module EmailSteps {
  import opened EmailVerify

  /** Where nothing interferes, a code that is asked for is issued if and only if one is due; it is good for
      five minutes. */
  lemma IssuedExactlyWhenDue(s: State, code: string, recentIp: bool)
    requires Inv(s) && s.sender == Idle && code != ""
    ensures Run(s, [SendStart, SendCheck(recentIp), SendLookup, SendWrite(code)]).issues ==
              s.issues + (if !recentIp && IsDue(s) then [Issue(code, s.clock, s.clock + 300)] else [])
  {
    FourSteps(s, SendStart, SendCheck(recentIp), SendLookup, SendWrite(code));
    SendOutcome(s, code, recentIp);
    CoolingDownIsNotDue(s);
  }

  lemma SendOutcome(s: State, code: string, recentIp: bool)
    requires s.sender == Idle && code != ""
    ensures var passes := !recentIp
              && (s.row.Some? ==> !CoolingDown(s.row.value, s.clock) && Replaceable(s.row.value, s.clock));
            Next(Next(Next(Next(s, SendStart), SendCheck(recentIp)), SendLookup), SendWrite(code)).issues ==
              s.issues + (if passes then [Issue(code, s.clock, s.clock + LIFETIME)] else [])
  {
    var s1 := s.(sender := Started(s.clock));
    assert Next(s, SendStart) == s1;
    if recentIp || (s.row.Some? && CoolingDown(s.row.value, s.clock)) {
      assert Next(s1, SendCheck(recentIp)) == s;
      assert Next(s, SendLookup) == s && Next(s, SendWrite(code)) == s;
    } else {
      var s2 := s.(sender := Checked(s.clock));
      assert Next(s1, SendCheck(recentIp)) == s2;
      assert Next(s2, SendLookup) == s.(sender := LookedUp(s.clock, s.row.Some?));
    }
  }

  lemma FourSteps(s: State, a: Event, b: Event, c: Event, d: Event)
    ensures Run(s, [a, b, c, d]) == Next(Next(Next(Next(s, a), b), c), d)
  {
    RunSnoc(s, [], a);
    RunSnoc(s, [a], b);
    RunSnoc(s, [a, b], c);
    RunSnoc(s, [a, b, c], d);
    assert [] + [a] == [a] && [a] + [b] == [a, b] && [a, b] + [c] == [a, b, c] && [a, b, c] + [d] == [a, b, c, d];
  }

  /** A request that reads finds a challenge if and only if the last one is unexpired, unspent and not used:
      that one, with the attempts spent on it. Otherwise it is refused. */
  lemma ReadFindsLiveChallenge(s: State, r: nat)
    requires Inv(s) && r in s.verifiers && s.verifiers[r].Ready? && s.verifiers[r].retry < 5
    ensures var v, k := NextRead(s, r).verifiers[r], |s.issues| - 1;
            var isLive := s.issues != [] && s.clock < s.issues[k].expiresAt
                          && Spent(s.commits, k) < 5 && !Succeeded(s.commits, k);
            && (isLive ==> v.Compared? && v.issue == k && v.challenge.code == s.issues[k].code
                           && v.challenge.attempts == Spent(s.commits, k) && v.code == s.verifiers[r].code)
            && (!isLive ==> v == Done(s.verifiers[r].code, false))
  {
    if s.issues != [] {
      var k := |s.issues| - 1;
      assert s.row.Some? && s.issues[k].code != "";
    }
  }

  /** The write that follows takes effect if and only if the challenge it compared is still the last one,
      unexpired and not used, and nobody has spent an attempt on it since; then it spends one itself,
      whether the code was right or not, and the request is answered. Otherwise it tries again, five times
      in all. */
  lemma WriteSpendsAttempt(s: State, r: nat)
    requires Inv(s) && r in s.verifiers && s.verifiers[r].Compared?
    ensures var s', v := NextWrite(s, r), s.verifiers[r];
            var matched := v.code == s.issues[v.issue].code;
            var hits := v.issue == |s.issues| - 1 && s.clock < s.issues[v.issue].expiresAt
                        && Spent(s.commits, v.issue) == v.challenge.attempts && !Succeeded(s.commits, v.issue);
            && s'.commits == s.commits + (if hits then [Commit(r, v.code, v.issue, matched, s.clock)] else [])
            && s'.verifiers[r] ==
                 if hits then Done(v.code, matched)
                 else if v.retry < 4 then Ready(v.code, v.retry + 1)
                 else Done(v.code, false)
  {
    var v := s.verifiers[r];
    if s.row.Some? && s.row.value.updatedAt == v.challenge.updatedAt {
      NoABA(s, v);
    }
  }
}
