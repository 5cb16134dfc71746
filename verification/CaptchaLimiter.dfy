/** The captcha limiter: how many actions of one address pass before a captcha is demanded.

    Times are in milliseconds; the store keeps the time of the last action in whole seconds. Requests
    of one address are taken one after the other, as the guard does not make check and log atomic. */
module CaptchaLimiter {
  import opened Options

  datatype Conf = Conf(alwaysMode: bool, maxActions: int, resetTimeout: int)

  /** A limit of no actions means a captcha for every action. */
  ghost predicate Normalised(conf: Conf) {
    conf.maxActions <= 0 ==> conf.alwaysMode
  }

  /** What the store holds about one address. */
  datatype Entry = Entry(count: Option<int>, time: Option<nat>, verified: bool) {
    function Count(): int {
      match count case Some(n) => n case None => 0
    }
    function LastTime(): nat {
      match time case Some(t) => t case None => 0
    }
  }

  const BLANK: Entry := Entry(None, None, false)

  predicate TimedOut(conf: Conf, e: Entry, now: nat) {
    conf.resetTimeout > 0 && now - 1000 * e.LastTime() > 1000 * conf.resetTimeout
  }

  predicate Passes(conf: Conf, e: Entry, now: nat) {
    if conf.alwaysMode then e.verified
    else e.Count() < conf.maxActions || TimedOut(conf, e, now)
  }

  /** The limit was reached, but long enough ago. */
  predicate Resets(conf: Conf, e: Entry, now: nat) {
    !conf.alwaysMode && e.Count() >= conf.maxActions && TimedOut(conf, e, now)
  }

  function AfterIsPass(conf: Conf, e: Entry, now: nat): Entry {
    if Resets(conf, e, now) then e.(count := None, time := None) else e
  }

  function AfterLog(e: Entry, now: nat): Entry {
    Entry(Some(e.Count() + 1), Some(now / 1000), false)
  }

  function AfterVerifyPassed(conf: Conf, e: Entry): Entry {
    e.(count := Some(conf.maxActions - 1), verified := true)
  }

  /** What an address does: a guarded request (checked at one time, logged at another, not logged at
      all for the OPTIONS method), or an attempt at the captcha. */
  datatype Action =
    | Guarded(now: nat, logged: nat, isOptions: bool)
    | Solved
    | Failed(now: nat)

  function After(conf: Conf, e: Entry, a: Action): Entry {
    match a
    case Guarded(now, logged, isOptions) =>
      if Passes(conf, e, now) && !isOptions then AfterLog(AfterIsPass(conf, e, now), logged)
      else AfterIsPass(conf, e, now)
    case Solved => AfterVerifyPassed(conf, e)
    case Failed(now) => AfterLog(e, now)
  }

  /** The entry after a run, with how many guarded actions were admitted, how many times the count was
      reset after a timeout, how many captchas were solved, and when an action was last logged. */
  datatype Tally = Tally(entry: Entry, admitted: nat, resets: nat, solved: nat, last: Option<nat>)

  function Tallied(conf: Conf, t: Tally, a: Action): Tally {
    var e' := After(conf, t.entry, a);
    match a
    case Guarded(now, logged, isOptions) =>
      var admitted := Passes(conf, t.entry, now) && !isOptions;
      Tally(e', t.admitted + (if admitted then 1 else 0),
            t.resets + (if Resets(conf, t.entry, now) then 1 else 0), t.solved,
            if admitted then Some(logged) else t.last)
    case Solved => t.(entry := e', solved := t.solved + 1)
    case Failed(now) => t.(entry := e', last := Some(now))
  }

  function Run(conf: Conf, actions: seq<Action>): Tally
    decreases |actions|
  {
    if actions == [] then Tally(BLANK, 0, 0, 0, None)
    else Tallied(conf, Run(conf, actions[..|actions| - 1]), actions[|actions| - 1])
  }

  // ---------------------------------------------------------------------------------------------
  // Amortised bounds
  // ---------------------------------------------------------------------------------------------

  /** The actions the limiter still owes an address that has used `count` of them. */
  function Credit(conf: Conf, e: Entry): nat {
    if e.Count() < conf.maxActions then conf.maxActions - e.Count() else 0
  }

  lemma {:induction false} CreditBound(conf: Conf, actions: seq<Action>)
    requires !conf.alwaysMode && conf.maxActions > 0
    ensures var t := Run(conf, actions);
            && t.entry.Count() >= 0
            && t.admitted + Credit(conf, t.entry) <= conf.maxActions + conf.maxActions * t.resets + t.solved
    decreases |actions|
  {
    if actions != [] {
      var before := actions[..|actions| - 1];
      CreditBound(conf, before);
      var t := Run(conf, before);
      assert conf.maxActions * (t.resets + 1) == conf.maxActions * t.resets + conf.maxActions;
    }
  }

  /** With a limit, an address is admitted at most Max times for a start and for every timeout reset,
      and once for every captcha it solves. */
  lemma NormalModeBound(conf: Conf, actions: seq<Action>)
    requires !conf.alwaysMode && Normalised(conf)
    ensures var t := Run(conf, actions); t.admitted <= conf.maxActions * (1 + t.resets) + t.solved
  {
    CreditBound(conf, actions);
  }

  /** In always mode every admission is paid for by a captcha of its own. */
  lemma {:induction false} AlwaysModeBound(conf: Conf, actions: seq<Action>)
    requires conf.alwaysMode
    ensures var t := Run(conf, actions); t.admitted + (if t.entry.verified then 1 else 0) <= t.solved && t.resets == 0
    decreases |actions|
  {
    if actions != [] {
      AlwaysModeBound(conf, actions[..|actions| - 1]);
    }
  }

  /** A solved captcha lets the next action pass, in either mode and whatever came before; where no timeout is
      set, that action uses it up. */
  lemma SolvedCaptchaAdmitsOne(conf: Conf, e: Entry, now: nat, logged: nat, later: nat)
    requires Normalised(conf)
    ensures Passes(conf, After(conf, e, Solved), now)
    ensures var e' := After(conf, After(conf, e, Solved), Guarded(now, logged, false));
            conf.resetTimeout <= 0 ==> !Passes(conf, e', later)
  {
  }

  /** A failed attempt at the captcha takes back what a solved one gave. */
  lemma FailureRevokes(conf: Conf, e: Entry, failed: nat, later: nat)
    requires Normalised(conf) && conf.resetTimeout <= 0
    ensures !Passes(conf, After(conf, After(conf, e, Solved), Failed(failed)), later)
  {
  }

  /** The actions of a sequence that would be logged. */
  function Uses(actions: seq<Action>): nat {
    if actions == [] then 0
    else
      var last := actions[|actions| - 1];
      Uses(actions[..|actions| - 1]) + if last.Failed? || (last.Guarded? && !last.isOptions) then 1 else 0
  }

  /** The limit is what it says: without a timeout, and before any captcha is solved, an address passes exactly
      while it has fewer than Max actions behind it. */
  lemma {:induction false} ExactlyMaxPass(conf: Conf, actions: seq<Action>, now: nat)
    requires !conf.alwaysMode && Normalised(conf) && conf.resetTimeout <= 0
    requires forall i :: 0 <= i < |actions| ==> actions[i] != Solved
    ensures Passes(conf, Run(conf, actions).entry, now) <==> Uses(actions) < conf.maxActions
    ensures var count := Run(conf, actions).entry.Count();
            if Uses(actions) < conf.maxActions then count == Uses(actions) else count >= conf.maxActions
    decreases |actions|
  {
    if actions != [] {
      var before, last := actions[..|actions| - 1], actions[|actions| - 1];
      assert last != Solved && forall i :: 0 <= i < |before| ==> before[i] == actions[i];
      ExactlyMaxPass(conf, before, if last.Guarded? then last.now else now);
      ExactlyMaxPass(conf, before, now);
    }
  }

  /** In always mode an address passes exactly if its last action, OPTIONS aside, was to solve a captcha. */
  lemma {:induction false} AlwaysModePassesOnceSolved(conf: Conf, actions: seq<Action>, a: Action, now: nat)
    requires conf.alwaysMode
    ensures Passes(conf, Run(conf, actions + [Solved]).entry, now)
    ensures !a.Solved? && !(a.Guarded? && a.isOptions) ==> !Passes(conf, Run(conf, actions + [a]).entry, now)
    ensures a.Guarded? && a.isOptions ==>
              (Passes(conf, Run(conf, actions + [a]).entry, now) <==> Passes(conf, Run(conf, actions).entry, now))
  {
    assert (actions + [Solved])[..|actions|] == actions && (actions + [a])[..|actions|] == actions;
  }

  /** Once the timeout is over, an address passes again, and starts to count from the beginning. */
  lemma TimeoutStartsOver(conf: Conf, actions: seq<Action>, now: nat, logged: nat)
    requires !conf.alwaysMode && Normalised(conf) && conf.resetTimeout > 0
    requires var t := Run(conf, actions); t.last.Some? && now - t.last.value > 1000 * conf.resetTimeout
    ensures Passes(conf, Run(conf, actions).entry, now)
    ensures Run(conf, actions).entry.Count() >= conf.maxActions ==>
              After(conf, Run(conf, actions).entry, Guarded(now, logged, false)).Count() == 1
  {
    FullMeansLogged(conf, actions);
  }

  /** The count can only be at its limit if an action was logged, and the stored time is the second of
      the last one. */
  lemma {:induction false} FullMeansLogged(conf: Conf, actions: seq<Action>)
    requires !conf.alwaysMode && Normalised(conf)
    ensures var t := Run(conf, actions);
            && (t.entry.Count() >= conf.maxActions ==> t.entry.time.Some?)
            && (t.entry.time.Some? ==> t.last.Some? && t.entry.time.value == t.last.value / 1000)
    decreases |actions|
  {
    if actions != [] {
      FullMeansLogged(conf, actions[..|actions| - 1]);
    }
  }

  /** A reset needs real inactivity: more than the timeout, less the second that the stored time is
      cut down to, since the last logged action. */
  lemma ResetNeedsInactivity(conf: Conf, actions: seq<Action>, now: nat)
    requires !conf.alwaysMode && Normalised(conf) && Resets(conf, Run(conf, actions).entry, now)
    ensures var t := Run(conf, actions);
            t.last.Some? && now > t.last.value + 1000 * conf.resetTimeout - 1000
  {
    FullMeansLogged(conf, actions);
  }

  /** Seen from the last logged action a timeout is never late, and less than a second early: that is what
      the stored time lacks. */
  lemma TimeoutWithinASecond(conf: Conf, actions: seq<Action>, now: nat)
    requires !conf.alwaysMode && Normalised(conf) && conf.resetTimeout > 0
    requires Run(conf, actions).entry.time.Some?
    ensures var t := Run(conf, actions);
            && t.last.Some?
            && (now - t.last.value > 1000 * conf.resetTimeout ==> TimedOut(conf, t.entry, now))
            && (TimedOut(conf, t.entry, now) ==> now - t.last.value > 1000 * conf.resetTimeout - 1000)
  {
    FullMeansLogged(conf, actions);
  }

  // ---------------------------------------------------------------------------------------------
  // The store
  // ---------------------------------------------------------------------------------------------

  class Limiter {
    const conf: Conf
    var counts: map<string, int>
    var times: map<string, nat>
    var verified: map<string, bool>

    function EntryOf(ip: string): Entry
      reads this
    {
      Entry(if ip in counts then Some(counts[ip]) else None,
            if ip in times then Some(times[ip]) else None,
            ip in verified && verified[ip])
    }

    constructor (c: Conf)
      ensures Normalised(conf) && conf == c.(alwaysMode := c.alwaysMode || c.maxActions <= 0)
      ensures forall ip :: EntryOf(ip) == BLANK
    {
      conf := if c.maxActions <= 0 then c.(alwaysMode := true) else c;
      counts, times, verified := map[], map[], map[];
    }

    method IsPass(ip: string, now: nat) returns (pass: bool)
      modifies this
      ensures pass == Passes(conf, old(EntryOf(ip)), now)
      ensures EntryOf(ip) == AfterIsPass(conf, old(EntryOf(ip)), now)
      ensures forall other :: other != ip ==> EntryOf(other) == old(EntryOf(other))
    {
      if conf.alwaysMode {
        return ip in verified && verified[ip];
      }
      var count := if ip in counts then counts[ip] else 0;
      if count < conf.maxActions {
        return true;
      }
      if IsTimeoutSinceLastAction(ip, now) {
        ResetLog(ip);
        return true;
      }
      return false;
    }

    predicate IsTimeoutSinceLastAction(ip: string, now: nat)
      reads this
      ensures IsTimeoutSinceLastAction(ip, now) <==> TimedOut(conf, EntryOf(ip), now)
    {
      if conf.resetTimeout <= 0 then false
      else
        var last := if ip in times then times[ip] else 0;
        now - 1000 * last > 1000 * conf.resetTimeout
    }

    method ResetLog(ip: string)
      modifies this
      ensures EntryOf(ip) == old(EntryOf(ip)).(count := None, time := None)
      ensures forall other :: other != ip ==> EntryOf(other) == old(EntryOf(other))
    {
      times := times - {ip};
      counts := counts - {ip};
    }

    method Log(ip: string, now: nat)
      modifies this
      ensures EntryOf(ip) == AfterLog(old(EntryOf(ip)), now)
      ensures forall other :: other != ip ==> EntryOf(other) == old(EntryOf(other))
    {
      counts := counts[ip := (if ip in counts then counts[ip] else 0) + 1];
      times := times[ip := now / 1000];
      verified := verified[ip := false];
    }

    method MarkVerifyPassed(ip: string)
      modifies this
      ensures EntryOf(ip) == After(conf, old(EntryOf(ip)), Solved)
      ensures forall other :: other != ip ==> EntryOf(other) == old(EntryOf(other))
    {
      counts := counts[ip := conf.maxActions - 1];
      verified := verified[ip := true];
    }

    method MarkVerifyFailed(ip: string, now: nat)
      modifies this
      ensures EntryOf(ip) == After(conf, old(EntryOf(ip)), Failed(now))
      ensures forall other :: other != ip ==> EntryOf(other) == old(EntryOf(other))
    {
      Log(ip, now);
      verified := verified[ip := false];
    }

    /** The guard around a handler. The handler runs iff the result is true. */
    method LimiterGuard(ip: string, captchaEnabled: bool, isAdmin: bool, now: nat, logged: nat, isOptions: bool)
      returns (handled: bool)
      modifies this
      ensures !captchaEnabled || isAdmin ==> handled && forall other :: EntryOf(other) == old(EntryOf(other))
      ensures captchaEnabled && !isAdmin ==>
        && handled == Passes(conf, old(EntryOf(ip)), now)
        && EntryOf(ip) == After(conf, old(EntryOf(ip)), Guarded(now, logged, isOptions))
      ensures forall other :: other != ip ==> EntryOf(other) == old(EntryOf(other))
    {
      if !captchaEnabled || isAdmin {
        return true;
      }
      handled := IsPass(ip, now);
      if handled && !isOptions {
        Log(ip, logged);
      }
    }
  }

  // ---------------------------------------------------------------------------------------------
  // Many addresses
  // ---------------------------------------------------------------------------------------------

  datatype Request = Request(ip: string, action: Action)

  /** All requests of a server, in order, seen by one address. */
  function Mine(ip: string, requests: seq<Request>): seq<Action> {
    if requests == [] then []
    else
      var before := Mine(ip, requests[..|requests| - 1]);
      var last := requests[|requests| - 1];
      if last.ip == ip then before + [last.action] else before
  }

  function RunStore(conf: Conf, requests: seq<Request>): map<string, Entry> {
    if requests == [] then map[]
    else
      var before := RunStore(conf, requests[..|requests| - 1]);
      var last := requests[|requests| - 1];
      before[last.ip := After(conf, Stored(before, last.ip), last.action)]
  }

  function Stored(store: map<string, Entry>, ip: string): Entry {
    if ip in store then store[ip] else BLANK
  }

  lemma RunSnoc(conf: Conf, actions: seq<Action>, a: Action)
    ensures Run(conf, actions + [a]).entry == After(conf, Run(conf, actions).entry, a)
  {
    assert (actions + [a])[..|actions|] == actions;
  }

  lemma StoredAfter(store: map<string, Entry>, ip: string, entry: Entry, other: string)
    ensures Stored(store[ip := entry], other) == if other == ip then entry else Stored(store, other)
  {
  }

  /** However the requests of several addresses are mixed, each address has the entry it would have
      alone; so the bounds above hold for each of them. */
  lemma {:induction false} AddressesAreIndependent(conf: Conf, requests: seq<Request>, ip: string)
    ensures Stored(RunStore(conf, requests), ip) == Run(conf, Mine(ip, requests)).entry
    decreases |requests|
  {
    if requests != [] {
      var before, last := requests[..|requests| - 1], requests[|requests| - 1];
      AddressesAreIndependent(conf, before, ip);
      var store := RunStore(conf, before);
      StoredAfter(store, last.ip, After(conf, Stored(store, last.ip), last.action), ip);
      RunSnoc(conf, Mine(ip, before), last.action);
    }
  }
}
