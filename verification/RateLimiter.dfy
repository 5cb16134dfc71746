/** The fixed-window rate limiter.

    A call either opens a new window or counts in the current one. Although a burst may straddle two
    windows, no interval as long as a window ever holds 2 * total admissions: the call that opened the
    older window was itself admitted, before the interval began. */
module RateLimiter {

  datatype Config = Config(perKeyLimit: nat, totalLimit: nat, window: nat)

  ghost predicate Positive(cfg: Config) {
    cfg.perKeyLimit > 0 && cfg.totalLimit > 0 && cfg.window > 0
  }

  datatype Counters = Counters(expires: nat, counts: map<string, nat>, total: nat)

  datatype Call = Call(key: string, now: nat)

  function Count(counts: map<string, nat>, key: string): nat {
    if key in counts then counts[key] else 0
  }

  /** The counters a call finds: fresh ones if the window is over. */
  function Opened(cfg: Config, c: Counters, now: nat): Counters {
    if now >= c.expires then Counters(now + cfg.window, map[], 0) else c
  }

  predicate Admits(cfg: Config, c: Counters, key: string) {
    c.total < cfg.totalLimit && Count(c.counts, key) < cfg.perKeyLimit
  }

  function After(cfg: Config, c: Counters, call: Call): Counters {
    var o := Opened(cfg, c, call.now);
    if Admits(cfg, o, call.key) then
      Counters(o.expires, o.counts[call.key := Count(o.counts, call.key) + 1], o.total + 1)
    else o
  }

  /** The calls of a sequence that are admitted, in order. */
  function Admitted(cfg: Config, c: Counters, calls: seq<Call>): seq<Call>
    decreases |calls|
  {
    if calls == [] then []
    else
      var rest := Admitted(cfg, After(cfg, c, calls[0]), calls[1..]);
      if Admits(cfg, Opened(cfg, c, calls[0].now), calls[0].key) then [calls[0]] + rest else rest
  }

  const FRESH: Counters := Counters(0, map[], 0)

  // ---------------------------------------------------------------------------------------------
  // The counters
  // ---------------------------------------------------------------------------------------------

  ghost function Sum(counts: map<string, nat>): nat
    decreases |counts|
  {
    if counts == map[] then 0
    else var k :| k in counts; counts[k] + Sum(counts - {k})
  }

  lemma {:induction false} SumPick(counts: map<string, nat>, k: string)
    requires k in counts
    ensures Sum(counts) == counts[k] + Sum(counts - {k})
    decreases |counts|
  {
    var j :| j in counts && Sum(counts) == counts[j] + Sum(counts - {j});
    if j != k {
      SumPick(counts - {j}, k);
      SumPick(counts - {k}, j);
      assert counts - {j} - {k} == counts - {k} - {j};
    }
  }

  lemma SumBump(counts: map<string, nat>, k: string)
    ensures Sum(counts[k := Count(counts, k) + 1]) == Sum(counts) + 1
  {
    var counts' := counts[k := Count(counts, k) + 1];
    SumPick(counts', k);
    assert counts' - {k} == counts - {k};
    if k in counts {
      SumPick(counts, k);
    } else {
      assert counts - {k} == counts;
    }
  }

  /** The total is the sum of the counts, within both limits, and no more keys are kept than calls
      were counted. */
  ghost predicate Valid(cfg: Config, c: Counters) {
    && c.total == Sum(c.counts)
    && |c.counts| <= c.total <= cfg.totalLimit
    && forall k :: k in c.counts ==> 0 < c.counts[k] <= cfg.perKeyLimit
  }

  lemma AfterKeepsValid(cfg: Config, c: Counters, call: Call)
    requires Positive(cfg) && Valid(cfg, c)
    ensures Valid(cfg, After(cfg, c, call))
    ensures |After(cfg, c, call).counts| <= cfg.totalLimit
  {
    var o := Opened(cfg, c, call.now);
    if Admits(cfg, o, call.key) {
      SumBump(o.counts, call.key);
      var counts' := o.counts[call.key := Count(o.counts, call.key) + 1];
      if call.key in o.counts {
        assert counts'.Keys == o.counts.Keys;
      } else {
        assert counts'.Keys == o.counts.Keys + {call.key};
      }
      CardOfKeys(counts');
      CardOfKeys(o.counts);
    }
  }

  lemma {:induction false} CardOfKeys(m: map<string, nat>)
    ensures |m| == |m.Keys|
  {
  }

  class Limiter {
    const cfg: Config
    var expires: nat
    var counts: map<string, nat>
    var total: nat

    ghost function View(): Counters
      reads this
    {
      Counters(expires, counts, total)
    }

    constructor (perKeyLimit: nat, totalLimit: nat, window: nat)
      requires perKeyLimit > 0 && totalLimit > 0 && window > 0
      ensures cfg == Config(perKeyLimit, totalLimit, window) && View() == FRESH
      ensures Valid(cfg, View())
    {
      cfg := Config(perKeyLimit, totalLimit, window);
      expires, counts, total := 0, map[], 0;
    }

    method Allow(key: string, now: nat) returns (ok: bool)
      requires Positive(cfg) && Valid(cfg, View())
      modifies this
      ensures ok <==> Admits(cfg, Opened(cfg, old(View()), now), key)
      ensures View() == After(cfg, old(View()), Call(key, now))
      ensures Valid(cfg, View()) && |counts| <= cfg.totalLimit
    {
      AfterKeepsValid(cfg, View(), Call(key, now));
      if now >= expires {
        counts := map[];
        total := 0;
        expires := now + cfg.window;
      }
      if total >= cfg.totalLimit || Count(counts, key) >= cfg.perKeyLimit {
        return false;
      }
      counts := counts[key := Count(counts, key) + 1];
      total := total + 1;
      return true;
    }
  }

  // ---------------------------------------------------------------------------------------------
  // Sliding bounds
  // ---------------------------------------------------------------------------------------------

  /** How many calls of a sequence lie in [from, from + window); of one key, or of all. */
  function InWindow(calls: seq<Call>, key: KeyFilter, from: nat, window: nat): nat {
    if calls == [] then 0
    else
      InWindow(calls[1..], key, from, window)
      + (if from <= calls[0].now < from + window && key.Matches(calls[0].key) then 1 else 0)
  }

  datatype KeyFilter = All | Only(key: string) {
    predicate Matches(k: string) {
      this == All || this == Only(k)
    }
  }

  ghost predicate Monotone(calls: seq<Call>) {
    forall i, j :: 0 <= i < j < |calls| ==> calls[i].now <= calls[j].now
  }

  ghost function Limit(cfg: Config, key: KeyFilter): nat {
    if key.All? then cfg.totalLimit else cfg.perKeyLimit
  }

  ghost function Used(c: Counters, key: KeyFilter): nat {
    match key case All => c.total case Only(k) => Count(c.counts, k)
  }

  /** How many more calls [from, from + window) may still admit, in a state with these counters. */
  ghost function Budget(cfg: Config, c: Counters, key: KeyFilter, from: nat): int {
    var limit := Limit(cfg, key);
    if c.expires >= from + cfg.window then limit - Used(c, key)
    else if c.expires > from then 2 * limit - Used(c, key)
    else if key.All? then 2 * limit - 1
    else 2 * limit
  }

  lemma {:induction false} LateCallsDoNotCount(cfg: Config, c: Counters, key: KeyFilter, calls: seq<Call>, from: nat)
    requires Monotone(calls) && calls != [] && calls[0].now >= from + cfg.window
    ensures InWindow(Admitted(cfg, c, calls), key, from, cfg.window) == 0
    decreases |calls|
  {
    if |calls| > 1 {
      LateCallsDoNotCount(cfg, After(cfg, c, calls[0]), key, calls[1..], from);
    }
  }

  lemma {:induction false} AdmissionsWithinBudget(cfg: Config, c: Counters, key: KeyFilter, calls: seq<Call>, from: nat)
    requires Positive(cfg) && Valid(cfg, c) && Monotone(calls)
    ensures InWindow(Admitted(cfg, c, calls), key, from, cfg.window) <= Budget(cfg, c, key, from)
    decreases |calls|
  {
    if calls != [] {
      var call := calls[0];
      var c' := After(cfg, c, call);
      AfterKeepsValid(cfg, c, call);
      if call.now >= from + cfg.window {
        LateCallsDoNotCount(cfg, c, key, calls, from);
      } else {
        AdmissionsWithinBudget(cfg, c', key, calls[1..], from);
      }
    }
  }

  /** What one key can get in any interval as long as the window. */
  function KeyBound(cfg: Config): int {
    if cfg.perKeyLimit < cfg.totalLimit then 2 * cfg.perKeyLimit else 2 * cfg.totalLimit - 1
  }

  lemma {:induction false} KeyWithinAll(calls: seq<Call>, key: string, from: nat, window: nat)
    ensures InWindow(calls, Only(key), from, window) <= InWindow(calls, All, from, window)
    decreases |calls|
  {
    if calls != [] {
      KeyWithinAll(calls[1..], key, from, window);
    }
  }

  /** Whatever the calls, and with a clock that does not go back, no interval as long as the window
      admits more than 2 * totalLimit - 1 calls in all, or KeyBound calls of one key. */
  lemma SlidingBound(cfg: Config, calls: seq<Call>, from: nat, key: string)
    requires Positive(cfg) && Monotone(calls)
    ensures InWindow(Admitted(cfg, FRESH, calls), All, from, cfg.window) <= 2 * cfg.totalLimit - 1
    ensures InWindow(Admitted(cfg, FRESH, calls), Only(key), from, cfg.window) <= KeyBound(cfg)
  {
    AdmissionsWithinBudget(cfg, FRESH, All, calls, from);
    AdmissionsWithinBudget(cfg, FRESH, Only(key), calls, from);
    KeyWithinAll(Admitted(cfg, FRESH, calls), key, from, cfg.window);
  }

  // ---------------------------------------------------------------------------------------------
  // Both bounds are reached
  // ---------------------------------------------------------------------------------------------

  /** n calls at one time, of one key or of n different ones. */
  function Same(key: string, t: nat, n: nat): (calls: seq<Call>)
    ensures |calls| == n && forall i :: 0 <= i < n ==> calls[i].now == t
  {
    if n == 0 then [] else [Call(key, t)] + Same(key, t, n - 1)
  }

  function Name(n: nat): (s: string)
    ensures |s| == n
  {
    if n == 0 then "" else "x" + Name(n - 1)
  }

  function Fan(t: nat, n: nat): (calls: seq<Call>)
    ensures |calls| == n && forall i :: 0 <= i < n ==> calls[i].now == t
  {
    if n == 0 then [] else [Call(Name(n), t)] + Fan(t, n - 1)
  }

  ghost predicate NamesAreFree(counts: map<string, nat>, n: nat) {
    forall k :: k in counts ==> |k| > n
  }

  lemma FirstIsAdmitted(cfg: Config, c: Counters, call: Call, rest: seq<Call>)
    requires Admits(cfg, Opened(cfg, c, call.now), call.key)
    ensures Admitted(cfg, c, [call] + rest) == [call] + Admitted(cfg, After(cfg, c, call), rest)
  {
    assert ([call] + rest)[1..] == rest;
  }

  /** The counters that a second call at the same time finds. */
  lemma OpenedAgain(cfg: Config, c: Counters, call: Call)
    requires Positive(cfg) && Admits(cfg, Opened(cfg, c, call.now), call.key)
    ensures var o := Opened(cfg, c, call.now);
            Opened(cfg, After(cfg, c, call), call.now) ==
              Counters(o.expires, o.counts[call.key := Count(o.counts, call.key) + 1], o.total + 1)
  {
  }

  lemma {:induction false} SameIsAdmitted(cfg: Config, c: Counters, key: string, t: nat, n: nat, rest: seq<Call>)
    returns (c': Counters)
    requires Positive(cfg)
    requires var o := Opened(cfg, c, t); o.total + n <= cfg.totalLimit && Count(o.counts, key) + n <= cfg.perKeyLimit
    ensures Admitted(cfg, c, Same(key, t, n) + rest) == Same(key, t, n) + Admitted(cfg, c', rest)
    ensures if n == 0 then c' == c else c'.expires == Opened(cfg, c, t).expires
    decreases n
  {
    if n == 0 {
      c' := c;
      assert [] + rest == rest;
    } else {
      var call := Call(key, t);
      FirstIsAdmitted(cfg, c, call, Same(key, t, n - 1) + rest);
      OpenedAgain(cfg, c, call);
      c' := SameIsAdmitted(cfg, After(cfg, c, call), key, t, n - 1, rest);
      assert Same(key, t, n) + rest == [call] + (Same(key, t, n - 1) + rest);
    }
  }

  lemma {:induction false} FanIsAdmitted(cfg: Config, c: Counters, t: nat, n: nat, rest: seq<Call>)
    returns (c': Counters)
    requires Positive(cfg)
    requires var o := Opened(cfg, c, t); o.total + n <= cfg.totalLimit && NamesAreFree(o.counts, n)
    ensures Admitted(cfg, c, Fan(t, n) + rest) == Fan(t, n) + Admitted(cfg, c', rest)
    ensures if n == 0 then c' == c else c'.expires == Opened(cfg, c, t).expires
    decreases n
  {
    if n == 0 {
      c' := c;
      assert [] + rest == rest;
    } else {
      var call := Call(Name(n), t);
      FirstIsAdmitted(cfg, c, call, Fan(t, n - 1) + rest);
      OpenedAgain(cfg, c, call);
      c' := FanIsAdmitted(cfg, After(cfg, c, call), t, n - 1, rest);
      assert Fan(t, n) + rest == [call] + (Fan(t, n - 1) + rest);
    }
  }

  lemma {:induction false} InWindowOfBurst(calls: seq<Call>, rest: seq<Call>, key: KeyFilter, t: nat, from: nat,
                                           window: nat)
    requires from <= t < from + window && forall i :: 0 <= i < |calls| ==>
               calls[i].now == t && key.Matches(calls[i].key)
    ensures InWindow(calls + rest, key, from, window) == |calls| + InWindow(rest, key, from, window)
    decreases |calls|
  {
    if calls == [] {
      assert calls + rest == rest;
    } else {
      assert (calls + rest)[1..] == calls[1..] + rest;
      InWindowOfBurst(calls[1..], rest, key, t, from, window);
    }
  }

  lemma {:induction false} SameKeys(key: string, t: nat, n: nat)
    ensures forall i :: 0 <= i < n ==> Same(key, t, n)[i].key == key
  {
    if n > 0 {
      SameKeys(key, t, n - 1);
    }
  }

  /** One call at 0, a burst at the end of its window, and a burst at the start of the next one. */
  lemma BurstsCount(first: Call, late: seq<Call>, next: seq<Call>, key: KeyFilter, w: nat)
    requires w >= 2 && first.now == 0
    requires forall i :: 0 <= i < |late| ==> late[i].now == w - 1 && key.Matches(late[i].key)
    requires forall i :: 0 <= i < |next| ==> next[i].now == w && key.Matches(next[i].key)
    ensures Monotone([first] + (late + next))
    ensures InWindow([first] + (late + next), key, 1, w) == |late| + |next|
  {
    assert ([first] + (late + next))[1..] == late + next && next + [] == next;
    InWindowOfBurst(late, next, key, w - 1, 1, w);
    InWindowOfBurst(next, [], key, w, 1, w);
  }

  lemma FirstCounters(cfg: Config, key: string)
    requires Positive(cfg)
    ensures Admits(cfg, Opened(cfg, FRESH, 0), key)
    ensures After(cfg, FRESH, Call(key, 0)) == Counters(cfg.window, map[key := 1], 1)
  {
  }

  /** The bound on all calls cannot be improved, for any limits: one call opens a window, the rest of its
      admissions come at its very end, and those of the next window right after. */
  lemma TotalBoundIsReached(cfg: Config) returns (calls: seq<Call>)
    requires Positive(cfg) && cfg.window >= 2
    ensures Monotone(calls)
    ensures InWindow(Admitted(cfg, FRESH, calls), All, 1, cfg.window) == 2 * cfg.totalLimit - 1
  {
    var n, w := cfg.totalLimit, cfg.window;
    var first, late, next := Call(Name(n), 0), Fan(w - 1, n - 1), Fan(w, n);
    calls := [first] + (late + next);
    FirstCounters(cfg, Name(n));
    FirstIsAdmitted(cfg, FRESH, first, late + next);
    var c2 := FanIsAdmitted(cfg, After(cfg, FRESH, first), w - 1, n - 1, next);
    var c3 := FanIsAdmitted(cfg, c2, w, n, []);
    assert next + [] == next;
    BurstsCount(first, late, next, All, w);
  }

  /** Nor can the bound on one key: the first window is opened by another key if the total leaves room for
      one, and by the key itself otherwise. */
  lemma KeyBoundIsReached(cfg: Config, key: string) returns (calls: seq<Call>)
    requires Positive(cfg) && cfg.window >= 2
    ensures Monotone(calls)
    ensures InWindow(Admitted(cfg, FRESH, calls), Only(key), 1, cfg.window) == KeyBound(cfg)
  {
    if cfg.perKeyLimit < cfg.totalLimit {
      calls := BurstsOfKey(cfg, key, key + "x", cfg.perKeyLimit, cfg.perKeyLimit);
    } else {
      calls := BurstsOfKey(cfg, key, key, cfg.totalLimit - 1, cfg.totalLimit);
    }
  }

  lemma BurstsOfKey(cfg: Config, key: string, opener: string, m: nat, n: nat) returns (calls: seq<Call>)
    requires Positive(cfg) && cfg.window >= 2
    requires m + 1 <= cfg.totalLimit && n <= cfg.totalLimit && n <= cfg.perKeyLimit
    requires (if opener == key then m + 1 else m) <= cfg.perKeyLimit
    ensures Monotone(calls)
    ensures InWindow(Admitted(cfg, FRESH, calls), Only(key), 1, cfg.window) == m + n
  {
    var w := cfg.window;
    var first, late, next := Call(opener, 0), Same(key, w - 1, m), Same(key, w, n);
    calls := [first] + (late + next);
    FirstCounters(cfg, opener);
    FirstIsAdmitted(cfg, FRESH, first, late + next);
    var c2 := SameIsAdmitted(cfg, After(cfg, FRESH, first), key, w - 1, m, next);
    var c3 := SameIsAdmitted(cfg, c2, key, w, n, []);
    SameKeys(key, w - 1, m);
    SameKeys(key, w, n);
    assert next + [] == next;
    BurstsCount(first, late, next, Only(key), w);
  }
}
