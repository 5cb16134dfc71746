/** Fetching the title of a page: the redirect budget of one fetch, and the limiter of automatic
    fetches. URLs are opaque; the origin of a URL is a function of it, undefined for URLs that are not
    HTTP(S). Times are in milliseconds. */
module PageFetch {
  import opened Options

  const MAX_REDIRECTS: nat := 10
  const MAX_CONCURRENT: nat := 4
  const INTERVAL: nat := 1000

  type Origins = string -> Option<string>

  predicate Trusted(url: string, originOf: Origins, trusted: seq<string>) {
    originOf(url).Some? && originOf(url).value in trusted
  }

  /** What the network answers to one request. */
  datatype Reply =
    | Failure
    | HttpRedirect(to: string)
    | Status(code: nat)
    | Page(title: string, refresh: Option<string>)   // a meta refresh, resolved against the final URL
    | BadRefresh

  /** The n-th request of a fetch may be answered in any way. */
  type Network = nat -> Reply

  datatype Outcome = Title(title: string) | Error

  // ---------------------------------------------------------------------------------------------
  // One fetch
  // ---------------------------------------------------------------------------------------------

  /** The chain of requests: each answers the one before with a redirect to it. */
  predicate IsChain(requests: seq<string>, net: Network) {
    forall i :: 0 <= i < |requests| - 1 ==> RedirectOf(net(i)) == Some(requests[i + 1])
  }

  function RedirectOf(r: Reply): Option<string> {
    match r
    case HttpRedirect(to) => Some(to)
    case Page(_, refresh) => refresh
    case _ => None
  }

  class Fetcher {
    const originOf: Origins
    const trusted: seq<string>
    const net: Network
    var redirects: nat
    var requests: seq<string>   // every URL requested, in order

    constructor (originOf: Origins, trusted: seq<string>, net: Network)
      ensures redirects == 0 && requests == []
      ensures this.originOf == originOf && this.trusted == trusted && this.net == net
    {
      this.originOf, this.trusted, this.net := originOf, trusted, net;
      redirects, requests := 0, [];
    }

    /** Between requests: everything requested was trusted and followed from the reply before, and
        every reply so far was a redirect that has been counted. */
    ghost predicate Following(next: string)
      reads this
    {
      && (forall u :: u in requests ==> Trusted(u, originOf, trusted))
      && IsChain(requests, net)
      && redirects == |requests| && redirects <= MAX_REDIRECTS
      && (requests != [] ==> Trusted(next, originOf, trusted) && RedirectOf(net(|requests| - 1)) == Some(next))
    }

    /** The last reply ends the fetch without a title: it is neither a page to stay on nor a redirect
        that the budget and the trusted origins allow. */
    ghost predicate Stopped()
      reads this
      requires requests != []
    {
      && !(net(|requests| - 1).Page? && net(|requests| - 1).refresh.None?)
      && (RedirectOf(net(|requests| - 1)).Some? ==>
            || |requests| > 10
            || originOf(RedirectOf(net(|requests| - 1)).value).None?
            || originOf(RedirectOf(net(|requests| - 1)).value).value !in trusted)
    }

    /** Counts a redirect of either kind, then checks budget and trust. */
    method CheckRedirect(url: string) returns (ok: bool)
      modifies this`redirects
      ensures redirects == old(redirects) + 1
      ensures ok <==> redirects <= MAX_REDIRECTS && Trusted(url, originOf, trusted)
    {
      redirects := redirects + 1;
      if redirects > MAX_REDIRECTS {
        return false;
      }
      ok := Trusted(url, originOf, trusted);
    }

    /** The HTTP client: requests a URL and follows HTTP redirects while the check allows it. */
    method Do(url: string) returns (reply: Reply)
      requires Following(url) && Trusted(url, originOf, trusted)
      modifies this
      ensures !reply.HttpRedirect?
      ensures old(requests) + [url] <= requests
      ensures forall u :: u in requests ==> Trusted(u, originOf, trusted)
      ensures IsChain(requests, net) && |requests| <= MAX_REDIRECTS + 1
      ensures if reply == Failure then Stopped() else |requests| == redirects + 1 && reply == net(|requests| - 1)
    {
      var target := url;
      while true
        invariant Following(target) && Trusted(target, originOf, trusted)
        invariant if requests == old(requests) then target == url else old(requests) + [url] <= requests
        decreases MAX_REDIRECTS - redirects
      {
        var answer := net(|requests|);
        requests := requests + [target];
        match answer {
          case HttpRedirect(to) =>
            var ok := CheckRedirect(to);
            if !ok {
              return Failure;
            }
            target := to;
          case _ =>
            return answer;
        }
      }
    }

    /** Fetches a page, following HTTP redirects and meta refreshes, on trusted origins only and at
        most ten redirects of both kinds together; it ends for every network that answers. */
    method FetchPageTitle(url: string) returns (r: Outcome)
      requires redirects == 0 && requests == []
      modifies this
      ensures forall u :: u in requests ==> originOf(u).Some? && originOf(u).value in trusted
      ensures requests != [] ==> requests[0] == url
      ensures IsChain(requests, net) && |requests| <= 11
      ensures requests == [] <==> originOf(url).None? || originOf(url).value !in trusted
      ensures r.Title? ==> requests != [] && net(|requests| - 1) == Page(r.title, None)
      ensures r.Error? && requests != [] ==> Stopped()
    {
      var rawURL := url;
      while true
        invariant Following(rawURL)
        invariant if requests == [] then rawURL == url else requests[0] == url
        decreases MAX_REDIRECTS - redirects
      {
        if !Trusted(rawURL, originOf, trusted) {
          return Error;
        }
        var reply := Do(rawURL);
        match reply {
          case Page(title, None) =>
            return Title(title);
          case Page(_, Some(next)) =>
            var ok := CheckRedirect(next);
            if !ok {
              return Error;
            }
            rawURL := next;
          case _ =>
            return Error;
        }
      }
    }
  }

  // ---------------------------------------------------------------------------------------------
  // The limiter of automatic fetches
  // ---------------------------------------------------------------------------------------------

  class FetchLimiter {
    var nextStart: nat
    var active: set<string>

    ghost function View(): Gate
      reads this
    {
      Gate(nextStart, active)
    }

    constructor ()
      ensures View() == OPEN
    {
      nextStart, active := 0, {};
    }

    method Acquire(url: string, now: nat) returns (ok: bool)
      modifies this
      ensures ok <==> Free(old(View()), url, now)
      ensures View() == if ok then Taken(old(View()), url, now) else old(View())
    {
      if now < nextStart || |active| >= MAX_CONCURRENT || url in active {
        return false;
      }
      active := active + {url};
      nextStart := now + INTERVAL;
      return true;
    }

    method Release(url: string)
      modifies this
      ensures View() == Released(old(View()), url)
    {
      active := active - {url};
    }
  }

  datatype Gate = Gate(nextStart: nat, active: set<string>)

  const OPEN: Gate := Gate(0, {})

  predicate Free(g: Gate, url: string, now: nat) {
    now >= g.nextStart && |g.active| < MAX_CONCURRENT && url !in g.active
  }

  function Taken(g: Gate, url: string, now: nat): Gate {
    Gate(now + INTERVAL, g.active + {url})
  }

  function Released(g: Gate, url: string): Gate {
    g.(active := g.active - {url})
  }

  /** Automatic fetches come and go: one that the gate lets in runs until it is finished, and releases
      its URL then (and only then). */
  datatype Job = Job(url: string, start: nat)

  datatype History = History(gate: Gate, running: seq<Job>, started: seq<Job>)

  datatype Move = Try(url: string, now: nat) | Finish(job: nat)

  function After(h: History, m: Move): History {
    match m
    case Try(url, now) =>
      if Free(h.gate, url, now) then
        History(Taken(h.gate, url, now), h.running + [Job(url, now)], h.started + [Job(url, now)])
      else h
    case Finish(i) =>
      if i < |h.running| then
        History(Released(h.gate, h.running[i].url), h.running[..i] + h.running[i + 1..], h.started)
      else h
  }

  function Run(moves: seq<Move>): History {
    if moves == [] then History(OPEN, [], []) else After(Run(moves[..|moves| - 1]), moves[|moves| - 1])
  }

  /** The gate holds exactly the URLs of the running jobs. */
  ghost predicate GateIsRunning(h: History) {
    && (forall url :: url in h.gate.active <==> exists i :: 0 <= i < |h.running| && h.running[i].url == url)
    && (forall i, j :: 0 <= i < j < |h.running| ==> h.running[i].url != h.running[j].url)
    && |h.gate.active| == |h.running|
  }

  ghost predicate StartsSpaced(h: History) {
    && (forall i :: 0 <= i < |h.started| ==> h.started[i].start + INTERVAL <= h.gate.nextStart)
    && (forall i, j :: 0 <= i < j < |h.started| ==> h.started[i].start + INTERVAL * (j - i) <= h.started[j].start)
    && (h.started != [] ==> h.gate.nextStart == h.started[|h.started| - 1].start + INTERVAL)
  }

  lemma TryKeepsGate(h: History, url: string, now: nat)
    requires GateIsRunning(h)
    ensures GateIsRunning(After(h, Try(url, now)))
  {
    var h' := After(h, Try(url, now));
    if Free(h.gate, url, now) {
      forall u
        ensures u in h'.gate.active <==> exists i :: 0 <= i < |h'.running| && h'.running[i].url == u
      {
        if i :| 0 <= i < |h.running| && h.running[i].url == u { assert h'.running[i].url == u; }
        assert h'.running[|h.running|].url == url;
      }
    }
  }

  lemma FinishKeepsGate(h: History, k: nat)
    requires GateIsRunning(h)
    ensures GateIsRunning(After(h, Finish(k)))
  {
    var h' := After(h, Finish(k));
    if k < |h.running| {
      forall u
        ensures u in h'.gate.active <==> exists i :: 0 <= i < |h'.running| && h'.running[i].url == u
      {
        if i :| 0 <= i < |h.running| && h.running[i].url == u && u != h.running[k].url {
          assert h'.running[if i < k then i else i - 1].url == u;
        }
      }
    }
  }

  /** In every history of tries and finishes at most four automatic fetches run at once, no two of the
      same URL, the gate knows exactly the running ones, and the i-th and j-th start are at least
      j - i seconds apart. */
  lemma {:induction false} GateHolds(moves: seq<Move>)
    ensures GateIsRunning(Run(moves)) && StartsSpaced(Run(moves))
    ensures |Run(moves).running| <= MAX_CONCURRENT
    decreases |moves|
  {
    if moves != [] {
      var h := Run(moves[..|moves| - 1]);
      GateHolds(moves[..|moves| - 1]);
      match moves[|moves| - 1] {
        case Try(url, now) => TryKeepsGate(h, url, now);
        case Finish(job) => FinishKeepsGate(h, job);
      }
      StartsStaySpaced(h, moves[|moves| - 1]);
    }
  }

  /** The gate turns nobody away without a reason: after every history, a URL that is not being fetched starts if
      fewer than four fetches run and the last one started a second ago. */
  lemma GateLetsIn(moves: seq<Move>, url: string, now: nat)
    ensures var h, h' := Run(moves), Run(moves + [Try(url, now)]);
            h'.running == h.running
              + if |h.running| < 4 && (forall i :: 0 <= i < |h.running| ==> h.running[i].url != url)
                   && (h.started == [] || h.started[|h.started| - 1].start + 1000 <= now)
                then [Job(url, now)] else []
  {
    GateHolds(moves);
    FirstStartIsFree(moves);
    assert (moves + [Try(url, now)])[..|moves|] == moves;
  }

  lemma {:induction false} FirstStartIsFree(moves: seq<Move>)
    ensures Run(moves).started == [] ==> Run(moves).gate.nextStart == 0
    decreases |moves|
  {
    if moves != [] {
      FirstStartIsFree(moves[..|moves| - 1]);
    }
  }

  lemma StartsStaySpaced(h: History, m: Move)
    requires StartsSpaced(h)
    ensures StartsSpaced(After(h, m))
  {
    var h' := After(h, m);
    if m.Try? && Free(h.gate, m.url, m.now) {
      var n := |h.started|;
      forall i, j | 0 <= i < j < |h'.started|
        ensures h'.started[i].start + INTERVAL * (j - i) <= h'.started[j].start
      {
        if j == n && i < n - 1 {
          assert h.started[i].start + INTERVAL * (n - 1 - i) <= h.started[n - 1].start;
        }
      }
    }
  }
}
