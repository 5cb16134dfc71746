/** Find-or-create under a singleflight group, for the callers of one key.

    While a flight for the key is in the air, further callers join it and get its result; the flight
    looks for the row, and inserts one if there is none. Lookups see committed rows, nobody else
    inserts rows for the key, and none is deleted. */
module FindCreate {
  import opened Options
  import opened Least

  /** A create action that fails may report the error, or log it and hand out an empty entity. */
  datatype Result = Row(id: nat) | Empty | Error

  datatype Flight = Finding | Creating | Landed(result: Result)

  datatype Caller = Waiting | Returned(result: Result)

  datatype State = State(rows: set<nat>, nextId: nat, flight: Option<Flight>, callers: map<nat, Caller>)

  datatype CreateOutcome = Inserted | FailedLoudly | FailedSilently

  datatype Event =
    | Call(caller: nat)
    | Find(succeeds: bool)
    | Create(outcome: CreateOutcome)
    | Deliver

  const INIT: State := State({}, 1, None, map[])

  function Next(s: State, e: Event): State {
    match (e, s.flight)
    case (Call(c), _) =>
      if c in s.callers then s
      else s.(callers := s.callers[c := Waiting], flight := if s.flight.None? then Some(Finding) else s.flight)
    case (Find(succeeds), Some(Finding)) =>
      if !succeeds then s.(flight := Some(Landed(Error)))
      else if s.rows == {} then s.(flight := Some(Creating))
      else s.(flight := Some(Landed(Row(First(s.rows)))))
    case (Create(outcome), Some(Creating)) =>
      (match outcome
       case Inserted => s.(rows := s.rows + {s.nextId}, nextId := s.nextId + 1, flight := Some(Landed(Row(s.nextId))))
       case FailedLoudly => s.(flight := Some(Landed(Error)))
       case FailedSilently => s.(flight := Some(Landed(Empty))))
    case (Deliver, Some(Landed(r))) =>
      s.(flight := None,
         callers := map c | c in s.callers :: if s.callers[c].Waiting? then Returned(r) else s.callers[c])
    case _ => s
  }

  function Run(events: seq<Event>): State {
    if events == [] then INIT else Next(Run(events[..|events| - 1]), events[|events| - 1])
  }

  ghost predicate IsOnly(s: State, r: Result) {
    r.Row? ==> s.rows == {r.id}
  }

  ghost predicate Inv(s: State) {
    && (s.rows == {} || exists id :: s.rows == {id})
    && (s.flight == Some(Creating) ==> s.rows == {})
    && (s.flight.Some? && s.flight.value.Landed? ==> IsOnly(s, s.flight.value.result))
    && (forall c :: c in s.callers && s.callers[c].Returned? ==> IsOnly(s, s.callers[c].result))
    && (forall c :: c in s.callers && s.callers[c].Waiting? ==> s.flight.Some?)
  }

  lemma NextKeepsInv(s: State, e: Event)
    requires Inv(s)
    ensures Inv(Next(s, e))
  {
    match (e, s.flight) {
      case (Find(succeeds), Some(Finding)) =>
        if succeeds && s.rows != {} {
          var id :| s.rows == {id};
          assert First(s.rows) in s.rows;
        }
      case (Create(outcome), Some(Creating)) =>
        if outcome.Inserted? {
          assert Next(s, e).rows == {s.nextId};
        }
      case _ =>
    }
  }

  /** Who calls while a flight is in the air joins it, and all who wait get the result it lands with, each of
      them the same; then the next call starts another one. */
  lemma OneFlightAnswersAll(s: State, c: nat)
    ensures s.flight.Some? ==> Next(s, Call(c)).flight == s.flight
    ensures c !in s.callers ==>
              var s' := Next(s, Call(c));
              c in s'.callers && s'.callers[c].Waiting? && (s.flight.None? ==> s'.flight == Some(Finding))
    ensures s.flight.Some? && s.flight.value.Landed? ==>
              var s' := Next(s, Deliver);
              && s'.flight.None? && s'.rows == s.rows
              && forall d :: d in s.callers ==>
                   && d in s'.callers
                   && s'.callers[d] ==
                        if s.callers[d].Waiting? then Returned(s.flight.value.result) else s.callers[d]
  {
  }

  ghost predicate GotRow(s: State, c: nat) {
    c in s.callers && s.callers[c].Returned? && s.callers[c].result.Row?
  }

  /** Under every interleaving of callers, lookups, insertions that work or fail, and deliveries, at
      most one row is ever created, and every caller that is handed a row is handed that one. */
  lemma {:induction false} OneRowForAll(events: seq<Event>)
    ensures Inv(Run(events))
    ensures |Run(events).rows| <= 1
    ensures forall c, d :: GotRow(Run(events), c) && GotRow(Run(events), d) ==>
              Run(events).callers[c] == Run(events).callers[d]
    decreases |events|
  {
    if events != [] {
      var before := events[..|events| - 1];
      OneRowForAll(before);
      NextKeepsInv(Run(before), events[|events| - 1]);
    }
    var s := Run(events);
    forall c, d | GotRow(s, c) && GotRow(s, d)
      ensures s.callers[c] == s.callers[d]
    {
      assert s.callers[c].result.id in s.rows && s.rows == {s.callers[d].result.id};
    }
    if s.rows != {} {
      var id :| s.rows == {id};
    }
  }

  /** Without failures no caller comes back empty-handed. */
  lemma {:induction false} NoFailureNoEmptyHand(events: seq<Event>)
    requires forall i :: 0 <= i < |events| ==>
               events[i] != Find(false) && events[i] != Create(FailedLoudly) && events[i] != Create(FailedSilently)
    ensures forall c :: c in Run(events).callers && Run(events).callers[c].Returned? ==>
              Run(events).callers[c].result.Row?
    ensures Run(events).flight.Some? && Run(events).flight.value.Landed? ==> Run(events).flight.value.result.Row?
    decreases |events|
  {
    if events != [] {
      var before := events[..|events| - 1];
      assert forall i :: 0 <= i < |before| ==> before[i] == events[i];
      NoFailureNoEmptyHand(before);
    }
  }
}
