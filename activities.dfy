/** The activity table of the school API and the effect of its two writing
    handlers, stated as functions from the table before a request to the
    outcome and the table after it. */
module Activities {

  import opened Roster

  /** One extracurricular activity. `maxParticipants` is stored and listed
      but never checked. */
  datatype Activity = Activity(
    description: string,
    schedule: string,
    maxParticipants: int,
    participants: seq<Email>)

  /** A stored document: the activity's details together with the `_id`
      key, which holds the activity's name. */
  datatype Document = Document(id: string, details: Activity)

  /** The collection, keyed by `_id`. */
  type Table = map<string, Document>

  /** The failures a handler reports. */
  datatype Error = ActivityNotFound | AlreadySignedUp | ParticipantNotFound {
    /** HTTP status the handler raises for this failure. */
    function Status(): int {
      match this
      case AlreadySignedUp => 400
      case _ => 404
    }
  }

  datatype Outcome = Success | Failure(error: Error)

  /** What a handler answers and the table it leaves behind. */
  datatype Step = Step(outcome: Outcome, table: Table)

  /** Every document is stored under its own `_id`. */
  predicate KeyedById(t: Table) {
    forall name :: name in t ==> t[name].id == name
  }

  /** No roster in the table lists an address twice. */
  predicate RostersDistinct(t: Table) {
    forall name :: name in t ==> Distinct(t[name].details.participants)
  }

  function RosterOf(t: Table, name: string): seq<Email>
    requires name in t
  {
    t[name].details.participants
  }

  /** `d` and `e` agree on everything except possibly the roster. */
  predicate SameExceptRoster(d: Document, e: Document) {
    && d.id == e.id
    && d.details.description == e.details.description
    && d.details.schedule == e.details.schedule
    && d.details.maxParticipants == e.details.maxParticipants
  }

  /** The `$set` of the `participants` field of one document. */
  function WithRoster(d: Document, roster: seq<Email>): (e: Document)
    ensures SameExceptRoster(e, d) && e.details.participants == roster
  {
    d.(details := d.details.(participants := roster))
  }

  /** POST /activities/{name}/signup?email=: an unknown activity is not found,
      an address already on the roster is a bad request, and otherwise the
      address goes at the end of the roster. Capacity plays no part. */
  function Signup(t: Table, name: string, email: Email): (r: Step)
    ensures r.outcome == Success <==> name in t && email !in RosterOf(t, name)
    ensures name !in t ==> r.outcome == Failure(ActivityNotFound) && r.outcome.error.Status() == 404
    ensures name in t && email in RosterOf(t, name) ==>
              r.outcome == Failure(AlreadySignedUp) && r.outcome.error.Status() == 400
    ensures r.outcome.Failure? ==> r.table == t
    ensures r.table.Keys == t.Keys
    ensures forall n :: n in t && n != name ==> r.table[n] == t[n]
    ensures name in t ==> SameExceptRoster(r.table[name], t[name])
    ensures r.outcome == Success ==>
              RosterOf(r.table, name) == RosterOf(t, name) + [email] &&
              |RosterOf(r.table, name)| == |RosterOf(t, name)| + 1
  {
    if name !in t then Step(Failure(ActivityNotFound), t)
    else if email in RosterOf(t, name) then Step(Failure(AlreadySignedUp), t)
    else Step(Success, t[name := WithRoster(t[name], RosterOf(t, name) + [email])])
  }

  /** DELETE /activities/{name}/remove?email=: an unknown activity or an
      address that is not on the roster is not found, and otherwise the first
      entry equal to the address is deleted. */
  function Remove(t: Table, name: string, email: Email): (r: Step)
    ensures r.outcome == Success <==> name in t && email in RosterOf(t, name)
    ensures name !in t ==> r.outcome == Failure(ActivityNotFound) && r.outcome.error.Status() == 404
    ensures name in t && email !in RosterOf(t, name) ==>
              r.outcome == Failure(ParticipantNotFound) && r.outcome.error.Status() == 404
    ensures r.outcome.Failure? ==> r.table == t
    ensures r.table.Keys == t.Keys
    ensures forall n :: n in t && n != name ==> r.table[n] == t[n]
    ensures name in t ==> SameExceptRoster(r.table[name], t[name])
    ensures r.outcome == Success ==>
              RosterOf(r.table, name) == RemoveFirst(RosterOf(t, name), email) &&
              |RosterOf(r.table, name)| == |RosterOf(t, name)| - 1
  {
    if name !in t then Step(Failure(ActivityNotFound), t)
    else if email !in RosterOf(t, name) then Step(Failure(ParticipantNotFound), t)
    else Step(Success, t[name := WithRoster(t[name], RemoveFirst(RosterOf(t, name), email))])
  }

  /** Both handlers keep every document under its own `_id`. */
  lemma HandlersKeepKeys(t: Table, name: string, email: Email)
    requires KeyedById(t)
    ensures KeyedById(Signup(t, name, email).table)
    ensures KeyedById(Remove(t, name, email).table)
  {
  }

  /** A signup never puts a second copy of an address on a roster. */
  lemma SignupPreservesDistinct(t: Table, name: string, email: Email)
    requires RostersDistinct(t)
    ensures RostersDistinct(Signup(t, name, email).table)
  {
    if name in t && email !in RosterOf(t, name) {
      AppendDistinct(RosterOf(t, name), email);
    }
  }

  /** On duplicate-free rosters a remove keeps them duplicate-free, and the
      removed address is then no longer on the roster. */
  lemma RemovePreservesDistinct(t: Table, name: string, email: Email)
    requires RostersDistinct(t)
    ensures RostersDistinct(Remove(t, name, email).table)
    ensures Remove(t, name, email).outcome == Success ==>
              email !in RosterOf(Remove(t, name, email).table, name)
  {
    if name in t && email in RosterOf(t, name) {
      RemoveFirstDistinct(RosterOf(t, name), email);
    }
  }

  /** Signing up a new address and then removing it restores the table. */
  lemma SignupThenRemove(t: Table, name: string, email: Email)
    requires Signup(t, name, email).outcome == Success
    ensures Remove(Signup(t, name, email).table, name, email) == Step(Success, t)
  {
    var t' := Signup(t, name, email).table;
    RemoveAppended(RosterOf(t, name), email);
    assert t'[name := WithRoster(t'[name], RosterOf(t, name))] == t;
  }

  /** A second signup of the same address is refused and changes nothing. */
  lemma SignupTwice(t: Table, name: string, email: Email)
    requires Signup(t, name, email).outcome == Success
    ensures Signup(Signup(t, name, email).table, name, email)
              == Step(Failure(AlreadySignedUp), Signup(t, name, email).table)
  {
  }

  /** Capacity is never enforced: a signup to a full activity still succeeds
      and takes the roster past `maxParticipants`. */
  lemma SignupIgnoresCapacity(t: Table, name: string, email: Email)
    requires name in t && email !in RosterOf(t, name)
    requires |RosterOf(t, name)| >= t[name].details.maxParticipants
    ensures Signup(t, name, email).outcome == Success
    ensures |RosterOf(Signup(t, name, email).table, name)| > t[name].details.maxParticipants
  {
  }
}
