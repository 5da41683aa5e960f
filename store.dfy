/** The activity collection as the application uses it: a store object whose
    handlers read a document, change its roster and write the roster back. */
module Store {

  import opened Roster
  import opened Activities
  import opened Seed

  class ActivityStore {
    /** The documents of the collection, keyed by `_id`. */
    var collection: Table

    /** The keying that the database's primary key guarantees. */
    ghost predicate Valid()
      reads this
    {
      KeyedById(collection)
    }

    /** Connect to a collection that may already hold documents. */
    constructor Open(existing: Table)
      requires KeyedById(existing)
      ensures Valid() && collection == existing
    {
      collection := existing;
    }

    /** Startup seeding: when the collection is empty, insert every
        prepopulated activity, in order, under its name. A collection that
        already holds documents is left as it is. */
    method SeedIfEmpty()
      requires Valid()
      modifies this
      ensures Valid()
      ensures old(|collection|) == 0 ==> collection == SeedTable() && RostersDistinct(collection)
      ensures old(|collection|) != 0 ==> collection == old(collection)
    {
      if |collection| == 0 {
        PrepopulatedWellFormed();
        for i := 0 to |Prepopulated|
          invariant collection == Inserted(Prepopulated[..i])
          invariant collection.Keys == Names(Prepopulated[..i])
        {
          var (name, details) := Prepopulated[i];
          assert Prepopulated[..i + 1][..i] == Prepopulated[..i];
          InsertedContents(Prepopulated[..i + 1]);
          // the insert never meets an `_id` that is already taken
          assert name !in collection;
          collection := collection[name := Document(name, details)];
        }
        assert Prepopulated[..|Prepopulated|] == Prepopulated;
        SeedTableContents();
      }
    }

    /** GET /activities: every document, under its `_id`, with the `_id`
        taken out of the details. */
    method GetActivities() returns (listing: map<string, Activity>)
      requires Valid()
      ensures listing.Keys == collection.Keys
      ensures forall name :: name in collection ==> listing[name] == collection[name].details
    {
      listing := map[];
      var remaining := collection.Keys;
      while remaining != {}
        invariant remaining <= collection.Keys
        invariant listing.Keys == collection.Keys - remaining
        invariant forall name :: name in listing ==> listing[name] == collection[name].details
        decreases remaining
      {
        var key :| key in remaining;
        var doc := collection[key];
        listing := listing[doc.id := doc.details];
        remaining := remaining - {key};
      }
    }

    /** POST /activities/{name}/signup?email=. */
    method SignupForActivity(name: string, email: Email) returns (outcome: Outcome)
      requires Valid()
      modifies this
      ensures Valid()
      ensures Step(outcome, collection) == Signup(old(collection), name, email)
      ensures old(RostersDistinct(collection)) ==> RostersDistinct(collection)
    {
      if name !in collection {
        return Failure(ActivityNotFound);
      }
      var doc := collection[name];
      var participants := doc.details.participants;
      if email in participants {
        return Failure(AlreadySignedUp);
      }
      participants := participants + [email];
      UpdateParticipants(name, participants);
      if old(RostersDistinct(collection)) {
        SignupPreservesDistinct(old(collection), name, email);
      }
      return Success;
    }

    /** DELETE /activities/{name}/remove?email=. */
    method RemoveParticipant(name: string, email: Email) returns (outcome: Outcome)
      requires Valid()
      modifies this
      ensures Valid()
      ensures Step(outcome, collection) == Remove(old(collection), name, email)
      ensures old(RostersDistinct(collection)) ==> RostersDistinct(collection)
      ensures old(RostersDistinct(collection)) && outcome == Success ==>
                email !in collection[name].details.participants
    {
      if name !in collection {
        return Failure(ActivityNotFound);
      }
      var doc := collection[name];
      var participants := doc.details.participants;
      if email !in participants {
        return Failure(ParticipantNotFound);
      }
      participants := RemoveFirst(participants, email);
      UpdateParticipants(name, participants);
      if old(RostersDistinct(collection)) {
        RemovePreservesDistinct(old(collection), name, email);
      }
      return Success;
    }

    /** Set the `participants` field of the document with the given `_id`;
        no document changes when none has that `_id`. */
    method UpdateParticipants(id: string, participants: seq<Email>)
      requires Valid()
      modifies this
      ensures Valid()
      ensures collection == if id in old(collection)
                            then old(collection)[id := WithRoster(old(collection)[id], participants)]
                            else old(collection)
    {
      if id in collection {
        collection := collection[id := WithRoster(collection[id], participants)];
      }
    }
  }

  /** On a first start against an empty collection, the listing holds exactly
      the prepopulated activities. */
  method FirstStartListing() returns (listing: map<string, Activity>)
    ensures listing.Keys == Names(Prepopulated)
    ensures forall i :: 0 <= i < |Prepopulated| ==> listing[Prepopulated[i].0] == Prepopulated[i].1
  {
    var store := new ActivityStore.Open(map[]);
    store.SeedIfEmpty();
    listing := store.GetActivities();
    SeedTableContents();
  }
}
