# Mergington High School activity roster, modelled in Dafny

The application keeps one collection of activity documents. Each document is
stored under its `_id`, which is the activity's name. It holds a description,
a schedule, a `max_participants` capacity and an ordered list of participant
e-mail addresses. The collection is seeded once, at startup, when it is empty.
Three handlers use it:

- `GET /activities` lists every activity with the `_id` taken out.
- `POST /activities/{name}/signup?email=` fails with 404 for an unknown
  activity, fails with 400 for an address that is already listed, and
  otherwise appends the address and writes the roster back.
- `DELETE /activities/{name}/remove?email=` fails with 404 for an unknown
  activity or an unlisted address, and otherwise deletes the first matching
  entry and writes the roster back.

The model has four modules:

- `Roster` (`roster.dfy`) covers the roster list. It has the duplicate-free
  predicate and `RemoveFirst`, which is Python's `list.remove`. Its lemmas
  say which entry `RemoveFirst` deletes and how appending and removing affect
  duplicate-freedom.
- `Activities` (`activities.dfy`) has the `Activity` and `Document`
  datatypes, the `Error`/`Outcome` result with its HTTP status, and the
  functions `Signup` and `Remove`. These two functions give the outcome and
  the new table of each writing handler. The lemmas state the invariants they
  keep, the round trip, and that capacity is never checked.
- `Seed` (`seed.dfy`) holds the prepopulated activities as an ordered list.
  It also defines the table that inserting them in order produces.
- `Store` (`store.dfy`) has the class `ActivityStore`. Its `collection` field
  is a map from `_id` to document. Its methods follow the handlers step by
  step: a lookup stands for `find_one`, and a single-entry map update of the
  `participants` field stands for `update_one(... {"$set": ...})`.
  `GetActivities` and the seeding are loops, as in the application.

The map key stands for MongoDB's primary key. `ActivityStore.Valid()` states
that every document is stored under its own `_id`. The no-duplicate invariant
on rosters is kept apart from `Valid()`, because a collection that already
exists can hold duplicates (seeding is skipped then). The methods promise to
preserve it, and seeding establishes it.

## Model

| member | source | states |
|---|---|---|
| `Roster.FirstIndex` | src/app.py:130 | the returned position holds the address, and no earlier position does |
| `Roster.RemoveFirst` | src/app.py:130 | `list.remove` requires the address to be present; the result is one entry shorter, and its multiset is the old one with one copy of the address taken out |
| `Roster.RemoveFirstAt` | src/app.py:130 | the removal deletes exactly the entry at the first occurrence and keeps every other entry in its order |
| `Roster.AppendDistinct` | src/app.py:116-118 | appending keeps a roster duplicate-free if and only if the roster was duplicate-free and the address was not on it |
| `Roster.RemoveFirstDistinct` | src/app.py:128-130 | on a duplicate-free roster, the removal leaves it duplicate-free and the address absent |
| `Roster.RemoveAppended` | src/app.py:116-130 | removing an address just appended to a roster that did not hold it restores the roster |
| `Activities.WithRoster` | src/app.py:119 | the `$set` of `participants` replaces the roster and keeps `_id`, description, schedule and capacity |
| `Activities.Signup` | src/app.py:111-120 | success if and only if the activity exists and the address is not listed; an unknown activity gives not-found (404); a listed address gives already-signed-up (400); a failure leaves the table unchanged; on success the roster is the old one with the address at the end, one longer; other activities and the other fields are untouched |
| `Activities.Remove` | src/app.py:123-132 | success if and only if the activity exists and the address is listed; an unknown activity or an unlisted address gives not-found (404); a failure leaves the table unchanged; on success the roster is the old one after `list.remove`, one shorter; other activities and the other fields are untouched |
| `Activities.HandlersKeepKeys` | src/app.py:111-132 | both handlers keep every document under its own `_id` |
| `Activities.SignupPreservesDistinct` | src/app.py:116-119 | a signup keeps every roster duplicate-free |
| `Activities.RemovePreservesDistinct` | src/app.py:128-131 | a remove keeps every roster duplicate-free, and after a successful remove the address is no longer listed |
| `Activities.SignupThenRemove` | src/app.py:116-131 | a successful signup followed by a remove of the same address succeeds and restores the original table |
| `Activities.SignupTwice` | src/app.py:116-117 | after a successful signup, signing up the same address again is refused with already-signed-up and changes nothing |
| `Activities.SignupIgnoresCapacity` | src/app.py:111-120 | a signup to an activity at or over its `max_participants` still succeeds and takes the roster past the capacity |
| `Seed.InsertedContents` | src/app.py:88-92 | inserting distinctly named entries in order stores each one under its name as `_id`, with its own details, and stores nothing else |
| `Seed.PrepopulatedWellFormed` | src/app.py:31-86 | the seed list names each activity once and lists no address twice in any roster |
| `Seed.SeedTableContents` | src/app.py:31-92 | the seeded table holds exactly the prepopulated activities under their names, and every seeded roster is duplicate-free |
| `Store.ActivityStore.Open` | src/app.py:24-28 | the store starts with whatever documents the collection holds |
| `Store.ActivityStore.SeedIfEmpty` | src/app.py:88-92 | an empty collection becomes the seeded table, whose rosters are duplicate-free, and no insert meets a taken `_id`; a non-empty collection is left as it is |
| `Store.ActivityStore.GetActivities` | src/app.py:100-108 | the listing has exactly the collection's names, each mapped to its document's details without the `_id` |
| `Store.ActivityStore.SignupForActivity` | src/app.py:111-120 | the outcome and the new collection are those of `Activities.Signup` on the old collection; duplicate-free rosters stay duplicate-free |
| `Store.ActivityStore.RemoveParticipant` | src/app.py:123-132 | the outcome and the new collection are those of `Activities.Remove` on the old collection; duplicate-free rosters stay duplicate-free, and the removed address is then absent |
| `Store.ActivityStore.UpdateParticipants` | src/app.py:119 | only the `participants` field of the document with that `_id` changes; nothing changes when no document has that `_id` |
| `Store.FirstStartListing` | src/app.py:88-108 | on a first start against an empty collection, the listing is exactly the prepopulated activities |

## Left out

- FastAPI routing, the `/` redirect and the static-file mount: framework wiring with no logic.
- The MongoDB client and the real `find_one`, `update_one`, `insert_one` and `count_documents` calls: the collection is a map held by `ActivityStore`, `count_documents({}) == 0` is an empty map, and `insert_one` is a map insertion. The model does not capture the duplicate-key failure of `insert_one`, which seeding never triggers.
- `jsonable_encoder` and the copying of documents as dicts: they do not change any value the model holds.
- The response and error message texts: a handler's answer is `Success` or an `Error` with its HTTP status.
- The race between `find_one` and `update_one` under concurrent requests: each handler is modelled as one atomic step.
- Iteration order of `find()` in `GET /activities`: the listing is a map, so the order does not show in the model.
