/** The activities the application inserts on first start, and the table
    that inserting them one after another produces. */
module Seed {

  import opened Roster
  import opened Activities

  /** The prepopulated activities, in the order they are inserted. */
  const Prepopulated: seq<(string, Activity)> := [
      ("Chess Club", Activity(
        "Learn strategies and compete in chess tournaments",
        "Fridays, 3:30 PM - 5:00 PM",
        12, ["michael@mergington.edu", "daniel@mergington.edu"])),
      ("Programming Class", Activity(
        "Learn programming fundamentals and build software projects",
        "Tuesdays and Thursdays, 3:30 PM - 4:30 PM",
        20, ["emma@mergington.edu", "sophia@mergington.edu"])),
      ("Gym Class", Activity(
        "Physical education and sports activities",
        "Mondays, Wednesdays, Fridays, 2:00 PM - 3:00 PM",
        30, ["john@mergington.edu", "olivia@mergington.edu"])),
      ("Soccer Team", Activity(
        "Join the school soccer team and compete in local leagues",
        "Tuesdays and Thursdays, 4:00 PM - 5:30 PM",
        18, ["lucas@mergington.edu", "mia@mergington.edu"])),
      ("Basketball Club", Activity(
        "Practice basketball skills and play friendly matches",
        "Wednesdays, 3:30 PM - 5:00 PM",
        15, ["liam@mergington.edu", "ava@mergington.edu"])),
      ("Drama Club", Activity(
        "Participate in school plays and improve acting skills",
        "Mondays, 4:00 PM - 5:30 PM",
        25, ["noah@mergington.edu", "isabella@mergington.edu"])),
      ("Art Workshop", Activity(
        "Explore painting, drawing, and sculpture techniques",
        "Fridays, 2:00 PM - 3:30 PM",
        20, ["amelia@mergington.edu", "benjamin@mergington.edu"])),
      ("Math Olympiad", Activity(
        "Prepare for math competitions and solve challenging problems",
        "Thursdays, 3:30 PM - 5:00 PM",
        16, ["charlotte@mergington.edu", "elijah@mergington.edu"])),
      ("Science Club", Activity(
        "Conduct experiments and explore scientific concepts",
        "Wednesdays, 4:00 PM - 5:00 PM",
        22, ["william@mergington.edu", "harper@mergington.edu"]))
    ]

  /** The names of a list of entries. */
  function Names(entries: seq<(string, Activity)>): set<string> {
    set i | 0 <= i < |entries| :: entries[i].0
  }

  /** No name is given to two entries. */
  predicate NamesDistinct(entries: seq<(string, Activity)>) {
    forall i, j :: 0 <= i < j < |entries| ==> entries[i].0 != entries[j].0
  }

  /** The table after inserting, in order, one document per entry, each
      stored with its name as `_id`. */
  function Inserted(entries: seq<(string, Activity)>): Table {
    if entries == [] then map[]
    else
      var last := entries[|entries| - 1];
      Inserted(entries[..|entries| - 1])[last.0 := Document(last.0, last.1)]
  }

  /** Inserting distinctly named entries stores each under its name, with its
      own details, and nothing else. */
  lemma {:induction false} InsertedContents(entries: seq<(string, Activity)>)
    requires NamesDistinct(entries)
    ensures KeyedById(Inserted(entries))
    ensures Inserted(entries).Keys == Names(entries)
    ensures forall i :: 0 <= i < |entries| ==>
              Inserted(entries)[entries[i].0] == Document(entries[i].0, entries[i].1)
  {
    if entries != [] {
      var n := |entries| - 1;
      var front := entries[..n];
      assert forall i :: 0 <= i < n ==> front[i] == entries[i];
      InsertedContents(front);
      assert Names(entries) == Names(front) + {entries[n].0};
    }
  }

  /** The seed list names each activity once and lists no address twice. */
  lemma PrepopulatedWellFormed()
    ensures NamesDistinct(Prepopulated)
    ensures forall i :: 0 <= i < |Prepopulated| ==> Distinct(Prepopulated[i].1.participants)
  {
  }

  /** The table the seeding produces. */
  function SeedTable(): Table {
    Inserted(Prepopulated)
  }

  /** The seeded table holds exactly the prepopulated activities, each under
      its name, and every seeded roster is duplicate-free. */
  lemma SeedTableContents()
    ensures KeyedById(SeedTable())
    ensures RostersDistinct(SeedTable())
    ensures SeedTable().Keys == Names(Prepopulated)
    ensures forall i :: 0 <= i < |Prepopulated| ==>
              SeedTable()[Prepopulated[i].0] == Document(Prepopulated[i].0, Prepopulated[i].1)
  {
    PrepopulatedWellFormed();
    InsertedContents(Prepopulated);
    var t := SeedTable();
    forall name | name in t ensures Distinct(t[name].details.participants) {
      var i :| 0 <= i < |Prepopulated| && Prepopulated[i].0 == name;
    }
  }
}
