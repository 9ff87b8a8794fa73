/**
 * The nine activities the registry starts with, and the Chess Club and Science
 * Club request sequences of the test suite, worked out on the reference
 * transitions.
 */
module Seed {
  import opened Activities

  /** The registry as it stands when the process starts. */
  function Initial(): (reg: map<string, Activity>)
  {
    map[
      "Chess Club" := ChessClub(),
      "Programming Class" := ProgrammingClass(),
      "Gym Class" := GymClass(),
      "Soccer Team" := SoccerTeam(),
      "Basketball Club" := BasketballClub(),
      "Art Club" := ArtClub(),
      "Drama Club" := DramaClub(),
      "Debate Team" := DebateTeam(),
      "Science Club" := ScienceClub()
    ]
  }

  // The seeded records, one per activity; each lists two different emails
  // under a positive capacity.

  function ChessClub(): (a: Activity)
    ensures NoDuplicates(a.participants) && a.maxParticipants > 0
  {
    Activity(
      "Learn strategies and compete in chess tournaments",
      "Fridays, 3:30 PM - 5:00 PM",
      12,
      ["michael@mergington.edu", "daniel@mergington.edu"])
  }

  function ProgrammingClass(): (a: Activity)
    ensures NoDuplicates(a.participants) && a.maxParticipants > 0
  {
    Activity(
      "Learn programming fundamentals and build software projects",
      "Tuesdays and Thursdays, 3:30 PM - 4:30 PM",
      20,
      ["emma@mergington.edu", "sophia@mergington.edu"])
  }

  function GymClass(): (a: Activity)
    ensures NoDuplicates(a.participants) && a.maxParticipants > 0
  {
    Activity(
      "Physical education and sports activities",
      "Mondays, Wednesdays, Fridays, 2:00 PM - 3:00 PM",
      30,
      ["john@mergington.edu", "olivia@mergington.edu"])
  }

  function SoccerTeam(): (a: Activity)
    ensures NoDuplicates(a.participants) && a.maxParticipants > 0
  {
    Activity(
      "Competitive soccer training and matches",
      "Mondays and Thursdays, 4:00 PM - 6:00 PM",
      18,
      ["alex@mergington.edu", "nina@mergington.edu"])
  }

  function BasketballClub(): (a: Activity)
    ensures NoDuplicates(a.participants) && a.maxParticipants > 0
  {
    Activity(
      "Practice drills, scrimmages, and intramural games",
      "Tuesdays and Fridays, 4:30 PM - 6:00 PM",
      12,
      ["liam@mergington.edu", "ava@mergington.edu"])
  }

  function ArtClub(): (a: Activity)
    ensures NoDuplicates(a.participants) && a.maxParticipants > 0
  {
    Activity(
      "Explore drawing, painting, and mixed media projects",
      "Wednesdays, 3:30 PM - 5:00 PM",
      15,
      ["isabella@mergington.edu", "jack@mergington.edu"])
  }

  function DramaClub(): (a: Activity)
    ensures NoDuplicates(a.participants) && a.maxParticipants > 0
  {
    Activity(
      "Acting, stagecraft, and production of school plays",
      "Thursdays, 5:00 PM - 7:00 PM",
      25,
      ["grace@mergington.edu", "mason@mergington.edu"])
  }

  function DebateTeam(): (a: Activity)
    ensures NoDuplicates(a.participants) && a.maxParticipants > 0
  {
    Activity(
      "Competitive debating and public speaking practice",
      "Wednesdays and Fridays, 4:00 PM - 5:30 PM",
      20,
      ["harper@mergington.edu", "noah@mergington.edu"])
  }

  function ScienceClub(): (a: Activity)
    ensures NoDuplicates(a.participants) && a.maxParticipants > 0
  {
    Activity(
      "Hands-on experiments, research projects, and science fairs",
      "Tuesdays, 4:00 PM - 5:30 PM",
      25,
      ["sophia.r@mergington.edu", "ethan@mergington.edu"])
  }

  /**
   * Listing the registry shows every seeded activity with its seeded record;
   * Chess Club starts with its two members in order, and a name outside the
   * nine is not there.
   */
  lemma InitialListing()
    ensures "Chess Club" in Initial() && Initial()["Chess Club"] == ChessClub()
    ensures "Programming Class" in Initial() && Initial()["Programming Class"] == ProgrammingClass()
    ensures "Gym Class" in Initial() && Initial()["Gym Class"] == GymClass()
    ensures "Basketball Club" in Initial() && Initial()["Basketball Club"] == BasketballClub()
    ensures "Science Club" in Initial() && Initial()["Science Club"] == ScienceClub()
    ensures ChessClub().participants == ["michael@mergington.edu", "daniel@mergington.edu"]
    ensures "NonExistent Activity" !in Initial()
  {
  }

  /**
   * Chess Club: a new email is appended; the same email a second time is
   * refused with 400 and changes nothing; unregistering it gives back the
   * registry it started from; an email not on the list cannot unregister.
   */
  lemma ChessClubWorkflow(reg: map<string, Activity>)
    requires "Chess Club" in reg && reg["Chess Club"] == ChessClub()
    ensures var email := "newstudent@mergington.edu";
      var s1 := SignUp(reg, "Chess Club", email);
      var s2 := SignUp(s1.registry, "Chess Club", email);
      var s3 := Unregister(s2.registry, "Chess Club", email);
      && s1.response.Ok?
      && s1.registry["Chess Club"].participants
           == ["michael@mergington.edu", "daniel@mergington.edu", email]
      && s2.response == Error(AlreadySignedUp)
      && s2.registry == s1.registry
      && s3.response.Ok?
      && s3.registry == reg
    ensures Unregister(reg, "Chess Club", "notregistered@mergington.edu").response == Error(NotRegistered)
  {
    var email := "newstudent@mergington.edu";
    assert email !in reg["Chess Club"].participants;
    SignUpThenUnregister(reg, "Chess Club", email);
  }

  /**
   * Science Club: two sign-ups grow the list from two to four, and
   * unregistering both brings it back to two and the registry to where it
   * started.
   */
  lemma ScienceClubCounts(reg: map<string, Activity>)
    requires "Science Club" in reg && reg["Science Club"] == ScienceClub()
    ensures var e1, e2 := "count1@mergington.edu", "count2@mergington.edu";
      var s1 := SignUp(reg, "Science Club", e1);
      var s2 := SignUp(s1.registry, "Science Club", e2);
      var s3 := Unregister(s2.registry, "Science Club", e1);
      var s4 := Unregister(s3.registry, "Science Club", e2);
      && |s1.registry["Science Club"].participants| == 3
      && |s2.registry["Science Club"].participants| == 4
      && |s3.registry["Science Club"].participants| == 3
      && |s4.registry["Science Club"].participants| == 2
      && s4.registry == reg
  {
    var e1, e2 := "count1@mergington.edu", "count2@mergington.edu";
    assert e1 != e2 by { assert e1[5] != e2[5]; }
    assert e1 !in reg["Science Club"].participants && e2 !in reg["Science Club"].participants;
    TwoSignUpsThenUnregister(reg, "Science Club", e1, e2);
  }

  /** Every seeded list is duplicate-free and every seeded capacity is positive. */
  lemma InitialWellFormed()
    ensures WellFormed(Initial())
    ensures forall name :: name in Initial() ==> Initial()[name].maxParticipants > 0
  {
  }
}
