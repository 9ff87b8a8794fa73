/**
 * The activity registry of the Mergington High School API as values: an
 * activity record, the outcome of a request, and the two registry
 * transitions (sign-up, and the unregister operation the tests exercise)
 * as pure reference functions, with the laws they obey.
 */
module Activities {

  /** One extracurricular offering. `participants` is kept in sign-up order. */
  datatype Activity = Activity(
    description: string,
    schedule: string,
    maxParticipants: int,
    participants: seq<string>)

  /** The client errors a request can end in. */
  datatype Failure = ActivityNotFound | AlreadySignedUp | NotRegistered

  /** What a request answers: a confirmation message, or an error. */
  datatype Response = Ok(message: string) | Error(failure: Failure)

  /** A transition of the registry: the registry afterwards and the answer. */
  datatype Step = Step(registry: map<string, Activity>, response: Response)

  /** The HTTP status the web layer attaches to a response. */
  function StatusCode(r: Response): (code: int)
  {
    match r
    case Ok(_) => 200
    case Error(ActivityNotFound) => 404
    case Error(AlreadySignedUp) => 400
    case Error(NotRegistered) => 404
  }

  /** The `detail` text of an error response. */
  function Detail(f: Failure): (text: string)
  {
    match f
    case ActivityNotFound => "Activity not found"
    case AlreadySignedUp => "Student already signed up for this activity"
    case NotRegistered => "Student is not registered for this activity"
  }

  /** No email occurs twice in a participant list. */
  predicate NoDuplicates(ps: seq<string>)
  {
    forall i, j :: 0 <= i < j < |ps| ==> ps[i] != ps[j]
  }

  /** Every activity of the registry has a duplicate-free participant list. */
  predicate WellFormed(reg: map<string, Activity>)
  {
    forall name :: name in reg ==> NoDuplicates(reg[name].participants)
  }

  /** The position of the first occurrence of `e` in a list that holds it. */
  function IndexOf(ps: seq<string>, e: string): (i: nat)
    requires e in ps
    ensures i < |ps| && ps[i] == e
    ensures e !in ps[..i]
  {
    if ps[0] == e then 0
    else
      var j := IndexOf(ps[1..], e);
      assert ps[..j + 1] == [ps[0]] + ps[1..][..j];
      j + 1
  }

  /** A list with its first occurrence of `e` taken out (a list's `remove`). */
  function RemoveFirst(ps: seq<string>, e: string): (r: seq<string>)
    ensures e in ps ==> |r| == |ps| - 1
    ensures e !in ps ==> r == ps
    ensures forall x :: x in r ==> x in ps
  {
    if ps == [] then []
    else if ps[0] == e then ps[1..]
    else [ps[0]] + RemoveFirst(ps[1..], e)
  }

  /** Sign `email` up for `name`: unknown activity, then duplicate, then append. */
  function SignUp(reg: map<string, Activity>, name: string, email: string): (s: Step)
  {
    if name !in reg then Step(reg, Error(ActivityNotFound))
    else if email in reg[name].participants then Step(reg, Error(AlreadySignedUp))
    else
      var a := reg[name];
      Step(reg[name := a.(participants := a.participants + [email])],
           Ok("Signed up " + email + " for " + name))
  }

  /** Take `email` off `name`: unknown activity, then not registered, then remove. */
  function Unregister(reg: map<string, Activity>, name: string, email: string): (s: Step)
  {
    if name !in reg then Step(reg, Error(ActivityNotFound))
    else if email !in reg[name].participants then Step(reg, Error(NotRegistered))
    else
      var a := reg[name];
      Step(reg[name := a.(participants := RemoveFirst(a.participants, email))],
           Ok("Unregistered " + email + " from " + name))
  }

  // ---------------------------------------------------------------------------
  // Laws of the participant lists

  /** Removing the first occurrence at index `i` keeps the rest in order. */
  lemma {:induction false} RemoveFirstAt(ps: seq<string>, e: string, i: nat)
    requires i < |ps| && ps[i] == e && e !in ps[..i]
    ensures RemoveFirst(ps, e) == ps[..i] + ps[i + 1..]
  {
    if i > 0 {
      var tail := ps[1..];
      assert ps[0] != e by { assert ps[0] == ps[..i][0]; }
      assert tail[..i - 1] == ps[..i][1..];
      RemoveFirstAt(tail, e, i - 1);
      assert [ps[0]] + tail[..i - 1] == ps[..i];
      assert tail[i..] == ps[i + 1..];
      assert RemoveFirst(ps, e) == [ps[0]] + tail[..i - 1] + tail[i..];
    }
  }

  /** Entries after the first occurrence stay where they are, in order. */
  lemma RemoveFirstSkips(ps: seq<string>, e: string, rest: seq<string>)
    requires e !in ps
    ensures RemoveFirst(ps + [e] + rest, e) == ps + rest
  {
    var s := ps + [e] + rest;
    assert s[..|ps|] == ps && s[|ps| + 1..] == rest;
    RemoveFirstAt(s, e, |ps|);
  }

  /** Removing an email just appended to a list without it gives the list back. */
  lemma RemoveFirstAppended(ps: seq<string>, e: string)
    requires e !in ps
    ensures RemoveFirst(ps + [e], e) == ps
  {
    RemoveFirstSkips(ps, e, []);
    assert ps + [e] + [] == ps + [e];
  }

  /** Appending an email not yet present keeps a list duplicate-free. */
  lemma AppendKeepsDistinct(ps: seq<string>, e: string)
    requires NoDuplicates(ps) && e !in ps
    ensures NoDuplicates(ps + [e])
  {
  }

  /** Removal keeps a list duplicate-free, and then the email is gone from it. */
  lemma {:induction false} RemoveFirstKeepsDistinct(ps: seq<string>, e: string)
    requires NoDuplicates(ps)
    ensures NoDuplicates(RemoveFirst(ps, e))
    ensures e !in RemoveFirst(ps, e)
  {
    if ps != [] {
      var tail := ps[1..];
      forall i, j | 0 <= i < j < |tail| ensures tail[i] != tail[j] {
        assert tail[i] == ps[i + 1] && tail[j] == ps[j + 1];
      }
      forall k | 0 <= k < |tail| ensures tail[k] != ps[0] {
        assert tail[k] == ps[k + 1];
      }
      if ps[0] != e {
        RemoveFirstKeepsDistinct(tail, e);
        var rest := RemoveFirst(tail, e);
        assert ps[0] !in rest;
        var r := [ps[0]] + rest;
        forall i, j | 0 <= i < j < |r| ensures r[i] != r[j] {
          assert r[j] == rest[j - 1];
          if i > 0 { assert r[i] == rest[i - 1]; }
        }
      }
    }
  }

  // ---------------------------------------------------------------------------
  // Laws of sign-up

  /** An unknown activity name is answered with 404 "Activity not found" and nothing changes. */
  lemma SignUpUnknownActivity(reg: map<string, Activity>, name: string, email: string)
    requires name !in reg
    ensures SignUp(reg, name, email).registry == reg
    ensures SignUp(reg, name, email).response == Error(ActivityNotFound)
    ensures StatusCode(SignUp(reg, name, email).response) == 404
    ensures Detail(SignUp(reg, name, email).response.failure) == "Activity not found"
  {
  }

  /** An email already on the list is answered with 400 and nothing changes. */
  lemma SignUpAlreadySignedUp(reg: map<string, Activity>, name: string, email: string)
    requires name in reg && email in reg[name].participants
    ensures SignUp(reg, name, email).registry == reg
    ensures SignUp(reg, name, email).response == Error(AlreadySignedUp)
    ensures StatusCode(SignUp(reg, name, email).response) == 400
    ensures Detail(SignUp(reg, name, email).response.failure)
        == "Student already signed up for this activity"
  {
  }

  /**
   * A sign-up succeeds exactly when the activity exists and the email is not yet
   * on its list; the capacity is not consulted.
   */
  lemma SignUpSucceedsIff(reg: map<string, Activity>, name: string, email: string)
    ensures SignUp(reg, name, email).response.Ok?
        <==> name in reg && email !in reg[name].participants
  {
  }

  /**
   * A successful sign-up appends the email at the end of the list, so the list
   * grows by exactly one and holds the email, and the answer names both.
   */
  lemma SignUpAppends(reg: map<string, Activity>, name: string, email: string)
    requires name in reg && email !in reg[name].participants
    ensures var s := SignUp(reg, name, email);
      && name in s.registry
      && s.registry[name].participants == reg[name].participants + [email]
      && |s.registry[name].participants| == |reg[name].participants| + 1
      && email in s.registry[name].participants
      && s.response == Ok("Signed up " + email + " for " + name)
      && StatusCode(s.response) == 200
  {
  }

  /**
   * A full list is no obstacle: a fresh email is accepted even when the list
   * already holds `maxParticipants` entries or more.
   */
  lemma SignUpIgnoresCapacity(reg: map<string, Activity>, name: string, email: string)
    requires name in reg && email !in reg[name].participants
    requires |reg[name].participants| >= reg[name].maxParticipants
    ensures SignUp(reg, name, email).response.Ok?
    ensures |SignUp(reg, name, email).registry[name].participants| > reg[name].maxParticipants
  {
  }

  /**
   * A sign-up never adds or drops an activity, leaves every other activity as it
   * was, and touches only the participant list of its own activity.
   */
  lemma SignUpFrame(reg: map<string, Activity>, name: string, email: string)
    ensures var r := SignUp(reg, name, email).registry;
      && r.Keys == reg.Keys
      && (forall other :: other in reg && other != name ==> r[other] == reg[other])
      && (name in reg ==>
            && r[name].description == reg[name].description
            && r[name].schedule == reg[name].schedule
            && r[name].maxParticipants == reg[name].maxParticipants)
  {
  }

  /** A sign-up keeps every participant list duplicate-free. */
  lemma SignUpKeepsWellFormed(reg: map<string, Activity>, name: string, email: string)
    requires WellFormed(reg)
    ensures WellFormed(SignUp(reg, name, email).registry)
  {
    if name in reg && email !in reg[name].participants {
      AppendKeepsDistinct(reg[name].participants, email);
    }
  }

  // ---------------------------------------------------------------------------
  // Laws of unregistering

  /** An unknown activity name is answered with 404 "Activity not found" and nothing changes. */
  lemma UnregisterUnknownActivity(reg: map<string, Activity>, name: string, email: string)
    requires name !in reg
    ensures Unregister(reg, name, email).registry == reg
    ensures Unregister(reg, name, email).response == Error(ActivityNotFound)
    ensures StatusCode(Unregister(reg, name, email).response) == 404
    ensures Detail(Unregister(reg, name, email).response.failure) == "Activity not found"
  {
  }

  /** An email not on the list is answered with 404 "not registered" and nothing changes. */
  lemma UnregisterNotRegistered(reg: map<string, Activity>, name: string, email: string)
    requires name in reg && email !in reg[name].participants
    ensures Unregister(reg, name, email).registry == reg
    ensures Unregister(reg, name, email).response == Error(NotRegistered)
    ensures StatusCode(Unregister(reg, name, email).response) == 404
    ensures "not registered" <= Detail(Unregister(reg, name, email).response.failure)[11..]
  {
    assert Unregister(reg, name, email).response.failure == NotRegistered;
    assert "not registered" <= Detail(NotRegistered)[11..] by {
      var tail := Detail(NotRegistered)[11..];
      assert tail == "not registered for this activity";
      assert tail[..14] == "not registered";
    }
  }

  /**
   * A successful unregister removes the email's entry and keeps the other
   * entries in their order; on a duplicate-free list the email is then gone
   * and the list is one shorter.
   */
  lemma UnregisterRemoves(reg: map<string, Activity>, name: string, email: string)
    requires name in reg && email in reg[name].participants
    ensures var s := Unregister(reg, name, email);
      var ps := reg[name].participants;
      && s.response.Ok?
      && name in s.registry
      && |s.registry[name].participants| == |ps| - 1
      && (exists i :: 0 <= i < |ps| && ps[i] == email
                      && s.registry[name].participants == ps[..i] + ps[i + 1..])
      && (NoDuplicates(ps) ==> email !in s.registry[name].participants)
  {
    var ps := reg[name].participants;
    var i := IndexOf(ps, email);
    RemoveFirstAt(ps, email, i);
    var s := Unregister(reg, name, email);
    assert s.registry[name].participants == ps[..i] + ps[i + 1..];
    if NoDuplicates(ps) {
      RemoveFirstKeepsDistinct(ps, email);
    }
  }

  /**
   * Unregistering never adds or drops an activity, leaves every other activity
   * as it was, and touches only the participant list of its own activity.
   */
  lemma UnregisterFrame(reg: map<string, Activity>, name: string, email: string)
    ensures var r := Unregister(reg, name, email).registry;
      && r.Keys == reg.Keys
      && (forall other :: other in reg && other != name ==> r[other] == reg[other])
      && (name in reg ==>
            && r[name].description == reg[name].description
            && r[name].schedule == reg[name].schedule
            && r[name].maxParticipants == reg[name].maxParticipants)
  {
  }

  /** Unregistering keeps every participant list duplicate-free. */
  lemma UnregisterKeepsWellFormed(reg: map<string, Activity>, name: string, email: string)
    requires WellFormed(reg)
    ensures WellFormed(Unregister(reg, name, email).registry)
  {
    if name in reg && email in reg[name].participants {
      RemoveFirstKeepsDistinct(reg[name].participants, email);
    }
  }

  /** Signing up and then unregistering the same email restores the registry exactly. */
  lemma SignUpThenUnregister(reg: map<string, Activity>, name: string, email: string)
    requires SignUp(reg, name, email).response.Ok?
    ensures Unregister(SignUp(reg, name, email).registry, name, email).response.Ok?
    ensures Unregister(SignUp(reg, name, email).registry, name, email).registry == reg
  {
    RemoveFirstAppended(reg[name].participants, email);
    assert reg[name].(participants := reg[name].participants) == reg[name];
  }

  /** Two different fresh emails signed up in turn land at the end of the list in that order. */
  lemma SignUpTwice(reg: map<string, Activity>, name: string, e1: string, e2: string)
    requires name in reg && e1 != e2
    requires e1 !in reg[name].participants && e2 !in reg[name].participants
    ensures var s1 := SignUp(reg, name, e1);
      var s2 := SignUp(s1.registry, name, e2);
      && s1.response.Ok? && s2.response.Ok?
      && s2.registry == reg[name := reg[name].(participants := reg[name].participants + [e1, e2])]
  {
    var ps := reg[name].participants;
    assert e2 !in ps + [e1];
    assert ps + [e1] + [e2] == ps + [e1, e2];
  }

  /**
   * Unregistering the earlier of two fresh sign-ups leaves the registry as if
   * only the later one had signed up.
   */
  lemma UnregisterEarlierSignUp(reg: map<string, Activity>, name: string, e1: string, e2: string)
    requires name in reg && e1 != e2
    requires e1 !in reg[name].participants && e2 !in reg[name].participants
    ensures var a := reg[name];
      var s3 := Unregister(reg[name := a.(participants := a.participants + [e1, e2])], name, e1);
      && s3.response.Ok?
      && s3.registry == SignUp(reg, name, e2).registry
  {
    var ps := reg[name].participants;
    RemoveFirstSkips(ps, e1, [e2]);
    assert ps + [e1] + [e2] == ps + [e1, e2];
  }

  /**
   * Two different emails signed up one after the other and then unregistered
   * in the same order: the list grows by one, then two, shrinks back by one,
   * then to its first length, and the registry is as it was.
   */
  lemma TwoSignUpsThenUnregister(reg: map<string, Activity>, name: string, e1: string, e2: string)
    requires name in reg && e1 != e2
    requires e1 !in reg[name].participants && e2 !in reg[name].participants
    ensures var n := |reg[name].participants|;
      var s1 := SignUp(reg, name, e1);
      var s2 := SignUp(s1.registry, name, e2);
      var s3 := Unregister(s2.registry, name, e1);
      var s4 := Unregister(s3.registry, name, e2);
      && s1.response.Ok? && s2.response.Ok? && s3.response.Ok? && s4.response.Ok?
      && |s1.registry[name].participants| == n + 1
      && |s2.registry[name].participants| == n + 2
      && |s3.registry[name].participants| == n + 1
      && |s4.registry[name].participants| == n
      && s4.registry == reg
  {
    SignUpTwice(reg, name, e1, e2);
    UnregisterEarlierSignUp(reg, name, e1, e2);
    SignUpThenUnregister(reg, name, e2);
  }
}
