/**
 * The process-wide activity registry and the request handlers that read and
 * change it in place.
 */
module App {
  import opened Activities
  import Seed

  /**
   * The linear scan behind a membership test on a participant list: the
   * position of the first entry equal to `e`, or `|ps|` when there is none.
   */
  method FirstIndex(ps: seq<string>, e: string) returns (i: nat)
    ensures i <= |ps|
    ensures i < |ps| <==> e in ps
    ensures i < |ps| ==> ps[i] == e
    ensures e !in ps[..i]
  {
    i := 0;
    while i < |ps| && ps[i] != e
      invariant i <= |ps|
      invariant e !in ps[..i]
    {
      assert ps[..i + 1] == ps[..i] + [ps[i]];
      i := i + 1;
    }
    assert i == |ps| ==> ps[..i] == ps;
  }

  /** The registry: activity name to record, created once with the seeded activities. */
  class ActivityRegistry {
    var activities: map<string, Activity>
    /** The activity names fixed at start-up. */
    ghost const names: set<string>

    /** The lifecycle invariant: the names fixed at start-up, each list duplicate-free. */
    ghost predicate Valid()
      reads this
    {
      activities.Keys == names && WellFormed(activities)
    }

    /** Seeds the registry with the nine activities. */
    constructor ()
      ensures activities == Seed.Initial() && names == Seed.Initial().Keys
      ensures Valid()
    {
      var seed := Seed.Initial();
      activities := seed;
      names := seed.Keys;
      Seed.InitialWellFormed();
    }

    /** The listing route: the whole registry as it stands, without changing it. */
    method GetActivities() returns (r: map<string, Activity>)
      ensures r == activities
    {
      r := activities;
    }

    /**
     * The sign-up route: reject an unknown activity, then an email already on the
     * list; otherwise append the email to the list in place and confirm.
     */
    method SignupForActivity(activityName: string, email: string) returns (r: Response)
      modifies this
      ensures activities == SignUp(old(activities), activityName, email).registry
      ensures r == SignUp(old(activities), activityName, email).response
      ensures old(Valid()) ==> Valid()
    {
      ghost var before := activities;
      if activityName !in activities {
        return Error(ActivityNotFound);
      }
      var activity := activities[activityName];
      var i := FirstIndex(activity.participants, email);
      if i < |activity.participants| {
        return Error(AlreadySignedUp);
      }
      activities := activities[activityName := activity.(participants := activity.participants + [email])];
      r := Ok("Signed up " + email + " for " + activityName);
      SignUpFrame(before, activityName, email);
      if WellFormed(before) {
        SignUpKeepsWellFormed(before, activityName, email);
      }
    }

    /**
     * The unregister route the test suite drives: reject an unknown activity,
     * then an email not on the list; otherwise remove the email's entry in
     * place and confirm.
     */
    method UnregisterFromActivity(activityName: string, email: string) returns (r: Response)
      modifies this
      ensures activities == Unregister(old(activities), activityName, email).registry
      ensures r == Unregister(old(activities), activityName, email).response
      ensures old(Valid()) ==> Valid()
      ensures old(Valid()) && r.Ok? ==> email !in activities[activityName].participants
    {
      ghost var before := activities;
      if activityName !in activities {
        return Error(ActivityNotFound);
      }
      var activity := activities[activityName];
      var ps := activity.participants;
      var i := FirstIndex(ps, email);
      if i == |ps| {
        return Error(NotRegistered);
      }
      RemoveFirstAt(ps, email, i);
      activities := activities[activityName := activity.(participants := ps[..i] + ps[i + 1..])];
      r := Ok("Unregistered " + email + " from " + activityName);
      UnregisterFrame(before, activityName, email);
      if WellFormed(before) {
        UnregisterKeepsWellFormed(before, activityName, email);
        RemoveFirstKeepsDistinct(ps, email);
      }
    }
  }
}
