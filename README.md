# Mergington High School activity registry, in Dafny

This project models the in-memory activity registry of the Mergington High
School API: a dictionary from activity name to a record holding a
description, a schedule, a capacity (`max_participants`) and the ordered list
of participant emails. The registry is seeded with nine activities when the
process starts. Two request handlers touch it. The listing handler returns
the whole registry. The sign-up handler first rejects an unknown activity
(404 "Activity not found"). It then rejects an email already on that
activity's list (400 "Student already signed up for this activity").
Otherwise it appends the email to the list in place and confirms with
"Signed up {email} for {activity_name}". The capacity is never consulted.

The project has three modules:

- `Activities` (activities.dfy) holds the values. It defines the activity
  record and the outcome of a request (`Ok(message)` or `Error(failure)`).
  It also defines the two registry transitions as pure reference functions,
  `SignUp` and `Unregister`, and proves their laws.
- `Seed` (seed.dfy) holds the nine seeded activities. It also works through
  two of the test suite's request sequences on them: the Chess Club workflow
  (`ChessClubWorkflow`) and the Science Club counts (`ScienceClubCounts`).
  The suite's other sequences are covered only by the general laws of
  `Activities`.
- `App` (app.dfy) holds the process-wide registry as a class,
  `ActivityRegistry`, with a mutable `map` field. Its handlers change that
  field in place, and each is proved against the reference function.
  `FirstIndex` is the linear scan behind the membership test.

Unregistering (`DELETE /activities/{name}/participants`) does not appear in
`src/app.py`. The test suite exercises it, so the model includes it as an
extension derived from the tests and marks it as such:
`Activities.Unregister`, `App.ActivityRegistry.UnregisterFromActivity` and
the lemmas about them. The test suite pins three things about it:

- the 404 "Activity not found" case;
- a 404 whose detail contains "not registered";
- the removal itself.

The model removes the first occurrence of the email, as a Python list's
`remove` does. The exact success message and the full "not registered"
detail are not in the source, so the wording used here is this model's own.

## Model

| member | source | states |
|---|---|---|
| Seed.ChessClub | src/app.py:24-29 | The seeded Chess Club record; its two emails differ and its capacity is positive |
| Seed.ProgrammingClass | src/app.py:30-35 | The seeded Programming Class record; its two emails differ and its capacity is positive |
| Seed.GymClass | src/app.py:36-41 | The seeded Gym Class record; its two emails differ and its capacity is positive |
| Seed.SoccerTeam | src/app.py:44-49 | The seeded Soccer Team record; its two emails differ and its capacity is positive |
| Seed.BasketballClub | src/app.py:50-55 | The seeded Basketball Club record; its two emails differ and its capacity is positive |
| Seed.ArtClub | src/app.py:58-63 | The seeded Art Club record; its two emails differ and its capacity is positive |
| Seed.DramaClub | src/app.py:64-69 | The seeded Drama Club record; its two emails differ and its capacity is positive |
| Seed.DebateTeam | src/app.py:72-77 | The seeded Debate Team record; its two emails differ and its capacity is positive |
| Seed.ScienceClub | src/app.py:78-83 | The seeded Science Club record; its two emails differ and its capacity is positive |
| Seed.InitialWellFormed | src/app.py:23-84 | Every seeded participant list is free of duplicates and every seeded capacity is positive |
| Seed.InitialListing | tests/test_app.py:13-21 | The listing holds Chess Club, Programming Class and Gym Class with their seeded records, Chess Club's members in order, and no "NonExistent Activity" |
| Seed.ChessClubWorkflow | tests/test_app.py:39-62 | On the seeded Chess Club, a new email is appended last; signing it up again gives AlreadySignedUp and changes nothing; unregistering it restores the registry; an absent email gives NotRegistered |
| Seed.ScienceClubCounts | tests/test_app.py:204-226 | On the seeded Science Club, two sign-ups and two unregisters take the list through lengths 3, 4, 3 and 2, ending at the starting registry |
| Activities.SignUpUnknownActivity | src/app.py:100-102 | An unknown activity name gives ActivityNotFound, status 404, detail "Activity not found", and leaves the registry unchanged |
| Activities.SignUpAlreadySignedUp | src/app.py:107-109 | An email already on the list gives AlreadySignedUp, status 400, detail "Student already signed up for this activity", and leaves the registry unchanged |
| Activities.SignUpSucceedsIff | src/app.py:100-113 | A sign-up succeeds if and only if the activity exists and the email is not on its list |
| Activities.SignUpAppends | src/app.py:111-113 | On success the new list is the old list with the email appended at the end. The count grows by one, the email is a member, and the answer is exactly "Signed up {email} for {name}" with status 200 |
| Activities.SignUpIgnoresCapacity | src/app.py:97-113 | A fresh email is accepted even when the list already has `max_participants` or more entries, so the list can exceed the capacity |
| Activities.SignUpFrame | src/app.py:104-112 | The set of activity names stays the same and every other activity is untouched. The target's description, schedule and capacity are also untouched |
| Activities.SignUpKeepsWellFormed | src/app.py:107-112 | If no activity's list has duplicate emails before a sign-up, none has them after |
| Activities.AppendKeepsDistinct | src/app.py:108-112 | Appending an email that is not on a duplicate-free list keeps the list duplicate-free |
| Activities.RemoveFirst | tests/test_app.py:130-143 | Removing an email that is on the list shortens it by one; removing one that is not on it changes nothing; nothing new appears |
| Activities.RemoveFirstAt | tests/test_app.py:101-143 | Removing the first occurrence at position i leaves the entries before i and after i in their order |
| Activities.RemoveFirstSkips | tests/test_app.py:220-222 | Removing an email leaves the entries that came after it where they were |
| Activities.RemoveFirstAppended | tests/test_app.py:170-187 | Removing an email just appended to a list that lacked it gives back the original list |
| Activities.RemoveFirstKeepsDistinct | tests/test_app.py:101-112 | On a duplicate-free list, removal keeps it duplicate-free and leaves the email absent |
| Activities.UnregisterUnknownActivity | tests/test_app.py:122-128 | An unknown activity name gives ActivityNotFound with status 404 and detail "Activity not found", and leaves the registry unchanged (test-derived) |
| Activities.UnregisterNotRegistered | tests/test_app.py:114-120 | An email not on the list gives NotRegistered with status 404 and a detail containing "not registered", and leaves the registry unchanged (test-derived) |
| Activities.UnregisterRemoves | tests/test_app.py:101-143 | On success exactly one entry equal to the email is removed and the rest keep their order. The list shrinks by one, and on a duplicate-free list the email is then absent (test-derived) |
| Activities.UnregisterFrame | tests/test_app.py:130-143 | Unregistering keeps the set of activity names and every other activity. It touches only the target's participant list (test-derived) |
| Activities.UnregisterKeepsWellFormed | tests/test_app.py:101-112 | Unregistering keeps every participant list duplicate-free (test-derived) |
| Activities.SignUpThenUnregister | tests/test_app.py:170-187 | A successful sign-up followed by unregistering the same email succeeds and restores the registry exactly |
| Activities.SignUpTwice | tests/test_app.py:204-218 | Two different fresh emails signed up in turn both succeed and end up last on the list, in that order |
| Activities.UnregisterEarlierSignUp | tests/test_app.py:220-222 | Unregistering the earlier of two fresh sign-ups leaves the registry as if only the later one had signed up |
| Activities.TwoSignUpsThenUnregister | tests/test_app.py:204-226 | Two sign-ups then two unregisters in the same order all succeed. Counts go n+1, n+2, n+1, n, and the registry returns to its starting value |
| App.FirstIndex | src/app.py:108 | The scan returns the first position holding the email, or the list's length when the email is absent; so the email is on the list exactly when the result is below the length |
| App.ActivityRegistry.constructor | src/app.py:23-84 | The registry starts as the nine seeded activities, with names fixed to their keys and every list duplicate-free |
| App.ActivityRegistry.GetActivities | src/app.py:92-94 | Returns the whole registry as it stands and changes nothing |
| App.ActivityRegistry.SignupForActivity | src/app.py:97-113 | The new registry and the answer are those of `SignUp` on the old registry. The object invariant (fixed names, duplicate-free lists) is kept |
| App.ActivityRegistry.UnregisterFromActivity | tests/test_app.py:101-143 | The new registry and the answer are those of `Unregister` on the old registry. The invariant is kept, and on success the email is gone (test-derived) |

## Left out

- The FastAPI wiring is left out: the app object, the static-file mount, the redirect of `/` and the translation of errors into HTTP exceptions. Errors are `Response.Error` values instead. `StatusCode` and `Detail` give the status and detail text that the web layer would attach.
- The order of the listing is not modelled. The source's dictionary returns the nine activities in seed order, but the model's `map` has no order.
- The model does not capture aliasing. The listing handler hands out the live dictionary, and the sign-up handler appends to the same list object held in it. In the model, the map field is replaced with an updated copy.
- Concurrent requests are not modelled. The source takes no lock, so the model is sequential.
- The test harness mechanics are not modelled: the test client, and the saving and restoring of participant lists around each test.
- No email format is checked, because the source performs no validation.
- `Activities.Unregister` and `App.ActivityRegistry.UnregisterFromActivity` do not model the source, which has no unregister handler. They follow the test suite, and their message wording is this model's own.
