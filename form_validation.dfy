/**
 * Form validation and the time-overlap test of src/App.jsx: `validateForm`
 * and the `.some(...)` predicate inside `addEvent`.
 */
module FormValidation {
  import opened Wrappers
  import opened EventModel

  /** The keys of the `errors` object. */
  datatype Field = Name | StartTime | EndTime | Description | Kind

  const NameRequired := "Event name is required!"
  const StartTimeRequired := "Start time is required!"
  const EndTimeRequired := "End time is required!"

  /** The three required fields are filled in (`!value` fails only for the empty string). */
  predicate IsComplete(f: EventData) {
    f.name != "" && f.startTime != "" && f.endTime != ""
  }

  /** The number of required fields left empty. */
  function MissingCount(f: EventData): nat {
    (if f.name == "" then 1 else 0) + (if f.startTime == "" then 1 else 0) + (if f.endTime == "" then 1 else 0)
  }

  /** The `errors` object that `validateForm` builds: one message per empty required field. */
  function RequiredFieldErrors(f: EventData): (errors: map<Field, string>)
    ensures Name in errors <==> f.name == ""
    ensures StartTime in errors <==> f.startTime == ""
    ensures EndTime in errors <==> f.endTime == ""
    ensures Description !in errors && Kind !in errors
    ensures Name in errors ==> errors[Name] == NameRequired
    ensures StartTime in errors ==> errors[StartTime] == StartTimeRequired
    ensures EndTime in errors ==> errors[EndTime] == EndTimeRequired
    ensures |errors| == MissingCount(f)
    ensures |errors| == 0 <==> IsComplete(f)
  {
    var e0: map<Field, string> := map[];
    var e1 := if f.name == "" then e0[Name := NameRequired] else e0;
    var e2 := if f.startTime == "" then e1[StartTime := StartTimeRequired] else e1;
    var e3 := if f.endTime == "" then e2[EndTime := EndTimeRequired] else e2;
    e3
  }

  /** Neither the description nor the type takes part in validation. */
  lemma OptionalFieldsIgnored(f: EventData, description: Option<string>, kind: string)
    ensures RequiredFieldErrors(f.(description := description, kind := kind)) == RequiredFieldErrors(f)
    ensures IsComplete(f.(description := description, kind := kind)) == IsComplete(f)
  {
  }

  // ---- Times -------------------------------------------------------------

  /** JavaScript's `a < b` on strings: lexicographic order of the characters, a proper prefix first. */
  predicate Before(a: string, b: string)
    decreases |a|
  {
    if |a| == 0 then |b| > 0
    else if |b| == 0 then false
    else if a[0] != b[0] then a[0] < b[0]
    else Before(a[1..], b[1..])
  }

  lemma {:induction false} BeforeIrreflexive(a: string)
    ensures !Before(a, a)
    decreases |a|
  {
    if |a| > 0 {
      BeforeIrreflexive(a[1..]);
    }
  }

  /** Past a common prefix, the first differing characters decide `Before`. */
  lemma {:induction false} BeforeAtFirstDifference(a: string, b: string, k: nat)
    requires k < |a| && k < |b| && a[..k] == b[..k] && a[k] != b[k]
    ensures Before(a, b) <==> a[k] < b[k]
    decreases k
  {
    if k > 0 {
      assert a[0] == a[..k][0] == b[..k][0] == b[0];
      assert a[1..][..k - 1] == a[..k][1..] == b[..k][1..] == b[1..][..k - 1];
      BeforeAtFirstDifference(a[1..], b[1..], k - 1);
    }
  }

  /** Two different strings of one length differ first at some position k. */
  lemma {:induction false} FirstDifference(a: string, b: string) returns (k: nat)
    requires |a| == |b| && a != b
    ensures k < |a| && a[..k] == b[..k] && a[k] != b[k]
    decreases |a|
  {
    if a[0] != b[0] {
      k := 0;
    } else {
      assert a == [a[0]] + a[1..] && b == [b[0]] + b[1..];
      var j := FirstDifference(a[1..], b[1..]);
      k := j + 1;
      assert a[..k] == [a[0]] + a[1..][..j];
      assert b[..k] == [b[0]] + b[1..][..j];
    }
  }

  predicate IsDigit(c: char) {
    '0' <= c <= '9'
  }

  function Digit(c: char): int {
    c as int - '0' as int
  }

  /** A value of an `<input type="time">`: "HH:MM", zero-padded, 00:00 to 23:59. */
  predicate IsTime(s: string) {
    && |s| == 5
    && IsDigit(s[0]) && IsDigit(s[1]) && s[2] == ':' && IsDigit(s[3]) && IsDigit(s[4])
    && 10 * Digit(s[0]) + Digit(s[1]) < 24
    && 10 * Digit(s[3]) + Digit(s[4]) < 60
  }

  /** Minutes since midnight. */
  function Minutes(s: string): (m: int)
    requires IsTime(s)
    ensures 0 <= m < 24 * 60
  {
    60 * (10 * Digit(s[0]) + Digit(s[1])) + 10 * Digit(s[3]) + Digit(s[4])
  }

  /** On "HH:MM" times, comparing the strings is comparing the minutes, and equal minutes mean equal strings. */
  lemma TimeOrder(a: string, b: string)
    requires IsTime(a) && IsTime(b)
    ensures Before(a, b) <==> Minutes(a) < Minutes(b)
    ensures a == b <==> Minutes(a) == Minutes(b)
  {
    if a == b {
      BeforeIrreflexive(a);
    } else {
      var k := FirstDifference(a, b);
      assert k != 2;
      assert forall j :: 0 <= j < k ==> a[j] == a[..k][j] == b[..k][j] == b[j];
      BeforeAtFirstDifference(a, b, k);
      assert Minutes(a) != Minutes(b) && (Minutes(a) < Minutes(b) <==> a[k] < b[k]);
    }
  }

  // ---- Overlap -------------------------------------------------------------

  /**
   * The test of src/App.jsx:62-63 for an existing event against the form:
   * the intervals cross, or both start and end are equal.
   */
  predicate Collides(existing: EventData, candidate: EventData) {
    || (Before(existing.startTime, candidate.endTime) && Before(candidate.startTime, existing.endTime))
    || (existing.startTime == candidate.startTime && existing.endTime == candidate.endTime)
  }

  /** On "HH:MM" times the test is the overlap of the half-open minute intervals, or identical intervals. */
  lemma CollidesInMinutes(existing: EventData, candidate: EventData)
    requires IsTime(existing.startTime) && IsTime(existing.endTime)
    requires IsTime(candidate.startTime) && IsTime(candidate.endTime)
    ensures Collides(existing, candidate) <==>
      || (Minutes(existing.startTime) < Minutes(candidate.endTime) && Minutes(candidate.startTime) < Minutes(existing.endTime))
      || (Minutes(existing.startTime) == Minutes(candidate.startTime) && Minutes(existing.endTime) == Minutes(candidate.endTime))
  {
    TimeOrder(existing.startTime, candidate.endTime);
    TimeOrder(candidate.startTime, existing.endTime);
    TimeOrder(existing.startTime, candidate.startTime);
    TimeOrder(existing.endTime, candidate.endTime);
  }

  /** Identical intervals collide, zero-length ones included. */
  lemma IdenticalIntervalsCollide(existing: EventData, candidate: EventData)
    requires existing.startTime == candidate.startTime && existing.endTime == candidate.endTime
    ensures Collides(existing, candidate)
  {
  }

  /** The test does not depend on which of the two events is the existing one. */
  lemma CollidesSymmetric(a: EventData, b: EventData)
    ensures Collides(a, b) <==> Collides(b, a)
  {
  }

  /** An interval that ends where a non-empty one begins does not collide with it, in either role. */
  lemma TouchingIntervalsDoNotCollide(first: EventData, second: EventData)
    requires first.endTime == second.startTime && second.startTime != second.endTime
    ensures !Collides(first, second) && !Collides(second, first)
  {
    BeforeIrreflexive(second.startTime);
  }

  /** On "HH:MM" times, an event covering a non-empty existing one collides with it. */
  lemma ContainmentCollides(existing: EventData, candidate: EventData)
    requires IsTime(existing.startTime) && IsTime(existing.endTime)
    requires IsTime(candidate.startTime) && IsTime(candidate.endTime)
    requires Minutes(candidate.startTime) <= Minutes(existing.startTime)
    requires Minutes(existing.startTime) < Minutes(existing.endTime)
    requires Minutes(existing.endTime) <= Minutes(candidate.endTime)
    ensures Collides(existing, candidate)
  {
    CollidesInMinutes(existing, candidate);
  }

  /** `dayEvents.some(...)`: some event of the day collides with the form. */
  predicate HasOverlap(dayEvents: seq<Event>, candidate: EventData) {
    |dayEvents| > 0 && (Collides(dayEvents[0].data, candidate) || HasOverlap(dayEvents[1..], candidate))
  }

  lemma {:induction false} HasOverlapIff(dayEvents: seq<Event>, candidate: EventData)
    ensures HasOverlap(dayEvents, candidate) <==>
      exists i :: 0 <= i < |dayEvents| && Collides(dayEvents[i].data, candidate)
  {
    if |dayEvents| > 0 {
      HasOverlapIff(dayEvents[1..], candidate);
      if HasOverlap(dayEvents[1..], candidate) {
        var i :| 0 <= i < |dayEvents[1..]| && Collides(dayEvents[1..][i].data, candidate);
        assert Collides(dayEvents[i + 1].data, candidate);
      }
      if exists i :: 0 <= i < |dayEvents| && Collides(dayEvents[i].data, candidate) {
        var i :| 0 <= i < |dayEvents| && Collides(dayEvents[i].data, candidate);
        if i > 0 {
          assert Collides(dayEvents[1..][i - 1].data, candidate);
        }
      }
    }
  }

  /** No two events of one day collide. */
  predicate CollisionFree(dayEvents: seq<Event>) {
    forall i, j :: 0 <= i < j < |dayEvents| ==> !Collides(dayEvents[i].data, dayEvents[j].data)
  }

  /** An event that passes the overlap test keeps a collision-free day collision-free. */
  lemma AcceptedEventKeepsDayCollisionFree(dayEvents: seq<Event>, added: Event)
    requires CollisionFree(dayEvents) && !HasOverlap(dayEvents, added.data)
    ensures CollisionFree(dayEvents + [added])
  {
    HasOverlapIff(dayEvents, added.data);
    var all := dayEvents + [added];
    forall i, j | 0 <= i < j < |all|
      ensures !Collides(all[i].data, all[j].data)
    {
      if j == |dayEvents| {
        assert !Collides(dayEvents[i].data, added.data);
      } else {
        assert all[i] == dayEvents[i] && all[j] == dayEvents[j];
      }
    }
  }
}
