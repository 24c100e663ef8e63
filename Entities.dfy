/**
 * The two kinds of entity the manager keeps. Event, Volunteer and GraphNode are classes of
 * their own that this model does not contain; here they are values carrying exactly what the
 * manager reads from them: getName, getDate, getLimit, getAdjacentNodes and isAvailable.
 */
module Entities {

  /** An event: its name, its day, its volunteer limit, and the names of its adjacent volunteer nodes. */
  datatype Event = Event(name: string, date: int, limit: int, adjacent: seq<string>)

  /** A volunteer: its name and the list of day numbers it was created with. */
  datatype Volunteer = Volunteer(name: string, dates: seq<int>)

  const FIRST_DAY: int := 1
  const LAST_DAY: int := 30

  /** Volunteer.isAvailable(day): the day is one of the volunteer's listed days. */
  predicate IsAvailable(v: Volunteer, day: int) {
    day in v.dates
  }

  /** The days 1..k on which v is available, in ascending order. */
  function AvailableUpTo(v: Volunteer, k: nat): seq<int> {
    if k == 0 then [] else AvailableUpTo(v, k - 1) + (if IsAvailable(v, k) then [k] else [])
  }

  /** A day is listed exactly when it lies in 1..k and v is available on it. */
  lemma {:induction false} AvailableUpToMembers(v: Volunteer, k: nat)
    ensures forall d :: d in AvailableUpTo(v, k) <==> FIRST_DAY <= d <= k && IsAvailable(v, d)
  {
    if k > 0 {
      AvailableUpToMembers(v, k - 1);
    }
  }

  predicate StrictlyAscending(days: seq<int>) {
    forall i, j :: 0 <= i < j < |days| ==> days[i] < days[j]
  }

  /** The days 1..k are listed in strictly ascending order, so each at most once. */
  lemma {:induction false} AvailableUpToAscending(v: Volunteer, k: nat)
    ensures StrictlyAscending(AvailableUpTo(v, k))
  {
    if k > 0 {
      AvailableUpToAscending(v, k - 1);
      AvailableUpToMembers(v, k - 1);
      var earlier := AvailableUpTo(v, k - 1);
      if IsAvailable(v, k) {
        var days := earlier + [k];
        assert AvailableUpTo(v, k) == days;
        forall i, j | 0 <= i < j < |days| ensures days[i] < days[j] {
          assert days[i] == earlier[i] && earlier[i] in earlier;
          if j < |earlier| {
            assert days[j] == earlier[j];
          }
        }
      } else {
        assert AvailableUpTo(v, k) == earlier by { assert earlier + [] == earlier; }
      }
    }
  }

  /** The days of the month (1 to 30) on which v is available, in ascending order. */
  function AvailableDays(v: Volunteer): (days: seq<int>)
    ensures forall d :: d in days <==> FIRST_DAY <= d <= LAST_DAY && IsAvailable(v, d)
  {
    AvailableUpToMembers(v, LAST_DAY);
    AvailableUpTo(v, LAST_DAY)
  }

  /** The available days up to k depend only on which of the days 1..k are available. */
  lemma {:induction false} AvailableUpToAgree(v: Volunteer, w: Volunteer, k: nat)
    requires forall d :: FIRST_DAY <= d <= k ==> (IsAvailable(v, d) <==> IsAvailable(w, d))
    ensures AvailableUpTo(v, k) == AvailableUpTo(w, k)
  {
    if k > 0 {
      AvailableUpToAgree(v, w, k - 1);
    }
  }
}
