/**
 * EventManager: the owner of the event list and the volunteer list, with validated insertion,
 * exact-name lookup, the (lookup-only) match entry point and the two text views.
 */
module Manager {
  import opened Wrappers
  import opened IntText
  import opened Strings
  import opened Entities
  import opened Serial

  /** Events in strictly ascending name order, the order Collections.sort leaves them in. */
  predicate SortedByName(es: seq<Event>) {
    forall i, j :: 0 <= i < j < |es| ==> StringLess(es[i].name, es[j].name)
  }

  predicate HasEvent(es: seq<Event>, name: string) {
    exists k :: 0 <= k < |es| && es[k].name == name
  }

  predicate HasVolunteer(vs: seq<Volunteer>, name: string) {
    exists k :: 0 <= k < |vs| && vs[k].name == name
  }

  /** What addEvent guarantees of every event it stores. */
  predicate ValidEvent(e: Event) {
    e.name != "" && 1 <= e.date <= 30 && 1 <= e.limit <= INT_MAX && e.adjacent == []
  }

  /** What addVolunteer guarantees of every volunteer it stores. */
  predicate ValidVolunteer(v: Volunteer) {
    v.name != "" && forall k :: 0 <= k < |v.dates| ==> IsInt32(v.dates[k])
  }

  predicate EventsValid(es: seq<Event>) {
    SortedByName(es) && forall k :: 0 <= k < |es| ==> ValidEvent(es[k])
  }

  predicate VolunteersValid(vs: seq<Volunteer>) {
    (forall i, j :: 0 <= i < j < |vs| ==> vs[i].name != vs[j].name)
    && forall k :: 0 <= k < |vs| ==> ValidVolunteer(vs[k])
  }

  /** Sorted by name means no two events share a name. */
  lemma SortedNamesDistinct(es: seq<Event>, i: int, j: int)
    requires SortedByName(es)
    requires 0 <= i < |es| && 0 <= j < |es| && i != j
    ensures es[i].name != es[j].name
  {
    if i < j {
      StringLessIrreflexive(es[i].name);
    } else {
      StringLessIrreflexive(es[j].name);
    }
  }

  /** In a name-sorted list every other member's name comes after the first one's. */
  lemma SortedFirst(a: seq<Event>, x: Event)
    requires SortedByName(a) && x in a
    ensures x == a[0] || StringLess(a[0].name, x.name)
  {
    var i :| 0 <= i < |a| && a[i] == x;
    assert i == 0 || StringLess(a[0].name, a[i].name);
  }

  /** Two name-sorted lists holding the same events start with the same event. */
  lemma SortedSameFirst(a: seq<Event>, b: seq<Event>)
    requires SortedByName(a) && SortedByName(b)
    requires multiset(a) == multiset(b) && a != []
    ensures b != [] && a[0] == b[0]
  {
    assert a[0] in multiset(b);
    assert b[0] in multiset(a);
    SortedFirst(a, b[0]);
    SortedFirst(b, a[0]);
    if a[0] != b[0] {
      StringLessAsymmetric(a[0].name, b[0].name);
    }
  }

  /** Taking the same first event off two lists with the same events leaves the same events. */
  lemma SameTails(a: seq<Event>, b: seq<Event>)
    requires SortedByName(a) && SortedByName(b)
    requires a != [] && b != [] && a[0] == b[0] && multiset(a) == multiset(b)
    ensures SortedByName(a[1..]) && SortedByName(b[1..])
    ensures multiset(a[1..]) == multiset(b[1..])
  {
    assert a == [a[0]] + a[1..];
    assert b == [b[0]] + b[1..];
    assert multiset(a[1..]) == multiset(a) - multiset{a[0]};
    assert multiset(b[1..]) == multiset(b) - multiset{b[0]};
  }

  /**
   * There is only one name-sorted arrangement of a collection of events: whatever correct sort
   * routine is used, the result of sorting is determined.
   */
  lemma {:induction false} SortedByNameUnique(a: seq<Event>, b: seq<Event>)
    requires SortedByName(a) && SortedByName(b)
    requires multiset(a) == multiset(b)
    ensures a == b
  {
    if a == [] {
      assert |multiset(b)| == 0;
    } else {
      SortedSameFirst(a, b);
      SameTails(a, b);
      SortedByNameUnique(a[1..], b[1..]);
      assert a == [a[0]] + a[1..] && b == [b[0]] + b[1..];
    }
  }

  /** An event placed between the events whose names precede its own and those that follow. */
  lemma InsertSorted(rest: seq<Event>, e: Event, p: nat)
    requires SortedByName(rest) && p <= |rest|
    requires forall k :: 0 <= k < p ==> StringLess(rest[k].name, e.name)
    requires forall k :: p <= k < |rest| ==> StringLess(e.name, rest[k].name)
    ensures SortedByName(rest[..p] + [e] + rest[p..])
  {
    var r := rest[..p] + [e] + rest[p..];
    assert forall i :: 0 <= i < p ==> r[i] == rest[i];
    assert r[p] == e;
    assert forall i :: p < i < |r| ==> r[i] == rest[i - 1];
  }

  /** Inserting an event anywhere gives the same events as appending it. */
  lemma InsertSame(rest: seq<Event>, e: Event, p: nat)
    requires p <= |rest|
    ensures multiset(rest[..p] + [e] + rest[p..]) == multiset(rest + [e])
  {
    assert rest == rest[..p] + rest[p..];
  }

  /**
   * Collections.sort applied to a name-sorted list with one new event appended: the new event
   * moves to the place its name belongs, so that the list is sorted and holds the same events.
   */
  method SortAppended(s: seq<Event>) returns (r: seq<Event>)
    requires s != [] && SortedByName(s[..|s| - 1])
    requires !HasEvent(s[..|s| - 1], s[|s| - 1].name)
    ensures SortedByName(r) && multiset(r) == multiset(s)
  {
    var n := |s| - 1;
    var rest, e := s[..n], s[n];
    var p := 0;
    while p < n && StringLess(rest[p].name, e.name)
      invariant 0 <= p <= n
      invariant forall k :: 0 <= k < p ==> StringLess(rest[k].name, e.name)
    {
      p := p + 1;
    }
    if p < n {
      assert rest[p].name != e.name;
      StringLessTotal(rest[p].name, e.name);
      forall k | p < k < n ensures StringLess(e.name, rest[k].name) {
        StringLessTransitive(e.name, rest[p].name, rest[k].name);
      }
    }
    InsertSorted(rest, e, p);
    InsertSame(rest, e, p);
    r := rest[..p] + [e] + rest[p..];
    assert s == rest + [e];
  }

  /** The adjacency loop of toStringAllEvents: each adjacent volunteer's name, then ';'. */
  method AppendAdjacentNames(allEvents: string, adjacent: seq<string>) returns (r: string)
    ensures r == allEvents + Terminated(adjacent, ';')
  {
    r := allEvents;
    var j := 0;
    while j < |adjacent|
      invariant 0 <= j <= |adjacent|
      invariant r == allEvents + Terminated(adjacent[..j], ';')
    {
      assert adjacent[..j + 1] == adjacent[..j] + [adjacent[j]];
      TerminatedAppend(adjacent[..j], adjacent[j], ';');
      r := r + adjacent[j] + ";";
      j := j + 1;
    }
    assert adjacent[..j] == adjacent;
  }

  /**
   * The day loop of toStringAllVolunteers: every day 1..30 on which the volunteer is available,
   * each followed by a comma.
   */
  method AppendAvailableDays(allVols: string, check: Volunteer) returns (r: string)
    ensures r == allVols + Terminated(DayStrings(AvailableDays(check)), ',')
  {
    r := allVols;
    var d := 1;
    while d <= 30
      invariant 1 <= d <= 31
      invariant r == allVols + Terminated(DayStrings(AvailableUpTo(check, d - 1)), ',')
    {
      ghost var t := Terminated(DayStrings(AvailableUpTo(check, d - 1)), ',');
      ghost var t' := Terminated(DayStrings(AvailableUpTo(check, d)), ',');
      if IsAvailable(check, d) {
        var token := IntToString(d);
        assert r + token + "," == allVols + t' by {
          AvailableUpToStep(check, d);
          AppendAssoc(allVols, t, token);
          AppendAssoc(allVols, t + token, ",");
        }
        r := r + token + ",";
      } else {
        assert t' == t by { AvailableUpToStep(check, d); }
      }
      d := d + 1;
    }
    assert d - 1 == LAST_DAY;
  }

  class EventManager {
    /** eventList */
    var events: seq<Event>
    /** volunteerList */
    var volunteers: seq<Volunteer>

    ghost predicate Valid()
      reads this
    {
      EventsValid(events) && VolunteersValid(volunteers)
    }

    constructor ()
      ensures Valid()
      ensures events == [] && volunteers == []
    {
      events := [];
      volunteers := [];
    }

    /**
     * addEvent: rejects an empty name, a date or limit that does not parse, a date outside 1..30,
     * a limit below 1 and a name already in use, changing nothing; otherwise adds the event with
     * no adjacent volunteers and leaves the list sorted by name.
     */
    method AddEvent(name: string, dateStr: string, limitStr: string) returns (ok: bool)
      requires Valid()
      modifies this
      ensures Valid()
      ensures volunteers == old(volunteers)
      ensures ok <==>
        name != ""
        && ParseInt(dateStr).Some? && ParseInt(limitStr).Some?
        && 1 <= ParseInt(dateStr).value <= 30
        && 1 <= ParseInt(limitStr).value
        && !HasEvent(old(events), name)
      ensures !ok ==> events == old(events)
      ensures ok ==> (
        ParseInt(dateStr).Some? && ParseInt(limitStr).Some?
        && var added := Event(name, ParseInt(dateStr).value, ParseInt(limitStr).value, []);
        && |events| == |old(events)| + 1
        && multiset(events) == multiset(old(events)) + multiset{added}
        && added in events
        && forall k :: 0 <= k < |events| && events[k].name == name ==> events[k] == added)
    {
      if name == "" {
        return false;
      }
      var date := ParseInt(dateStr);
      var limit := ParseInt(limitStr);
      if date.None? || limit.None? {
        return false;
      }
      if date.value < 1 || date.value > 30 {
        return false;
      }
      if limit.value < 1 {
        return false;
      }
      var i := 0;
      while i < |events|
        invariant 0 <= i <= |events|
        invariant forall k :: 0 <= k < i ==> events[k].name != name
      {
        if events[i].name == name {
          return false;
        }
        i := i + 1;
      }
      var add := Event(name, date.value, limit.value, []);
      var appended := events + [add];
      assert appended[..|events|] == events;
      events := SortAppended(appended);
      ok := true;
      assert add in multiset(events);
      forall k | 0 <= k < |events| && events[k].name == name ensures events[k] == add {
        var m :| 0 <= m < |events| && events[m] == add;
        if k != m {
          SortedNamesDistinct(events, k, m);
        }
      }
      forall k | 0 <= k < |events| ensures ValidEvent(events[k]) {
        assert events[k] in multiset(appended);
      }
    }

    /**
     * addVolunteer: rejects an empty name, a name already in use and any day string that does
     * not parse, changing nothing; otherwise appends the volunteer, with the parsed days in input
     * order and without range check, at the end of the list (the list is not re-sorted).
     */
    method AddVolunteer(name: string, dateStrs: seq<string>) returns (ok: bool)
      requires Valid()
      modifies this
      ensures Valid()
      ensures events == old(events)
      ensures ok <==>
        name != ""
        && !HasVolunteer(old(volunteers), name)
        && forall k :: 0 <= k < |dateStrs| ==> ParseInt(dateStrs[k]).Some?
      ensures !ok ==> volunteers == old(volunteers)
      ensures ok ==> (ParseAll(dateStrs).Some?
        && volunteers == old(volunteers) + [Volunteer(name, ParseAll(dateStrs).value)])
    {
      if name == "" {
        return false;
      }
      var dates: seq<int> := [];
      var i := 0;
      while i < |volunteers|
        invariant 0 <= i <= |volunteers|
        invariant forall k :: 0 <= k < i ==> volunteers[k].name != name
      {
        if volunteers[i].name == name {
          return false;
        }
        i := i + 1;
      }
      var b := 0;
      while b < |dateStrs|
        invariant 0 <= b <= |dateStrs|
        invariant |dates| == b
        invariant forall k :: 0 <= k < b ==> ParseInt(dateStrs[k]) == Some(dates[k])
      {
        var day := ParseInt(dateStrs[b]);
        if day.None? {
          return false;
        }
        dates := dates + [day.value];
        b := b + 1;
      }
      ParseAllPointwise(dateStrs, dates);
      volunteers := volunteers + [Volunteer(name, dates)];
      ok := true;
    }

    /** findEvent: the first event with exactly this name, or None when there is none. */
    method FindEvent(name: string) returns (r: Option<Event>)
      ensures r.None? <==> !HasEvent(events, name)
      ensures r.Some? ==> exists k :: (0 <= k < |events| && events[k] == r.value
        && r.value.name == name && forall j :: 0 <= j < k ==> events[j].name != name)
    {
      var i := 0;
      while i < |events|
        invariant 0 <= i <= |events|
        invariant forall k :: 0 <= k < i ==> events[k].name != name
      {
        if events[i].name == name {
          return Some(events[i]);
        }
        i := i + 1;
      }
      return None;
    }

    /** findVolunteer: the first volunteer with exactly this name, or None when there is none. */
    method FindVolunteer(name: string) returns (r: Option<Volunteer>)
      ensures r.None? <==> !HasVolunteer(volunteers, name)
      ensures r.Some? ==> exists k :: (0 <= k < |volunteers| && volunteers[k] == r.value
        && r.value.name == name && forall j :: 0 <= j < k ==> volunteers[j].name != name)
    {
      var i := 0;
      while i < |volunteers|
        invariant 0 <= i <= |volunteers|
        invariant forall k :: 0 <= k < i ==> volunteers[k].name != name
      {
        if volunteers[i].name == name {
          return Some(volunteers[i]);
        }
        i := i + 1;
      }
      return None;
    }

    /**
     * createMatch as written: true exactly when both names are found. Capacity, availability
     * and the adjacency update are not performed, so neither list changes (no modifies clause).
     */
    method CreateMatch(eventName: string, volunteerName: string) returns (ok: bool)
      ensures ok <==> HasEvent(events, eventName) && HasVolunteer(volunteers, volunteerName)
    {
      var checkE := FindEvent(eventName);
      var checkV := FindVolunteer(volunteerName);
      if checkE.None? || checkV.None? {
        return false;
      }
      return true;
    }

    /** toStringAllVolunteers: the volunteer lines, in list order, joined by newlines. */
    method ToStringAllVolunteers() returns (text: string)
      ensures text == VolunteersText(volunteers)
    {
      var allVols := "";
      var i := 0;
      while i < |volunteers|
        invariant 0 <= i <= |volunteers|
        invariant allVols == Terminated(VolunteerLines(volunteers[..i]), '\n')
      {
        var check := volunteers[i];
        ghost var before := allVols;
        allVols := allVols + "v;" + check.name + ";";
        ghost var head := allVols;
        allVols := AppendAvailableDays(allVols, check);
        StripTerminated(head, DayStrings(AvailableDays(check)), ',', allVols);
        if allVols[|allVols| - 1] == ',' {
          allVols := allVols[..|allVols| - 1];
        }
        VolunteerLineAfter(before, check);
        VolunteerLinesStep(volunteers, i);
        allVols := allVols + "\n";
        i := i + 1;
      }
      assert volunteers[..i] == volunteers;
      text := Trim(allVols);
      VolunteersTextIsTrimmed(volunteers);
    }

    /** toStringAllEvents: the event lines, in list order, joined by newlines. */
    method ToStringAllEvents() returns (text: string)
      ensures text == EventsText(events)
    {
      var allEvents := "";
      var i := 0;
      while i < |events|
        invariant 0 <= i <= |events|
        invariant allEvents == Terminated(EventLines(events[..i]), '\n')
      {
        var check := events[i];
        ghost var before := allEvents;
        allEvents := allEvents + "e;" + check.name + ";" + IntToString(check.date) + ";" + IntToString(check.limit) + ";";
        allEvents := AppendAdjacentNames(allEvents, check.adjacent);
        EventLineAfter(before, check);
        EventLinesStep(events, i);
        allEvents := allEvents + "\n";
        i := i + 1;
      }
      assert events[..i] == events;
      text := Trim(allEvents);
      EventsTextIsTrimmed(events);
    }
  }
}
