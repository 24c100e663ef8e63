/**
 * The text forms the manager writes for the persistence collaborator: one line per volunteer
 * (toStringAllVolunteers) and one line per event (toStringAllEvents). The decoders here are
 * reference readers for those lines, used to state what the text preserves.
 */
module Serial {
  import opened Wrappers
  import opened IntText
  import opened Strings
  import opened Entities

  /** The decimal text of each day, in order. */
  function DayStrings(days: seq<int>): seq<string> {
    Lines(IntToString, days)
  }

  /** The comma-separated day list of a volunteer. */
  function DaysField(v: Volunteer): string {
    JoinWith(DayStrings(AvailableDays(v)), ',')
  }

  /** "v;<name>;" then the available days in 1..30, ascending and separated by commas. */
  function VolunteerLine(v: Volunteer): string {
    "v;" + v.name + ";" + DaysField(v)
  }

  /** "e;<name>;<date>;<limit>;" then each adjacent volunteer's name followed by ';'. */
  function EventLine(e: Event): string {
    "e;" + e.name + ";" + IntToString(e.date) + ";" + IntToString(e.limit) + ";" + Terminated(e.adjacent, ';')
  }

  /** The line of each entity, in list order. */
  function Lines<T>(line: T -> string, xs: seq<T>): (lines: seq<string>)
    ensures |lines| == |xs|
    ensures forall k :: 0 <= k < |xs| ==> lines[k] == line(xs[k])
  {
    if xs == [] then [] else Lines(line, xs[..|xs| - 1]) + [line(xs[|xs| - 1])]
  }

  function VolunteerLines(vs: seq<Volunteer>): seq<string> {
    Lines(VolunteerLine, vs)
  }

  function EventLines(es: seq<Event>): seq<string> {
    Lines(EventLine, es)
  }

  /** The text of toStringAllVolunteers: the volunteer lines joined by newlines. */
  function VolunteersText(vs: seq<Volunteer>): string {
    JoinWith(VolunteerLines(vs), '\n')
  }

  /** The text of toStringAllEvents: the event lines joined by newlines. */
  function EventsText(es: seq<Event>): string {
    JoinWith(EventLines(es), '\n')
  }

  /** One more volunteer: its line and a newline follow the text built so far. */
  lemma VolunteerLinesStep(vs: seq<Volunteer>, i: nat)
    requires i < |vs|
    ensures Terminated(VolunteerLines(vs[..i + 1]), '\n')
      == Terminated(VolunteerLines(vs[..i]), '\n') + VolunteerLine(vs[i]) + "\n"
  {
    var lines := VolunteerLines(vs[..i + 1]);
    assert lines[..i] == VolunteerLines(vs[..i]);
  }

  /** Text built so far, then a volunteer's name and days field. */
  lemma VolunteerLineAfter(before: string, v: Volunteer)
    ensures before + "v;" + v.name + ";" + DaysField(v) == before + VolunteerLine(v)
  {
  }

  /** Text built so far, then an event's fields and its adjacent names, each followed by ';'. */
  lemma EventLineAfter(before: string, e: Event)
    ensures before + "e;" + e.name + ";" + IntToString(e.date) + ";" + IntToString(e.limit) + ";"
      + Terminated(e.adjacent, ';') == before + EventLine(e)
  {
  }

  /** One more event: its line and a newline follow the text built so far. */
  lemma EventLinesStep(es: seq<Event>, i: nat)
    requires i < |es|
    ensures Terminated(EventLines(es[..i + 1]), '\n')
      == Terminated(EventLines(es[..i]), '\n') + EventLine(es[i]) + "\n"
  {
    var lines := EventLines(es[..i + 1]);
    assert lines[..i] == EventLines(es[..i]);
  }

  lemma DayStringsAppend(days: seq<int>, d: int)
    ensures DayStrings(days + [d]) == DayStrings(days) + [IntToString(d)]
  {
    assert (days + [d])[..|days|] == days;
  }

  lemma TerminatedAppend(parts: seq<string>, p: string, sep: char)
    ensures Terminated(parts + [p], sep) == Terminated(parts, sep) + p + [sep]
  {
    assert (parts + [p])[..|parts|] == parts;
  }

  /** One more day checked: its number and a comma follow when the volunteer is available on it. */
  lemma AvailableUpToStep(v: Volunteer, d: nat)
    requires d >= 1
    ensures IsAvailable(v, d) ==> (Terminated(DayStrings(AvailableUpTo(v, d)), ',')
      == Terminated(DayStrings(AvailableUpTo(v, d - 1)), ',') + IntToString(d) + ",")
    ensures !IsAvailable(v, d) ==> AvailableUpTo(v, d) == AvailableUpTo(v, d - 1)
  {
    var before := AvailableUpTo(v, d - 1);
    if IsAvailable(v, d) {
      DayStringsAppend(before, d);
      TerminatedAppend(DayStrings(before), IntToString(d), ',');
    } else {
      assert before + [] == before;
    }
  }

  lemma IntToStringAvoids(n: int, c: char)
    requires c == ';' || c == ',' || c == '\n'
    ensures c !in IntToString(n)
  {
    var s := IntToString(n);
    IntToStringChars(n);
    forall i | 0 <= i < |s| ensures s[i] != c {
      assert IsDigit(s[i]) || s[i] == '-';
    }
  }

  lemma DayStringsAvoid(days: seq<int>, c: char)
    requires c == ';' || c == ',' || c == '\n'
    ensures forall k :: 0 <= k < |days| ==> c !in DayStrings(days)[k]
  {
    forall k | 0 <= k < |days| ensures c !in DayStrings(days)[k] {
      IntToStringAvoids(days[k], c);
    }
  }

  /**
   * A volunteer line starts with "v;" and never ends with a comma or a space-like character;
   * without available days it is exactly "v;<name>;", otherwise it ends with the last day's digits.
   */
  lemma VolunteerLineShape(v: Volunteer)
    ensures AvailableDays(v) == [] ==> VolunteerLine(v) == "v;" + v.name + ";"
    ensures AvailableDays(v) != [] ==> IsDigit(VolunteerLine(v)[|VolunteerLine(v)| - 1])
    ensures VolunteerLine(v)[0] == 'v' && VolunteerLine(v)[|VolunteerLine(v)| - 1] != ','
    ensures !IsSpace(VolunteerLine(v)[|VolunteerLine(v)| - 1])
  {
    var days := AvailableDays(v);
    var ds := DayStrings(days);
    var line := VolunteerLine(v);
    if days != [] {
      var last := ds[|ds| - 1];
      JoinWithLast(ds, ',');
      assert line[|line| - |last|..] == last;
      assert line[|line| - 1] == last[|last| - 1];
    }
  }

  /** An event line starts with "e;" and always ends with ';', whether or not it has adjacent volunteers. */
  lemma EventLineShape(e: Event)
    ensures EventLine(e)[0] == 'e' && EventLine(e)[|EventLine(e)| - 1] == ';'
    ensures e.adjacent == [] ==> EventLine(e) == "e;" + e.name + ";" + IntToString(e.date) + ";" + IntToString(e.limit) + ";"
  {
  }

  lemma TextOfLines(lines: seq<string>)
    requires lines != [] && lines[0] != [] && !IsSpace(lines[0][0])
    requires lines[|lines| - 1] != [] && !IsSpace(lines[|lines| - 1][|lines[|lines| - 1]| - 1])
    ensures Trim(Terminated(lines, '\n')) == JoinWith(lines, '\n')
  {
    var j := JoinWith(lines, '\n');
    TerminatedIsJoinWith(lines, '\n');
    var first, last := lines[0], lines[|lines| - 1];
    JoinWithFirst(lines, '\n');
    JoinWithLast(lines, '\n');
    assert j[..|first|][0] == j[0];
    assert j[|j| - |last|..][|last| - 1] == j[|j| - 1];
    TrimPadded(j, '\n');
  }

  /** What toStringAllVolunteers computes: trimming the newline-terminated lines leaves them newline-joined. */
  lemma VolunteersTextIsTrimmed(vs: seq<Volunteer>)
    ensures Trim(Terminated(VolunteerLines(vs), '\n')) == VolunteersText(vs)
  {
    if vs != [] {
      VolunteerLineShape(vs[0]);
      VolunteerLineShape(vs[|vs| - 1]);
      TextOfLines(VolunteerLines(vs));
    }
  }

  /** What toStringAllEvents computes: trimming the newline-terminated lines leaves them newline-joined. */
  lemma EventsTextIsTrimmed(es: seq<Event>)
    ensures Trim(Terminated(EventLines(es), '\n')) == EventsText(es)
  {
    if es != [] {
      EventLineShape(es[0]);
      EventLineShape(es[|es| - 1]);
      TextOfLines(EventLines(es));
    }
  }

  /** One line per volunteer, in list order, when no name holds a newline. */
  lemma VolunteersTextLines(vs: seq<Volunteer>)
    requires vs != []
    requires forall k :: 0 <= k < |vs| ==> '\n' !in vs[k].name
    ensures Split(VolunteersText(vs), '\n') == VolunteerLines(vs)
  {
    var lines := VolunteerLines(vs);
    forall k | 0 <= k < |lines| ensures '\n' !in lines[k] {
      DayStringsAvoid(AvailableDays(vs[k]), '\n');
      JoinWithAvoids(DayStrings(AvailableDays(vs[k])), ',', '\n');
    }
    SplitJoinWith(lines, '\n');
  }

  /** One line per event, in list order, when no event or adjacent volunteer name holds a newline. */
  lemma EventsTextLines(es: seq<Event>)
    requires es != []
    requires forall k :: 0 <= k < |es| ==> '\n' !in es[k].name
    requires forall k, m :: 0 <= k < |es| && 0 <= m < |es[k].adjacent| ==> '\n' !in es[k].adjacent[m]
    ensures Split(EventsText(es), '\n') == EventLines(es)
  {
    var lines := EventLines(es);
    forall k | 0 <= k < |lines| ensures '\n' !in lines[k] {
      EventLineAvoids(es[k]);
    }
    SplitJoinWith(lines, '\n');
  }

  /** No newline in an event line when there is none in the event's names. */
  lemma EventLineAvoids(e: Event)
    requires '\n' !in e.name
    requires forall m :: 0 <= m < |e.adjacent| ==> '\n' !in e.adjacent[m]
    ensures '\n' !in EventLine(e)
  {
    IntToStringAvoids(e.date, '\n');
    IntToStringAvoids(e.limit, '\n');
    if e.adjacent != [] {
      TerminatedIsJoinWith(e.adjacent, ';');
      JoinWithAvoids(e.adjacent, ';', '\n');
    }
  }

  /** The fields of an event line, as the loader splits it at ';'. */
  function EventFields(e: Event): seq<string> {
    ["e", e.name, IntToString(e.date), IntToString(e.limit)] + e.adjacent + [""]
  }

  /** Four parts, each followed by the separator. */
  lemma TerminatedFour(a: string, b: string, c: string, d: string, sep: char)
    ensures Terminated([a, b, c, d], sep) == a + [sep] + b + [sep] + c + [sep] + d + [sep]
  {
    assert [a, b, c, d][..3] == [a, b, c] && [a, b, c][..2] == [a, b] && [a, b][..1] == [a];
    assert Terminated([a], sep) == a + [sep] by {
      assert [a][..0] == [];
      assert [] + a == a;
    }
    assert Terminated([a, b], sep) == a + [sep] + b + [sep];
    assert Terminated([a, b, c], sep) == a + [sep] + b + [sep] + c + [sep];
  }

  lemma EventLineIsJoin(e: Event)
    ensures EventLine(e) == JoinWith(EventFields(e), ';')
  {
    var date, limit := IntToString(e.date), IntToString(e.limit);
    var head := ["e", e.name, date, limit];
    calc {
      JoinWith(EventFields(e), ';');
    == { assert EventFields(e) == (head + e.adjacent) + [""]; }
      JoinWith((head + e.adjacent) + [""], ';');
    == { JoinWithAppend(head + e.adjacent, "", ';'); }
      JoinWith(head + e.adjacent, ';') + [';'] + "";
    == { TerminatedIsJoinWith(head + e.adjacent, ';'); }
      Terminated(head + e.adjacent, ';');
    == { TerminatedConcat(head, e.adjacent, ';'); }
      Terminated(head, ';') + Terminated(e.adjacent, ';');
    == { TerminatedFour("e", e.name, date, limit, ';'); }
      "e;" + e.name + ";" + date + ";" + limit + ";" + Terminated(e.adjacent, ';');
    }
  }

  /** The loader's reading of an event line. */
  function ParseEventLine(line: string): Option<Event> {
    var f := Split(line, ';');
    if |f| >= 5 && f[0] == "e" && f[|f| - 1] == "" && ParseInt(f[2]).Some? && ParseInt(f[3]).Some? then
      Some(Event(f[1], ParseInt(f[2]).value, ParseInt(f[3]).value, f[4..|f| - 1]))
    else None
  }

  /** Reading an event line back gives the same event, when no name holds the field separator ';'. */
  lemma EventLineRoundTrip(e: Event)
    requires ';' !in e.name && IsInt32(e.date) && IsInt32(e.limit)
    requires forall k :: 0 <= k < |e.adjacent| ==> ';' !in e.adjacent[k]
    ensures ParseEventLine(EventLine(e)) == Some(e)
  {
    var fields := EventFields(e);
    IntToStringAvoids(e.date, ';');
    IntToStringAvoids(e.limit, ';');
    forall k | 0 <= k < |fields| ensures ';' !in fields[k] {
      if 4 <= k < |fields| - 1 {
        assert fields[k] == e.adjacent[k - 4];
      }
    }
    EventLineIsJoin(e);
    SplitJoinWith(fields, ';');
    assert fields[4..|fields| - 1] == e.adjacent;
    ParseIntToString(e.date);
    ParseIntToString(e.limit);
  }

  /** The loader's reading of a volunteer line: the name and the listed days. */
  function ParseVolunteerLine(line: string): Option<Volunteer> {
    var f := Split(line, ';');
    if |f| == 3 && f[0] == "v" then
      if f[2] == "" then Some(Volunteer(f[1], []))
      else
        match ParseAll(Split(f[2], ','))
        case Some(days) => Some(Volunteer(f[1], days))
        case None => None
    else None
  }

  lemma ParseAllDayStrings(days: seq<int>)
    requires forall k :: 0 <= k < |days| ==> IsInt32(days[k])
    ensures ParseAll(DayStrings(days)) == Some(days)
  {
    var ss := DayStrings(days);
    forall k | 0 <= k < |ss| ensures ParseInt(ss[k]) == Some(days[k]) {
      ParseIntToString(days[k]);
    }
    ParseAllPointwise(ss, days);
  }

  lemma VolunteerLineIsJoin(v: Volunteer)
    ensures VolunteerLine(v) == JoinWith(["v", v.name, DaysField(v)], ';')
  {
    var field := DaysField(v);
    var fields := ["v", v.name, field];
    assert fields[1..] == [v.name, field];
    assert fields[1..][1..] == [field];
    calc {
      JoinWith(fields, ';');
      "v" + [';'] + JoinWith([v.name, field], ';');
      "v" + [';'] + (v.name + [';'] + field);
      "v;" + v.name + ";" + field;
    }
  }

  /** A comma-separated day list reads back as the days; it is empty exactly when there are none. */
  lemma DayListRoundTrip(days: seq<int>)
    requires forall k :: 0 <= k < |days| ==> IsInt32(days[k])
    ensures ';' !in JoinWith(DayStrings(days), ',')
    ensures (JoinWith(DayStrings(days), ',') == "") == (days == [])
    ensures days != [] ==> ParseAll(Split(JoinWith(DayStrings(days), ','), ',')) == Some(days)
  {
    var ds := DayStrings(days);
    DayStringsAvoid(days, ';');
    JoinWithAvoids(ds, ',', ';');
    if days != [] {
      JoinWithFirst(ds, ',');
      DayStringsAvoid(days, ',');
      SplitJoinWith(ds, ',');
      ParseAllDayStrings(days);
    }
  }

  lemma DaysFieldRoundTrip(v: Volunteer)
    ensures ';' !in DaysField(v)
    ensures (DaysField(v) == "") == (AvailableDays(v) == [])
    ensures AvailableDays(v) != [] ==> ParseAll(Split(DaysField(v), ',')) == Some(AvailableDays(v))
  {
    var days := AvailableDays(v);
    assert forall k :: 0 <= k < |days| ==> days[k] in days;
    DayListRoundTrip(days);
  }

  /**
   * Reading a volunteer line back gives the volunteer's name and its available days in 1..30,
   * ascending and without repeats, when the name holds no ';'.
   */
  lemma VolunteerLineRoundTrip(v: Volunteer)
    requires ';' !in v.name
    ensures ParseVolunteerLine(VolunteerLine(v)) == Some(Volunteer(v.name, AvailableDays(v)))
  {
    DaysFieldRoundTrip(v);
    VolunteerLineIsJoin(v);
    ReadVolunteerFields(v.name, DaysField(v), AvailableDays(v));
  }

  lemma ReadVolunteerFields(name: string, field: string, days: seq<int>)
    requires ';' !in name && ';' !in field
    requires (field == "") == (days == [])
    requires days != [] ==> ParseAll(Split(field, ',')) == Some(days)
    ensures ParseVolunteerLine(JoinWith(["v", name, field], ';')) == Some(Volunteer(name, days))
  {
    var fields := ["v", name, field];
    SplitJoinWith(fields, ';');
  }

  /** A volunteer rebuilt from its line writes the same line again. */
  lemma VolunteerLineStable(v: Volunteer)
    ensures VolunteerLine(Volunteer(v.name, AvailableDays(v))) == VolunteerLine(v)
  {
    var w := Volunteer(v.name, AvailableDays(v));
    AvailableUpToAgree(w, v, LAST_DAY);
  }

  /**
   * The whole volunteer text reads back line by line: line k gives volunteer k's name and its
   * available days, when no name holds ';' or a newline.
   */
  lemma VolunteersTextRoundTrip(vs: seq<Volunteer>)
    requires vs != []
    requires forall k :: 0 <= k < |vs| ==> ';' !in vs[k].name && '\n' !in vs[k].name
    ensures var lines := Split(VolunteersText(vs), '\n');
      |lines| == |vs|
      && forall k :: 0 <= k < |vs| ==>
        ParseVolunteerLine(lines[k]) == Some(Volunteer(vs[k].name, AvailableDays(vs[k])))
  {
    VolunteersTextLines(vs);
    forall k | 0 <= k < |vs|
      ensures ParseVolunteerLine(VolunteerLines(vs)[k]) == Some(Volunteer(vs[k].name, AvailableDays(vs[k])))
    {
      VolunteerLineRoundTrip(vs[k]);
    }
  }

  /**
   * The whole event text reads back line by line: line k gives event k, when no event or
   * adjacent volunteer name holds ';' or a newline and the numbers are 32-bit.
   */
  lemma EventsTextRoundTrip(es: seq<Event>)
    requires es != []
    requires forall k :: 0 <= k < |es| ==>
      ';' !in es[k].name && '\n' !in es[k].name && IsInt32(es[k].date) && IsInt32(es[k].limit)
    requires forall k, m :: 0 <= k < |es| && 0 <= m < |es[k].adjacent| ==>
      ';' !in es[k].adjacent[m] && '\n' !in es[k].adjacent[m]
    ensures var lines := Split(EventsText(es), '\n');
      |lines| == |es| && forall k :: 0 <= k < |es| ==> ParseEventLine(lines[k]) == Some(es[k])
  {
    EventsTextLines(es);
    forall k | 0 <= k < |es| ensures ParseEventLine(EventLines(es)[k]) == Some(es[k]) {
      EventLineRoundTrip(es[k]);
    }
  }
}
