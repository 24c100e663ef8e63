# EventManager model

A Dafny model of `EventManager`, the class of a volunteer-scheduling program that owns a list of
events and a list of volunteers. The model covers:

- validated insertion (`addEvent`, which keeps the event list sorted by name; `addVolunteer`,
  which appends);
- exact-name lookup (`findEvent`, `findVolunteer`);
- the matching entry point `createMatch`, in its current form: it looks both names up and does
  nothing else;
- the two line-oriented text views that the persistence layer writes to a file
  (`toStringAllVolunteers`, `toStringAllEvents`).

The manager is a class `Manager.EventManager` with two sequence fields, `events` and
`volunteers`. Its methods change them in place under a `modifies` clause. Its invariant `Valid()`
states:

- the event list is sorted strictly by name, so names are unique;
- every stored event has a non-empty name, a date in 1..30, a limit of at least 1 and no
  adjacent volunteers;
- volunteer names are non-empty and unique.

The loops of the Java code (duplicate checks, lookups, the day-string loop, both serialisers
with their inner loops) are `while` loops with invariants. Each is proved against a
specification function.

The supporting modules:

- `IntText`: `ParseInt`, a total model of `Integer.parseInt` that returns `None` where Java
  throws `NumberFormatException`, and `IntToString`, the decimal text Java's string
  concatenation gives an `int`.
- `Strings`: `String.join`-style joining, splitting at a separator, `trim()`, and the
  lexicographic order of `compareTo`.
- `Entities`: `Event` and `Volunteer` as values carrying only what the manager reads from
  them.
- `Serial`: the exact line formats, plus reference readers for those lines. The readers are
  used to state round trips.

Where the documentation comments and the code disagree, the model follows the code:

- `createMatch` returns true as soon as both names are found;
- `addVolunteer` does not sort the volunteer list, although its comment says it does;
- an event line always ends in `;`, even with no adjacent volunteers (the comment's example
  separates the adjacent names with commas and has no final `;`);
- day strings given to `addVolunteer` are not range-checked.

## Model

The rows below name members with contracts. They rest on these definitions:

- `Strings.StringLess` is the order of `compareTo` that `Collections.sort` uses (EventManager.java:77).
- `Entities.IsAvailable` is `Volunteer.isAvailable` (EventManager.java:291).
- `Serial.VolunteerLine` is the volunteer line format (EventManager.java:288-299).
- `Serial.EventLine` is the event line format (EventManager.java:321-328).

| member | source | states |
|---|---|---|
| `IntText.ParseInt` | EventManager.java:58-59 | a parsed value comes from an optional sign followed by ASCII digits, fits in 32 bits, and is non-positive when the text starts with '-' and non-negative otherwise |
| `IntText.ParseIntToString` | EventManager.java:109 | parsing the decimal text of n gives back n for every 32-bit n and fails for every other integer |
| `IntText.ParseIntDigits` | EventManager.java:58-59 | a run of ASCII digits is read as its value when that fits in 32 bits and is rejected otherwise |
| `IntText.ParseIntMinus` | EventManager.java:58-59 | '-' followed by ASCII digits is read as the negated value when that fits in 32 bits and is rejected otherwise |
| `IntText.ParseIntPlus` | EventManager.java:109 | an explicit '+' before the digits is accepted and gives the same result as the digits alone |
| `IntText.ParseIntNegativeZero` | EventManager.java:58-59 | the text "-0" is accepted and reads as zero |
| `IntText.ParseIntLeadingZero` | EventManager.java:109 | a leading zero after the optional sign changes neither acceptance nor the value |
| `IntText.ParseIntRejects` | EventManager.java:61-64 | examples of rejected inputs: the empty string, a lone sign, surrounding blanks and a doubled sign |
| `IntText.ParseAll` | EventManager.java:105-116 | the list of strings parses exactly when each string parses; the result has one value per string, in input order |
| `IntText.ParseAllPointwise` | EventManager.java:105-116 | collecting the values one by one, as the day loop does, gives exactly ParseAll's result |
| `IntText.IntToString` | EventManager.java:289-294 | the text of an int is non-empty, ends in a digit and starts with '-' exactly for negative values |
| `IntText.IntToStringChars` | EventManager.java:294 | the text of an int holds only digits, apart from a leading '-' |
| `Strings.Split` | EventManager.java:285-303 | splitting gives at least one piece, no piece holds the separator, and joining the pieces gives the text back |
| `Strings.SplitJoinWith` | EventManager.java:285-303 | splitting pieces that were joined, none of which holds the separator, gives the same pieces back |
| `Strings.TerminatedIsJoinWith` | EventManager.java:288-297 | appending each part then a separator gives the joined parts plus one trailing separator |
| `Strings.StripTerminated` | EventManager.java:295-299 | after text not ending in ',', the day tokens each followed by ','; taking off a final ',' leaves the text followed by the comma-joined tokens |
| `Strings.Trim` | EventManager.java:303 | the trimmed text starts and ends with a character above the space |
| `Strings.TrimPadded` | EventManager.java:303 | trimming text that ends in one newline removes exactly that newline when the text neither starts nor ends with a blank |
| `Strings.StringLessTransitive` | EventManager.java:77 | the name order used by the sort is transitive |
| `Strings.StringLessTotal` | EventManager.java:77 | any two distinct names are ordered one way or the other |
| `Strings.StringLessAsymmetric` | EventManager.java:77 | no two names each precede the other |
| `Entities.AvailableUpToMembers` | EventManager.java:289-295 | a day is in the list exactly when it lies in 1..k and the volunteer is available on it |
| `Entities.AvailableUpToAscending` | EventManager.java:289 | the days are listed in strictly ascending order, each once |
| `Entities.AvailableDays` | EventManager.java:289-295 | the written days are exactly the available days of the month, 1 to 30 |
| `Entities.AvailableUpToAgree` | EventManager.java:291 | the written days depend only on which days 1..30 are available |
| `Serial.VolunteerLineShape` | EventManager.java:288-299 | a volunteer line starts with 'v'; it never ends in ',' or a blank; it is exactly `v;<name>;` without available days and ends in a digit otherwise |
| `Serial.EventLineShape` | EventManager.java:321-327 | an event line starts with 'e' and always ends with ';'; without adjacent volunteers it is exactly `e;<name>;<date>;<limit>;` |
| `Serial.VolunteersTextIsTrimmed` | EventManager.java:300-303 | trimming the newline-terminated volunteer lines gives the lines joined by newlines |
| `Serial.EventsTextIsTrimmed` | EventManager.java:330-332 | trimming the newline-terminated event lines gives the lines joined by newlines |
| `Serial.VolunteersTextLines` | EventManager.java:286-303 | the volunteer text splits at newlines into one line per volunteer, in list order |
| `Serial.EventsTextLines` | EventManager.java:320-332 | the event text splits at newlines into one line per event, in list order |
| `Serial.EventLineRoundTrip` | EventManager.java:321-327 | reading an event line back gives the same name, date, limit and adjacent names in order |
| `Serial.VolunteerLineRoundTrip` | EventManager.java:288-299 | reading a volunteer line back gives the name and the available days in 1..30, ascending |
| `Serial.DaysFieldRoundTrip` | EventManager.java:289-299 | the day field holds no ';', is empty exactly when no day is available, and otherwise reads back as the available days |
| `Serial.VolunteerLineStable` | EventManager.java:288-299 | a volunteer rebuilt from its written days writes the same line again |
| `Serial.VolunteersTextRoundTrip` | EventManager.java:283-304 | line k of the whole volunteer text reads back as volunteer k's name and available days |
| `Serial.EventsTextRoundTrip` | EventManager.java:317-333 | line k of the whole event text reads back as event k |
| `Manager.SortedNamesDistinct` | EventManager.java:35 | in a name-sorted event list no two events share a name |
| `Manager.SortedByNameUnique` | EventManager.java:76-77 | two name-sorted lists that hold the same events are equal, so the sorted list is determined by its contents |
| `Manager.SortAppended` | EventManager.java:76-77 | the sorted prefix with the new event appended is rearranged into a name-sorted permutation of itself |
| `Manager.AppendAdjacentNames` | EventManager.java:323-328 | the adjacency loop appends each adjacent volunteer's name followed by ';', in order |
| `Manager.AppendAvailableDays` | EventManager.java:289-295 | the day loop appends each available day in 1..30, ascending, followed by ',' |
| `Manager.EventManager.constructor` | EventManager.java:27-31 | a new manager has two empty lists and satisfies the invariant |
| `Manager.EventManager.AddEvent` | EventManager.java:52-79 | the result is true exactly when the name is non-empty, both strings parse, the date is in 1..30, the limit is at least 1 and the name is new. On false nothing changes. On true the list grows by one, holds the old events plus the new one (with no adjacent volunteers), is sorted by name, and holds no other event of that name. The volunteers never change |
| `Manager.EventManager.AddVolunteer` | EventManager.java:95-120 | the result is true exactly when the name is non-empty and new and every day string parses. On false nothing changes. On true the volunteer is appended at the end with the parsed days in input order, unchecked. The events never change |
| `Manager.EventManager.FindEvent` | EventManager.java:154-166 | the result is None exactly when no event has the name; otherwise it is the first event with that name; nothing changes |
| `Manager.EventManager.FindVolunteer` | EventManager.java:174-186 | the result is None exactly when no volunteer has the name; otherwise it is the first volunteer with that name; nothing changes |
| `Manager.EventManager.CreateMatch` | EventManager.java:207-215 | the result is true exactly when both names are found; neither list changes |
| `Manager.EventManager.ToStringAllVolunteers` | EventManager.java:283-304 | the result is the volunteer lines, in list order, joined by newlines |
| `Manager.EventManager.ToStringAllEvents` | EventManager.java:317-333 | the result is the event lines, in list order, joined by newlines |

## Left out

- `removeEvent`, `removeVolunteer` and `removeMatch` are stubs that return constants (EventManager.java:131-134, 143-146, 234-237). The cascading removal their comments describe has no code behind it.
- `displayAllEvents` and `displayAllVolunteers` write to the console using format strings from a `Resource` class. That class is not part of this model.
- The match steps described in the comment of `createMatch` (capacity check, adjacency updates, availability flip) are not implemented in the code, so they are not modelled.
- `name == ""` in Java compares references. It is modelled as "the name is empty", which is exact only for interned strings. A `null` name, list or array is not modelled, because Dafny values cannot be null.
- `IntText.ParseInt`: does not accept the non-ASCII Unicode digits that `Integer.parseInt` also accepts.
- `Strings.StringLess` compares Dafny characters, which are Unicode scalar values. `compareTo` compares UTF-16 code units, and the two orders differ only outside the Basic Multilingual Plane.
- The classes `Event`, `Volunteer` and `GraphNode` are not part of this model. They are represented by the fields the manager reads. `Volunteer.isAvailable(d)` is taken to be membership of `d` in the days it was created with. `Event.compareTo` is taken to order by name, as the comment of `addEvent` says.
- `Collections.sort` is modelled by `Manager.SortAppended`, which inserts the appended event where its name belongs. `Manager.SortedByNameUnique` shows that every correct sort gives this same list.
- The serialisers do not escape ';' or newlines inside names. An event or volunteer whose name holds ';' or a newline, or an adjacent name that does, produces text that cannot be split back into its fields or lines. The round-trip lemmas in `Serial` therefore require names free of these characters.
- The reference readers `Serial.ParseEventLine` and `Serial.ParseVolunteerLine` stand for the file loader. The loader is not part of this model.
- File I/O and the command-line front end are not modelled.
