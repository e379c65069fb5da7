/** The backend endpoint `/events/enriched` (Models/api_server.py): year
    extraction from a date string, the optional year-window filter, and the
    shaping of database rows into the website's enriched events.

    The database is not modelled: the fetched event rows are an input
    sequence, and the two per-event queries (the first venue, the
    participants) together with the JSON parser are functions held in a
    `Database` value. A parser result of `None` stands for `json.loads`
    raising. */
module ApiServer {
  import opened Domain
  import App

  // ---------------------------------------------------------------------
  // Python's int() on a string, base 10
  // ---------------------------------------------------------------------

  /** The characters Python's `int()` skips as white space in an ASCII
      string: tab, line feed, vertical tab, form feed, carriage return and
      space. The separators 0x1C-0x1F are not among them. */
  predicate IsSpace(c: char)
  {
    9 <= c as int <= 13 || c == ' '
  }

  predicate IsDigit(c: char)
  {
    '0' <= c <= '9'
  }

  /** The characters that can occur in a string `int()` accepts. */
  predicate IsIntChar(c: char)
  {
    IsSpace(c) || IsDigit(c) || c == '_' || c == '+' || c == '-'
  }

  function StripLeading(s: string): (r: string)
    ensures |r| <= |s| && r == s[|s| - |r|..]
    ensures r == [] || !IsSpace(r[0])
    ensures forall i :: 0 <= i < |s| - |r| ==> IsSpace(s[i])
  {
    if s != [] && IsSpace(s[0]) then StripLeading(s[1..]) else s
  }

  function StripTrailing(s: string): (r: string)
    ensures |r| <= |s| && r == s[..|r|]
    ensures r == [] || !IsSpace(r[|r| - 1])
    ensures forall i :: |r| <= i < |s| ==> IsSpace(s[i])
  {
    if s != [] && IsSpace(s[|s| - 1]) then StripTrailing(s[..|s| - 1]) else s
  }

  function Strip(s: string): string
  {
    StripTrailing(StripLeading(s))
  }

  /** Decimal digits with single underscores between them: `1_000`, but not
      `_1`, `1_` or `1__0`. */
  predicate DigitGroups(s: string)
  {
    && s != [] && IsDigit(s[0]) && IsDigit(s[|s| - 1])
    && (forall i :: 0 <= i < |s| ==> IsDigit(s[i]) || s[i] == '_')
    && (forall i :: 0 <= i < |s| - 1 ==> s[i] == '_' ==> IsDigit(s[i + 1]))
  }

  function DigitValue(c: char): nat
    requires IsDigit(c)
  {
    c as int - '0' as int
  }

  /** The value of a string of digits and underscores; underscores are
      ignored. */
  function GroupsValue(s: string): nat
    requires forall i :: 0 <= i < |s| ==> IsDigit(s[i]) || s[i] == '_'
  {
    if s == [] then 0
    else if s[|s| - 1] == '_' then GroupsValue(s[..|s| - 1])
    else 10 * GroupsValue(s[..|s| - 1]) + DigitValue(s[|s| - 1])
  }

  function Pow10(n: nat): nat
  {
    if n == 0 then 1 else 10 * Pow10(n - 1)
  }

  /** `int(s)`: surrounding white space is dropped, then an optional sign,
      then digit groups; anything else raises, modelled as `None`. */
  function PyInt(s: string): Option<int>
  {
    var t := Strip(s);
    if t == [] then None
    else
      var negative := t[0] == '-';
      var body := if t[0] == '-' || t[0] == '+' then t[1..] else t;
      var magnitude: int := if DigitGroups(body) then GroupsValue(body) else 0;
      if DigitGroups(body) then Some(if negative then -magnitude else magnitude)
      else None
  }

  lemma {:induction false} GroupsValueBound(s: string)
    requires forall i :: 0 <= i < |s| ==> IsDigit(s[i]) || s[i] == '_'
    ensures GroupsValue(s) < Pow10(|s|)
    decreases |s|
  {
    if s != [] {
      GroupsValueBound(s[..|s| - 1]);
    }
  }

  /** Every character of `s` is white space or a character of `Strip(s)`. */
  lemma StripKeeps(s: string, i: int)
    requires 0 <= i < |s|
    ensures IsSpace(s[i]) || s[i] in Strip(s)
  {
    var l := StripLeading(s);
    var t := StripTrailing(l);
    var k := |s| - |l|;
    if k <= i && i - k < |t| {
      assert s[i] == l[i - k] == t[i - k];
    } else if k <= i {
      assert s[i] == l[i - k];
    }
  }

  /** A string `int()` accepts holds only white space, digits, underscores and
      signs. */
  lemma PyIntAlphabet(s: string, i: int)
    requires PyInt(s).Some? && 0 <= i < |s|
    ensures IsIntChar(s[i])
  {
    StripKeeps(s, i);
    var t := Strip(s);
    if s[i] in t {
      var j :| 0 <= j < |t| && t[j] == s[i];
      if j > 0 && (t[0] == '-' || t[0] == '+') {
        assert t[j] == t[1..][j - 1];
      }
    }
  }

  // ---------------------------------------------------------------------
  // _extract_year
  // ---------------------------------------------------------------------

  function Prefix4(s: string): (r: string)
    ensures |r| <= 4 && r <= s
  {
    if |s| <= 4 then s else s[..4]
  }

  /** `_extract_year` (api_server.py:63-70): `int()` of the first four
      characters of a non-empty date string. */
  function ExtractYear(dateStr: Option<string>): (r: Option<int>)
    ensures dateStr.None? || dateStr == Some("") ==> r.None?
  {
    if dateStr.None? || dateStr.value == "" then None
    else PyInt(Prefix4(dateStr.value))
  }

  /** A date starting with four digits, such as `YYYY` or `YYYY-MM-DD`, gives
      the number those four digits spell. */
  lemma ExtractYearOfDigits(s: string)
    requires |s| >= 4 && IsDigit(s[0]) && IsDigit(s[1]) && IsDigit(s[2]) && IsDigit(s[3])
    ensures ExtractYear(Some(s)) ==
      Some(1000 * DigitValue(s[0]) + 100 * DigitValue(s[1]) + 10 * DigitValue(s[2]) + DigitValue(s[3]))
  {
    var p := Prefix4(s);
    assert p == s[..4];
    assert StripLeading(p) == p;
    assert StripTrailing(p) == p;
    assert DigitGroups(p);
    assert s[..1][..0] == [];
    assert GroupsValue(s[..1]) == DigitValue(s[0]);
    assert s[..2][..1] == s[..1];
    assert GroupsValue(s[..2]) == 10 * DigitValue(s[0]) + DigitValue(s[1]);
    assert s[..3][..2] == s[..2];
    assert GroupsValue(s[..3]) == 100 * DigitValue(s[0]) + 10 * DigitValue(s[1]) + DigitValue(s[2]);
    assert p[..3] == s[..3];
  }

  /** A character other than white space, a digit, an underscore or a sign
      among the first four makes the year absent. */
  lemma ExtractYearRejects(s: string, i: int)
    requires 0 <= i < |s| && i < 4 && !IsIntChar(s[i])
    ensures ExtractYear(Some(s)).None?
  {
    var p := Prefix4(s);
    assert p[i] == s[i];
    if PyInt(p).Some? {
      PyIntAlphabet(p, i);
    }
  }

  /** A leading file separator (0x1C) is not white space to `int()`, so the
      date gives no year, and the response later writes year 0. */
  lemma SeparatorBlocksYear()
    ensures ExtractYear(Some("\U{1c}1920")) == None
  {
    ExtractYearRejects("\U{1c}1920", 0);
  }

  /** At most four characters are read, so a year is between -999 and 9999. */
  lemma ExtractYearBounds(dateStr: Option<string>)
    requires ExtractYear(dateStr).Some?
    ensures -999 <= ExtractYear(dateStr).value <= 9999
  {
    var p := Prefix4(dateStr.value);
    assert ExtractYear(dateStr) == PyInt(p);
    PyIntShortBound(p);
  }

  lemma {:induction false} Pow10Monotone(m: nat, n: nat)
    requires m <= n
    ensures Pow10(m) <= Pow10(n)
    decreases n
  {
    if m < n {
      Pow10Monotone(m, n - 1);
    }
  }

  /** `int()` of at most four characters lies between -999 and 9999. */
  lemma PyIntShortBound(s: string)
    requires |s| <= 4 && PyInt(s).Some?
    ensures -999 <= PyInt(s).value <= 9999
  {
    var t := Strip(s);
    assert |t| <= 4;
    var signed := t[0] == '-' || t[0] == '+';
    var body := if signed then t[1..] else t;
    assert DigitGroups(body);
    var v: int := GroupsValue(body);
    assert PyInt(s).value == if t[0] == '-' then -v else v;
    GroupsValueBound(body);
    assert Pow10(3) == 1000 && Pow10(4) == 10000;
    if signed {
      Pow10Monotone(|body|, 3);
    } else {
      Pow10Monotone(|body|, 4);
    }
  }

  // ---------------------------------------------------------------------
  // Row shaping
  // ---------------------------------------------------------------------

  datatype PersonRow = PersonRow(
    id: string,
    name: string,
    aliases: Option<string>,
    artifactId: string,
    birthYear: Option<int>,
    deathYear: Option<int>)

  datatype LocationRow = LocationRow(
    id: string,
    name: string,
    artifactId: string,
    address: Option<string>,
    latitude: Option<real>,
    longitude: Option<real>)

  datatype EventRow = EventRow(id: string, description: string, artifactId: string, eventDate: Option<string>)

  /** The per-event queries and the JSON parser. */
  datatype Database = Database(
    venueOf: string -> Option<LocationRow>,
    participantsOf: string -> seq<PersonRow>,
    loads: string -> Option<Json>)

  /** `_safe_json_list` (api_server.py:25-32): never fails; an absent or empty
      string, text that does not parse, or JSON that is not a list all give
      the empty list. */
  function SafeJsonList(value: Option<string>, loads: string -> Option<Json>): (r: seq<Json>)
    ensures value.None? || value == Some("") ==> r == []
    ensures r != [] ==> value.Some? && loads(value.value) == Some(JArray(r))
    ensures value.Some? && value.value != "" && loads(value.value).Some? && loads(value.value).value.JArray? ==>
              r == loads(value.value).value.elems
  {
    if value.None? || value.value == "" then []
    else
      match loads(value.value)
      case Some(JArray(elems)) => elems
      case _ => []
  }

  /** `_row_to_person` (api_server.py:35-45): the artifact becomes the book,
      aliases are parsed leniently, and there is never a canonical id. */
  function RowToPerson(row: PersonRow, loads: string -> Option<Json>): (p: Person)
    ensures p.id == row.id && p.name == row.name && p.bookId == row.artifactId
    ensures p.birthYear == row.birthYear && p.deathYear == row.deathYear
    ensures p.aliases == SafeJsonList(row.aliases, loads) && p.canonicalId.None?
  {
    Person(row.id, row.name, SafeJsonList(row.aliases, loads), row.artifactId, row.birthYear, row.deathYear, None)
  }

  /** `_row_to_location` (api_server.py:48-60): the address becomes the
      normalised address; neighbourhood, borough and geometry are unknown. */
  function RowToLocation(row: LocationRow): (l: Location)
    ensures l.id == row.id && l.name == row.name && l.bookId == row.artifactId
    ensures l.normalizedAddress == row.address && l.latitude == row.latitude && l.longitude == row.longitude
    ensures l.neighborhood.None? && l.borough.None? && l.geometry.None?
  {
    Location(row.id, row.name, row.artifactId, row.address, None, None, row.latitude, row.longitude, None)
  }

  /** The dictionary appended per surviving row (api_server.py:142-153). */
  function ShapeEvent(row: EventRow, year: Option<int>, location: Option<Location>, people: seq<Person>): (e: EnrichedEvent)
    ensures e.id == row.id && e.eventDate == row.eventDate && e.location == location && e.people == people
    ensures e.description == row.description && e.bookId == row.artifactId
    ensures e.datePrecision == Some(Exact) <==> HasDate(e)
    ensures e.datePrecision == Some(Exact) || e.datePrecision == Some(Unknown)
    ensures year.None? ==> e.year == 0
    ensures year.Some? ==> e.year == year.value
  {
    EnrichedEvent(
      row.id, row.description, row.artifactId, row.eventDate,
      Some(if row.eventDate.Some? && row.eventDate.value != "" then Exact else Unknown),
      if year.Some? then year.value else 0,
      location, people)
  }

  function VenueOf(row: EventRow, db: Database): Option<Location>
  {
    match db.venueOf(row.id)
    case None => None
    case Some(l) => Some(RowToLocation(l))
  }

  /** `[_row_to_person(r) for r in person_rows]`. */
  function RowsToPeople(rows: seq<PersonRow>, loads: string -> Option<Json>): (people: seq<Person>)
    ensures |people| == |rows|
    ensures forall i :: 0 <= i < |rows| ==> people[i] == RowToPerson(rows[i], loads)
  {
    seq(|rows|, i requires 0 <= i < |rows| => RowToPerson(rows[i], loads))
  }

  /** One row, shaped with its own venue and participants. */
  function Enrich(row: EventRow, db: Database): EnrichedEvent
  {
    ShapeEvent(row, ExtractYear(row.eventDate), VenueOf(row, db), RowsToPeople(db.participantsOf(row.id), db.loads))
  }

  // ---------------------------------------------------------------------
  // The year window of get_enriched_events
  // ---------------------------------------------------------------------

  /** A row survives when each given bound is met by a year it has. */
  predicate InWindow(year: Option<int>, startYear: Option<int>, endYear: Option<int>)
  {
    && (startYear.None? || (year.Some? && startYear.value <= year.value))
    && (endYear.None? || (year.Some? && year.value <= endYear.value))
  }

  /** The rows that survive the filter, in their original order. */
  function KeptRows(rows: seq<EventRow>, startYear: Option<int>, endYear: Option<int>): (r: seq<EventRow>)
    ensures |r| <= |rows|
  {
    if rows == [] then []
    else
      var front := KeptRows(rows[..|rows| - 1], startYear, endYear);
      var last := rows[|rows| - 1];
      if InWindow(ExtractYear(last.eventDate), startYear, endYear) then front + [last] else front
  }

  /** A row survives exactly when it was fetched and its year is in the window. */
  lemma {:induction false} KeptRowsMembers(rows: seq<EventRow>, startYear: Option<int>, endYear: Option<int>)
    ensures forall x :: x in KeptRows(rows, startYear, endYear) <==> x in rows && InWindow(ExtractYear(x.eventDate), startYear, endYear)
    decreases |rows|
  {
    if rows != [] {
      var last := rows[|rows| - 1];
      KeptRowsMembers(rows[..|rows| - 1], startYear, endYear);
      assert rows == rows[..|rows| - 1] + [last];
    }
  }

  /** The endpoint's response: the kept rows, each shaped. */
  function EnrichedEvents(rows: seq<EventRow>, startYear: Option<int>, endYear: Option<int>, db: Database): seq<EnrichedEvent>
  {
    EnrichAll(KeptRows(rows, startYear, endYear), db)
  }

  function EnrichAll(kept: seq<EventRow>, db: Database): (r: seq<EnrichedEvent>)
    ensures |r| == |kept|
    ensures forall i :: 0 <= i < |kept| ==> r[i] == Enrich(kept[i], db)
  {
    seq(|kept|, i requires 0 <= i < |kept| => Enrich(kept[i], db))
  }

  lemma EnrichAllSnoc(kept: seq<EventRow>, row: EventRow, db: Database)
    ensures EnrichAll(kept + [row], db) == EnrichAll(kept, db) + [Enrich(row, db)]
  {
    var a := EnrichAll(kept + [row], db);
    var b := EnrichAll(kept, db) + [Enrich(row, db)];
    assert |a| == |b|;
    forall j | 0 <= j < |a| ensures a[j] == b[j] {
      assert (kept + [row])[j] == if j < |kept| then kept[j] else row;
    }
  }

  lemma EnrichUnfolds(row: EventRow, db: Database)
    ensures Enrich(row, db) ==
      ShapeEvent(row, ExtractYear(row.eventDate),
        if db.venueOf(row.id).Some? then Some(RowToLocation(db.venueOf(row.id).value)) else None,
        RowsToPeople(db.participantsOf(row.id), db.loads))
  {
  }

  lemma KeptRowsSnoc(rows: seq<EventRow>, i: int, startYear: Option<int>, endYear: Option<int>)
    requires 0 <= i < |rows|
    ensures KeptRows(rows[..i + 1], startYear, endYear) ==
      if InWindow(ExtractYear(rows[i].eventDate), startYear, endYear)
      then KeptRows(rows[..i], startYear, endYear) + [rows[i]]
      else KeptRows(rows[..i], startYear, endYear)
  {
    assert rows[..i + 1][..i] == rows[..i];
  }

  lemma EnrichedEventsSkip(rows: seq<EventRow>, i: int, startYear: Option<int>, endYear: Option<int>, db: Database)
    requires 0 <= i < |rows| && !InWindow(ExtractYear(rows[i].eventDate), startYear, endYear)
    ensures EnrichedEvents(rows[..i + 1], startYear, endYear, db) == EnrichedEvents(rows[..i], startYear, endYear, db)
  {
    KeptRowsSnoc(rows, i, startYear, endYear);
  }

  lemma EnrichedEventsKeep(rows: seq<EventRow>, i: int, startYear: Option<int>, endYear: Option<int>, db: Database)
    requires 0 <= i < |rows| && InWindow(ExtractYear(rows[i].eventDate), startYear, endYear)
    ensures EnrichedEvents(rows[..i + 1], startYear, endYear, db) ==
      EnrichedEvents(rows[..i], startYear, endYear, db) + [Enrich(rows[i], db)]
  {
    KeptRowsSnoc(rows, i, startYear, endYear);
    EnrichAllSnoc(KeptRows(rows[..i], startYear, endYear), rows[i], db);
  }

  /** The kept branch of the loop, in the loop's own terms. */
  lemma KeepShaped(rows: seq<EventRow>, i: int, startYear: Option<int>, endYear: Option<int>, db: Database,
                   location: Option<Location>, people: seq<Person>)
    requires 0 <= i < |rows| && InWindow(ExtractYear(rows[i].eventDate), startYear, endYear)
    requires location == if db.venueOf(rows[i].id).Some? then Some(RowToLocation(db.venueOf(rows[i].id).value)) else None
    requires people == RowsToPeople(db.participantsOf(rows[i].id), db.loads)
    ensures EnrichedEvents(rows[..i + 1], startYear, endYear, db) ==
      EnrichedEvents(rows[..i], startYear, endYear, db) + [ShapeEvent(rows[i], ExtractYear(rows[i].eventDate), location, people)]
  {
    EnrichUnfolds(rows[i], db);
    EnrichedEventsKeep(rows, i, startYear, endYear, db);
  }

  /** `get_enriched_events` (api_server.py:108-153): the loop over the fetched
      rows, with its two `continue`s on the year bounds. */
  method GetEnrichedEvents(rows: seq<EventRow>, startYear: Option<int>, endYear: Option<int>, db: Database)
    returns (enriched: seq<EnrichedEvent>)
    ensures enriched == EnrichedEvents(rows, startYear, endYear, db)
  {
    enriched := [];
    for i := 0 to |rows|
      invariant enriched == EnrichedEvents(rows[..i], startYear, endYear, db)
    {
      var ev := rows[i];
      var year := ExtractYear(ev.eventDate);
      if startYear.Some? && (year.None? || year.value < startYear.value) {
        EnrichedEventsSkip(rows, i, startYear, endYear, db);
        continue;
      }
      if endYear.Some? && (year.None? || year.value > endYear.value) {
        EnrichedEventsSkip(rows, i, startYear, endYear, db);
        continue;
      }
      var venueRow := db.venueOf(ev.id);
      var location := if venueRow.Some? then Some(RowToLocation(venueRow.value)) else None;
      var personRows := db.participantsOf(ev.id);
      var people := RowsToPeople(personRows, db.loads);
      KeepShaped(rows, i, startYear, endYear, db, location, people);
      enriched := enriched + [ShapeEvent(ev, year, location, people)];
    }
    assert rows[..|rows|] == rows;
  }

  /** Filtering distributes over concatenation, so survivors keep their
      relative order. */
  lemma {:induction false} KeptRowsAppend(a: seq<EventRow>, b: seq<EventRow>, startYear: Option<int>, endYear: Option<int>)
    ensures KeptRows(a + b, startYear, endYear) == KeptRows(a, startYear, endYear) + KeptRows(b, startYear, endYear)
    decreases |b|
  {
    if b == [] {
      assert a + b == a;
    } else {
      var b', last := b[..|b| - 1], b[|b| - 1];
      var ab := a + b;
      assert ab[..|ab| - 1] == a + b';
      assert ab[|ab| - 1] == last;
      KeptRowsAppend(a, b', startYear, endYear);
      if InWindow(ExtractYear(last.eventDate), startYear, endYear) {
        assert KeptRows(ab, startYear, endYear) == KeptRows(a + b', startYear, endYear) + [last];
        assert KeptRows(b, startYear, endYear) == KeptRows(b', startYear, endYear) + [last];
      } else {
        assert KeptRows(ab, startYear, endYear) == KeptRows(a + b', startYear, endYear);
        assert KeptRows(b, startYear, endYear) == KeptRows(b', startYear, endYear);
      }
    }
  }

  /** With neither bound every fetched row is returned. */
  lemma {:induction false} KeptRowsUnbounded(rows: seq<EventRow>)
    ensures KeptRows(rows, None, None) == rows
    decreases |rows|
  {
    if rows != [] {
      KeptRowsUnbounded(rows[..|rows| - 1]);
    }
  }

  /** Without bounds the response lists every row, in order, under its own
      id; a row whose date yields no year comes back with year 0, which the
      website's filter shows for every window. */
  lemma UnboundedResponse(rows: seq<EventRow>, db: Database, lo: int, hi: int)
    ensures |EnrichedEvents(rows, None, None, db)| == |rows|
    ensures forall k :: 0 <= k < |rows| ==> EnrichedEvents(rows, None, None, db)[k].id == rows[k].id
    ensures forall k :: 0 <= k < |rows| && ExtractYear(rows[k].eventDate).None? ==>
              && EnrichedEvents(rows, None, None, db)[k].year == 0
              && App.IsVisible(EnrichedEvents(rows, None, None, db)[k], lo, hi)
  {
    KeptRowsUnbounded(rows);
  }

  /** With a bound given, every returned event has a year from its date, and
      that year meets the bounds; a row whose date yields no year never
      appears. */
  lemma BoundedResponse(rows: seq<EventRow>, startYear: Option<int>, endYear: Option<int>, db: Database, k: int)
    requires startYear.Some? || endYear.Some?
    requires 0 <= k < |EnrichedEvents(rows, startYear, endYear, db)|
    ensures var row := KeptRows(rows, startYear, endYear)[k];
            var y := ExtractYear(row.eventDate);
            && row in rows
            && y.Some?
            && EnrichedEvents(rows, startYear, endYear, db)[k].year == y.value
            && (startYear.None? || startYear.value <= y.value)
            && (endYear.None? || y.value <= endYear.value)
  {
    var kept := KeptRows(rows, startYear, endYear);
    KeptRowsMembers(rows, startYear, endYear);
    assert kept[k] in kept;
  }
}
