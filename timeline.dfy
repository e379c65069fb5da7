/** The timeline list (Website/components/Timeline.tsx): a sorted copy of the
    visible events, one card per event, the selected one highlighted.

    The comparator orders by year and, for equal years where both events
    carry a date, by the date string. `localeCompare` is modelled as plain
    lexicographic order on character codes; the real order depends on the
    browser's locale. The comparator is not transitive: with equal years, an
    undated event ties with both of two dated events that are themselves
    ordered. ECMAScript leaves the result of `sort` implementation-defined for
    such a comparator, so `SortEvents` fixes one stable algorithm, insertion
    from the right, which agrees with the binary insertion sort browsers use
    on short arrays for the counterexample below. */
module Timeline {
  import opened Domain

  /** Lexicographic comparison by character code: -1, 0 or 1. */
  function CompareStrings(a: string, b: string): int
  {
    if a == [] && b == [] then 0
    else if a == [] then -1
    else if b == [] then 1
    else if a[0] < b[0] then -1
    else if a[0] > b[0] then 1
    else CompareStrings(a[1..], b[1..])
  }

  lemma {:induction false} CompareStringsAntisymmetric(a: string, b: string)
    ensures -1 <= CompareStrings(a, b) <= 1
    ensures CompareStrings(a, b) == -CompareStrings(b, a)
    ensures CompareStrings(a, b) == 0 <==> a == b
    decreases |a|
  {
    if a != [] && b != [] && a[0] == b[0] {
      CompareStringsAntisymmetric(a[1..], b[1..]);
      assert a == [a[0]] + a[1..] && b == [b[0]] + b[1..];
    }
  }

  lemma {:induction false} CompareStringsTransitive(a: string, b: string, c: string)
    requires CompareStrings(a, b) <= 0 && CompareStrings(b, c) <= 0
    ensures CompareStrings(a, c) <= 0
    decreases |a|
  {
    if a != [] && b != [] && c != [] && a[0] == b[0] && b[0] == c[0] {
      CompareStringsTransitive(a[1..], b[1..], c[1..]);
    }
  }

  /** A shared prefix does not change the comparison. */
  lemma {:induction false} CompareStringsCommonPrefix(p: string, x: string, y: string)
    ensures CompareStrings(p + x, p + y) == CompareStrings(x, y)
    decreases |p|
  {
    if p != [] {
      assert (p + x)[0] == p[0] && (p + y)[0] == p[0];
      assert (p + x)[1..] == p[1..] + x;
      assert (p + y)[1..] == p[1..] + y;
      assert CompareStrings(p + x, p + y) == CompareStrings(p[1..] + x, p[1..] + y);
      CompareStringsCommonPrefix(p[1..], x, y);
    } else {
      assert p + x == x && p + y == y;
    }
  }

  /** The comparator passed to `sort` (Timeline.tsx:15-19). */
  function Compare(a: EnrichedEvent, b: EnrichedEvent): int
  {
    if a.year != b.year then a.year - b.year
    else if HasDate(a) && HasDate(b) then CompareStrings(a.eventDate.value, b.eventDate.value)
    else 0
  }

  function Sign(x: int): int
  {
    if x < 0 then -1 else if x > 0 then 1 else 0
  }

  /** The comparator orders first by year; equal years fall back to the date
      strings only when both are present, and tie otherwise; and swapping the
      arguments flips the sign. */
  lemma CompareProperties(a: EnrichedEvent, b: EnrichedEvent)
    ensures Sign(Compare(a, b)) == -Sign(Compare(b, a))
    ensures a.year < b.year ==> Compare(a, b) < 0
    ensures a.year == b.year && !(HasDate(a) && HasDate(b)) ==> Compare(a, b) == 0
    ensures a.year == b.year && HasDate(a) && HasDate(b) ==>
              Sign(Compare(a, b)) == CompareStrings(a.eventDate.value, b.eventDate.value)
  {
    if a.year == b.year && HasDate(a) && HasDate(b) {
      CompareStringsAntisymmetric(a.eventDate.value, b.eventDate.value);
    }
  }

  /** Every neighbouring pair is in comparator order. */
  predicate Sorted(s: seq<EnrichedEvent>)
  {
    forall i :: 0 <= i < |s| - 1 ==> Compare(s[i], s[i + 1]) <= 0
  }

  /** One step of insertion sort: x moves left past every element that
      compares greater than it, and stops at the first one that does not. */
  function Insert(x: EnrichedEvent, s: seq<EnrichedEvent>): (r: seq<EnrichedEvent>)
    ensures |r| == |s| + 1
    ensures multiset(r) == multiset(s) + multiset{x}
    ensures r[|r| - 1] == x || (s != [] && r[|r| - 1] == s[|s| - 1])
    ensures Sorted(s) ==> Sorted(r)
  {
    if s == [] || Compare(s[|s| - 1], x) <= 0 then s + [x]
    else
      var front := s[..|s| - 1];
      var last := s[|s| - 1];
      var r := Insert(x, front) + [last];
      assert s == front + [last];
      CompareProperties(last, x);
      r
  }

  /** `[...events].sort(...)`: the input is never changed; the result is a
      new, sorted list. */
  function SortEvents(events: seq<EnrichedEvent>): (r: seq<EnrichedEvent>)
    ensures |r| == |events|
    ensures multiset(r) == multiset(events)
    ensures Sorted(r)
  {
    if events == [] then []
    else
      var front := events[..|events| - 1];
      assert events == front + [events[|events| - 1]];
      Insert(events[|events| - 1], SortEvents(front))
  }

  /** Years are non-decreasing along a sorted list. */
  lemma {:induction false} SortedYears(s: seq<EnrichedEvent>, i: int, j: int)
    requires Sorted(s) && 0 <= i <= j < |s|
    ensures s[i].year <= s[j].year
    decreases j - i
  {
    if i < j {
      SortedYears(s, i + 1, j);
      assert Compare(s[i], s[i + 1]) <= 0;
    }
  }

  /** Over a stretch of dated events of one year, a sorted list follows the
      date strings. */
  lemma {:induction false} SortedDatedRun(s: seq<EnrichedEvent>, i: int, j: int)
    requires Sorted(s) && 0 <= i <= j < |s| && s[i].year == s[j].year
    requires HasDate(s[i]) && HasDate(s[j])
    requires forall k :: i <= k <= j ==> HasDate(s[k])
    ensures CompareStrings(s[i].eventDate.value, s[j].eventDate.value) <= 0
    decreases j - i
  {
    if i == j {
      CompareStringsAntisymmetric(s[i].eventDate.value, s[i].eventDate.value);
    } else {
      SortedYears(s, i, j - 1);
      SortedYears(s, j - 1, j);
      SortedYears(s, i, i);
      assert s[j - 1].year == s[j].year;
      SortedDatedRun(s, i, j - 1);
      assert Compare(s[j - 1], s[j]) <= 0;
      CompareStringsTransitive(s[i].eventDate.value, s[j - 1].eventDate.value, s[j].eventDate.value);
    }
  }

  /** The properties of the timeline order, on the list the view renders. */
  lemma SortEventsOrdered(events: seq<EnrichedEvent>)
    ensures forall i, j :: 0 <= i <= j < |SortEvents(events)| ==> SortEvents(events)[i].year <= SortEvents(events)[j].year
  {
    var r := SortEvents(events);
    forall i, j | 0 <= i <= j < |r| ensures r[i].year <= r[j].year {
      SortedYears(r, i, j);
    }
  }

  /** An undated event between two dated events of the same year ties with
      both, so the sort leaves them as they came even when the later date is
      first: the list is not in date order within the year. */
  lemma UndatedEventBlocksDateOrder(a: EnrichedEvent, b: EnrichedEvent, c: EnrichedEvent)
    requires a.year == b.year == c.year
    requires HasDate(a) && !HasDate(b) && HasDate(c)
    requires CompareStrings(a.eventDate.value, c.eventDate.value) > 0
    ensures SortEvents([a, b, c]) == [a, b, c]
  {
    assert Compare(a, b) == 0 && Compare(b, c) == 0;
    assert [a][..0] == [];
    assert SortEvents([a]) == Insert(a, []) == [a];
    assert [a, b][..1] == [a];
    assert SortEvents([a, b]) == Insert(b, [a]) == [a, b];
    assert [a, b, c][..2] == [a, b];
  }

  /** Two such dates: May comes after January. */
  lemma LaterDateComparesGreater()
    ensures CompareStrings("1920-05-01", "1920-01-01") > 0
  {
    assert "1920-05-01" == "1920-0" + "5-01";
    assert "1920-01-01" == "1920-0" + "1-01";
    CompareStringsCommonPrefix("1920-0", "5-01", "1-01");
  }

  /** A concrete case: three events of 1920, dated May, undated and dated
      January, keep that order, so May is drawn before January. */
  lemma MayBeforeJanuary()
    ensures var may := EnrichedEvent("may", "", "", Some("1920-05-01"), Some(Exact), 1920, None, []);
            var circa := EnrichedEvent("circa", "", "", None, Some(Unknown), 1920, None, []);
            var jan := EnrichedEvent("jan", "", "", Some("1920-01-01"), Some(Exact), 1920, None, []);
            SortEvents([may, circa, jan]) == [may, circa, jan]
  {
    var may := EnrichedEvent("may", "", "", Some("1920-05-01"), Some(Exact), 1920, None, []);
    var circa := EnrichedEvent("circa", "", "", None, Some(Unknown), 1920, None, []);
    var jan := EnrichedEvent("jan", "", "", Some("1920-01-01"), Some(Exact), 1920, None, []);
    LaterDateComparesGreater();
    UndatedEventBlocksDateOrder(may, circa, jan);
  }

  /** A rendered card: whose event it is, whether it is highlighted, and the
      date badge, which reads "Circa" for an event without a date. */
  datatype Card = Card(eventId: string, selected: bool, dateLabel: string)

  function CardOf(e: EnrichedEvent, selectedEventId: Option<string>): Card
  {
    Card(e.id, selectedEventId == Some(e.id), if HasDate(e) then e.eventDate.value else "Circa")
  }

  datatype TimelineView = Placeholder | Cards(cards: seq<Card>)

  /** What the component renders (Timeline.tsx:29-63): a placeholder for an
      empty list, otherwise one card per event in timeline order, marked
      selected exactly when its id is the selected id, so at most the cards
      of events sharing that id are highlighted. */
  function RenderTimeline(events: seq<EnrichedEvent>, selectedEventId: Option<string>): (v: TimelineView)
    ensures v.Placeholder? <==> |events| == 0
    ensures v.Cards? ==> |v.cards| == |events|
    ensures v.Cards? ==> forall i :: 0 <= i < |v.cards| ==>
              && v.cards[i].eventId == SortEvents(events)[i].id
              && (v.cards[i].selected <==> selectedEventId == Some(v.cards[i].eventId))
              && v.cards[i].dateLabel == (if HasDate(SortEvents(events)[i]) then SortEvents(events)[i].eventDate.value else "Circa")
    ensures v.Cards? ==> forall e :: e in events ==> exists i :: 0 <= i < |v.cards| && v.cards[i].eventId == e.id
  {
    if |events| == 0 then Placeholder
    else
      var sorted := SortEvents(events);
      SortEventsKeepsAll(events);
      Cards(seq(|sorted|, i requires 0 <= i < |sorted| => CardOf(sorted[i], selectedEventId)))
  }

  /** Every event is somewhere in the sorted list. */
  lemma SortEventsKeepsAll(events: seq<EnrichedEvent>)
    ensures forall e :: e in events ==> e in SortEvents(events)
  {
    var sorted := SortEvents(events);
    forall e | e in events ensures e in sorted {
      assert e in multiset(events);
      assert e in multiset(sorted);
    }
  }
}
