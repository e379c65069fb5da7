/** The shared filter and selection state of the website (Website/App.tsx):
    the loaded events, the year window chosen with the two slider thumbs, the
    visible subset derived from them, and the single selected event id.

    The pure parts (the visibility filter, the derivation of the year bounds,
    the thumb clamps, the thumb percentages and the lookup of the selected
    event) are functions; the state that the React setters update is the class
    `AppState`. Each state change also re-runs the filter effect of
    App.tsx:59-65, so `displayEvents` is always the filter of the current
    events and window. */
module App {
  import opened Domain

  const InitialMinYear: int := 1900
  const InitialMaxYear: int := 1950
  const FallbackMinYear: int := 1850
  const FallbackMaxYear: int := FallbackMinYear + 50

  /** The filter test of App.tsx:61-62: a year of 0 (missing or NaN) or below
      is always visible, otherwise the year must be inside [lo, hi]. */
  predicate IsVisible(e: EnrichedEvent, lo: int, hi: int)
  {
    e.year == 0 || e.year <= 0 || (e.year >= lo && e.year <= hi)
  }

  /** `enrichedEvents.filter(...)`. */
  function VisibleEvents(events: seq<EnrichedEvent>, lo: int, hi: int): (r: seq<EnrichedEvent>)
    ensures |r| <= |events|
  {
    if events == [] then []
    else
      var rest := VisibleEvents(events[1..], lo, hi);
      if IsVisible(events[0], lo, hi) then [events[0]] + rest else rest
  }

  /** An event is visible exactly when it is loaded and passes the test. */
  lemma {:induction false} VisibleEventsMembers(events: seq<EnrichedEvent>, lo: int, hi: int)
    ensures forall e :: e in VisibleEvents(events, lo, hi) <==> e in events && IsVisible(e, lo, hi)
    decreases |events|
  {
    if events != [] {
      VisibleEventsMembers(events[1..], lo, hi);
      assert forall e :: e in events <==> e == events[0] || e in events[1..];
    }
  }

  /** The filter keeps the input order: it distributes over concatenation. */
  lemma {:induction false} VisibleEventsAppend(a: seq<EnrichedEvent>, b: seq<EnrichedEvent>, lo: int, hi: int)
    ensures VisibleEvents(a + b, lo, hi) == VisibleEvents(a, lo, hi) + VisibleEvents(b, lo, hi)
    decreases |a|
  {
    if a == [] {
      assert a + b == b;
    } else {
      assert (a + b)[0] == a[0];
      assert (a + b)[1..] == a[1..] + b;
      VisibleEventsAppend(a[1..], b, lo, hi);
      var ra := VisibleEvents(a[1..], lo, hi);
      var rb := VisibleEvents(b, lo, hi);
      if IsVisible(a[0], lo, hi) {
        assert VisibleEvents(a + b, lo, hi) == [a[0]] + (ra + rb);
      } else {
        assert VisibleEvents(a + b, lo, hi) == ra + rb;
      }
    }
  }

  /** Each event is kept as often as it occurs, when visible, and dropped
      otherwise. */
  lemma {:induction false} VisibleEventsCount(events: seq<EnrichedEvent>, lo: int, hi: int)
    ensures forall e :: multiset(VisibleEvents(events, lo, hi))[e] == if IsVisible(e, lo, hi) then multiset(events)[e] else 0
    decreases |events|
  {
    if events != [] {
      VisibleEventsCount(events[1..], lo, hi);
      assert events == [events[0]] + events[1..];
      assert multiset(events) == multiset{events[0]} + multiset(events[1..]);
    }
  }

  /** Undated events survive every window. */
  lemma UndatedAlwaysVisible(events: seq<EnrichedEvent>, lo: int, hi: int)
    ensures forall e :: e in events && e.year <= 0 ==> e in VisibleEvents(events, lo, hi)
  {
    VisibleEventsMembers(events, lo, hi);
  }

  /** The years that count as valid: numbers above 0 (App.tsx:35-37). */
  function ValidYears(events: seq<EnrichedEvent>): (ys: seq<int>)
    ensures forall e :: e in events && e.year > 0 ==> e.year in ys
    ensures forall y :: y in ys ==> y > 0 && exists e :: e in events && e.year == y
  {
    if events == [] then []
    else
      assert forall e :: e in events <==> e == events[0] || e in events[1..];
      (if events[0].year > 0 then [events[0].year] else []) + ValidYears(events[1..])
  }

  /** `Math.min(...ys)` on a non-empty list. */
  function MinOf(ys: seq<int>): (m: int)
    requires |ys| > 0
    ensures m in ys && forall y :: y in ys ==> m <= y
  {
    if |ys| == 1 then ys[0]
    else
      var rest := MinOf(ys[1..]);
      assert ys == [ys[0]] + ys[1..];
      if ys[0] <= rest then ys[0] else rest
  }

  /** `Math.max(...ys)` on a non-empty list. */
  function MaxOf(ys: seq<int>): (m: int)
    requires |ys| > 0
    ensures m in ys && forall y :: y in ys ==> y <= m
  {
    if |ys| == 1 then ys[0]
    else
      var rest := MaxOf(ys[1..]);
      assert ys == [ys[0]] + ys[1..];
      if ys[0] >= rest then ys[0] else rest
  }

  /** The slider bounds derived on load (App.tsx:35-44): the least valid
      year, or 1850 when there is none; and the largest valid year, or 1900,
      raised to at least one above the lower bound. */
  function DeriveBounds(events: seq<EnrichedEvent>): (b: (int, int))
    ensures b.0 < b.1
    ensures (forall e :: e in events ==> e.year <= 0) ==> b == (FallbackMinYear, FallbackMaxYear)
    ensures (exists e :: e in events && e.year > 0) ==>
              && (exists e :: e in events && e.year > 0 && e.year == b.0)
              && (forall e :: e in events && e.year > 0 ==> b.0 <= e.year <= b.1)
              && (b.1 == b.0 + 1 || exists e :: e in events && e.year > 0 && e.year == b.1)
  {
    var ys := ValidYears(events);
    var lo := if |ys| > 0 then MinOf(ys) else FallbackMinYear;
    var hi := if |ys| > 0 then MaxOf(ys) else FallbackMaxYear;
    assert |ys| > 0 ==> ys[0] in ys;
    (lo, if hi > lo + 1 then hi else lo + 1)
  }

  /** The low thumb's `onChange` (App.tsx:108): `[min(v, hi - 1), hi]`. */
  function MoveLow(v: int, window: (int, int)): (r: (int, int))
    ensures r.1 == window.1 && r.0 < r.1
    ensures r.0 <= v && (r.0 == v || r.0 == window.1 - 1)
  {
    (if v < window.1 - 1 then v else window.1 - 1, window.1)
  }

  /** The high thumb's `onChange` (App.tsx:116): `[lo, max(v, lo + 1)]`. */
  function MoveHigh(v: int, window: (int, int)): (r: (int, int))
    ensures r.0 == window.0 && r.0 < r.1
    ensures r.1 >= v && (r.1 == v || r.1 == window.0 + 1)
  {
    (window.0, if v > window.0 + 1 then v else window.0 + 1)
  }

  /** A thumb value taken from the slider's own [minYear, maxYear] keeps a
      window inside those bounds inside them. */
  lemma ThumbEditsStayInBounds(v: int, window: (int, int), minYear: int, maxYear: int)
    requires minYear <= window.0 < window.1 <= maxYear
    requires minYear <= v <= maxYear
    ensures minYear <= MoveLow(v, window).0 < MoveLow(v, window).1 <= maxYear
    ensures minYear <= MoveHigh(v, window).0 < MoveHigh(v, window).1 <= maxYear
  {
  }

  /** `Math.max(1, maxYear - minYear)` (App.tsx:72). */
  function SliderSpan(minYear: int, maxYear: int): (r: int)
    ensures r >= 1 && r >= maxYear - minYear
    ensures r == 1 || r == maxYear - minYear
  {
    if maxYear - minYear > 1 then maxYear - minYear else 1
  }

  /** `Math.min(100, Math.max(0, value))` (App.tsx:73). */
  function ClampPercent(value: real): (r: real)
    ensures 0.0 <= r <= 100.0
    ensures 0.0 <= value <= 100.0 ==> r == value
    ensures value < 0.0 ==> r == 0.0
    ensures value > 100.0 ==> r == 100.0
  {
    var atLeastZero := if value > 0.0 then value else 0.0;
    if atLeastZero < 100.0 then atLeastZero else 100.0
  }

  /** The position of a thumb as a percentage of the slider (App.tsx:74-75). */
  function ThumbPercent(year: int, minYear: int, maxYear: int): (r: real)
    ensures 0.0 <= r <= 100.0
  {
    ClampPercent(((year - minYear) as real / SliderSpan(minYear, maxYear) as real) * 100.0)
  }

  /** Inside the bounds the percentage is exact, and a thumb further right is
      drawn no further left. */
  lemma {:induction false} ThumbPercentMonotone(a: int, b: int, minYear: int, maxYear: int)
    requires a <= b
    ensures ThumbPercent(a, minYear, maxYear) <= ThumbPercent(b, minYear, maxYear)
  {
    var s := SliderSpan(minYear, maxYear) as real;
    var x := (a - minYear) as real;
    var y := (b - minYear) as real;
    assert x <= y;
    DivMonotone(x, y, s);
    assert (x / s) * 100.0 <= (y / s) * 100.0;
  }

  lemma DivMonotone(x: real, y: real, s: real)
    requires x <= y && s > 0.0
    ensures x / s <= y / s
  {
    assert y / s - x / s == (y - x) / s;
  }

  lemma ThumbPercentInBounds(year: int, minYear: int, maxYear: int)
    requires minYear < maxYear && minYear <= year <= maxYear
    ensures ThumbPercent(year, minYear, maxYear) == ((year - minYear) as real / (maxYear - minYear) as real) * 100.0
  {
    var s := (maxYear - minYear) as real;
    var x := (year - minYear) as real;
    assert SliderSpan(minYear, maxYear) as real == s;
    DivMonotone(x, s, s);
    DivMonotone(0.0, x, s);
    assert s / s == 1.0;
  }

  /** `displayEvents.find(e => e.id === selectedEventId)` (App.tsx:71). */
  function FindSelected(events: seq<EnrichedEvent>, id: Option<string>): (r: Option<EnrichedEvent>)
    ensures r.Some? <==> id.Some? && exists e :: e in events && e.id == id.value
    ensures r.Some? ==> exists i :: 0 <= i < |events| && events[i] == r.value && r.value.id == id.value
                                    && forall j :: 0 <= j < i ==> events[j].id != id.value
  {
    if id.None? || events == [] then None
    else if events[0].id == id.value then Some(events[0])
    else
      var r := FindSelected(events[1..], id);
      assert events == [events[0]] + events[1..];
      if r.Some? then
        ghost var i :| 0 <= i < |events[1..]| && events[1..][i] == r.value && r.value.id == id.value
                       && forall j :: 0 <= j < i ==> events[1..][j].id != id.value;
        assert events[i + 1] == r.value;
        r
      else r
  }

  class AppState {
    var enrichedEvents: seq<EnrichedEvent>
    var displayEvents: seq<EnrichedEvent>
    var loading: bool
    var selectedEventId: Option<string>
    var yearRange: (int, int)
    var minYear: int
    var maxYear: int

    /** The window is non-empty with lo < hi, the bounds are ordered, and the
        filter effect has run for the current events and window. */
    ghost predicate Valid()
      reads this
    {
      && yearRange.0 < yearRange.1
      && minYear < maxYear
      && displayEvents == VisibleEvents(enrichedEvents, yearRange.0, yearRange.1)
    }

    predicate WindowInBounds()
      reads this
    {
      minYear <= yearRange.0 && yearRange.1 <= maxYear
    }

    /** The initial `useState` values (App.tsx:13-22). */
    constructor ()
      ensures Valid() && WindowInBounds()
      ensures enrichedEvents == [] && displayEvents == [] && !loading && selectedEventId == None
      ensures yearRange == (InitialMinYear, InitialMaxYear)
      ensures minYear == InitialMinYear && maxYear == InitialMaxYear
    {
      enrichedEvents := [];
      displayEvents := [];
      loading := false;
      selectedEventId := None;
      yearRange := (InitialMinYear, InitialMaxYear);
      minYear := InitialMinYear;
      maxYear := InitialMaxYear;
    }

    /** Re-runs the filter effect of App.tsx:59-65. */
    method RefreshDisplay()
      modifies this`displayEvents
      ensures displayEvents == VisibleEvents(enrichedEvents, yearRange.0, yearRange.1)
    {
      var filtered: seq<EnrichedEvent> := [];
      for i := 0 to |enrichedEvents|
        invariant filtered == VisibleEvents(enrichedEvents[..i], yearRange.0, yearRange.1)
      {
        var e := enrichedEvents[i];
        VisibleEventsAppend(enrichedEvents[..i], [e], yearRange.0, yearRange.1);
        assert enrichedEvents[..i + 1] == enrichedEvents[..i] + [e];
        if IsVisible(e, yearRange.0, yearRange.1) {
          filtered := filtered + [e];
        }
      }
      assert enrichedEvents[..|enrichedEvents|] == enrichedEvents;
      displayEvents := filtered;
    }

    /** `setLoading(true)` before the fetch. */
    method BeginLoad()
      requires Valid()
      modifies this`loading
      ensures Valid() && loading
    {
      loading := true;
    }

    /** A successful fetch (App.tsx:32-44, 49-50): the events are replaced, the
        first event is selected when there is one, the bounds are derived and
        the window is reset to them. */
    method LoadSucceeded(data: seq<EnrichedEvent>)
      requires Valid()
      modifies this
      ensures Valid() && WindowInBounds() && !loading
      ensures enrichedEvents == data
      ensures selectedEventId == if |data| > 0 then Some(data[0].id) else old(selectedEventId)
      ensures (minYear, maxYear) == DeriveBounds(data)
      ensures yearRange == (minYear, maxYear)
    {
      var bounds := DeriveBounds(data);
      enrichedEvents := data;
      if |data| > 0 {
        selectedEventId := Some(data[0].id);
      }
      ResetWindow(bounds);
      loading := false;
    }

    /** `setMinYear`, `setMaxYear` and `setYearRange` with the derived bounds
        (App.tsx:42-44), followed by the filter effect. */
    method ResetWindow(bounds: (int, int))
      requires bounds.0 < bounds.1
      modifies this`minYear, this`maxYear, this`yearRange, this`displayEvents
      ensures minYear == bounds.0 && maxYear == bounds.1 && yearRange == bounds
      ensures Valid() && WindowInBounds()
    {
      minYear, maxYear := bounds.0, bounds.1;
      yearRange := bounds;
      RefreshDisplay();
    }

    /** A failed fetch (App.tsx:45-50): the events fall back to the empty
        list; bounds, window and selection stay as they were. */
    method LoadFailed()
      requires Valid()
      modifies this
      ensures Valid() && !loading
      ensures enrichedEvents == [] && displayEvents == []
      ensures yearRange == old(yearRange) && minYear == old(minYear) && maxYear == old(maxYear)
      ensures selectedEventId == old(selectedEventId)
      ensures WindowInBounds() == old(WindowInBounds())
    {
      enrichedEvents := [];
      RefreshDisplay();
      loading := false;
    }

    /** The low thumb's `onChange` (App.tsx:108). */
    method MoveLowThumb(v: int)
      requires Valid()
      modifies this
      ensures Valid()
      ensures yearRange == MoveLow(v, old(yearRange))
      ensures enrichedEvents == old(enrichedEvents) && selectedEventId == old(selectedEventId)
      ensures minYear == old(minYear) && maxYear == old(maxYear) && loading == old(loading)
      ensures old(WindowInBounds()) && minYear <= v <= maxYear ==> WindowInBounds()
    {
      yearRange := MoveLow(v, yearRange);
      RefreshDisplay();
    }

    /** The high thumb's `onChange` (App.tsx:116). */
    method MoveHighThumb(v: int)
      requires Valid()
      modifies this
      ensures Valid()
      ensures yearRange == MoveHigh(v, old(yearRange))
      ensures enrichedEvents == old(enrichedEvents) && selectedEventId == old(selectedEventId)
      ensures minYear == old(minYear) && maxYear == old(maxYear) && loading == old(loading)
      ensures old(WindowInBounds()) && minYear <= v <= maxYear ==> WindowInBounds()
    {
      yearRange := MoveHigh(v, yearRange);
      RefreshDisplay();
    }

    /** `handleSelectEvent` (App.tsx:67-69): the id is stored verbatim. */
    method SelectEvent(id: string)
      requires Valid()
      modifies this`selectedEventId
      ensures Valid() && selectedEventId == Some(id)
    {
      selectedEventId := Some(id);
    }

    /** The close button of the detail panel (App.tsx:203). */
    method CloseDetail()
      requires Valid()
      modifies this`selectedEventId
      ensures Valid() && selectedEventId == None
    {
      selectedEventId := None;
    }

    /** The event shown in the detail panel, if any (App.tsx:71, 198). */
    function SelectedEvent(): (r: Option<EnrichedEvent>)
      reads this
      ensures r.Some? <==> selectedEventId.Some? && exists e :: e in displayEvents && e.id == selectedEventId.value
      ensures r.Some? ==> r.value in displayEvents && r.value.id == selectedEventId.value
    {
      FindSelected(displayEvents, selectedEventId)
    }

    function StartPercent(): (r: real)
      reads this
      ensures 0.0 <= r <= 100.0
    {
      ThumbPercent(yearRange.0, minYear, maxYear)
    }

    function EndPercent(): (r: real)
      reads this
      ensures 0.0 <= r <= 100.0
    {
      ThumbPercent(yearRange.1, minYear, maxYear)
    }
  }

  /** Moving a thumb keeps the selected id; the panel is then shown exactly
      when that id is still among the visible events. */
  method WindowChangeKeepsSelection(s: AppState, v: int, low: bool)
    requires s.Valid()
    modifies s
    ensures s.Valid() && s.selectedEventId == old(s.selectedEventId)
    ensures s.SelectedEvent().Some? <==>
              s.selectedEventId.Some? && exists e :: e in s.enrichedEvents && e.id == s.selectedEventId.value
                                                     && IsVisible(e, s.yearRange.0, s.yearRange.1)
  {
    if low {
      s.MoveLowThumb(v);
    } else {
      s.MoveHighThumb(v);
    }
    VisibleEventsMembers(s.enrichedEvents, s.yearRange.0, s.yearRange.1);
  }
}
