# Historian Assistant: a verified model of the event graph, filter and API core

Historian Assistant shows historical events, with the people and places in them, in three linked views: a map, a timeline and a force-directed network of people and locations. A single year window and a single selection are shared by all three views. A small Python API serves the events from SQLite, and Pydantic models describe the extracted records.

This project models the parts of that system that compute something, and proves properties of each:

- **Graph builder** (`network_graph.dfy`, module `NetworkGraph`).
  - The builder turns the visible events into a node list keyed by id and a link list, using the same nested loops, first-seen-wins insertion and linear duplicate scan as the source.
  - `Build` is a step-by-step functional fold that specifies the builder. `BuildGraph` is the loop itself, proved equal to `Build`.
  - Lemmas relate `Build` to independent descriptions of the expected result.
  - Clicking a node resolves to the first event that refers to it.
- **Filter and selection state** (`app_state.dfy`, module `App`).
  - The class `AppState` holds the React state: events, visible events, window, bounds and selected id. Its methods are the loading, slider and selection handlers.
  - Pure functions model the visibility filter, the derivation of the bounds, the thumb clamps and the thumb percentages.
- **Timeline** (`timeline.dfy`, module `Timeline`): the comparator, the sort of a copy of the events, and the cards rendered from the sorted list.
- **Backend** (`api_server.dfy`, module `ApiServer`).
  - Python's `int()` as `_extract_year` uses it.
  - The lenient JSON list parse.
  - Row shaping.
  - The filter-and-shape loop of `/events/enriched`: the method `GetEnrichedEvents`, proved equal to the function `EnrichedEvents`.
- **Field validation** (`validation.dfy`, module `Validation`; `simple_models.dfy`, module `SimpleModels`; `artifact_models.dfy`, module `ArtifactModels`).
  - The `page_range` validator. `Models/simple_models.py:36-41` and `Models/artifact_models.py:19-24` define it identically, so it is modelled once.
  - The match-score bounds and the status default.
  - A constructor per constrained record, returning the record or its field errors.

`domain.dfy` (module `Domain`) holds the shared shapes of `Website/types.ts`. A year of 0 stands for "no year", as the API writes it and as the website's `!e.year` test treats it.

Two behaviours of the code are worth stating outright:

- **Person-to-location links are not deduplicated.** One is pushed for every (event with a location, person of that event) pair, with no duplicate check (`Website/components/NetworkGraph.tsx:67-74`). A person listed twice at one event gets two identical person-to-location links: `LocatedAtExact` states this, and `PersonListedTwiceLinksTwice` shows the duplicate. Only co-occurrence links are deduplicated, and their check is against a link of any kind.
- **An empty load keeps the previous selection.** The selection is only set when the data is non-empty (`Website/App.tsx:33`).

## Model

| member | source | states |
|---|---|---|
| NetworkGraph.FindLink | Website/components/NetworkGraph.tsx:80-83 | the scan finds nothing exactly when no link joins the two ids in either orientation; otherwise it returns the first link that does |
| NetworkGraph.Build | Website/components/NetworkGraph.tsx:37-97 | specification function defining the graph the builder produces: the events in order; per event its location node, then per person its node, its person-to-location link and its co-occurrence links |
| NetworkGraph.BuildGraph | Website/components/NetworkGraph.tsx:37-97 | the nested loops compute `Build(events)`. Node ids are unique and are exactly the ids some event refers to. Every link endpoint is a node. The person-to-location links are exactly the expected list. Co-occurrence links are fresh and cover every co-occurring pair |
| NetworkGraph.BuildProperties | Website/components/NetworkGraph.tsx:37-97 | the graph `Build` describes has unique node ids, exactly the referenced ids as nodes, link endpoints among the nodes, the expected person-to-location links, fresh co-occurrence links and a link for every co-occurring pair |
| NetworkGraph.GraphEffect | Website/components/NetworkGraph.tsx:30-31 | nothing is built when the event list is empty or the view is not mounted; otherwise the built graph is `Build(events)` |
| NetworkGraph.FirstRelated | Website/components/NetworkGraph.tsx:146-149 | the result is the index of the first event that names the id among its people or as its location; it is absent only if no event does |
| NetworkGraph.ClickSelection | Website/components/NetworkGraph.tsx:144-151 | a click selects something exactly when some event refers to the node id, and then it selects the id of the first such event |
| NetworkGraph.BuildNodesFromMentions | Website/components/NetworkGraph.tsx:40-64 | the node list is the first-seen-wins insertion of the flat list of mentions: each event's location, then its people |
| NetworkGraph.NodeIdsUnique | Website/components/NetworkGraph.tsx:43-64 | no two nodes share an id |
| NetworkGraph.NodeIdsExact | Website/components/NetworkGraph.tsx:40-65 | the node ids are exactly the location ids of events that have one, together with all person ids |
| NetworkGraph.MentionedIdsMeaning | Website/components/NetworkGraph.tsx:40-65 | an id is among the mentioned ids exactly when some event has it as a person or as its location |
| NetworkGraph.FirstSeenWins | Website/components/NetworkGraph.tsx:43-64 | the node kept for an id is the first mention with that id, so a later event never changes its label, type or radius |
| NetworkGraph.AddNodesFirstSeenWins | Website/components/NetworkGraph.tsx:43-64 | inserting a list of proposals keeps, for each id, the first proposal carrying it |
| NetworkGraph.BuildOnlyAppends | Website/components/NetworkGraph.tsx:40-95 | processing more events only appends nodes and links; the ones already built stay in place |
| NetworkGraph.LocatedAtExact | Website/components/NetworkGraph.tsx:67-74 | the person-to-location links, in order, are one link per (event with a location, entry of its people), with no deduplication |
| NetworkGraph.PersonListedTwiceLinksTwice | Website/components/NetworkGraph.tsx:67-74 | a person listed twice in an event with a location gets two identical person-to-location links |
| NetworkGraph.CoLinksDeduplicated | Website/components/NetworkGraph.tsx:77-92 | every co-occurrence link has value 2 and is not a self-link. No earlier link of any kind joins its ends, so no two co-occurrence links join the same unordered pair |
| NetworkGraph.CoOccurrenceCovered | Website/components/NetworkGraph.tsx:77-92 | any two distinct people appearing in the same event are joined by a link in some orientation |
| NetworkGraph.LinkEndpointsAreNodes | Website/components/NetworkGraph.tsx:42-74 | every link's source and target is the id of an output node |
| NetworkGraph.ClickAlwaysSelects | Website/components/NetworkGraph.tsx:144-151 | clicking any node built from the events selects an event |
| NetworkGraph.SharedLocationScenario | Website/components/NetworkGraph.tsx:40-95 | two people at one location in two events, who meet in a third event, give three nodes and exactly three links: two person-to-location links and one co-occurrence link |
| App.IsVisible | Website/App.tsx:61-62 | specification predicate defining the filter test: a year of 0 or below is always visible, any other year must lie in the window |
| App.VisibleEvents | Website/App.tsx:60-63 | specification function defining the filter in input order; the visible list is never longer than the input |
| App.VisibleEventsMembers | Website/App.tsx:59-63 | an event is visible exactly when it belongs to the loaded events and either its year is 0 or below, or the year lies inside the window |
| App.VisibleEventsAppend | Website/App.tsx:60-63 | the filter distributes over concatenation, so visible events keep their input order |
| App.VisibleEventsCount | Website/App.tsx:60-63 | a visible event occurs as often as in the input; a hidden one not at all |
| App.UndatedAlwaysVisible | Website/App.tsx:61 | an event with year 0 or below is visible in every window |
| App.ValidYears | Website/App.tsx:35-37 | the valid years are exactly the positive years of the events |
| App.MinOf | Website/App.tsx:40 | the result is one of the years and no year is smaller |
| App.MaxOf | Website/App.tsx:41 | the result is one of the years and no year is larger |
| App.DeriveBounds | Website/App.tsx:35-44 | the lower bound is the least positive year, or 1850 if there is none. The upper bound is the largest positive year, or 1900, raised to at least the lower bound + 1. The bounds are strictly ordered |
| App.MoveLow | Website/App.tsx:108 | the low thumb becomes `min(v, hi - 1)`; the high end is unchanged and the window stays non-empty |
| App.MoveHigh | Website/App.tsx:116 | the high thumb becomes `max(v, lo + 1)`; the low end is unchanged and the window stays non-empty |
| App.ThumbEditsStayInBounds | Website/App.tsx:103-118 | for a thumb value inside the slider's bounds, either edit keeps a window that was inside the bounds inside them |
| App.SliderSpan | Website/App.tsx:72 | the span is at least 1 and at least `maxYear - minYear` |
| App.ClampPercent | Website/App.tsx:73 | the result lies in [0, 100], and equals the input when the input already does |
| App.ThumbPercent | Website/App.tsx:74-75 | a thumb percentage lies in [0, 100] |
| App.ThumbPercentMonotone | Website/App.tsx:74-75 | a later year is drawn no further left |
| App.ThumbPercentInBounds | Website/App.tsx:72-75 | for a year inside ordered bounds the percentage is the exact linear position, with no clamping |
| App.FindSelected | Website/App.tsx:71 | an event is found exactly when an id is selected and some visible event has it; the result is the first such event |
| App.AppState.constructor | Website/App.tsx:13-22 | the initial state: no events, no selection, not loading, window and bounds [1900, 1950] |
| App.AppState.RefreshDisplay | Website/App.tsx:59-65 | the filter loop stores exactly the filter of the current events and window |
| App.AppState.BeginLoad | Website/App.tsx:29 | loading is set and the state stays valid |
| App.AppState.LoadSucceeded | Website/App.tsx:32-44 | the events are replaced and the first one is selected if there is one. The bounds are derived from the data and the window is reset to them. The window lies inside the bounds, and the visible list is refreshed |
| App.AppState.ResetWindow | Website/App.tsx:42-44 | the bounds and the window are set to the given ordered bounds, the window then lies inside them, and the visible list is refreshed |
| App.AppState.LoadFailed | Website/App.tsx:45-50 | the events become empty, so nothing is visible; bounds, window and selection are unchanged |
| App.AppState.MoveLowThumb | Website/App.tsx:103-110 | the window becomes `MoveLow(v, window)` and the visible list is refreshed. Events, bounds and selection are unchanged. For a value inside the bounds the window stays inside them |
| App.AppState.MoveHighThumb | Website/App.tsx:111-118 | the window becomes `MoveHigh(v, window)` and the visible list is refreshed. Events, bounds and selection are unchanged. For a value inside the bounds the window stays inside them |
| App.AppState.SelectEvent | Website/App.tsx:67-69 | the selection becomes the given id, verbatim |
| App.AppState.CloseDetail | Website/App.tsx:202-203 | the selection is cleared |
| App.AppState.SelectedEvent | Website/App.tsx:71 | the panel shows an event exactly when the selected id occurs among the visible events, and the event shown has that id |
| App.AppState.StartPercent | Website/App.tsx:74 | the start percentage lies in [0, 100] |
| App.AppState.EndPercent | Website/App.tsx:75 | the end percentage lies in [0, 100] |
| App.WindowChangeKeepsSelection | Website/App.tsx:59-71 | moving either thumb (the `low` flag picks which) never changes the selected id. Afterwards the panel is shown exactly when an event with that id is visible in the new window |
| Timeline.CompareStrings | Website/components/Timeline.tsx:17 | specification function defining the date comparison as lexicographic order on character codes, giving -1, 0 or 1 |
| Timeline.Compare | Website/components/Timeline.tsx:15-19 | specification function defining the comparator: the year difference, then the date comparison when both events are dated, else 0 |
| Timeline.CompareStringsAntisymmetric | Website/components/Timeline.tsx:17 | the date comparison is -1, 0 or 1; swapping its arguments flips the sign; it is 0 exactly for equal strings |
| Timeline.CompareStringsTransitive | Website/components/Timeline.tsx:17 | the date comparison is transitive |
| Timeline.CompareProperties | Website/components/Timeline.tsx:16-18 | the comparator is antisymmetric in sign and puts earlier years first. For equal years it follows the dates when both are present, and is 0 when either is missing |
| Timeline.Insert | Website/components/Timeline.tsx:15-19 | one insertion step adds exactly the new event and keeps a sorted list sorted |
| Timeline.SortEvents | Website/components/Timeline.tsx:14-20 | the result is a permutation of the input, and each neighbouring pair is in comparator order |
| Timeline.SortedYears | Website/components/Timeline.tsx:16 | along a sorted list the years never decrease |
| Timeline.SortEventsOrdered | Website/components/Timeline.tsx:15-16 | the events rendered by the timeline are in non-decreasing year order |
| Timeline.SortedDatedRun | Website/components/Timeline.tsx:17 | over any stretch of dated events of one year, a sorted list follows the date strings |
| Timeline.UndatedEventBlocksDateOrder | Website/components/Timeline.tsx:16-18 | an undated event between two dated events of the same year ties with both, so the sort can leave the later date first |
| Timeline.MayBeforeJanuary | Website/components/Timeline.tsx:14-20 | three events of 1920, dated May, undated and dated January, stay in that order, so May is drawn before January |
| Timeline.RenderTimeline | Website/components/Timeline.tsx:29-63 | an empty list renders only the placeholder. Otherwise there is one card per event, in sorted order. A card is selected exactly when its id is the selected id, and its date badge reads "Circa" when the event has no date |
| ApiServer.PyInt | Models/api_server.py:68 | specification function defining `int()` on a string: surrounding white space (tab to carriage return and space) is dropped, then an optional sign and digit groups separated by single underscores; anything else raises |
| ApiServer.PyIntAlphabet | Models/api_server.py:68 | a string `int()` accepts contains only white space, digits, underscores and signs |
| ApiServer.ExtractYear | Models/api_server.py:63-65 | an absent or empty date yields no year; the lemmas below state what a non-empty date yields |
| ApiServer.ExtractYearOfDigits | Models/api_server.py:66-68 | a date starting with four digits, such as `YYYY` or `YYYY-MM-DD`, yields the number those digits spell |
| ApiServer.ExtractYearRejects | Models/api_server.py:67-70 | a character among the first four that is not white space, a digit, an underscore or a sign yields no year |
| ApiServer.SeparatorBlocksYear | Models/api_server.py:63-70 | a date starting with the separator 0x1C gives no year, since `int()` does not skip that character |
| ApiServer.ExtractYearBounds | Models/api_server.py:68 | an extracted year lies between -999 and 9999, since only four characters are read |
| ApiServer.SafeJsonList | Models/api_server.py:25-32 | an absent or empty value gives `[]`. A non-empty result is the list the parser returned, and a parsed list is returned unchanged. Anything else gives `[]` |
| ApiServer.RowToPerson | Models/api_server.py:35-45 | the artifact becomes the book and the aliases are parsed leniently; there is never a canonical id |
| ApiServer.RowToLocation | Models/api_server.py:48-60 | the address becomes the normalised address; neighbourhood, borough and geometry are absent |
| ApiServer.ShapeEvent | Models/api_server.py:142-153 | id, date, description, venue and participants are copied, and the artifact becomes the book. The precision is "exact" exactly when the event has a non-empty date, and "unknown" otherwise; the year is the extracted year, or 0 when there is none |
| ApiServer.RowsToPeople | Models/api_server.py:140 | one person per participant row, in order |
| ApiServer.KeptRows | Models/api_server.py:109-115 | specification function defining the year filter: the fetched rows, in order, whose extracted year meets each bound that is given; never longer than the input |
| ApiServer.KeptRowsMembers | Models/api_server.py:112-115 | a row survives exactly when it has a year meeting each bound that is given |
| ApiServer.EnrichedEvents | Models/api_server.py:108-153 | specification function defining the response: the kept rows in order, each shaped with its first venue and its participants |
| ApiServer.GetEnrichedEvents | Models/api_server.py:108-153 | the loop with its two `continue`s returns exactly the kept rows, each shaped with its first venue and its participants |
| ApiServer.KeptRowsAppend | Models/api_server.py:109-115 | the filter distributes over concatenation, so survivors keep the input order |
| ApiServer.KeptRowsUnbounded | Models/api_server.py:112-115 | with neither bound every fetched row is kept |
| ApiServer.UnboundedResponse | Models/api_server.py:108-153 | without bounds the response has one event per row, in order and under the row's id. An undated row comes back with year 0, and the website shows it in every window |
| ApiServer.BoundedResponse | Models/api_server.py:112-115 | with a bound, every returned event has a year from its date that meets the bounds, and that year is its `year` field |
| Validation.EnsurePageRange | Models/simple_models.py:36-41 | a value is accepted exactly when it is empty or an ordered pair, and is then returned unchanged; otherwise the fixed `ValueError` message is raised |
| Validation.EnsurePageRangeIdempotent | Models/artifact_models.py:19-24 | an accepted value is accepted again, unchanged |
| Validation.EnsurePageRangeCases | Models/simple_models.py:37-40 | `[]` and `[n, n]` are accepted; an inverted pair or any length other than 0 and 2 raises |
| Validation.PageRangeErrors | Models/simple_models.py:111-114 | a field left at its default, or a well-formed value, gives no error; otherwise exactly one `page_range` error carrying the validator's message |
| Validation.ScoreErrors | Models/simple_models.py:172 | the score is accepted exactly when it lies in [0, 1]; otherwise one error is reported |
| SimpleModels.NewContextChunk | Models/simple_models.py:103-114 | the chunk is built exactly when its page range is absent or well formed, and a built chunk always holds a well-formed range |
| SimpleModels.NewEvent | Models/simple_models.py:117-130 | the event is built exactly when its page range is absent or well formed; the date is optional |
| SimpleModels.NewEventExtraction | Models/simple_models.py:206-225 | the extraction is built exactly when its page range is absent or well formed |
| SimpleModels.NewContextChunkExtraction | Models/simple_models.py:238-249 | the snapshot is built exactly when its page range is absent or well formed |
| SimpleModels.NewEntityMatch | Models/simple_models.py:167-176 | the match is built exactly when its score lies in [0, 1]; the status defaults to pending |
| ArtifactModels.NewContextChunk | Models/artifact_models.py:68-83 | the chunk is built exactly when its page range is absent or well formed |
| ArtifactModels.NewEvent | Models/artifact_models.py:86-101 | the event is built exactly when its page range is absent or well formed and a date is given. A missing date is reported as a missing `event_date`, after any page-range error |
| ArtifactModels.NewEventExtraction | Models/artifact_models.py:183-199 | the extraction is built exactly when its page range is absent or well formed |
| ArtifactModels.NewContextChunkExtraction | Models/artifact_models.py:212-224 | the snapshot is built exactly when its page range is absent or well formed |
| ArtifactModels.NewEntityMatch | Models/artifact_models.py:146-157 | the match is built exactly when its score lies in [0, 1]; the status defaults to pending |

## Left out

- The d3 force simulation, dragging and pinning, and the simulation teardown (`Website/components/NetworkGraph.tsx:99-142` and `Website/components/NetworkGraph.tsx:153-195`): this is floating-point physics inside d3 and React effect lifecycle.
- SVG drawing, labels, the resize listener and all JSX styling: layout, not logic.
- The `isMounted` guard of the load effect (`Website/App.tsx:26-55`): it concerns an asynchronous fetch finishing after unmount. The model's load methods run as if the view stays mounted, and `NetworkGraph.GraphEffect` takes "mounted" as a parameter.
- The timeline's `scrollIntoView` effect, and the card heading, location line and description text. These are display only; a card keeps its id, selection flag and date badge.
- `Website/components/MapView.tsx`, `Website/services/api.ts`, `Website/services/gemini.ts` and `Website/services/mockData.ts`: Leaflet rendering, an HTTP fetch, a language-model call and random fixtures. The website's fetch is the `data` parameter of `App.AppState.LoadSucceeded`.
- `Models/artifact_db.py` and the SQL of `get_enriched_events`, including the row ordering and the `LIMIT 1` venue. The fetched rows are an input sequence, and the two queries are functions in `ApiServer.Database`. The connection, CORS set-up, the health endpoint and the server start-up are left out.
- Pydantic machinery: the `created_at` timestamps that the `datetime.utcnow` default factory fills in (`Models/simple_models.py:50`, `Models/artifact_models.py:78`, `:96`, `:157`) are left out of every record, because they carry no constraint. Identifiers that the `uuid4` default factory fills in are ordinary parameters. Date parsing is out of scope, so dates arrive parsed. A required field given explicitly as `None` is modelled like one left out.
- Records without a constraint beyond their field types (Book, Artifact, Person, Location, Milestone, the relationship rows, the person, location and milestone extractions, DocumentExtraction): there is nothing to check beyond their shape.
- Timeline.CompareStrings: `localeCompare` is modelled as lexicographic order on character codes, because the real order depends on the browser's locale.
- Timeline.SortEvents: the comparator is not a consistent order, and ECMAScript leaves `sort` implementation-defined for such a comparator. So the model fixes one stable algorithm, insertion from the right.
- Timeline.SortedDatedRun: date order is proved only over stretches of dated events of one year, not across an undated event between them. `Timeline.UndatedEventBlocksDateOrder` shows why the wider claim fails.
- ApiServer.PyInt: only dates made of ASCII characters are modelled. When a string holds any non-ASCII character, Python's `int()` also treats Unicode white space at or above U+0080 as white space, and accepts non-ASCII decimal digits.
- App.ThumbPercent: the JavaScript floating-point division is modelled on exact reals.
- App.AppState.MoveLowThumb and App.AppState.MoveHighThumb: the thumb value is already an integer; the `parseInt` of the input element's text is not modelled.
