/** The records of Models/simple_models.py that carry a field constraint:
    the four with a validated `page_range` and the deduplication match with
    its bounded score. Each constructor models building the Pydantic model
    from field values: a field that may be left out is an `Option`, `None`
    meaning "not given", and the result is the record or the field errors.
    Identifiers that Pydantic fills in from the `uuid4` default factory are
    ordinary parameters here; the `created_at` timestamps are left out, as
    they carry no constraint. */
module SimpleModels {
  import opened Domain
  import opened Validation

  datatype ContextChunk = ContextChunk(
    id: string,
    bookId: string,
    chunkLabel: Option<string>,
    pageRange: seq<int>,
    summary: Option<string>,
    keyPersons: seq<string>,
    keyLocations: seq<string>)

  datatype Event = Event(
    id: string,
    description: string,
    bookId: string,
    pageRange: seq<int>,
    contextChunkId: Option<string>,
    eventType: Option<string>,
    eventDate: Option<Date>,
    datePrecision: Option<Precision>)

  datatype EventExtraction = EventExtraction(
    description: string,
    pageRange: seq<int>,
    eventType: Option<string>,
    contextLabel: Option<string>,
    eventDate: Option<string>,
    datePrecision: Option<Precision>,
    quotes: seq<string>,
    interactions: seq<string>,
    personNames: seq<string>,
    locationNames: seq<string>)

  datatype ContextChunkExtraction = ContextChunkExtraction(
    chunkLabel: Option<string>,
    pageRange: seq<int>,
    summary: Option<string>,
    keyPersons: seq<string>,
    keyLocations: seq<string>)

  datatype EntityMatch = EntityMatch(
    id: string,
    entityType: string,
    entityId1: string,
    entityId2: string,
    similarityScore: real,
    matchingSignals: seq<(string, Json)>,
    status: MatchStatus,
    reviewedAt: Option<string>)

  /** `ContextChunk(...)` (simple_models.py:103-114). */
  function NewContextChunk(
    id: string, bookId: string, chunkLabel: Option<string>, pageRange: Option<seq<int>>,
    summary: Option<string>, keyPersons: seq<string>, keyLocations: seq<string>): (r: Result<ContextChunk>)
    ensures r.Ok? <==> pageRange.None? || WellFormedPageRange(pageRange.value)
    ensures r.Ok? ==> WellFormedPageRange(r.value.pageRange) && r.value.pageRange == PageRangeValue(pageRange)
    ensures r.Ok? ==> r.value.id == id && r.value.bookId == bookId
    ensures r.Err? ==> r.errors == [FieldError("page_range", ValueError(PageRangeMessage))]
  {
    var errs := PageRangeErrors(pageRange);
    if errs != [] then Err(errs)
    else Ok(ContextChunk(id, bookId, chunkLabel, PageRangeValue(pageRange), summary, keyPersons, keyLocations))
  }

  /** `Event(...)` (simple_models.py:117-130); the date is optional here. */
  function NewEvent(
    id: string, description: string, bookId: string, pageRange: Option<seq<int>>,
    contextChunkId: Option<string>, eventType: Option<string>,
    eventDate: Option<Date>, datePrecision: Option<Precision>): (r: Result<Event>)
    ensures r.Ok? <==> pageRange.None? || WellFormedPageRange(pageRange.value)
    ensures r.Ok? ==> WellFormedPageRange(r.value.pageRange) && r.value.pageRange == PageRangeValue(pageRange)
    ensures r.Ok? ==> r.value.id == id && r.value.eventDate == eventDate
    ensures r.Err? ==> r.errors == [FieldError("page_range", ValueError(PageRangeMessage))]
  {
    var errs := PageRangeErrors(pageRange);
    if errs != [] then Err(errs)
    else Ok(Event(id, description, bookId, PageRangeValue(pageRange), contextChunkId, eventType, eventDate, datePrecision))
  }

  /** `EventExtraction(...)` (simple_models.py:206-225). */
  function NewEventExtraction(
    description: string, pageRange: Option<seq<int>>, eventType: Option<string>,
    contextLabel: Option<string>, eventDate: Option<string>, datePrecision: Option<Precision>,
    quotes: seq<string>, interactions: seq<string>,
    personNames: seq<string>, locationNames: seq<string>): (r: Result<EventExtraction>)
    ensures r.Ok? <==> pageRange.None? || WellFormedPageRange(pageRange.value)
    ensures r.Ok? ==> WellFormedPageRange(r.value.pageRange) && r.value.pageRange == PageRangeValue(pageRange)
    ensures r.Ok? ==> r.value.description == description && r.value.personNames == personNames
    ensures r.Err? ==> r.errors == [FieldError("page_range", ValueError(PageRangeMessage))]
  {
    var errs := PageRangeErrors(pageRange);
    if errs != [] then Err(errs)
    else Ok(EventExtraction(description, PageRangeValue(pageRange), eventType, contextLabel, eventDate,
                            datePrecision, quotes, interactions, personNames, locationNames))
  }

  /** `ContextChunkExtraction(...)` (simple_models.py:238-249). */
  function NewContextChunkExtraction(
    chunkLabel: Option<string>, pageRange: Option<seq<int>>, summary: Option<string>,
    keyPersons: seq<string>, keyLocations: seq<string>): (r: Result<ContextChunkExtraction>)
    ensures r.Ok? <==> pageRange.None? || WellFormedPageRange(pageRange.value)
    ensures r.Ok? ==> WellFormedPageRange(r.value.pageRange) && r.value.pageRange == PageRangeValue(pageRange)
    ensures r.Err? ==> r.errors == [FieldError("page_range", ValueError(PageRangeMessage))]
  {
    var errs := PageRangeErrors(pageRange);
    if errs != [] then Err(errs)
    else Ok(ContextChunkExtraction(chunkLabel, PageRangeValue(pageRange), summary, keyPersons, keyLocations))
  }

  /** `EntityMatch(...)` (simple_models.py:167-176): the score must lie in
      [0, 1], and the status is pending unless given. */
  function NewEntityMatch(
    id: string, entityType: string, entityId1: string, entityId2: string, similarityScore: real,
    matchingSignals: seq<(string, Json)>, status: Option<MatchStatus>, reviewedAt: Option<string>): (r: Result<EntityMatch>)
    ensures r.Ok? <==> 0.0 <= similarityScore <= 1.0
    ensures r.Ok? ==> 0.0 <= r.value.similarityScore <= 1.0 && r.value.similarityScore == similarityScore
    ensures r.Ok? && status.None? ==> r.value.status == Pending
    ensures r.Ok? && status.Some? ==> r.value.status == status.value
    ensures r.Err? ==> |r.errors| == 1 && r.errors[0].field == "similarity_score"
  {
    var errs := ScoreErrors(similarityScore);
    if errs != [] then Err(errs)
    else Ok(EntityMatch(id, entityType, entityId1, entityId2, similarityScore, matchingSignals,
                        StatusOrDefault(status), reviewedAt))
  }
}
