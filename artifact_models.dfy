/** The records of Models/artifact_models.py that carry a field constraint.
    They follow the simple models, with the artifact in place of the book,
    and with one difference that matters: an `Event` here must be given its
    date. As in the simple models, a field that may be left out is an
    `Option`, `None` meaning "not given". */
module ArtifactModels {
  import opened Domain
  import opened Validation

  datatype ContextChunk = ContextChunk(
    id: string,
    artifactId: string,
    chunkLabel: Option<string>,
    pageRange: seq<int>,
    summary: Option<string>,
    keyPersons: seq<string>,
    keyLocations: seq<string>)

  datatype Event = Event(
    id: string,
    description: string,
    artifactId: string,
    pageRange: seq<int>,
    contextChunkId: Option<string>,
    eventType: Option<string>,
    eventDate: Date)

  datatype EventExtraction = EventExtraction(
    description: string,
    pageRange: seq<int>,
    eventType: Option<string>,
    contextLabel: Option<string>,
    eventDate: Option<string>,
    quotes: seq<string>,
    interactions: seq<string>,
    personNames: seq<string>,
    locationNames: seq<string>)

  datatype ContextChunkExtraction = ContextChunkExtraction(
    chunkLabel: Option<string>,
    pageRange: seq<int>,
    summary: Option<string>,
    keyPersons: seq<string>,
    keyLocations: seq<string>)

  datatype EntityMatch = EntityMatch(
    id: string,
    entityType: string,
    entityId1: string,
    entityId2: string,
    similarityScore: real,
    matchingSignals: seq<(string, Json)>,
    status: MatchStatus,
    reviewedAt: Option<string>)

  /** `ContextChunk(...)` (artifact_models.py:68-83). */
  function NewContextChunk(
    id: string, artifactId: string, chunkLabel: Option<string>, pageRange: Option<seq<int>>,
    summary: Option<string>, keyPersons: seq<string>, keyLocations: seq<string>): (r: Result<ContextChunk>)
    ensures r.Ok? <==> pageRange.None? || WellFormedPageRange(pageRange.value)
    ensures r.Ok? ==> WellFormedPageRange(r.value.pageRange) && r.value.pageRange == PageRangeValue(pageRange)
    ensures r.Ok? ==> r.value.id == id && r.value.artifactId == artifactId
    ensures r.Err? ==> r.errors == [FieldError("page_range", ValueError(PageRangeMessage))]
  {
    var errs := PageRangeErrors(pageRange);
    if errs != [] then Err(errs)
    else Ok(ContextChunk(id, artifactId, chunkLabel, PageRangeValue(pageRange), summary, keyPersons, keyLocations))
  }

  /** `Event(...)` (artifact_models.py:86-101): both a bad page range and a
      missing date are reported, in field order. */
  function NewEvent(
    id: string, description: string, artifactId: string, pageRange: Option<seq<int>>,
    contextChunkId: Option<string>, eventType: Option<string>, eventDate: Option<Date>): (r: Result<Event>)
    ensures r.Ok? <==> (pageRange.None? || WellFormedPageRange(pageRange.value)) && eventDate.Some?
    ensures r.Ok? ==> WellFormedPageRange(r.value.pageRange) && r.value.pageRange == PageRangeValue(pageRange)
    ensures r.Ok? ==> r.value.id == id && r.value.eventDate == eventDate.value
    ensures r.Err? ==> (FieldError("event_date", Missing) in r.errors <==> eventDate.None?)
    ensures r.Err? ==> r.errors == PageRangeErrors(pageRange) + (if eventDate.None? then [FieldError("event_date", Missing)] else [])
  {
    var errs := PageRangeErrors(pageRange) + (if eventDate.None? then [FieldError("event_date", Missing)] else []);
    if errs != [] then Err(errs)
    else Ok(Event(id, description, artifactId, PageRangeValue(pageRange), contextChunkId, eventType, eventDate.value))
  }

  /** `EventExtraction(...)` (artifact_models.py:183-199). */
  function NewEventExtraction(
    description: string, pageRange: Option<seq<int>>, eventType: Option<string>,
    contextLabel: Option<string>, eventDate: Option<string>,
    quotes: seq<string>, interactions: seq<string>,
    personNames: seq<string>, locationNames: seq<string>): (r: Result<EventExtraction>)
    ensures r.Ok? <==> pageRange.None? || WellFormedPageRange(pageRange.value)
    ensures r.Ok? ==> WellFormedPageRange(r.value.pageRange) && r.value.pageRange == PageRangeValue(pageRange)
    ensures r.Ok? ==> r.value.description == description && r.value.eventDate == eventDate
    ensures r.Err? ==> r.errors == [FieldError("page_range", ValueError(PageRangeMessage))]
  {
    var errs := PageRangeErrors(pageRange);
    if errs != [] then Err(errs)
    else Ok(EventExtraction(description, PageRangeValue(pageRange), eventType, contextLabel, eventDate,
                            quotes, interactions, personNames, locationNames))
  }

  /** `ContextChunkExtraction(...)` (artifact_models.py:212-224). */
  function NewContextChunkExtraction(
    chunkLabel: Option<string>, pageRange: Option<seq<int>>, summary: Option<string>,
    keyPersons: seq<string>, keyLocations: seq<string>): (r: Result<ContextChunkExtraction>)
    ensures r.Ok? <==> pageRange.None? || WellFormedPageRange(pageRange.value)
    ensures r.Ok? ==> WellFormedPageRange(r.value.pageRange) && r.value.pageRange == PageRangeValue(pageRange)
    ensures r.Err? ==> r.errors == [FieldError("page_range", ValueError(PageRangeMessage))]
  {
    var errs := PageRangeErrors(pageRange);
    if errs != [] then Err(errs)
    else Ok(ContextChunkExtraction(chunkLabel, PageRangeValue(pageRange), summary, keyPersons, keyLocations))
  }

  /** `EntityMatch(...)` (artifact_models.py:146-157). */
  function NewEntityMatch(
    id: string, entityType: string, entityId1: string, entityId2: string, similarityScore: real,
    matchingSignals: seq<(string, Json)>, status: Option<MatchStatus>, reviewedAt: Option<string>): (r: Result<EntityMatch>)
    ensures r.Ok? <==> 0.0 <= similarityScore <= 1.0
    ensures r.Ok? ==> 0.0 <= r.value.similarityScore <= 1.0 && r.value.similarityScore == similarityScore
    ensures r.Ok? && status.None? ==> r.value.status == Pending
    ensures r.Ok? && status.Some? ==> r.value.status == status.value
    ensures r.Err? ==> |r.errors| == 1 && r.errors[0].field == "similarity_score"
  {
    var errs := ScoreErrors(similarityScore);
    if errs != [] then Err(errs)
    else Ok(EntityMatch(id, entityType, entityId1, entityId2, similarityScore, matchingSignals,
                        StatusOrDefault(status), reviewedAt))
  }
}
