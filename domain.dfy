/** The shapes shared by the website and the API: the denormalised
    "enriched event" with its resolved location and people, and the graph
    nodes and links the connections view derives from it.
    Ids are strings; a year of 0 stands for "no year" (the API writes 0 for an
    undated event, and a JavaScript NaN or missing year behaves the same way
    under the website's `!e.year` test). */
module Domain {

  datatype Option<+T> = None | Some(value: T)

  /** A JSON value as produced by a JSON parser. */
  datatype Json =
    | JNull
    | JBool(b: bool)
    | JNumber(n: real)
    | JString(s: string)
    | JArray(elems: seq<Json>)
    | JObject(members: seq<(string, Json)>)

  datatype Precision = Exact | Month | Year | Circa | Unknown

  datatype Person = Person(
    id: string,
    name: string,
    aliases: seq<Json>,
    bookId: string,
    birthYear: Option<int>,
    deathYear: Option<int>,
    canonicalId: Option<string>)

  datatype Location = Location(
    id: string,
    name: string,
    bookId: string,
    normalizedAddress: Option<string>,
    neighborhood: Option<string>,
    borough: Option<string>,
    latitude: Option<real>,
    longitude: Option<real>,
    geometry: Option<string>)

  datatype EnrichedEvent = EnrichedEvent(
    id: string,
    description: string,
    bookId: string,
    eventDate: Option<string>,
    datePrecision: Option<Precision>,
    year: int,
    location: Option<Location>,
    people: seq<Person>)

  datatype NodeType = PersonNode | LocationNode | EventNode

  datatype GraphNode = GraphNode(id: string, group: int, radius: int, labelText: string, kind: NodeType)

  datatype LinkType = Participated | LocatedAt

  /** A link refers to its endpoints by node id. */
  datatype GraphLink = GraphLink(source: string, target: string, value: int, kind: LinkType)

  /** JavaScript truthiness of the optional `event_date` string: present and non-empty. */
  predicate HasDate(e: EnrichedEvent)
  {
    e.eventDate.Some? && e.eventDate.value != ""
  }
}
