/** The connections view: turning the visible events into a node list and a
    link list (Website/components/NetworkGraph.tsx), and resolving a click on
    a node back to an event.

    The builder works in place on a JavaScript `Map` of nodes keyed by id and
    an array of links. `Build` below specifies it as a left fold that mirrors
    the three nested `forEach` loops one step at a time; `BuildGraph` is the
    loop itself, proved equal to `Build`. The lemmas then state what the fold
    guarantees, against independent descriptions: the flat list of node
    mentions (`Mentions`), the ids the events reference (`References`), and
    the flat list of expected person-to-location links (`ExpectedLocatedAt`). */
module NetworkGraph {
  import opened Domain

  datatype Graph = Graph(nodes: seq<GraphNode>, links: seq<GraphLink>)

  function LocationNodeOf(l: Location): GraphNode
  {
    GraphNode(l.id, 2, 6, l.name, LocationNode)
  }

  function PersonNodeOf(p: Person): GraphNode
  {
    GraphNode(p.id, 1, 8, p.name, PersonNode)
  }

  function LocatedAtLink(p: Person, l: Location): GraphLink
  {
    GraphLink(p.id, l.id, 1, LocatedAt)
  }

  function ParticipatedLink(a: string, b: string): GraphLink
  {
    GraphLink(a, b, 2, Participated)
  }

  /** The key set of the node map. */
  function NodeIds(nodes: seq<GraphNode>): set<string>
  {
    set n | n in nodes :: n.id
  }

  predicate UniqueIds(nodes: seq<GraphNode>)
  {
    forall i, j :: 0 <= i < j < |nodes| ==> nodes[i].id != nodes[j].id
  }

  /** `if (!nodesMap.has(n.id)) nodesMap.set(n.id, n)`: first seen wins. */
  function AddNode(nodes: seq<GraphNode>, n: GraphNode): seq<GraphNode>
  {
    if n.id in NodeIds(nodes) then nodes else nodes + [n]
  }

  /** The link joins a and b in either orientation. */
  predicate Joins(l: GraphLink, a: string, b: string)
  {
    (l.source == a && l.target == b) || (l.source == b && l.target == a)
  }

  /** What the `links.find(...)` scan looks for. */
  predicate LinkBetween(links: seq<GraphLink>, a: string, b: string)
  {
    exists i :: 0 <= i < |links| && Joins(links[i], a, b)
  }

  /** One visit of the innermost loop body: a co-occurrence link is pushed only
      between distinct ids that no link of any kind joins yet. */
  function AddCoLink(links: seq<GraphLink>, a: string, b: string): seq<GraphLink>
  {
    if a != b && !LinkBetween(links, a, b) then links + [ParticipatedLink(a, b)] else links
  }

  /** The innermost `event.people.forEach(other => ...)` for the person with id a. */
  function CoLinks(links: seq<GraphLink>, a: string, others: seq<Person>): seq<GraphLink>
  {
    if others == [] then links
    else AddCoLink(CoLinks(links, a, others[..|others| - 1]), a, others[|others| - 1].id)
  }

  /** The body of `event.people.forEach(person => ...)` for one person. */
  function PersonStep(g: Graph, e: EnrichedEvent, p: Person): Graph
  {
    var nodes := AddNode(g.nodes, PersonNodeOf(p));
    var links := if e.location.Some? then g.links + [LocatedAtLink(p, e.location.value)] else g.links;
    Graph(nodes, CoLinks(links, p.id, e.people))
  }

  /** The person loop of event e over the people ps (a prefix of e.people). */
  function PeopleSteps(g: Graph, e: EnrichedEvent, ps: seq<Person>): Graph
  {
    if ps == [] then g
    else PersonStep(PeopleSteps(g, e, ps[..|ps| - 1]), e, ps[|ps| - 1])
  }

  /** The location node an event contributes, inserted before its people. */
  function AddLocation(g: Graph, e: EnrichedEvent): Graph
  {
    if e.location.Some? then Graph(AddNode(g.nodes, LocationNodeOf(e.location.value)), g.links) else g
  }

  function EventStep(g: Graph, e: EnrichedEvent): Graph
  {
    PeopleSteps(AddLocation(g, e), e, e.people)
  }

  /** The graph built from the events, in input order. */
  function Build(events: seq<EnrichedEvent>): Graph
  {
    if events == [] then Graph([], [])
    else EventStep(Build(events[..|events| - 1]), events[|events| - 1])
  }

  // ---------------------------------------------------------------------
  // Independent descriptions of the result
  // ---------------------------------------------------------------------

  /** The event names the id among its people or as its location. */
  predicate References(e: EnrichedEvent, id: string)
  {
    (exists p :: p in e.people && p.id == id) || (e.location.Some? && e.location.value.id == id)
  }

  function PersonNodes(ps: seq<Person>): seq<GraphNode>
  {
    if ps == [] then [] else PersonNodes(ps[..|ps| - 1]) + [PersonNodeOf(ps[|ps| - 1])]
  }

  function LocationMention(e: EnrichedEvent): seq<GraphNode>
  {
    if e.location.Some? then [LocationNodeOf(e.location.value)] else []
  }

  /** Every node the events propose, in the order the builder meets them:
      per event its location (if any), then its people. */
  function Mentions(events: seq<EnrichedEvent>): seq<GraphNode>
  {
    if events == [] then []
    else Mentions(events[..|events| - 1]) + LocationMention(events[|events| - 1]) + PersonNodes(events[|events| - 1].people)
  }

  /** Inserting a sequence of proposed nodes, first seen wins. */
  function AddNodes(nodes: seq<GraphNode>, s: seq<GraphNode>): seq<GraphNode>
  {
    if s == [] then nodes else AddNode(AddNodes(nodes, s[..|s| - 1]), s[|s| - 1])
  }

  /** No earlier proposal carries the id of s[i]. */
  predicate FirstMention(s: seq<GraphNode>, i: int)
    requires 0 <= i < |s|
  {
    forall j :: 0 <= j < i ==> s[j].id != s[i].id
  }

  function EventIds(e: EnrichedEvent): set<string>
  {
    (if e.location.Some? then {e.location.value.id} else {}) + (set p | p in e.people :: p.id)
  }

  /** Every id some event references. */
  function MentionedIds(events: seq<EnrichedEvent>): set<string>
  {
    if events == [] then {} else MentionedIds(events[..|events| - 1]) + EventIds(events[|events| - 1])
  }

  function LocatedAtLinks(links: seq<GraphLink>): seq<GraphLink>
  {
    if links == [] then []
    else LocatedAtLinks(links[..|links| - 1]) + (if links[|links| - 1].kind == LocatedAt then [links[|links| - 1]] else [])
  }

  function PersonLocatedAt(ps: seq<Person>, l: Location): seq<GraphLink>
  {
    if ps == [] then [] else PersonLocatedAt(ps[..|ps| - 1], l) + [LocatedAtLink(ps[|ps| - 1], l)]
  }

  /** One person-to-location link per (event with a location, entry of its people). */
  function ExpectedLocatedAt(events: seq<EnrichedEvent>): seq<GraphLink>
  {
    if events == [] then []
    else
      var e := events[|events| - 1];
      ExpectedLocatedAt(events[..|events| - 1]) + (if e.location.Some? then PersonLocatedAt(e.people, e.location.value) else [])
  }

  predicate EndpointsIn(links: seq<GraphLink>, ids: set<string>)
  {
    forall i :: 0 <= i < |links| ==> links[i].source in ids && links[i].target in ids
  }

  /** A co-occurrence link has value 2, is no self-link, and no earlier link of
      any kind joins its two ends. */
  predicate CoLinksFresh(links: seq<GraphLink>)
  {
    && (forall j :: 0 <= j < |links| && links[j].kind == Participated ==>
          links[j].source != links[j].target && links[j].value == 2)
    && (forall i, j :: 0 <= i < j < |links| && links[j].kind == Participated ==>
          !Joins(links[i], links[j].source, links[j].target))
  }

  predicate CoOccurrencesLinked(events: seq<EnrichedEvent>, links: seq<GraphLink>)
  {
    forall e, p, q :: e in events && p in e.people && q in e.people && p.id != q.id ==>
      LinkBetween(links, p.id, q.id)
  }

  // ---------------------------------------------------------------------
  // The builder as the source runs it
  // ---------------------------------------------------------------------

  /** The `links.find` scan: the first link joining a and b, if any. */
  method FindLink(links: seq<GraphLink>, a: string, b: string) returns (found: Option<GraphLink>)
    ensures found.None? <==> !LinkBetween(links, a, b)
    ensures found.Some? ==> exists i :: 0 <= i < |links| && links[i] == found.value && Joins(found.value, a, b)
                                        && forall j :: 0 <= j < i ==> !Joins(links[j], a, b)
  {
    var i := 0;
    while i < |links|
      invariant 0 <= i <= |links|
      invariant forall j :: 0 <= j < i ==> !Joins(links[j], a, b)
    {
      if Joins(links[i], a, b) {
        return Some(links[i]);
      }
      i := i + 1;
    }
    return None;
  }

  /** The effect body of NetworkGraph.tsx:37-97. */
  method BuildGraph(events: seq<EnrichedEvent>) returns (nodes: seq<GraphNode>, links: seq<GraphLink>)
    ensures Graph(nodes, links) == Build(events)
    ensures UniqueIds(nodes)
    ensures forall x :: x in NodeIds(nodes) <==> exists e :: e in events && References(e, x)
    ensures EndpointsIn(links, NodeIds(nodes))
    ensures LocatedAtLinks(links) == ExpectedLocatedAt(events)
    ensures CoLinksFresh(links)
    ensures CoOccurrencesLinked(events, links)
  {
    nodes, links := [], [];
    var ids: set<string> := {};
    for i := 0 to |events|
      invariant Graph(nodes, links) == Build(events[..i])
      invariant ids == NodeIds(nodes)
    {
      var event := events[i];
      assert events[..i + 1][..i] == events[..i];
      if event.location.Some? {
        var location := event.location.value;
        if location.id !in ids {
          NodeIdsAppend(nodes, LocationNodeOf(location));
          nodes := nodes + [LocationNodeOf(location)];
          ids := ids + {location.id};
        }
      }
      ghost var located := Graph(nodes, links);
      for j := 0 to |event.people|
        invariant Graph(nodes, links) == PeopleSteps(located, event, event.people[..j])
        invariant ids == NodeIds(nodes)
      {
        var person := event.people[j];
        assert event.people[..j + 1][..j] == event.people[..j];
        if person.id !in ids {
          NodeIdsAppend(nodes, PersonNodeOf(person));
          nodes := nodes + [PersonNodeOf(person)];
          ids := ids + {person.id};
        }
        if event.location.Some? {
          links := links + [LocatedAtLink(person, event.location.value)];
        }
        ghost var before := links;
        for k := 0 to |event.people|
          invariant links == CoLinks(before, person.id, event.people[..k])
        {
          var other := event.people[k];
          assert event.people[..k + 1][..k] == event.people[..k];
          if person.id != other.id {
            var existing := FindLink(links, person.id, other.id);
            if existing.None? {
              links := links + [ParticipatedLink(person.id, other.id)];
            }
          }
        }
        assert event.people[..|event.people|] == event.people;
      }
      assert event.people[..|event.people|] == event.people;
    }
    assert events[..|events|] == events;
    BuildProperties(events);
  }

  /** The graph effect: with no events (or no mounted SVG element) nothing is
      built and no simulation is started; otherwise the graph is built. */
  method GraphEffect(events: seq<EnrichedEvent>, mounted: bool) returns (g: Option<Graph>)
    ensures g.None? <==> |events| == 0 || !mounted
    ensures g.Some? ==> g.value == Build(events)
  {
    if |events| == 0 || !mounted {
      return None;
    }
    var nodes, links := BuildGraph(events);
    return Some(Graph(nodes, links));
  }

  // ---------------------------------------------------------------------
  // Click resolution (NetworkGraph.tsx:144-151)
  // ---------------------------------------------------------------------

  /** `events.find(...)`: the index of the first event referencing the id. */
  function FirstRelated(events: seq<EnrichedEvent>, id: string): (r: Option<nat>)
    ensures r.Some? ==> r.value < |events| && References(events[r.value], id)
                        && forall j :: 0 <= j < r.value ==> !References(events[j], id)
    ensures r.None? ==> forall j :: 0 <= j < |events| ==> !References(events[j], id)
  {
    if events == [] then None
    else if References(events[0], id) then Some(0)
    else match FirstRelated(events[1..], id)
      case None => None
      case Some(k) => Some(k + 1)
  }

  /** The id passed to `onSelectEvent` when the node is clicked, if any. */
  function ClickSelection(events: seq<EnrichedEvent>, nodeId: string): (r: Option<string>)
    ensures r.Some? <==> exists e :: e in events && References(e, nodeId)
    ensures r.Some? ==> exists i :: 0 <= i < |events| && events[i].id == r.value && References(events[i], nodeId)
                                    && forall j :: 0 <= j < i ==> !References(events[j], nodeId)
  {
    match FirstRelated(events, nodeId)
    case None => None
    case Some(i) => Some(events[i].id)
  }

  // ---------------------------------------------------------------------
  // Lemmas
  // ---------------------------------------------------------------------

  lemma NodeIdsAppend(nodes: seq<GraphNode>, n: GraphNode)
    ensures NodeIds(nodes + [n]) == NodeIds(nodes) + {n.id}
  {
    assert forall m :: m in nodes + [n] <==> m in nodes || m == n;
  }

  lemma NodeIdsConcat(a: seq<GraphNode>, b: seq<GraphNode>)
    ensures NodeIds(a + b) == NodeIds(a) + NodeIds(b)
  {
    assert forall m :: m in a + b <==> m in a || m in b;
  }

  lemma {:induction false} AddNodesAppend(nodes: seq<GraphNode>, a: seq<GraphNode>, b: seq<GraphNode>)
    ensures AddNodes(nodes, a + b) == AddNodes(AddNodes(nodes, a), b)
    decreases |b|
  {
    if b == [] {
      assert a + b == a;
    } else {
      var b' := b[..|b| - 1];
      assert (a + b)[..|a + b| - 1] == a + b';
      assert (a + b)[|a + b| - 1] == b[|b| - 1];
      AddNodesAppend(nodes, a, b');
    }
  }

  lemma {:induction false} AddNodesPrefix(nodes: seq<GraphNode>, s: seq<GraphNode>)
    ensures nodes <= AddNodes(nodes, s)
    decreases |s|
  {
    if s != [] {
      AddNodesPrefix(nodes, s[..|s| - 1]);
    }
  }

  lemma {:induction false} AddNodesUnique(nodes: seq<GraphNode>, s: seq<GraphNode>)
    requires UniqueIds(nodes)
    ensures UniqueIds(AddNodes(nodes, s))
    decreases |s|
  {
    if s != [] {
      AddNodesUnique(nodes, s[..|s| - 1]);
      var prev := AddNodes(nodes, s[..|s| - 1]);
      var n := s[|s| - 1];
      if n.id !in NodeIds(prev) {
        forall i | 0 <= i < |prev| ensures prev[i].id != n.id {
          assert prev[i] in prev;
        }
      }
    }
  }

  lemma {:induction false} AddNodesIds(nodes: seq<GraphNode>, s: seq<GraphNode>)
    ensures NodeIds(AddNodes(nodes, s)) == NodeIds(nodes) + NodeIds(s)
    decreases |s|
  {
    if s != [] {
      var s' := s[..|s| - 1];
      var n := s[|s| - 1];
      AddNodesIds(nodes, s');
      assert s == s' + [n];
      NodeIdsAppend(s', n);
      if n.id !in NodeIds(AddNodes(nodes, s')) {
        NodeIdsAppend(AddNodes(nodes, s'), n);
      }
    }
  }

  /** The node kept for an id is the first proposal carrying that id. */
  lemma {:induction false} AddNodesFirstSeenWins(s: seq<GraphNode>)
    ensures forall k, i ::
              (0 <= k < |AddNodes([], s)| && 0 <= i < |s| && s[i].id == AddNodes([], s)[k].id && FirstMention(s, i))
              ==> AddNodes([], s)[k] == s[i]
    decreases |s|
  {
    if s != [] {
      var s' := s[..|s| - 1];
      var n := s[|s| - 1];
      var prev := AddNodes([], s');
      var r := AddNodes([], s);
      AddNodesFirstSeenWins(s');
      AddNodesIds([], s');
      assert NodeIds([]) == {};
      forall j | 0 <= j < |s'| ensures s'[j].id in NodeIds(prev) {
        assert s'[j] in s';
      }
      forall k | 0 <= k < |prev| ensures exists j :: 0 <= j < |s'| && s'[j].id == prev[k].id {
        assert prev[k] in prev;
        assert prev[k].id in NodeIds(prev);
        assert NodeIds(prev) == NodeIds(s');
        var m :| m in s' && m.id == prev[k].id;
        var j :| 0 <= j < |s'| && s'[j] == m;
      }
      forall k, i | 0 <= k < |r| && 0 <= i < |s| && s[i].id == r[k].id && FirstMention(s, i)
        ensures r[k] == s[i]
      {
        if i < |s| - 1 {
          assert s'[i] == s[i];
          assert FirstMention(s', i);
        }
      }
    }
  }

  lemma {:induction false} PersonNodesIds(ps: seq<Person>)
    ensures NodeIds(PersonNodes(ps)) == set p | p in ps :: p.id
    decreases |ps|
  {
    if ps != [] {
      var ps' := ps[..|ps| - 1];
      PersonNodesIds(ps');
      NodeIdsAppend(PersonNodes(ps'), PersonNodeOf(ps[|ps| - 1]));
      assert ps == ps' + [ps[|ps| - 1]];
      assert forall p :: p in ps <==> p in ps' || p == ps[|ps| - 1];
    }
  }

  lemma {:induction false} PeopleStepsNodes(g: Graph, e: EnrichedEvent, ps: seq<Person>)
    ensures PeopleSteps(g, e, ps).nodes == AddNodes(g.nodes, PersonNodes(ps))
    decreases |ps|
  {
    if ps != [] {
      var ps' := ps[..|ps| - 1];
      PeopleStepsNodes(g, e, ps');
      var pn := PersonNodes(ps);
      assert pn[..|pn| - 1] == PersonNodes(ps');
    }
  }

  lemma EventStepNodes(g: Graph, e: EnrichedEvent)
    ensures EventStep(g, e).nodes == AddNodes(g.nodes, LocationMention(e) + PersonNodes(e.people))
  {
    PeopleStepsNodes(AddLocation(g, e), e, e.people);
    if e.location.Some? {
      var m := LocationMention(e);
      assert m[..|m| - 1] == [];
    }
    AddNodesAppend(g.nodes, LocationMention(e), PersonNodes(e.people));
  }

  /** The nested loops insert exactly the flat list of mentions, first seen wins. */
  lemma {:induction false} BuildNodesFromMentions(events: seq<EnrichedEvent>)
    ensures Build(events).nodes == AddNodes([], Mentions(events))
    decreases |events|
  {
    if events != [] {
      var front := events[..|events| - 1];
      var e := events[|events| - 1];
      var mf := Mentions(front);
      var tail := LocationMention(e) + PersonNodes(e.people);
      assert Mentions(events) == mf + tail;
      calc {
        Build(events).nodes;
        EventStep(Build(front), e).nodes;
        { EventStepNodes(Build(front), e); }
        AddNodes(Build(front).nodes, tail);
        { BuildNodesFromMentions(front); }
        AddNodes(AddNodes([], mf), tail);
        { AddNodesAppend([], mf, tail); }
        AddNodes([], mf + tail);
      }
    }
  }

  /** Node ids are unique. */
  lemma NodeIdsUnique(events: seq<EnrichedEvent>)
    ensures UniqueIds(Build(events).nodes)
  {
    BuildNodesFromMentions(events);
    AddNodesUnique([], Mentions(events));
  }

  lemma {:induction false} MentionsIds(events: seq<EnrichedEvent>)
    ensures NodeIds(Mentions(events)) == MentionedIds(events)
    decreases |events|
  {
    if events != [] {
      var front := events[..|events| - 1];
      var e := events[|events| - 1];
      MentionsIds(front);
      NodeIdsConcat(Mentions(front) + LocationMention(e), PersonNodes(e.people));
      NodeIdsConcat(Mentions(front), LocationMention(e));
      PersonNodesIds(e.people);
      if e.location.Some? {
        NodeIdsAppend([], LocationNodeOf(e.location.value));
        assert [] + [LocationNodeOf(e.location.value)] == LocationMention(e);
      } else {
        assert LocationMention(e) == [];
      }
    }
  }

  /** The node ids are exactly the location ids of events that have a location
      and the person ids of all events. */
  lemma NodeIdsExact(events: seq<EnrichedEvent>)
    ensures NodeIds(Build(events).nodes) == MentionedIds(events)
  {
    BuildNodesFromMentions(events);
    AddNodesIds([], Mentions(events));
    MentionsIds(events);
    assert NodeIds([]) == {};
  }

  lemma {:induction false} MentionedIdsMeaning(events: seq<EnrichedEvent>)
    ensures forall x :: x in MentionedIds(events) <==> exists e :: e in events && References(e, x)
    decreases |events|
  {
    if events != [] {
      var front := events[..|events| - 1];
      var last := events[|events| - 1];
      MentionedIdsMeaning(front);
      assert events == front + [last];
      forall x ensures x in MentionedIds(events) <==> exists e :: e in events && References(e, x)
      {
        if x in EventIds(last) {
          if !(last.location.Some? && last.location.value.id == x) {
            var p :| p in last.people && p.id == x;
          }
          assert References(last, x);
        }
        if exists e :: e in events && References(e, x) {
          var e :| e in events && References(e, x);
          if e == last {
            if !(e.location.Some? && e.location.value.id == x) {
              var p :| p in e.people && p.id == x;
              assert x in EventIds(last);
            }
          } else {
            assert e in front;
          }
        }
      }
    }
  }

  /** The node for an id is the one proposed first: a later event carrying an
      already-seen id never changes that node's label, type or radius. */
  lemma FirstSeenWins(events: seq<EnrichedEvent>)
    ensures forall k, i :: 0 <= k < |Build(events).nodes| && 0 <= i < |Mentions(events)|
                           && Mentions(events)[i].id == Build(events).nodes[k].id && FirstMention(Mentions(events), i)
                           ==> Build(events).nodes[k] == Mentions(events)[i]
  {
    BuildNodesFromMentions(events);
    AddNodesFirstSeenWins(Mentions(events));
  }

  lemma {:induction false} CoLinksPrefix(links: seq<GraphLink>, a: string, others: seq<Person>)
    ensures links <= CoLinks(links, a, others)
    decreases |others|
  {
    if others != [] {
      CoLinksPrefix(links, a, others[..|others| - 1]);
    }
  }

  lemma {:induction false} PeopleStepsPrefix(g: Graph, e: EnrichedEvent, ps: seq<Person>)
    ensures g.links <= PeopleSteps(g, e, ps).links
    ensures g.nodes <= PeopleSteps(g, e, ps).nodes
    decreases |ps|
  {
    if ps != [] {
      var ps' := ps[..|ps| - 1];
      var prev := PeopleSteps(g, e, ps');
      PeopleStepsPrefix(g, e, ps');
      var links := if e.location.Some? then prev.links + [LocatedAtLink(ps[|ps| - 1], e.location.value)] else prev.links;
      CoLinksPrefix(links, ps[|ps| - 1].id, e.people);
    }
  }

  /** Building from a longer event list only appends nodes and links. */
  lemma {:induction false} BuildOnlyAppends(events: seq<EnrichedEvent>, k: nat)
    requires k <= |events|
    ensures Build(events[..k]).nodes <= Build(events).nodes
    ensures Build(events[..k]).links <= Build(events).links
    decreases |events|
  {
    if k < |events| {
      var front := events[..|events| - 1];
      assert front[..k] == events[..k];
      BuildOnlyAppends(front, k);
      var g := AddLocation(Build(front), events[|events| - 1]);
      PeopleStepsPrefix(g, events[|events| - 1], events[|events| - 1].people);
    } else {
      assert events[..k] == events;
    }
  }

  lemma {:induction false} LocatedAtLinksAppend(a: seq<GraphLink>, b: seq<GraphLink>)
    ensures LocatedAtLinks(a + b) == LocatedAtLinks(a) + LocatedAtLinks(b)
    decreases |b|
  {
    if b == [] {
      assert a + b == a;
    } else {
      var b' := b[..|b| - 1];
      assert (a + b)[..|a + b| - 1] == a + b';
      assert (a + b)[|a + b| - 1] == b[|b| - 1];
      LocatedAtLinksAppend(a, b');
    }
  }

  lemma {:induction false} CoLinksLocatedAt(links: seq<GraphLink>, a: string, others: seq<Person>)
    ensures LocatedAtLinks(CoLinks(links, a, others)) == LocatedAtLinks(links)
    decreases |others|
  {
    if others != [] {
      var prev := CoLinks(links, a, others[..|others| - 1]);
      CoLinksLocatedAt(links, a, others[..|others| - 1]);
      var b := others[|others| - 1].id;
      if a != b && !LinkBetween(prev, a, b) {
        assert (prev + [ParticipatedLink(a, b)])[..|prev|] == prev;
      }
    }
  }

  lemma {:induction false} PeopleStepsLocatedAt(g: Graph, e: EnrichedEvent, ps: seq<Person>)
    ensures LocatedAtLinks(PeopleSteps(g, e, ps).links)
            == LocatedAtLinks(g.links) + (if e.location.Some? then PersonLocatedAt(ps, e.location.value) else [])
    decreases |ps|
  {
    if ps != [] {
      var ps' := ps[..|ps| - 1];
      var p := ps[|ps| - 1];
      var prev := PeopleSteps(g, e, ps');
      PeopleStepsLocatedAt(g, e, ps');
      var links := if e.location.Some? then prev.links + [LocatedAtLink(p, e.location.value)] else prev.links;
      CoLinksLocatedAt(links, p.id, e.people);
      if e.location.Some? {
        LocatedAtLinksAppend(prev.links, [LocatedAtLink(p, e.location.value)]);
        assert LocatedAtLinks([LocatedAtLink(p, e.location.value)]) == [LocatedAtLink(p, e.location.value)];
      }
    }
  }

  /** Exactly one person-to-location link per (event with a location, entry of
      its people), in order; repeats are kept, there is no duplicate check. */
  lemma {:induction false} LocatedAtExact(events: seq<EnrichedEvent>)
    ensures LocatedAtLinks(Build(events).links) == ExpectedLocatedAt(events)
    decreases |events|
  {
    if events != [] {
      var front := events[..|events| - 1];
      var e := events[|events| - 1];
      LocatedAtExact(front);
      PeopleStepsLocatedAt(AddLocation(Build(front), e), e, e.people);
    }
  }

  lemma {:induction false} CoLinksKeepFresh(links: seq<GraphLink>, a: string, others: seq<Person>)
    requires CoLinksFresh(links)
    ensures CoLinksFresh(CoLinks(links, a, others))
    decreases |others|
  {
    if others != [] {
      CoLinksKeepFresh(links, a, others[..|others| - 1]);
    }
  }

  lemma {:induction false} PeopleStepsKeepFresh(g: Graph, e: EnrichedEvent, ps: seq<Person>)
    requires CoLinksFresh(g.links)
    ensures CoLinksFresh(PeopleSteps(g, e, ps).links)
    decreases |ps|
  {
    if ps != [] {
      var ps' := ps[..|ps| - 1];
      var p := ps[|ps| - 1];
      var prev := PeopleSteps(g, e, ps');
      PeopleStepsKeepFresh(g, e, ps');
      var links := if e.location.Some? then prev.links + [LocatedAtLink(p, e.location.value)] else prev.links;
      assert CoLinksFresh(links);
      CoLinksKeepFresh(links, p.id, e.people);
    }
  }

  /** No co-occurrence link is a self-link, each has value 2, and it is pushed
      only when no earlier link joins the pair in either orientation; so no
      two co-occurrence links join the same unordered pair. */
  lemma {:induction false} CoLinksDeduplicated(events: seq<EnrichedEvent>)
    ensures CoLinksFresh(Build(events).links)
    ensures forall i, j :: 0 <= i < j < |Build(events).links| && Build(events).links[i].kind == Participated
                           && Build(events).links[j].kind == Participated
                           ==> !Joins(Build(events).links[i], Build(events).links[j].source, Build(events).links[j].target)
    decreases |events|
  {
    if events != [] {
      var front := events[..|events| - 1];
      var e := events[|events| - 1];
      CoLinksDeduplicated(front);
      PeopleStepsKeepFresh(AddLocation(Build(front), e), e, e.people);
    }
  }

  lemma {:induction false} CoLinksCover(links: seq<GraphLink>, a: string, others: seq<Person>)
    ensures forall q :: q in others && q.id != a ==> LinkBetween(CoLinks(links, a, others), a, q.id)
    decreases |others|
  {
    if others != [] {
      var front := others[..|others| - 1];
      var last := others[|others| - 1];
      var prev := CoLinks(links, a, front);
      CoLinksCover(links, a, front);
      var r := CoLinks(links, a, others);
      assert prev <= r;
      forall q | q in others && q.id != a ensures LinkBetween(r, a, q.id) {
        if q in front {
          var i :| 0 <= i < |prev| && Joins(prev[i], a, q.id);
          assert r[i] == prev[i];
        } else {
          assert others == front + [last];
          assert q == last;
          if !LinkBetween(prev, a, q.id) {
            assert Joins(r[|prev|], a, q.id);
          } else {
            var i :| 0 <= i < |prev| && Joins(prev[i], a, q.id);
            assert r[i] == prev[i];
          }
        }
      }
    }
  }

  lemma LinkBetweenPrefix(a: seq<GraphLink>, b: seq<GraphLink>, x: string, y: string)
    requires a <= b && LinkBetween(a, x, y)
    ensures LinkBetween(b, x, y)
  {
    var i :| 0 <= i < |a| && Joins(a[i], x, y);
    assert b[i] == a[i];
  }

  lemma {:induction false} PeopleStepsCover(g: Graph, e: EnrichedEvent, ps: seq<Person>)
    ensures forall p, q :: p in ps && q in e.people && p.id != q.id ==> LinkBetween(PeopleSteps(g, e, ps).links, p.id, q.id)
    decreases |ps|
  {
    if ps != [] {
      var ps' := ps[..|ps| - 1];
      var last := ps[|ps| - 1];
      var prev := PeopleSteps(g, e, ps');
      var r := PeopleSteps(g, e, ps);
      PeopleStepsCover(g, e, ps');
      var links := if e.location.Some? then prev.links + [LocatedAtLink(last, e.location.value)] else prev.links;
      CoLinksPrefix(links, last.id, e.people);
      CoLinksCover(links, last.id, e.people);
      assert prev.links <= links;
      forall p, q | p in ps && q in e.people && p.id != q.id ensures LinkBetween(r.links, p.id, q.id) {
        assert ps == ps' + [last];
        if p in ps' {
          LinkBetweenPrefix(prev.links, r.links, p.id, q.id);
        }
      }
    }
  }

  /** Two distinct people who appear together in some event are joined by a
      link in some orientation. */
  lemma {:induction false} CoOccurrenceCovered(events: seq<EnrichedEvent>)
    ensures CoOccurrencesLinked(events, Build(events).links)
    decreases |events|
  {
    if events != [] {
      var front := events[..|events| - 1];
      var last := events[|events| - 1];
      CoOccurrenceCovered(front);
      var g := AddLocation(Build(front), last);
      PeopleStepsPrefix(g, last, last.people);
      PeopleStepsCover(g, last, last.people);
      forall e, p, q | e in events && p in e.people && q in e.people && p.id != q.id
        ensures LinkBetween(Build(events).links, p.id, q.id)
      {
        assert events == front + [last];
        if e in front {
          LinkBetweenPrefix(Build(front).links, Build(events).links, p.id, q.id);
        }
      }
    }
  }

  lemma CoLinksEndpoints(links: seq<GraphLink>, a: string, others: seq<Person>, ids: set<string>)
    requires EndpointsIn(links, ids) && a in ids
    requires forall q :: q in others ==> q.id in ids
    ensures EndpointsIn(CoLinks(links, a, others), ids)
    decreases |others|
  {
    if others != [] {
      CoLinksEndpoints(links, a, others[..|others| - 1], ids);
      assert others[|others| - 1] in others;
    }
  }

  lemma {:induction false} PeopleStepsEndpoints(g: Graph, e: EnrichedEvent, ps: seq<Person>, ids: set<string>)
    requires EndpointsIn(g.links, ids)
    requires forall q :: q in e.people ==> q.id in ids
    requires forall q :: q in ps ==> q.id in ids
    requires e.location.Some? ==> e.location.value.id in ids
    ensures EndpointsIn(PeopleSteps(g, e, ps).links, ids)
    decreases |ps|
  {
    if ps != [] {
      var ps' := ps[..|ps| - 1];
      var last := ps[|ps| - 1];
      assert last in ps;
      assert forall q :: q in ps' ==> q in ps;
      PeopleStepsEndpoints(g, e, ps', ids);
      var prev := PeopleSteps(g, e, ps');
      var links := if e.location.Some? then prev.links + [LocatedAtLink(last, e.location.value)] else prev.links;
      CoLinksEndpoints(links, last.id, e.people, ids);
    }
  }

  lemma {:induction false} MentionedIdsGrow(events: seq<EnrichedEvent>, k: nat)
    requires k <= |events|
    ensures MentionedIds(events[..k]) <= MentionedIds(events)
    decreases |events|
  {
    if k < |events| {
      var front := events[..|events| - 1];
      assert front[..k] == events[..k];
      MentionedIdsGrow(front, k);
    } else {
      assert events[..k] == events;
    }
  }

  lemma {:induction false} LinkEndpointsInMentioned(events: seq<EnrichedEvent>)
    ensures EndpointsIn(Build(events).links, MentionedIds(events))
    decreases |events|
  {
    if events != [] {
      var front := events[..|events| - 1];
      var last := events[|events| - 1];
      LinkEndpointsInMentioned(front);
      MentionedIdsGrow(events, |events| - 1);
      var ids := MentionedIds(events);
      assert forall q :: q in last.people ==> q.id in EventIds(last);
      PeopleStepsEndpoints(AddLocation(Build(front), last), last, last.people, ids);
    }
  }

  /** Every link's source and target is the id of an output node. */
  lemma LinkEndpointsAreNodes(events: seq<EnrichedEvent>)
    ensures EndpointsIn(Build(events).links, NodeIds(Build(events).nodes))
  {
    LinkEndpointsInMentioned(events);
    NodeIdsExact(events);
  }

  /** Everything the builder promises, about the graph `Build` describes. */
  lemma BuildProperties(events: seq<EnrichedEvent>)
    ensures UniqueIds(Build(events).nodes)
    ensures forall x :: x in NodeIds(Build(events).nodes) <==> exists e :: e in events && References(e, x)
    ensures EndpointsIn(Build(events).links, NodeIds(Build(events).nodes))
    ensures LocatedAtLinks(Build(events).links) == ExpectedLocatedAt(events)
    ensures CoLinksFresh(Build(events).links)
    ensures CoOccurrencesLinked(events, Build(events).links)
  {
    NodeIdsUnique(events);
    NodeIdsExact(events);
    MentionedIdsMeaning(events);
    LinkEndpointsAreNodes(events);
    LocatedAtExact(events);
    CoLinksDeduplicated(events);
    CoOccurrenceCovered(events);
  }

  /** A click on any node built from the events selects an event. */
  lemma ClickAlwaysSelects(events: seq<EnrichedEvent>)
    ensures forall n :: n in Build(events).nodes ==> ClickSelection(events, n.id).Some?
  {
    NodeIdsExact(events);
    MentionedIdsMeaning(events);
    forall n | n in Build(events).nodes ensures ClickSelection(events, n.id).Some? {
      assert n.id in NodeIds(Build(events).nodes);
    }
  }

  /** A person listed twice in an event with a location gets two identical
      person-to-location links. */
  lemma PersonListedTwiceLinksTwice(p: Person, l: Location, e: EnrichedEvent)
    requires e.location == Some(l) && e.people == [p, p]
    ensures LocatedAtLinks(Build([e]).links) == [LocatedAtLink(p, l), LocatedAtLink(p, l)]
  {
    LocatedAtExact([e]);
    assert [e][..0] == [];
    assert ExpectedLocatedAt([]) == [];
    assert ExpectedLocatedAt([e]) == PersonLocatedAt([p, p], l);
    assert [p, p][..1] == [p];
    assert [p][..0] == [];
    assert PersonLocatedAt([p], l) == [LocatedAtLink(p, l)];
  }

  /** The first event of the scenario below: a location node, a person node
      and the link between them. */
  lemma FirstVisit(a: Person, l: Location, e1: EnrichedEvent)
    requires l.id != a.id && e1.people == [a] && e1.location == Some(l)
    ensures EventStep(Graph([], []), e1) == Graph([LocationNodeOf(l), PersonNodeOf(a)], [LocatedAtLink(a, l)])
  {
    var g1 := Graph([LocationNodeOf(l), PersonNodeOf(a)], [LocatedAtLink(a, l)]);
    assert [a][..0] == [];
    assert AddLocation(Graph([], []), e1) == Graph([LocationNodeOf(l)], []);
    assert CoLinks([LocatedAtLink(a, l)], a.id, [a]) == [LocatedAtLink(a, l)];
    NodeIdsAppend([], LocationNodeOf(l));
    assert NodeIds([]) == {};
    assert [] + [LocationNodeOf(l)] == [LocationNodeOf(l)];
    assert AddNode([LocationNodeOf(l)], PersonNodeOf(a)) == g1.nodes;
    assert [] + [LocatedAtLink(a, l)] == [LocatedAtLink(a, l)];
    assert PersonStep(Graph([LocationNodeOf(l)], []), e1, a) == g1;
    assert PeopleSteps(Graph([LocationNodeOf(l)], []), e1, [a]) == g1;
  }

  /** The second event: the location is known, a second person and link are added. */
  lemma SecondVisit(a: Person, b: Person, l: Location, e2: EnrichedEvent)
    requires a.id != b.id && l.id != a.id && l.id != b.id
    requires e2.people == [b] && e2.location == Some(l)
    ensures EventStep(Graph([LocationNodeOf(l), PersonNodeOf(a)], [LocatedAtLink(a, l)]), e2)
         == Graph([LocationNodeOf(l), PersonNodeOf(a), PersonNodeOf(b)], [LocatedAtLink(a, l), LocatedAtLink(b, l)])
  {
    var g1 := Graph([LocationNodeOf(l), PersonNodeOf(a)], [LocatedAtLink(a, l)]);
    var links2 := [LocatedAtLink(a, l), LocatedAtLink(b, l)];
    var g2 := Graph([LocationNodeOf(l), PersonNodeOf(a), PersonNodeOf(b)], links2);
    assert [b][..0] == [];
    NodeIdsAppend([], LocationNodeOf(l));
    assert NodeIds([]) == {};
    assert [] + [LocationNodeOf(l)] == [LocationNodeOf(l)];
    NodeIdsAppend([LocationNodeOf(l)], PersonNodeOf(a));
    assert NodeIds(g1.nodes) == {l.id, a.id};
    assert AddLocation(g1, e2) == g1;
    assert AddNode(g1.nodes, PersonNodeOf(b)) == g2.nodes;
    assert g1.links + [LocatedAtLink(b, l)] == links2;
    assert CoLinks(links2, b.id, e2.people) == links2;
    assert PersonStep(g1, e2, b) == g2;
    assert PeopleSteps(g1, e2, [b]) == g2;
  }

  /** The third event: no location and both people known, so only the
      co-occurrence link is added. */
  lemma Meeting(a: Person, b: Person, l: Location, e3: EnrichedEvent)
    requires a.id != b.id && l.id != a.id && l.id != b.id
    requires e3.people == [a, b] && e3.location.None?
    ensures EventStep(Graph([LocationNodeOf(l), PersonNodeOf(a), PersonNodeOf(b)], [LocatedAtLink(a, l), LocatedAtLink(b, l)]), e3)
         == Graph([LocationNodeOf(l), PersonNodeOf(a), PersonNodeOf(b)],
                  [LocatedAtLink(a, l), LocatedAtLink(b, l), ParticipatedLink(a.id, b.id)])
  {
    var links2 := [LocatedAtLink(a, l), LocatedAtLink(b, l)];
    var g2 := Graph([LocationNodeOf(l), PersonNodeOf(a), PersonNodeOf(b)], links2);
    var links3 := links2 + [ParticipatedLink(a.id, b.id)];
    assert [a][..0] == [] && [a, b][..1] == [a];
    assert NodeIds(g2.nodes) == {l.id, a.id, b.id} by {
      assert forall n :: n in g2.nodes <==> n == LocationNodeOf(l) || n == PersonNodeOf(a) || n == PersonNodeOf(b);
    }
    assert AddNode(g2.nodes, PersonNodeOf(a)) == g2.nodes;
    assert AddNode(g2.nodes, PersonNodeOf(b)) == g2.nodes;
    assert !LinkBetween(links2, a.id, b.id) by {
      forall i | 0 <= i < |links2| ensures !Joins(links2[i], a.id, b.id) {
      }
    }
    assert CoLinks(links2, a.id, [a]) == links2;
    assert CoLinks(links2, a.id, [a, b]) == links3;
    assert Joins(links3[2], b.id, a.id);
    assert CoLinks(links3, b.id, [a]) == links3;
    assert CoLinks(links3, b.id, [a, b]) == links3;
    assert PeopleSteps(g2, e3, [a]) == Graph(g2.nodes, links3);
    assert PeopleSteps(g2, e3, [a, b]) == Graph(g2.nodes, links3);
  }

  /** Two people who share a location in two events and meet in a third,
      without a location: three nodes and exactly three links, one per
      person to the location and one between the two people. */
  lemma SharedLocationScenario(a: Person, b: Person, l: Location, e1: EnrichedEvent, e2: EnrichedEvent, e3: EnrichedEvent)
    requires a.id != b.id && l.id != a.id && l.id != b.id
    requires e1.people == [a] && e1.location == Some(l)
    requires e2.people == [b] && e2.location == Some(l)
    requires e3.people == [a, b] && e3.location.None?
    ensures Build([e1, e2, e3]).nodes == [LocationNodeOf(l), PersonNodeOf(a), PersonNodeOf(b)]
    ensures Build([e1, e2, e3]).links == [LocatedAtLink(a, l), LocatedAtLink(b, l), ParticipatedLink(a.id, b.id)]
  {
    assert [e1, e2, e3][..2] == [e1, e2];
    assert [e1, e2][..1] == [e1];
    assert [e1][..0] == [];
    assert Build([]) == Graph([], []);
    FirstVisit(a, l, e1);
    assert Build([e1]) == EventStep(Graph([], []), e1);
    SecondVisit(a, b, l, e2);
    assert Build([e1, e2]) == EventStep(Build([e1]), e2);
    Meeting(a, b, l, e3);
    assert Build([e1, e2, e3]) == EventStep(Build([e1, e2]), e3);
  }
}
