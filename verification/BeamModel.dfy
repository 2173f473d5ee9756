/**
 A document's paths and connections made into a network, and the questions asked of it.

 The class fills its fields in place, edge by edge; `EdgesOf` is the list of edges a document means, in the
 order they are added.
 */
module BeamModel {
  import opened BeamNetwork
  import opened Graphs
  import opened Numbering
  import opened Wrappers

  datatype Placement = Placement(component: string, id: Option<string>, reversed: bool)

  datatype Path = Path(id: string, closed: bool, placements: seq<Placement>)

  datatype End = End(path: string, ref: Option<string>)

  datatype Connection = Connection(kind: string, from: End, to: End)

  datatype Document = Document(paths: seq<Path>, connections: seq<Connection>)

  datatype Edge = Edge(from: Node, to: Node, kind: string)

  // ------------------------------------------------------------------ what a document means

  /** How many of the placements are of this component. */
  function Count(placements: seq<Placement>, component: string): nat {
    if placements == [] then 0
    else
      Count(placements[..|placements| - 1], component)
      + if placements[|placements| - 1].component == component then 1 else 0
  }

  function PlacementId(p: Path, i: nat): string
    requires i < |p.placements|
  {
    var placement := p.placements[i];
    var uses := Count(p.placements[..i + 1], placement.component);
    if placement.id.Some? && placement.id.value != "" then placement.id.value
    else if uses == 1 then placement.component
    else Numbered(placement.component, uses)
  }

  function NodeAt(p: Path, i: nat): Node
    requires i < |p.placements|
  {
    Node(p.id, i, p.placements[i].component, PlacementId(p, i), p.placements[i].reversed)
  }

  function Row(p: Path): (row: seq<Node>)
    ensures |row| == |p.placements|
  {
    seq(|p.placements|, i requires 0 <= i < |p.placements| => NodeAt(p, i))
  }

  function Consecutive(row: seq<Node>, n: nat): seq<Edge>
    requires n < |row| || n == 0
  {
    if n == 0 then [] else Consecutive(row, n - 1) + [Edge(row[n - 1], row[n], "next")]
  }

  function PathEdges(p: Path): seq<Edge> {
    var row := Row(p);
    Consecutive(row, if row == [] then 0 else |row| - 1)
    + if p.closed && |row| > 1 then [Edge(row[|row| - 1], row[0], "closes")] else []
  }

  function AllPathEdges(paths: seq<Path>): seq<Edge> {
    if paths == [] then []
    else AllPathEdges(paths[..|paths| - 1]) + PathEdges(paths[|paths| - 1])
  }

  function AllNodesOf(paths: seq<Path>): seq<Node> {
    if paths == [] then []
    else AllNodesOf(paths[..|paths| - 1]) + Row(paths[|paths| - 1])
  }

  function RowsById(paths: seq<Path>): map<string, seq<Node>> {
    if paths == [] then map[]
    else RowsById(paths[..|paths| - 1])[paths[|paths| - 1].id := Row(paths[|paths| - 1])]
  }

  function FirstWith(row: seq<Node>, ref: string, byComponent: bool): Option<Node> {
    if row == [] then None
    else if (if byComponent then row[0].component else row[0].placement) == ref then Some(row[0])
    else FirstWith(row[1..], ref, byComponent)
  }

  /** The placement an end names: by placement id, else by component, else the path's first or last. */
  function EndpointOf(rows: map<string, seq<Node>>, path: string, ref: Option<string>, first: bool): Option<Node> {
    var row := if path in rows then rows[path] else [];
    if row == [] then None
    else match ref
      case None => Some(if first then row[0] else row[|row| - 1])
      case Some(name) =>
        var hit := FirstWith(row, name, false);
        if hit.Some? then hit else FirstWith(row, name, true)
  }

  function Joins(rows: map<string, seq<Node>>, c: Connection): seq<Edge> {
    var a := EndpointOf(rows, c.from.path, c.from.ref, false);
    var b := EndpointOf(rows, c.to.path, c.to.ref, true);
    if a.Some? && b.Some? then [Edge(a.value, b.value, c.kind)] else []
  }

  function AllJoins(rows: map<string, seq<Node>>, connections: seq<Connection>): seq<Edge> {
    if connections == [] then []
    else AllJoins(rows, connections[..|connections| - 1]) + Joins(rows, connections[|connections| - 1])
  }

  /** The connections that join nothing, in order. */
  function Unjoined(rows: map<string, seq<Node>>, connections: seq<Connection>): seq<Connection> {
    if connections == [] then []
    else
      var last := connections[|connections| - 1];
      Unjoined(rows, connections[..|connections| - 1]) + if Joins(rows, last) == [] then [last] else []
  }

  /** The place in a path's row that an end means: with no name, the first or the last; by name, the first placement
      so called, or when there is none the first of that component. */
  ghost predicate Means(row: seq<Node>, ref: Option<string>, first: bool, i: nat) {
    i < |row| &&
    match ref
    case None => i == if first then 0 else |row| - 1
    case Some(name) =>
      if exists n :: n in row && n.placement == name
      then row[i].placement == name && forall j :: 0 <= j < i ==> row[j].placement != name
      else row[i].component == name && forall j :: 0 <= j < i ==> row[j].component != name
  }

  ghost predicate MeansNone(row: seq<Node>, ref: Option<string>) {
    row == [] || (ref.Some? && forall n :: n in row ==> n.placement != ref.value && n.component != ref.value)
  }

  lemma {:induction false} FirstWithIs(row: seq<Node>, ref: string, byComponent: bool) returns (i: nat)
    ensures i <= |row| && forall j :: 0 <= j < i ==> (if byComponent then row[j].component else row[j].placement) != ref
    ensures i < |row| ==> (if byComponent then row[i].component else row[i].placement) == ref
    ensures FirstWith(row, ref, byComponent) == if i < |row| then Some(row[i]) else None
  {
    if row == [] || (if byComponent then row[0].component else row[0].placement) == ref {
      i := 0;
    } else {
      var k := FirstWithIs(row[1..], ref, byComponent);
      i := k + 1;
    }
  }

  /** An end is the placement it means, and there is none exactly when it means none. */
  lemma EndIs(rows: map<string, seq<Node>>, path: string, ref: Option<string>, first: bool, i: nat)
    ensures path in rows && Means(rows[path], ref, first, i) ==>
              EndpointOf(rows, path, ref, first) == Some(rows[path][i])
    ensures EndpointOf(rows, path, ref, first).None? <==> path !in rows || MeansNone(rows[path], ref)
  {
    if path in rows && ref.Some? {
      var row, name := rows[path], ref.value;
      var a := FirstWithIs(row, name, false);
      var b := FirstWithIs(row, name, true);
      assert a < |row| ==> row[a] in row;
      assert b < |row| ==> row[b] in row;
    }
  }

  /** A connection leads from the placement its one end means, the path's last if it names none, to the one its other
      end means, the path's first if it names none. */
  lemma JoinsAre(rows: map<string, seq<Node>>, c: Connection, i: nat, j: nat)
    requires c.from.path in rows && Means(rows[c.from.path], c.from.ref, false, i)
    requires c.to.path in rows && Means(rows[c.to.path], c.to.ref, true, j)
    ensures Joins(rows, c) == [Edge(rows[c.from.path][i], rows[c.to.path][j], c.kind)]
  {
    EndIs(rows, c.from.path, c.from.ref, false, i);
    EndIs(rows, c.to.path, c.to.ref, true, j);
  }

  /** It is no edge exactly when one of its ends means no placement. */
  lemma JoinsNoneIff(rows: map<string, seq<Node>>, c: Connection)
    ensures Joins(rows, c) == [] <==>
              || c.from.path !in rows || MeansNone(rows[c.from.path], c.from.ref)
              || c.to.path !in rows || MeansNone(rows[c.to.path], c.to.ref)
  {
    EndIs(rows, c.from.path, c.from.ref, false, 0);
    EndIs(rows, c.to.path, c.to.ref, true, 0);
  }

  /** From the end of one path to the beginning of the other. */
  lemma EndToStart(rows: map<string, seq<Node>>, c: Connection)
    requires c.from.ref.None? && c.from.path in rows && rows[c.from.path] != []
    requires c.to.ref.None? && c.to.path in rows && rows[c.to.path] != []
    ensures Joins(rows, c) == [Edge(rows[c.from.path][|rows[c.from.path]| - 1], rows[c.to.path][0], c.kind)]
  {
    JoinsAre(rows, c, |rows[c.from.path]| - 1, 0);
  }

  lemma JoinsOn(rows: map<string, seq<Node>>, connections: seq<Connection>, i: nat)
    requires i < |connections|
    ensures AllJoins(rows, connections[..i + 1]) == AllJoins(rows, connections[..i]) + Joins(rows, connections[i])
    ensures Unjoined(rows, connections[..i + 1])
         == Unjoined(rows, connections[..i]) + if Joins(rows, connections[i]) == [] then [connections[i]] else []
  {
    assert connections[..i + 1][..i] == connections[..i];
  }

  lemma {:induction false} UnjoinedAre(rows: map<string, seq<Node>>, connections: seq<Connection>, c: Connection)
    ensures c in Unjoined(rows, connections) <==> c in connections && Joins(rows, c) == []
    decreases |connections|
  {
    if connections != [] {
      UnjoinedAre(rows, connections[..|connections| - 1], c);
    }
  }

  function EdgesOf(doc: Document): seq<Edge> {
    AllPathEdges(doc.paths) + AllJoins(RowsById(doc.paths), doc.connections)
  }

  /** The links out of a node, and into it, in the order their edges were added. */
  function LinksFrom(edges: seq<Edge>, a: Node): seq<Link> {
    if edges == [] then []
    else
      var e := edges[|edges| - 1];
      LinksFrom(edges[..|edges| - 1], a) + if e.from == a then [Link(e.to, e.kind)] else []
  }

  function LinksInto(edges: seq<Edge>, b: Node): seq<Link> {
    if edges == [] then []
    else
      var e := edges[|edges| - 1];
      LinksInto(edges[..|edges| - 1], b) + if e.to == b then [Link(e.from, e.kind)] else []
  }

  /** The successor and predecessor lists are those of the same edges. */
  ghost predicate Mirrors(edges: seq<Edge>, succ: Edges, pred: Edges) {
    forall x :: MirrorsAt(edges, succ, pred, x)
  }

  ghost predicate MirrorsAt(edges: seq<Edge>, succ: Edges, pred: Edges, x: Node) {
    Links(succ, x) == LinksFrom(edges, x) && Links(pred, x) == LinksInto(edges, x)
  }

  lemma MirrorsOn(edges: seq<Edge>, succ: Edges, pred: Edges, e: Edge)
    requires Mirrors(edges, succ, pred)
    ensures Mirrors(edges + [e], succ[e.from := Links(succ, e.from) + [Link(e.to, e.kind)]],
                    pred[e.to := Links(pred, e.to) + [Link(e.from, e.kind)]])
  {
    var more := edges + [e];
    assert more[..|more| - 1] == edges;
    var s := succ[e.from := Links(succ, e.from) + [Link(e.to, e.kind)]];
    var p := pred[e.to := Links(pred, e.to) + [Link(e.from, e.kind)]];
    forall x ensures MirrorsAt(more, s, p, x) {
      assert MirrorsAt(edges, succ, pred, x);
    }
  }

  lemma {:induction false} InLinksFrom(edges: seq<Edge>, a: Node, b: Node, kind: string)
    ensures multiset(LinksFrom(edges, a))[Link(b, kind)] == multiset(edges)[Edge(a, b, kind)]
  {
    if edges != [] {
      var front, e := edges[..|edges| - 1], edges[|edges| - 1];
      InLinksFrom(front, a, b, kind);
      assert edges == front + [e];
    }
  }

  lemma {:induction false} InLinksInto(edges: seq<Edge>, a: Node, b: Node, kind: string)
    ensures multiset(LinksInto(edges, b))[Link(a, kind)] == multiset(edges)[Edge(a, b, kind)]
  {
    if edges != [] {
      var front, e := edges[..|edges| - 1], edges[|edges| - 1];
      InLinksInto(front, a, b, kind);
      assert edges == front + [e];
    }
  }

  /** Each link downstream is one link upstream, as many times. */
  lemma Transposed(edges: seq<Edge>, succ: Edges, pred: Edges, a: Node, b: Node, kind: string)
    requires Mirrors(edges, succ, pred)
    ensures multiset(Links(succ, a))[Link(b, kind)] == multiset(Links(pred, b))[Link(a, kind)]
  {
    assert MirrorsAt(edges, succ, pred, a) && MirrorsAt(edges, succ, pred, b);
    InLinksFrom(edges, a, b, kind);
    InLinksInto(edges, a, b, kind);
  }

  lemma PlainTransposed(edges: seq<Edge>, succ: Edges, pred: Edges, a: Node, b: Node)
    requires Mirrors(edges, succ, pred)
    ensures b in Out(Plain(succ), a) <==> a in Out(Plain(pred), b)
  {
    PlainOut(succ, a, b);
    PlainOut(pred, b, a);
    if b in Out(Plain(succ), a) {
      var e :| e in Links(succ, a) && e.node == b;
      Transposed(edges, succ, pred, a, b, e.kind);
      assert Link(a, e.kind) in Links(pred, b);
    }
    if a in Out(Plain(pred), b) {
      var e :| e in Links(pred, b) && e.node == a;
      Transposed(edges, succ, pred, a, b, e.kind);
      assert Link(b, e.kind) in Links(succ, a);
    }
  }

  /** A placement is `d` edges downstream of another exactly when that one is `d` edges upstream of it. */
  lemma DownstreamIsUpstream(edges: seq<Edge>, succ: Edges, pred: Edges, x: Node, y: Node, d: nat)
    requires Mirrors(edges, succ, pred)
    ensures Distance(succ, [x], y, d) <==> Distance(pred, [y], x, d)
  {
    var g, h := Plain(succ), Plain(pred);
    forall a, b ensures TurnedAt(g, h, a, b) {
      PlainTransposed(edges, succ, pred, a, b);
    }
    TurnedBack(g, h);
    forall n: nat ensures Near(succ, [x], y, n) <==> Near(pred, [y], x, n) {
      NearOne(succ, x, y, n);
      NearOne(pred, y, x, n);
      if Steps(g, x, y, n) {
        StepsTurned(g, h, x, y, n);
      }
      if Steps(h, y, x, n) {
        StepsTurned(h, g, y, x, n);
      }
    }
  }

  lemma NearOne(edges: Edges, s: Node, x: Node, n: nat)
    ensures Near(edges, [s], x, n) <==> Steps(Plain(edges), s, x, n)
  {
    assert s in [s];
  }

  // ------------------------------------------------------------------ rings

  lemma {:induction false} ConsecutiveHas(row: seq<Node>, n: nat, i: nat)
    requires i < n < |row|
    ensures Edge(row[i], row[i + 1], "next") in Consecutive(row, n)
    decreases n
  {
    if i < n - 1 {
      ConsecutiveHas(row, n - 1, i);
    }
  }

  lemma {:induction false} PathEdgeIn(paths: seq<Path>, k: nat, e: Edge)
    requires k < |paths| && e in PathEdges(paths[k])
    ensures e in AllPathEdges(paths)
    decreases |paths|
  {
    if k < |paths| - 1 {
      PathEdgeIn(paths[..|paths| - 1], k, e);
    }
  }

  lemma EdgeIsStep(edges: seq<Edge>, succ: Edges, pred: Edges, e: Edge)
    requires Mirrors(edges, succ, pred) && e in edges
    ensures e.to in Out(Plain(succ), e.from)
  {
    assert MirrorsAt(edges, succ, pred, e.from);
    InLinksFrom(edges, e.from, e.to, e.kind);
    assert multiset(edges)[e] > 0;
    assert Link(e.to, e.kind) in Links(succ, e.from);
    PlainOut(succ, e.from, e.to);
  }

  /** A path's placements follow one another in the network; a closed path's last leads to its first. */
  lemma PathIsChained(doc: Document, succ: Edges, pred: Edges, k: nat)
    requires Mirrors(EdgesOf(doc), succ, pred) && k < |doc.paths|
    ensures var row := Row(doc.paths[k]);
            && Chained(Plain(succ), row)
            && (doc.paths[k].closed && |row| > 1 ==> row[0] in Out(Plain(succ), row[|row| - 1]))
  {
    var row := Row(doc.paths[k]);
    forall i: nat | i + 1 < |row| ensures Leads(Plain(succ), row, i) {
      var e := Edge(row[i], row[i + 1], "next");
      ConsecutiveHas(row, |row| - 1, i);
      PathEdgeIn(doc.paths, k, e);
      EdgeIsStep(EdgesOf(doc), succ, pred, e);
    }
    if doc.paths[k].closed && |row| > 1 {
      var e := Edge(row[|row| - 1], row[0], "closes");
      PathEdgeIn(doc.paths, k, e);
      EdgeIsStep(EdgesOf(doc), succ, pred, e);
    }
  }

  /** Any two placements of a closed path reach each other, in as many edges as the ring has between them. */
  lemma RoundTheRing(doc: Document, succ: Edges, pred: Edges, k: nat, i: nat, j: nat)
    requires Mirrors(EdgesOf(doc), succ, pred) && k < |doc.paths| && doc.paths[k].closed
    requires i < |Row(doc.paths[k])| && j < |Row(doc.paths[k])|
    ensures var row := Row(doc.paths[k]);
            Steps(Plain(succ), row[i], row[j], if i <= j then j - i else |row| - i + j)
  {
    PathIsChained(doc, succ, pred, k);
    if i <= j {
      StepsAlong(Plain(succ), Row(doc.paths[k]), i, j);
    } else {
      StepsAround(Plain(succ), Row(doc.paths[k]), i, j);
    }
  }
}
