/** The network object: filled from a document once, then walked. */
module BeamNet {
  import opened BeamArcs
  import opened BeamModel
  import opened BeamNetwork
  import opened BeamRoutes
  import opened Graphs
  import opened Lists
  import opened NameOrder
  import opened Numbering
  import opened Wrappers

  function Of(nodes: seq<Node>, component: string): seq<Node> {
    if nodes == [] then []
    else
      var last := nodes[|nodes| - 1];
      Of(nodes[..|nodes| - 1], component) + if last.component == component then [last] else []
  }

  /** The first place of a row that a name means: its component or its placement id. */
  function PlaceOf(row: seq<Node>, name: string): (i: Option<nat>)
    ensures i.Some? ==> i.value < |row| && (row[i.value].component == name || row[i.value].placement == name)
  {
    if row == [] then None
    else if row[0].component == name || row[0].placement == name then Some(0)
    else
      var rest := PlaceOf(row[1..], name);
      if rest.Some? then Some(rest.value + 1) else None
  }

  /** The name before the first slash and what follows it. */
  function Slash(name: string): Option<(string, string)> {
    if name == "" then None
    else if name[0] == '/' then Some(("", name[1..]))
    else
      var rest := Slash(name[1..]);
      if rest.Some? then Some(([name[0]] + rest.value.0, rest.value.1)) else None
  }

  function ClosedPath(paths: seq<Path>, id: string): bool {
    paths != [] && if paths[0].id == id then paths[0].closed else ClosedPath(paths[1..], id)
  }

  ghost predicate CountedAt(seen: map<string, nat>, placements: seq<Placement>, c: string) {
    (if c in seen then seen[c] else 0) == Count(placements, c)
  }

  ghost predicate Counted(seen: map<string, nat>, placements: seq<Placement>) {
    forall c :: CountedAt(seen, placements, c)
  }

  lemma CountedOn(seen: map<string, nat>, placements: seq<Placement>, i: nat)
    requires i < |placements| && Counted(seen, placements[..i])
    ensures var c := placements[i].component;
            Counted(seen[c := (if c in seen then seen[c] else 0) + 1], placements[..i + 1])
  {
    var c := placements[i].component;
    var more := seen[c := (if c in seen then seen[c] else 0) + 1];
    assert placements[..i + 1][..i] == placements[..i];
    var upTo := placements[..i + 1];
    forall x ensures CountedAt(more, upTo, x) {
      assert CountedAt(seen, placements[..i], x);
    }
  }

  class Network {
    var doc: Document
    var nodes: seq<Node>
    var byPath: map<string, seq<Node>>
    var byComponent: map<string, seq<Node>>
    var succ: Edges
    var pred: Edges
    var problems: seq<Connection>
    ghost var edges: seq<Edge>

    ghost predicate Valid()
      reads this
    {
      && Mirrors(edges, succ, pred)
      && edges == EdgesOf(doc)
      && nodes == AllNodesOf(doc.paths) && byPath == RowsById(doc.paths)
      && Grouped()
    }

    /** Each component's placements, in order. */
    ghost predicate Grouped()
      reads `nodes, `byComponent
    {
      forall c :: ByComponent(c) == Of(nodes, c)
    }

    function ByComponent(c: string): seq<Node>
      reads `byComponent
    {
      if c in byComponent then byComponent[c] else []
    }

    method AddEdge(a: Node, b: Node, kind: string)
      requires Mirrors(edges, succ, pred)
      modifies this`succ, this`pred, this`edges
      ensures Mirrors(edges, succ, pred) && edges == old(edges) + [Edge(a, b, kind)]
    {
      MirrorsOn(edges, succ, pred, Edge(a, b, kind));
      succ := succ[a := Links(succ, a) + [Link(b, kind)]];
      pred := pred[b := Links(pred, b) + [Link(a, kind)]];
      edges := edges + [Edge(a, b, kind)];
    }

    /** The edges along one path. */
    method AddPathEdges(p: Path, row: seq<Node>)
      requires Mirrors(edges, succ, pred) && row == Row(p)
      modifies this`succ, this`pred, this`edges
      ensures Mirrors(edges, succ, pred) && edges == old(edges) + PathEdges(p)
    {
      if row != [] {
        for i := 1 to |row|
          invariant Mirrors(edges, succ, pred)
          invariant edges == old(edges) + Consecutive(row, i - 1)
        {
          AddEdge(row[i - 1], row[i], "next");
        }
        if p.closed && |row| > 1 {
          AddEdge(row[|row| - 1], row[0], "closes");
        }
      }
    }

    /** One path: its nodes, and the edges along it. */
    method AddPath(p: Path)
      requires Mirrors(edges, succ, pred) && Grouped()
      modifies this`nodes, this`byPath, this`byComponent, this`succ, this`pred, this`edges
      ensures Mirrors(edges, succ, pred) && Grouped()
      ensures nodes == old(nodes) + Row(p) && byPath == old(byPath)[p.id := Row(p)]
      ensures edges == old(edges) + PathEdges(p)
    {
      var row := AddNodes(p);
      byPath := byPath[p.id := row];
      AddPathEdges(p, row);
    }

    method AddNode(node: Node)
      requires Grouped()
      modifies this`nodes, this`byComponent
      ensures Grouped() && nodes == old(nodes) + [node]
    {
      ghost var before := nodes;
      nodes := nodes + [node];
      byComponent := byComponent[node.component := ByComponent(node.component) + [node]];
      assert nodes[..|nodes| - 1] == before;
    }

    /** The nodes of one path: a component's second use of the path is named `component#2`, and so on. */
    method AddNodes(p: Path) returns (row: seq<Node>)
      requires Grouped()
      modifies this`nodes, this`byComponent
      ensures row == Row(p) && nodes == old(nodes) + row && Grouped()
    {
      var seen: map<string, nat> := map[];
      row := [];
      for i := 0 to |p.placements|
        invariant |row| == i && forall k :: 0 <= k < i ==> row[k] == NodeAt(p, k)
        invariant nodes == old(nodes) + row && Grouped()
        invariant Counted(seen, p.placements[..i])
      {
        var placement := p.placements[i];
        var c := placement.component;
        CountedOn(seen, p.placements, i);
        seen := seen[c := (if c in seen then seen[c] else 0) + 1];
        var id := if placement.id.Some? && placement.id.value != "" then placement.id.value
                  else if seen[c] == 1 then c else Numbered(c, seen[c]);
        var node := Node(p.id, i, c, id, placement.reversed);
        assert CountedAt(seen, p.placements[..i + 1], c);
        row := row + [node];
        AddNode(node);
      }
    }

    method AddPaths()
      requires Mirrors(edges, succ, pred) && Grouped() && nodes == [] && byPath == map[] && edges == []
      modifies this`nodes, this`byPath, this`byComponent, this`succ, this`pred, this`edges
      ensures Mirrors(edges, succ, pred) && Grouped()
      ensures nodes == AllNodesOf(doc.paths) && byPath == RowsById(doc.paths) && edges == AllPathEdges(doc.paths)
    {
      for i := 0 to |doc.paths|
        invariant Mirrors(edges, succ, pred) && Grouped()
        invariant nodes == AllNodesOf(doc.paths[..i]) && byPath == RowsById(doc.paths[..i])
        invariant edges == AllPathEdges(doc.paths[..i])
      {
        AddPath(doc.paths[i]);
        assert doc.paths[..i + 1][..i] == doc.paths[..i];
      }
      assert doc.paths[..|doc.paths|] == doc.paths;
    }

    method AddConnection(c: Connection)
      requires Mirrors(edges, succ, pred)
      modifies this`succ, this`pred, this`edges, this`problems
      ensures Mirrors(edges, succ, pred) && edges == old(edges) + Joins(byPath, c)
      ensures problems == old(problems) + if Joins(byPath, c) == [] then [c] else []
    {
      var a := EndpointOf(byPath, c.from.path, c.from.ref, false);
      var b := EndpointOf(byPath, c.to.path, c.to.ref, true);
      if a.None? || b.None? {
        problems := problems + [c];
      } else {
        AddEdge(a.value, b.value, c.kind);
      }
    }

    /** A connection that names no placement is reported, every one, and is no edge. */
    method AddConnections()
      requires Mirrors(edges, succ, pred)
      modifies this`succ, this`pred, this`edges, this`problems
      ensures Mirrors(edges, succ, pred) && edges == old(edges) + AllJoins(byPath, doc.connections)
      ensures problems == old(problems) + Unjoined(byPath, doc.connections)
    {
      for i := 0 to |doc.connections|
        invariant Mirrors(edges, succ, pred)
        invariant edges == old(edges) + AllJoins(byPath, doc.connections[..i])
        invariant problems == old(problems) + Unjoined(byPath, doc.connections[..i])
      {
        var c := doc.connections[i];
        JoinsOn(byPath, doc.connections, i);
        AddConnection(c);
        Regrouped(old(edges), AllJoins(byPath, doc.connections[..i]), Joins(byPath, c));
        Regrouped(old(problems), Unjoined(byPath, doc.connections[..i]), if Joins(byPath, c) == [] then [c] else []);
      }
      assert doc.connections[..|doc.connections|] == doc.connections;
    }

    constructor (doc: Document)
      ensures Valid() && this.doc == doc
      ensures problems == Unjoined(byPath, doc.connections)
    {
      this.doc := doc;
      nodes, byPath, byComponent, succ, pred, problems, edges := [], map[], map[], map[], map[], [], [];
      new;
      AddPaths();
      AddConnections();
    }

    /** The placements a name means: `path/placement`, or every placement of a component. */
    function StartOf(name: string): seq<Node>
      reads this
    {
      var slash := Slash(name);
      if slash.Some? then
        var node := EndpointOf(byPath, slash.value.0, Some(slash.value.1), true);
        if node.Some? then [node.value] else []
      else
        ByComponent(name)
    }

    method Walk(name: string, downstream: bool, n: Option<int>) returns (out: seq<Visit>)
      requires Valid()
      ensures NearestFirst(out) && Walked(if downstream then succ else pred, StartOf(name), n, out)
    {
      out := WalkFrom(if downstream then succ else pred, StartOf(name), n);
    }

    /** Whether one path answers: both names are on it. */
    predicate On(path: string, a: string, b: string)
      reads this
    {
      path in byPath && PlaceOf(byPath[path], a).Some? && PlaceOf(byPath[path], b).Some?
    }

    function AlongPath(path: string, a: string, b: string): seq<Node>
      requires On(path, a, b)
      reads this
    {
      var row := byPath[path];
      Along(row, PlaceOf(row, a).value, PlaceOf(row, b).value, ClosedPath(doc.paths, path))
    }

    /** The paths to try: the one asked for, or those that place both components, in alphabetical order. */
    function Candidates(a: string, b: string, path: Option<string>): seq<string>
      reads this
    {
      if path.Some? && path.value != "" then [path.value]
      else InOrder(OnBoth(ByComponent(a), ByComponent(b)))
    }

    /** The first of the paths that has both. */
    function Answering(paths: seq<string>, a: string, b: string): (path: Option<string>)
      reads this
      ensures path.Some? ==> path.value in paths && On(path.value, a, b)
      ensures path.None? ==> forall p :: p in paths ==> !On(p, a, b)
    {
      if paths == [] then None
      else if On(paths[0], a, b) then Some(paths[0])
      else Answering(paths[1..], a, b)
    }

    /** Inside of a shortest way over both directions, or there is no way. */
    ghost predicate BetweenAcross(a: string, b: string, r: Option<seq<Node>>, route: seq<Node>)
      reads this
    {
      && (r.None? <==> NoRoute(succ, StartOf(a), StartOf(b)) && NoRoute(succ, StartOf(b), StartOf(a)))
      && (r.Some? ==>
            && r.value == Interior(route)
            && (Shortest(succ, route, StartOf(a), StartOf(b)) || Shortest(succ, route, StartOf(b), StartOf(a)))
            && forall p :: Route(succ, p, StartOf(a), StartOf(b)) || Route(succ, p, StartOf(b), StartOf(a)) ==>
                             |r.value| <= |Interior(p)|)
    }

    /** The placements strictly between two components: along the first of the candidate paths that has both,
        otherwise the shortest way along the network, in either direction. */
    method Between(a: string, b: string, path: Option<string>) returns (r: Option<seq<Node>>)
      requires Valid()
      ensures var along := Answering(Candidates(a, b, path), a, b);
              && (along.Some? ==> r == Some(AlongPath(along.value, a, b)))
              && (along.None? ==> exists route :: BetweenAcross(a, b, r, route))
    {
      var along := FindPath(Candidates(a, b, path), a, b);
      if along.Some? {
        return Some(AlongPath(along.value, a, b));
      }
      ghost var route;
      r, route := Across(succ, StartOf(a), StartOf(b));
      assert BetweenAcross(a, b, r, route);
    }

    method FindPath(paths: seq<string>, a: string, b: string) returns (path: Option<string>)
      ensures path == Answering(paths, a, b)
    {
      for k := 0 to |paths|
        invariant Answering(paths[k..], a, b) == Answering(paths, a, b)
      {
        if On(paths[k], a, b) {
          return Some(paths[k]);
        }
        assert paths[k..][1..] == paths[k + 1..];
      }
      return None;
    }
  }

  function PathsOf(nodes: seq<Node>): seq<string> {
    if nodes == [] then [] else [nodes[0].path] + PathsOf(nodes[1..])
  }

  function OnBoth(a: seq<Node>, b: seq<Node>): seq<string> {
    if a == [] then []
    else (if a[0].path in PathsOf(b) then [a[0].path] else []) + OnBoth(a[1..], b)
  }

  lemma {:induction false} PathsAre(nodes: seq<Node>, path: string)
    ensures path in PathsOf(nodes) <==> exists n :: n in nodes && n.path == path
  {
    if nodes != [] {
      PathsAre(nodes[1..], path);
      assert forall n :: n in nodes <==> n == nodes[0] || n in nodes[1..];
    }
  }

  lemma {:induction false} OnBothAre(a: seq<Node>, b: seq<Node>, path: string)
    ensures path in OnBoth(a, b) <==> path in PathsOf(a) && path in PathsOf(b)
  {
    if a != [] {
      OnBothAre(a[1..], b, path);
    }
  }

  /** The common paths are those with a placement of each component, each once, in order. */
  lemma CommonPathsAre(a: seq<Node>, b: seq<Node>)
    ensures Alphabetical(InOrder(OnBoth(a, b)))
    ensures forall path :: path in InOrder(OnBoth(a, b)) <==>
                             (exists m :: m in a && m.path == path) && (exists n :: n in b && n.path == path)
  {
    InOrderIs(OnBoth(a, b));
    forall path
      ensures path in OnBoth(a, b) <==>
                (exists m :: m in a && m.path == path) && (exists n :: n in b && n.path == path)
    {
      OnBothAre(a, b, path);
      PathsAre(a, path);
      PathsAre(b, path);
    }
  }

  // ------------------------------------------------------------------ one piece

  /** The edges taken both ways. */
  function Either(succ: Edges, pred: Edges): Edges {
    map a | a in succ.Keys + pred.Keys :: Links(succ, a) + Links(pred, a)
  }

  ghost predicate Inside(edges: seq<Edge>, nodes: seq<Node>) {
    forall e :: e in edges ==> e.from in nodes && e.to in nodes
  }

  lemma {:induction false} ConsecutiveInside(row: seq<Node>, n: nat)
    requires n < |row| || n == 0
    ensures Inside(Consecutive(row, n), row)
  {
    if n > 0 {
      ConsecutiveInside(row, n - 1);
    }
  }

  lemma {:induction false} PathsInside(paths: seq<Path>)
    ensures Inside(AllPathEdges(paths), AllNodesOf(paths))
    ensures forall id, x :: id in RowsById(paths) && x in RowsById(paths)[id] ==> x in AllNodesOf(paths)
  {
    if paths != [] {
      var last := paths[|paths| - 1];
      PathsInside(paths[..|paths| - 1]);
      ConsecutiveInside(Row(last), if Row(last) == [] then 0 else |Row(last)| - 1);
    }
  }

  lemma {:induction false} FirstIsInRow(row: seq<Node>, ref: string, byComponent: bool)
    ensures FirstWith(row, ref, byComponent).Some? ==> FirstWith(row, ref, byComponent).value in row
  {
    if row != [] {
      FirstIsInRow(row[1..], ref, byComponent);
    }
  }

  lemma EndIsInRow(rows: map<string, seq<Node>>, path: string, ref: Option<string>, first: bool)
    ensures EndpointOf(rows, path, ref, first).Some? ==>
              path in rows && EndpointOf(rows, path, ref, first).value in rows[path]
  {
    if path in rows && ref.Some? {
      FirstIsInRow(rows[path], ref.value, false);
      FirstIsInRow(rows[path], ref.value, true);
    }
  }

  lemma {:induction false} JoinsInside(rows: map<string, seq<Node>>, connections: seq<Connection>, nodes: seq<Node>)
    requires forall id, x :: id in rows && x in rows[id] ==> x in nodes
    ensures Inside(AllJoins(rows, connections), nodes)
  {
    if connections != [] {
      var c := connections[|connections| - 1];
      JoinsInside(rows, connections[..|connections| - 1], nodes);
      EndIsInRow(rows, c.from.path, c.from.ref, false);
      EndIsInRow(rows, c.to.path, c.to.ref, true);
    }
  }

  lemma EdgesInside(doc: Document)
    ensures Inside(EdgesOf(doc), AllNodesOf(doc.paths))
  {
    PathsInside(doc.paths);
    JoinsInside(RowsById(doc.paths), doc.connections, AllNodesOf(doc.paths));
  }

  lemma StepInside(edges: seq<Edge>, succ: Edges, pred: Edges, nodes: seq<Node>, a: Node, b: Node)
    requires Mirrors(edges, succ, pred) && Inside(edges, nodes) && b in Out(Plain(Either(succ, pred)), a)
    ensures b in nodes
  {
    PlainOut(Either(succ, pred), a, b);
    var link :| link in Links(Either(succ, pred), a) && link.node == b;
    assert MirrorsAt(edges, succ, pred, a);
    if link in Links(succ, a) {
      InLinksFrom(edges, a, b, link.kind);
      assert multiset(edges)[Edge(a, b, link.kind)] > 0;
    } else {
      InLinksInto(edges, b, a, link.kind);
      assert multiset(edges)[Edge(b, a, link.kind)] > 0;
    }
  }

  lemma {:induction false} StaysInside(g: map<Node, seq<Node>>, nodes: seq<Node>, a: Node, b: Node, n: nat)
    requires forall x, y :: y in Out(g, x) ==> y in nodes
    requires a in nodes && Steps(g, a, b, n)
    ensures b in nodes
    decreases n
  {
    if n > 0 {
      var c :| c in Out(g, a) && Steps(g, c, b, n - 1);
      StaysInside(g, nodes, c, b, n - 1);
    }
  }

  function NodesOf(out: seq<Visit>): seq<Node> {
    seq(|out|, i requires 0 <= i < |out| => out[i].node)
  }

  /** The walk from the first node, with it, is as long as all the nodes exactly when it reaches them all and
      none of them is listed twice. */
  lemma CountsAll(succ: Edges, pred: Edges, nodes: seq<Node>, edges: seq<Edge>, out: seq<Visit>)
    requires nodes != [] && Mirrors(edges, succ, pred) && Inside(edges, nodes)
    requires NearestFirst(out) && Walked(Either(succ, pred), [nodes[0]], None, out)
    ensures |out| + 1 == |nodes|
       <==> Distinct(nodes) && forall x :: x in nodes ==> Reaches(Plain(Either(succ, pred)), nodes[0], x)
  {
    var g, first := Either(succ, pred), nodes[0];
    var found := [first] + NodesOf(out);
    assert Distinct(found);
    CountDistinct(found);
    CountDistinct(nodes);
    var all, some := set x | x in nodes, set x | x in found;
    forall x ensures x in some <==> Reaches(Plain(g), first, x) {
      ReachedIsFound(g, first, out, x);
    }
    forall x, y | y in Out(Plain(g), x) ensures y in nodes {
      StepInside(edges, succ, pred, nodes, x, y);
    }
    forall x | x in some ensures x in all {
      var n: nat :| Steps(Plain(g), first, x, n);
      StaysInside(Plain(g), nodes, first, x, n);
    }
    SubsetCount(some, all);
    if forall x :: x in nodes ==> Reaches(Plain(g), first, x) {
      assert some == all;
    }
  }

  lemma ReachedIsFound(g: Edges, first: Node, out: seq<Visit>, x: Node)
    requires Walked(g, [first], None, out)
    ensures x in [first] + NodesOf(out) <==> Reaches(Plain(g), first, x)
  {
    if x == first {
      assert Steps(Plain(g), first, x, 0);
    }
    if x in NodesOf(out) {
      var i :| 0 <= i < |out| && NodesOf(out)[i] == x;
      NearOne(g, first, x, out[i].distance);
    }
    if Reaches(Plain(g), first, x) && x != first {
      var n: nat :| Steps(Plain(g), first, x, n);
      NearOne(g, first, x, n);
      assert InList(out, x);
      var i :| 0 <= i < |out| && out[i].node == x;
      assert NodesOf(out)[i] == x;
    }
  }

  /** Whether the network is in one piece, its edges taken both ways. (Nodes are listed twice only when two
      paths have one id.) */
  method IsConnected(net: Network) returns (r: bool)
    requires net.Valid()
    ensures r <==> net.nodes == []
                   || (&& Distinct(net.nodes)
                       && forall x :: x in net.nodes ==>
                                        Reaches(Plain(Either(net.succ, net.pred)), net.nodes[0], x))
  {
    if net.nodes == [] {
      return true;
    }
    var out := WalkFrom(Either(net.succ, net.pred), [net.nodes[0]], None);
    EdgesInside(net.doc);
    CountsAll(net.succ, net.pred, net.nodes, net.edges, out);
    return |out| + 1 == |net.nodes|;
  }

  /** Walking from one placement: `y` is listed downstream of `x` at a distance exactly when `x` is listed
      upstream of `y` at that distance. */
  lemma WalkedBothWays(edges: seq<Edge>, succ: Edges, pred: Edges, x: Node, y: Node, n: Option<int>,
                       down: seq<Visit>, up: seq<Visit>, d: nat)
    requires Mirrors(edges, succ, pred)
    requires Walked(succ, [x], n, down) && Walked(pred, [y], n, up)
    ensures (exists v :: v in down && v.node == y && v.distance == d)
       <==> (exists w :: w in up && w.node == x && w.distance == d)
  {
    DownstreamIsUpstream(edges, succ, pred, x, y, d);
    ListedAt(succ, [x], n, down, y, d);
    ListedAt(pred, [y], n, up, x, d);
  }

  /** What it takes to be listed at a distance. */
  lemma ListedAt(edges: Edges, start: seq<Node>, n: Option<int>, out: seq<Visit>, y: Node, d: nat)
    requires Walked(edges, start, n, out)
    ensures (exists v :: v in out && v.node == y && v.distance == d)
       <==> y !in start && Within(n, d - 1) && Distance(edges, start, y, d)
  {
    if exists v :: v in out && v.node == y && v.distance == d {
      var v :| v in out && v.node == y && v.distance == d;
      var i :| 0 <= i < |out| && out[i] == v;
    }
    if y !in start && Within(n, d - 1) && Distance(edges, start, y, d) {
      assert InList(out, y);
      var i :| 0 <= i < |out| && out[i].node == y;
      assert Distance(edges, start, y, out[i].distance);
      assert out[i] in out;
    }
  }
}
