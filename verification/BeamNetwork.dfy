/**
 The beam-transport network: placements as nodes, the edges between them, and walking it.

 Nodes are placements, so a component may stand on several paths, or several times on one.
 */
module BeamNetwork {
  import opened Graphs
  import opened Wrappers

  datatype Node = Node(path: string, index: nat, component: string, placement: string, reversed: bool)

  datatype Link = Link(node: Node, kind: string)

  type Edges = map<Node, seq<Link>>

  function Links(edges: Edges, a: Node): seq<Link> {
    if a in edges then edges[a] else []
  }

  function Targets(links: seq<Link>): seq<Node> {
    seq(|links|, i requires 0 <= i < |links| => links[i].node)
  }

  /** The edges without their kinds. */
  function Plain(edges: Edges): map<Node, seq<Node>> {
    map a | a in edges :: Targets(edges[a])
  }

  lemma PlainOut(edges: Edges, a: Node, b: Node)
    ensures b in Out(Plain(edges), a) <==> exists e :: e in Links(edges, a) && e.node == b
  {
    if a in edges {
      forall i | 0 <= i < |edges[a]| ensures Out(Plain(edges), a)[i] == Links(edges, a)[i].node {
      }
      if b in Out(Plain(edges), a) {
        var i :| 0 <= i < |edges[a]| && Targets(edges[a])[i] == b;
        assert edges[a][i] in Links(edges, a) && edges[a][i].node == b;
      }
    }
  }

  // ------------------------------------------------------------------ distances

  ghost predicate Near(edges: Edges, start: seq<Node>, x: Node, m: nat) {
    exists s :: s in start && Steps(Plain(edges), s, x, m)
  }

  /** The least number of edges from the start to `x`. */
  ghost predicate Distance(edges: Edges, start: seq<Node>, x: Node, d: nat) {
    Near(edges, start, x, d) && forall m: nat :: m < d ==> !Near(edges, start, x, m)
  }

  lemma NearNext(edges: Edges, start: seq<Node>, x: Node, d: nat, e: Link)
    requires Near(edges, start, x, d) && e in Links(edges, x)
    ensures Near(edges, start, e.node, d + 1)
  {
    var s :| s in start && Steps(Plain(edges), s, x, d);
    PlainOut(edges, x, e.node);
    OneStep(Plain(edges), x, e.node);
    StepsAdd(Plain(edges), s, x, e.node, d, 1);
  }

  /** Within the cut: a walk goes on from a node at distance `d`. */
  predicate Within(n: Option<int>, d: int) {
    n.Some? ==> d < n.value
  }

  /** What is known of the nodes found so far, with the distance each was found at. */
  ghost predicate Found(edges: Edges, start: seq<Node>, n: Option<int>, dist: map<Node, nat>) {
    && (forall s :: s in start ==> s in dist && dist[s] == 0)
    && (forall x {:trigger Near(edges, start, x, dist[x])} :: x in dist ==> Near(edges, start, x, dist[x]))
    && (forall x :: x in dist && dist[x] > 0 ==> Within(n, dist[x] - 1))
    && (forall x :: x in dist && dist[x] == 0 ==> x in start)
  }

  /** Every edge out of `x` leads to a node found, at most one further. */
  ghost predicate Expanded(edges: Edges, n: Option<int>, dist: map<Node, nat>, x: Node) {
    x in dist && Within(n, dist[x]) ==>
      forall e :: e in Links(edges, x) ==> e.node in dist && dist[e.node] <= dist[x] + 1
  }

  lemma {:induction false} NoShorter(edges: Edges, start: seq<Node>, n: Option<int>, dist: map<Node, nat>,
                                     s: Node, x: Node, m: nat)
    requires forall z :: z in start ==> z in dist && dist[z] == 0
    requires forall y :: Expanded(edges, n, dist, y)
    requires s in start && Steps(Plain(edges), s, x, m) && (m > 0 ==> Within(n, m - 1))
    ensures x in dist && dist[x] <= m
    decreases m
  {
    if m > 0 {
      var y := LastStep(Plain(edges), s, x, m - 1);
      NoShorter(edges, start, n, dist, s, y, m - 1);
      PlainOut(edges, y, x);
      assert Expanded(edges, n, dist, y);
    }
  }

  lemma FoundAreNearest(edges: Edges, start: seq<Node>, n: Option<int>, dist: map<Node, nat>)
    requires Found(edges, start, n, dist) && forall y :: Expanded(edges, n, dist, y)
    ensures forall x :: x in dist ==> Distance(edges, start, x, dist[x])
    ensures forall x, m: nat :: Near(edges, start, x, m) && (m > 0 ==> Within(n, m - 1)) ==> x in dist
  {
    forall x, m: nat | Near(edges, start, x, m) && (m > 0 ==> Within(n, m - 1))
      ensures x in dist && dist[x] <= m
    {
      var s :| s in start && Steps(Plain(edges), s, x, m);
      NoShorter(edges, start, n, dist, s, x, m);
    }
  }

  ghost function AllNodes(edges: Edges, start: seq<Node>): set<Node> {
    (set s | s in start) + set a, i | a in edges && 0 <= i < |edges[a]| :: edges[a][i].node
  }

  datatype Waiting = Waiting(node: Node, at: nat)

  /** The queue of a breadth-first walk while a node at distance `d` is looked at: found nodes with their
      distances, nearest first, and nothing found further than `d + 1`. */
  ghost predicate Queued(dist: map<Node, nat>, d: nat, q: seq<Waiting>) {
    && (forall i :: 0 <= i < |q| ==> q[i].node in dist && dist[q[i].node] == q[i].at >= d)
    && (forall i, j :: 0 <= i < j < |q| ==> q[i].at <= q[j].at)
    && (forall x :: x in dist ==> dist[x] <= d + 1)
  }

  ghost predicate InQueue(q: seq<Waiting>, x: Node) {
    exists i :: 0 <= i < |q| && q[i].node == x
  }

  datatype Visit = Visit(node: Node, distance: nat, kind: string)

  ghost predicate FoundBy(edges: Edges, dist: map<Node, nat>, v: Visit) {
    exists y :: y in dist && dist[y] + 1 == v.distance && Link(v.node, v.kind) in Links(edges, y)
  }

  ghost predicate InList(out: seq<Visit>, x: Node) {
    exists i :: 0 <= i < |out| && out[i].node == x
  }

  /** What a walk lists: each node found outside the start, once, nearest first, with the edge that found it. */
  ghost predicate Listed(edges: Edges, start: seq<Node>, dist: map<Node, nat>, out: seq<Visit>) {
    && (forall i :: 0 <= i < |out| ==> out[i].node in dist && out[i].node !in start)
    && (forall i :: 0 <= i < |out| ==> dist[out[i].node] == out[i].distance)
    && (forall i, j :: 0 <= i < j < |out| ==> out[i].node != out[j].node && out[i].distance <= out[j].distance)
    && (forall x {:trigger InList(out, x)} :: x in dist && x !in start ==> InList(out, x))
    && (forall i {:trigger FoundBy(edges, dist, out[i])} :: 0 <= i < |out| ==> FoundBy(edges, dist, out[i]))
  }

  ghost predicate Scanned(edges: Edges, start: seq<Node>, n: Option<int>, dist: map<Node, nat>, d: nat,
                          q: seq<Waiting>, out: seq<Visit>) {
    Found(edges, start, n, dist) && dist.Keys <= AllNodes(edges, start) && Queued(dist, d, q)
    && Listed(edges, start, dist, out)
  }

  /** One more node found, by an edge out of `cur`. */
  lemma ScannedOn(edges: Edges, start: seq<Node>, n: Option<int>, dist: map<Node, nat>, d: nat,
                  q: seq<Waiting>, out: seq<Visit>, cur: Node, link: Link)
    requires Scanned(edges, start, n, dist, d, q, out)
    requires cur in dist && dist[cur] == d && Within(n, d) && link in Links(edges, cur) && link.node !in dist
    ensures Scanned(edges, start, n, dist[link.node := d + 1], d, q + [Waiting(link.node, d + 1)],
                    out + [Visit(link.node, d + 1, link.kind)])
  {
    FoundOn(edges, start, n, dist, cur, link);
    ListedOn(edges, start, dist, d, out, cur, link);
    assert link.node in AllNodes(edges, start);
  }

  lemma FoundOn(edges: Edges, start: seq<Node>, n: Option<int>, dist: map<Node, nat>, cur: Node, link: Link)
    requires Found(edges, start, n, dist)
    requires cur in dist && Within(n, dist[cur]) && link in Links(edges, cur) && link.node !in dist
    ensures Found(edges, start, n, dist[link.node := dist[cur] + 1])
  {
    NearNext(edges, start, cur, dist[cur], link);
  }

  lemma FoundByOn(edges: Edges, dist: map<Node, nat>, more: map<Node, nat>, v: Visit)
    requires FoundBy(edges, dist, v) && forall y :: y in dist ==> y in more && more[y] == dist[y]
    ensures FoundBy(edges, more, v)
  {
  }

  lemma InListOn(out: seq<Visit>, v: Visit)
    ensures forall x :: InList(out, x) ==> InList(out + [v], x)
    ensures InList(out + [v], v.node)
  {
    var on := out + [v];
    assert on[|out|].node == v.node;
    forall x | InList(out, x) ensures InList(on, x) {
      var i :| 0 <= i < |out| && out[i].node == x;
      assert on[i].node == x;
    }
  }

  lemma ListedOn(edges: Edges, start: seq<Node>, dist: map<Node, nat>, d: nat, out: seq<Visit>,
                 cur: Node, link: Link)
    requires Listed(edges, start, dist, out) && (forall s :: s in start ==> s in dist)
    requires forall x :: x in dist ==> dist[x] <= d + 1
    requires cur in dist && dist[cur] == d && link in Links(edges, cur) && link.node !in dist
    ensures Listed(edges, start, dist[link.node := d + 1], out + [Visit(link.node, d + 1, link.kind)])
  {
    var more, v := dist[link.node := d + 1], Visit(link.node, d + 1, link.kind);
    InListOn(out, v);
    assert more[cur] + 1 == v.distance;
    forall i | 0 <= i < |out| ensures FoundBy(edges, more, out[i]) {
      FoundByOn(edges, dist, more, out[i]);
    }
  }

  /** Looks at the edges out of one node at distance `d`, just taken off the queue. */
  method Expand(edges: Edges, start: seq<Node>, n: Option<int>, cur: Node, d: nat, q0: seq<Waiting>,
                out0: seq<Visit>, seen0: set<Node>, ghost dist0: map<Node, nat>)
    returns (q: seq<Waiting>, out: seq<Visit>, seen: set<Node>, ghost dist: map<Node, nat>)
    requires Scanned(edges, start, n, dist0, d, q0, out0) && seen0 == dist0.Keys
    requires cur in dist0 && dist0[cur] == d && Within(n, d)
    ensures Scanned(edges, start, n, dist, d, q, out) && seen == dist.Keys
    ensures forall x :: x in dist0 ==> x in dist && dist[x] == dist0[x]
    ensures q0 <= q && forall x :: x in dist && x !in dist0 ==> InQueue(q, x)
    ensures Expanded(edges, n, dist, cur)
    ensures seen0 <= seen && (seen == seen0 ==> q == q0)
  {
    q, out, seen, dist := q0, out0, seen0, dist0;
    var links := Links(edges, cur);
    for i := 0 to |links|
      invariant Scanned(edges, start, n, dist, d, q, out) && seen == dist.Keys
      invariant forall x :: x in dist0 ==> x in dist && dist[x] == dist0[x]
      invariant q0 <= q && forall x :: x in dist && x !in dist0 ==> InQueue(q, x)
      invariant forall k :: 0 <= k < i ==> links[k].node in dist && dist[links[k].node] <= d + 1
      invariant seen0 <= seen && (seen == seen0 ==> q == q0)
    {
      var Link(next, kind) := links[i];
      if next in seen {
        continue;
      }
      ScannedOn(edges, start, n, dist, d, q, out, cur, links[i]);
      InQueueOn(q, Waiting(next, d + 1));
      seen := seen + {next};
      dist := dist[next := d + 1];
      out := out + [Visit(next, d + 1, kind)];
      q := q + [Waiting(next, d + 1)];
    }
  }

  lemma InQueueOn(q: seq<Waiting>, w: Waiting)
    ensures forall x :: InQueue(q, x) ==> InQueue(q + [w], x)
    ensures InQueue(q + [w], w.node)
  {
    var on := q + [w];
    assert on[|q|].node == w.node;
    forall x | InQueue(q, x) ensures InQueue(on, x) {
      var i :| 0 <= i < |q| && q[i].node == x;
      assert on[i].node == x;
    }
  }

  /** The edge kind of a visit is that of an edge out of a node one nearer. */
  ghost predicate Arrives(edges: Edges, start: seq<Node>, v: Visit) {
    v.distance > 0 && exists y :: Distance(edges, start, y, v.distance - 1) && Link(v.node, v.kind) in Links(edges, y)
  }

  ghost predicate NearestFirst(out: seq<Visit>) {
    forall i, j :: 0 <= i < j < |out| ==> out[i].node != out[j].node && out[i].distance <= out[j].distance
  }

  /** Exactly what can be reached within the cut outside the start, at its distance. */
  ghost predicate Walked(edges: Edges, start: seq<Node>, n: Option<int>, out: seq<Visit>) {
    && (forall i :: 0 <= i < |out| ==>
          && out[i].node !in start && Within(n, out[i].distance - 1)
          && Distance(edges, start, out[i].node, out[i].distance) && Arrives(edges, start, out[i]))
    && (forall x, m: nat :: Near(edges, start, x, m) && x !in start && Within(n, m - 1) ==> InList(out, x))
  }

  ghost predicate AllSettled(edges: Edges, n: Option<int>, dist: map<Node, nat>, q: seq<Waiting>) {
    forall x {:trigger InQueue(q, x)} {:trigger Expanded(edges, n, dist, x)} ::
      InQueue(q, x) || Expanded(edges, n, dist, x)
  }

  /** One turn of the walk: the head of the queue is taken off it and, within the cut, its edges are followed. */
  method Turn(edges: Edges, start: seq<Node>, n: Option<int>, queue: seq<Waiting>, out0: seq<Visit>,
              seen0: set<Node>, ghost dist0: map<Node, nat>, ghost d: nat)
    returns (q: seq<Waiting>, out: seq<Visit>, seen: set<Node>, ghost dist: map<Node, nat>)
    requires Scanned(edges, start, n, dist0, d, queue, out0) && seen0 == dist0.Keys && queue != []
    requires AllSettled(edges, n, dist0, queue)
    ensures Scanned(edges, start, n, dist, queue[0].at, q, out) && seen == dist.Keys
    ensures AllSettled(edges, n, dist, q)
    ensures var all := AllNodes(edges, start);
            all - seen < all - seen0 || (all - seen == all - seen0 && |q| < |queue|)
  {
    var cur, at := queue[0].node, queue[0].at;
    Popped(edges, start, n, dist0, d, queue, out0);
    q, out, seen, dist := queue[1..], out0, seen0, dist0;
    if Within(n, at) {
      q, out, seen, dist := Expand(edges, start, n, cur, at, q, out, seen, dist);
    }
    forall x ensures InQueue(q, x) || Expanded(edges, n, dist, x) {
      StillExpanded(edges, n, dist0, dist, queue, q, cur, x);
    }
  }

  /** The placements reachable from the start within `n` edges, outside it, each once and nearest first, with
      its distance and the kind of the edge that arrives there. */
  method WalkFrom(edges: Edges, start: seq<Node>, n: Option<int>) returns (out: seq<Visit>)
    ensures NearestFirst(out) && Walked(edges, start, n, out)
  {
    var seen := set s | s in start;
    var q := seq(|start|, i requires 0 <= i < |start| => Waiting(start[i], 0));
    ghost var dist: map<Node, nat> := map s | s in start :: 0;
    ghost var d: nat := 0;
    ghost var all := AllNodes(edges, start);
    out := [];
    StartFound(edges, start, n, dist, q);
    while q != []
      invariant Scanned(edges, start, n, dist, d, q, out) && seen == dist.Keys
      invariant AllSettled(edges, n, dist, q)
      decreases all - seen, |q|
    {
      ghost var at := q[0].at;
      q, out, seen, dist := Turn(edges, start, n, q, out, seen, dist, d);
      d := at;
    }
    WalkedAll(edges, start, n, dist, d, q, out);
  }

  lemma Popped(edges: Edges, start: seq<Node>, n: Option<int>, dist: map<Node, nat>, d: nat, q: seq<Waiting>,
               out: seq<Visit>)
    requires Scanned(edges, start, n, dist, d, q, out) && q != []
    ensures Scanned(edges, start, n, dist, q[0].at, q[1..], out)
  {
  }

  /** When the queue is empty the list is the walk. */
  lemma WalkedAll(edges: Edges, start: seq<Node>, n: Option<int>, dist: map<Node, nat>, d: nat, q: seq<Waiting>,
                  out: seq<Visit>)
    requires Scanned(edges, start, n, dist, d, q, out) && q == []
    requires AllSettled(edges, n, dist, q)
    ensures NearestFirst(out) && Walked(edges, start, n, out)
  {
    forall x ensures Expanded(edges, n, dist, x) {
      assert !InQueue(q, x);
    }
    FoundAreNearest(edges, start, n, dist);
    forall i | 0 <= i < |out|
      ensures Arrives(edges, start, out[i])
    {
      assert FoundBy(edges, dist, out[i]);
    }
    forall x, m: nat | Near(edges, start, x, m) && x !in start && Within(n, m - 1) ensures InList(out, x) {
      assert x in dist;
    }
  }

  lemma StartFound(edges: Edges, start: seq<Node>, n: Option<int>, dist: map<Node, nat>, q: seq<Waiting>)
    requires dist == map s | s in start :: 0
    requires |q| == |start| && forall i :: 0 <= i < |q| ==> q[i] == Waiting(start[i], 0)
    ensures Scanned(edges, start, n, dist, 0, q, [])
    ensures forall x :: InQueue(q, x) || Expanded(edges, n, dist, x)
  {
    forall x | x in dist ensures Near(edges, start, x, 0) && InQueue(q, x) {
      assert Steps(Plain(edges), x, x, 0);
      var i :| 0 <= i < |start| && start[i] == x;
      assert q[i].node == x;
    }
  }

  /** After `cur` has been taken off the queue and its edges looked at, or cut. */
  lemma StillExpanded(edges: Edges, n: Option<int>, before: map<Node, nat>, dist: map<Node, nat>,
                      queue: seq<Waiting>, q: seq<Waiting>, cur: Node, x: Node)
    requires queue != [] && queue[0].node == cur && queue[1..] <= q
    requires InQueue(queue, x) || Expanded(edges, n, before, x)
    requires forall y :: y in before ==> y in dist && dist[y] == before[y]
    requires x in dist && x !in before ==> InQueue(q, x)
    requires Expanded(edges, n, dist, cur)
    ensures InQueue(q, x) || Expanded(edges, n, dist, x)
  {
    if InQueue(queue, x) {
      var i :| 0 <= i < |queue| && queue[i].node == x;
      if i > 0 {
        assert q[i - 1] == queue[1..][i - 1];
      }
    }
  }
}
