/** The shortest way between two components along the network, in either direction. */
module BeamRoutes {
  import opened BeamNetwork
  import opened Graphs
  import opened Wrappers

  ghost predicate IsRoute(edges: Edges, p: seq<Node>) {
    p != [] && (|p| > 1 ==> p[1] in Out(Plain(edges), p[0]) && IsRoute(edges, p[1..]))
  }

  ghost predicate Route(edges: Edges, p: seq<Node>, from: seq<Node>, to: seq<Node>) {
    IsRoute(edges, p) && p[0] in from && p[|p| - 1] in to
  }

  ghost predicate NoRoute(edges: Edges, from: seq<Node>, to: seq<Node>) {
    forall p :: !Route(edges, p, from, to)
  }

  ghost predicate Shortest(edges: Edges, route: seq<Node>, from: seq<Node>, to: seq<Node>) {
    Route(edges, route, from, to) && forall p :: Route(edges, p, from, to) ==> |route| <= |p|
  }

  /** The placements strictly between the ends of a route. */
  function Interior(p: seq<Node>): seq<Node> {
    if |p| < 2 then [] else p[1..|p| - 1]
  }

  lemma {:induction false} RouteSteps(edges: Edges, p: seq<Node>)
    requires IsRoute(edges, p)
    ensures Steps(Plain(edges), p[0], p[|p| - 1], |p| - 1)
    decreases |p|
  {
    if |p| > 1 {
      RouteSteps(edges, p[1..]);
    }
  }

  lemma RouteOn(edges: Edges, x: Node, p: seq<Node>)
    requires IsRoute(edges, p) && p[0] in Out(Plain(edges), x)
    ensures IsRoute(edges, [x] + p)
  {
    assert ([x] + p)[1..] == p;
  }

  /** Where a found node was reached from: nowhere for a start, else a node one nearer. */
  ghost predicate BackAt(edges: Edges, dist: map<Node, nat>, prev: map<Node, Option<Node>>, x: Node)
    requires x in prev && x in dist
  {
    if dist[x] == 0 then prev[x].None?
    else prev[x].Some? && prev[x].value in dist && dist[prev[x].value] + 1 == dist[x]
         && x in Out(Plain(edges), prev[x].value)
  }

  ghost predicate Back(edges: Edges, dist: map<Node, nat>, prev: map<Node, Option<Node>>) {
    prev.Keys == dist.Keys
    && forall x {:trigger BackAt(edges, dist, prev, x)} :: x in prev ==> BackAt(edges, dist, prev, x)
  }

  /** On the way back: the route from where one has come to, and where it goes on to, if it does. */
  ghost predicate Tracing(edges: Edges, cur: Node, prev: map<Node, Option<Node>>, dist: map<Node, nat>,
                          x: Option<Node>, route: seq<Node>) {
    && IsRoute(edges, route) && route[|route| - 1] == cur && cur in dist
    && (x.Some? ==> x.value in prev && x.value in dist && route[0] in Out(Plain(edges), x.value)
                    && dist[x.value] + |route| == dist[cur])
    && (x.None? ==> route == [cur] && dist[cur] == 0)
  }

  lemma TracingStarts(edges: Edges, cur: Node, prev: map<Node, Option<Node>>, dist: map<Node, nat>)
    requires Back(edges, dist, prev) && cur in prev
    ensures Tracing(edges, cur, prev, dist, prev[cur], [cur])
  {
    assert BackAt(edges, dist, prev, cur);
  }

  lemma TracingOn(edges: Edges, cur: Node, prev: map<Node, Option<Node>>, dist: map<Node, nat>, x: Node,
                  route: seq<Node>)
    requires Back(edges, dist, prev) && Tracing(edges, cur, prev, dist, Some(x), route) && prev[x].Some?
    ensures Tracing(edges, cur, prev, dist, prev[x], [x] + route)
    ensures prev[x].value in dist && dist[prev[x].value] < dist[x]
  {
    RouteOn(edges, x, route);
    assert BackAt(edges, dist, prev, x);
  }

  /** The way back from a node to a start, without its ends. */
  method Trace(edges: Edges, start: seq<Node>, cur: Node, prev: map<Node, Option<Node>>, ghost dist: map<Node, nat>)
    returns (chain: seq<Node>, ghost route: seq<Node>)
    requires Found(edges, start, None, dist) && Back(edges, dist, prev) && cur in prev
    ensures IsRoute(edges, route) && route[0] in start && route[|route| - 1] == cur && cur in dist
    ensures |route| == dist[cur] + 1 && chain == Interior(route)
  {
    chain, route := [], [cur];
    var x := prev[cur];
    TracingStarts(edges, cur, prev, dist);
    while x.Some? && prev[x.value].Some?
      invariant Tracing(edges, cur, prev, dist, x, route) && chain == route[..|route| - 1]
      decreases if x.Some? then dist[x.value] else 0
    {
      TracingOn(edges, cur, prev, dist, x.value, route);
      route := [x.value] + route;
      chain := [x.value] + chain;
      x := prev[x.value];
    }
    if x.Some? {
      assert BackAt(edges, dist, prev, x.value);
      RouteOn(edges, x.value, route);
      route := [x.value] + route;
    } else {
      assert BackAt(edges, dist, prev, cur);
    }
  }

  ghost predicate Searching(edges: Edges, start: seq<Node>, dist: map<Node, nat>, d: nat, q: seq<Waiting>,
                            prev: map<Node, Option<Node>>) {
    Found(edges, start, None, dist) && dist.Keys <= AllNodes(edges, start) && Queued(dist, d, q)
    && Back(edges, dist, prev)
  }

  lemma SearchingOn(edges: Edges, start: seq<Node>, dist: map<Node, nat>, d: nat, q: seq<Waiting>,
                    prev: map<Node, Option<Node>>, cur: Node, link: Link)
    requires Searching(edges, start, dist, d, q, prev)
    requires cur in dist && dist[cur] == d && link in Links(edges, cur) && link.node !in dist
    ensures Searching(edges, start, dist[link.node := d + 1], d, q + [Waiting(link.node, d + 1)],
                      prev[link.node := Some(cur)])
  {
    FoundOn(edges, start, None, dist, cur, link);
    PlainOut(edges, cur, link.node);
    var more, back := dist[link.node := d + 1], prev[link.node := Some(cur)];
    forall x | x in back ensures BackAt(edges, more, back, x) {
      if x != link.node {
        assert BackAt(edges, dist, prev, x);
      }
    }
    assert link.node in AllNodes(edges, start);
  }

  /** Follows the edges out of one node, just taken off the queue. */
  method Follow(edges: Edges, start: seq<Node>, cur: Node, d: nat, q0: seq<Waiting>,
                prev0: map<Node, Option<Node>>, ghost dist0: map<Node, nat>)
    returns (q: seq<Waiting>, prev: map<Node, Option<Node>>, ghost dist: map<Node, nat>)
    requires Searching(edges, start, dist0, d, q0, prev0) && cur in dist0 && dist0[cur] == d
    ensures Searching(edges, start, dist, d, q, prev)
    ensures forall x :: x in dist0 ==> x in dist && dist[x] == dist0[x]
    ensures q0 <= q && forall x :: x in dist && x !in dist0 ==> InQueue(q, x)
    ensures Expanded(edges, None, dist, cur)
    ensures prev0.Keys <= prev.Keys && (prev.Keys == prev0.Keys ==> q == q0)
  {
    q, prev, dist := q0, prev0, dist0;
    var links := Links(edges, cur);
    for i := 0 to |links|
      invariant Searching(edges, start, dist, d, q, prev)
      invariant forall x :: x in dist0 ==> x in dist && dist[x] == dist0[x]
      invariant q0 <= q && forall x :: x in dist && x !in dist0 ==> InQueue(q, x)
      invariant forall k :: 0 <= k < i ==> links[k].node in dist && dist[links[k].node] <= d + 1
      invariant prev0.Keys <= prev.Keys && (prev.Keys == prev0.Keys ==> q == q0)
    {
      var next := links[i].node;
      if next in prev {
        continue;
      }
      SearchingOn(edges, start, dist, d, q, prev, cur, links[i]);
      InQueueOn(q, Waiting(next, d + 1));
      prev := prev[next := Some(cur)];
      dist := dist[next := d + 1];
      q := q + [Waiting(next, d + 1)];
    }
  }

  /** Waiting in the queue, or done with: its edges followed, and not one of those looked for. */
  ghost predicate Settled(edges: Edges, dist: map<Node, nat>, q: seq<Waiting>, to: seq<Node>, x: Node) {
    InQueue(q, x) || (Expanded(edges, None, dist, x) && !(x in dist && x in to))
  }

  /** Nothing among `to` is nearer than the head of the queue, and nothing is reached once it is empty. */
  lemma FirstIsNearest(edges: Edges, start: seq<Node>, to: seq<Node>, dist: map<Node, nat>, d: nat, q: seq<Waiting>,
                       p: seq<Node>)
    requires (forall s :: s in start ==> s in dist && dist[s] == 0) && Queued(dist, d, q)
    requires forall x {:trigger Settled(edges, dist, q, to, x)} :: Settled(edges, dist, q, to, x)
    requires Route(edges, p, start, to)
    ensures q != [] && |p| > q[0].at
  {
    var t, m := p[|p| - 1], |p| - 1;
    RouteSteps(edges, p);
    var n := if q == [] then None else Some(q[0].at);
    assert Settled(edges, dist, q, to, t);
    if q == [] || m < q[0].at {
      forall y ensures Expanded(edges, n, dist, y) {
        assert Settled(edges, dist, q, to, y);
      }
      NoShorter(edges, start, n, dist, p[0], t, m);
    }
  }

  lemma NearestFound(edges: Edges, start: seq<Node>, to: seq<Node>, dist: map<Node, nat>, d: nat, q: seq<Waiting>,
                     route: seq<Node>)
    requires (forall s :: s in start ==> s in dist && dist[s] == 0) && Queued(dist, d, q)
    requires forall x {:trigger Settled(edges, dist, q, to, x)} :: Settled(edges, dist, q, to, x)
    requires q != [] ==> |route| == q[0].at + 1 && Route(edges, route, start, to)
    ensures if q == [] then NoRoute(edges, start, to) else Shortest(edges, route, start, to)
  {
    forall p | Route(edges, p, start, to) ensures q != [] && |p| >= |route| {
      FirstIsNearest(edges, start, to, dist, d, q, p);
    }
  }

  lemma StillSettled(edges: Edges, before: map<Node, nat>, dist: map<Node, nat>, queue: seq<Waiting>,
                     q: seq<Waiting>, to: seq<Node>, cur: Node, x: Node)
    requires queue != [] && queue[0].node == cur && cur !in to && queue[1..] <= q
    requires Settled(edges, before, queue, to, x)
    requires forall y :: y in before ==> y in dist && dist[y] == before[y]
    requires x in dist && x !in before ==> InQueue(q, x)
    requires Expanded(edges, None, dist, cur)
    ensures Settled(edges, dist, q, to, x)
  {
    StillExpanded(edges, None, before, dist, queue, q, cur, x);
    if InQueue(queue, x) && x != cur {
      var i :| 0 <= i < |queue| && queue[i].node == x;
      assert q[i - 1] == queue[1..][i - 1];
    }
  }

  lemma PoppedSearch(edges: Edges, start: seq<Node>, dist: map<Node, nat>, d: nat, q: seq<Waiting>,
                     prev: map<Node, Option<Node>>)
    requires Searching(edges, start, dist, d, q, prev) && q != []
    ensures Searching(edges, start, dist, q[0].at, q[1..], prev)
    ensures q[0].node in dist && dist[q[0].node] == q[0].at
  {
  }

  lemma StartSearching(edges: Edges, from: seq<Node>, to: seq<Node>, dist: map<Node, nat>, q: seq<Waiting>,
                       prev: map<Node, Option<Node>>)
    requires dist == map s | s in from :: 0
    requires prev == map s | s in from :: None
    requires |q| == |from| && forall i :: 0 <= i < |q| ==> q[i] == Waiting(from[i], 0)
    ensures Searching(edges, from, dist, 0, q, prev)
    ensures forall x :: Settled(edges, dist, q, to, x)
  {
    StartFound(edges, from, None, dist, q);
    forall x | x in dist ensures InQueue(q, x) {
      var i :| 0 <= i < |from| && from[i] == x;
      assert q[i].node == x;
    }
  }

  /** One turn of the search: the head of the queue, not one of those looked for, is followed. */
  method Turn(edges: Edges, from: seq<Node>, to: seq<Node>, queue: seq<Waiting>, prev0: map<Node, Option<Node>>,
              ghost dist0: map<Node, nat>, ghost d: nat)
    returns (q: seq<Waiting>, prev: map<Node, Option<Node>>, ghost dist: map<Node, nat>)
    requires Searching(edges, from, dist0, d, queue, prev0) && queue != [] && queue[0].node !in to
    requires forall x {:trigger Settled(edges, dist0, queue, to, x)} :: Settled(edges, dist0, queue, to, x)
    ensures Searching(edges, from, dist, queue[0].at, q, prev)
    ensures forall x {:trigger Settled(edges, dist, q, to, x)} :: Settled(edges, dist, q, to, x)
    ensures var all := AllNodes(edges, from);
            all - prev.Keys < all - prev0.Keys || (all - prev.Keys == all - prev0.Keys && |q| < |queue|)
  {
    var cur, at := queue[0].node, queue[0].at;
    PoppedSearch(edges, from, dist0, d, queue, prev0);
    q, prev, dist := Follow(edges, from, cur, at, queue[1..], prev0, dist0);
    forall x ensures Settled(edges, dist, q, to, x) {
      assert Settled(edges, dist0, queue, to, x);
      StillSettled(edges, dist0, dist, queue, q, to, cur, x);
    }
  }

  /** The search ends at the head of the queue: the way back from it is a shortest route. */
  method Arrived(edges: Edges, from: seq<Node>, to: seq<Node>, q: seq<Waiting>, prev: map<Node, Option<Node>>,
                 ghost dist: map<Node, nat>, ghost d: nat)
    returns (chain: seq<Node>, ghost route: seq<Node>)
    requires Searching(edges, from, dist, d, q, prev) && q != [] && q[0].node in to
    requires forall x {:trigger Settled(edges, dist, q, to, x)} :: Settled(edges, dist, q, to, x)
    ensures Shortest(edges, route, from, to) && chain == Interior(route)
  {
    chain, route := Trace(edges, from, q[0].node, prev, dist);
    NearestFound(edges, from, to, dist, d, q, route);
  }

  /** The interior of a shortest route from one set of placements to another, if there is any route. */
  method Search(edges: Edges, from: seq<Node>, to: seq<Node>) returns (chain: Option<seq<Node>>, ghost route: seq<Node>)
    ensures chain.None? ==> NoRoute(edges, from, to)
    ensures chain.Some? ==> Shortest(edges, route, from, to) && chain.value == Interior(route)
  {
    route := [];
    var prev: map<Node, Option<Node>> := map s | s in from :: None;
    var q := seq(|from|, i requires 0 <= i < |from| => Waiting(from[i], 0));
    ghost var dist: map<Node, nat> := map s | s in from :: 0;
    ghost var d: nat := 0;
    ghost var all := AllNodes(edges, from);
    StartSearching(edges, from, to, dist, q, prev);
    while q != []
      invariant Searching(edges, from, dist, d, q, prev)
      invariant forall x {:trigger Settled(edges, dist, q, to, x)} :: Settled(edges, dist, q, to, x)
      decreases all - prev.Keys, |q|
    {
      if q[0].node in to {
        var found;
        found, route := Arrived(edges, from, to, q, prev, dist, d);
        return Some(found), route;
      }
      ghost var at := q[0].at;
      q, prev, dist := Turn(edges, from, to, q, prev, dist, d);
      d := at;
    }
    NearestFound(edges, from, to, dist, d, q, []);
    return None, [];
  }

  /** The shortest way between two sets of placements, downstream from either; from the first when both are
      as short. */
  method Across(edges: Edges, a: seq<Node>, b: seq<Node>) returns (best: Option<seq<Node>>, ghost route: seq<Node>)
    ensures best.None? <==> NoRoute(edges, a, b) && NoRoute(edges, b, a)
    ensures best.Some? ==>
              && best.value == Interior(route)
              && (Shortest(edges, route, a, b) || Shortest(edges, route, b, a))
              && (forall p :: Route(edges, p, a, b) || Route(edges, p, b, a) ==> |best.value| <= |Interior(p)|)
              && (!Shortest(edges, route, a, b) ==> forall p :: Route(edges, p, a, b) ==> |best.value| < |Interior(p)|)
  {
    var there, back;
    ghost var r1, r2;
    there, r1 := Search(edges, a, b);
    best, route := there, r1;
    back, r2 := Search(edges, b, a);
    if back.Some? && (best.None? || |back.value| < |best.value|) {
      best, route := back, r2;
    }
  }
}
