/** What the names of a network mean: which placements they name, where a walk from them starts, which paths answer. */
module BeamNames {
  import opened BeamArcs
  import opened BeamModel
  import opened BeamNet
  import opened BeamNetwork
  import opened NameOrder
  import opened Numbering
  import opened Wrappers

  // ------------------------------------------------------------------ placements

  function ComponentsOf(placements: seq<Placement>): seq<string> {
    seq(|placements|, k requires 0 <= k < |placements| => placements[k].component)
  }

  lemma {:induction false} CountIs(placements: seq<Placement>, component: string)
    ensures Count(placements, component) == multiset(ComponentsOf(placements))[component]
    decreases |placements|
  {
    if placements != [] {
      var n := |placements| - 1;
      CountIs(placements[..n], component);
      assert ComponentsOf(placements) == ComponentsOf(placements[..n]) + [placements[n].component];
    }
  }

  /** A placement has its own id, if it has one; else its component's, and from the second use on the component's and
      the number of the use. */
  lemma PlacementIs(p: Path, i: nat)
    requires i < |p.placements|
    ensures var given, c := p.placements[i].id, p.placements[i].component;
            var node, uses := Row(p)[i], multiset(ComponentsOf(p.placements[..i + 1]))[c];
            && node.path == p.id && node.index == i && node.component == c
            && node.reversed == p.placements[i].reversed && uses >= 1
            && (given.Some? && given.value != "" ==> node.placement == given.value)
            && (given.None? || given.value == "" ==>
                  && (uses == 1 ==> node.placement == c)
                  && (uses >= 2 ==> node.placement == Numbered(c, uses)))
  {
    CountIs(p.placements[..i + 1], p.placements[i].component);
    var components := ComponentsOf(p.placements[..i + 1]);
    assert components[i] == p.placements[i].component;
    assert p.placements[i].component in multiset(components);
  }

  /** The nodes of a component are all of them, in the order they stand. */
  lemma {:induction false} OfIs(nodes: seq<Node>, component: string)
    ensures forall n :: n in Of(nodes, component) <==> n in nodes && n.component == component
    decreases |nodes|
  {
    if nodes != [] {
      var n := |nodes| - 1;
      OfIs(nodes[..n], component);
      assert forall x :: x in nodes <==> x in nodes[..n] || x == nodes[n];
    }
  }

  lemma {:induction false} OfAll(a: seq<Node>, b: seq<Node>, component: string)
    ensures Of(a + b, component) == Of(a, component) + Of(b, component)
    decreases |b|
  {
    if b == [] {
      assert a + b == a && Of(b, component) == [];
    } else {
      var n := |b| - 1;
      assert (a + b)[..|a + b| - 1] == a + b[..n] && (a + b)[|a + b| - 1] == b[n];
      OfAll(a, b[..n], component);
    }
  }

  // ------------------------------------------------------------------ places on a path

  predicate Named(n: Node, name: string) {
    n.component == name || n.placement == name
  }

  /** The place of a name on a path is the first that has it, as component or as placement; and it has none exactly when
      no place does. */
  lemma {:induction false} PlaceIs(row: seq<Node>, name: string)
    ensures PlaceOf(row, name).Some? ==>
              var i := PlaceOf(row, name).value;
              i < |row| && Named(row[i], name) && forall j :: 0 <= j < i ==> !Named(row[j], name)
    ensures PlaceOf(row, name).None? <==> forall n :: n in row ==> !Named(n, name)
    decreases |row|
  {
    if row != [] {
      PlaceIs(row[1..], name);
      assert forall n :: n in row <==> n == row[0] || n in row[1..];
    }
  }

  /** A path is closed as the first of its id says. */
  lemma {:induction false} ClosedIs(paths: seq<Path>, id: string, i: nat)
    requires i < |paths| && paths[i].id == id && forall j :: 0 <= j < i ==> paths[j].id != id
    ensures ClosedPath(paths, id) == paths[i].closed
    decreases i
  {
    if i > 0 {
      ClosedIs(paths[1..], id, i - 1);
    }
  }

  // ------------------------------------------------------------------ where a walk starts

  /** The first slash parts a path's id from a placement's. */
  lemma {:induction false} SlashIs(name: string)
    ensures Slash(name).None? <==> '/' !in name
    ensures Slash(name).Some? ==>
              var (path, placement) := Slash(name).value;
              '/' !in path && name == path + "/" + placement
    decreases |name|
  {
    if name != "" && name[0] != '/' {
      SlashIs(name[1..]);
      assert name == [name[0]] + name[1..];
    } else if name != "" {
      assert name == "" + "/" + name[1..];
    }
  }

  /** A name with no slash starts at every placement of the component, in the order they stand. */
  lemma StartOfComponent(net: Network, name: string)
    requires net.Valid() && '/' !in name
    ensures net.StartOf(name) == Of(net.nodes, name)
    ensures forall n :: n in net.StartOf(name) <==> n in net.nodes && n.component == name
  {
    SlashIs(name);
    OfIs(net.nodes, name);
    assert net.ByComponent(name) == Of(net.nodes, name);
  }

  /** `path/placement` starts at the placement so called, or failing that at the first of that component, or nowhere. */
  lemma StartOfPlacement(net: Network, path: string, placement: string, i: nat)
    requires '/' !in path
    ensures path in net.byPath && Means(net.byPath[path], Some(placement), true, i) ==>
              net.StartOf(path + "/" + placement) == [net.byPath[path][i]]
    ensures path !in net.byPath || MeansNone(net.byPath[path], Some(placement)) ==>
              net.StartOf(path + "/" + placement) == []
  {
    SlashOf(path, placement);
    EndIs(net.byPath, path, Some(placement), true, i);
  }

  lemma {:induction false} SlashOf(path: string, placement: string)
    requires '/' !in path
    ensures Slash(path + "/" + placement) == Some((path, placement))
    decreases |path|
  {
    var name := path + "/" + placement;
    if path == "" {
      assert name == "/" + placement;
    } else {
      assert name[1..] == path[1..] + "/" + placement;
      SlashOf(path[1..], placement);
      assert path == [path[0]] + path[1..];
    }
  }

  // ------------------------------------------------------------------ which paths answer

  /** The path asked for is the only one tried, unless it is blank; else those that place both components, each once and
      in order. */
  lemma TriedAre(net: Network, a: string, b: string, path: Option<string>)
    requires net.Valid()
    ensures path.Some? && path.value != "" ==> net.Candidates(a, b, path) == [path.value]
    ensures path.None? || path.value == "" ==>
              && Alphabetical(net.Candidates(a, b, path))
              && forall p :: p in net.Candidates(a, b, path) <==>
                   (exists m :: m in net.nodes && m.component == a && m.path == p)
                   && (exists n :: n in net.nodes && n.component == b && n.path == p)
  {
    CommonPathsAre(net.ByComponent(a), net.ByComponent(b));
    OfIs(net.nodes, a);
    OfIs(net.nodes, b);
    assert net.ByComponent(a) == Of(net.nodes, a) && net.ByComponent(b) == Of(net.nodes, b);
  }

  /** Of the paths tried the first that answers is taken, and none exactly when none answers. */
  lemma {:induction false} FirstAnswers(net: Network, paths: seq<string>, a: string, b: string, i: nat)
    ensures i < |paths| && net.On(paths[i], a, b) && (forall j :: 0 <= j < i ==> !net.On(paths[j], a, b)) ==>
              net.Answering(paths, a, b) == Some(paths[i])
    ensures (forall p :: p in paths ==> !net.On(p, a, b)) ==> net.Answering(paths, a, b) == None
    decreases |paths|
  {
    if paths != [] && !net.On(paths[0], a, b) {
      FirstAnswers(net, paths[1..], a, b, if i > 0 then i - 1 else 0);
    }
  }

  /** A path answers exactly when it has a place of either name; and then by what lies between the first of each. */
  lemma AnswersIff(net: Network, path: string, a: string, b: string)
    ensures net.On(path, a, b) <==>
              path in net.byPath && (exists m :: m in net.byPath[path] && Named(m, a))
              && exists n :: n in net.byPath[path] && Named(n, b)
  {
    if path in net.byPath {
      PlaceIs(net.byPath[path], a);
      PlaceIs(net.byPath[path], b);
    }
  }
}
