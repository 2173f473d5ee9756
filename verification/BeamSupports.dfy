/** What a component is mounted on, and what moves when a support moves. */
module BeamSupports {
  import opened Graphs
  import opened Lists
  import opened Wrappers

  /** `mountedOn` is empty for a component that stands on its own. It may name a support that is no component
      of the document, and mountings may go in a circle. */
  datatype Component = Component(id: string, mountedOn: string)

  /** The component of an id: the last, if there are several. */
  function ById(components: seq<Component>): map<string, Component> {
    if components == [] then map[]
    else ById(components[..|components| - 1])[components[|components| - 1].id := components[|components| - 1]]
  }

  /** Each component leads to what it is mounted on. */
  function Up(components: seq<Component>): map<string, seq<string>> {
    var byId := ById(components);
    map id | id in byId && byId[id].mountedOn != "" :: [byId[id].mountedOn]
  }

  /** Each support leads to what is mounted on it, in the document's order. */
  function Down(components: seq<Component>): map<string, seq<string>> {
    if components == [] then map[]
    else
      var below, last := Down(components[..|components| - 1]), components[|components| - 1];
      if last.mountedOn == "" then below else below[last.mountedOn := Out(below, last.mountedOn) + [last.id]]
  }

  lemma {:induction false} InDown(components: seq<Component>, s: string, id: string)
    ensures id in Out(Down(components), s) <==> s != "" && Component(id, s) in components
  {
    if components != [] {
      InDown(components[..|components| - 1], s, id);
    }
  }

  lemma {:induction false} InById(components: seq<Component>, id: string)
    ensures id in ById(components) <==> exists c :: c in components && c.id == id
    ensures id in ById(components) ==> ById(components)[id].id == id && ById(components)[id] in components
  {
    if components != [] {
      var front, last := components[..|components| - 1], components[|components| - 1];
      InById(front, id);
      assert forall c :: c in components <==> c in front || c == last;
    }
  }

  /** Components of one id are all mounted on the same, where they are mounted: as the last of them says. */
  ghost predicate Agree(components: seq<Component>) {
    forall c :: c in components && c.mountedOn != "" ==>
      c.id in ById(components) && ById(components)[c.id].mountedOn == c.mountedOn
  }

  /** A step up is the last component's of an id; a step down, any component's. */
  lemma StepsUpAndDown(components: seq<Component>, c: string, s: string)
    ensures s in Out(Up(components), c) <==> s != "" && c in ById(components) && ById(components)[c].mountedOn == s
    ensures c in Out(Down(components), s) <==> s != "" && Component(c, s) in components
    ensures s in Out(Up(components), c) ==> c in Out(Down(components), s)
  {
    InById(components, c);
    InDown(components, s, c);
  }

  /** They are each other turned round exactly when components of one id agree. */
  lemma UpIsDownIff(components: seq<Component>)
    ensures Turned(Up(components), Down(components)) <==> Agree(components)
  {
    forall c, s
      ensures s in Out(Up(components), c) <==> s != "" && c in ById(components) && ById(components)[c].mountedOn == s
      ensures c in Out(Down(components), s) <==> s != "" && Component(c, s) in components
      ensures s in Out(Up(components), c) ==> c in Out(Down(components), s)
    {
      StepsUpAndDown(components, c, s);
    }
    if Turned(Up(components), Down(components)) {
      forall c | c in components && c.mountedOn != ""
        ensures c.id in ById(components) && ById(components)[c.id].mountedOn == c.mountedOn
      {
        assert c == Component(c.id, c.mountedOn);
        assert TurnedAt(Up(components), Down(components), c.id, c.mountedOn);
      }
    }
    if Agree(components) {
      forall c, s ensures TurnedAt(Up(components), Down(components), c, s) {
        if c in Out(Down(components), s) {
          assert Component(c, s) in components;
        }
      }
    }
  }

  /** What is reached in one step or more. */
  ghost predicate Above(g: map<string, seq<string>>, a: string, b: string) {
    exists n: nat :: n > 0 && Steps(g, a, b, n)
  }

  lemma AboveNext(g: map<string, seq<string>>, a: string, b: string, c: string)
    requires Above(g, a, b) && c in Out(g, b)
    ensures Above(g, a, c)
  {
    var n: nat :| n > 0 && Steps(g, a, b, n);
    OneStep(g, b, c);
    StepsAdd(g, a, b, c, n, 1);
  }

  /** What `y` leads to is listed, or waits to be. */
  ghost predicate Handled(g: map<string, seq<string>>, out: seq<string>, stack: seq<string>, y: string) {
    forall z :: z in Out(g, y) ==> z in out || z in stack
  }

  /** Everything listed or waiting is above `a`, and all that `a` and the listed lead to is listed or waits. */
  ghost predicate Spread(g: map<string, seq<string>>, a: string, out: seq<string>, stack: seq<string>) {
    && (forall c {:trigger Above(g, a, c)} :: c in out || c in stack ==> Above(g, a, c))
    && (forall y {:trigger Handled(g, out, stack, y)} :: y == a || y in out ==> Handled(g, out, stack, y))
  }

  /** The head of the waiting list is listed, and what it leads to waits. */
  lemma SpreadOn(g: map<string, seq<string>>, a: string, out: seq<string>, stack: seq<string>)
    requires Spread(g, a, out, stack) && stack != []
    ensures Spread(g, a, out + [stack[0]], stack[1..] + Out(g, stack[0]))
  {
    var c := stack[0];
    var on, rest := out + [c], stack[1..] + Out(g, c);
    assert Above(g, a, c);
    forall x | x in on || x in rest ensures Above(g, a, x) {
      if x in Out(g, c) {
        AboveNext(g, a, c, x);
      }
    }
    forall y | y == a || y in on ensures Handled(g, on, rest, y) {
      if y != c || c in out {
        assert Handled(g, out, stack, y);
      }
    }
  }

  /** The head of the waiting list was listed before. */
  lemma SpreadSkip(g: map<string, seq<string>>, a: string, out: seq<string>, stack: seq<string>)
    requires Spread(g, a, out, stack) && stack != [] && stack[0] in out
    ensures Spread(g, a, out, stack[1..])
  {
    forall y | y == a || y in out ensures Handled(g, out, stack[1..], y) {
      assert Handled(g, out, stack, y);
    }
    forall x | x in out || x in stack[1..] ensures Above(g, a, x) {
      assert x in stack || x in out;
    }
  }

  /** When nothing waits, all that is above is listed. */
  lemma {:induction false} SpreadHolds(g: map<string, seq<string>>, a: string, x: string, out: seq<string>,
                                       b: string, n: nat)
    requires Spread(g, a, out, [])
    requires (x == a || x in out) && Steps(g, x, b, n) && n > 0
    ensures b in out
    decreases n
  {
    var c :| c in Out(g, x) && Steps(g, c, b, n - 1);
    assert Handled(g, out, [], x);
    if n > 1 {
      SpreadHolds(g, a, c, out, b, n - 1);
    }
  }

  lemma SpreadIsAll(g: map<string, seq<string>>, a: string, out: seq<string>)
    requires Spread(g, a, out, [])
    ensures forall s :: s in out <==> Above(g, a, s)
  {
    forall s | Above(g, a, s) ensures s in out {
      var n: nat :| n > 0 && Steps(g, a, s, n);
      SpreadHolds(g, a, a, out, s, n);
    }
  }

  /** The supports so far: the k-th is k steps up, and `at` is where the chain has come to. */
  ghost predicate Climbed(g: map<string, seq<string>>, component: string, out: seq<string>, at: string) {
    && at == (if out == [] then component else out[|out| - 1])
    && (forall i {:trigger out[i]} :: 0 <= i < |out| ==> Steps(g, component, out[i], i + 1))
    && (forall y {:trigger Handled(g, out, [], y)} ::
          (y == component || y in out) && y != at ==> Handled(g, out, [], y))
  }

  lemma ClimbedOn(g: map<string, seq<string>>, component: string, out: seq<string>, at: string, on: string)
    requires Climbed(g, component, out, at) && Out(g, at) == [on] && on !in out
    ensures Climbed(g, component, out + [on], on)
  {
    var more := out + [on];
    OneStep(g, at, on);
    if out != [] {
      assert Steps(g, component, out[|out| - 1], |out|);
      StepsAdd(g, component, at, on, |out|, 1);
    }
    forall i | 0 <= i < |more| ensures Steps(g, component, more[i], i + 1) {
      if i < |out| {
        assert more[i] == out[i];
      }
    }
    forall y | (y == component || y in more) && y != on ensures Handled(g, more, [], y) {
      if y != at {
        assert Handled(g, out, [], y);
      }
    }
  }

  /** A chain that stops is the whole chain: its end stands on its own, is no component, or closes a circle. */
  lemma ClimbedAll(g: map<string, seq<string>>, component: string, out: seq<string>, at: string)
    requires Climbed(g, component, out, at) && forall on :: on in Out(g, at) ==> on in out
    ensures forall s :: s in out <==> Above(g, component, s)
  {
    forall c | c in out ensures Above(g, component, c) {
      var i :| 0 <= i < |out| && out[i] == c;
      assert Steps(g, component, out[i], i + 1);
    }
    forall y | y == component || y in out ensures Handled(g, out, [], y) {
    }
    SpreadIsAll(g, component, out);
  }

  /** Nearest first: the k-th support listed is k steps up. */
  method SupportChain(components: seq<Component>, component: string) returns (out: seq<string>)
    ensures Distinct(out)
    ensures forall i :: 0 <= i < |out| ==> Steps(Up(components), component, out[i], i + 1)
    ensures forall s :: s in out <==> Above(Up(components), component, s)
  {
    var byId := ById(components);
    ghost var g, at := Up(components), component;
    ghost var all := set c | c in components :: c.mountedOn;
    out := [];
    var cur := if component in byId then Some(byId[component]) else None;
    while cur.Some? && cur.value.mountedOn != "" && cur.value.mountedOn !in out
      invariant cur == if at in byId then Some(byId[at]) else None
      invariant Distinct(out) && Climbed(g, component, out, at)
      decreases all - set s | s in out
    {
      var on := cur.value.mountedOn;
      InById(components, at);
      ClimbedOn(g, component, out, at, on);
      assert on in all && (set s | s in out + [on]) == (set s | s in out) + {on};
      out := out + [on];
      at := on;
      cur := if on in byId then Some(byId[on]) else None;
    }
    ClimbedAll(g, component, out, at);
  }

  lemma DownIsOfComponents(components: seq<Component>, s: string)
    ensures forall c :: c in Out(Down(components), s) ==> exists d :: d in components && d.id == c
  {
    forall c | c in Out(Down(components), s) ensures exists d :: d in components && d.id == c {
      InDown(components, s, c);
    }
  }

  /** Every component that moves with a support: mounted on it, directly or through others. */
  method MovesWith(components: seq<Component>, support: string) returns (out: seq<string>)
    ensures Distinct(out)
    ensures forall c :: c in out <==> Above(Down(components), support, c)
  {
    ghost var all := set c | c in components :: c.id;
    var children := Children(components);
    out := [];
    var stack := if support in children then children[support] else [];
    DownIsOfComponents(components, support);
    forall c | c in stack ensures Above(children, support, c) {
      OneStep(children, support, c);
    }
    while stack != []
      invariant Distinct(out) && Spread(children, support, out, stack)
      invariant forall c :: c in stack ==> c in all
      decreases all - (set c | c in out), |stack|
    {
      var c := stack[0];
      if c in out {
        SpreadSkip(children, support, out, stack);
        stack := stack[1..];
      } else {
        SpreadOn(children, support, out, stack);
        DownIsOfComponents(components, c);
        assert c in all && (set x | x in out + [c]) == (set x | x in out) + {c};
        stack := stack[1..];
        out := out + [c];
        stack := stack + if c in children then children[c] else [];
      }
    }
    SpreadIsAll(children, support, out);
  }

  /** The ids mounted on each support, in the document's order. */
  method Children(components: seq<Component>) returns (children: map<string, seq<string>>)
    ensures children == Down(components)
  {
    children := map[];
    for i := 0 to |components|
      invariant children == Down(components[..i])
    {
      var c := components[i];
      assert components[..i + 1][..i] == components[..i];
      if c.mountedOn != "" {
        children := children[c.mountedOn := (if c.mountedOn in children then children[c.mountedOn] else []) + [c.id]];
      }
    }
    assert components[..|components|] == components;
  }

  /** What a component stands on moves it; and what moves it it stands on, where every component stands, in a
      step or more, on what any mounting of its id says. */
  method MovesWithIffSupported(components: seq<Component>, c: string, s: string)
    returns (moving: seq<string>, chain: seq<string>)
    ensures s in chain ==> c in moving
    ensures Borne(components) ==> (c in moving <==> s in chain)
    ensures c in moving <==> Above(Down(components), s, c)
    ensures s in chain <==> Above(Up(components), c, s)
  {
    moving := MovesWith(components, s);
    chain := SupportChain(components, c);
    AboveThenBelow(components, c, s);
    if Borne(components) {
      MovesWithIsSupportedIff(components);
      assert Opposite(components, c, s);
    }
  }

  /** Every component stands on what any of the components of its id is mounted on. */
  ghost predicate Borne(components: seq<Component>) {
    forall c :: c in components && c.mountedOn != "" ==> Above(Up(components), c.id, c.mountedOn)
  }

  ghost predicate Opposite(components: seq<Component>, c: string, s: string) {
    Above(Down(components), s, c) <==> Above(Up(components), c, s)
  }

  /** On exactly these documents moving with a support and having it in the chain are the same, for all. */
  lemma MovesWithIsSupportedIff(components: seq<Component>)
    ensures (forall c, s :: Opposite(components, c, s)) <==> Borne(components)
  {
    if forall c, s :: Opposite(components, c, s) {
      forall c | c in components && c.mountedOn != "" ensures Above(Up(components), c.id, c.mountedOn) {
        assert c == Component(c.id, c.mountedOn) && Opposite(components, c.id, c.mountedOn);
        StepsUpAndDown(components, c.id, c.mountedOn);
        OneStep(Down(components), c.mountedOn, c.id);
      }
    }
    if Borne(components) {
      forall c, s ensures Opposite(components, c, s) {
        AboveThenBelow(components, c, s);
        if Above(Down(components), s, c) {
          var n: nat :| n > 0 && Steps(Down(components), s, c, n);
          DownThenUp(components, s, c, n);
        }
      }
    }
  }

  lemma AboveThenBelow(components: seq<Component>, c: string, s: string)
    ensures Above(Up(components), c, s) ==> Above(Down(components), s, c)
  {
    if Above(Up(components), c, s) {
      var n: nat :| n > 0 && Steps(Up(components), c, s, n);
      UpThenDown(components, c, s, n);
    }
  }

  lemma {:induction false} DownThenUp(components: seq<Component>, s: string, c: string, n: nat)
    requires Borne(components) && n > 0 && Steps(Down(components), s, c, n)
    ensures Above(Up(components), c, s)
    decreases n
  {
    var on :| on in Out(Down(components), s) && Steps(Down(components), on, c, n - 1);
    StepsUpAndDown(components, on, s);
    assert Above(Up(components), Component(on, s).id, s);
    if n > 1 {
      DownThenUp(components, on, c, n - 1);
      AboveAbove(Up(components), c, on, s);
    }
  }

  lemma AboveAbove(g: map<string, seq<string>>, a: string, b: string, c: string)
    requires Above(g, a, b) && Above(g, b, c)
    ensures Above(g, a, c)
  {
    var m: nat :| m > 0 && Steps(g, a, b, m);
    var n: nat :| n > 0 && Steps(g, b, c, n);
    StepsAdd(g, a, b, c, m, n);
  }

  /** So it is where components of one id agree ... */
  lemma AgreeingAreBorne(components: seq<Component>)
    requires Agree(components)
    ensures Borne(components)
  {
    forall c | c in components && c.mountedOn != "" ensures Above(Up(components), c.id, c.mountedOn) {
      StepsUpAndDown(components, c.id, c.mountedOn);
      OneStep(Up(components), c.id, c.mountedOn);
    }
  }

  /** ... and also where the last is mounted on something that stands where an earlier one does. */
  lemma BorneWithoutAgreeing(components: seq<Component>)
    requires components == [Component("c", "s"), Component("t", "s"), Component("c", "t")]
    ensures Borne(components) && !Agree(components)
  {
    var g := Up(components);
    assert components[..2] == [components[0], components[1]] && components[..2][..1] == [components[0]];
    assert ById(components[..2])["t"] == components[1];
    assert ById(components)["c"] == components[2] && ById(components)["t"] == components[1];
    assert components[0] in components && components[1] in components && components[2] in components;
    StepsUpAndDown(components, "c", "t");
    StepsUpAndDown(components, "t", "s");
    OneStep(g, "c", "t");
    OneStep(g, "t", "s");
    AboveAbove(g, "c", "t", "s");
  }

  lemma {:induction false} UpThenDown(components: seq<Component>, c: string, s: string, n: nat)
    requires Steps(Up(components), c, s, n)
    ensures Steps(Down(components), s, c, n)
    decreases n
  {
    if n > 0 {
      var on :| on in Out(Up(components), c) && Steps(Up(components), on, s, n - 1);
      UpThenDown(components, on, s, n - 1);
      StepsUpAndDown(components, c, on);
      OneStep(Down(components), on, c);
      StepsAdd(Down(components), s, on, c, n - 1, 1);
    }
  }

  /** Two components of one id, the first on a girder, the last on nothing: it moves with the girder, and stands
      on nothing. */
  lemma FirstOfAnIdMoves(components: seq<Component>)
    requires components == [Component("q", "girder"), Component("q", "")]
    ensures Above(Down(components), "girder", "q") && forall s :: !Above(Up(components), "q", s)
  {
    StepsUpAndDown(components, "q", "girder");
    assert components[0] == Component("q", "girder");
    OneStep(Down(components), "girder", "q");
    assert ById(components)["q"].mountedOn == "";
    forall on ensures on !in Out(Up(components), "q") {
      StepsUpAndDown(components, "q", on);
    }
  }
}
