/** In which order collections that build on one another are installed, and when there is such an order. */
module CatalogueOrder {
  import opened Graphs
  import opened Lists
  import opened Wrappers

  datatype Problem = Circle(id: string) | NotShipped(id: string)

  /** Each collection stands once, is shipped, and comes after everything it requires. */
  ghost predicate Ordered(tree: map<string, seq<string>>, out: seq<string>) {
    && Distinct(out)
    && (forall i {:trigger InPlace(tree, out, i)} :: 0 <= i < |out| ==> InPlace(tree, out, i))
  }

  ghost predicate InPlace(tree: map<string, seq<string>>, out: seq<string>, i: nat)
    requires i < |out|
  {
    out[i] in tree && forall dep :: dep in tree[out[i]] ==> dep in out[..i]
  }

  /** The collections being visited: each requires the next, and the last requires `id`. */
  ghost predicate Trail(tree: map<string, seq<string>>, path: seq<string>, id: string) {
    && Distinct(path)
    && (forall i :: 0 <= i < |path| ==> path[i] in tree && Onward(path, id, i) in tree[path[i]])
  }

  function Onward(path: seq<string>, id: string, i: nat): string
    requires i < |path|
  {
    if i + 1 < |path| then path[i + 1] else id
  }

  lemma TrailOn(tree: map<string, seq<string>>, path: seq<string>, id: string, dep: string)
    requires Trail(tree, path, id) && id !in path && id in tree && dep in tree[id]
    ensures Trail(tree, path + [id], dep)
  {
    var on := path + [id];
    forall i | 0 <= i < |on| ensures on[i] in tree && Onward(on, dep, i) in tree[on[i]] {
      if i < |path| {
        assert on[i] == path[i] && Onward(on, dep, i) == Onward(path, id, i);
      }
    }
  }

  lemma OrderedOn(tree: map<string, seq<string>>, out: seq<string>, id: string)
    requires Ordered(tree, out) && id !in out && id in tree && forall dep :: dep in tree[id] ==> dep in out
    ensures Ordered(tree, out + [id])
  {
    var on := out + [id];
    forall i | 0 <= i < |on| ensures InPlace(tree, on, i) {
      if i < |out| {
        assert InPlace(tree, out, i);
        assert on[..i] == out[..i];
      } else {
        assert on[..i] == out;
      }
    }
  }

  lemma {:induction false} TrailReaches(tree: map<string, seq<string>>, path: seq<string>, id: string, i: nat)
    requires Trail(tree, path, id) && i < |path|
    ensures Steps(tree, path[i], id, |path| - i)
    decreases |path| - i
  {
    var b := Onward(path, id, i);
    OneStep(tree, path[i], b);
    if i + 1 < |path| {
      TrailReaches(tree, path, id, i + 1);
      StepsAdd(tree, path[i], b, id, 1, |path| - i - 1);
    }
  }

  lemma TrailFits(tree: map<string, seq<string>>, path: seq<string>, id: string)
    requires Trail(tree, path, id)
    ensures |path| <= |tree|
  {
    var on := set x | x in path;
    CountDistinct(path);
    assert on <= tree.Keys;
    SubsetCount(on, tree.Keys);
  }

  /** Whatever an ordered list reaches is in it, and strictly earlier after a step or more. */
  lemma {:induction false} Earlier(tree: map<string, seq<string>>, out: seq<string>, i: nat, y: string, n: nat)
    returns (j: nat)
    requires Ordered(tree, out) && i < |out| && Steps(tree, out[i], y, n)
    ensures j <= i && out[j] == y && (n > 0 ==> j < i)
    decreases n
  {
    if n == 0 {
      j := i;
    } else {
      assert InPlace(tree, out, i);
      var dep :| dep in Out(tree, out[i]) && Steps(tree, dep, y, n - 1);
      var k :| 0 <= k < i && out[k] == dep;
      j := Earlier(tree, out, k, y, n - 1);
    }
  }

  /** Shipped, and not requiring itself. */
  ghost predicate Fine(tree: map<string, seq<string>>, id: string) {
    id in tree && !OnCycle(tree, id)
  }

  lemma OrderedIsFine(tree: map<string, seq<string>>, out: seq<string>, x: string, y: string)
    requires Ordered(tree, out) && x in out && Reaches(tree, x, y)
    ensures y in out && Fine(tree, y)
  {
    var i :| 0 <= i < |out| && out[i] == x;
    var n: nat :| Steps(tree, x, y, n);
    var j := Earlier(tree, out, i, y, n);
    assert InPlace(tree, out, j);
    if OnCycle(tree, y) {
      var m: nat :| m > 0 && Steps(tree, y, y, m);
      var k := Earlier(tree, out, j, y, m);
      assert false;
    }
  }

  lemma OrderedReaches(tree: map<string, seq<string>>, out: seq<string>, wanted: seq<string>)
    requires Ordered(tree, out) && forall w :: w in wanted ==> w in out
    ensures forall w, x :: w in wanted && Reaches(tree, w, x) ==> x in out && Fine(tree, x)
  {
    forall w, x | w in wanted && Reaches(tree, w, x) ensures x in out && Fine(tree, x) {
      OrderedIsFine(tree, out, w, x);
    }
  }

  ghost predicate Wanted(tree: map<string, seq<string>>, wanted: seq<string>, x: string) {
    exists w :: w in wanted && Reaches(tree, w, x)
  }

  ghost predicate RealOf(tree: map<string, seq<string>>, wanted: seq<string>, p: Problem) {
    exists w :: w in wanted && Real(tree, w, p)
  }

  /** A problem is of a collection that is reached, and is as it says. */
  ghost predicate Real(tree: map<string, seq<string>>, from: string, p: Problem) {
    Reaches(tree, from, p.id) && if p.Circle? then OnCycle(tree, p.id) else p.id !in tree
  }

  lemma RealOn(tree: map<string, seq<string>>, from: string, dep: string, p: Problem)
    requires dep in Out(tree, from) && Real(tree, dep, p)
    ensures Real(tree, from, p)
  {
    ReachesNext(tree, from, dep);
    ReachesOn(tree, from, dep, p.id);
  }

  lemma CircleIsReal(tree: map<string, seq<string>>, path: seq<string>, id: string)
    requires Trail(tree, path, id) && id in path
    ensures Real(tree, id, Circle(id))
  {
    var i :| 0 <= i < |path| && path[i] == id;
    TrailReaches(tree, path, id, i);
    assert Steps(tree, id, id, 0);
  }

  lemma NotShippedIsReal(tree: map<string, seq<string>>, id: string)
    requires id !in tree
    ensures Real(tree, id, NotShipped(id))
  {
    assert Steps(tree, id, id, 0);
  }

  class Visitor {
    const tree: map<string, seq<string>>
    var out: seq<string>

    constructor (tree: map<string, seq<string>>)
      ensures this.tree == tree && out == []
    {
      this.tree := tree;
      out := [];
    }

    /** Visits one collection, on the way given by `path`. */
    method Visit(cid: string, path: seq<string>) returns (problem: Option<Problem>)
      requires Ordered(tree, out) && Trail(tree, path, cid) && forall x :: x in path ==> x !in out
      modifies this`out
      ensures Ordered(tree, out) && old(out) <= out
      ensures problem.None? ==> cid in out && forall x :: x in path ==> x !in out
      ensures forall x :: x in out && x !in old(out) ==> Reaches(tree, cid, x)
      ensures problem.Some? ==> Real(tree, cid, problem.value)
      decreases |tree| + 1 - |path|
    {
      TrailFits(tree, path, cid);
      assert Steps(tree, cid, cid, 0) && Reaches(tree, cid, cid);
      if cid in path {
        CircleIsReal(tree, path, cid);
        return Some(Circle(cid));
      }
      if cid in out {
        return None;
      }
      if cid !in tree {
        NotShippedIsReal(tree, cid);
        return Some(NotShipped(cid));
      }
      var deps := tree[cid];
      for i := 0 to |deps|
        invariant Ordered(tree, out) && old(out) <= out
        invariant forall x :: x in path + [cid] ==> x !in out
        invariant forall k :: 0 <= k < i ==> deps[k] in out
        invariant forall x :: x in out && x !in old(out) ==> Reaches(tree, cid, x)
      {
        TrailOn(tree, path, cid, deps[i]);
        ReachesNext(tree, cid, deps[i]);
        problem := Visit(deps[i], path + [cid]);
        forall x | Reaches(tree, deps[i], x) ensures Reaches(tree, cid, x) {
          ReachesOn(tree, cid, deps[i], x);
        }
        if problem.Some? {
          RealOn(tree, cid, deps[i], problem.value);
          return;
        }
      }
      OrderedOn(tree, out, cid);
      out := out + [cid];
      return None;
    }

    /** Visits one of the collections asked for. */
    method VisitNext(wanted: seq<string>, i: nat) returns (problem: Option<Problem>)
      requires Ordered(tree, out) && i < |wanted|
      modifies this`out
      ensures Ordered(tree, out) && forall x :: x in old(out) ==> x in out
      ensures forall x :: x in out && x !in old(out) ==> Wanted(tree, wanted, x)
      ensures if problem.None? then wanted[i] in out else RealOf(tree, wanted, problem.value)
    {
      problem := Visit(wanted[i], []);
      assert wanted[i] in wanted;
    }

    /** Visits the collections asked for, one after another. */
    method VisitAll(wanted: seq<string>) returns (problem: Option<Problem>)
      requires out == []
      modifies this`out
      ensures Ordered(tree, out)
      ensures problem.None? ==> forall w :: w in wanted ==> w in out
      ensures forall x :: x in out ==> Wanted(tree, wanted, x)
      ensures problem.Some? ==> RealOf(tree, wanted, problem.value)
    {
      problem := None;
      for i := 0 to |wanted|
        invariant Ordered(tree, out) && problem.None?
        invariant forall k :: 0 <= k < i ==> wanted[k] in out
        invariant forall x :: x in out ==> Wanted(tree, wanted, x)
      {
        problem := VisitNext(wanted, i);
        if problem.Some? {
          return;
        }
      }
    }
  }

  /** The order of an installation. It exists exactly when nothing required, directly or not, is missing or
      requires itself; it then lists exactly what is wanted and what that requires. */
  method Order(tree: map<string, seq<string>>, wanted: seq<string>) returns (r: Result<seq<string>, Problem>)
    ensures r.Ok? <==> forall w, x :: w in wanted && Reaches(tree, w, x) ==> Fine(tree, x)
    ensures r.Ok? ==> Ordered(tree, r.value)
    ensures r.Ok? ==> forall x :: x in r.value <==> Wanted(tree, wanted, x)
    ensures r.Err? ==> RealOf(tree, wanted, r.error)
  {
    var visitor := new Visitor(tree);
    var problem := visitor.VisitAll(wanted);
    if problem.Some? {
      ghost var w :| w in wanted && Real(tree, w, problem.value);
      assert Reaches(tree, w, problem.value.id) && !Fine(tree, problem.value.id);
      return Err(problem.value);
    }
    OrderedReaches(tree, visitor.out, wanted);
    return Ok(visitor.out);
  }
}
