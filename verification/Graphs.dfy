/** Directed graphs given by the successors of each node, and what can be reached in how many steps. */
module Graphs {

  function Out<T(==)>(g: map<T, seq<T>>, a: T): seq<T> {
    if a in g then g[a] else []
  }

  ghost predicate Steps<T(!new)>(g: map<T, seq<T>>, a: T, b: T, n: nat) {
    if n == 0 then a == b else exists c :: c in Out(g, a) && Steps(g, c, b, n - 1)
  }

  ghost predicate Reaches<T(!new)>(g: map<T, seq<T>>, a: T, b: T) {
    exists n: nat :: Steps(g, a, b, n)
  }

  ghost predicate OnCycle<T(!new)>(g: map<T, seq<T>>, a: T) {
    exists n: nat :: n > 0 && Steps(g, a, a, n)
  }

  lemma {:induction false} StepsAdd<T(!new)>(g: map<T, seq<T>>, a: T, b: T, c: T, m: nat, n: nat)
    requires Steps(g, a, b, m) && Steps(g, b, c, n)
    ensures Steps(g, a, c, m + n)
    decreases m
  {
    if m > 0 {
      var d :| d in Out(g, a) && Steps(g, d, b, m - 1);
      StepsAdd(g, d, b, c, m - 1, n);
    }
  }

  lemma OneStep<T(!new)>(g: map<T, seq<T>>, a: T, b: T)
    requires b in Out(g, a)
    ensures Steps(g, a, b, 1)
  {
    assert Steps(g, b, b, 0);
  }

  /** The last step of a walk. */
  lemma {:induction false} LastStep<T(!new)>(g: map<T, seq<T>>, a: T, c: T, n: nat) returns (b: T)
    requires Steps(g, a, c, n + 1)
    ensures Steps(g, a, b, n) && c in Out(g, b)
    decreases n
  {
    var d :| d in Out(g, a) && Steps(g, d, c, n);
    if n == 0 {
      b := a;
    } else {
      b := LastStep(g, d, c, n - 1);
    }
  }

  lemma ReachesOn<T(!new)>(g: map<T, seq<T>>, a: T, b: T, c: T)
    requires Reaches(g, a, b) && Reaches(g, b, c)
    ensures Reaches(g, a, c)
  {
    var m: nat :| Steps(g, a, b, m);
    var n: nat :| Steps(g, b, c, n);
    StepsAdd(g, a, b, c, m, n);
  }

  lemma ReachesNext<T(!new)>(g: map<T, seq<T>>, a: T, b: T)
    requires b in Out(g, a)
    ensures Reaches(g, a, b)
  {
    OneStep(g, a, b);
  }

  /** Each node of the list but the last leads to the next. */
  ghost predicate Leads<T>(g: map<T, seq<T>>, row: seq<T>, i: nat) {
    i + 1 < |row| ==> row[i + 1] in Out(g, row[i])
  }

  ghost predicate Chained<T>(g: map<T, seq<T>>, row: seq<T>) {
    forall i: nat :: Leads(g, row, i)
  }

  lemma {:induction false} StepsAlong<T(!new)>(g: map<T, seq<T>>, row: seq<T>, i: nat, j: nat)
    requires Chained(g, row) && i <= j < |row|
    ensures Steps(g, row[i], row[j], j - i)
    decreases j - i
  {
    if i < j {
      assert Leads(g, row, i);
      StepsAlong(g, row, i + 1, j);
    }
  }

  lemma StepsAround<T(!new)>(g: map<T, seq<T>>, row: seq<T>, i: nat, j: nat)
    requires Chained(g, row) && j < i < |row| && row[0] in Out(g, row[|row| - 1])
    ensures Steps(g, row[i], row[j], |row| - i + j)
  {
    var last := |row| - 1;
    StepsAlong(g, row, i, last);
    StepsAlong(g, row, 0, j);
    OneStep(g, row[last], row[0]);
    StepsAdd(g, row[i], row[last], row[0], last - i, 1);
    StepsAdd(g, row[i], row[0], row[j], last - i + 1, j);
  }

  /** Two graphs with the same edges, turned round. */
  ghost predicate TurnedAt<T>(g: map<T, seq<T>>, h: map<T, seq<T>>, a: T, b: T) {
    b in Out(g, a) <==> a in Out(h, b)
  }

  ghost predicate Turned<T(!new)>(g: map<T, seq<T>>, h: map<T, seq<T>>) {
    forall a, b :: TurnedAt(g, h, a, b)
  }

  lemma {:induction false} StepsTurned<T(!new)>(g: map<T, seq<T>>, h: map<T, seq<T>>, a: T, b: T, n: nat)
    requires Turned(g, h) && Steps(g, a, b, n)
    ensures Steps(h, b, a, n)
    decreases n
  {
    if n > 0 {
      var c :| c in Out(g, a) && Steps(g, c, b, n - 1);
      StepsTurned(g, h, c, b, n - 1);
      assert TurnedAt(g, h, a, c);
      OneStep(h, c, a);
      StepsAdd(h, b, c, a, n - 1, 1);
    }
  }

  lemma TurnedBack<T(!new)>(g: map<T, seq<T>>, h: map<T, seq<T>>)
    requires Turned(g, h)
    ensures Turned(h, g)
  {
    forall a, b ensures TurnedAt(h, g, a, b) {
      assert TurnedAt(g, h, b, a);
    }
  }
}
