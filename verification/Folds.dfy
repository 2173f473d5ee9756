/** Accumulating over a list, and when the order of the list does not matter. */
module Folds {
  function Fold<A, R>(s: seq<A>, r: R, op: (R, A) -> R): R {
    if s == [] then r else op(Fold(s[..|s| - 1], r, op), s[|s| - 1])
  }

  ghost predicate Commutes<A(!new), R(!new)>(op: (R, A) -> R) {
    forall r, x, y :: op(op(r, x), y) == op(op(r, y), x)
  }

  /** Taking one element out, wherever it stands, takes out its step. */
  lemma {:induction false} FoldWithout<A(!new), R(!new)>(s: seq<A>, r: R, op: (R, A) -> R, i: nat)
    requires i < |s| && Commutes(op)
    ensures Fold(s, r, op) == op(Fold(s[..i] + s[i + 1..], r, op), s[i])
    decreases |s|
  {
    var n := |s| - 1;
    var front := s[..n];
    if i == n {
      assert s[..i] + s[i + 1..] == front;
    } else {
      FoldWithout(front, r, op, i);
      var less := s[..i] + s[i + 1..];
      assert less[..n - 1] == front[..i] + front[i + 1..] && less[n - 1] == s[n];
    }
  }

  lemma SameWithout<T>(a: seq<T>, b: seq<T>, i: nat)
    requires |a| > 0 && i < |b| && b[i] == a[|a| - 1] && multiset(a) == multiset(b)
    ensures multiset(a[..|a| - 1]) == multiset(b[..i] + b[i + 1..])
  {
    assert a == a[..|a| - 1] + [b[i]];
    assert b == b[..i] + [b[i]] + b[i + 1..];
    assert multiset(a[..|a| - 1]) == multiset(a) - multiset{b[i]};
    assert multiset(b[..i] + b[i + 1..]) == multiset(b) - multiset{b[i]};
  }

  lemma {:induction false} FoldUnordered<A(!new), R(!new)>(a: seq<A>, b: seq<A>, r: R, op: (R, A) -> R)
    requires multiset(a) == multiset(b) && Commutes(op)
    ensures Fold(a, r, op) == Fold(b, r, op)
    decreases |a|
  {
    if a == [] {
      assert |multiset(b)| == 0;
    } else {
      var n := |a| - 1;
      assert a[n] in multiset(b);
      var i :| 0 <= i < |b| && b[i] == a[n];
      SameWithout(a, b, i);
      FoldUnordered(a[..n], b[..i] + b[i + 1..], r, op);
      FoldWithout(b, r, op, i);
    }
  }
}
