/** The stable sort by a number that the program's `list.sort(key=...)` calls rely on. */
module Sorting {
  ghost predicate Ascending<T>(s: seq<T>, key: T -> real) {
    forall i, j :: 0 <= i < j < |s| ==> key(s[i]) <= key(s[j])
  }

  /** Puts x after everything of at most its key: it arrives last. */
  function Insert<T>(x: T, s: seq<T>, key: T -> real): seq<T> {
    if s != [] && key(x) < key(s[|s| - 1]) then Insert(x, s[..|s| - 1], key) + [s[|s| - 1]] else s + [x]
  }

  function Sort<T>(s: seq<T>, key: T -> real): seq<T> {
    if s == [] then [] else Insert(s[|s| - 1], Sort(s[..|s| - 1], key), key)
  }

  lemma {:induction false} InsertAdds<T>(x: T, s: seq<T>, key: T -> real)
    ensures multiset(Insert(x, s, key)) == multiset(s) + multiset{x}
    decreases |s|
  {
    if s != [] && key(x) < key(s[|s| - 1]) {
      assert s == s[..|s| - 1] + [s[|s| - 1]];
      InsertAdds(x, s[..|s| - 1], key);
    }
  }

  lemma {:induction false} SortPermutes<T>(s: seq<T>, key: T -> real)
    ensures multiset(Sort(s, key)) == multiset(s)
    decreases |s|
  {
    if s != [] {
      assert s == s[..|s| - 1] + [s[|s| - 1]];
      SortPermutes(s[..|s| - 1], key);
      InsertAdds(s[|s| - 1], Sort(s[..|s| - 1], key), key);
    }
  }

  lemma AscendingAdds<T>(s: seq<T>, x: T, key: T -> real)
    requires Ascending(s, key) && forall y :: y in s ==> key(y) <= key(x)
    ensures Ascending(s + [x], key)
  {
  }

  lemma {:induction false} InsertAscends<T>(x: T, s: seq<T>, key: T -> real)
    requires Ascending(s, key)
    ensures Ascending(Insert(x, s, key), key)
    ensures forall y :: y in Insert(x, s, key) ==> y == x || y in s
    decreases |s|
  {
    if s == [] {
      assert Insert(x, s, key) == [x];
    } else if key(x) < key(s[|s| - 1]) {
      InsertAscends(x, s[..|s| - 1], key);
      AscendingAdds(Insert(x, s[..|s| - 1], key), s[|s| - 1], key);
    } else {
      AscendingAdds(s, x, key);
    }
  }

  lemma {:induction false} SortAscends<T>(s: seq<T>, key: T -> real)
    ensures Ascending(Sort(s, key), key)
    decreases |s|
  {
    if s != [] {
      SortAscends(s[..|s| - 1], key);
      InsertAscends(s[|s| - 1], Sort(s[..|s| - 1], key), key);
    }
  }

  function Tie<T>(x: T, key: T -> real, k: real): seq<T> {
    if key(x) == k then [x] else []
  }

  /** What is of one key, in order. */
  function Ties<T>(s: seq<T>, key: T -> real, k: real): seq<T> {
    if s == [] then [] else Ties(s[..|s| - 1], key, k) + Tie(s[|s| - 1], key, k)
  }

  lemma {:induction false} TiesHold<T>(s: seq<T>, key: T -> real, k: real, x: T)
    ensures x in Ties(s, key, k) <==> x in s && key(x) == k
    decreases |s|
  {
    if s != [] {
      TiesHold(s[..|s| - 1], key, k, x);
      assert x in s <==> x in s[..|s| - 1] || x == s[|s| - 1];
    }
  }

  /** The first element is the first of its key. */
  lemma {:induction false} TiesStart<T>(s: seq<T>, key: T -> real)
    requires s != []
    ensures Ties(s, key, key(s[0])) != [] && Ties(s, key, key(s[0]))[0] == s[0]
    decreases |s|
  {
    if |s| > 1 {
      TiesStart(s[..|s| - 1], key);
    } else {
      assert Ties(s[..0], key, key(s[0])) == [];
    }
  }

  lemma TiesAdd<T>(s: seq<T>, x: T, key: T -> real, k: real)
    ensures Ties(s + [x], key, k) == Ties(s, key, k) + Tie(x, key, k)
  {
    assert (s + [x])[..|s|] == s;
  }

  /** Two elements of different keys are not both of one: which of them comes first does not show. */
  lemma ApartCommute<T>(t: seq<T>, x: T, y: T, key: T -> real, k: real)
    requires key(x) != key(y)
    ensures (t + Tie(x, key, k)) + Tie(y, key, k) == (t + Tie(y, key, k)) + Tie(x, key, k)
  {
    if key(x) == k {
      assert Tie(y, key, k) == [];
    } else {
      assert Tie(x, key, k) == [];
    }
  }

  lemma {:induction false} InsertKeepsTies<T>(x: T, s: seq<T>, key: T -> real, k: real)
    ensures Ties(Insert(x, s, key), key, k) == Ties(s, key, k) + Tie(x, key, k)
    decreases |s|
  {
    if s != [] && key(x) < key(s[|s| - 1]) {
      var front, last := s[..|s| - 1], s[|s| - 1];
      InsertKeepsTies(x, front, key, k);
      TiesAdd(Insert(x, front, key), last, key, k);
      ApartCommute(Ties(front, key, k), x, last, key, k);
    } else {
      TiesAdd(s, x, key, k);
    }
  }

  /** The sort is stable: what is of one key stays in the order it came. */
  lemma {:induction false} SortKeepsTies<T>(s: seq<T>, key: T -> real, k: real)
    ensures Ties(Sort(s, key), key, k) == Ties(s, key, k)
    decreases |s|
  {
    if s != [] {
      var front := s[..|s| - 1];
      SortKeepsTies(front, key, k);
      InsertKeepsTies(s[|s| - 1], Sort(front, key), key, k);
    }
  }

  /** What is in order already stays as it is. */
  lemma {:induction false} SortOfAscending<T>(s: seq<T>, key: T -> real)
    requires Ascending(s, key)
    ensures Sort(s, key) == s
    decreases |s|
  {
    if s != [] {
      var front := s[..|s| - 1];
      assert s == front + [s[|s| - 1]];
      SortOfAscending(front, key);
    }
  }
}
