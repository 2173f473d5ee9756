/** Names in alphabetical order, each once: what sorting a set of names gives. */
module NameOrder {
  predicate Before(a: string, b: string) {
    b != "" && (a == "" || a[0] < b[0] || (a[0] == b[0] && Before(a[1..], b[1..])))
  }

  lemma {:induction false} BeforeIsOrder(a: string, b: string)
    ensures a == b || Before(a, b) || Before(b, a)
    ensures !(Before(a, b) && Before(b, a)) && !Before(a, a)
    decreases |a| + |b|
  {
    if a != "" && b != "" {
      BeforeIsOrder(a[1..], b[1..]);
      assert a == [a[0]] + a[1..] && b == [b[0]] + b[1..];
    }
    if a != "" {
      BeforeIsIrreflexive(a);
    }
  }

  lemma {:induction false} BeforeIsIrreflexive(a: string)
    ensures !Before(a, a)
  {
    if a != "" {
      BeforeIsIrreflexive(a[1..]);
    }
  }

  lemma {:induction false} BeforeIsTransitive(a: string, b: string, c: string)
    requires Before(a, b) && Before(b, c)
    ensures Before(a, c)
    decreases |a|
  {
    if a != "" && a[0] == b[0] && b[0] == c[0] {
      BeforeIsTransitive(a[1..], b[1..], c[1..]);
    }
  }

  function Inserted(x: string, s: seq<string>): seq<string> {
    if s == [] || Before(x, s[0]) then [x] + s
    else if x == s[0] then s
    else [s[0]] + Inserted(x, s[1..])
  }

  function InOrder(s: seq<string>): seq<string> {
    if s == [] then [] else Inserted(s[0], InOrder(s[1..]))
  }

  ghost predicate Alphabetical(s: seq<string>) {
    forall i, j :: 0 <= i < j < |s| ==> Before(s[i], s[j])
  }

  lemma HeadFirst(x: string, s: seq<string>)
    requires Alphabetical(s) && forall y :: y in s ==> Before(x, y)
    ensures Alphabetical([x] + s)
  {
  }

  lemma {:induction false} InsertedIsInOrder(x: string, s: seq<string>)
    requires Alphabetical(s)
    ensures Alphabetical(Inserted(x, s)) && forall y :: y in Inserted(x, s) <==> y == x || y in s
    decreases |s|
  {
    if s != [] {
      BeforeIsOrder(x, s[0]);
      if Before(x, s[0]) {
        forall y | y in s ensures Before(x, y) {
          if y != s[0] {
            BeforeIsTransitive(x, s[0], y);
          }
        }
        HeadFirst(x, s);
      } else if x != s[0] {
        InsertedIsInOrder(x, s[1..]);
        assert s == [s[0]] + s[1..];
        HeadFirst(s[0], Inserted(x, s[1..]));
      }
    }
  }

  /** The same names, each once, in order. */
  lemma {:induction false} InOrderIs(s: seq<string>)
    ensures Alphabetical(InOrder(s)) && forall y :: y in InOrder(s) <==> y in s
    decreases |s|
  {
    if s != [] {
      InOrderIs(s[1..]);
      InsertedIsInOrder(s[0], InOrder(s[1..]));
      assert s == [s[0]] + s[1..];
    }
  }
}
