/**
 Beam lines as lists of elements: items may be counted, turned round, put in brackets, or be the names of
 further lines.
 */
module LatticeLines {
  import opened Graphs
  import opened Wrappers

  datatype Item =
    | Empty
    | Times(count: nat, item: Item)
    | Reverse(item: Item)
    | Group(items: seq<Item>)
    | Ref(name: string)

  type Lines = map<string, seq<Item>>

  const DEEPEST: nat := 50

  function Reversed<T>(s: seq<T>): seq<T> {
    if s == [] then [] else Reversed(s[1..]) + [s[0]]
  }

  function Copies<T>(s: seq<T>, n: nat): seq<T> {
    if n == 0 then [] else Copies(s, n - 1) + s
  }

  /** One expansion after another, when there are both. */
  function Both<T>(a: Option<seq<T>>, b: Option<seq<T>>): Option<seq<T>> {
    if a.Some? && b.Some? then Some(a.value + b.value) else None
  }

  /** A line's elements, or nothing where the program reports that the line contains itself. */
  function Expand(lines: Lines, name: string, depth: nat): Option<seq<string>>
    requires name in lines
    decreases if depth <= DEEPEST then DEEPEST + 1 - depth else 0, 2
  {
    if depth > DEEPEST then None else ExpandAll(lines, lines[name], depth)
  }

  function ExpandAll(lines: Lines, items: seq<Item>, depth: nat): Option<seq<string>>
    requires depth <= DEEPEST
    decreases DEEPEST + 1 - depth, 1, items
  {
    if items == [] then Some([])
    else Both(ExpandItem(lines, items[0], depth), ExpandAll(lines, items[1..], depth))
  }

  function ExpandItem(lines: Lines, item: Item, depth: nat): Option<seq<string>>
    requires depth <= DEEPEST
    decreases DEEPEST + 1 - depth, 1, item
  {
    match item
    case Empty => Some([])
    case Times(count, inner) => (
      match ExpandItem(lines, inner, depth)
      case Some(s) => Some(Copies(s, count))
      case None => None)
    case Reverse(inner) => (
      match ExpandItem(lines, inner, depth)
      case Some(s) => Some(Reversed(s))
      case None => None)
    case Group(items) => ExpandAll(lines, items, depth)
    case Ref(name) => if name in lines then Expand(lines, name, depth + 1) else Some([name])
  }

  // ------------------------------------------------------------------ what the items are

  /** A name that is no line is an element, and one that is a line stands for its items. */
  lemma NameIs(lines: Lines, name: string, depth: nat)
    requires depth <= DEEPEST
    ensures name !in lines ==> ExpandItem(lines, Ref(name), depth) == Some([name])
    ensures name in lines && depth < DEEPEST ==>
              ExpandItem(lines, Ref(name), depth) == ExpandItem(lines, Group(lines[name]), depth + 1)
    ensures name in lines && depth == DEEPEST ==> ExpandItem(lines, Ref(name), depth) == None
  {
  }

  /** A line of elements is those elements, in order. */
  lemma {:induction false} ElementsAre(lines: Lines, names: seq<string>, items: seq<Item>, depth: nat)
    requires depth <= DEEPEST && |items| == |names|
    requires forall i :: 0 <= i < |names| ==> names[i] !in lines && items[i] == Ref(names[i])
    ensures ExpandAll(lines, items, depth) == Some(names)
    decreases |items|
  {
    if items != [] {
      NameIs(lines, names[0], depth);
      assert items[0] == Ref(names[0]);
      ElementsAre(lines, names[1..], items[1..], depth);
      assert names == [names[0]] + names[1..];
    } else {
      assert names == [];
    }
  }

  lemma {:induction false} CopiesAre<T>(s: seq<T>, n: nat, i: nat, k: nat)
    requires i < n && k < |s|
    ensures |Copies(s, n)| == n * |s| && 0 <= i * |s| + k < n * |s|
    ensures Copies(s, n)[i * |s| + k] == s[k]
    decreases n
  {
    CopiesLength(s, n - 1);
    CopiesLength(s, n);
    assert n * |s| == (n - 1) * |s| + |s|;
    if i < n - 1 {
      CopiesAre(s, n - 1, i, k);
    }
  }

  lemma {:induction false} CopiesLength<T>(s: seq<T>, n: nat)
    ensures |Copies(s, n)| == n * |s|
    decreases n
  {
    if n > 0 {
      CopiesLength(s, n - 1);
      assert n * |s| == (n - 1) * |s| + |s|;
    }
  }

  /** An item taken n times has each of its elements in its place in each of the n; one that is turned round, in
      the place as far from the end. */
  lemma RepeatedIs(lines: Lines, item: Item, n: nat, depth: nat, i: nat, k: nat)
    requires depth <= DEEPEST && ExpandItem(lines, item, depth).Some?
    ensures var s := ExpandItem(lines, item, depth).value;
            var times, back := ExpandItem(lines, Times(n, item), depth), ExpandItem(lines, Reverse(item), depth);
            && times.Some? && |times.value| == n * |s|
            && (i < n && k < |s| ==> 0 <= i * |s| + k < n * |s| && times.value[i * |s| + k] == s[k])
            && back.Some? && |back.value| == |s|
            && (k < |s| ==> back.value[k] == s[|s| - 1 - k])
  {
    var s := ExpandItem(lines, item, depth).value;
    CopiesLength(s, n);
    if i < n && k < |s| {
      CopiesAre(s, n, i, k);
    }
    BackAt(s, k);
  }

  lemma {:induction false} BackAt<T>(s: seq<T>, k: nat)
    ensures |Reversed(s)| == |s| && (k < |s| ==> Reversed(s)[k] == s[|s| - 1 - k])
    decreases |s|
  {
    if s != [] {
      BackAt(s[1..], k);
    }
  }

  // ------------------------------------------------------------------ the loops of the program

  method ExpandLine(lines: Lines, name: string, depth: nat) returns (out: Option<seq<string>>)
    requires name in lines
    ensures out == Expand(lines, name, depth)
    decreases if depth <= DEEPEST then DEEPEST + 1 - depth else 0, 2
  {
    if depth > DEEPEST {
      return None;
    }
    out := ExpandItems(lines, lines[name], depth);
  }

  method ExpandItems(lines: Lines, items: seq<Item>, depth: nat) returns (out: Option<seq<string>>)
    requires depth <= DEEPEST
    ensures out == ExpandAll(lines, items, depth)
    decreases DEEPEST + 1 - depth, 1, items, 0
  {
    var done: seq<string> := [];
    for i := 0 to |items|
      invariant ExpandAll(lines, items[..i], depth) == Some(done)
    {
      var part := ExpandOne(lines, items[i], depth);
      AllSplit(lines, items[..i], items[i..], depth);
      assert items[..i] + items[i..] == items && items[i..][0] == items[i];
      if part.None? {
        return None;
      }
      assert items[..i + 1] == items[..i] + [items[i]];
      AllSplit(lines, items[..i], [items[i]], depth);
      AllOfOne(lines, items[i], depth);
      done := done + part.value;
    }
    assert items[..|items|] == items;
    return Some(done);
  }

  method ExpandOne(lines: Lines, item: Item, depth: nat) returns (out: Option<seq<string>>)
    requires depth <= DEEPEST
    ensures out == ExpandItem(lines, item, depth)
    decreases DEEPEST + 1 - depth, 1, item
  {
    match item {
      case Empty => out := Some([]);
      case Times(count, inner) =>
        out := ExpandOne(lines, inner, depth);
        if out.Some? {
          out := Some(Copies(out.value, count));
        }
      case Reverse(inner) =>
        out := ExpandOne(lines, inner, depth);
        if out.Some? {
          out := Some(Reversed(out.value));
        }
      case Group(items) => out := ExpandItems(lines, items, depth);
      case Ref(name) =>
        if name in lines {
          out := ExpandLine(lines, name, depth + 1);
        } else {
          out := Some([name]);
        }
    }
  }

  lemma {:induction false} AllSplit(lines: Lines, a: seq<Item>, b: seq<Item>, depth: nat)
    requires depth <= DEEPEST
    ensures ExpandAll(lines, a + b, depth) == Both(ExpandAll(lines, a, depth), ExpandAll(lines, b, depth))
  {
    var t := ExpandAll(lines, b, depth);
    if a == [] {
      assert a + b == b && (t.Some? ==> [] + t.value == t.value);
    } else {
      assert (a + b)[0] == a[0] && (a + b)[1..] == a[1..] + b;
      AllSplit(lines, a[1..], b, depth);
      var r, s := ExpandItem(lines, a[0], depth), ExpandAll(lines, a[1..], depth);
      if r.Some? && s.Some? && t.Some? {
        assert r.value + (s.value + t.value) == (r.value + s.value) + t.value;
      }
    }
  }

  lemma AllOfOne(lines: Lines, item: Item, depth: nat)
    requires depth <= DEEPEST
    ensures ExpandAll(lines, [item], depth) == ExpandItem(lines, item, depth)
  {
    var r := ExpandItem(lines, item, depth);
    if r.Some? {
      assert r.value + [] == r.value;
    }
  }

  // ------------------------------------------------------------------ when a line can be expanded

  function Names(item: Item): seq<string> {
    match item
    case Ref(name) => [name]
    case Times(_, inner) => Names(inner)
    case Reverse(inner) => Names(inner)
    case Group(items) => AllNames(items)
    case Empty => []
  }

  function AllNames(items: seq<Item>): seq<string> {
    if items == [] then [] else Names(items[0]) + AllNames(items[1..])
  }

  /** Each line leads to the names of its items. */
  function Members(lines: Lines): map<string, seq<string>> {
    map name | name in lines :: AllNames(lines[name])
  }

  lemma {:induction false} ItemExpandsIff(lines: Lines, item: Item, depth: nat)
    requires depth <= DEEPEST
    ensures ExpandItem(lines, item, depth).Some?
       <==> forall r :: r in Names(item) && r in lines ==> Expand(lines, r, depth + 1).Some?
    decreases item
  {
    match item
    case Times(_, inner) => ItemExpandsIff(lines, inner, depth);
    case Reverse(inner) => ItemExpandsIff(lines, inner, depth);
    case Group(items) => AllExpandIff(lines, items, depth);
    case Ref(name) => assert name in Names(item);
    case Empty =>
  }

  lemma {:induction false} AllExpandIff(lines: Lines, items: seq<Item>, depth: nat)
    requires depth <= DEEPEST
    ensures ExpandAll(lines, items, depth).Some?
       <==> forall r :: r in AllNames(items) && r in lines ==> Expand(lines, r, depth + 1).Some?
    decreases items
  {
    if items != [] {
      ItemExpandsIff(lines, items[0], depth);
      AllExpandIff(lines, items[1..], depth);
    }
  }

  /** A chain of lines, each a member of the one before, `n` steps long. */
  ghost predicate Nested(lines: Lines, name: string, n: nat) {
    exists x :: x in lines && Steps(Members(lines), name, x, n)
  }

  lemma NestedFirst(lines: Lines, name: string, n: nat) returns (r: string)
    requires Nested(lines, name, n) && n > 0
    ensures name in lines && r in AllNames(lines[name]) && r in lines && Nested(lines, r, n - 1)
  {
    var x :| x in lines && Steps(Members(lines), name, x, n);
    r :| r in Out(Members(lines), name) && Steps(Members(lines), r, x, n - 1);
    if n > 1 {
      var c :| c in Out(Members(lines), r) && Steps(Members(lines), c, x, n - 2);
    }
  }

  lemma NestedOn(lines: Lines, name: string, r: string, n: nat)
    requires name in lines && r in AllNames(lines[name]) && Nested(lines, r, n)
    ensures Nested(lines, name, n + 1)
  {
    var x :| x in lines && Steps(Members(lines), r, x, n);
    assert r in Out(Members(lines), name);
  }

  lemma {:induction false} ExpandedIsShallow(lines: Lines, name: string, depth: nat, n: nat)
    requires name in lines && Expand(lines, name, depth).Some? && Nested(lines, name, n)
    ensures depth + n <= DEEPEST
    decreases n
  {
    if n > 0 {
      var r := NestedFirst(lines, name, n);
      AllExpandIff(lines, lines[name], depth);
      ExpandedIsShallow(lines, r, depth + 1, n - 1);
    }
  }

  lemma {:induction false} ShallowExpands(lines: Lines, name: string, depth: nat)
    requires name in lines && forall n: nat :: Nested(lines, name, n) ==> depth + n <= DEEPEST
    ensures Expand(lines, name, depth).Some?
    decreases if depth <= DEEPEST then DEEPEST + 1 - depth else 0
  {
    assert Steps(Members(lines), name, name, 0);
    assert Nested(lines, name, 0);
    AllExpandIff(lines, lines[name], depth);
    forall r | r in AllNames(lines[name]) && r in lines ensures Expand(lines, r, depth + 1).Some? {
      forall n: nat | Nested(lines, r, n) ensures depth + 1 + n <= DEEPEST {
        NestedOn(lines, name, r, n);
      }
      ShallowExpands(lines, r, depth + 1);
    }
  }

  /** A line expands exactly when no chain of lines under it is longer than what is left of the fifty. */
  lemma ExpandsIffShallow(lines: Lines, name: string, depth: nat)
    requires name in lines
    ensures Expand(lines, name, depth).Some? <==> forall n: nat :: Nested(lines, name, n) ==> depth + n <= DEEPEST
  {
    if Expand(lines, name, depth).Some? {
      forall n: nat | Nested(lines, name, n) ensures depth + n <= DEEPEST {
        ExpandedIsShallow(lines, name, depth, n);
      }
    }
    if forall n: nat :: Nested(lines, name, n) ==> depth + n <= DEEPEST {
      ShallowExpands(lines, name, depth);
    }
  }

  /** A line that comes to one that contains itself is nested deeper than any limit. */
  lemma CircleIsDeep(lines: Lines, name: string, x: string) returns (n: nat)
    requires name in lines && Reaches(Members(lines), name, x) && OnCycle(Members(lines), x)
    ensures n > DEEPEST && Nested(lines, name, n)
  {
    n := CircleIsDeeper(lines, name, x, DEEPEST + 1);
  }

  lemma CircleIsDeeper(lines: Lines, name: string, x: string, limit: nat) returns (n: nat)
    requires name in lines && Reaches(Members(lines), name, x) && OnCycle(Members(lines), x)
    ensures n >= limit && Nested(lines, name, n)
  {
    var g := Members(lines);
    var m: nat :| m > 0 && Steps(g, x, x, m);
    var k: nat :| Steps(g, name, x, k);
    CircleIsOfLines(lines, x, m);
    var far := Rounds(g, x, m, limit);
    StepsAdd(g, name, x, x, k, far);
    n := k + far;
  }

  lemma CircleIsOfLines(lines: Lines, x: string, m: nat)
    requires m > 0 && Steps(Members(lines), x, x, m)
    ensures x in lines
  {
    var c :| c in Out(Members(lines), x) && Steps(Members(lines), c, x, m - 1);
  }

  /** A line that comes to one that contains itself is never expanded. */
  lemma CircularLineFails(lines: Lines, name: string, x: string, depth: nat)
    requires name in lines && Reaches(Members(lines), name, x) && OnCycle(Members(lines), x)
    ensures Expand(lines, name, depth).None?
  {
    var n := CircleIsDeep(lines, name, x);
    if Expand(lines, name, depth).Some? {
      ExpandedIsShallow(lines, name, depth, n);
    }
  }

  lemma {:induction false} Rounds(g: map<string, seq<string>>, x: string, m: nat, times: nat) returns (far: nat)
    requires m > 0 && Steps(g, x, x, m)
    ensures Steps(g, x, x, far) && far >= times
    decreases times
  {
    far := 0;
    if times > 0 {
      far := Rounds(g, x, m, times - 1);
      StepsAdd(g, x, x, x, far, m);
      far := far + m;
    }
  }

  // ------------------------------------------------------------------ what an expansion is

  /** What expands at one depth expands to the same at any smaller one. */
  lemma {:induction false} SameWhenShallower(lines: Lines, name: string, depth: nat, less: nat)
    requires name in lines && less <= depth && Expand(lines, name, depth).Some?
    ensures Expand(lines, name, less) == Expand(lines, name, depth)
    decreases if depth <= DEEPEST then DEEPEST + 1 - depth else 0, 2
  {
    AllSameWhenShallower(lines, lines[name], depth, less);
  }

  lemma {:induction false} AllSameWhenShallower(lines: Lines, items: seq<Item>, depth: nat, less: nat)
    requires less <= depth <= DEEPEST && ExpandAll(lines, items, depth).Some?
    ensures ExpandAll(lines, items, less) == ExpandAll(lines, items, depth)
    decreases DEEPEST + 1 - depth, 1, items
  {
    if items != [] {
      ItemSameWhenShallower(lines, items[0], depth, less);
      AllSameWhenShallower(lines, items[1..], depth, less);
    }
  }

  lemma {:induction false} ItemSameWhenShallower(lines: Lines, item: Item, depth: nat, less: nat)
    requires less <= depth <= DEEPEST && ExpandItem(lines, item, depth).Some?
    ensures ExpandItem(lines, item, less) == ExpandItem(lines, item, depth)
    decreases DEEPEST + 1 - depth, 1, item
  {
    match item
    case Times(_, inner) => ItemSameWhenShallower(lines, inner, depth, less);
    case Reverse(inner) => ItemSameWhenShallower(lines, inner, depth, less);
    case Group(items) => AllSameWhenShallower(lines, items, depth, less);
    case Ref(name) =>
      if name in lines {
        SameWhenShallower(lines, name, depth + 1, less + 1);
      }
    case Empty =>
  }

  ghost predicate NoLine(lines: Lines, s: seq<string>) {
    forall x :: x in s ==> x !in lines
  }

  lemma {:induction false} InCopies<T>(s: seq<T>, n: nat)
    ensures forall x :: x in Copies(s, n) ==> x in s
    ensures |Copies(s, n)| == n * |s|
  {
    if n > 0 {
      InCopies(s, n - 1);
      assert (n - 1) * |s| + |s| == n * |s|;
    }
  }

  lemma {:induction false} ReversedAt<T>(s: seq<T>)
    ensures |Reversed(s)| == |s| && forall i :: 0 <= i < |s| ==> Reversed(s)[i] == s[|s| - 1 - i]
  {
    if s != [] {
      ReversedAt(s[1..]);
    }
  }

  /** An expansion has the names of elements only, never of lines. */
  lemma {:induction false} ElementsOnly(lines: Lines, name: string, depth: nat)
    requires name in lines && Expand(lines, name, depth).Some?
    ensures NoLine(lines, Expand(lines, name, depth).value)
    decreases if depth <= DEEPEST then DEEPEST + 1 - depth else 0, 2
  {
    AllElementsOnly(lines, lines[name], depth);
  }

  lemma {:induction false} AllElementsOnly(lines: Lines, items: seq<Item>, depth: nat)
    requires depth <= DEEPEST && ExpandAll(lines, items, depth).Some?
    ensures NoLine(lines, ExpandAll(lines, items, depth).value)
    decreases DEEPEST + 1 - depth, 1, items
  {
    if items != [] {
      ItemElementsOnly(lines, items[0], depth);
      AllElementsOnly(lines, items[1..], depth);
    }
  }

  lemma {:induction false} ItemElementsOnly(lines: Lines, item: Item, depth: nat)
    requires depth <= DEEPEST && ExpandItem(lines, item, depth).Some?
    ensures NoLine(lines, ExpandItem(lines, item, depth).value)
    decreases DEEPEST + 1 - depth, 1, item
  {
    match item
    case Times(count, inner) =>
      ItemElementsOnly(lines, inner, depth);
      InCopies(ExpandItem(lines, inner, depth).value, count);
    case Reverse(inner) =>
      ItemElementsOnly(lines, inner, depth);
      ReversedAt(ExpandItem(lines, inner, depth).value);
    case Group(items) => AllElementsOnly(lines, items, depth);
    case Ref(name) =>
      if name in lines {
        ElementsOnly(lines, name, depth + 1);
      }
    case Empty =>
  }

  // ------------------------------------------------------------------ reversal

  /** The item with the reversal carried in: a group's members turned and in the opposite order. */
  function Flip(item: Item): Item {
    match item
    case Empty => Empty
    case Times(count, inner) => Times(count, Flip(inner))
    case Reverse(inner) => inner
    case Group(items) => Group(FlipAll(items))
    case Ref(name) => Reverse(item)
  }

  function FlipAll(items: seq<Item>): seq<Item> {
    if items == [] then [] else FlipAll(items[1..]) + [Flip(items[0])]
  }

  lemma {:induction false} ReversedSum<T>(a: seq<T>, b: seq<T>)
    ensures Reversed(a + b) == Reversed(b) + Reversed(a)
  {
    if a == [] {
      assert a + b == b;
    } else {
      assert (a + b)[1..] == a[1..] + b;
      ReversedSum(a[1..], b);
    }
  }

  lemma {:induction false} ReversedTwice<T>(s: seq<T>)
    ensures Reversed(Reversed(s)) == s
  {
    ReversedAt(s);
    ReversedAt(Reversed(s));
  }

  lemma {:induction false} CopiesFirst<T>(s: seq<T>, n: nat)
    ensures s + Copies(s, n) == Copies(s, n) + s
  {
    if n > 0 {
      CopiesFirst(s, n - 1);
    }
  }

  lemma {:induction false} ReversedCopies<T>(s: seq<T>, n: nat)
    ensures Reversed(Copies(s, n)) == Copies(Reversed(s), n)
  {
    if n > 0 {
      ReversedCopies(s, n - 1);
      ReversedSum(Copies(s, n - 1), s);
      CopiesFirst(Reversed(s), n - 1);
    }
  }

  /** Reversing an item is expanding it with the reversal carried in to its names. */
  lemma {:induction false} ReverseIsFlip(lines: Lines, item: Item, depth: nat)
    requires depth <= DEEPEST
    ensures ExpandItem(lines, Reverse(item), depth) == ExpandItem(lines, Flip(item), depth)
    decreases item
  {
    match item
    case Times(count, inner) =>
      ReverseIsFlip(lines, inner, depth);
      if ExpandItem(lines, inner, depth).Some? {
        ReversedCopies(ExpandItem(lines, inner, depth).value, count);
      }
    case Reverse(inner) =>
      if ExpandItem(lines, inner, depth).Some? {
        ReversedTwice(ExpandItem(lines, inner, depth).value);
      }
    case Group(items) => AllReversed(lines, items, depth);
    case Ref(_) =>
    case Empty =>
  }

  lemma {:induction false} AllReversed(lines: Lines, items: seq<Item>, depth: nat)
    requires depth <= DEEPEST
    ensures ExpandItem(lines, Reverse(Group(items)), depth) == ExpandAll(lines, FlipAll(items), depth)
    decreases items
  {
    if items != [] {
      var first, rest := items[0], items[1..];
      ReverseIsFlip(lines, first, depth);
      AllReversed(lines, rest, depth);
      AllSplit(lines, FlipAll(rest), [Flip(first)], depth);
      AllOfOne(lines, Flip(first), depth);
      assert ExpandItem(lines, Group(items), depth) == ExpandAll(lines, items, depth);
      assert ExpandItem(lines, Group(rest), depth) == ExpandAll(lines, rest, depth);
      if ExpandItem(lines, first, depth).Some? && ExpandAll(lines, rest, depth).Some? {
        ReversedSum(ExpandItem(lines, first, depth).value, ExpandAll(lines, rest, depth).value);
      }
    }
  }

  /** Reversing twice is leaving alone. */
  lemma DoubleReversal(lines: Lines, item: Item, depth: nat)
    requires depth <= DEEPEST
    ensures ExpandItem(lines, Reverse(Reverse(item)), depth) == ExpandItem(lines, item, depth)
  {
    ReverseIsFlip(lines, Reverse(item), depth);
  }

  /** `n*X` is the group of `n` times X. (`0*X` still expands X, and fails when it does.) */
  lemma {:induction false} TimesIsRepeats(lines: Lines, item: Item, n: nat, depth: nat)
    requires depth <= DEEPEST && (n == 0 ==> ExpandItem(lines, item, depth).Some?)
    ensures ExpandItem(lines, Times(n, item), depth) == ExpandAll(lines, Copies([item], n), depth)
    decreases n
  {
    if n > 1 {
      TimesIsRepeats(lines, item, n - 1, depth);
      AllSplit(lines, Copies([item], n - 1), [item], depth);
      AllOfOne(lines, item, depth);
    } else if n == 1 {
      assert Copies([item], 1) == [item];
      AllOfOne(lines, item, depth);
      var r := ExpandItem(lines, item, depth);
      if r.Some? {
        assert Copies(r.value, 1) == Copies(r.value, 0) + r.value == r.value;
      }
    }
  }
}
