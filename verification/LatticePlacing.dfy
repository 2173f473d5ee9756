/**
 Where the elements of a MAD-X lattice stand: a LINE puts them one after another, a SEQUENCE gives each a
 position, of its centre, entry or exit. Lengths and positions are exact numbers.
 */
module LatticePlacing {
  import opened Sorting
  import opened Wrappers

  /** An element with its length, and whether its class is one that is kept. */
  datatype Element = Element(name: string, length: real, kept: bool)

  /** An element of a sequence, at a position that may be counted from an earlier one. */
  datatype Item = Item(element: Element, at: real, from: Option<string>)

  datatype Placed = Placed(name: string, s: real, length: real)

  function Along(p: Placed): real {
    p.s
  }

  // ------------------------------------------------------------------ a line

  /** How far along element k starts: the lengths before it, added up. */
  function Entry(elements: seq<Element>, k: nat): real
    requires k <= |elements|
  {
    if k == 0 then 0.0 else Entry(elements, k - 1) + elements[k - 1].length
  }

  function InLine(elements: seq<Element>, k: nat): seq<Placed>
    requires k <= |elements|
  {
    if k == 0 then []
    else
      var e := elements[k - 1];
      InLine(elements, k - 1) + if e.kept then [Placed(e.name, Entry(elements, k - 1), e.length)] else []
  }

  method FromLine(elements: seq<Element>) returns (placed: seq<Placed>, length: real)
    ensures placed == InLine(elements, |elements|)
    ensures length == Entry(elements, |elements|)
  {
    placed, length := [], 0.0;
    for k := 0 to |elements|
      invariant placed == InLine(elements, k) && length == Entry(elements, k)
    {
      if elements[k].kept {
        placed := placed + [Placed(elements[k].name, length, elements[k].length)];
      }
      length := length + elements[k].length;
    }
  }

  // ------------------------------------------------------------------ a sequence

  /** Where an element starts that is placed `at`: by its entry, its centre, or its exit. */
  function Start(refer: string, at: real, length: real): real {
    if refer == "centre" || refer == "center" then at - length / 2.0
    else if refer == "entry" then at
    else at - length
  }

  /** The position of the last item so named, or the beginning of the sequence. */
  function LastAt(positions: map<string, real>, name: string): real {
    if name in positions then positions[name] else 0.0
  }

  function Positions(items: seq<Item>, k: nat): map<string, real>
    requires k <= |items|
    decreases k, 0
  {
    if k == 0 then map[] else Positions(items, k - 1)[items[k - 1].element.name := Resolved(items, k - 1)]
  }

  /** Item k's position from the beginning of the sequence. */
  function Resolved(items: seq<Item>, k: nat): real
    requires k < |items|
    decreases k, 1
  {
    items[k].at + match items[k].from case None => 0.0 case Some(name) => LastAt(Positions(items, k), name)
  }

  function InSequence(items: seq<Item>, refer: string, k: nat): seq<Placed>
    requires k <= |items|
  {
    if k == 0 then []
    else
      var e := items[k - 1].element;
      InSequence(items, refer, k - 1)
      + if e.kept then [Placed(e.name, Start(refer, Resolved(items, k - 1), e.length), e.length)] else []
  }

  /** Where what is placed ends, when the sequence does not say how long it is. */
  function End(placed: seq<Placed>): real {
    if placed == [] then 0.0 else placed[|placed| - 1].s + placed[|placed| - 1].length
  }

  method FromSequence(items: seq<Item>, refer: string, declared: Option<real>)
    returns (placed: seq<Placed>, length: real)
    ensures placed == Sort(InSequence(items, refer, |items|), Along)
    ensures length == if declared.Some? then declared.value else End(placed)
  {
    var positions: map<string, real> := map[];
    placed := [];
    for k := 0 to |items|
      invariant positions == Positions(items, k) && placed == InSequence(items, refer, k)
    {
      var e, at := items[k].element, items[k].at;
      if items[k].from.Some? {
        at := at + LastAt(positions, items[k].from.value);
      }
      positions := positions[e.name := at];
      if e.kept {
        placed := placed + [Placed(e.name, Start(refer, at, e.length), e.length)];
      }
    }
    placed := Sort(placed, Along);
    length := if declared.Some? then declared.value else End(placed);
  }

  // ------------------------------------------------------------------ positions counted from others

  /** A name stands for the last item before that has it. */
  lemma {:induction false} NameIsTheLast(items: seq<Item>, k: nat, j: nat)
    requires j < k <= |items|
    requires forall m :: j < m < k ==> items[m].element.name != items[j].element.name
    ensures LastAt(Positions(items, k), items[j].element.name) == Resolved(items, j)
    decreases k
  {
    if j < k - 1 {
      NameIsTheLast(items, k - 1, j);
    }
  }

  lemma {:induction false} UnknownNameIsTheStart(items: seq<Item>, k: nat, name: string)
    requires k <= |items| && forall m :: 0 <= m < k ==> items[m].element.name != name
    ensures LastAt(Positions(items, k), name) == 0.0
    decreases k
  {
    if k > 0 {
      UnknownNameIsTheStart(items, k - 1, name);
    }
  }

  /** A position counted from a name is that far past the last item before that has it; any other position is
      counted from the beginning. */
  lemma CountedFrom(items: seq<Item>, k: nat)
    requires k < |items|
    ensures items[k].from.None? ==> Resolved(items, k) == items[k].at
    ensures items[k].from.Some? ==>
              forall j :: 0 <= j < k && items[j].element.name == items[k].from.value
                          && (forall m :: j < m < k ==> items[m].element.name != items[j].element.name) ==>
                            Resolved(items, k) == Resolved(items, j) + items[k].at
    ensures items[k].from.Some? && (forall j :: 0 <= j < k ==> items[j].element.name != items[k].from.value) ==>
              Resolved(items, k) == items[k].at
  {
    if items[k].from.Some? {
      var name := items[k].from.value;
      if forall j :: 0 <= j < k ==> items[j].element.name != name {
        UnknownNameIsTheStart(items, k, name);
      }
      forall j | 0 <= j < k && items[j].element.name == name
                 && (forall m :: j < m < k ==> items[m].element.name != items[j].element.name)
        ensures Resolved(items, k) == Resolved(items, j) + items[k].at
      {
        NameIsTheLast(items, k, j);
      }
    }
  }

  /** The same sequence with every position counted from its beginning. */
  function Absolute(items: seq<Item>): (r: seq<Item>)
    ensures |r| == |items|
  {
    seq(|items|, k requires 0 <= k < |items| => Item(items[k].element, Resolved(items, k), None))
  }

  /** Counting from another element is only another way to write a position. */
  lemma {:induction false} FromIsOnlyANotation(items: seq<Item>, refer: string, k: nat)
    requires k <= |items|
    ensures InSequence(Absolute(items), refer, k) == InSequence(items, refer, k)
    decreases k
  {
    if k > 0 {
      FromIsOnlyANotation(items, refer, k - 1);
    }
  }

  // ------------------------------------------------------------------ a line and a sequence of the same

  /** The position a sequence gives an element that starts at `entry`. */
  function AtOf(refer: string, entry: real, length: real): real {
    if refer == "centre" || refer == "center" then entry + length / 2.0
    else if refer == "entry" then entry
    else entry + length
  }

  /** A sequence of the elements of a line, each at the running position. */
  ghost predicate SameLattice(items: seq<Item>, elements: seq<Element>, refer: string) {
    && |items| == |elements|
    && forall k :: 0 <= k < |items| ==>
                     && items[k].element == elements[k]
                     && Resolved(items, k) == AtOf(refer, Entry(elements, k), elements[k].length)
  }

  lemma {:induction false} SamePlaces(items: seq<Item>, elements: seq<Element>, refer: string, k: nat)
    requires SameLattice(items, elements, refer) && k <= |items|
    ensures InSequence(items, refer, k) == InLine(elements, k)
    decreases k
  {
    if k > 0 {
      SamePlaces(items, elements, refer, k - 1);
      var e := elements[k - 1];
      assert Start(refer, AtOf(refer, Entry(elements, k - 1), e.length), e.length) == Entry(elements, k - 1);
    }
  }

  lemma {:induction false} LineAscends(elements: seq<Element>, k: nat)
    requires k <= |elements| && forall e :: e in elements ==> e.length >= 0.0
    ensures Ascending(InLine(elements, k), Along)
    ensures forall p :: p in InLine(elements, k) ==> p.s <= Entry(elements, k)
    decreases k
  {
    if k > 0 {
      LineAscends(elements, k - 1);
      var e := elements[k - 1];
      assert e.length >= 0.0;
      if e.kept {
        AscendingAdds(InLine(elements, k - 1), Placed(e.name, Entry(elements, k - 1), e.length), Along);
      }
    }
  }

  /** The two place the same list in the same order exactly when no kept element of the line starts before an
      earlier one; without negative lengths none does. */
  lemma {:induction false} LineAndSequenceAgreeIff(items: seq<Item>, elements: seq<Element>, refer: string)
    requires SameLattice(items, elements, refer)
    ensures Sort(InSequence(items, refer, |items|), Along) == InLine(elements, |elements|) <==>
              Ascending(InLine(elements, |elements|), Along)
    ensures (forall e :: e in elements ==> e.length >= 0.0) ==>
              Sort(InSequence(items, refer, |items|), Along) == InLine(elements, |elements|)
  {
    var placed := InLine(elements, |elements|);
    SamePlaces(items, elements, refer, |items|);
    SortAscends(placed, Along);
    if Ascending(placed, Along) {
      SortOfAscending(placed, Along);
    }
    if forall e :: e in elements ==> e.length >= 0.0 {
      LineAscends(elements, |elements|);
      SortOfAscending(placed, Along);
    }
  }

  /** In a line everything of which is kept, each element starts where the one before it ends. */
  lemma {:induction false} ElementsTouch(elements: seq<Element>, k: nat)
    requires k <= |elements| && forall e :: e in elements ==> e.kept
    ensures var placed := InLine(elements, k);
            && |placed| == k && End(placed) == Entry(elements, k)
            && (forall m :: 0 <= m < k ==> placed[m].name == elements[m].name && placed[m].length == elements[m].length)
            && (forall m :: 0 < m < k ==> placed[m].s == placed[m - 1].s + placed[m - 1].length)
            && (k > 0 ==> placed[0].s == 0.0)
    decreases k
  {
    if k > 0 {
      ElementsTouch(elements, k - 1);
      assert elements[k - 1] in elements;
    }
  }

  /** What is not kept at the end of a line, in length. */
  function Trailing(elements: seq<Element>, k: nat): real
    requires k <= |elements|
  {
    if k == 0 || elements[k - 1].kept then 0.0 else Trailing(elements, k - 1) + elements[k - 1].length
  }

  lemma {:induction false} EndAndTrailing(elements: seq<Element>, k: nat)
    requires k <= |elements|
    ensures Entry(elements, k) == End(InLine(elements, k)) + Trailing(elements, k)
    decreases k
  {
    if k > 0 {
      EndAndTrailing(elements, k - 1);
    }
  }

  /** A sequence that does not say its length ends with its last kept element: it is as long as the line
      exactly when what the line drops after that has no length. */
  lemma {:induction false} LengthsAgreeIff(items: seq<Item>, elements: seq<Element>, refer: string)
    requires SameLattice(items, elements, refer) && forall e :: e in elements ==> e.length >= 0.0
    ensures End(Sort(InSequence(items, refer, |items|), Along)) == Entry(elements, |elements|) <==>
              Trailing(elements, |elements|) == 0.0
  {
    LineAndSequenceAgreeIff(items, elements, refer);
    EndAndTrailing(elements, |elements|);
  }

  /** A quadrupole of one metre, then a drift of two that is not kept: the line is three metres long, the
      sequence one. */
  lemma TrailingDriftIsLost(elements: seq<Element>, items: seq<Item>)
    requires elements == [Element("q", 1.0, true), Element("d", 2.0, false)]
    requires items == [Item(elements[0], 0.5, None), Item(elements[1], 2.0, None)]
    ensures SameLattice(items, elements, "centre")
    ensures Entry(elements, 2) == 3.0 && End(Sort(InSequence(items, "centre", 2), Along)) == 1.0
  {
    assert Entry(elements, 0) == 0.0 && Entry(elements, 1) == 1.0 && Entry(elements, 2) == 3.0;
    assert Resolved(items, 0) == 0.5 && Resolved(items, 1) == 2.0;
    assert Trailing(elements, 1) == 0.0 && Trailing(elements, 2) == 2.0;
    LineAndSequenceAgreeIff(items, elements, "centre");
    EndAndTrailing(elements, 2);
  }
}
