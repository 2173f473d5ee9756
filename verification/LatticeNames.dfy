/** The identifiers of a converted lattice: an element's name, and from its second use on the name and a number. */
module LatticeNames {
  import opened Lists
  import opened Numbering

  /** How often a name is among the first k. */
  function Uses(names: seq<string>, k: nat, name: string): nat
    requires k <= |names|
  {
    if k == 0 then 0 else Uses(names, k - 1, name) + if names[k - 1] == name then 1 else 0
  }

  function Ident(names: seq<string>, k: nat): string
    requires k < |names|
  {
    var before := Uses(names, k, names[k]);
    if before == 0 then names[k] else Numbered(names[k], before + 1)
  }

  function Idents(names: seq<string>): (r: seq<string>)
    ensures |r| == |names|
  {
    seq(|names|, k requires 0 <= k < |names| => Ident(names, k))
  }

  function CountOf(counts: map<string, nat>, name: string): nat {
    if name in counts then counts[name] else 0
  }

  // ------------------------------------------------------------------ naming, twice

  method Count(names: seq<string>) returns (counts: map<string, nat>)
    ensures forall name :: CountOf(counts, name) == Uses(names, |names|, name)
  {
    counts := map[];
    for k := 0 to |names|
      invariant forall name :: CountOf(counts, name) == Uses(names, k, name)
    {
      counts := counts[names[k] := CountOf(counts, names[k]) + 1];
    }
  }

  /** The identifiers of the placed elements, as the document is built. */
  method Build(names: seq<string>) returns (ids: seq<string>)
    ensures ids == Idents(names)
  {
    var counts := Count(names);
    var seen: map<string, nat> := map[];
    ids := [];
    for k := 0 to |names|
      invariant forall name :: CountOf(seen, name) == Uses(names, k, name)
      invariant ids == Idents(names)[..k]
    {
      var base := names[k];
      seen := seen[base := CountOf(seen, base) + 1];
      if CountOf(counts, base) == 1 {
        UsesGrow(names, k + 1, |names|, base);
      }
      var id := if CountOf(counts, base) == 1 || seen[base] == 1 then base else Numbered(base, seen[base]);
      ids := ids + [id];
    }
  }

  /** The last place of what stands at k. */
  ghost predicate IsLastOf(ids: seq<string>, k: nat, last: nat) {
    k < |ids| && last < |ids| && ids[last] == ids[k] && forall j :: last < j < |ids| ==> ids[j] != ids[k]
  }

  /** The components by their identifiers: of several with one, the last. */
  method ById(ids: seq<string>) returns (places: map<string, nat>)
    ensures forall k :: 0 <= k < |ids| ==> ids[k] in places && IsLastOf(ids, k, places[ids[k]])
  {
    places := map[];
    for n := 0 to |ids|
      invariant forall k :: 0 <= k < n ==> ids[k] in places && places[ids[k]] < n && ids[places[ids[k]]] == ids[k]
                                           && forall j :: places[ids[k]] < j < n ==> ids[j] != ids[k]
    {
      places := places[ids[n] := n];
    }
  }

  /** The identifiers once more, as the second form of the document works them out. */
  method Again(names: seq<string>) returns (ids: seq<string>)
    ensures ids == Idents(names)
  {
    var seen: map<string, nat> := map[];
    ids := [];
    for k := 0 to |names|
      invariant forall name :: CountOf(seen, name) == Uses(names, k, name)
      invariant ids == Idents(names)[..k]
    {
      var base := names[k];
      seen := seen[base := CountOf(seen, base) + 1];
      ids := ids + [if seen[base] == 1 then base else Numbered(base, seen[base])];
    }
  }

  /** Each element's component is looked up by its identifier: what is found is the last component of it, and so
      each element's own exactly when identifiers are distinct. */
  method LookUp(names: seq<string>) returns (found: seq<nat>)
    ensures |found| == |names| && forall k :: 0 <= k < |names| ==> IsLastOf(Idents(names), k, found[k])
    ensures (forall k :: 0 <= k < |names| ==> found[k] == k) <==> Distinct(Idents(names))
  {
    var built := Build(names);
    var places := ById(built);
    var ids := Again(names);
    found := Find(ids, places);
    OwnIff(ids, found);
  }

  method Find(ids: seq<string>, places: map<string, nat>) returns (found: seq<nat>)
    requires forall k :: 0 <= k < |ids| ==> ids[k] in places && IsLastOf(ids, k, places[ids[k]])
    ensures |found| == |ids| && forall k :: 0 <= k < |ids| ==> IsLastOf(ids, k, found[k])
  {
    found := [];
    for k := 0 to |ids|
      invariant |found| == k && forall j :: 0 <= j < k ==> IsLastOf(ids, j, found[j])
    {
      found := found + [places[ids[k]]];
    }
  }

  lemma OwnIff(ids: seq<string>, found: seq<nat>)
    requires |found| == |ids| && forall k :: 0 <= k < |ids| ==> IsLastOf(ids, k, found[k])
    ensures (forall k :: 0 <= k < |ids| ==> found[k] == k) <==> Distinct(ids)
  {
    if forall k :: 0 <= k < |ids| ==> found[k] == k {
      forall i, j | 0 <= i < j < |ids| ensures ids[i] != ids[j] {
        assert IsLastOf(ids, i, found[i]);
      }
    }
    if Distinct(ids) {
      forall k | 0 <= k < |ids| ensures found[k] == k {
        assert IsLastOf(ids, k, found[k]);
      }
    }
  }

  // ------------------------------------------------------------------ telling identifiers apart

  lemma {:induction false} UsesGrow(names: seq<string>, i: nat, j: nat, name: string)
    requires i <= j <= |names|
    ensures Uses(names, i, name) <= Uses(names, j, name)
    decreases j
  {
    if i < j {
      UsesGrow(names, i, j - 1, name);
    }
  }

  lemma {:induction false} UseAt(names: seq<string>, k: nat, name: string, n: nat) returns (i: nat)
    requires k <= |names| && n < Uses(names, k, name)
    ensures i < k && names[i] == name && Uses(names, i, name) == n
    decreases k
  {
    if n < Uses(names, k - 1, name) {
      i := UseAt(names, k - 1, name, n);
    } else {
      i := k - 1;
    }
  }

  /** A name of the list that is another one's, used at least n times, with the number n. */
  ghost predicate Clash(names: seq<string>, name: string, base: string, n: nat) {
    name in names && name == Numbered(base, n) && 2 <= n <= Uses(names, |names|, base)
  }

  /** No two elements get one identifier, unless a name of the list looks like the n-th use of another that
      is used so often. */
  lemma DistinctIff(names: seq<string>)
    ensures Distinct(Idents(names)) <==> !exists name, base, n: nat :: Clash(names, name, base, n)
  {
    forall i: nat, j: nat | i < j < |names| && Idents(names)[i] == Idents(names)[j]
      ensures exists name, base, n: nat :: Clash(names, name, base, n)
    {
      SameIdentClashes(names, i, j);
    }
    forall name, base, n: nat | Clash(names, name, base, n) ensures !Distinct(Idents(names)) {
      ClashShares(names, name, base, n);
    }
  }

  lemma SameIdentClashes(names: seq<string>, i: nat, j: nat)
    requires i < j < |names| && Ident(names, i) == Ident(names, j)
    ensures exists name, base, n: nat :: Clash(names, name, base, n)
  {
    var a, b := names[i], names[j];
    var m, n := Uses(names, i, a), Uses(names, j, b);
    UsesGrow(names, i + 1, j, a);
    UsesGrow(names, i + 1, |names|, a);
    UsesGrow(names, j + 1, |names|, b);
    if m > 0 && n > 0 {
      NumberedTells(a, m + 1, b, n + 1);
      assert false;
    } else if m > 0 {
      assert Clash(names, b, a, m + 1);
    } else {
      assert Clash(names, a, b, n + 1);
    }
  }

  lemma ClashShares(names: seq<string>, name: string, base: string, n: nat)
    requires Clash(names, name, base, n)
    ensures !Distinct(Idents(names))
  {
    var k :| 0 <= k < |names| && names[k] == name;
    UsesGrow(names, k + 1, |names|, name);
    var i := UseAt(names, |names|, name, 0);
    var j := UseAt(names, |names|, base, n - 1);
    assert Idents(names)[i] == name && Idents(names)[j] == Numbered(base, n);
    DecimalIsNoHash(n);
    assert |Numbered(base, n)| > |base|;
    assert i != j;
    assert !(Idents(names)[if i < j then i else j] != Idents(names)[if i < j then j else i]);
  }

  /** Two elements called Q, and one called Q#2. */
  lemma TwoElementsOneIdentifier(names: seq<string>)
    requires names == ["Q", "Q", "Q#2"]
    ensures Idents(names) == ["Q", "Q#2", "Q#2"]
  {
    assert |"Q"| != |"Q#2"| && Uses(names, 1, "Q#2") == 0;
    assert Uses(names, 0, "Q") == 0 && Uses(names, 1, "Q") == 1 && Uses(names, 2, "Q#2") == 0;
    assert Decimal(2) == "2" && Numbered("Q", 2) == "Q#2";
    assert Ident(names, 0) == "Q" && Ident(names, 1) == "Q#2" && Ident(names, 2) == "Q#2";
  }
}
