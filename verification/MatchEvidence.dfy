/** What each kind of evidence is found by, what it weighs, and what is taken off for what speaks against a match. */
module MatchEvidence {
  import opened MatchScore
  import opened Wrappers

  predicate Near(d: Option<Distance>, tolerance: Tolerance) {
    d.Some? && d.value <= tolerance
  }

  /** More than five tolerances away. */
  predicate Away(d: Option<Distance>, tolerance: Tolerance) {
    d.Some? && d.value > 5.0 * tolerance
  }

  /** When a kind of evidence is found: of the ways names agree, the strongest. */
  predicate Speaks(g: Signs, t: Tolerances, kind: Kind) {
    match kind
    case ExactName => g.exactName
    case ExactAlias => g.alias && !g.exactName
    case NamingConvention => g.convention && !g.alias && !g.exactName
    case NormalizedName => g.sameTag && !g.convention && !g.alias && !g.exactName
    case ControlName => g.control
    case TypeMatch => g.compatibility.Some? && (g.saysItIsOne || g.compatibility.value > 0.0)
    case NumberMatch => g.compatibility.Some? && g.sameNumber
    case FamilyMatch => g.sameFamily
    case BeamlineMatch => g.beamlineOk
    case PositionMatch => Near(g.deltaS, t.s)
    case GeometryMatch => Near(g.distance, t.xyz)
    case OrderMatch => g.sameRank
    case NeighbourConsistent => g.besideNeighbour
    case TypeIncompatible => g.compatibility.None?
    case OtherBeamline => g.beamlineKnown && !g.beamlineOk
    case PositionMismatch => Away(g.deltaS, t.s)
    case GeometryMismatch => Away(g.distance, t.xyz)
  }

  /** What it weighs; being near, the more the nearer, and a type, as much as it is compatible. */
  function Weighs(g: Signs, t: Tolerances, kind: Kind): real
    requires Speaks(g, t, kind)
  {
    match kind
    case ExactName => 0.85
    case ExactAlias => 0.80
    case NamingConvention => 0.75
    case NormalizedName => 0.45
    case ControlName => 0.45
    case TypeMatch => if g.saysItIsOne then 0.25 else 0.25 * g.compatibility.value
    case NumberMatch => 0.10
    case FamilyMatch => 0.10
    case BeamlineMatch => 0.15
    case PositionMatch => 0.45 * (1.0 - g.deltaS.value / t.s)
    case GeometryMatch => 0.45 * (1.0 - g.distance.value / t.xyz)
    case OrderMatch => 0.20
    case NeighbourConsistent => 0.25
    case _ => 0.0
  }

  predicate Rightly(g: Signs, t: Tolerances, e: Evidence) {
    Speaks(g, t, e.kind) && e.weight == Weighs(g, t, e.kind)
  }

  ghost predicate Holds(ev: seq<Evidence>, kind: Kind) {
    exists e :: e in ev && e.kind == kind
  }

  /** Every piece of evidence is found by its signs, and weighs what it should. */
  lemma EachIsRight(g: Signs, t: Tolerances)
    ensures forall e :: e in Found(g, t) + Against(g, t) ==> Rightly(g, t, e)
  {
    NamesRight(g, t);
    TypesRight(g, t);
    SidesRight(g, t);
    PlacesRight(g, t);
    AgainstRight(g, t);
  }

  lemma NamesRight(g: Signs, t: Tolerances)
    ensures forall e :: e in NameEvidence(g) ==> Rightly(g, t, e)
  {
  }

  lemma TypesRight(g: Signs, t: Tolerances)
    ensures forall e :: e in TypeEvidence(g) ==> Rightly(g, t, e)
  {
  }

  lemma SidesRight(g: Signs, t: Tolerances)
    ensures forall e :: e in SideEvidence(g) ==> Rightly(g, t, e)
  {
  }

  lemma NearRight(d: Option<Distance>, tolerance: Tolerance, kind: Kind)
    ensures NearEvidence(d, tolerance, kind)
         == if Near(d, tolerance) then [Evidence(kind, 0.45 * (1.0 - d.value / tolerance))] else []
  {
  }

  lemma PlacesRight(g: Signs, t: Tolerances)
    ensures forall e :: e in PlaceEvidence(g, t) ==> Rightly(g, t, e)
  {
    NearRight(g.deltaS, t.s, PositionMatch);
    NearRight(g.distance, t.xyz, GeometryMatch);
  }

  lemma AgainstRight(g: Signs, t: Tolerances)
    ensures forall e :: e in Against(g, t) ==> Rightly(g, t, e)
  {
  }

  /** Whatever speaks for a match, or against it, is found. */
  lemma AllIsFound(g: Signs, t: Tolerances, kind: Kind)
    requires Speaks(g, t, kind)
    ensures Holds(Found(g, t) + Against(g, t), kind)
  {
    var e := Evidence(kind, Weighs(g, t, kind));
    match kind
    case ExactName => assert NameEvidence(g)[0] == e;
    case ExactAlias => assert NameEvidence(g)[0] == e;
    case NamingConvention => assert NameEvidence(g)[0] == e;
    case NormalizedName => assert NameEvidence(g)[0] == e;
    case ControlName => assert NameEvidence(g)[|NameEvidence(g)| - 1] == e;
    case TypeMatch => assert TypeEvidence(g)[0] == e;
    case NumberMatch => assert TypeEvidence(g)[|TypeEvidence(g)| - 1] == e;
    case FamilyMatch => assert SideEvidence(g)[0] == e;
    case BeamlineMatch => assert SideEvidence(g)[|SideEvidence(g)| - 1] == e;
    case TypeIncompatible => AgainstHolds(g, t, kind);
    case OtherBeamline => AgainstHolds(g, t, kind);
    case PositionMismatch => AgainstHolds(g, t, kind);
    case GeometryMismatch => AgainstHolds(g, t, kind);
    case _ => PlacesHold(g, t, kind);
  }

  lemma PlacesHold(g: Signs, t: Tolerances, kind: Kind)
    requires Speaks(g, t, kind) && kind in {PositionMatch, GeometryMatch, OrderMatch, NeighbourConsistent}
    ensures Evidence(kind, Weighs(g, t, kind)) in PlaceEvidence(g, t)
  {
    var e := Evidence(kind, Weighs(g, t, kind));
    NearRight(g.deltaS, t.s, PositionMatch);
    NearRight(g.distance, t.xyz, GeometryMatch);
    var a, b := NearEvidence(g.deltaS, t.s, PositionMatch), NearEvidence(g.distance, t.xyz, GeometryMatch);
    var c, d := If(g.sameRank, OrderMatch, 0.20), If(g.besideNeighbour, NeighbourConsistent, 0.25);
    assert PlaceEvidence(g, t) == a + b + c + d;
    assert kind == PositionMatch ==> a == [e];
    assert kind == GeometryMatch ==> b == [e];
    assert kind == OrderMatch ==> c == [e];
    assert kind == NeighbourConsistent ==> d == [e];
    assert e in a || e in b || e in c || e in d;
  }

  lemma AgainstHolds(g: Signs, t: Tolerances, kind: Kind)
    requires Speaks(g, t, kind) && kind in {TypeIncompatible, OtherBeamline, PositionMismatch, GeometryMismatch}
    ensures Evidence(kind, 0.0) in Against(g, t)
  {
    var e := Evidence(kind, 0.0);
    var a := If(g.compatibility.None?, TypeIncompatible, 0.0);
    var b := If(g.beamlineKnown && !g.beamlineOk, OtherBeamline, 0.0);
    var c, d := If(Far(g.deltaS, t.s), PositionMismatch, 0.0), If(Far(g.distance, t.xyz), GeometryMismatch, 0.0);
    assert Against(g, t) == a + b + c + d;
    assert kind == TypeIncompatible ==> a == [e];
    assert kind == OtherBeamline ==> b == [e];
    assert kind == PositionMismatch ==> c == [e];
    assert kind == GeometryMismatch ==> d == [e];
    assert e in a || e in b || e in c || e in d;
  }

  const NAMES := {ExactName, ExactAlias, NamingConvention, NormalizedName, ControlName}
  const TYPES := {TypeMatch, NumberMatch}
  const SIDE := {FamilyMatch, BeamlineMatch}
  const PLACE := {PositionMatch, GeometryMatch, OrderMatch, NeighbourConsistent}

  ghost predicate Among(ev: seq<Evidence>, kinds: set<Kind>) {
    Single(ev) && forall e :: e in ev ==> e.kind in kinds
  }

  lemma NamesOnce(g: Signs)
    ensures Among(NameEvidence(g), NAMES) && Among(TypeEvidence(g), TYPES) && Among(SideEvidence(g), SIDE)
  {
  }

  lemma PlacesOnce(g: Signs, t: Tolerances)
    ensures Among(PlaceEvidence(g, t), PLACE)
  {
    var a, b := NearEvidence(g.deltaS, t.s, PositionMatch), NearEvidence(g.distance, t.xyz, GeometryMatch);
    var c, d := If(g.sameRank, OrderMatch, 0.20), If(g.besideNeighbour, NeighbourConsistent, 0.25);
    NearRight(g.deltaS, t.s, PositionMatch);
    NearRight(g.distance, t.xyz, GeometryMatch);
    Once(a, b, {PositionMatch}, {GeometryMatch});
    Once(a + b, c, {PositionMatch, GeometryMatch}, {OrderMatch});
    Once(a + b + c, d, {PositionMatch, GeometryMatch, OrderMatch}, {NeighbourConsistent});
    assert {PositionMatch, GeometryMatch} + {OrderMatch} == {PositionMatch, GeometryMatch, OrderMatch};
    assert {PositionMatch} + {GeometryMatch} == {PositionMatch, GeometryMatch};
  }

  /** No kind is found twice. */
  lemma OnceEach(g: Signs, t: Tolerances)
    ensures Single(Found(g, t))
  {
    var n, k, s, p := NameEvidence(g), TypeEvidence(g), SideEvidence(g), PlaceEvidence(g, t);
    NamesOnce(g);
    PlacesOnce(g, t);
    Once(n, k, NAMES, TYPES);
    Once(n + k, s, NAMES + TYPES, SIDE);
    Once(n + k + s, p, NAMES + TYPES + SIDE, PLACE);
  }

  ghost predicate Single(ev: seq<Evidence>) {
    forall i, j :: 0 <= i < j < |ev| ==> ev[i].kind != ev[j].kind
  }

  lemma Once(a: seq<Evidence>, b: seq<Evidence>, p: set<Kind>, q: set<Kind>)
    requires Among(a, p) && Among(b, q) && p !! q
    ensures Among(a + b, p + q)
  {
    forall i, j | 0 <= i < j < |a + b| ensures (a + b)[i].kind != (a + b)[j].kind {
      assert (a + b)[i] == if i < |a| then a[i] else b[i - |a|];
      assert (a + b)[j] == if j < |a| then a[j] else b[j - |a|];
    }
  }

  function Half(times: nat): real {
    if times == 0 then 1.0 else 0.5 * Half(times - 1)
  }

  function One(c: bool): nat {
    if c then 1 else 0
  }

  function AtMost(cap: real, x: real): real {
    if x > cap then cap else x
  }

  /** How many things lower a confidence by half: another beamline, and each way of being away. */
  function Lowered(g: Signs, t: Tolerances): nat {
    One(g.beamlineKnown && !g.beamlineOk) + One(Away(g.deltaS, t.s)) + One(Away(g.distance, t.xyz))
  }

  /** What is left of a confidence: at most 0.45 where nothing ties the asset to the component, at most 0.2 where its
      type is incompatible, and half for each thing that lowers it. */
  function Left(g: Signs, t: Tolerances, combined: real, tied: bool): real {
    var capped := if tied then combined else AtMost(0.45, combined);
    (if g.compatibility.None? then AtMost(0.2, capped) else capped) * Half(Lowered(g, t))
  }

  lemma PenalisedIs(g: Signs, t: Tolerances, combined: real, tied: bool)
    ensures Penalised(g, t, combined, tied) == Left(g, t, combined, tied)
  {
    var capped := if tied then combined else AtMost(0.45, combined);
    HalvedIs(g.beamlineKnown && !g.beamlineOk, Away(g.deltaS, t.s), Away(g.distance, t.xyz),
             if g.compatibility.None? then AtMost(0.2, capped) else capped);
  }

  /** The confidence is what is left of what the evidence comes to. */
  lemma ConfidenceIs(g: Signs, t: Tolerances)
    ensures Confidence(g, t) == Left(g, t, 1.0 - Doubt(Found(g, t)), Kinds(Found(g, t)) * ANCHORS != {})
  {
    PenalisedIs(g, t, 1.0 - Doubt(Found(g, t)), Kinds(Found(g, t)) * ANCHORS != {});
  }

  lemma HalvedIs(a: bool, b: bool, c: bool, x: real)
    ensures Halved(c, Halved(b, Halved(a, x))) == x * Half(One(a) + One(b) + One(c))
  {
    assert Half(0) == 1.0 && Half(1) == 0.5 && Half(2) == 0.25 && Half(3) == 0.125;
  }
}
