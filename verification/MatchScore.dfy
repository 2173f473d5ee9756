/**
 How well a physical asset matches a component of a beamline model: the evidence found, and the confidence
 it adds up to. Weights are exact numbers here; the program rounds.
 */
module MatchScore {
  import opened Folds
  import opened Wrappers

  datatype Kind =
    | ExactName | ExactAlias | NamingConvention | NormalizedName | ControlName
    | TypeMatch | NumberMatch | FamilyMatch | BeamlineMatch
    | PositionMatch | GeometryMatch | OrderMatch | NeighbourConsistent
    | TypeIncompatible | OtherBeamline | PositionMismatch | GeometryMismatch

  const IDENTITY := {ExactName, ExactAlias, NamingConvention, ControlName}
  const ANCHORS := IDENTITY + {NormalizedName, PositionMatch, GeometryMatch, OrderMatch, NeighbourConsistent}

  datatype Evidence = Evidence(kind: Kind, weight: real)

  /** A compatibility of types, a distance, and how far apart still counts as near. */
  type Share = r: real | 0.0 <= r <= 1.0
  type Distance = r: real | 0.0 <= r
  type Tolerance = r: real | 0.0 < r witness 1.0

  /** What comparing the names, types and places of a component and an asset says. */
  datatype Signs = Signs(
    exactName: bool,
    alias: bool,
    convention: bool,
    sameTag: bool,
    control: bool,
    compatibility: Option<Share>,
    saysItIsOne: bool,
    sameNumber: bool,
    sameFamily: bool,
    beamlineKnown: bool,
    beamlineOk: bool,
    deltaS: Option<Distance>,
    distance: Option<Distance>,
    sameRank: bool,
    besideNeighbour: bool)

  datatype Tolerances = Tolerances(s: Tolerance, xyz: Tolerance)

  predicate Weights(ev: seq<Evidence>) {
    forall e :: e in ev ==> 0.0 <= e.weight <= 1.0
  }

  function If(c: bool, kind: Kind, weight: real): (r: seq<Evidence>)
    ensures 0.0 <= weight <= 1.0 ==> Weights(r)
  {
    if c then [Evidence(kind, weight)] else []
  }

  /** The strongest way the names agree, the weaker ones not being looked at, and the control name. */
  function NameEvidence(g: Signs): (r: seq<Evidence>)
    ensures Weights(r)
  {
    (if g.exactName then [Evidence(ExactName, 0.85)]
     else if g.alias then [Evidence(ExactAlias, 0.80)]
     else if g.convention then [Evidence(NamingConvention, 0.75)]
     else If(g.sameTag, NormalizedName, 0.45))
    + If(g.control, ControlName, 0.45)
  }

  function TypeEvidence(g: Signs): (r: seq<Evidence>)
    ensures Weights(r)
  {
    if g.compatibility.None? then []
    else
      (if g.saysItIsOne then [Evidence(TypeMatch, 0.25)]
       else If(g.compatibility.value != 0.0, TypeMatch, 0.25 * g.compatibility.value))
      + If(g.sameNumber, NumberMatch, 0.10)
  }

  /** Evidence of being near: full at no distance, none from the tolerance on. */
  function NearEvidence(d: Option<Distance>, tolerance: Tolerance, kind: Kind): (r: seq<Evidence>)
    ensures Weights(r)
  {
    if d.Some? && d.value <= tolerance then
      assert 0.0 <= d.value / tolerance <= 1.0;
      [Evidence(kind, 0.45 * (1.0 - d.value / tolerance))]
    else []
  }

  function PlaceEvidence(g: Signs, t: Tolerances): (r: seq<Evidence>)
    ensures Weights(r)
  {
    NearEvidence(g.deltaS, t.s, PositionMatch) + NearEvidence(g.distance, t.xyz, GeometryMatch)
    + If(g.sameRank, OrderMatch, 0.20) + If(g.besideNeighbour, NeighbourConsistent, 0.25)
  }

  function SideEvidence(g: Signs): (r: seq<Evidence>)
    ensures Weights(r)
  {
    If(g.sameFamily, FamilyMatch, 0.10) + If(g.beamlineOk, BeamlineMatch, 0.15)
  }

  function Found(g: Signs, t: Tolerances): (r: seq<Evidence>)
    ensures Weights(r)
  {
    NameEvidence(g) + TypeEvidence(g) + SideEvidence(g) + PlaceEvidence(g, t)
  }

  function Kinds(ev: seq<Evidence>): set<Kind> {
    set e | e in ev :: e.kind
  }

  function Doubted(doubt: real, e: Evidence): real {
    doubt * (1.0 - e.weight)
  }

  /** The chance that every piece of evidence is wrong, were they independent. */
  function Doubt(ev: seq<Evidence>): real {
    Fold(ev, 1.0, Doubted)
  }

  function Min(a: real, b: real): real {
    if b < a then b else a
  }

  predicate Far(d: Option<Distance>, tolerance: Tolerance) {
    d.Some? && d.value > 5.0 * tolerance
  }

  function Halved(far: bool, conf: real): real {
    if far then conf * 0.5 else conf
  }

  /** The caps and penalties on what the evidence adds up to. */
  function Penalised(g: Signs, t: Tolerances, combined: real, anchored: bool): real {
    var capped := if anchored then combined else Min(combined, 0.45);
    var typed := if g.compatibility.None? then Min(capped, 0.2) else capped;
    Halved(Far(g.distance, t.xyz), Halved(Far(g.deltaS, t.s), Halved(g.beamlineKnown && !g.beamlineOk, typed)))
  }

  function Rated(g: Signs, t: Tolerances, ev: seq<Evidence>): real {
    Penalised(g, t, 1.0 - Doubt(ev), Kinds(ev) * ANCHORS != {})
  }

  function Confidence(g: Signs, t: Tolerances): real
  {
    Rated(g, t, Found(g, t))
  }

  /** What speaks against the match is noted with no weight. */
  function Against(g: Signs, t: Tolerances): seq<Evidence> {
    If(g.compatibility.None?, TypeIncompatible, 0.0)
    + If(g.beamlineKnown && !g.beamlineOk, OtherBeamline, 0.0)
    + If(Far(g.deltaS, t.s), PositionMismatch, 0.0)
    + If(Far(g.distance, t.xyz), GeometryMismatch, 0.0)
  }

  method Combine(evidence: seq<Evidence>) returns (conf: real)
    ensures conf == 1.0 - Doubt(evidence)
  {
    conf := 1.0;
    for k := 0 to |evidence|
      invariant conf == Doubt(evidence[..k])
    {
      assert evidence[..k + 1][..k] == evidence[..k];
      conf := conf * (1.0 - evidence[k].weight);
    }
    assert evidence[..|evidence|] == evidence;
    conf := 1.0 - conf;
  }

  method Score(g: Signs, t: Tolerances) returns (conf: real, evidence: seq<Evidence>)
    ensures conf == Confidence(g, t) && evidence == Found(g, t) + Against(g, t)
  {
    evidence := Found(g, t);
    conf := Combine(evidence);
    if Kinds(evidence) * ANCHORS == {} {
      conf := Min(conf, 0.45);
    }
    if g.compatibility.None? {
      conf := Min(conf, 0.2);
    }
    if g.beamlineKnown && !g.beamlineOk {
      conf := conf * 0.5;
    }
    if Far(g.deltaS, t.s) {
      conf := conf * 0.5;
    }
    if Far(g.distance, t.xyz) {
      conf := conf * 0.5;
    }
    evidence := evidence + Against(g, t);
  }

  // ------------------------------------------------------------------ combining evidence

  lemma NotNegative(a: real, b: real)
    requires 0.0 <= a && 0.0 <= b
    ensures 0.0 <= a * b
  {
  }

  lemma NotAboveFirst(a: real, b: real, p: real)
    requires 0.0 <= a && b <= 1.0 && p == a * b
    ensures p <= a
  {
  }

  lemma NotAboveSecond(a: real, b: real, p: real)
    requires a <= 1.0 && 0.0 <= b && p == a * b
    ensures p <= b
  {
  }

  lemma DoubtedLess(doubt: real, e: Evidence)
    requires 0.0 <= doubt <= 1.0 && 0.0 <= e.weight <= 1.0
    ensures 0.0 <= Doubted(doubt, e) <= doubt && Doubted(doubt, e) <= 1.0 - e.weight
  {
    NotNegative(doubt, 1.0 - e.weight);
    NotAboveFirst(doubt, 1.0 - e.weight, Doubted(doubt, e));
    NotAboveSecond(doubt, 1.0 - e.weight, Doubted(doubt, e));
  }

  /** However much there is, what it adds up to is a confidence, and at least that of the strongest piece. */
  lemma {:induction false} CombinedIsAConfidence(ev: seq<Evidence>)
    requires Weights(ev)
    ensures 0.0 <= 1.0 - Doubt(ev) <= 1.0
    ensures forall e :: e in ev ==> e.weight <= 1.0 - Doubt(ev)
    decreases |ev|
  {
    if ev != [] {
      var front, last := ev[..|ev| - 1], ev[|ev| - 1];
      CombinedIsAConfidence(front);
      DoubtedLess(Doubt(front), last);
      forall e | e in ev ensures e.weight <= 1.0 - Doubt(ev) {
        assert e in front || e == last;
      }
    }
  }

  /** More evidence never lowers what it adds up to. */
  lemma {:induction false} MoreIsNotLess(ev: seq<Evidence>, more: seq<Evidence>)
    requires Weights(ev) && Weights(more)
    ensures Doubt(ev + more) <= Doubt(ev)
    decreases |more|
  {
    if more == [] {
      assert ev + more == ev;
    } else {
      var front, last := more[..|more| - 1], more[|more| - 1];
      MoreIsNotLess(ev, front);
      CombinedIsAConfidence(ev + front);
      DoubtedLess(Doubt(ev + front), last);
      assert (ev + more)[..|ev + more| - 1] == ev + front;
    }
  }

  lemma Swapped(d: real, x: real, y: real)
    ensures (d * x) * y == (d * y) * x
  {
  }

  /** The order the evidence was found in does not matter. */
  lemma OrderDoesNotMatter(a: seq<Evidence>, b: seq<Evidence>)
    requires multiset(a) == multiset(b)
    ensures Doubt(a) == Doubt(b)
  {
    forall d, x, y ensures Doubted(Doubted(d, x), y) == Doubted(Doubted(d, y), x) {
      Swapped(d, 1.0 - x.weight, 1.0 - y.weight);
    }
    FoldUnordered(a, b, 1.0, Doubted);
  }

  /** Evidence that holds some, and more, leaves no more doubt than the some alone. */
  lemma WithMore(ev: seq<Evidence>, some: seq<Evidence>, more: seq<Evidence>)
    requires multiset(ev) == multiset(some + more) && Weights(some) && Weights(more)
    ensures Doubt(ev) <= Doubt(some)
  {
    OrderDoesNotMatter(ev, some + more);
    MoreIsNotLess(some, more);
  }

  // ------------------------------------------------------------------ what a confidence says

  /** Caps and penalties only lower what the evidence adds up to. */
  lemma PenaltiesOnlyLower(g: Signs, t: Tolerances, combined: real, anchored: bool)
    requires 0.0 <= combined <= 1.0
    ensures 0.0 <= Penalised(g, t, combined, anchored) <= combined
    ensures !anchored ==> Penalised(g, t, combined, anchored) <= 0.45
    ensures g.compatibility.None? ==> Penalised(g, t, combined, anchored) <= 0.2
  {
    var capped := if anchored then combined else Min(combined, 0.45);
    var typed := if g.compatibility.None? then Min(capped, 0.2) else capped;
    HalvedLowers(g.beamlineKnown && !g.beamlineOk, typed);
    var once := Halved(g.beamlineKnown && !g.beamlineOk, typed);
    HalvedLowers(Far(g.deltaS, t.s), once);
    HalvedLowers(Far(g.distance, t.xyz), Halved(Far(g.deltaS, t.s), once));
  }

  lemma HalvedLowers(far: bool, conf: real)
    requires 0.0 <= conf
    ensures 0.0 <= Halved(far, conf) <= conf
  {
  }

  lemma RatedBounds(g: Signs, t: Tolerances, ev: seq<Evidence>)
    requires Weights(ev)
    ensures 0.0 <= Rated(g, t, ev) <= 1.0
    ensures Kinds(ev) * ANCHORS == {} ==> Rated(g, t, ev) <= 0.45
    ensures g.compatibility.None? ==> Rated(g, t, ev) <= 0.2
  {
    CombinedIsAConfidence(ev);
    PenaltiesOnlyLower(g, t, 1.0 - Doubt(ev), Kinds(ev) * ANCHORS != {});
  }

  /** The program's own threshold for proposing. */
  const PROPOSE := 0.5

  /** The score is a confidence, too low for a proposal where no name or place ties the asset to the component, and
      lower still for one of an incompatible type, whatever else speaks for it. */
  lemma ConfidenceBounds(g: Signs, t: Tolerances)
    ensures 0.0 <= Confidence(g, t) <= 1.0
    ensures Kinds(Found(g, t)) * ANCHORS == {} ==> Confidence(g, t) <= 0.45 < PROPOSE
    ensures g.compatibility.None? ==> Confidence(g, t) <= 0.2 < PROPOSE
  {
    RatedBounds(g, t, Found(g, t));
  }

  // ------------------------------------------------------------------ where a kind of evidence comes from

  lemma KindsAdd(a: seq<Evidence>, b: seq<Evidence>)
    ensures Kinds(a + b) == Kinds(a) + Kinds(b)
  {
    assert forall e :: e in a + b <==> e in a || e in b;
  }

  lemma FoundKinds(g: Signs, t: Tolerances)
    ensures Kinds(Found(g, t))
         == Kinds(NameEvidence(g)) + Kinds(TypeEvidence(g)) + Kinds(SideEvidence(g)) + Kinds(PlaceEvidence(g, t))
  {
    KindsAdd(NameEvidence(g), TypeEvidence(g));
    KindsAdd(NameEvidence(g) + TypeEvidence(g), SideEvidence(g));
    KindsAdd(NameEvidence(g) + TypeEvidence(g) + SideEvidence(g), PlaceEvidence(g, t));
  }

  lemma OtherKinds(g: Signs, t: Tolerances)
    ensures Kinds(SideEvidence(g)) <= {FamilyMatch, BeamlineMatch}
    ensures Kinds(PlaceEvidence(g, t)) <= {PositionMatch, GeometryMatch, OrderMatch, NeighbourConsistent}
    ensures Kinds(Against(g, t)) <= {TypeIncompatible, OtherBeamline, PositionMismatch, GeometryMismatch}
  {
  }

  /** Identity evidence is of a name, an alias, a convention or a control name; and type evidence is of a
      compatible type. */
  lemma EvidenceIsOf(g: Signs, t: Tolerances)
    ensures var kinds := Kinds(Found(g, t) + Against(g, t));
            && (kinds * IDENTITY != {} <==> g.exactName || g.alias || g.convention || g.control)
            && (TypeMatch in kinds ==> g.compatibility.Some?)
  {
    FoundKinds(g, t);
    KindsAdd(Found(g, t), Against(g, t));
    OtherKinds(g, t);
    NameKinds(g);
    TypeKinds(g);
    OneSource(Kinds(NameEvidence(g)), Kinds(TypeEvidence(g)), Kinds(SideEvidence(g)), Kinds(PlaceEvidence(g, t)),
              Kinds(Against(g, t)));
  }

  lemma OneSource(name: set<Kind>, kind: set<Kind>, side: set<Kind>, place: set<Kind>, against: set<Kind>)
    requires name <= IDENTITY + {NormalizedName} && kind <= {TypeMatch, NumberMatch}
    requires side <= {FamilyMatch, BeamlineMatch}
    requires place <= {PositionMatch, GeometryMatch, OrderMatch, NeighbourConsistent}
    requires against <= {TypeIncompatible, OtherBeamline, PositionMismatch, GeometryMismatch}
    ensures (name + kind + side + place + against) * IDENTITY == name * IDENTITY
    ensures TypeMatch in name + kind + side + place + against <==> TypeMatch in kind
  {
  }

  lemma NameKinds(g: Signs)
    ensures Kinds(NameEvidence(g)) <= IDENTITY + {NormalizedName}
    ensures Kinds(NameEvidence(g)) * IDENTITY != {} <==> g.exactName || g.alias || g.convention || g.control
  {
    if g.exactName || g.alias || g.convention {
      assert NameEvidence(g)[0].kind in Kinds(NameEvidence(g)) * IDENTITY;
    } else if g.control {
      assert NameEvidence(g)[|NameEvidence(g)| - 1] == Evidence(ControlName, 0.45);
      assert ControlName in Kinds(NameEvidence(g)) * IDENTITY;
    }
  }

  lemma TypeKinds(g: Signs)
    ensures Kinds(TypeEvidence(g)) <= {TypeMatch, NumberMatch}
    ensures TypeMatch in Kinds(TypeEvidence(g)) ==> g.compatibility.Some?
  {
  }
}
