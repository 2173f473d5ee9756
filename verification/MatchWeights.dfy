/** What the weights come to: which evidence is enough to propose an asset, and to accept one without asking. */
module MatchWeights {
  import opened MatchScore
  import opened Wrappers

  /** The program's own threshold for accepting without asking. */
  const AUTO := 0.9

  /** Nothing counts against the match. */
  predicate Unhalved(g: Signs, t: Tolerances) {
    !(g.beamlineKnown && !g.beamlineOk) && !Far(g.deltaS, t.s) && !Far(g.distance, t.xyz)
  }

  lemma UnhalvedIsCombined(g: Signs, t: Tolerances, ev: seq<Evidence>)
    requires g.compatibility.Some? && Kinds(ev) * ANCHORS != {} && Unhalved(g, t)
    ensures Rated(g, t, ev) == 1.0 - Doubt(ev)
  {
  }

  lemma HalvedIsHalf(g: Signs, t: Tolerances, ev: seq<Evidence>)
    requires g.compatibility.Some? && Kinds(ev) * ANCHORS != {} && !Unhalved(g, t) && Weights(ev)
    ensures Rated(g, t, ev) <= (1.0 - Doubt(ev)) * 0.5
  {
    CombinedIsAConfidence(ev);
    HalvedAtLeastOnce(1.0 - Doubt(ev), g.beamlineKnown && !g.beamlineOk, Far(g.deltaS, t.s), Far(g.distance, t.xyz));
  }

  lemma HalvedAtLeastOnce(c: real, a: bool, b: bool, d: bool)
    requires 0.0 <= c && (a || b || d)
    ensures Halved(d, Halved(b, Halved(a, c))) <= c * 0.5
  {
  }

  lemma DoubtOn(ev: seq<Evidence>, kind: Kind, weight: real)
    ensures Doubt(ev + [Evidence(kind, weight)]) == Doubt(ev) * (1.0 - weight)
  {
    assert (ev + [Evidence(kind, weight)])[..|ev|] == ev;
  }

  const NAME: seq<Evidence> := [Evidence(ExactName, 0.85)]
  const TYPE: seq<Evidence> := [Evidence(TypeMatch, 0.25)]
  const LINE: seq<Evidence> := [Evidence(BeamlineMatch, 0.15)]

  lemma NameTypeAndBeamlineDoubt()
    ensures Doubt(NAME) == 0.15 && Doubt(NAME + TYPE + LINE) == 0.095625
  {
    DoubtOn([], ExactName, 0.85);
    assert [] + NAME == NAME;
    DoubtOn(NAME, TypeMatch, 0.25);
    DoubtOn(NAME + TYPE, BeamlineMatch, 0.15);
  }

  lemma NameAnchors(g: Signs, t: Tolerances)
    requires g.exactName
    ensures Kinds(Found(g, t)) * ANCHORS != {}
  {
    FoundKinds(g, t);
    assert NameEvidence(g)[0].kind == ExactName;
    assert ExactName in Kinds(Found(g, t)) * ANCHORS;
  }

  // ------------------------------------------------------------------ the name, the type and the beamline

  lemma Regrouped<T>(name: seq<T>, control: seq<T>, kind: seq<T>, number: seq<T>, family: seq<T>, line: seq<T>,
                     place: seq<T>)
    ensures multiset((name + control) + (kind + number) + (family + line) + place)
         == multiset(name + kind + line + (control + number + family + place))
  {
  }

  function Besides(g: Signs, t: Tolerances): (r: seq<Evidence>)
    ensures Weights(r)
  {
    If(g.control, ControlName, 0.45) + If(g.sameNumber, NumberMatch, 0.10) + If(g.sameFamily, FamilyMatch, 0.10)
    + PlaceEvidence(g, t)
  }

  lemma NameTypeAndBeamlineAreIn(g: Signs, t: Tolerances)
    requires g.exactName && g.compatibility == Some(1.0) && g.beamlineOk
    ensures multiset(Found(g, t)) == multiset(NAME + TYPE + LINE + Besides(g, t))
  {
    var control, number := If(g.control, ControlName, 0.45), If(g.sameNumber, NumberMatch, 0.10);
    var family, place := If(g.sameFamily, FamilyMatch, 0.10), PlaceEvidence(g, t);
    assert NameEvidence(g) == NAME + control && TypeEvidence(g) == TYPE + number && SideEvidence(g) == family + LINE;
    Regrouped(NAME, control, TYPE, number, family, LINE, place);
  }

  lemma NameTypeAndBeamlineFound(g: Signs, t: Tolerances)
    requires g.exactName && g.compatibility == Some(1.0) && g.beamlineOk
    ensures Doubt(Found(g, t)) <= 0.095625
  {
    NameTypeAndBeamlineAreIn(g, t);
    NameTypeAndBeamlineDoubt();
    WithMore(Found(g, t), NAME + TYPE + LINE, Besides(g, t));
  }

  /** An asset of the component's name, of fully the right type and on its beamline, is good enough to be
      accepted without asking, whatever else is known of it, unless it is far away. */
  lemma NameTypeAndBeamlineAreEnough(g: Signs, t: Tolerances)
    requires g.exactName && g.compatibility == Some(1.0) && g.beamlineOk
    requires !Far(g.deltaS, t.s) && !Far(g.distance, t.xyz)
    ensures Confidence(g, t) >= AUTO
  {
    NameTypeAndBeamlineFound(g, t);
    NameAnchors(g, t);
    UnhalvedIsCombined(g, t, Found(g, t));
  }

  // ------------------------------------------------------------------ the name and the type alone

  /** Nothing speaks for the match but the name, the number in it or not, and the type. */
  predicate OnlyNameAndType(g: Signs, t: Tolerances) {
    && g.exactName && g.compatibility.Some?
    && !g.control && !g.sameFamily && !g.beamlineOk && !g.sameRank && !g.besideNeighbour
    && (g.deltaS.Some? ==> g.deltaS.value > t.s) && (g.distance.Some? ==> g.distance.value > t.xyz)
  }

  const NUMBER: seq<Evidence> := [Evidence(NumberMatch, 0.10)]

  /** The evidence that the type is right, if there is any. */
  predicate OfType(kind: seq<Evidence>) {
    kind == [] || (|kind| == 1 && 0.0 <= kind[0].weight <= 0.25)
  }

  lemma OnlyNameAndTypeFound(g: Signs, t: Tolerances) returns (kind: seq<Evidence>)
    requires OnlyNameAndType(g, t)
    ensures OfType(kind)
    ensures Found(g, t) == NAME + kind + if g.sameNumber then NUMBER else []
  {
    kind := if g.saysItIsOne then TYPE else If(g.compatibility.value != 0.0, TypeMatch, 0.25 * g.compatibility.value);
    assert NameEvidence(g) == NAME && SideEvidence(g) == [] && PlaceEvidence(g, t) == [];
    assert TypeEvidence(g) == kind + If(g.sameNumber, NumberMatch, 0.10);
  }

  lemma NameAndKindDoubt(kind: seq<Evidence>)
    requires OfType(kind)
    ensures 0.1125 <= Doubt(NAME + kind) <= 0.15
  {
    NameTypeAndBeamlineDoubt();
    if kind == [] {
      assert NAME + kind == NAME;
    } else {
      DoubtOn(NAME, kind[0].kind, kind[0].weight);
      assert NAME + kind == NAME + [Evidence(kind[0].kind, kind[0].weight)];
    }
  }

  lemma OnlyNameAndTypeDoubt(kind: seq<Evidence>, number: bool)
    requires OfType(kind)
    ensures 0.10125 <= Doubt(NAME + kind + if number then NUMBER else []) <= 0.15
  {
    NameAndKindDoubt(kind);
    DoubtOn(NAME + kind, NumberMatch, 0.10);
    assert NAME + kind + [] == NAME + kind;
  }

  /** The name and the type alone never are; and they propose exactly when nothing counts against the match. */
  lemma NameAndTypeAreNotEnough(g: Signs, t: Tolerances)
    requires OnlyNameAndType(g, t)
    ensures Confidence(g, t) < AUTO
    ensures PROPOSE <= Confidence(g, t) <==> Unhalved(g, t)
  {
    var ev := Found(g, t);
    var kind := OnlyNameAndTypeFound(g, t);
    OnlyNameAndTypeDoubt(kind, g.sameNumber);
    NameAnchors(g, t);
    if Unhalved(g, t) {
      UnhalvedIsCombined(g, t, ev);
    } else {
      HalvedIsHalf(g, t, ev);
    }
  }

  // ------------------------------------------------------------------ everything but a name

  const SIDES: seq<Evidence> := [Evidence(TypeMatch, 0.25), Evidence(NumberMatch, 0.10), Evidence(FamilyMatch, 0.10),
                                 Evidence(BeamlineMatch, 0.15)]
  const PLACES: seq<Evidence> := [Evidence(PositionMatch, 0.45), Evidence(GeometryMatch, 0.45),
                                  Evidence(OrderMatch, 0.20), Evidence(NeighbourConsistent, 0.25)]

  /** An asset that everything but a name speaks for. */
  const NAMELESS := Signs(false, false, false, false, false, Some(1.0), false, true, true, true, true,
                          Some(0.0), Some(0.0), true, true)

  lemma NearestIsFull(tolerance: Tolerance, kind: Kind)
    ensures NearEvidence(Some(0.0), tolerance, kind) == [Evidence(kind, 0.45)]
  {
    assert 0.0 / tolerance == 0.0;
  }

  lemma NamelessSides()
    ensures NameEvidence(NAMELESS) + TypeEvidence(NAMELESS) + SideEvidence(NAMELESS) == SIDES
  {
  }

  lemma NamelessPlaces(t: Tolerances)
    ensures PlaceEvidence(NAMELESS, t) == PLACES
  {
    NearestIsFull(t.s, PositionMatch);
    NearestIsFull(t.xyz, GeometryMatch);
  }

  lemma SidesDoubt(sides: seq<Evidence>)
    requires sides == SIDES
    ensures Doubt(sides) == 0.516375
  {
    DoubtOn([], TypeMatch, 0.25);
    DoubtOn(sides[..1], NumberMatch, 0.10);
    DoubtOn(sides[..2], FamilyMatch, 0.10);
    DoubtOn(sides[..3], BeamlineMatch, 0.15);
    assert sides[..1] == [] + [sides[0]] && sides[..2] == sides[..1] + [sides[1]];
    assert sides[..3] == sides[..2] + [sides[2]] && sides == sides[..3] + [sides[3]];
  }

  lemma PlacesDoubt(sides: seq<Evidence>, places: seq<Evidence>)
    requires Doubt(sides) == 0.516375 && places == PLACES
    ensures Doubt(sides + places) <= 0.1
  {
    DoubtOn(sides, PositionMatch, 0.45);
    DoubtOn(sides + places[..1], GeometryMatch, 0.45);
    DoubtOn(sides + places[..2], OrderMatch, 0.20);
    DoubtOn(sides + places[..3], NeighbourConsistent, 0.25);
    assert sides + places[..1] == sides + [places[0]] && sides + places[..2] == sides + places[..1] + [places[1]];
    assert sides + places[..3] == sides + places[..2] + [places[2]];
    assert sides + places == sides + places[..3] + [places[3]];
  }

  lemma PlacesAnchor(sides: seq<Evidence>)
    ensures Kinds(sides + PLACES) * ANCHORS != {}
  {
    assert (sides + PLACES)[|sides|] == PLACES[0];
    assert PositionMatch in Kinds(sides + PLACES) * ANCHORS;
  }

  /** Places and types can look as certain as a name does, so asking for a name besides is not idle. */
  lemma PlacesCanLookCertain(t: Tolerances)
    ensures !NAMELESS.exactName && !NAMELESS.alias && !NAMELESS.convention && !NAMELESS.control && !NAMELESS.sameTag
    ensures Confidence(NAMELESS, t) >= AUTO
  {
    NamelessSides();
    NamelessPlaces(t);
    SidesDoubt(SIDES);
    PlacesDoubt(SIDES, PLACES);
    PlacesAnchor(SIDES);
    UnhalvedIsCombined(NAMELESS, t, SIDES + PLACES);
  }
}
