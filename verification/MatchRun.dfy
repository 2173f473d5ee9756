/** A matching run: for every component of the model, which physical asset it is proposed, if any. */
module MatchRun {
  import opened MatchContest
  import opened MatchScore
  import opened Sorting
  import opened Wrappers

  const IMPLEMENTED_BY := "implemented_by"

  datatype Decision = Accepted | Suggested | Refused

  /** What is on record of a component and an asset already. */
  datatype Binding = Binding(component: string, asset: string, relation: string, decision: Decision)

  datatype Component = Component(id: string, expectsAsset: bool)

  datatype Config = Config(propose: real, auto: real, margin: real)

  /** What the score of a component and an asset says: how well they match, and by what kinds of evidence. */
  datatype Mark = Mark(confidence: real, kinds: set<Kind>)

  datatype Case = Case(
    components: seq<Component>,
    assets: seq<string>,
    existing: seq<Binding>,
    score: (string, string) -> Mark,
    config: Config)

  // ------------------------------------------------------------------ what is on record

  /** The pairs a person refused, whatever relation it was refused for. */
  function RefusedPairs(existing: seq<Binding>): set<(string, string)> {
    set b | b in existing && b.decision == Refused :: (b.component, b.asset)
  }

  /** The asset each component is confirmed for: the last binding says. */
  function Bound(existing: seq<Binding>): map<string, string> {
    if existing == [] then map[]
    else
      var n := |existing| - 1;
      var before, b := Bound(existing[..n]), existing[n];
      if b.decision == Accepted && b.relation == IMPLEMENTED_BY then before[b.component := b.asset] else before
  }

  // ------------------------------------------------------------------ the candidates of a component

  datatype Candidate = Candidate(asset: string, confidence: real, kinds: set<Kind>)

  function Down(c: Candidate): real {
    -c.confidence
  }

  /** An asset as a candidate for a component. */
  function As(k: Case, component: string, asset: string): Candidate {
    var mark := k.score(component, asset);
    Candidate(asset, mark.confidence, mark.kinds)
  }

  /** Whether a component's asset is worth looking at: not refused, and with something to say for it. */
  predicate Worth(k: Case, component: string, asset: string)
  {
    (component, asset) !in RefusedPairs(k.existing) && As(k, component, asset).confidence > 0.15
  }

  function Scored(k: Case, component: string, assets: seq<string>): seq<Candidate>
  {
    if assets == [] then []
    else
      var n := |assets| - 1;
      Scored(k, component, assets[..n])
      + if Worth(k, component, assets[n]) then [As(k, component, assets[n])] else []
  }

  function Free(candidates: seq<Candidate>, taken: set<string>): seq<Candidate> {
    if candidates == [] then []
    else
      var n := |candidates| - 1;
      Free(candidates[..n], taken) + if candidates[n].asset in taken then [] else [candidates[n]]
  }

  /** The candidates a component may be proposed, the best first. */
  function Pool(k: Case, component: string): seq<Candidate>
  {
    Free(Sort(Scored(k, component, k.assets), Down), Bound(k.existing).Values)
  }

  function Choice(pool: seq<Candidate>, config: Config): Status {
    if pool == [] || pool[0].confidence < config.propose then Unmatched
    else if |pool| > 1 && pool[0].confidence - pool[1].confidence < config.margin then Ambiguous
    else Proposed
  }

  predicate AutoAcceptable(best: Candidate, config: Config) {
    best.confidence >= config.auto && best.kinds * IDENTITY != {} && TypeMatch in best.kinds
  }

  function NotProposed(component: string, status: Status): Proposal {
    Proposal(component, status, None, 0.0, {}, false)
  }

  /** What a component is proposed, before components are compared. */
  function Answer(k: Case, e: Component): Proposal
  {
    if !e.expectsAsset then NotProposed(e.id, Unmatched)
    else if e.id in Bound(k.existing) then NotProposed(e.id, Confirmed).(asset := Some(Bound(k.existing)[e.id]))
    else
      var pool := Pool(k, e.id);
      var status := Choice(pool, k.config);
      if status == Proposed then
         Proposal(e.id, status, Some(pool[0].asset), pool[0].confidence, pool[0].kinds,
                  AutoAcceptable(pool[0], k.config))
      else NotProposed(e.id, status)
  }

  function Answers(k: Case): (r: seq<Proposal>)
    ensures |r| == |k.components|
  {
    seq(|k.components|, i requires 0 <= i < |k.components| => Answer(k, k.components[i]))
  }

  /** The proposals of a run. */
  ghost function Matched(k: Case): (r: seq<Proposal>)
    ensures |r| == |k.components|
  {
    seq(|k.components|, i requires 0 <= i < |k.components| => Settled(Answers(k), i, k.config.margin))
  }

  // ------------------------------------------------------------------ the run

  method Rank(k: Case, component: string) returns (ranked: seq<Candidate>)
    ensures ranked == Sort(Scored(k, component, k.assets), Down)
  {
    ranked := [];
    var refused := RefusedPairs(k.existing);
    for n := 0 to |k.assets|
      invariant ranked == Scored(k, component, k.assets[..n])
    {
      assert k.assets[..n + 1][..n] == k.assets[..n];
      var a := k.assets[n];
      if (component, a) in refused {
        continue;
      }
      var candidate := As(k, component, a);
      if candidate.confidence > 0.15 {
        ranked := ranked + [candidate];
      }
    }
    assert k.assets[..|k.assets|] == k.assets;
    ranked := Sort(ranked, Down);
  }

  method Propose(k: Case, e: Component) returns (p: Proposal)
    ensures p == Answer(k, e)
  {
    if !e.expectsAsset {
      return NotProposed(e.id, Unmatched);
    }
    var confirmed := Bound(k.existing);
    var ranked := Rank(k, e.id);
    if e.id in confirmed {
      return NotProposed(e.id, Confirmed).(asset := Some(confirmed[e.id]));
    }
    var pool := Free(ranked, confirmed.Values);
    var status := Choice(pool, k.config);
    if status != Proposed {
      return NotProposed(e.id, status);
    }
    var best := pool[0];
    return Proposal(e.id, status, Some(best.asset), best.confidence, best.kinds, AutoAcceptable(best, k.config));
  }

  method Run(k: Case) returns (proposals: array<Proposal>)
    ensures fresh(proposals) && proposals[..] == Matched(k)
  {
    var answers: seq<Proposal> := [];
    for i := 0 to |k.components|
      invariant answers == Answers(k)[..i]
    {
      var p := Propose(k, k.components[i]);
      answers := answers + [p];
    }
    proposals := new Proposal[|answers|](i requires 0 <= i < |answers| => answers[i]);
    assert proposals[..] == answers == Answers(k);
    OneToOne(proposals, k.config.margin);
  }

  // ------------------------------------------------------------------ what is on record, binding by binding

  predicate Confirms(b: Binding, component: string) {
    b.component == component && b.decision == Accepted && b.relation == IMPLEMENTED_BY
  }

  ghost predicate LastWord(existing: seq<Binding>, i: nat, component: string) {
    i < |existing| && Confirms(existing[i], component)
    && forall j :: i < j < |existing| ==> !Confirms(existing[j], component)
  }

  /** The last binding that confirms a component is for this asset. */
  ghost predicate ConfirmedFor(existing: seq<Binding>, component: string, asset: string) {
    exists i: nat :: LastWord(existing, i, component) && existing[i].asset == asset
  }

  ghost predicate WasRefused(existing: seq<Binding>, component: string, asset: string) {
    exists b :: b in existing && b.decision == Refused && b.component == component && b.asset == asset
  }

  lemma LastWordOn(existing: seq<Binding>, n: nat, i: nat, component: string)
    requires |existing| == n + 1
    ensures !Confirms(existing[n], component) ==>
              (LastWord(existing, i, component) <==> LastWord(existing[..n], i, component))
    ensures Confirms(existing[n], component) ==> (LastWord(existing, i, component) <==> i == n)
  {
    forall j | 0 <= j < n ensures existing[..n][j] == existing[j] {
    }
    if LastWord(existing[..n], i, component) && !Confirms(existing[n], component) {
      forall j | i < j < |existing| ensures !Confirms(existing[j], component) {
        assert j == n || existing[j] == existing[..n][j];
      }
    }
  }

  lemma {:induction false} BoundIs(existing: seq<Binding>, component: string, asset: string)
    ensures component in Bound(existing) && Bound(existing)[component] == asset
       <==> ConfirmedFor(existing, component, asset)
    decreases |existing|
  {
    if existing != [] {
      var n := |existing| - 1;
      BoundIs(existing[..n], component, asset);
      forall i: nat
        ensures !Confirms(existing[n], component) ==>
                  (LastWord(existing, i, component) <==> LastWord(existing[..n], i, component))
        ensures Confirms(existing[n], component) ==> (LastWord(existing, i, component) <==> i == n)
      {
        LastWordOn(existing, n, i, component);
      }
      if Confirms(existing[n], component) {
        assert LastWord(existing, n, component);
      } else {
        SameWord(existing, n, component, asset);
      }
    }
  }

  lemma SameWord(existing: seq<Binding>, n: nat, component: string, asset: string)
    requires |existing| == n + 1
    requires forall i: nat :: LastWord(existing, i, component) <==> LastWord(existing[..n], i, component)
    ensures ConfirmedFor(existing, component, asset) <==> ConfirmedFor(existing[..n], component, asset)
  {
    if ConfirmedFor(existing, component, asset) {
      var i: nat :| LastWord(existing, i, component) && existing[i].asset == asset;
      assert LastWord(existing[..n], i, component) && existing[..n][i] == existing[i];
    }
    if ConfirmedFor(existing[..n], component, asset) {
      var i: nat :| LastWord(existing[..n], i, component) && existing[..n][i].asset == asset;
      assert LastWord(existing, i, component) && existing[..n][i] == existing[i];
    }
  }

  /** Some component is confirmed for the asset. */
  ghost predicate TakenBy(existing: seq<Binding>, asset: string) {
    exists c :: ConfirmedFor(existing, c, asset)
  }

  lemma TakenIff(existing: seq<Binding>, asset: string)
    ensures asset in Bound(existing).Values <==> TakenBy(existing, asset)
  {
    if asset in Bound(existing).Values {
      var c :| c in Bound(existing) && Bound(existing)[c] == asset;
      BoundIs(existing, c, asset);
    }
    if TakenBy(existing, asset) {
      var c :| ConfirmedFor(existing, c, asset);
      BoundIs(existing, c, asset);
    }
  }

  /** Told by the bindings: an asset may be proposed for a component exactly when it was not refused for it, whatever
      relation it was refused for, no component is confirmed for it, and it scores over 0.15. */
  lemma EligibleIff(k: Case, component: string, asset: string)
    ensures Eligible(k, component, asset) <==>
              && asset in k.assets && k.score(component, asset).confidence > 0.15
              && !WasRefused(k.existing, component, asset) && !TakenBy(k.existing, asset)
  {
    TakenIff(k.existing, asset);
    if WasRefused(k.existing, component, asset) {
      var b :| b in k.existing && b.decision == Refused && b.component == component && b.asset == asset;
      assert (b.component, b.asset) in RefusedPairs(k.existing);
    }
  }

  // ------------------------------------------------------------------ the candidates are what they should be

  /** What a component may be proposed: an asset worth looking at that no component is confirmed for. */
  predicate Eligible(k: Case, component: string, asset: string)
  {
    asset in k.assets && Worth(k, component, asset) && asset !in Bound(k.existing).Values
  }

  lemma {:induction false} ScoredAre(k: Case, component: string, assets: seq<string>, c: Candidate)
    ensures c in Scored(k, component, assets) <==>
              c.asset in assets && Worth(k, component, c.asset) && c == As(k, component, c.asset)
    decreases |assets|
  {
    if assets != [] {
      ScoredAre(k, component, assets[..|assets| - 1], c);
    }
  }

  lemma {:induction false} FreeAre(candidates: seq<Candidate>, taken: set<string>)
    ensures forall c :: c in Free(candidates, taken) <==> c in candidates && c.asset !in taken
    ensures Ascending(candidates, Down) ==> Ascending(Free(candidates, taken), Down)
    decreases |candidates|
  {
    if candidates != [] {
      var front, last := candidates[..|candidates| - 1], candidates[|candidates| - 1];
      FreeAre(front, taken);
      assert forall c :: c in candidates <==> c in front || c == last;
      if Ascending(candidates, Down) {
        assert forall c :: c in front ==> Down(c) <= Down(last);
        AscendingAdds(Free(front, taken), last, Down);
      }
    }
  }

  /** The pool holds the eligible assets and no other, the best first. */
  lemma PoolIs(k: Case, component: string)
    ensures forall c :: c in Pool(k, component) <==>
                          Eligible(k, component, c.asset) && c == As(k, component, c.asset)
    ensures forall i, j :: 0 <= i < j < |Pool(k, component)| ==>
                             Pool(k, component)[i].confidence >= Pool(k, component)[j].confidence
  {
    var scored := Scored(k, component, k.assets);
    var ranked, taken := Sort(scored, Down), Bound(k.existing).Values;
    SortAscends(scored, Down);
    SortPermutes(scored, Down);
    FreeAre(ranked, taken);
    forall c ensures c in Pool(k, component) <==> Eligible(k, component, c.asset) && c == As(k, component, c.asset) {
      assert c in multiset(ranked) <==> c in multiset(scored);
      ScoredAre(k, component, k.assets, c);
    }
    forall i, j | 0 <= i < j < |Pool(k, component)|
      ensures Pool(k, component)[i].confidence >= Pool(k, component)[j].confidence
    {
      assert Down(Pool(k, component)[i]) <= Down(Pool(k, component)[j]);
    }
  }

  /** Every other eligible asset is second at best. */
  lemma OthersAreBehind(k: Case, component: string, other: string)
    requires Eligible(k, component, other) && Pool(k, component) != [] && other != Pool(k, component)[0].asset
    ensures |Pool(k, component)| > 1 && As(k, component, other).confidence <= Pool(k, component)[1].confidence
  {
    PoolIs(k, component);
    var pool := Pool(k, component);
    assert As(k, component, other) in pool;
    var m :| 0 <= m < |pool| && pool[m] == As(k, component, other);
    assert m >= 1;
  }

  /** What is proposed is eligible, good enough, and clearly ahead of every other eligible asset. */
  lemma AnswerIsClear(k: Case, e: Component, other: string)
    requires Answer(k, e).status == Proposed
    ensures var p := Answer(k, e);
            && p.asset.Some? && Eligible(k, e.id, p.asset.value)
            && p.confidence == As(k, e.id, p.asset.value).confidence >= k.config.propose
            && (Eligible(k, e.id, other) && other != p.asset.value ==>
                  p.confidence - As(k, e.id, other).confidence >= k.config.margin)
  {
    BestIsEligible(k, e.id);
    if Eligible(k, e.id, other) && other != Pool(k, e.id)[0].asset {
      OthersAreBehind(k, e.id, other);
    }
  }

  lemma BestIsEligible(k: Case, component: string)
    requires Pool(k, component) != []
    ensures var best := Pool(k, component)[0];
            Eligible(k, component, best.asset) && best == As(k, component, best.asset)
  {
    PoolIs(k, component);
    assert Pool(k, component)[0] in Pool(k, component);
  }

  /** Nothing is proposed, ambiguously or not, exactly when no eligible asset is good enough. */
  lemma UnmatchedIff(k: Case, e: Component)
    requires e.expectsAsset && e.id !in Bound(k.existing)
    ensures Answer(k, e).status == Unmatched <==>
              forall a :: Eligible(k, e.id, a) ==> As(k, e.id, a).confidence < k.config.propose
  {
    PoolIs(k, e.id);
    var pool := Pool(k, e.id);
    forall a | Eligible(k, e.id, a) ensures pool != [] && As(k, e.id, a).confidence <= pool[0].confidence {
      assert As(k, e.id, a) in pool;
    }
    if pool != [] {
      assert pool[0] in pool;
    }
  }

  /** Two are too close exactly when the best of the pool is good enough and another of it is within the margin. */
  lemma AmbiguousIff(k: Case, e: Component)
    requires e.expectsAsset && e.id !in Bound(k.existing)
    ensures var pool := Pool(k, e.id);
            Answer(k, e).status == Ambiguous <==>
              exists m :: 0 < m < |pool| && pool[0].confidence >= k.config.propose
                          && pool[0].confidence - pool[m].confidence < k.config.margin
  {
    PoolIs(k, e.id);
    var pool := Pool(k, e.id);
    if |pool| > 1 {
      assert forall m :: 1 < m < |pool| ==> pool[1].confidence >= pool[m].confidence;
    }
  }

  // ------------------------------------------------------------------ what a run promises

  /** A component that is neither proposed an asset nor confirmed is given nothing at all. */
  lemma NothingProposed(k: Case, i: nat)
    requires i < |k.components| && Matched(k)[i].status !in {Proposed, Confirmed}
    ensures Matched(k)[i].asset == None && !Matched(k)[i].autoAcceptable
  {
  }

  /** No asset is proposed for two components. */
  lemma NoAssetTwice(k: Case, i: nat, j: nat)
    requires i < j < |k.components|
    requires Matched(k)[i].status == Proposed && Matched(k)[j].status == Proposed
    ensures Matched(k)[i].asset.Some? && Matched(k)[i].asset != Matched(k)[j].asset
  {
    var ps := Answers(k);
    AnswerIsClear(k, k.components[i], "");
    if ps[j].asset == ps[i].asset {
      assert Rival(ps, i, j) && Rival(ps, j, i);
      assert false;
    }
  }

  /** What is proposed is nobody's confirmed asset, was not refused for the component, and is good enough. */
  lemma ProposedIsEligible(k: Case, i: nat)
    requires i < |k.components|
    requires Matched(k)[i].status == Proposed
    ensures var p, id := Matched(k)[i], k.components[i].id;
            && p.component == id && p.asset.Some? && p.asset.value in k.assets
            && !WasRefused(k.existing, id, p.asset.value)
            && (forall a :: !ConfirmedFor(k.existing, id, a)) && !TakenBy(k.existing, p.asset.value)
            && p.confidence == k.score(id, p.asset.value).confidence >= k.config.propose
  {
    var p, id := Matched(k)[i], k.components[i].id;
    AnswerIsClear(k, k.components[i], "");
    EligibleIff(k, id, p.asset.value);
    forall a ensures !ConfirmedFor(k.existing, id, a) {
      BoundIs(k.existing, id, a);
    }
  }

  /** What was refused for a component is not proposed for it. */
  lemma RefusedIsNotProposed(k: Case, i: nat, b: Binding)
    requires i < |k.components| && Matched(k)[i].status == Proposed
    requires b in k.existing && b.decision == Refused && b.component == k.components[i].id
    ensures Matched(k)[i].asset != Some(b.asset)
  {
    ProposedIsEligible(k, i);
  }

  /** Whoever keeps a contested asset beats every rival by the margin, and no rival keeps it. */
  lemma SurvivorBeatsEveryRival(k: Case, i: nat, j: nat)
    requires i < |k.components| && j < |k.components| && i != j
    requires Matched(k)[i].status == Proposed
    requires Answers(k)[j].status == Proposed && Answers(k)[j].asset == Matched(k)[i].asset
    ensures Matched(k)[i].confidence - Answers(k)[j].confidence >= k.config.margin
    ensures Matched(k)[j].status == Ambiguous && Matched(k)[j].asset == None && !Matched(k)[j].autoAcceptable
  {
    var ps := Answers(k);
    AnswerIsClear(k, k.components[i], "");
    assert Rival(ps, i, j) && Rival(ps, j, i);
    assert Beats(ps, i, j, k.config.margin) && !Beats(ps, j, i, k.config.margin);
  }

  /** With a margin, an asset two components claim is kept by the one that beats all others by it, if any. */
  lemma ContestedIsKeptIff(k: Case, i: nat)
    requires i < |k.components| && k.config.margin > 0.0
    requires Answers(k)[i].status == Proposed
    ensures Matched(k)[i].status == Proposed <==>
              forall j :: 0 <= j < |k.components| && j != i && Answers(k)[j].status == Proposed
                          && Answers(k)[j].asset == Answers(k)[i].asset
                          ==> Answers(k)[i].confidence - Answers(k)[j].confidence >= k.config.margin
  {
    var ps := Answers(k);
    AnswerIsClear(k, k.components[i], "");
    forall j: nat | j < |ps| && j != i && ps[j].status == Proposed && ps[j].asset == ps[i].asset
      ensures Rival(ps, i, j)
    {
    }
  }

  /** A component that is confirmed keeps its asset, and one that expects none gets none. */
  lemma ConfirmedIsKept(k: Case, i: nat)
    requires i < |k.components|
    ensures var p, e := Matched(k)[i], k.components[i];
            && (p.status == Confirmed <==> e.expectsAsset && exists a :: ConfirmedFor(k.existing, e.id, a))
            && (p.status == Confirmed ==> p.asset.Some? && ConfirmedFor(k.existing, e.id, p.asset.value))
            && (!e.expectsAsset ==> p.status == Unmatched && p.asset == None)
  {
    var ps, id := Answers(k), k.components[i].id;
    if id in Bound(k.existing) {
      BoundIs(k.existing, id, Bound(k.existing)[id]);
    }
    forall a | ConfirmedFor(k.existing, id, a) ensures id in Bound(k.existing) {
      BoundIs(k.existing, id, a);
    }
    if ps[i].status != Proposed {
      assert Keeps(ps, i, k.config.margin);
    }
  }

  // ------------------------------------------------------------------ with the matcher's own score

  /** Scoring by the evidence found. */
  function Scoring(signs: (string, string) -> Signs, t: Tolerances): (string, string) -> Mark {
    (component, asset) =>
      var g := signs(component, asset);
      Mark(Confidence(g, t), Kinds(Found(g, t) + Against(g, t)))
  }

  lemma ScoredByEvidence(k: Case, i: nat, signs: (string, string) -> Signs, t: Tolerances)
    requires i < |k.components| && k.score == Scoring(signs, t) && Matched(k)[i].status == Proposed
    ensures var p := Matched(k)[i];
            && p.asset.Some?
            && var g := signs(p.component, p.asset.value);
               p.confidence == Confidence(g, t) && p.kinds == Kinds(Found(g, t) + Against(g, t))
  {
    AnswerIsClear(k, k.components[i], "");
    PoolIs(k, k.components[i].id);
    assert Pool(k, k.components[i].id)[0] in Pool(k, k.components[i].id);
  }

  /** What may be accepted without asking is what is proposed, at the confidence for it, by identity and type. */
  lemma AutoAcceptableIff(k: Case, i: nat)
    requires i < |k.components|
    ensures var p := Matched(k)[i];
            p.autoAcceptable <==>
              && p.status == Proposed && p.confidence >= k.config.auto
              && p.kinds * IDENTITY != {} && TypeMatch in p.kinds
  {
  }

  /** What may be accepted without asking has a name to say for it, a compatible type and the confidence. */
  lemma AutoAcceptableIsBacked(k: Case, i: nat, signs: (string, string) -> Signs, t: Tolerances)
    requires i < |k.components| && k.score == Scoring(signs, t) && Matched(k)[i].autoAcceptable
    ensures var p := Matched(k)[i];
            && p.status == Proposed && p.asset.Some? && p.confidence >= k.config.auto
            && var g := signs(p.component, p.asset.value);
               g.compatibility.Some? && (g.exactName || g.alias || g.convention || g.control)
  {
    AutoAcceptableIff(k, i);
    ScoredByEvidence(k, i, signs, t);
    var p := Matched(k)[i];
    EvidenceIsOf(signs(p.component, p.asset.value), t);
  }

  /** Over the cap, every proposal is anchored to a name or a place and of a compatible type. */
  lemma ProposedIsAnchored(k: Case, i: nat, signs: (string, string) -> Signs, t: Tolerances)
    requires i < |k.components| && k.score == Scoring(signs, t) && Matched(k)[i].status == Proposed
    requires k.config.propose > 0.45
    ensures var p := Matched(k)[i];
            && p.asset.Some?
            && var g := signs(p.component, p.asset.value);
               Kinds(Found(g, t)) * ANCHORS != {} && g.compatibility.Some?
  {
    ScoredByEvidence(k, i, signs, t);
    ProposedIsEligible(k, i);
    var p := Matched(k)[i];
    ConfidenceBounds(signs(p.component, p.asset.value), t);
  }
}
