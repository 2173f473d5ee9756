/** Two components proposed the same asset: at most one keeps it. */
module MatchContest {
  import opened Lists
  import opened MatchScore
  import opened Sorting
  import opened Wrappers

  datatype Status = Confirmed | Proposed | Ambiguous | Unmatched

  datatype Proposal = Proposal(
    component: string,
    status: Status,
    asset: Option<string>,
    confidence: real,
    kinds: set<Kind>,
    autoAcceptable: bool)

  predicate Claims(p: Proposal, asset: string) {
    p.status == Proposed && p.asset == Some(asset)
  }

  /** What happens to a proposal that loses its asset. */
  function Demoted(p: Proposal): Proposal {
    p.(status := Ambiguous, asset := None, autoAcceptable := false)
  }

  // ------------------------------------------------------------------ what the contest decides

  ghost predicate Rival(ps: seq<Proposal>, i: nat, j: nat) {
    && i < |ps| && j < |ps| && i != j && ps[i].status == Proposed && ps[j].status == Proposed
    && ps[i].asset.Some? && ps[j].asset == ps[i].asset
  }

  /** Better, or as good and earlier, and clearly so. */
  ghost predicate Beats(ps: seq<Proposal>, i: nat, j: nat, margin: real)
    requires i < |ps| && j < |ps|
  {
    && (ps[j].confidence < ps[i].confidence || (ps[j].confidence == ps[i].confidence && i < j))
    && ps[i].confidence - ps[j].confidence >= margin
  }

  ghost predicate Keeps(ps: seq<Proposal>, i: nat, margin: real)
    requires i < |ps|
  {
    forall j {:trigger Rival(ps, i, j)} :: Rival(ps, i, j) ==> Beats(ps, i, j, margin)
  }

  /** What a proposal is after the contest: what it was, unless a rival is not clearly beaten. */
  ghost function Settled(ps: seq<Proposal>, i: nat, margin: real): Proposal
    requires i < |ps|
  {
    if Keeps(ps, i, margin) then ps[i] else Demoted(ps[i])
  }

  // ------------------------------------------------------------------ the claims on one asset

  datatype Claim = Claim(at: nat, confidence: real)

  function Down(c: Claim): real {
    -c.confidence
  }

  function ClaimsOn(ps: seq<Proposal>, asset: string): seq<Claim> {
    if ps == [] then []
    else
      var n := |ps| - 1;
      ClaimsOn(ps[..n], asset) + if Claims(ps[n], asset) then [Claim(n, ps[n].confidence)] else []
  }

  /** The claims that lose: all but the best, or all of them when the best is not clear. */
  function Losers(claims: seq<Claim>, margin: real): seq<Claim> {
    var ranked := Sort(claims, Down);
    if |ranked| < 2 then []
    else if ranked[0].confidence - ranked[1].confidence >= margin then ranked[1..]
    else ranked
  }

  ghost predicate InOrder(s: seq<Claim>) {
    forall i, j :: 0 <= i < j < |s| ==> s[i].at < s[j].at
  }

  lemma {:induction false} ClaimsAre(ps: seq<Proposal>, asset: string, c: Claim)
    ensures c in ClaimsOn(ps, asset) <==>
              c.at < |ps| && Claims(ps[c.at], asset) && c.confidence == ps[c.at].confidence
    decreases |ps|
  {
    if ps != [] {
      ClaimsAre(ps[..|ps| - 1], asset, c);
    }
  }

  lemma {:induction false} ClaimsInOrder(ps: seq<Proposal>, asset: string)
    ensures InOrder(ClaimsOn(ps, asset)) && forall c :: c in ClaimsOn(ps, asset) ==> c.at < |ps|
    decreases |ps|
  {
    if ps != [] {
      ClaimsInOrder(ps[..|ps| - 1], asset);
    }
  }

  lemma {:induction false} TiesInOrder(s: seq<Claim>, k: real)
    requires InOrder(s)
    ensures InOrder(Ties(s, Down, k))
    decreases |s|
  {
    if s != [] {
      var front := s[..|s| - 1];
      TiesInOrder(front, k);
      forall c | c in Ties(front, Down, k) ensures c.at < s[|s| - 1].at {
        TiesHold(front, Down, k, c);
      }
    }
  }

  lemma {:induction false} OnceEach(s: seq<Claim>, c: Claim)
    requires InOrder(s)
    ensures multiset(s)[c] <= 1
    decreases |s|
  {
    if s != [] {
      var front := s[..|s| - 1];
      assert s == front + [s[|s| - 1]];
      OnceEach(front, c);
      if c == s[|s| - 1] {
        assert c !in front;
        assert c !in multiset(front);
      }
    }
  }

  lemma RankedAre(claims: seq<Claim>)
    ensures var ranked := Sort(claims, Down);
            && |ranked| == |claims|
            && (forall c :: c in ranked <==> c in claims)
            && (forall i, j :: 0 <= i < j < |ranked| ==> ranked[i].confidence >= ranked[j].confidence)
  {
    var ranked := Sort(claims, Down);
    SortPermutes(claims, Down);
    assert |multiset(ranked)| == |multiset(claims)|;
    forall c ensures c in ranked <==> c in claims {
      assert c in multiset(ranked) <==> c in multiset(claims);
    }
    SortAscends(claims, Down);
    forall i, j | 0 <= i < j < |ranked| ensures ranked[i].confidence >= ranked[j].confidence {
      assert Down(ranked[i]) <= Down(ranked[j]);
    }
  }

  /** The ranking: the same claims, the best first, each once, and the earlier of equals first. */
  lemma Ranking(claims: seq<Claim>)
    requires InOrder(claims)
    ensures var ranked := Sort(claims, Down);
            && |ranked| == |claims|
            && (forall c :: c in ranked <==> c in claims)
            && (forall i, j :: 0 <= i < j < |ranked| ==> ranked[i].confidence >= ranked[j].confidence)
            && (ranked != [] ==> ranked[0] !in ranked[1..])
            && (ranked != [] ==> forall c :: c in claims && c.confidence == ranked[0].confidence && c != ranked[0]
                                        ==> ranked[0].at < c.at)
  {
    var ranked := Sort(claims, Down);
    SortPermutes(claims, Down);
    RankedAre(claims);
    if ranked != [] {
      OnceEach(claims, ranked[0]);
      assert ranked == [ranked[0]] + ranked[1..];
      assert multiset(ranked)[ranked[0]] == 1 + multiset(ranked[1..])[ranked[0]];
      forall c | c in claims && c.confidence == ranked[0].confidence && c != ranked[0] ensures ranked[0].at < c.at {
        EarlierInRank(claims, c);
      }
    }
  }

  /** Where equals are in the order they came, the first of all comes before its equals. */
  lemma EarlierFirst(claims: seq<Claim>, ranked: seq<Claim>, c: Claim)
    requires InOrder(claims) && c in claims && ranked != []
    requires c != ranked[0] && c.confidence == ranked[0].confidence
    requires Ties(ranked, Down, Down(ranked[0])) == Ties(claims, Down, Down(ranked[0]))
    ensures ranked[0].at < c.at
  {
    var k := Down(ranked[0]);
    TiesStart(ranked, Down);
    TiesInOrder(claims, k);
    TiesHold(claims, Down, k, c);
    FirstIsEarliest(Ties(claims, Down, k), c);
  }

  lemma EarlierInRank(claims: seq<Claim>, c: Claim)
    requires InOrder(claims) && c in claims && Sort(claims, Down) != []
    requires var best := Sort(claims, Down)[0]; c != best && c.confidence == best.confidence
    ensures Sort(claims, Down)[0].at < c.at
  {
    var ranked := Sort(claims, Down);
    SortKeepsTies(claims, Down, Down(ranked[0]));
    EarlierFirst(claims, ranked, c);
  }

  lemma FirstIsEarliest(s: seq<Claim>, c: Claim)
    requires InOrder(s) && c in s && c != s[0]
    ensures s[0].at < c.at
  {
  }

  /** The best claim loses exactly when the next is too close. */
  lemma BestLosesIff(ps: seq<Proposal>, asset: string, i: nat, margin: real)
    requires i < |ps| && Claims(ps[i], asset)
    requires Sort(ClaimsOn(ps, asset), Down) != []
    requires Sort(ClaimsOn(ps, asset), Down)[0] == Claim(i, ps[i].confidence)
    ensures Claim(i, ps[i].confidence) in Losers(ClaimsOn(ps, asset), margin) <==> !Keeps(ps, i, margin)
  {
    var claims := ClaimsOn(ps, asset);
    var ranked := Sort(claims, Down);
    ClaimsInOrder(ps, asset);
    Ranking(claims);
    forall j: nat | Rival(ps, i, j)
      ensures |ranked| >= 2 && ps[j].confidence <= ranked[1].confidence
      ensures ps[j].confidence < ps[i].confidence || (ps[j].confidence == ps[i].confidence && i < j)
    {
      var other := Claim(j, ps[j].confidence);
      ClaimsAre(ps, asset, other);
      var m :| 0 <= m < |ranked| && ranked[m] == other;
      assert 1 <= m;
    }
    if |ranked| >= 2 {
      ClaimsAre(ps, asset, ranked[1]);
      assert ranked[1] in ranked[1..];
      assert Rival(ps, i, ranked[1].at);
    }
  }

  /** A claim loses exactly when some rival is not clearly beaten. */
  lemma LosesIff(ps: seq<Proposal>, asset: string, i: nat, margin: real)
    requires i < |ps| && Claims(ps[i], asset)
    ensures Claim(i, ps[i].confidence) in Losers(ClaimsOn(ps, asset), margin) <==> !Keeps(ps, i, margin)
  {
    var claims := ClaimsOn(ps, asset);
    var ranked, mine := Sort(claims, Down), Claim(i, ps[i].confidence);
    ClaimsInOrder(ps, asset);
    Ranking(claims);
    ClaimsAre(ps, asset, mine);
    if mine == ranked[0] {
      BestLosesIff(ps, asset, i, margin);
    } else {
      ClaimsAre(ps, asset, ranked[0]);
      assert Rival(ps, i, ranked[0].at) && !Beats(ps, i, ranked[0].at, margin);
      assert mine in ranked[1..];
    }
  }

  // ------------------------------------------------------------------ the contest, in place

  function Held(claims: map<string, seq<Claim>>, asset: string): seq<Claim> {
    if asset in claims then claims[asset] else []
  }

  ghost predicate Grouped(ps: seq<Proposal>, claims: map<string, seq<Claim>>) {
    forall a :: Held(claims, a) == ClaimsOn(ps, a)
  }

  lemma GroupedOn(ps: seq<Proposal>, claims: map<string, seq<Claim>>, p: Proposal)
    requires Grouped(ps, claims)
    ensures p.status == Proposed && p.asset.Some? ==>
              var a := p.asset.value;
              Grouped(ps + [p], claims[a := Held(claims, a) + [Claim(|ps|, p.confidence)]])
    ensures !(p.status == Proposed && p.asset.Some?) ==> Grouped(ps + [p], claims)
  {
    forall a ensures ClaimsOn(ps + [p], a)
                  == ClaimsOn(ps, a) + if Claims(p, a) then [Claim(|ps|, p.confidence)] else []
    {
      assert (ps + [p])[..|ps|] == ps;
    }
  }

  method Group(ps: array<Proposal>) returns (claims: map<string, seq<Claim>>, order: seq<string>)
    ensures Grouped(ps[..], claims)
    ensures (set a | a in order) == claims.Keys && Distinct(order)
  {
    claims, order := map[], [];
    for n := 0 to ps.Length
      invariant Grouped(ps[..n], claims)
      invariant (set a | a in order) == claims.Keys && Distinct(order)
    {
      assert ps[..n + 1] == ps[..n] + [ps[n]];
      GroupedOn(ps[..n], claims, ps[n]);
      if ps[n].status == Proposed && ps[n].asset.Some? {
        var a := ps[n].asset.value;
        if a !in claims {
          assert a !in order;
          order := order + [a];
        }
        claims := claims[a := Held(claims, a) + [Claim(n, ps[n].confidence)]];
      }
    }
    assert ps[..ps.Length] == ps[..];
  }

  ghost predicate Loses(claims: seq<Claim>, margin: real, i: nat) {
    exists c :: c in Losers(claims, margin) && c.at == i
  }

  /** The claims on one asset are settled: the losers are demoted, and no other proposal is touched. */
  method Settle(ps: array<Proposal>, claims: seq<Claim>, margin: real)
    requires forall c :: c in claims ==> c.at < ps.Length
    modifies ps
    ensures forall i :: 0 <= i < ps.Length ==>
              ps[i] == if Loses(claims, margin, i) then Demoted(old(ps[i])) else old(ps[i])
  {
    SortIn(claims);
    var lost := Losers(claims, margin);
    for k := 0 to |lost|
      invariant forall i :: 0 <= i < ps.Length ==>
                  ps[i] == if exists m :: 0 <= m < k && lost[m].at == i then Demoted(old(ps[i])) else old(ps[i])
    {
      ps[lost[k].at] := Demoted(ps[lost[k].at]);
    }
  }

  lemma SortIn(claims: seq<Claim>)
    ensures forall c :: c in Sort(claims, Down) ==> c in claims
  {
    SortPermutes(claims, Down);
    forall c | c in Sort(claims, Down) ensures c in claims {
      assert c in multiset(Sort(claims, Down));
    }
  }

  /** A proposal is among the losers of an asset exactly when it claims it and does not keep it. */
  lemma LostIff(ps: seq<Proposal>, asset: string, i: nat, margin: real)
    requires i < |ps|
    ensures Loses(ClaimsOn(ps, asset), margin, i) <==> Claims(ps[i], asset) && !Keeps(ps, i, margin)
  {
    var claims := ClaimsOn(ps, asset);
    SortIn(claims);
    forall c | c in Losers(claims, margin) && c.at == i
      ensures Claims(ps[i], asset) && c.confidence == ps[i].confidence
    {
      ClaimsAre(ps, asset, c);
    }
    if Claims(ps[i], asset) {
      LosesIff(ps, asset, i, margin);
      var mine := Claim(i, ps[i].confidence);
      assert !Keeps(ps, i, margin) ==> mine in Losers(claims, margin) && mine.at == i;
    }
  }

  /** After the contest every proposal is settled against the rivals it had. */
  method OneToOne(ps: array<Proposal>, margin: real)
    modifies ps
    ensures forall i :: 0 <= i < ps.Length ==> ps[i] == Settled(old(ps[..]), i, margin)
  {
    ghost var before := ps[..];
    var claims, order := Group(ps);
    for k := 0 to |order|
      invariant forall i :: 0 <= i < ps.Length ==>
                  ps[i] == if exists m :: 0 <= m < k && Claims(before[i], order[m]) then Settled(before, i, margin)
                           else before[i]
    {
      assert Held(claims, order[k]) == ClaimsOn(before, order[k]);
      ClaimsInOrder(before, order[k]);
      Settle(ps, claims[order[k]], margin);
      forall i: nat | i < ps.Length
        ensures Loses(claims[order[k]], margin, i) <==> Claims(before[i], order[k]) && !Keeps(before, i, margin)
      {
        LostIff(before, order[k], i, margin);
      }
    }
    forall i: nat | i < ps.Length && before[i].status == Proposed && before[i].asset.Some?
      ensures before[i].asset.value in order
    {
      ClaimsAre(before, before[i].asset.value, Claim(i, before[i].confidence));
      assert Held(claims, before[i].asset.value) == ClaimsOn(before, before[i].asset.value);
    }
  }
}
