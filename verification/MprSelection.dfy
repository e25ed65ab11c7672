/** Multipoint relay selection over the live tables. */
module MprSelection {
  import opened Basics
  import opened Queues
  import opened TwoHop
  import opened Neighbors
  import opened MprSpec

  /** The unexpired 2-hop links behind every entry of the index. */
  function ReachOf(oneHop: Forward, now: int): Reach {
    map v | v in oneHop :: LiveLinks(oneHop, v, now)
  }

  /** One candidate per listed 1-hop neighbour, with the willingness and quality of its tuple. */
  ghost predicate AreCandidates(cands: seq<Candidate>, tuples: map<Addr, Neighbor>, listed: set<Addr>) {
    (forall i, j :: 0 <= i < j < |cands| ==> cands[i].addr != cands[j].addr) &&
    (forall c :: c in cands ==> c.addr in listed && IsCandidate(c, tuples)) &&
    forall v :: v in listed ==> exists c :: c in cands && c.addr == v
  }

  ghost predicate IsCandidate(c: Candidate, tuples: map<Addr, Neighbor>) {
    c.addr in tuples && c.willingness == tuples[c.addr].willingness && c.quality == tuples[c.addr].quality
  }

  /** The weights of one neighbour. With nothing due the purges in between change nothing. */
  method GetCandidate(ns: NeighborSet, v: Addr, now: int) returns (c: Option<Candidate>)
    requires ns.Valid() && Live(ns.ts, now) == ns.ts && Lapsed(ns.ts, now) == {}
    modifies ns, ns.twoHop
    ensures ns.Valid() && ns.ts == old(ns.ts) && ns.tuples == old(ns.tuples)
    ensures ns.twoHop.oneHop == old(ns.twoHop.oneHop)
    ensures if v in ns.tuples then c.Some? && c.value.addr == v && IsCandidate(c.value, ns.tuples) else c == None
  {
    var tuple := ns.GetNeigh(v, now);
    c := None;
    if tuple.Some? {
      var quality := ns.GetLinkQuality(v, now);
      c := Some(Candidate(v, tuple.value.willingness, quality));
    }
  }

  /** get_1hnwset: the listed 1-hop neighbours that are neighbours, with their weights. */
  method GetCandidates(ns: NeighborSet, now: int) returns (cands: seq<Candidate>)
    requires ns.Valid() && Live(ns.ts, now) == ns.ts && Lapsed(ns.ts, now) == {}
    modifies ns, ns.twoHop
    ensures ns.Valid() && ns.ts == old(ns.ts) && ns.tuples == old(ns.tuples)
    ensures ns.twoHop.oneHop == old(ns.twoHop.oneHop)
    ensures AreCandidates(cands, ns.tuples, ns.twoHop.oneHop.Keys)
  {
    var order := Enumerate(ns.twoHop.oneHop.Keys);
    cands := [];
    for i := 0 to |order|
      invariant ns.Valid() && ns.ts == old(ns.ts) && ns.tuples == old(ns.tuples)
      invariant ns.twoHop.oneHop == old(ns.twoHop.oneHop)
      invariant |cands| == i
      invariant forall j :: 0 <= j < i ==> cands[j].addr == order[j] && IsCandidate(cands[j], ns.tuples)
    {
      assert order[i] in ns.twoHop.oneHop.Keys;
      var c := GetCandidate(ns, order[i], now);
      if c.Some? {
        cands := cands + [c.value];
      }
    }
    OneEach(cands, order, ns.tuples, ns.twoHop.oneHop.Keys);
  }

  lemma OneEach(cands: seq<Candidate>, order: seq<Addr>, tuples: map<Addr, Neighbor>, listed: set<Addr>)
    requires forall x :: x in order <==> x in listed
    requires forall i, j :: 0 <= i < j < |order| ==> order[i] != order[j]
    requires |cands| == |order|
    requires forall j :: 0 <= j < |order| ==> cands[j].addr == order[j] && IsCandidate(cands[j], tuples)
    ensures AreCandidates(cands, tuples, listed)
  {
    forall v | v in listed ensures exists c :: c in cands && c.addr == v {
      var j :| 0 <= j < |order| && order[j] == v;
      assert cands[j] in cands;
    }
  }

  /** What the purging getter returns are the unexpired links of the snapshot. */
  lemma GetterIsLive(was: Forward, oneHop: Forward, v: Addr, now: int)
    requires ForwardOk(was) && PurgedFrom(was, oneHop, now)
    ensures var r := if v in oneHop then AfterPurge(oneHop, v, now) else oneHop;
            PurgedFrom(was, r, now) && EntryOf(r, v).nbrs == LinksOf(ReachOf(was, now), v)
  {
    LiveLinksStay(was, oneHop, v, now);
    if v in oneHop {
      PurgeOnce(was, oneHop, v, now);
    }
  }

  /** The 2-hop links of `v` as the purging getter reports them. */
  method ReadLinks(set2: TwoHopSet, v: Addr, now: int, ghost was: Forward) returns (nbrs: map<Addr, nat>)
    requires set2.Valid() && ForwardOk(was) && PurgedFrom(was, set2.oneHop, now)
    modifies set2
    ensures set2.Valid() && PurgedFrom(was, set2.oneHop, now)
    ensures nbrs == LinksOf(ReachOf(was, now), v)
  {
    GetterIsLive(was, set2.oneHop, v, now);
    nbrs := set2.Get2hNeighbors(v, now);
  }

  method ReadQuality(set2: TwoHopSet, v: Addr, w: Addr, now: int, ghost was: Forward) returns (quality: nat)
    requires set2.Valid() && ForwardOk(was) && PurgedFrom(was, set2.oneHop, now)
    modifies set2
    ensures set2.Valid() && PurgedFrom(was, set2.oneHop, now)
    ensures var links := LinksOf(ReachOf(was, now), v); quality == if w in links then links[w] else 0
  {
    GetterIsLive(was, set2.oneHop, v, now);
    quality := set2.GetLinkQuality(v, w, now);
  }

  /** Moving one neighbour from the rest into the sums. */
  lemma SumStep(nbrs: map<Addr, nat>, rest: set<Addr>, unreached: set<Addr>, w: Addr)
    requires rest <= nbrs.Keys && w in rest
    ensures QualitySum(nbrs, rest * unreached) ==
            QualitySum(nbrs, (rest - {w}) * unreached) + if w in unreached then nbrs[w] else 0
    ensures QualitySum(nbrs, rest - unreached) ==
            QualitySum(nbrs, (rest - {w}) - unreached) + if w in unreached then 0 else nbrs[w]
  {
    SetStep(rest, unreached, w);
    if w in unreached {
      QualitySumSplits(nbrs, rest * unreached, w);
    } else {
      QualitySumSplits(nbrs, rest - unreached, w);
    }
  }

  lemma SetStep(rest: set<Addr>, unreached: set<Addr>, w: Addr)
    requires w in rest
    ensures w in unreached ==>
              rest * unreached - {w} == (rest - {w}) * unreached && rest - unreached == (rest - {w}) - unreached
    ensures w !in unreached ==>
              rest - unreached - {w} == (rest - {w}) - unreached && rest * unreached == (rest - {w}) * unreached
  {
  }

  /** set_willing_koeff. */
  method SetWillingKoeff(set2: TwoHopSet, c: Candidate, unreached: set<Addr>, now: int, ghost was: Forward)
      returns (koeff: nat)
    requires set2.Valid() && ForwardOk(was) && PurgedFrom(was, set2.oneHop, now)
    modifies set2
    ensures set2.Valid() && PurgedFrom(was, set2.oneHop, now)
    ensures koeff == Coefficient(ReachOf(was, now), c, unreached)
    ensures koeff == c.willingness * TotalWeight(LinksOf(ReachOf(was, now), c.addr), unreached)
  {
    var nbrs := ReadLinks(set2, c.addr, now, was);
    var uQsum, qsum := 0, 0;
    var rest := nbrs.Keys;
    while rest != {}
      invariant set2.Valid() && PurgedFrom(was, set2.oneHop, now)
      invariant rest <= nbrs.Keys
      invariant uQsum + QualitySum(nbrs, rest * unreached) == QualitySum(nbrs, nbrs.Keys * unreached)
      invariant qsum + QualitySum(nbrs, rest - unreached) == QualitySum(nbrs, nbrs.Keys - unreached)
      decreases rest
    {
      var w :| w in rest;
      var quality := ReadQuality(set2, c.addr, w, now, was);
      SumStep(nbrs, rest, unreached, w);
      if w in unreached {
        uQsum := uQsum + quality;
      } else {
        qsum := qsum + quality;
      }
      rest := rest - {w};
    }
    assert rest * unreached == {} && rest - unreached == {};
    koeff := c.willingness * (uQsum * 3 + qsum);
    CoefficientIsWeight(ReachOf(was, now), c, unreached);
  }

  /** One round's search for the best candidate. */
  method FindBest(set2: TwoHopSet, cands: seq<Candidate>, unreached: set<Addr>, now: int, ghost was: Forward)
      returns (best: nat)
    requires set2.Valid() && ForwardOk(was) && PurgedFrom(was, set2.oneHop, now) && cands != []
    modifies set2
    ensures set2.Valid() && PurgedFrom(was, set2.oneHop, now)
    ensures best < |cands| && best == Best(ReachOf(was, now), cands, unreached)
  {
    best := 0;
    var bestKoeff := SetWillingKoeff(set2, cands[0], unreached, now, was);
    var i := 1;
    while i < |cands|
      invariant 1 <= i <= |cands| && set2.Valid() && PurgedFrom(was, set2.oneHop, now)
      invariant best == BestOf(ReachOf(was, now), cands, unreached, i)
      invariant bestKoeff == Coefficient(ReachOf(was, now), cands[best], unreached)
    {
      var koeff := SetWillingKoeff(set2, cands[i], unreached, now, was);
      if koeff > bestKoeff {
        best, bestKoeff := i, koeff;
      }
      i := i + 1;
    }
  }

  /** select_as_mpr, the part that strikes out what the new relay covers. */
  method StrikeCovered(set2: TwoHopSet, c: Candidate, unreached: set<Addr>, now: int, ghost was: Forward)
      returns (still: set<Addr>)
    requires set2.Valid() && ForwardOk(was) && PurgedFrom(was, set2.oneHop, now)
    modifies set2
    ensures set2.Valid() && PurgedFrom(was, set2.oneHop, now)
    ensures still == Uncovered(ReachOf(was, now), c, unreached)
  {
    var nbrs := ReadLinks(set2, c.addr, now, was);
    still := unreached;
    var rest := nbrs.Keys;
    while rest != {}
      invariant rest <= nbrs.Keys
      invariant still == set w | w in unreached && (w in rest || !Covers(ReachOf(was, now), c, w))
      decreases rest
    {
      var w :| w in rest;
      if w in still && c.quality * nbrs[w] / 100 % 256 >= MPR_QUALITY_THRESHOLD {
        still := still - {w};
      }
      rest := rest - {w};
    }
  }

  lemma MarkOne(tuples: map<Addr, Neighbor>, mprs: set<Addr>, a: Addr)
    requires a in tuples
    ensures var t := WithMprs(tuples, mprs); t[a := t[a].(mpr := true)] == WithMprs(tuples, mprs + {a})
  {
  }

  function AddrsOf(cs: seq<Candidate>): set<Addr> {
    set c | c in cs :: c.addr
  }

  /** Marks one neighbour as relay while nothing is due. */
  method Mark(ns: NeighborSet, a: Addr, now: int, ghost tuples: map<Addr, Neighbor>, ghost mprs: set<Addr>)
    requires ns.Valid() && Live(ns.ts, now) == ns.ts && Lapsed(ns.ts, now) == {}
    requires a in tuples && ns.tuples == WithMprs(tuples, mprs)
    modifies ns, ns.twoHop
    ensures ns.Valid() && ns.ts == old(ns.ts) && ns.twoHop.oneHop == old(ns.twoHop.oneHop)
    ensures ns.tuples == WithMprs(tuples, mprs + {a})
  {
    MarkOne(tuples, mprs, a);
    ns.SetMprStatus(a, true, now);
  }

  /** The purges of the 2-hop set keep the neighbour set valid. */
  lemma PurgesKeepListed(was: Forward, oneHop: Forward, tuples: map<Addr, Neighbor>, now: int)
    requires ForwardOk(was) && PurgedFrom(was, oneHop, now)
    requires forall v :: v in was ==> v in tuples
    ensures forall v :: v in oneHop ==> v in tuples
  {
    forall v | v in oneHop ensures v in tuples { LiveLinksStay(was, oneHop, v, now); }
  }

  /** select_as_mpr: marks the candidate, then strikes out the 2-hop neighbours it covers. */
  method SelectAsMpr(ns: NeighborSet, c: Candidate, unreached: set<Addr>, now: int, ghost was: Forward,
                     ghost tuples: map<Addr, Neighbor>, ghost mprs: set<Addr>) returns (still: set<Addr>)
    requires ns.Valid() && Live(ns.ts, now) == ns.ts && Lapsed(ns.ts, now) == {}
    requires ForwardOk(was) && PurgedFrom(was, ns.twoHop.oneHop, now) && forall v :: v in was ==> v in tuples
    requires c.addr in tuples && ns.tuples == WithMprs(tuples, mprs)
    modifies ns, ns.twoHop
    ensures ns.Valid() && ns.ts == old(ns.ts) && PurgedFrom(was, ns.twoHop.oneHop, now)
    ensures ns.tuples == WithMprs(tuples, mprs + {c.addr})
    ensures still == Uncovered(ReachOf(was, now), c, unreached)
  {
    Mark(ns, c.addr, now, tuples, mprs);
    still := StrikeCovered(ns.twoHop, c, unreached, now, was);
    PurgesKeepListed(was, ns.twoHop.oneHop, tuples, now);
  }

  method FindBestIn(ns: NeighborSet, cands: seq<Candidate>, unreached: set<Addr>, now: int, ghost was: Forward)
      returns (best: nat)
    requires ns.Valid() && cands != []
    requires ForwardOk(was) && PurgedFrom(was, ns.twoHop.oneHop, now) && forall v :: v in was ==> v in ns.tuples
    modifies ns.twoHop
    ensures ns.Valid() && PurgedFrom(was, ns.twoHop.oneHop, now)
    ensures best < |cands| && best == Best(ReachOf(was, now), cands, unreached)
  {
    best := FindBest(ns.twoHop, cands, unreached, now, was);
    PurgesKeepListed(was, ns.twoHop.oneHop, ns.tuples, now);
  }

  /** Between two rounds: `picks` so far, `rest` and `unreached` still to go. */
  ghost predicate BetweenRounds(reach: Reach, all: seq<Candidate>, twoHops: set<Addr>, picks: seq<Candidate>,
                                rest: seq<Candidate>, unreached: set<Addr>) {
    Greedy(reach, all, twoHops) == picks + Greedy(reach, rest, unreached) &&
    multiset(all) == multiset(picks) + multiset(rest)
  }

  lemma RoundKeeps(reach: Reach, all: seq<Candidate>, twoHops: set<Addr>, picks: seq<Candidate>,
                   rest: seq<Candidate>, unreached: set<Addr>)
    requires BetweenRounds(reach, all, twoHops, picks, rest, unreached) && unreached != {} && rest != []
    ensures var i := Best(reach, rest, unreached);
            rest[i] in all && AddrsOf(picks + [rest[i]]) == AddrsOf(picks) + {rest[i].addr} &&
            BetweenRounds(reach, all, twoHops, picks + [rest[i]], Without(rest, i),
                          Uncovered(reach, rest[i], unreached))
  {
    var i := Best(reach, rest, unreached);
    PickMoves(all, picks, rest, i);
    assert picks + ([rest[i]] + Greedy(reach, Without(rest, i), Uncovered(reach, rest[i], unreached))) ==
           picks + [rest[i]] + Greedy(reach, Without(rest, i), Uncovered(reach, rest[i], unreached));
  }

  /** Moving one candidate from the rest to the picks. */
  lemma PickMoves(all: seq<Candidate>, picks: seq<Candidate>, rest: seq<Candidate>, i: nat)
    requires i < |rest| && multiset(all) == multiset(picks) + multiset(rest)
    ensures rest[i] in all && AddrsOf(picks + [rest[i]]) == AddrsOf(picks) + {rest[i].addr}
    ensures multiset(all) == multiset(picks + [rest[i]]) + multiset(Without(rest, i))
  {
    var c := rest[i];
    assert c in multiset(rest);
    assert c in multiset(all);
    WithoutLoses(rest, i);
    AddrsGrow(picks, c);
  }

  lemma AddrsGrow(cs: seq<Candidate>, c: Candidate)
    ensures AddrsOf(cs + [c]) == AddrsOf(cs) + {c.addr}
  {
    forall d ensures d in cs + [c] <==> d in cs || d == c {
    }
    assert c in cs + [c];
  }

  /** The selection rounds. */
  method RunRounds(ns: NeighborSet, all: seq<Candidate>, twoHops: set<Addr>, now: int, ghost was: Forward,
                   ghost tuples: map<Addr, Neighbor>) returns (rest: seq<Candidate>, ghost picks: seq<Candidate>)
    requires ns.Valid() && Live(ns.ts, now) == ns.ts && Lapsed(ns.ts, now) == {}
    requires ForwardOk(was) && PurgedFrom(was, ns.twoHop.oneHop, now) && forall v :: v in was ==> v in tuples
    requires forall c :: c in all ==> c.addr in tuples
    requires ns.tuples == WithMprs(tuples, {})
    modifies ns, ns.twoHop
    ensures ns.Valid() && ns.ts == old(ns.ts) && PurgedFrom(was, ns.twoHop.oneHop, now)
    ensures picks == Greedy(ReachOf(was, now), all, twoHops)
    ensures multiset(all) == multiset(picks) + multiset(rest)
    ensures ns.tuples == WithMprs(tuples, AddrsOf(picks))
  {
    rest, picks := all, [];
    var unreached := twoHops;
    while unreached != {} && rest != []
      invariant ns.Valid() && ns.ts == old(ns.ts) && PurgedFrom(was, ns.twoHop.oneHop, now)
      invariant BetweenRounds(ReachOf(was, now), all, twoHops, picks, rest, unreached)
      invariant ns.tuples == WithMprs(tuples, AddrsOf(picks))
      decreases |rest|
    {
      var i := FindBestIn(ns, rest, unreached, now, was);
      RoundKeeps(ReachOf(was, now), all, twoHops, picks, rest, unreached);
      unreached := SelectAsMpr(ns, rest[i], unreached, now, was, tuples, AddrsOf(picks));
      rest, picks := Without(rest, i), picks + [rest[i]];
    }
  }

  /** Whoever was not picked but is always willing becomes a relay as well. */
  method MarkAlwaysWilling(ns: NeighborSet, rest: seq<Candidate>, now: int, ghost tuples: map<Addr, Neighbor>,
                           ghost mprs: set<Addr>)
    requires ns.Valid() && Live(ns.ts, now) == ns.ts && Lapsed(ns.ts, now) == {}
    requires forall c :: c in rest ==> c.addr in tuples
    requires ns.tuples == WithMprs(tuples, mprs)
    modifies ns, ns.twoHop
    ensures ns.Valid() && ns.ts == old(ns.ts) && ns.twoHop.oneHop == old(ns.twoHop.oneHop)
    ensures ns.tuples == WithMprs(tuples, mprs + AlwaysWilling(rest))
  {
    ghost var marked := mprs;
    for i := 0 to |rest|
      invariant ns.Valid() && ns.ts == old(ns.ts) && ns.twoHop.oneHop == old(ns.twoHop.oneHop)
      invariant marked == mprs + AlwaysWilling(rest[..i])
      invariant ns.tuples == WithMprs(tuples, marked)
    {
      assert rest[..i + 1] == rest[..i] + [rest[i]];
      if rest[i].willingness >= WILL_ALWAYS {
        Mark(ns, rest[i].addr, now, tuples, marked);
        marked := marked + {rest[i].addr};
      }
    }
    assert rest[..|rest|] == rest;
  }

  function AlwaysWilling(cs: seq<Candidate>): set<Addr> {
    set c | c in cs && c.willingness >= WILL_ALWAYS :: c.addr
  }

  lemma RelaysSplit(all: seq<Candidate>, picks: seq<Candidate>, rest: seq<Candidate>)
    requires multiset(all) == multiset(picks) + multiset(rest)
    ensures AddrsOf(picks) + AlwaysWilling(rest) == Relays(all, picks)
  {
    forall c ensures c in all <==> c in picks || c in rest {
      assert c in all <==> c in multiset(all);
      assert c in picks <==> c in multiset(picks);
      assert c in rest <==> c in multiset(rest);
    }
  }

  /** olsr_db_rc_chose_mprset. What is due is purged first; from there the relays are those of the
      greedy selection over the unexpired links, starting with every listed 2-hop neighbour
      unreached, plus the always-willing candidates. */
  method ChooseMprSet(ns: NeighborSet, now: int)
      returns (ghost cands: seq<Candidate>, ghost twoHops: set<Addr>)
    requires ns.Valid()
    modifies ns, ns.twoHop
    ensures ns.Valid() && ns.ts == Live(old(ns.ts), now)
    ensures var lapsed := Lapsed(old(ns.ts), now);
            var tuples, was := old(ns.tuples) - lapsed, old(ns.twoHop.oneHop) - lapsed;
            Selected(tuples, was, now, cands, twoHops, ns.tuples, ns.twoHop.oneHop)
  {
    PurgedIsQuiet(ns.ts, now);
    ns.RemoveAllMprs(now);
    ghost var tuples := old(ns.tuples) - Lapsed(old(ns.ts), now);
    ghost var was := ns.twoHop.oneHop;
    forall a ensures EntryPurgedFrom(was, was, a, now) { }
    var unreached := ns.twoHop.twoHop.Keys;
    twoHops := unreached;
    ListedAreKeys(was, ns.twoHop.twoHop);
    var all := GetCandidates(ns, now);
    cands := all;
    var rest, picks := RunRounds(ns, all, unreached, now, was, tuples);
    forall c | c in rest ensures c.addr in tuples {
      assert c in multiset(rest);
      assert c in multiset(all);
    }
    MarkAlwaysWilling(ns, rest, now, tuples, AddrsOf(picks));
    RelaysSplit(all, picks, rest);
  }

  /** The outcome of a selection: candidates and 2-hop neighbours as listed, relays as the greedy
      rounds and the always-willing rule say, and only due 2-hop records gone. */
  ghost predicate Selected(tuples: map<Addr, Neighbor>, was: Forward, now: int, cands: seq<Candidate>,
                           twoHops: set<Addr>,
                           after: map<Addr, Neighbor>, oneHop: Forward) {
    ForwardOk(was) && PurgedFrom(was, oneHop, now) &&
    AreCandidates(cands, tuples, was.Keys) &&
    (forall w :: w in twoHops <==> exists v :: Fwd(was, v, w).Some?) &&
    after == WithMprs(tuples, Relays(cands, Greedy(ReachOf(was, now), cands, twoHops)))
  }

  lemma ListedAreKeys(oneHop: Forward, twoHop: Backward)
    requires Agree(oneHop, twoHop) && BackwardOk(twoHop)
    ensures forall w :: w in twoHop <==> exists v :: Fwd(oneHop, v, w).Some?
  {
    forall w ensures w in twoHop <==> exists v :: Fwd(oneHop, v, w).Some? {
      if w in twoHop {
        var v :| v in twoHop[w];
        assert Fwd(oneHop, v, w) == Back(twoHop, v, w);
      }
      if v :| Fwd(oneHop, v, w).Some? {
        assert Fwd(oneHop, v, w) == Back(twoHop, v, w);
      }
    }
  }

  /** Neighbour v reaches w at the threshold over links that have not expired. */
  predicate ReachesWell(tuples: map<Addr, Neighbor>, oneHop: Forward, now: int, v: Addr, w: Addr) {
    v in tuples && w in LiveLinks(oneHop, v, now) &&
    tuples[v].quality * LiveLinks(oneHop, v, now)[w] / 100 % 256 >= 75
  }

  /** Coverage in the tables a selection leaves: whoever a neighbour reaches at the threshold, a
      relay reaches at the threshold. */
  lemma SelectionCovers(tuples: map<Addr, Neighbor>, was: Forward, now: int, cands: seq<Candidate>, twoHops: set<Addr>,
                        after: map<Addr, Neighbor>, oneHop: Forward, v: Addr, w: Addr) returns (m: Addr)
    requires Selected(tuples, was, now, cands, twoHops, after, oneHop)
    requires ReachesWell(after, oneHop, now, v, w)
    ensures ReachesWell(after, oneHop, now, m, w) && after[m].mpr
  {
    var reach := ReachOf(was, now);
    LiveLinksStay(was, oneHop, v, now);
    assert v in was && Fwd(was, v, w).Some?;
    var c :| c in cands && c.addr == v;
    assert Covers(reach, c, w);
    RelaysCover(reach, cands, twoHops, c, w);
    var r :| r in cands && r.addr in Relays(cands, Greedy(reach, cands, twoHops)) && Covers(reach, r, w);
    m := r.addr;
    LiveLinksStay(was, oneHop, m, now);
  }

  /** Every listed 2-hop neighbour is reached at the threshold, over links that have not expired. */
  ghost predicate AllReachable(tuples: map<Addr, Neighbor>, oneHop: Forward, now: int, twoHops: set<Addr>) {
    forall w :: w in twoHops ==> exists v :: ReachesWell(tuples, oneHop, now, v, w)
  }

  /** After a selection the relays are listed neighbours, and every always-willing listed neighbour is
      one. If every listed 2-hop neighbour is reached at the threshold by a neighbour, each is reached so
      by a relay; if one is not, all listed neighbours are relays. */
  lemma SelectionOutcome(tuples: map<Addr, Neighbor>, was: Forward, now: int, cands: seq<Candidate>, twoHops: set<Addr>,
                         after: map<Addr, Neighbor>, oneHop: Forward)
    requires Selected(tuples, was, now, cands, twoHops, after, oneHop)
    ensures forall a :: a in after && after[a].mpr ==> a in was
    ensures forall a :: a in was && tuples[a].willingness >= 7 ==> after[a].mpr
    ensures if AllReachable(after, oneHop, now, twoHops) then
              forall w :: w in twoHops ==>
                            exists m :: m in after && after[m].mpr && ReachesWell(after, oneHop, now, m, w)
            else forall a :: a in was ==> after[a].mpr
  {
    var reach := ReachOf(was, now);
    RelaysAreListed(tuples, was, now, cands, twoHops, after, oneHop);
    WhichWayItEnds(reach, cands, twoHops);
    forall w | w in twoHops
      ensures (exists c :: c in cands && Covers(reach, c, w)) <==> exists v :: ReachesWell(after, oneHop, now, v, w)
    {
      ReachedIsCovered(tuples, was, now, cands, twoHops, after, oneHop, w);
    }
    if AllReachable(after, oneHop, now, twoHops) {
      forall w | w in twoHops ensures exists m :: m in after && after[m].mpr && ReachesWell(after, oneHop, now, m, w) {
        var m := PickReaches(reach, cands, twoHops, w);
        RelayReaches(tuples, was, now, cands, twoHops, after, oneHop, m, w);
      }
    } else {
      AllAreRelays(tuples, was, now, cands, twoHops, after, oneHop);
    }
  }

  /** Nobody else is a relay: only who was picked in a round, or is listed and always willing. */
  lemma RelaysAreExactly(tuples: map<Addr, Neighbor>, was: Forward, now: int, cands: seq<Candidate>,
                         twoHops: set<Addr>, after: map<Addr, Neighbor>, oneHop: Forward, a: Addr)
    requires Selected(tuples, was, now, cands, twoHops, after, oneHop) && a in after
    ensures a in tuples && after[a] == tuples[a].(mpr := after[a].mpr)
    ensures after[a].mpr <==> (exists c :: c in Greedy(ReachOf(was, now), cands, twoHops) && c.addr == a) ||
                              (a in was && tuples[a].willingness >= 7)
  {
    if a in was {
      var c :| c in cands && c.addr == a;
    }
  }

  lemma RelaysAreListed(tuples: map<Addr, Neighbor>, was: Forward, now: int, cands: seq<Candidate>, twoHops: set<Addr>,
                        after: map<Addr, Neighbor>, oneHop: Forward)
    requires Selected(tuples, was, now, cands, twoHops, after, oneHop)
    ensures forall a :: a in after && after[a].mpr ==> a in was
    ensures forall a :: a in was ==> a in after && (tuples[a].willingness >= 7 ==> after[a].mpr)
  {
    RelaysAreCandidates(ReachOf(was, now), cands, twoHops);
    forall a | a in was ensures a in after && (tuples[a].willingness >= 7 ==> after[a].mpr) {
      var c :| c in cands && c.addr == a;
    }
  }

  lemma AllAreRelays(tuples: map<Addr, Neighbor>, was: Forward, now: int, cands: seq<Candidate>, twoHops: set<Addr>,
                     after: map<Addr, Neighbor>, oneHop: Forward)
    requires Selected(tuples, was, now, cands, twoHops, after, oneHop)
    requires multiset(Greedy(ReachOf(was, now), cands, twoHops)) == multiset(cands)
    ensures forall a :: a in was ==> a in after && after[a].mpr
  {
    forall a | a in was ensures a in after && after[a].mpr {
      var c :| c in cands && c.addr == a;
      SameMembers(cands, Greedy(ReachOf(was, now), cands, twoHops), c);
    }
  }

  /** Candidates cover what neighbours reach. */
  lemma ReachedIsCovered(tuples: map<Addr, Neighbor>, was: Forward, now: int, cands: seq<Candidate>, twoHops: set<Addr>,
                         after: map<Addr, Neighbor>, oneHop: Forward, w: Addr)
    requires Selected(tuples, was, now, cands, twoHops, after, oneHop)
    ensures (exists c :: c in cands && Covers(ReachOf(was, now), c, w)) <==>
            exists v :: ReachesWell(after, oneHop, now, v, w)
  {
    if c :| c in cands && Covers(ReachOf(was, now), c, w) {
      LiveLinksStay(was, oneHop, c.addr, now);
      assert ReachesWell(after, oneHop, now, c.addr, w);
    }
    if v :| ReachesWell(after, oneHop, now, v, w) {
      LiveLinksStay(was, oneHop, v, now);
      var c :| c in cands && c.addr == v;
      assert Covers(ReachOf(was, now), c, w);
    }
  }

  /** A record that has expired but was not purged still lists its 2-hop neighbour. If nobody else
      reaches that one, all listed neighbours become relays for its sake. */
  lemma ExpiredRecordMakesAllRelays(tuples: map<Addr, Neighbor>, was: Forward, now: int, cands: seq<Candidate>,
                                    twoHops: set<Addr>, after: map<Addr, Neighbor>, oneHop: Forward, v: Addr, w: Addr)
    requires Selected(tuples, was, now, cands, twoHops, after, oneHop)
    requires Fwd(was, v, w).Some? && forall u :: w !in LiveLinks(was, u, now)
    ensures forall a :: a in was ==> after[a].mpr
  {
    SelectionOutcome(tuples, was, now, cands, twoHops, after, oneHop);
    assert w in twoHops;
    forall u ensures !ReachesWell(after, oneHop, now, u, w) {
      LiveLinksStay(was, oneHop, u, now);
    }
  }

  lemma SameMembers(s: seq<Candidate>, t: seq<Candidate>, c: Candidate)
    requires multiset(t) <= multiset(s)
    ensures c in t ==> c in s
    ensures multiset(t) == multiset(s) && c in s ==> c in t
  {
    assert c in s <==> c in multiset(s);
    assert c in t <==> c in multiset(t);
  }

  lemma PickReaches(reach: Reach, cands: seq<Candidate>, twoHops: set<Addr>, w: Addr) returns (m: Candidate)
    requires w in twoHops && Left(reach, Greedy(reach, cands, twoHops), twoHops) == {}
    ensures m in cands && m.addr in Relays(cands, Greedy(reach, cands, twoHops)) && Covers(reach, m, w)
  {
    var picks := Greedy(reach, cands, twoHops);
    assert w !in Left(reach, picks, twoHops);
    m :| m in picks && Covers(reach, m, w);
    PicksAreCandidates(reach, cands, twoHops);
    SameMembers(cands, picks, m);
  }

  /** A relay that covers, covers in the tables left behind. */
  lemma RelayReaches(tuples: map<Addr, Neighbor>, was: Forward, now: int, cands: seq<Candidate>, twoHops: set<Addr>,
                     after: map<Addr, Neighbor>, oneHop: Forward, m: Candidate, w: Addr)
    requires Selected(tuples, was, now, cands, twoHops, after, oneHop)
    requires m in cands && Covers(ReachOf(was, now), m, w)
    requires m.addr in Relays(cands, Greedy(ReachOf(was, now), cands, twoHops))
    ensures m.addr in after && after[m.addr].mpr && ReachesWell(after, oneHop, now, m.addr, w)
  {
    LiveLinksStay(was, oneHop, m.addr, now);
  }
}
