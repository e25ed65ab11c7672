/** Greedy multipoint relay selection as a function: which candidates the rounds pick, in order. */
module MprSpec {
  import opened Basics

  const MPR_QUALITY_THRESHOLD: nat := 75
  const WILL_ALWAYS: nat := 7

  datatype Candidate = Candidate(addr: Addr, willingness: nat, quality: nat)

  /** The unexpired 2-hop links of each 1-hop neighbour. */
  type Reach = map<Addr, map<Addr, nat>>

  function LinksOf(reach: Reach, v: Addr): map<Addr, nat> {
    if v in reach then reach[v] else map[]
  }

  /** The quality of a two-hop path, computed in a byte. */
  function PathQuality(first: nat, second: nat): nat {
    first * second / 100 % 256
  }

  /** Candidate `c` reaches `w` well enough. */
  predicate Covers(reach: Reach, c: Candidate, w: Addr) {
    w in LinksOf(reach, c.addr) && PathQuality(c.quality, LinksOf(reach, c.addr)[w]) >= MPR_QUALITY_THRESHOLD
  }

  function Uncovered(reach: Reach, c: Candidate, unreached: set<Addr>): set<Addr> {
    set w | w in unreached && !Covers(reach, c, w)
  }

  /** The sum of link qualities over a set of 2-hop neighbours. */
  ghost function QualitySum(links: map<Addr, nat>, s: set<Addr>): nat
    requires s <= links.Keys
    decreases |s|
  {
    if s == {} then 0 else var w :| w in s; links[w] + QualitySum(links, s - {w})
  }

  /** The sum does not depend on the order of summation. */
  lemma {:induction false} QualitySumSplits(links: map<Addr, nat>, s: set<Addr>, w: Addr)
    requires s <= links.Keys && w in s
    ensures QualitySum(links, s) == links[w] + QualitySum(links, s - {w})
    decreases |s|
  {
    var v :| v in s && QualitySum(links, s) == links[v] + QualitySum(links, s - {v});
    if v != w {
      QualitySumSplits(links, s - {v}, w);
      QualitySumSplits(links, s - {w}, v);
      assert s - {v} - {w} == s - {w} - {v};
    }
  }

  /** Willingness times three parts still unreached quality and one part reached quality. */
  ghost function Coefficient(reach: Reach, c: Candidate, unreached: set<Addr>): nat {
    var links := LinksOf(reach, c.addr);
    c.willingness * (3 * QualitySum(links, links.Keys * unreached) + QualitySum(links, links.Keys - unreached))
  }

  /** What a link to `w` of this quality weighs: threefold while `w` is unreached. */
  function Weight(quality: nat, w: Addr, unreached: set<Addr>): nat {
    if w in unreached then 3 * quality else quality
  }

  /** The weights of all links. */
  ghost function TotalWeight(links: map<Addr, nat>, unreached: set<Addr>): nat
    decreases |links|
  {
    if links == map[] then 0
    else var w :| w in links; Weight(links[w], w, unreached) + TotalWeight(links - {w}, unreached)
  }

  /** The coefficient is the willingness times that total, however the sum is taken. */
  lemma {:induction false} CoefficientIsWeight(reach: Reach, c: Candidate, unreached: set<Addr>)
    ensures Coefficient(reach, c, unreached) == c.willingness * TotalWeight(LinksOf(reach, c.addr), unreached)
  {
    SumsAreWeight(LinksOf(reach, c.addr), unreached);
  }

  lemma {:induction false} SumsAreWeight(links: map<Addr, nat>, unreached: set<Addr>)
    ensures TotalWeight(links, unreached) ==
            3 * QualitySum(links, links.Keys * unreached) + QualitySum(links, links.Keys - unreached)
    decreases |links|
  {
    if links != map[] {
      var w :| w in links && TotalWeight(links, unreached) ==
                             Weight(links[w], w, unreached) + TotalWeight(links - {w}, unreached);
      var rest := links.Keys - {w};
      assert (links - {w}).Keys == rest;
      SumsAreWeight(links - {w}, unreached);
      SumOfRest(links, w, rest * unreached);
      SumOfRest(links, w, rest - unreached);
      SumsSplit(links, unreached, w);
    }
  }

  lemma SumsSplit(links: map<Addr, nat>, unreached: set<Addr>, w: Addr)
    requires w in links
    ensures var rest := links.Keys - {w};
            3 * QualitySum(links, links.Keys * unreached) + QualitySum(links, links.Keys - unreached) ==
            3 * QualitySum(links, rest * unreached) + QualitySum(links, rest - unreached) +
            Weight(links[w], w, unreached)
  {
    var rest := links.Keys - {w};
    if w in unreached {
      assert links.Keys * unreached - {w} == rest * unreached && links.Keys - unreached == rest - unreached;
      QualitySumSplits(links, links.Keys * unreached, w);
    } else {
      assert links.Keys - unreached - {w} == rest - unreached && links.Keys * unreached == rest * unreached;
      QualitySumSplits(links, links.Keys - unreached, w);
    }
  }

  lemma {:induction false} SumOfRest(links: map<Addr, nat>, w: Addr, s: set<Addr>)
    requires s <= links.Keys && w !in s
    ensures QualitySum(links - {w}, s) == QualitySum(links, s)
    decreases |s|
  {
    if s != {} {
      var v :| v in s;
      QualitySumSplits(links, s, v);
      QualitySumSplits(links - {w}, s, v);
      SumOfRest(links, w, s - {v});
    }
  }

  /** Striking out a listed 2-hop neighbour that was unreached lowers the coefficient by twice the
      willingness times its link quality; striking out any other changes nothing. With nobody unreached
      the coefficient is the willingness times the plain sum of the link qualities. */
  lemma StrikingOut(reach: Reach, c: Candidate, unreached: set<Addr>, w: Addr)
    ensures var links := LinksOf(reach, c.addr);
            Coefficient(reach, c, unreached) == Coefficient(reach, c, unreached - {w}) +
              if w in links && w in unreached then 2 * (c.willingness * links[w]) else 0
    ensures var links := LinksOf(reach, c.addr);
            links.Keys !! unreached ==>
              Coefficient(reach, c, unreached) == c.willingness * QualitySum(links, links.Keys)
  {
    var links := LinksOf(reach, c.addr);
    var still := unreached - {w};
    if w in links && w in unreached {
      assert links.Keys * unreached - {w} == links.Keys * still;
      assert links.Keys - still - {w} == links.Keys - unreached;
      QualitySumSplits(links, links.Keys * unreached, w);
      QualitySumSplits(links, links.Keys - still, w);
      Distributes(c.willingness, QualitySum(links, links.Keys * still), QualitySum(links, links.Keys - unreached),
                  links[w]);
    } else {
      assert links.Keys * unreached == links.Keys * still && links.Keys - still == links.Keys - unreached;
    }
    if links.Keys !! unreached {
      assert links.Keys * unreached == {} && links.Keys - unreached == links.Keys;
    }
  }

  lemma Distributes(a: nat, x: nat, y: nat, q: nat)
    ensures a * (3 * (q + x) + y) == a * (3 * x + (q + y)) + 2 * (a * q)
  {
  }

  /** The first candidate of the largest coefficient among the first `n`. */
  ghost function BestOf(reach: Reach, cands: seq<Candidate>, unreached: set<Addr>, n: nat): (i: nat)
    requires 0 < n <= |cands|
    ensures i < n
  {
    if n == 1 then 0
    else
      var i := BestOf(reach, cands, unreached, n - 1);
      if Coefficient(reach, cands[n - 1], unreached) > Coefficient(reach, cands[i], unreached) then n - 1 else i
  }

  ghost function Best(reach: Reach, cands: seq<Candidate>, unreached: set<Addr>): (i: nat)
    requires cands != []
    ensures i < |cands|
  {
    BestOf(reach, cands, unreached, |cands|)
  }

  /** The candidates picked, round by round. */
  ghost function Greedy(reach: Reach, cands: seq<Candidate>, unreached: set<Addr>): seq<Candidate>
    decreases |cands|
  {
    if unreached == {} || cands == [] then []
    else
      var i := Best(reach, cands, unreached);
      [cands[i]] + Greedy(reach, Without(cands, i), Uncovered(reach, cands[i], unreached))
  }

  /** What a list of picks leaves unreached. */
  ghost function Left(reach: Reach, picks: seq<Candidate>, unreached: set<Addr>): set<Addr> {
    set w | w in unreached && forall c :: c in picks ==> !Covers(reach, c, w)
  }

  /** The candidates not picked, if always willing, are relays too. */
  ghost function Relays(cands: seq<Candidate>, picks: seq<Candidate>): set<Addr> {
    (set c | c in picks :: c.addr) + (set c | c in cands && c.willingness >= WILL_ALWAYS :: c.addr)
  }

  // ---------------------------------------------------------------- properties of the selection

  lemma {:induction false} BestIsMaximal(reach: Reach, cands: seq<Candidate>, unreached: set<Addr>, n: nat, j: nat)
    requires j < n <= |cands|
    ensures var i := BestOf(reach, cands, unreached, n);
            Coefficient(reach, cands[j], unreached) <= Coefficient(reach, cands[i], unreached) &&
            (j < i ==> Coefficient(reach, cands[j], unreached) < Coefficient(reach, cands[i], unreached))
  {
    if n > 1 {
      var i := BestOf(reach, cands, unreached, n - 1);
      if j < n - 1 {
        BestIsMaximal(reach, cands, unreached, n - 1, j);
      } else {
        BestIsMaximal(reach, cands, unreached, n - 1, i);
      }
    }
  }

  lemma LeftAfter(reach: Reach, c: Candidate, tail: seq<Candidate>, unreached: set<Addr>)
    ensures Left(reach, [c] + tail, unreached) == Left(reach, tail, Uncovered(reach, c, unreached))
  {
  }

  lemma WithoutLoses<T>(s: seq<T>, i: nat)
    requires i < |s|
    ensures multiset(s) == multiset{s[i]} + multiset(Without(s, i))
  {
    assert s == s[..i] + [s[i]] + s[i + 1..];
  }

  /** Picks are candidates, none twice, so there are no more rounds than candidates. */
  lemma {:induction false} PicksAreCandidates(reach: Reach, cands: seq<Candidate>, unreached: set<Addr>)
    ensures var picks := Greedy(reach, cands, unreached);
            |picks| <= |cands| && multiset(picks) <= multiset(cands)
    decreases |cands|
  {
    if unreached != {} && cands != [] {
      var i := Best(reach, cands, unreached);
      var rest := Without(cands, i);
      PicksAreCandidates(reach, rest, Uncovered(reach, cands[i], unreached));
      WithoutLoses(cands, i);
    }
  }

  /** How the rounds end: with every 2-hop neighbour reached at the threshold, or with every
      candidate a relay. */
  lemma {:induction false} Dichotomy(reach: Reach, cands: seq<Candidate>, unreached: set<Addr>)
    ensures var picks := Greedy(reach, cands, unreached);
            Left(reach, picks, unreached) == {} || multiset(picks) == multiset(cands)
    decreases |cands|
  {
    if unreached != {} && cands != [] {
      var i := Best(reach, cands, unreached);
      var rest, still := Without(cands, i), Uncovered(reach, cands[i], unreached);
      Dichotomy(reach, rest, still);
      var tail := Greedy(reach, rest, still);
      LeftAfter(reach, cands[i], tail, unreached);
      WithoutLoses(cands, i);
    }
  }

  /** Which way the rounds end: nobody is left unreached exactly if each 2-hop neighbour is reached at
      the threshold by some candidate; if one is not, every candidate becomes a relay. */
  lemma WhichWayItEnds(reach: Reach, cands: seq<Candidate>, unreached: set<Addr>)
    ensures var picks := Greedy(reach, cands, unreached);
            (Left(reach, picks, unreached) == {} <==>
             forall w :: w in unreached ==> exists c :: c in cands && Covers(reach, c, w)) &&
            (Left(reach, picks, unreached) != {} ==> multiset(picks) == multiset(cands))
  {
    var picks := Greedy(reach, cands, unreached);
    Dichotomy(reach, cands, unreached);
    PicksAreCandidates(reach, cands, unreached);
    if Left(reach, picks, unreached) == {} {
      forall w | w in unreached ensures exists c :: c in cands && Covers(reach, c, w) {
        assert w !in Left(reach, picks, unreached);
        var c :| c in picks && Covers(reach, c, w);
        assert c in multiset(picks);
        assert c in multiset(cands);
      }
    } else {
      var w :| w in Left(reach, picks, unreached);
      forall c | c in cands ensures !Covers(reach, c, w) {
        assert c in multiset(cands);
        assert c in multiset(picks);
      }
    }
  }

  /** Coverage: whoever some candidate reaches at the threshold is reached at the threshold by a
      relay. */
  lemma RelaysCover(reach: Reach, cands: seq<Candidate>, unreached: set<Addr>, v: Candidate, w: Addr)
    requires v in cands && w in unreached && Covers(reach, v, w)
    ensures exists m :: m in cands && m.addr in Relays(cands, Greedy(reach, cands, unreached)) && Covers(reach, m, w)
  {
    var picks := Greedy(reach, cands, unreached);
    Dichotomy(reach, cands, unreached);
    PicksAreCandidates(reach, cands, unreached);
    if Left(reach, picks, unreached) == {} {
      assert w !in Left(reach, picks, unreached);
      var m :| m in picks && Covers(reach, m, w);
      assert m in multiset(picks);
      assert m in multiset(cands);
    } else {
      assert v in multiset(cands);
      assert v in multiset(picks);
    }
  }

  /** The state before round k: candidates remaining and 2-hop neighbours unreached. */
  ghost function Remaining(reach: Reach, cands: seq<Candidate>, unreached: set<Addr>, k: nat)
    : (seq<Candidate>, set<Addr>)
    requires k <= |Greedy(reach, cands, unreached)|
    decreases k
  {
    if k == 0 then (cands, unreached)
    else
      var i := Best(reach, cands, unreached);
      Remaining(reach, Without(cands, i), Uncovered(reach, cands[i], unreached), k - 1)
  }

  /** Greediness: in every round the pick is a remaining candidate of the largest coefficient, and
      somebody was still unreached: willingness times the weight of the links, unreached ends counting
      threefold. */
  lemma {:induction false} EachPickIsGreedy(reach: Reach, cands: seq<Candidate>, unreached: set<Addr>, k: nat,
                                            c: Candidate)
    requires k < |Greedy(reach, cands, unreached)|
    requires c in Remaining(reach, cands, unreached, k).0
    ensures var (cs, us) := Remaining(reach, cands, unreached, k);
            var pick := Greedy(reach, cands, unreached)[k];
            pick in cs && us != {} &&
            us == Left(reach, Greedy(reach, cands, unreached)[..k], unreached) &&
            c.willingness * TotalWeight(LinksOf(reach, c.addr), us) <=
            pick.willingness * TotalWeight(LinksOf(reach, pick.addr), us)
    decreases k
  {
    var i := Best(reach, cands, unreached);
    var picks := Greedy(reach, cands, unreached);
    if k == 0 {
      var j :| 0 <= j < |cands| && cands[j] == c;
      BestIsMaximal(reach, cands, unreached, |cands|, j);
      CoefficientIsWeight(reach, c, unreached);
      CoefficientIsWeight(reach, cands[i], unreached);
      assert Left(reach, [], unreached) == unreached;
    } else {
      var rest, still := Without(cands, i), Uncovered(reach, cands[i], unreached);
      EachPickIsGreedy(reach, rest, still, k - 1, c);
      var tail := Greedy(reach, rest, still);
      assert picks == [cands[i]] + tail;
      assert picks[..k] == [cands[i]] + tail[..k - 1];
      LeftAfter(reach, cands[i], tail[..k - 1], unreached);
    }
  }

  /** Relays are candidates, and every always-willing candidate is one. */
  lemma RelaysAreCandidates(reach: Reach, cands: seq<Candidate>, unreached: set<Addr>)
    ensures var relays := Relays(cands, Greedy(reach, cands, unreached));
            (forall a :: a in relays ==> exists c :: c in cands && c.addr == a) &&
            forall c :: c in cands && c.willingness >= 7 ==> c.addr in relays
  {
    PicksAreCandidates(reach, cands, unreached);
    var picks := Greedy(reach, cands, unreached);
    forall c | c in picks ensures c in cands {
      assert c in multiset(picks);
      assert c in multiset(cands);
    }
  }

  /** The byte holds the path quality exactly when the product of the wire values stays below 25600. */
  lemma PathQualityIsExact(first: nat, second: nat)
    ensures PathQuality(first, second) == first * second / 100 <==> first * second < 25600
    ensures first <= 100 && second <= 100 ==> PathQuality(first, second) == first * second / 100 <= 100
  {
    if first <= 100 && second <= 100 {
      ProductBound(first, second);
    }
  }

  lemma ProductBound(first: nat, second: nat)
    requires first <= 100 && second <= 100
    ensures first * second <= 10000
  {
    assert first * second <= 100 * second;
  }

  /** Beyond, it wraps: a pair of wire values can look useless that is better than perfect. */
  lemma PathQualityWraps()
    ensures PathQuality(160, 160) == 0 && 160 * 160 / 100 == 256
  {
  }
}
