/** Route calculation: Dijkstra over a sorted candidate list with duplicates, and the routing table
    it fills. */
module RouteCalculation {
  import opened Basics
  import opened Weights
  import opened Paths
  import opened LinkCosts

  /** A candidate host. Several candidates may carry the same address. */
  datatype Candidate = Candidate(addr: Addr, hopCount: nat, precursor: Addr, quality: real)

  // ---------------------------------------------------------------- comparators

  function ComparePlr(a: Candidate, b: Candidate): int {
    if a.quality > b.quality then -1
    else if a.quality < b.quality then 1
    else if a.hopCount > b.hopCount then 1
    else if a.hopCount < b.hopCount then -1
    else 0
  }

  function CompareHc(a: Candidate, b: Candidate): int {
    if a.hopCount > b.hopCount then 1 else if a.hopCount < b.hopCount then -1 else 0
  }

  function CompareEtxAdditive(a: Candidate, b: Candidate): int {
    if a.quality > b.quality then 1 else if a.quality < b.quality then -1 else 0
  }

  function Compare(m: Metric, a: Candidate, b: Candidate): int {
    match m
    case Plr | Etx => ComparePlr(a, b)
    case Hc => CompareHc(a, b)
    case EtxAdd => CompareEtxAdditive(a, b)
  }

  // ---------------------------------------------------------------- the stable list sort

  function Insert(m: Metric, x: Candidate, s: seq<Candidate>): seq<Candidate> {
    if s == [] || Compare(m, x, s[0]) <= 0 then [x] + s else [s[0]] + Insert(m, x, s[1..])
  }

  function Sort(m: Metric, s: seq<Candidate>): seq<Candidate> {
    if s == [] then [] else Insert(m, s[0], Sort(m, s[1..]))
  }

  ghost predicate Sorted(m: Metric, s: seq<Candidate>) {
    forall i, j :: 0 <= i < j < |s| ==> Compare(m, s[i], s[j]) <= 0
  }

  /** The candidates that compare equal to `k`, in list order. */
  ghost function Ties(m: Metric, k: Candidate, s: seq<Candidate>): seq<Candidate> {
    if s == [] then []
    else (if Compare(m, s[0], k) == 0 then [s[0]] else []) + Ties(m, k, s[1..])
  }

  lemma CompareIsTransitive(m: Metric, a: Candidate, b: Candidate, c: Candidate)
    ensures Compare(m, a, b) <= 0 <==> Compare(m, b, a) >= 0
    ensures Compare(m, a, b) <= 0 && Compare(m, b, c) <= 0 ==> Compare(m, a, c) <= 0
    ensures Compare(m, a, b) == 0 ==> Compare(m, a, c) == Compare(m, b, c)
  {
  }

  lemma {:induction false} InsertPermutes(m: Metric, x: Candidate, s: seq<Candidate>)
    ensures multiset(Insert(m, x, s)) == multiset{x} + multiset(s)
  {
    if s != [] && Compare(m, x, s[0]) > 0 {
      InsertPermutes(m, x, s[1..]);
      assert s == [s[0]] + s[1..];
    }
  }

  lemma {:induction false} InsertKeepsTies(m: Metric, x: Candidate, s: seq<Candidate>, k: Candidate)
    ensures Ties(m, k, Insert(m, x, s)) == Ties(m, k, [x] + s)
  {
    assert ([x] + s)[1..] == s;
    if s != [] && Compare(m, x, s[0]) > 0 {
      var r := Insert(m, x, s[1..]);
      InsertKeepsTies(m, x, s[1..], k);
      assert ([x] + s[1..])[1..] == s[1..] && ([s[0]] + r)[1..] == r;
      CompareIsTransitive(m, x, k, s[0]);
      CompareIsTransitive(m, s[0], k, x);
    }
  }

  lemma ConsSorts(m: Metric, x: Candidate, s: seq<Candidate>)
    requires Sorted(m, s)
    requires s != [] ==> Compare(m, x, s[0]) <= 0
    ensures Sorted(m, [x] + s)
  {
    var r := [x] + s;
    forall i, j | 0 <= i < j < |r| ensures Compare(m, r[i], r[j]) <= 0 {
      if i == 0 && j > 1 {
        CompareIsTransitive(m, x, s[0], s[j - 1]);
      } else if i > 0 {
        assert r[i] == s[i - 1] && r[j] == s[j - 1];
      }
    }
  }

  lemma {:induction false} InsertSorts(m: Metric, x: Candidate, s: seq<Candidate>)
    requires Sorted(m, s)
    ensures Sorted(m, Insert(m, x, s))
  {
    if s == [] || Compare(m, x, s[0]) <= 0 {
      ConsSorts(m, x, s);
    } else {
      InsertSorts(m, x, s[1..]);
      CompareIsTransitive(m, x, s[0], x);
      ConsSorts(m, s[0], Insert(m, x, s[1..]));
    }
  }

  /** The list sort is what DL_SORT is taken to be: it sorts, permutes and is stable. */
  lemma {:induction false} SortIsStable(m: Metric, s: seq<Candidate>, k: Candidate)
    ensures Sorted(m, Sort(m, s))
    ensures multiset(Sort(m, s)) == multiset(s)
    ensures Ties(m, k, Sort(m, s)) == Ties(m, k, s)
  {
    if s != [] {
      SortIsStable(m, s[1..], k);
      var r := Sort(m, s[1..]);
      InsertSorts(m, s[0], r);
      InsertPermutes(m, s[0], r);
      InsertKeepsTies(m, s[0], r, k);
      assert s == [s[0]] + s[1..] && ([s[0]] + r)[1..] == r;
    }
  }

  lemma SortedHeadIsBest(m: Metric, s: seq<Candidate>)
    requires s != []
    ensures var r := Sort(m, s);
            r != [] && r[0] in s && (forall c :: c in r <==> c in s) &&
            forall c :: c in s ==> Compare(m, r[0], c) <= 0
  {
    SortIsStable(m, s, s[0]);
    var r := Sort(m, s);
    assert |r| == |multiset(r)| == |multiset(s)| == |s|;
    assert forall c :: c in r <==> c in multiset(r);
    assert forall c :: c in s <==> c in multiset(s);
  }

  // ---------------------------------------------------------------- one round, as values

  function InitialCandidates(m: Metric, g: Graph, ls: seq<Link>): seq<Candidate> {
    if ls == [] then []
    else InitialCandidates(m, g, ls[..|ls| - 1]) +
         [Candidate(Last(ls).addr, 1, g.self, Start(m, Last(ls).quality).quality)]
  }

  /** The candidate that link `l` of the settled host `b` contributes. */
  function Via(m: Metric, b: Candidate, l: Link): Candidate
    requires b.quality >= 0.0
  {
    Candidate(l.addr, (b.hopCount + 1) % 256, b.addr, Extend(m, Label(b.quality, b.hopCount), l.quality).quality)
  }

  /** A candidate's quality does not depend on the hops counted so far. */
  lemma ViaExtends(m: Metric, b: Candidate, l: Link, hops: nat)
    requires b.quality >= 0.0
    ensures Via(m, b, l).quality == Extend(m, Label(b.quality, hops), l.quality).quality
  {
  }

  /** The candidates appended when `b` is expanded: one per link to an unrouted other host. */
  function Expansion(m: Metric, g: Graph, routed: set<Addr>, b: Candidate, ls: seq<Link>): seq<Candidate>
    requires b.quality >= 0.0
  {
    if ls == [] then []
    else Expansion(m, g, routed, b, ls[..|ls| - 1]) +
         if Last(ls).addr !in routed && Last(ls).addr != g.self then [Via(m, b, Last(ls))] else []
  }

  function Sweep(s: seq<Candidate>, a: Addr): seq<Candidate> {
    if s == [] then []
    else Sweep(s[..|s| - 1], a) + if s[|s| - 1].addr != a then [s[|s| - 1]] else []
  }

  lemma InitialCandidatesAre(m: Metric, g: Graph, ls: seq<Link>, c: Candidate)
    ensures c in InitialCandidates(m, g, ls) <==>
            exists l :: l in ls && c == Candidate(l.addr, 1, g.self, Start(m, l.quality).quality)
  {
    if ls != [] {
      InitialCandidatesAre(m, g, ls[..|ls| - 1], c);
      assert ls == ls[..|ls| - 1] + [Last(ls)];
    }
  }

  lemma ExpansionIs(m: Metric, g: Graph, routed: set<Addr>, b: Candidate, ls: seq<Link>, c: Candidate)
    requires b.quality >= 0.0
    ensures c in Expansion(m, g, routed, b, ls) <==>
            exists l :: l in ls && l.addr !in routed && l.addr != g.self && c == Via(m, b, l)
  {
    if ls != [] {
      ExpansionIs(m, g, routed, b, ls[..|ls| - 1], c);
      assert ls == ls[..|ls| - 1] + [Last(ls)];
    }
  }

  lemma SweepIs(s: seq<Candidate>, a: Addr, c: Candidate)
    ensures c in Sweep(s, a) <==> c in s && c.addr != a
  {
    if s != [] {
      SweepIs(s[..|s| - 1], a, c);
      assert s == s[..|s| - 1] + [s[|s| - 1]];
    }
  }

  function LinksOf(g: Graph, u: Addr): seq<Link> {
    if u in g.topo then g.topo[u] else []
  }

  // ---------------------------------------------------------------- the loop invariant

  ghost function TrueHops(g: Graph, depth: map<Addr, nat>, c: Candidate): nat
    requires c.precursor == g.self || c.precursor in depth
  {
    if c.precursor == g.self then 1 else depth[c.precursor] + 1
  }

  ghost function LabelOfCandidate(g: Graph, depth: map<Addr, nat>, c: Candidate): Label
    requires c.precursor == g.self || c.precursor in depth
  {
    Label(c.quality, TrueHops(g, depth, c))
  }

  /** A candidate is one link beyond this node or beyond a routed host. */
  ghost predicate IsStep(m: Metric, g: Graph, t: Table, depth: map<Addr, nat>, c: Candidate, q: nat)
    requires t.Keys == depth.Keys
  {
    if c.precursor == g.self then
      Link(c.addr, q) in g.neighbors && Label(c.quality, 1) == Start(m, q)
    else
      c.precursor in t && t[c.precursor].quality >= 0.0 && Edge(g, c.precursor, Link(c.addr, q)) &&
      Label(c.quality, depth[c.precursor] + 1) == Extend(m, LabelOf(t, depth, c.precursor), q)
  }

  ghost predicate CandidateOk(m: Metric, g: Graph, t: Table, depth: map<Addr, nat>, c: Candidate)
    requires t.Keys == depth.Keys
  {
    c.addr != g.self && c.addr !in t && c.quality >= 0.0 &&
    (exists q :: IsStep(m, g, t, depth, c, q)) &&
    c.hopCount == TrueHops(g, depth, c) % 256
  }

  /** No pending candidate is routed already, and each is a genuine step. */
  ghost predicate Sound(m: Metric, g: Graph, t: Table, depth: map<Addr, nat>, cs: seq<Candidate>)
    requires t.Keys == depth.Keys
  {
    forall c :: c in cs ==> CandidateOk(m, g, t, depth, c)
  }

  ghost predicate Offers(g: Graph, depth: map<Addr, nat>, c: Candidate, a: Addr, precursor: Addr, l: Label) {
    c.addr == a && c.precursor == precursor &&
    (precursor == g.self || precursor in depth) && LabelOfCandidate(g, depth, c) == l
  }

  /** Every link out of the settled region has a candidate. */
  ghost predicate Complete(m: Metric, g: Graph, t: Table, depth: map<Addr, nat>, cs: seq<Candidate>)
    requires IsTree(m, g, t, depth)
  {
    (forall l :: l in g.neighbors && l.addr !in t ==>
      exists c :: c in cs && Offers(g, depth, c, l.addr, g.self, Start(m, l.quality))) &&
    (forall u, l :: u in t && Edge(g, u, l) && l.addr !in t && l.addr != g.self ==>
      exists c :: c in cs && Offers(g, depth, c, l.addr, u, Extend(m, LabelOf(t, depth, u), l.quality)))
  }

  /** `a` is at least as good as the pending candidate `c`. */
  ghost predicate NoBetter(o: Order, g: Graph, depth: map<Addr, nat>, a: Label, c: Candidate) {
    (c.precursor == g.self || c.precursor in depth) && Leq(o, a, LabelOfCandidate(g, depth, c))
  }

  /** No pending candidate is better than a settled route. */
  ghost predicate IsAhead(o: Order, g: Graph, t: Table, depth: map<Addr, nat>, cs: seq<Candidate>)
    requires t.Keys == depth.Keys
  {
    forall d, c {:trigger NoBetter(o, g, depth, LabelOf(t, depth, d), c)} :: d in t && c in cs ==>
      NoBetter(o, g, depth, LabelOf(t, depth, d), c)
  }

  /** No link between settled hosts improves a route. */
  ghost predicate IsRelaxedSoFar(m: Metric, o: Order, g: Graph, t: Table, depth: map<Addr, nat>)
    requires IsTree(m, g, t, depth)
  {
    (forall l {:trigger StartsNoBetter(m, o, t, depth, l)} :: l in g.neighbors && l.addr in t ==>
      StartsNoBetter(m, o, t, depth, l)) &&
    forall u, l {:trigger ExtendsNoBetter(m, o, t, depth, u, l)} :: u in t && Edge(g, u, l) && l.addr in t ==>
      ExtendsNoBetter(m, o, t, depth, u, l)
  }

  ghost predicate Inv(m: Metric, g: Graph, t: Table, depth: map<Addr, nat>, cs: seq<Candidate>) {
    IsTree(m, g, t, depth) &&
    t.Keys <= Universe(g) &&
    (forall d :: d in t ==> depth[d] <= |t|) &&
    Sound(m, g, t, depth, cs) &&
    Complete(m, g, t, depth, cs) &&
    forall o :: Admissible(m, o, g) ==>
      IsOptimal(m, o, g, t, depth) && IsAhead(o, g, t, depth, cs) && IsRelaxedSoFar(m, o, g, t, depth)
  }

  lemma InitEstablishes(m: Metric, g: Graph)
    requires forall l :: l in g.neighbors ==> l.addr != g.self
    ensures Inv(m, g, map[], map[], InitialCandidates(m, g, g.neighbors))
  {
    var cs := InitialCandidates(m, g, g.neighbors);
    InitIsSound(m, g);
    InitIsComplete(m, g);
    forall o | Admissible(m, o, g)
      ensures IsOptimal(m, o, g, map[], map[]) && IsAhead(o, g, map[], map[], cs)
      ensures IsRelaxedSoFar(m, o, g, map[], map[])
    {
      NothingIsSettled(m, o, g, cs);
    }
  }

  lemma NothingIsSettled(m: Metric, o: Order, g: Graph, cs: seq<Candidate>)
    ensures IsOptimal(m, o, g, map[], map[]) && IsAhead(o, g, map[], map[], cs)
    ensures IsTree(m, g, map[], map[]) && IsRelaxedSoFar(m, o, g, map[], map[])
  {
  }

  lemma InitIsSound(m: Metric, g: Graph)
    requires forall l :: l in g.neighbors ==> l.addr != g.self
    ensures Sound(m, g, map[], map[], InitialCandidates(m, g, g.neighbors))
  {
    forall c | c in InitialCandidates(m, g, g.neighbors) ensures CandidateOk(m, g, map[], map[], c) {
      InitialCandidatesAre(m, g, g.neighbors, c);
      var l :| l in g.neighbors && c == Candidate(l.addr, 1, g.self, Start(m, l.quality).quality);
      assert l == Link(l.addr, l.quality);
      assert IsStep(m, g, map[], map[], c, l.quality);
    }
  }

  lemma InitIsComplete(m: Metric, g: Graph)
    ensures Complete(m, g, map[], map[], InitialCandidates(m, g, g.neighbors))
  {
    var cs := InitialCandidates(m, g, g.neighbors);
    forall l | l in g.neighbors
      ensures exists c :: c in cs && Offers(g, map[], c, l.addr, g.self, Start(m, l.quality))
    {
      var c := Candidate(l.addr, 1, g.self, Start(m, l.quality).quality);
      InitialCandidatesAre(m, g, g.neighbors, c);
      assert Offers(g, map[], c, l.addr, g.self, Start(m, l.quality));
    }
  }

  /** A candidate's address is one the table can still grow by, so hop bytes do not wrap while at
      most 255 addresses are reachable. */
  lemma CandidateInUniverse(m: Metric, g: Graph, t: Table, depth: map<Addr, nat>, cs: seq<Candidate>, c: Candidate)
    requires Inv(m, g, t, depth, cs) && c in cs
    ensures c.addr in Universe(g) - t.Keys
    ensures TrueHops(g, depth, c) <= |t| + 1 <= |Universe(g)|
  {
    var q :| IsStep(m, g, t, depth, c, q);
    assert Link(c.addr, q).addr == c.addr;
    assert t.Keys + {c.addr} <= Universe(g);
    SubsetSize(t.Keys + {c.addr}, Universe(g));
    assert |t.Keys + {c.addr}| == |t| + 1;
  }

  /** The comparator decides every order the metric serves, as long as the hop bytes it sees are
      the true hop counts where the order looks at them. */
  lemma CompareDecides(m: Metric, o: Order, b: Candidate, c: Candidate, bHops: nat, cHops: nat)
    requires Serves(m, o)
    requires b.hopCount == bHops % 256 && c.hopCount == cHops % 256
    requires UsesHops(o) ==> bHops <= 255 && cHops <= 255
    requires Compare(m, b, c) <= 0
    ensures Leq(o, Label(b.quality, bHops), Label(c.quality, cHops))
  {
  }

  lemma BestIsBest(m: Metric, o: Order, g: Graph, t: Table, depth: map<Addr, nat>, cs: seq<Candidate>,
                   b: Candidate, c: Candidate)
    requires Inv(m, g, t, depth, cs) && b in cs && c in cs
    requires Serves(m, o) && (UsesHops(o) ==> |Universe(g)| <= 255)
    requires Compare(m, b, c) <= 0
    ensures Leq(o, LabelOfCandidate(g, depth, b), LabelOfCandidate(g, depth, c))
  {
    CandidateInUniverse(m, g, t, depth, cs, b);
    CandidateInUniverse(m, g, t, depth, cs, c);
    assert CandidateOk(m, g, t, depth, b) && CandidateOk(m, g, t, depth, c);
    CompareDecides(m, o, b, c, TrueHops(g, depth, b), TrueHops(g, depth, c));
  }

  /** The heart of Dijkstra: the best candidate is no worse than any path to an unrouted host that the
      order ranks reliably. */
  lemma {:induction false} BestBoundsPaths(m: Metric, o: Order, g: Graph, t: Table, depth: map<Addr, nat>,
                                           cs: seq<Candidate>, b: Candidate, p: seq<Link>)
    requires Inv(m, g, t, depth, cs) && Admissible(m, o, g)
    requires b in cs && forall c :: c in cs ==> Compare(m, b, c) <= 0
    requires IsPath(g, p) && Last(p).addr !in t && Ranks(o, PathLabel(m, p))
    ensures Leq(o, LabelOfCandidate(g, depth, b), PathLabel(m, p))
    decreases |p|
  {
    var l := Last(p);
    var best := LabelOfCandidate(g, depth, b);
    if |p| == 1 {
      var c :| c in cs && Offers(g, depth, c, l.addr, g.self, Start(m, l.quality));
      BestIsBest(m, o, g, t, depth, cs, b, c);
    } else {
      var u := Last(Init(p)).addr;
      var prefix := PathLabel(m, Init(p));
      RankedPrefix(m, o, prefix, l.quality);
      if u in t {
        var c :| c in cs && Offers(g, depth, c, l.addr, u, Extend(m, LabelOf(t, depth, u), l.quality));
        BestIsBest(m, o, g, t, depth, cs, b, c);
        assert IsOptimal(m, o, g, t, depth);
        ExtendKeepsOrder(m, o, LabelOf(t, depth, u), prefix, l.quality);
        LeqIsTotalPreorder(o, best, LabelOfCandidate(g, depth, c), PathLabel(m, p));
      } else {
        BestBoundsPaths(m, o, g, t, depth, cs, b, Init(p));
        ExtendNeverImproves(m, o, prefix, l.quality);
        LeqIsTotalPreorder(o, best, prefix, PathLabel(m, p));
      }
    }
  }

  /** The routing entry for a settled candidate. */
  function Settled(g: Graph, t: Table, b: Candidate): Route
    requires b.precursor == g.self || b.precursor in t
  {
    Route(if b.precursor == g.self then b.addr else t[b.precursor].nextHop, b.precursor, b.hopCount, b.quality)
  }

  ghost predicate IsBest(m: Metric, cs: seq<Candidate>, b: Candidate) {
    b in cs && forall c :: c in cs ==> Compare(m, b, c) <= 0
  }

  lemma SettleKeepsTree(m: Metric, g: Graph, t: Table, depth: map<Addr, nat>, cs: seq<Candidate>, b: Candidate)
    requires IsTree(m, g, t, depth) && Sound(m, g, t, depth, cs) && b in cs
    ensures b.precursor == g.self || b.precursor in t
    ensures IsTree(m, g, t[b.addr := Settled(g, t, b)], depth[b.addr := TrueHops(g, depth, b)])
  {
    assert CandidateOk(m, g, t, depth, b);
    var q :| IsStep(m, g, t, depth, b, q);
    var t', depth' := t[b.addr := Settled(g, t, b)], depth[b.addr := TrueHops(g, depth, b)];
    forall d | d in t' ensures HasHop(m, g, t', depth', d) {
      if d == b.addr {
        assert IsHop(m, g, t', depth', d, q);
      } else {
        assert HasHop(m, g, t, depth, d);
        var r :| IsHop(m, g, t, depth, d, r);
        assert IsHop(m, g, t', depth', d, r);
      }
    }
  }

  lemma SettleKeepsOptimal(m: Metric, o: Order, g: Graph, t: Table, depth: map<Addr, nat>, cs: seq<Candidate>,
                           b: Candidate)
    requires Inv(m, g, t, depth, cs) && IsBest(m, cs, b) && Admissible(m, o, g)
    requires b.precursor == g.self || b.precursor in t
    ensures IsOptimal(m, o, g, t[b.addr := Settled(g, t, b)], depth[b.addr := TrueHops(g, depth, b)])
  {
    var t', depth' := t[b.addr := Settled(g, t, b)], depth[b.addr := TrueHops(g, depth, b)];
    assert CandidateOk(m, g, t, depth, b);
    assert IsOptimal(m, o, g, t, depth);
    forall p | IsPath(g, p) && Last(p).addr in t' && Ranks(o, PathLabel(m, p))
      ensures Leq(o, LabelOf(t', depth', Last(p).addr), PathLabel(m, p))
    {
      if Last(p).addr == b.addr {
        BestBoundsPaths(m, o, g, t, depth, cs, b, p);
      } else {
        assert LabelOf(t', depth', Last(p).addr) == LabelOf(t, depth, Last(p).addr);
      }
    }
  }

  /** The candidate list after one round. */
  function NextCandidates(m: Metric, g: Graph, routed: set<Addr>, cs: seq<Candidate>, b: Candidate): seq<Candidate>
    requires b.quality >= 0.0
  {
    Sweep(cs + Expansion(m, g, routed, b, LinksOf(g, b.addr)), b.addr)
  }

  lemma NextCandidatesAre(m: Metric, g: Graph, routed: set<Addr>, cs: seq<Candidate>, b: Candidate, c: Candidate)
    requires b.quality >= 0.0
    ensures c in NextCandidates(m, g, routed, cs, b) <==>
            c.addr != b.addr &&
            (c in cs ||
             exists l :: l in LinksOf(g, b.addr) && l.addr !in routed && l.addr != g.self && c == Via(m, b, l))
  {
    var links := LinksOf(g, b.addr);
    SweepIs(cs + Expansion(m, g, routed, b, links), b.addr, c);
    ExpansionIs(m, g, routed, b, links, c);
  }

  /** A pending candidate for another host survives the settling of `b`. */
  lemma KeptCandidateOk(m: Metric, g: Graph, t: Table, depth: map<Addr, nat>, r: Route, hops: nat, a: Addr,
                        c: Candidate)
    requires t.Keys == depth.Keys && CandidateOk(m, g, t, depth, c)
    requires a !in t && c.addr != a
    ensures CandidateOk(m, g, t[a := r], depth[a := hops], c)
  {
    var q :| IsStep(m, g, t, depth, c, q);
    assert IsStep(m, g, t[a := r], depth[a := hops], c, q);
  }

  lemma NewCandidateOk(m: Metric, g: Graph, t: Table, depth: map<Addr, nat>, b: Candidate, l: Link)
    requires t.Keys == depth.Keys && b.addr in t && b.addr != g.self && b.quality >= 0.0
    requires t[b.addr].quality == b.quality && b.hopCount == depth[b.addr] % 256
    requires l in LinksOf(g, b.addr) && l.addr !in t && l.addr != g.self
    ensures CandidateOk(m, g, t, depth, Via(m, b, l))
  {
    assert l == Link(l.addr, l.quality);
    assert IsStep(m, g, t, depth, Via(m, b, l), l.quality);
  }

  lemma RoundKeepsSound(m: Metric, g: Graph, t: Table, depth: map<Addr, nat>, cs: seq<Candidate>, b: Candidate)
    requires IsTree(m, g, t, depth) && Sound(m, g, t, depth, cs) && b in cs && b.quality >= 0.0
    requires b.precursor == g.self || b.precursor in t
    ensures var t', depth' := t[b.addr := Settled(g, t, b)], depth[b.addr := TrueHops(g, depth, b)];
            Sound(m, g, t', depth', NextCandidates(m, g, t'.Keys, cs, b))
  {
    var hops := TrueHops(g, depth, b);
    var t', depth' := t[b.addr := Settled(g, t, b)], depth[b.addr := hops];
    assert CandidateOk(m, g, t, depth, b);
    forall c | c in NextCandidates(m, g, t'.Keys, cs, b)
      ensures CandidateOk(m, g, t', depth', c)
    {
      NextCandidatesAre(m, g, t'.Keys, cs, b, c);
      if c in cs {
        KeptCandidateOk(m, g, t, depth, Settled(g, t, b), hops, b.addr, c);
      } else {
        var l :| l in LinksOf(g, b.addr) && l.addr !in t'.Keys && l.addr != g.self && c == Via(m, b, l);
        NewCandidateOk(m, g, t', depth', b, l);
      }
    }
  }

  lemma RoundKeepsComplete(m: Metric, g: Graph, t: Table, depth: map<Addr, nat>, cs: seq<Candidate>, b: Candidate)
    requires IsTree(m, g, t, depth) && Sound(m, g, t, depth, cs) && Complete(m, g, t, depth, cs)
    requires b in cs && b.quality >= 0.0
    requires b.precursor == g.self || b.precursor in t
    requires IsTree(m, g, t[b.addr := Settled(g, t, b)], depth[b.addr := TrueHops(g, depth, b)])
    ensures var t', depth' := t[b.addr := Settled(g, t, b)], depth[b.addr := TrueHops(g, depth, b)];
            Complete(m, g, t', depth', NextCandidates(m, g, t'.Keys, cs, b))
  {
    var t', depth' := t[b.addr := Settled(g, t, b)], depth[b.addr := TrueHops(g, depth, b)];
    var cs' := NextCandidates(m, g, t'.Keys, cs, b);
    assert CandidateOk(m, g, t, depth, b);
    forall l | l in g.neighbors && l.addr !in t'
      ensures exists c :: c in cs' && Offers(g, depth', c, l.addr, g.self, Start(m, l.quality))
    {
      var c :| c in cs && Offers(g, depth, c, l.addr, g.self, Start(m, l.quality));
      NextCandidatesAre(m, g, t'.Keys, cs, b, c);
      assert Offers(g, depth', c, l.addr, g.self, Start(m, l.quality));
    }
    forall u, l | u in t' && Edge(g, u, l) && l.addr !in t' && l.addr != g.self
      ensures exists c :: c in cs' && Offers(g, depth', c, l.addr, u, Extend(m, LabelOf(t', depth', u), l.quality))
    {
      if u == b.addr {
        var c := Via(m, b, l);
        NextCandidatesAre(m, g, t'.Keys, cs, b, c);
        assert Offers(g, depth', c, l.addr, u, Extend(m, LabelOf(t', depth', u), l.quality));
      } else {
        var c :| c in cs && Offers(g, depth, c, l.addr, u, Extend(m, LabelOf(t, depth, u), l.quality));
        NextCandidatesAre(m, g, t'.Keys, cs, b, c);
        assert Offers(g, depth', c, l.addr, u, Extend(m, LabelOf(t', depth', u), l.quality));
      }
    }
  }

  lemma RoundKeepsBounds(m: Metric, g: Graph, t: Table, depth: map<Addr, nat>, cs: seq<Candidate>, b: Candidate)
    requires Inv(m, g, t, depth, cs) && b in cs
    ensures b.quality >= 0.0 && (b.precursor == g.self || b.precursor in t)
    ensures b.addr in Universe(g) - t.Keys
    ensures var t', depth' := t[b.addr := Settled(g, t, b)], depth[b.addr := TrueHops(g, depth, b)];
            t'.Keys <= Universe(g) && forall d :: d in t' ==> depth'[d] <= |t'|
  {
    assert CandidateOk(m, g, t, depth, b);
    CandidateInUniverse(m, g, t, depth, cs, b);
    assert |t[b.addr := Settled(g, t, b)]| == |t| + 1;
  }

  /** The candidate about to be settled is at least as good as the others. */
  ghost predicate IsFirst(o: Order, g: Graph, depth: map<Addr, nat>, cs: seq<Candidate>, b: Candidate) {
    b in cs && b.addr !in depth && b.addr != g.self && b.quality >= 0.0 &&
    (b.precursor == g.self || b.precursor in depth) &&
    forall c {:trigger NoBetter(o, g, depth, LabelOfCandidate(g, depth, b), c)} :: c in cs ==>
      NoBetter(o, g, depth, LabelOfCandidate(g, depth, b), c)
  }

  lemma BestIsFirst(m: Metric, o: Order, g: Graph, t: Table, depth: map<Addr, nat>, cs: seq<Candidate>, b: Candidate)
    requires Inv(m, g, t, depth, cs) && IsBest(m, cs, b) && Admissible(m, o, g)
    ensures IsFirst(o, g, depth, cs, b)
  {
    assert CandidateOk(m, g, t, depth, b);
    forall c | c in cs ensures NoBetter(o, g, depth, LabelOfCandidate(g, depth, b), c) {
      assert CandidateOk(m, g, t, depth, c);
      BestIsBest(m, o, g, t, depth, cs, b, c);
    }
  }

  lemma RoundKeepsAhead(m: Metric, o: Order, g: Graph, t: Table, depth: map<Addr, nat>, cs: seq<Candidate>,
                        b: Candidate)
    requires Serves(m, o) && LinksOk(o, g) && t.Keys == depth.Keys && IsFirst(o, g, depth, cs, b)
    requires IsAhead(o, g, t, depth, cs)
    ensures var t', depth' := t[b.addr := Settled(g, t, b)], depth[b.addr := TrueHops(g, depth, b)];
            IsAhead(o, g, t', depth', NextCandidates(m, g, t'.Keys, cs, b))
  {
    var t', depth' := t[b.addr := Settled(g, t, b)], depth[b.addr := TrueHops(g, depth, b)];
    var best := LabelOfCandidate(g, depth, b);
    forall d, c | d in t' && c in NextCandidates(m, g, t'.Keys, cs, b)
      ensures NoBetter(o, g, depth', LabelOf(t', depth', d), c)
    {
      assert Leq(o, LabelOf(t', depth', d), best) by {
        LeqIsTotalPreorder(o, best, best, best);
        if d != b.addr {
          assert NoBetter(o, g, depth, LabelOf(t, depth, d), b);
        }
      }
      NextIsNoBetter(m, o, g, t'.Keys, depth, cs, b, c);
      LeqIsTotalPreorder(o, LabelOf(t', depth', d), best, LabelOfCandidate(g, depth', c));
    }
  }

  /** What is pending after a round is no better than what the round settled. */
  lemma NextIsNoBetter(m: Metric, o: Order, g: Graph, routed: set<Addr>, depth: map<Addr, nat>, cs: seq<Candidate>,
                       b: Candidate, c: Candidate)
    requires Serves(m, o) && LinksOk(o, g)
    requires b.addr !in depth && b.addr != g.self && b.quality >= 0.0
    requires b.precursor == g.self || b.precursor in depth
    requires c in NextCandidates(m, g, routed, cs, b)
    requires c in cs ==> NoBetter(o, g, depth, LabelOfCandidate(g, depth, b), c)
    ensures NoBetter(o, g, depth[b.addr := TrueHops(g, depth, b)], LabelOfCandidate(g, depth, b), c)
  {
    NextCandidatesAre(m, g, routed, cs, b, c);
    if c !in cs {
      var l :| l in LinksOf(g, b.addr) && c == Via(m, b, l);
      var best := LabelOfCandidate(g, depth, b);
      assert Edge(g, b.addr, l);
      var depth' := depth[b.addr := TrueHops(g, depth, b)];
      assert c.precursor == b.addr && TrueHops(g, depth', c) == best.hops + 1;
      ViaExtends(m, b, l, best.hops);
      ExtendNeverImproves(m, o, best, l.quality);
    }
  }

  lemma RoundKeepsRelaxed(m: Metric, o: Order, g: Graph, t: Table, depth: map<Addr, nat>, cs: seq<Candidate>,
                          b: Candidate)
    requires Serves(m, o) && LinksOk(o, g) && IsFirst(o, g, depth, cs, b)
    requires IsTree(m, g, t, depth) && Complete(m, g, t, depth, cs) && IsAhead(o, g, t, depth, cs)
    requires IsRelaxedSoFar(m, o, g, t, depth)
    requires IsTree(m, g, t[b.addr := Settled(g, t, b)], depth[b.addr := TrueHops(g, depth, b)])
    ensures IsRelaxedSoFar(m, o, g, t[b.addr := Settled(g, t, b)], depth[b.addr := TrueHops(g, depth, b)])
  {
    var t', depth' := t[b.addr := Settled(g, t, b)], depth[b.addr := TrueHops(g, depth, b)];
    forall l | l in g.neighbors && l.addr in t' ensures StartsNoBetter(m, o, t', depth', l) {
      SettledNeighbor(m, o, g, t, depth, cs, b, l);
    }
    forall u, l | u in t' && Edge(g, u, l) && l.addr in t' ensures ExtendsNoBetter(m, o, t', depth', u, l) {
      SettledEdge(m, o, g, t, depth, cs, b, u, l);
    }
  }

  lemma SettledNeighbor(m: Metric, o: Order, g: Graph, t: Table, depth: map<Addr, nat>, cs: seq<Candidate>,
                        b: Candidate, l: Link)
    requires IsFirst(o, g, depth, cs, b) && l in g.neighbors
    requires IsTree(m, g, t, depth) && Complete(m, g, t, depth, cs) && IsRelaxedSoFar(m, o, g, t, depth)
    requires l.addr in t[b.addr := Settled(g, t, b)]
    ensures StartsNoBetter(m, o, t[b.addr := Settled(g, t, b)], depth[b.addr := TrueHops(g, depth, b)], l)
  {
    if l.addr == b.addr {
      var c :| c in cs && Offers(g, depth, c, l.addr, g.self, Start(m, l.quality));
      assert NoBetter(o, g, depth, LabelOfCandidate(g, depth, b), c);
    } else {
      assert StartsNoBetter(m, o, t, depth, l);
    }
  }

  lemma SettledEdge(m: Metric, o: Order, g: Graph, t: Table, depth: map<Addr, nat>, cs: seq<Candidate>, b: Candidate,
                    u: Addr, l: Link)
    requires Serves(m, o) && LinksOk(o, g) && IsFirst(o, g, depth, cs, b) && Edge(g, u, l)
    requires IsTree(m, g, t, depth) && Complete(m, g, t, depth, cs) && IsAhead(o, g, t, depth, cs)
    requires IsRelaxedSoFar(m, o, g, t, depth)
    requires u in t[b.addr := Settled(g, t, b)] && l.addr in t[b.addr := Settled(g, t, b)]
    ensures ExtendsNoBetter(m, o, t[b.addr := Settled(g, t, b)], depth[b.addr := TrueHops(g, depth, b)], u, l)
  {
    var best := LabelOfCandidate(g, depth, b);
    if u == b.addr {
      ExtendNeverImproves(m, o, best, l.quality);
      LeqIsTotalPreorder(o, best, best, best);
      if l.addr != b.addr {
        assert NoBetter(o, g, depth, LabelOf(t, depth, l.addr), b);
        LeqIsTotalPreorder(o, LabelOf(t, depth, l.addr), best, Extend(m, best, l.quality));
      }
    } else if l.addr == b.addr {
      var c :| c in cs && Offers(g, depth, c, l.addr, u, Extend(m, LabelOf(t, depth, u), l.quality));
      assert NoBetter(o, g, depth, best, c);
    } else {
      assert ExtendsNoBetter(m, o, t, depth, u, l);
    }
  }

  /** One round of the main loop keeps the invariant, for every metric and order at once. */
  lemma RoundKeepsInv(m: Metric, g: Graph, t: Table, depth: map<Addr, nat>, cs: seq<Candidate>, b: Candidate)
    requires Inv(m, g, t, depth, cs) && IsBest(m, cs, b)
    ensures b.quality >= 0.0 && (b.precursor == g.self || b.precursor in t)
    ensures b.addr in Universe(g) - t.Keys
    ensures var t', depth' := t[b.addr := Settled(g, t, b)], depth[b.addr := TrueHops(g, depth, b)];
            Inv(m, g, t', depth', NextCandidates(m, g, t'.Keys, cs, b))
  {
    RoundKeepsBounds(m, g, t, depth, cs, b);
    SettleKeepsTree(m, g, t, depth, cs, b);
    RoundKeepsSound(m, g, t, depth, cs, b);
    RoundKeepsComplete(m, g, t, depth, cs, b);
    var t', depth' := t[b.addr := Settled(g, t, b)], depth[b.addr := TrueHops(g, depth, b)];
    forall o | Admissible(m, o, g)
      ensures IsOptimal(m, o, g, t', depth') && IsRelaxedSoFar(m, o, g, t', depth')
      ensures IsAhead(o, g, t', depth', NextCandidates(m, g, t'.Keys, cs, b))
    {
      SettleKeepsOptimal(m, o, g, t, depth, cs, b);
      BestIsFirst(m, o, g, t, depth, cs, b);
      RoundKeepsAhead(m, o, g, t, depth, cs, b);
      RoundKeepsRelaxed(m, o, g, t, depth, cs, b);
    }
  }

  /** Without pending candidates the settled region is closed under paths. */
  lemma {:induction false} DoneCovers(m: Metric, g: Graph, t: Table, depth: map<Addr, nat>, p: seq<Link>)
    requires Inv(m, g, t, depth, []) && IsPath(g, p)
    ensures Last(p).addr in t
    decreases |p|
  {
    if |p| > 1 {
      DoneCovers(m, g, t, depth, Init(p));
    }
  }

  lemma HopBytesAreExact(m: Metric, g: Graph, t: Table, depth: map<Addr, nat>, d: Addr)
    requires IsTree(m, g, t, depth) && t.Keys <= Universe(g) && d in t && depth[d] <= |t|
    requires |Universe(g)| <= 255
    ensures depth[d] == t[d].hopCount
  {
    SubsetSize(t.Keys, Universe(g));
    assert depth[d] <= 255;
    var q := HopQuality(m, g, t, depth, d);
  }

  lemma DoneIsCorrect(m: Metric, g: Graph, t: Table, depth: map<Addr, nat>)
    requires Inv(m, g, t, depth, [])
    ensures CorrectTable(m, g, t, depth)
  {
    forall p | IsPath(g, p) ensures Last(p).addr in t {
      DoneCovers(m, g, t, depth, p);
    }
    forall d | d in t && |Universe(g)| <= 255 ensures depth[d] == t[d].hopCount {
      HopBytesAreExact(m, g, t, depth, d);
    }
  }

  /** Every graph has a correct table. */
  lemma CorrectTableExists(m: Metric, g: Graph) returns (t: Table, depth: map<Addr, nat>)
    requires forall l :: l in g.neighbors ==> l.addr != g.self
    ensures CorrectTable(m, g, t, depth)
  {
    InitEstablishes(m, g);
    t, depth := FinishRounds(m, g, map[], map[], InitialCandidates(m, g, g.neighbors));
  }

  lemma {:induction false} FinishRounds(m: Metric, g: Graph, t: Table, depth: map<Addr, nat>, cs: seq<Candidate>)
      returns (t': Table, depth': map<Addr, nat>)
    requires Inv(m, g, t, depth, cs)
    ensures CorrectTable(m, g, t', depth')
    decreases Universe(g) - t.Keys
  {
    if cs == [] {
      DoneIsCorrect(m, g, t, depth);
      return t, depth;
    }
    var r := Sort(m, cs);
    SortedHeadIsBest(m, cs);
    ResortKeepsInv(m, g, t, depth, cs, r);
    var b := r[0];
    RoundKeepsInv(m, g, t, depth, r, b);
    var routed := t[b.addr := Settled(g, t, b)];
    t', depth' := FinishRounds(m, g, routed, depth[b.addr := TrueHops(g, depth, b)],
                               NextCandidates(m, g, routed.Keys, r, b));
  }

  // ---------------------------------------------------------------- the tables in place

  /** The routing table. */
  class RoutingTable {
    var routes: Table

    constructor ()
      ensures routes == map[]
    {
      routes := map[];
    }

    method Destroy()
      modifies this
      ensures routes == map[]
    {
      while routes.Keys != {}
        decreases |routes|
      {
        var d :| d in routes.Keys;
        routes := routes - {d};
      }
    }

    method AddRoute(dest: Addr, nextHop: Addr, precursor: Addr, hopCount: nat, quality: real)
      modifies this
      ensures routes == old(routes)[dest := Route(nextHop, precursor, hopCount, quality)]
    {
      routes := routes[dest := Route(nextHop, precursor, hopCount, quality)];
    }

    method GetNextHop(dest: Addr) returns (r: Option<Addr>)
      ensures dest in routes ==> r == Some(routes[dest].nextHop)
      ensures dest !in routes ==> r == None
    {
      r := if dest in routes then Some(routes[dest].nextHop) else None;
    }
  }

  class RouteCalculator {
    var candidates: seq<Candidate>
    const table: RoutingTable

    constructor (table: RoutingTable)
      ensures this.table == table
    {
      candidates, this.table := [], table;
    }

    method InitCandidates(m: Metric, g: Graph)
      modifies this
      ensures candidates == InitialCandidates(m, g, g.neighbors)
    {
      candidates := [];
      for i := 0 to |g.neighbors|
        invariant candidates == InitialCandidates(m, g, g.neighbors[..i])
      {
        assert g.neighbors[..i + 1][..i] == g.neighbors[..i];
        var l := g.neighbors[i];
        candidates := candidates + [Candidate(l.addr, 1, g.self, Start(m, l.quality).quality)];
      }
      assert g.neighbors[..|g.neighbors|] == g.neighbors;
    }

    /** Appends a candidate for every link of the settled host to a host without a route. */
    method Expand(m: Metric, g: Graph, best: Candidate)
      requires best.quality >= 0.0
      modifies this
      ensures candidates == old(candidates) + Expansion(m, g, table.routes.Keys, best, LinksOf(g, best.addr))
    {
      var ls := LinksOf(g, best.addr);
      for i := 0 to |ls|
        invariant candidates == old(candidates) + Expansion(m, g, table.routes.Keys, best, ls[..i])
      {
        assert ls[..i + 1][..i] == ls[..i];
        var known := table.GetNextHop(ls[i].addr);
        if known.None? && ls[i].addr != g.self {
          candidates := candidates + [Via(m, best, ls[i])];
        }
      }
      assert ls[..|ls|] == ls;
    }

    /** Removes every candidate for the settled address. */
    method SweepCandidates(a: Addr)
      modifies this
      ensures candidates == Sweep(old(candidates), a)
    {
      var all := candidates;
      var kept: seq<Candidate> := [];
      for i := 0 to |all|
        invariant kept == Sweep(all[..i], a)
      {
        assert all[..i + 1][..i] == all[..i];
        if all[i].addr != a {
          kept := kept + [all[i]];
        }
      }
      assert all[..|all|] == all;
      candidates := kept;
    }

    /** Dijkstra from an emptied table. The result is a shortest-path tree in every order the
        metric serves, over exactly the reachable addresses. */
    method Dijkstra(m: Metric, g: Graph) returns (ghost depth: map<Addr, nat>)
      requires table.routes == map[]
      requires forall l :: l in g.neighbors ==> l.addr != g.self
      modifies this, table
      ensures CorrectTable(m, g, table.routes, depth) && IsBestTable(m, g, table.routes)
    {
      InitCandidates(m, g);
      InitEstablishes(m, g);
      depth := map[];
      while candidates != []
        invariant Inv(m, g, table.routes, depth, candidates)
        decreases Universe(g) - table.routes.Keys
      {
        ghost var t, cs := table.routes, candidates;
        SortedHeadIsBest(m, candidates);
        candidates := Sort(m, candidates);
        ResortKeepsInv(m, g, t, depth, cs, candidates);
        ghost var sorted := candidates;
        var best := candidates[0];
        RoundKeepsInv(m, g, t, depth, sorted, best);
        var nextHop := best.addr;
        if best.precursor != g.self {
          var known := table.GetNextHop(best.precursor);
          nextHop := known.value;
        }
        table.AddRoute(best.addr, nextHop, best.precursor, best.hopCount, best.quality);
        Expand(m, g, best);
        SweepCandidates(best.addr);
        depth := depth[best.addr := TrueHops(g, depth, best)];
        assert table.routes == t[best.addr := Settled(g, t, best)];
      }
      DoneIsCorrect(m, g, table.routes, depth);
      CorrectIsBest(m, g, table.routes, depth);
    }

    /** The periodic rebuild: empty the table, then recompute it. */
    method Rebuild(m: Metric, g: Graph) returns (ghost depth: map<Addr, nat>)
      requires forall l :: l in g.neighbors ==> l.addr != g.self
      modifies this, table
      ensures CorrectTable(m, g, table.routes, depth) && IsBestTable(m, g, table.routes)
    {
      table.Destroy();
      depth := Dijkstra(m, g);
    }
  }

  lemma ResortKeepsInv(m: Metric, g: Graph, t: Table, depth: map<Addr, nat>, cs: seq<Candidate>, r: seq<Candidate>)
    requires Inv(m, g, t, depth, cs)
    requires forall c :: c in r <==> c in cs
    ensures Inv(m, g, t, depth, r)
  {
    ResortKeepsComplete(m, g, t, depth, cs, r);
  }

  lemma ResortKeepsComplete(m: Metric, g: Graph, t: Table, depth: map<Addr, nat>, cs: seq<Candidate>, r: seq<Candidate>)
    requires IsTree(m, g, t, depth) && Complete(m, g, t, depth, cs)
    requires forall c :: c in cs ==> c in r
    ensures Complete(m, g, t, depth, r)
  {
    forall l | l in g.neighbors && l.addr !in t
      ensures exists c :: c in r && Offers(g, depth, c, l.addr, g.self, Start(m, l.quality))
    {
      var c :| c in cs && Offers(g, depth, c, l.addr, g.self, Start(m, l.quality));
    }
    forall u, l | u in t && Edge(g, u, l) && l.addr !in t && l.addr != g.self
      ensures exists c :: c in r && Offers(g, depth, c, l.addr, u, Extend(m, LabelOf(t, depth, u), l.quality))
    {
      var c :| c in cs && Offers(g, depth, c, l.addr, u, Extend(m, LabelOf(t, depth, u), l.quality));
    }
  }
}
