/** What links of quality 0 cost the product metrics. A route of positive quality keeps every promise,
    whatever dead links there are elsewhere; a route of quality 0 keeps neither minimal hops nor
    loop freedom. */
module DeadLinks {
  import opened Basics
  import opened Weights
  import opened Paths
  import opened Network
  import RouteCalculation

  // ---------------------------------------------------------------- reading a table off its graph

  /** `l` leads out of `a`, which may be the node itself. */
  ghost predicate LeadsOut(g: Graph, a: Addr, l: Link) {
    if a == g.self then l in g.neighbors else Edge(g, a, l)
  }

  /** `d` is routed with this label and next hop. */
  ghost predicate Records(t: Table, depth: map<Addr, nat>, d: Addr, l: Label, nextHop: Addr) {
    d in t && d in depth && LabelOf(t, depth, d) == l && t[d].nextHop == nextHop && l.quality >= 0.0
  }

  /** Ready to be extended: the node itself, or routed with this label and next hop. */
  ghost predicate At(g: Graph, t: Table, depth: map<Addr, nat>, a: Addr, l: Label, nextHop: Addr) {
    a == g.self || Records(t, depth, a, l, nextHop)
  }

  function Over(m: Metric, g: Graph, a: Addr, l: Label, q: nat): Label
    requires l.quality >= 0.0
  {
    if a == g.self then Start(m, q) else Extend(m, l, q)
  }

  function Towards(g: Graph, a: Addr, nextHop: Addr, d: Addr): Addr {
    if a == g.self then d else nextHop
  }

  /** A host one link away from where the table already reaches is routed no worse than over that link. */
  lemma Reached(m: Metric, g: Graph, t: Table, depth: map<Addr, nat>, a: Addr, l: Label, nextHop: Addr, link: Link)
    requires IsTree(m, g, t, depth) && IsRelaxed(m, QualityThenHops, g, t, depth)
    requires LeadsOut(g, a, link) && link.addr != g.self && At(g, t, depth, a, l, nextHop) && l.quality >= 0.0
    ensures link.addr in t && Leq(QualityThenHops, LabelOf(t, depth, link.addr), Over(m, g, a, l, link.quality))
  {
    if a == g.self {
      assert StartsNoBetter(m, QualityThenHops, t, depth, link);
    } else {
      assert ExtendsNoBetter(m, QualityThenHops, t, depth, a, link);
    }
  }

  /** Only link `(a, q)` leads to `d`. */
  ghost predicate OnlyFrom(g: Graph, d: Addr, a: Addr, q: nat) {
    LeadsOut(g, a, Link(d, q)) &&
    forall b, r {:trigger LeadsOut(g, b, Link(d, r))} :: LeadsOut(g, b, Link(d, r)) ==> b == a && r == q
  }

  /** Only links `(a, q)` and `(b, r)` lead to `d`. */
  ghost predicate OnlyFromEither(g: Graph, d: Addr, a: Addr, q: nat, b: Addr, r: nat) {
    LeadsOut(g, a, Link(d, q)) && LeadsOut(g, b, Link(d, r)) &&
    forall c, s {:trigger LeadsOut(g, c, Link(d, s))} ::
      LeadsOut(g, c, Link(d, s)) ==> (c == a && s == q) || (c == b && s == r)
  }

  lemma HopOf(m: Metric, g: Graph, t: Table, depth: map<Addr, nat>, d: Addr) returns (a: Addr, q: nat)
    requires IsTree(m, g, t, depth) && d in t
    ensures LeadsOut(g, a, Link(d, q)) && (a == g.self || (a in t && a in depth && t[a].quality >= 0.0))
    ensures a == g.self ==> Records(t, depth, d, Start(m, q), d)
    ensures a != g.self ==> Records(t, depth, d, Extend(m, LabelOf(t, depth, a), q), t[a].nextHop)
  {
    assert HasHop(m, g, t, depth, d);
    q :| IsHop(m, g, t, depth, d, q);
    a := t[d].precursor;
  }

  lemma OnlyWay(m: Metric, g: Graph, t: Table, depth: map<Addr, nat>, d: Addr, a: Addr, l: Label, nextHop: Addr, q: nat)
    requires IsTree(m, g, t, depth) && IsRelaxed(m, QualityThenHops, g, t, depth) && d != g.self
    requires OnlyFrom(g, d, a, q) && At(g, t, depth, a, l, nextHop) && l.quality >= 0.0
    ensures Records(t, depth, d, Over(m, g, a, l, q), Towards(g, a, nextHop, d))
  {
    Reached(m, g, t, depth, a, l, nextHop, Link(d, q));
    var b, r := HopOf(m, g, t, depth, d);
  }

  /** Of two ways in the table takes the first if the second is worse. */
  lemma BetterWay(m: Metric, g: Graph, t: Table, depth: map<Addr, nat>, d: Addr, a: Addr, l: Label, nextHop: Addr,
                  q: nat, b: Addr, k: Label, other: Addr, r: nat)
    requires IsTree(m, g, t, depth) && IsRelaxed(m, QualityThenHops, g, t, depth) && d != g.self
    requires OnlyFromEither(g, d, a, q, b, r)
    requires At(g, t, depth, a, l, nextHop) && l.quality >= 0.0
    requires At(g, t, depth, b, k, other) && k.quality >= 0.0
    requires Less(QualityThenHops, Over(m, g, a, l, q), Over(m, g, b, k, r))
    ensures Records(t, depth, d, Over(m, g, a, l, q), Towards(g, a, nextHop, d))
  {
    Reached(m, g, t, depth, a, l, nextHop, Link(d, q));
    var c, s := HopOf(m, g, t, depth, d);
  }

  // ---------------------------------------------------------------- minimal hops

  /** Node 0 reaches 3 over 1 and 2 at quality 90 or directly at quality 80; 4 lies behind a dead link
      of 3. */
  function Detour(): Graph {
    Graph(Mac(0), [Link(Mac(1), 100), Link(Mac(3), 80)],
          map[Mac(1) := [Link(Mac(2), 100)], Mac(2) := [Link(Mac(3), 90)], Mac(3) := [Link(Mac(4), 0)]])
  }

  predicate DetourLink(a: Addr, l: Link) {
    (a == Mac(0) && (l == Link(Mac(1), 100) || l == Link(Mac(3), 80))) ||
    (a == Mac(1) && l == Link(Mac(2), 100)) ||
    (a == Mac(2) && l == Link(Mac(3), 90)) ||
    (a == Mac(3) && l == Link(Mac(4), 0))
  }

  function DirectPath(): seq<Link> {
    [Link(Mac(3), 80), Link(Mac(4), 0)]
  }

  lemma DetourLinks(a: Addr, l: Link)
    ensures LeadsOut(Detour(), a, l) <==> DetourLink(a, l)
    ensures l in Detour().neighbors <==> DetourLink(Mac(0), l)
    ensures a != Mac(0) ==> (Edge(Detour(), a, l) <==> DetourLink(a, l))
    ensures !Edge(Detour(), Mac(0), l)
  {
  }

  lemma DetourHasFour()
    ensures |Universe(Detour())| <= 255
  {
    var all := {Mac(1), Mac(2), Mac(3), Mac(4)};
    forall a | a in Universe(Detour()) ensures a in all {
      if l :| l in Detour().neighbors && l.addr == a {
        DetourLinks(a, l);
      } else {
        var u, l :| u in Detour().topo && l in Detour().topo[u] && l.addr == a;
        DetourLinks(u, l);
      }
    }
    SubsetSize(Universe(Detour()), all);
  }

  lemma DetourIsAdmissible(m: Metric)
    requires Multiplies(m)
    ensures Admissible(m, QualityThenHops, Detour())
  {
    DetourHasFour();
    forall l | l in Detour().neighbors ensures l.quality <= 100 {
      DetourLinks(Mac(0), l);
    }
    forall u, l | Edge(Detour(), u, l) ensures l.quality <= 100 {
      DetourLinks(u, l);
    }
  }

  lemma DirectPathIsPath(m: Metric)
    requires Multiplies(m)
    ensures IsPath(Detour(), DirectPath()) && PathLabel(m, DirectPath()) == Label(0.0, 2)
  {
    var p := DirectPath();
    assert Init(p) == [Link(Mac(3), 80)];
    DetourLinks(Mac(3), Link(Mac(4), 0));
    DetourLinks(Mac(0), Link(Mac(3), 80));
    assert Attenuate(80.0, 0) == 0.0;
  }

  /** Every correct table of that graph records four hops to node 4, though a path of two hops has the
      same quality. */
  lemma DetourIsTaken(m: Metric, t: Table, depth: map<Addr, nat>)
    requires Multiplies(m) && CorrectTable(m, Detour(), t, depth)
    ensures Mac(4) in t && LabelOf(t, depth, Mac(4)) == Label(0.0, 4)
    ensures !Leq(QualityThenHops, LabelOf(t, depth, Mac(4)), PathLabel(m, DirectPath()))
  {
    DirectPathIsPath(m);
    DetourIsAdmissible(m);
    DetourSettles(m, t, depth);
  }

  lemma DetourSettles(m: Metric, t: Table, depth: map<Addr, nat>)
    requires Multiplies(m)
    requires IsTree(m, Detour(), t, depth) && IsRelaxed(m, QualityThenHops, Detour(), t, depth)
    ensures Records(t, depth, Mac(4), Label(0.0, 4), Mac(1))
  {
    var g, none := Detour(), Label(0.0, 0);
    forall a, l ensures LeadsOut(g, a, l) <==> DetourLink(a, l) {
      DetourLinks(a, l);
    }
    assert Attenuate(100.0, 100) == 100.0 && Attenuate(100.0, 90) == 90.0 && Attenuate(90.0, 0) == 0.0;
    OnlyWay(m, g, t, depth, Mac(1), Mac(0), none, Mac(0), 100);
    OnlyWay(m, g, t, depth, Mac(2), Mac(1), Label(100.0, 1), Mac(1), 100);
    BetterWay(m, g, t, depth, Mac(3), Mac(2), Label(100.0, 2), Mac(1), 90, Mac(0), none, Mac(0), 80);
    OnlyWay(m, g, t, depth, Mac(4), Mac(3), Label(90.0, 3), Mac(1), 0);
  }

  // ---------------------------------------------------------------- when hops are minimal

  ghost predicate IsShortest(g: Graph, p: seq<Link>, d: Addr) {
    LeadsTo(g, p, d) && forall q :: LeadsTo(g, q, d) ==> |p| <= |q|
  }

  /** Node `k` of the path is the last one with a route of positive quality. */
  ghost predicate IsLastLive(t: Table, p: seq<Link>, k: nat) {
    k < |p| && p[k].addr in t && t[p[k].addr].quality > 0.0 &&
    forall j :: k < j < |p| ==> p[j].addr in t && t[p[j].addr].quality == 0.0
  }

  /** The last live node of the path is recorded no deeper than its place on it. */
  ghost predicate IsPaced(t: Table, depth: map<Addr, nat>, p: seq<Link>) {
    forall k: nat :: IsLastLive(t, p, k) ==> p[k].addr in depth && depth[p[k].addr] <= k + 1
  }

  /** The route to `d` is at least as good as every path, hops included. */
  ghost predicate IsBestRoute(m: Metric, g: Graph, t: Table, depth: map<Addr, nat>, d: Addr)
    requires d in t && d in depth
  {
    forall p :: LeadsTo(g, p, d) ==> Leq(QualityThenHops, LabelOf(t, depth, d), PathLabel(m, p))
  }

  /** Along a path the rest of which is dead, depths grow by at most one a link. */
  lemma {:induction false} DeadTail(m: Metric, g: Graph, t: Table, depth: map<Addr, nat>, p: seq<Link>)
    requires IsTree(m, g, t, depth) && IsRelaxed(m, QualityThenHops, g, t, depth) && CoversAllPaths(g, t)
    requires IsPath(g, p) && t[Last(p).addr].quality == 0.0 && IsPaced(t, depth, p)
    ensures depth[Last(p).addr] <= |p|
    decreases |p|
  {
    var l := Last(p);
    if |p| == 1 {
      assert StartsNoBetter(m, QualityThenHops, t, depth, l);
    } else {
      var u := Last(Init(p)).addr;
      assert Last(Init(p)).addr in t;
      if t[u].quality == 0.0 {
        PacedPrefix(g, t, depth, p);
        DeadTail(m, g, t, depth, Init(p));
      } else {
        assert IsLastLive(t, p, |p| - 2);
      }
      assert ExtendsNoBetter(m, QualityThenHops, t, depth, u, l);
      LiveLinkKeepsLive(t[u].quality, l.quality);
    }
  }

  lemma PacedPrefix(g: Graph, t: Table, depth: map<Addr, nat>, p: seq<Link>)
    requires IsPath(g, p) && |p| > 1 && CoversAllPaths(g, t)
    requires t[Last(p).addr].quality == 0.0 && IsPaced(t, depth, p)
    ensures IsPaced(t, depth, Init(p))
  {
    forall k: nat | IsLastLive(t, Init(p), k) ensures p[k].addr in depth && depth[p[k].addr] <= k + 1 {
      assert IsLastLive(t, p, k);
    }
  }

  /** The route read off the table keeps pace with itself. */
  lemma OwnPathIsPaced(m: Metric, g: Graph, t: Table, depth: map<Addr, nat>, d: Addr)
    requires IsTree(m, g, t, depth) && d in t
    ensures IsPaced(t, depth, TreePath(m, g, t, depth, d))
  {
    var p := TreePath(m, g, t, depth, d);
    forall k: nat | IsLastLive(t, p, k) ensures p[k].addr in depth && depth[p[k].addr] <= k + 1 {
      TreePathDepths(m, g, t, depth, d, k);
    }
  }

  /** Exactly which routes have minimal hops among the best paths: those of positive quality, and of the
      others those with a shortest path whose last live node is recorded no deeper than its place on it. */
  lemma BestRoutesAre(m: Metric, g: Graph, t: Table, depth: map<Addr, nat>, d: Addr)
    requires Multiplies(m) && CorrectTable(m, g, t, depth) && Admissible(m, QualityThenHops, g) && d in t
    ensures IsBestRoute(m, g, t, depth, d) <==>
            t[d].quality > 0.0 || exists p :: IsShortest(g, p, d) && IsPaced(t, depth, p)
  {
    if t[d].quality > 0.0 {
      forall p | LeadsTo(g, p, d) ensures Leq(QualityThenHops, LabelOf(t, depth, d), PathLabel(m, p)) {
        RankedRouteIsOptimal(m, QualityThenHops, g, t, depth, p);
      }
    } else {
      forall p | LeadsTo(g, p, d)
        ensures Leq(QualityThenHops, LabelOf(t, depth, d), PathLabel(m, p)) <==> depth[d] <= |p|
      {
        DeadPathLabel(m, g, t, depth, p);
      }
      DeadRouteIsShortest(m, g, t, depth, d);
    }
  }

  /** Every path to where the route has quality 0 has quality 0. */
  lemma DeadPathLabel(m: Metric, g: Graph, t: Table, depth: map<Addr, nat>, p: seq<Link>)
    requires Multiplies(m) && CorrectTable(m, g, t, depth) && Admissible(m, QualityThenHops, g)
    requires IsPath(g, p) && Last(p).addr in t && t[Last(p).addr].quality == 0.0
    ensures PathLabel(m, p) == Label(0.0, |p|)
  {
    assert IsOptimal(m, QualityThenHops, g, t, depth);
    HopsAreLength(m, p);
  }

  lemma {:induction false} HopsAreLength(m: Metric, p: seq<Link>)
    requires p != []
    ensures PathLabel(m, p).hops == |p|
    decreases |p|
  {
    if |p| > 1 {
      HopsAreLength(m, Init(p));
    }
  }

  lemma DeadRouteIsShortest(m: Metric, g: Graph, t: Table, depth: map<Addr, nat>, d: Addr)
    requires CorrectTable(m, g, t, depth) && Admissible(m, QualityThenHops, g) && d in t && t[d].quality == 0.0
    ensures (forall p :: LeadsTo(g, p, d) ==> depth[d] <= |p|) <==>
            exists p :: IsShortest(g, p, d) && IsPaced(t, depth, p)
  {
    assert IsRelaxed(m, QualityThenHops, g, t, depth);
    forall p | IsShortest(g, p, d) && IsPaced(t, depth, p) ensures depth[d] <= |p| {
      DeadTail(m, g, t, depth, p);
    }
    if forall p :: LeadsTo(g, p, d) ==> depth[d] <= |p| {
      TreePathRealises(m, g, t, depth, d);
      OwnPathIsPaced(m, g, t, depth, d);
      assert IsShortest(g, TreePath(m, g, t, depth, d), d);
    }
  }

  /** The table records quality `x` for the end of path `p`. */
  ghost predicate RecordsFor(g: Graph, t: Table, p: seq<Link>, x: real) {
    IsPath(g, p) && Last(p).addr in t && t[Last(p).addr].quality == x
  }

  /** Wherever a table records quality `x`, it records minimal hops among the best paths. */
  ghost predicate PromisesHops(m: Metric, x: real) {
    forall g, t, depth, p ::
      CorrectTable(m, g, t, depth) && Admissible(m, QualityThenHops, g) && RecordsFor(g, t, p, x) ==>
        Leq(QualityThenHops, LabelOf(t, depth, Last(p).addr), PathLabel(m, p))
  }

  /** So minimal hops are guaranteed by the recorded quality exactly if it is positive. */
  lemma HopsArePromised(m: Metric, x: real)
    requires Multiplies(m) && x >= 0.0
    ensures PromisesHops(m, x) <==> x > 0.0
  {
    if x > 0.0 {
      forall g, t, depth, p |
        CorrectTable(m, g, t, depth) && Admissible(m, QualityThenHops, g) && RecordsFor(g, t, p, x)
        ensures Leq(QualityThenHops, LabelOf(t, depth, Last(p).addr), PathLabel(m, p))
      {
        RankedRouteIsOptimal(m, QualityThenHops, g, t, depth, p);
      }
    } else {
      forall l | l in Detour().neighbors ensures l.addr != Mac(0) {
        DetourLinks(Mac(0), l);
      }
      var t, depth := RouteCalculation.CorrectTableExists(m, Detour());
      DetourIsTaken(m, t, depth);
      DirectPathIsPath(m);
      DetourIsAdmissible(m);
      assert RecordsFor(Detour(), t, DirectPath(), x);
    }
  }

  // ---------------------------------------------------------------- loops

  predicate LoopLink(a: nat, b: nat, q: nat) {
    match a
    case 0 => (b == 1 && q == 0) || (b == 4 && q == 100)
    case 1 => (b == 0 && q == 100) || (b == 2 && q == 1) || (b == 7 && q == 100)
    case 2 => b == 3 && q == 0
    case 4 => b == 5 && q == 0
    case 5 => b == 6 && q == 0
    case 6 => b == 3 && q == 0
    case 7 => b == 8 && q == 100
    case 8 => b == 9 && q == 100
    case 9 => b == 10 && q == 100
    case 10 => b == 2 && q == 100
    case _ => false
  }

  /** Node 3 lies behind dead links of 2 and of 6. From 0 a dead link leads to 1 and on to 2, from 1 a
      perfect link leads back to 0 and on to 4, 5 and 6; but 1 knows a perfect detour to 2. */
  function LoopNet(): Net {
    map[Mac(0) := [Link(Mac(1), 0), Link(Mac(4), 100)],
        Mac(1) := [Link(Mac(0), 100), Link(Mac(2), 1), Link(Mac(7), 100)],
        Mac(2) := [Link(Mac(3), 0)], Mac(3) := [],
        Mac(4) := [Link(Mac(5), 0)], Mac(5) := [Link(Mac(6), 0)], Mac(6) := [Link(Mac(3), 0)],
        Mac(7) := [Link(Mac(8), 100)], Mac(8) := [Link(Mac(9), 100)], Mac(9) := [Link(Mac(10), 100)],
        Mac(10) := [Link(Mac(2), 100)]]
  }

  lemma LoopLinks(a: Addr, l: Link)
    ensures a in LoopNet() <==> a.value <= 10
    ensures a in LoopNet() && l in LoopNet()[a] <==> LoopLink(a.value, l.addr.value, l.quality)
  {
  }

  lemma LoopLinkIsOk(a: Addr, l: Link)
    requires LoopLink(a.value, l.addr.value, l.quality)
    ensures l.addr in LoopNet() && l.addr != a && l.quality <= 100
  {
    LoopLinks(l.addr, l);
  }

  lemma LoopNetIsOk(m: Metric)
    requires Multiplies(m)
    ensures IsClosed(LoopNet()) && NetLinksOk(ProgressOrder(m), LoopNet()) && |LoopNet()| <= 256
  {
    forall u, l | u in LoopNet() && l in LoopNet()[u]
      ensures l.addr in LoopNet() && l.addr != u && l.quality <= 100
    {
      LoopLinks(u, l);
      LoopLinkIsOk(u, l);
    }
    forall a | a in LoopNet().Keys ensures a.value <= 10 {
      LoopLinks(a, Link(a, 0));
    }
    AddrsAreFew(LoopNet().Keys, 10);
  }

  lemma {:induction false} AddrsAreFew(s: set<Addr>, n: nat)
    requires forall a :: a in s ==> a.value <= n
    ensures |s| <= n + 1
  {
    var rest := s - {Mac(n)};
    if n == 0 {
      SubsetSize(s, {Mac(0)});
    } else {
      AddrsAreFew(rest, n - 1);
      SubsetSize(s, rest + {Mac(n)});
    }
  }

  ghost predicate IsLoopView(g: Graph, self: Addr) {
    g.self == self &&
    forall a, l {:trigger LeadsOut(g, a, l)} :: LeadsOut(g, a, l) <==> LoopLink(a.value, l.addr.value, l.quality)
  }

  lemma LoopView(u: Addr)
    requires u in LoopNet()
    ensures IsLoopView(View(LoopNet(), u), u)
  {
    forall a, l ensures LeadsOut(View(LoopNet(), u), a, l) <==> LoopLink(a.value, l.addr.value, l.quality) {
      LoopLinks(a, l);
    }
  }

  /** The only way from `a` on to `d`, as node `i` and `j` of the net. */
  lemma Step(m: Metric, g: Graph, t: Table, depth: map<Addr, nat>, i: nat, l: Label, nextHop: nat, j: nat, q: nat)
    requires Multiplies(m) && IsTree(m, g, t, depth) && IsRelaxed(m, QualityThenHops, g, t, depth)
    requires IsLoopView(g, g.self) && g.self != Mac(j) && j != 2 && j != 3 && LoopLink(i, j, q)
    requires At(g, t, depth, Mac(i), l, Mac(nextHop)) && l.quality >= 0.0
    ensures Records(t, depth, Mac(j), Over(m, g, Mac(i), l, q), Towards(g, Mac(i), Mac(nextHop), Mac(j)))
  {
    assert LeadsOut(g, Mac(i), Link(Mac(j), q));
    OnlyWay(m, g, t, depth, Mac(j), Mac(i), l, Mac(nextHop), q);
  }

  lemma Percents()
    ensures Attenuate(100.0, 100) == 100.0 && Attenuate(100.0, 0) == 0.0
    ensures forall q :: Attenuate(0.0, q) == 0.0
  {
  }

  /** Node 0 sees 2 through the dead link to 1, and 3 behind it. */
  lemma AtZero(m: Metric, g: Graph, t: Table, depth: map<Addr, nat>)
    requires Multiplies(m) && IsTree(m, g, t, depth) && IsRelaxed(m, QualityThenHops, g, t, depth)
    requires IsLoopView(g, Mac(0))
    ensures Records(t, depth, Mac(3), Label(0.0, 3), Mac(1))
  {
    var none := Label(0.0, 0);
    Percents();
    Step(m, g, t, depth, 0, none, 0, 1, 0);
    Step(m, g, t, depth, 1, Label(0.0, 1), 1, 7, 100);
    Step(m, g, t, depth, 7, Label(0.0, 2), 1, 8, 100);
    Step(m, g, t, depth, 8, Label(0.0, 3), 1, 9, 100);
    Step(m, g, t, depth, 9, Label(0.0, 4), 1, 10, 100);
    Step(m, g, t, depth, 0, none, 0, 4, 100);
    Step(m, g, t, depth, 4, Label(100.0, 1), 4, 5, 0);
    Step(m, g, t, depth, 5, Label(0.0, 2), 4, 6, 0);
    assert LeadsOut(g, Mac(1), Link(Mac(2), 1)) && LeadsOut(g, Mac(10), Link(Mac(2), 100));
    BetterWay(m, g, t, depth, Mac(2), Mac(1), Label(0.0, 1), Mac(1), 1, Mac(10), Label(0.0, 5), Mac(1), 100);
    assert LeadsOut(g, Mac(2), Link(Mac(3), 0)) && LeadsOut(g, Mac(6), Link(Mac(3), 0));
    BetterWay(m, g, t, depth, Mac(3), Mac(2), Label(0.0, 2), Mac(1), 0, Mac(6), Label(0.0, 3), Mac(4), 0);
  }

  /** Node 1 takes the detour to 2, and so finds 3 nearer through 0. */
  lemma AtOne(m: Metric, g: Graph, t: Table, depth: map<Addr, nat>)
    requires Multiplies(m) && IsTree(m, g, t, depth) && IsRelaxed(m, QualityThenHops, g, t, depth)
    requires IsLoopView(g, Mac(1))
    ensures Records(t, depth, Mac(3), Label(0.0, 5), Mac(0))
  {
    var none := Label(0.0, 0);
    Percents();
    Step(m, g, t, depth, 1, none, 1, 0, 100);
    Step(m, g, t, depth, 0, Label(100.0, 1), 0, 4, 100);
    Step(m, g, t, depth, 4, Label(100.0, 2), 0, 5, 0);
    Step(m, g, t, depth, 5, Label(0.0, 3), 0, 6, 0);
    Step(m, g, t, depth, 1, none, 1, 7, 100);
    Step(m, g, t, depth, 7, Label(100.0, 1), 7, 8, 100);
    Step(m, g, t, depth, 8, Label(100.0, 2), 7, 9, 100);
    Step(m, g, t, depth, 9, Label(100.0, 3), 7, 10, 100);
    assert LeadsOut(g, Mac(1), Link(Mac(2), 1)) && LeadsOut(g, Mac(10), Link(Mac(2), 100));
    BetterWay(m, g, t, depth, Mac(2), Mac(10), Label(100.0, 4), Mac(7), 100, Mac(1), none, Mac(1), 1);
    assert LeadsOut(g, Mac(2), Link(Mac(3), 0)) && LeadsOut(g, Mac(6), Link(Mac(3), 0));
    BetterWay(m, g, t, depth, Mac(3), Mac(6), Label(0.0, 4), Mac(0), 0, Mac(2), Label(100.0, 5), Mac(7), 0);
  }

  lemma SettledView(m: Metric, tables: map<Addr, Table>, depths: map<Addr, map<Addr, nat>>, u: Addr)
    requires Multiplies(m) && TablesCorrect(m, LoopNet(), tables, depths) && u in LoopNet()
    ensures var g := View(LoopNet(), u);
            IsTree(m, g, tables[u], depths[u]) && IsRelaxed(m, QualityThenHops, g, tables[u], depths[u]) &&
            IsLoopView(g, u)
  {
    LoopNetIsOk(m);
    ViewIsAdmissible(m, LoopNet(), u);
    LoopView(u);
    assert CorrectTable(m, View(LoopNet(), u), tables[u], depths[u]);
  }

  /** Whatever correct tables the nodes of that net have, the next hops for 3 lead to and fro between 0
      and 1. */
  lemma {:induction false} PacketLoops(m: Metric, tables: map<Addr, Table>, depths: map<Addr, map<Addr, nat>>,
                                       course: seq<Addr>, i: nat)
    requires Multiplies(m) && TablesCorrect(m, LoopNet(), tables, depths)
    requires i < |course| && course[0] == Mac(0) && IsCourse(tables, Mac(3), course)
    ensures course[i] == if i % 2 == 0 then Mac(0) else Mac(1)
  {
    if i > 0 {
      PacketLoops(m, tables, depths, course, i - 1);
      LoopStep(m, tables, depths, course[i - 1]);
    }
  }

  /** Every neighbour of every node. */
  function AllExits(net: Net): Exits {
    map u | u in net :: set l | l in net[u] :: l.addr
  }

  function ToAndFro(n: nat): seq<Addr> {
    seq(n, i => if i % 2 == 0 then Mac(0) else Mac(1))
  }

  /** And where every node has a best link to each of its neighbours, a packet goes that way for ever. */
  lemma PacketGoesOn(m: Metric, tables: map<Addr, Table>, depths: map<Addr, map<Addr, nat>>, n: nat)
    requires Multiplies(m) && TablesCorrect(m, LoopNet(), tables, depths)
    ensures IsTrace(tables, AllExits(LoopNet()), Mac(3), ToAndFro(n))
  {
    LoopStep(m, tables, depths, Mac(0));
    LoopStep(m, tables, depths, Mac(1));
    LoopExits();
    ToAndFroIsTrace(tables, AllExits(LoopNet()), Mac(3), n);
  }

  lemma ToAndFroIsTrace(tables: map<Addr, Table>, exits: Exits, d: Addr, n: nat)
    requires Mac(0) in tables && d in tables[Mac(0)] && tables[Mac(0)][d].nextHop == Mac(1)
    requires Mac(1) in tables && d in tables[Mac(1)] && tables[Mac(1)][d].nextHop == Mac(0)
    requires HasExit(exits, Mac(0), Mac(1)) && HasExit(exits, Mac(1), Mac(0))
    ensures IsTrace(tables, exits, d, ToAndFro(n))
  {
  }

  lemma LoopExits()
    ensures HasExit(AllExits(LoopNet()), Mac(0), Mac(1)) && HasExit(AllExits(LoopNet()), Mac(1), Mac(0))
  {
    LoopLinks(Mac(0), Link(Mac(1), 0));
    LoopLinks(Mac(1), Link(Mac(0), 100));
    assert Link(Mac(1), 0) in LoopNet()[Mac(0)] && Link(Mac(0), 100) in LoopNet()[Mac(1)];
  }

  lemma LoopStep(m: Metric, tables: map<Addr, Table>, depths: map<Addr, map<Addr, nat>>, u: Addr)
    requires Multiplies(m) && TablesCorrect(m, LoopNet(), tables, depths) && (u == Mac(0) || u == Mac(1))
    ensures u in tables && Mac(3) in tables[u]
    ensures tables[u][Mac(3)].nextHop == if u == Mac(0) then Mac(1) else Mac(0)
  {
    LoopLinks(u, Link(Mac(0), 0));
    SettledView(m, tables, depths, u);
    if u == Mac(0) {
      AtZero(m, View(LoopNet(), u), tables[u], depths[u]);
    } else {
      AtOne(m, View(LoopNet(), u), tables[u], depths[u]);
    }
  }

  // ---------------------------------------------------------------- delivery

  /** Node `u` of a sound net with correct tables records quality `x` for `d`; perhaps all neighbours
      have best links. */
  ghost predicate RoutesAt(m: Metric, net: Net, exits: Exits, tables: map<Addr, Table>,
                           depths: map<Addr, map<Addr, nat>>, u: Addr, d: Addr, x: real, full: bool) {
    IsClosed(net) && NetLinksOk(ProgressOrder(m), net) && |net| <= 256 && TablesCorrect(m, net, tables, depths) &&
    ExitsSound(net, exits) && (full ==> ExitsFull(net, exits)) &&
    u in net && d in tables[u] && tables[u][d].quality == x
  }

  /** Packets arrive wherever the sender records quality `x`. */
  ghost predicate PromisesDelivery(m: Metric, x: real, full: bool) {
    forall net, exits, tables, depths, u, d {:trigger RoutesAt(m, net, exits, tables, depths, u, d, x, full)} ::
      RoutesAt(m, net, exits, tables, depths, u, d, x, full) ==> exists trace :: IsDelivery(tables, exits, u, d, trace)
  }

  /** Delivery is guaranteed by the recorded quality exactly if it is positive; that all neighbours have
      best links does not help a route of quality 0. */
  lemma DeliveryIsPromised(m: Metric, x: real, full: bool)
    requires Multiplies(m) && x >= 0.0
    ensures PromisesDelivery(m, x, full) <==> x > 0.0
  {
    if x > 0.0 {
      forall net, exits, tables, depths, u, d | RoutesAt(m, net, exits, tables, depths, u, d, x, full)
        ensures exists trace :: IsDelivery(tables, exits, u, d, trace)
      {
        assert CorrectTable(m, View(net, u), tables[u], depths[u]);
        var course := Delivered(m, net, exits, tables, depths, u, d);
      }
    } else {
      LoopIsUndelivered(m, full);
    }
  }

  lemma LoopIsUndelivered(m: Metric, full: bool)
    requires Multiplies(m)
    ensures !PromisesDelivery(m, 0.0, full)
  {
    LoopNetIsOk(m);
    var tables, depths := CorrectTablesExist(m, LoopNet(), LoopNet().Keys);
    LoopRoutesAt(m, tables, depths, full);
    forall trace ensures !IsDelivery(tables, AllExits(LoopNet()), Mac(0), Mac(3), trace) {
      LoopNeverArrives(m, tables, depths, AllExits(LoopNet()), trace);
    }
    OneFailureIsEnough(m, LoopNet(), AllExits(LoopNet()), tables, depths, Mac(0), Mac(3), 0.0, full);
  }

  lemma OneFailureIsEnough(m: Metric, net: Net, exits: Exits, tables: map<Addr, Table>,
                           depths: map<Addr, map<Addr, nat>>, u: Addr, d: Addr, x: real, full: bool)
    requires RoutesAt(m, net, exits, tables, depths, u, d, x, full)
    requires forall trace :: !IsDelivery(tables, exits, u, d, trace)
    ensures !PromisesDelivery(m, x, full)
  {
  }

  lemma LoopRoutesAt(m: Metric, tables: map<Addr, Table>, depths: map<Addr, map<Addr, nat>>, full: bool)
    requires Multiplies(m) && TablesCorrect(m, LoopNet(), tables, depths)
    requires IsClosed(LoopNet()) && NetLinksOk(ProgressOrder(m), LoopNet()) && |LoopNet()| <= 256
    ensures RoutesAt(m, LoopNet(), AllExits(LoopNet()), tables, depths, Mac(0), Mac(3), 0.0, full)
  {
    LoopRoute(m, tables, depths);
  }

  lemma LoopRoute(m: Metric, tables: map<Addr, Table>, depths: map<Addr, map<Addr, nat>>)
    requires Multiplies(m) && TablesCorrect(m, LoopNet(), tables, depths)
    ensures Mac(0) in LoopNet() && Mac(3) in tables[Mac(0)] && tables[Mac(0)][Mac(3)].quality == 0.0
  {
    LoopLinks(Mac(0), Link(Mac(0), 0));
    SettledView(m, tables, depths, Mac(0));
    AtZero(m, View(LoopNet(), Mac(0)), tables[Mac(0)], depths[Mac(0)]);
  }

  lemma LoopNeverArrives(m: Metric, tables: map<Addr, Table>, depths: map<Addr, map<Addr, nat>>, exits: Exits,
                         trace: seq<Addr>)
    requires Multiplies(m) && TablesCorrect(m, LoopNet(), tables, depths)
    ensures !IsDelivery(tables, exits, Mac(0), Mac(3), trace)
  {
    if |trace| >= 2 && trace[0] == Mac(0) && IsTrace(tables, exits, Mac(3), trace) {
      PacketLoops(m, tables, depths, trace, |trace| - 1);
    }
  }

  // ---------------------------------------------------------------- neighbours without a best link

  /** Two nodes that hear each other at quality 0. */
  function FaintNet(): Net {
    map[Mac(0) := [Link(Mac(1), 0)], Mac(1) := [Link(Mac(0), 0)]]
  }

  function NoExits(): Exits {
    map[Mac(0) := {}, Mac(1) := {}]
  }

  /** With one neighbour alone, that is the next hop. */
  lemma OnlyNeighborRoute(m: Metric, g: Graph, t: Table, depth: map<Addr, nat>, l: Link)
    requires CorrectTable(m, g, t, depth) && g.neighbors == [l] && l.addr != g.self
    ensures l.addr in t && l.addr in depth && t[l.addr].nextHop == l.addr
  {
    assert [l][0] in g.neighbors;
    assert IsPath(g, [l]) && Last([l]).addr == l.addr;
    TreePathRealises(m, g, t, depth, l.addr);
  }

  lemma FaintTable(m: Metric, tables: map<Addr, Table>, depths: map<Addr, map<Addr, nat>>)
    requires TablesCorrect(m, FaintNet(), tables, depths)
    ensures Mac(0) in tables && Mac(0) in depths && Mac(1) in tables[Mac(0)] && Mac(1) in depths[Mac(0)]
    ensures tables[Mac(0)][Mac(1)].nextHop == Mac(1)
  {
    assert Mac(0) in FaintNet();
    assert CorrectTable(m, View(FaintNet(), Mac(0)), tables[Mac(0)], depths[Mac(0)]);
    OnlyNeighborRoute(m, View(FaintNet(), Mac(0)), tables[Mac(0)], depths[Mac(0)], Link(Mac(1), 0));
  }

  lemma NothingLeaves(tables: map<Addr, Table>, trace: seq<Addr>)
    ensures !IsDelivery(tables, NoExits(), Mac(0), Mac(1), trace)
  {
    if |trace| >= 2 && trace[0] == Mac(0) {
      assert !HasExit(NoExits(), trace[0], trace[1]);
    }
  }

  /** Each routes to the other with the destination as next hop, by hops or ETX sum over a live route;
      but while no best link has been set the packet is dropped. */
  lemma FaintNeighborDrops(m: Metric, tables: map<Addr, Table>, depths: map<Addr, map<Addr, nat>>)
    requires TablesCorrect(m, FaintNet(), tables, depths)
    ensures ExitsSound(FaintNet(), NoExits())
    ensures Mac(1) in tables[Mac(0)] && IsCourse(tables, Mac(1), [Mac(0), Mac(1)])
    ensures !Multiplies(m) ==> HasLiveRoute(m, tables[Mac(0)], depths[Mac(0)], Mac(1))
    ensures forall trace :: !IsDelivery(tables, NoExits(), Mac(0), Mac(1), trace)
  {
    FaintTable(m, tables, depths);
    forall trace ensures !IsDelivery(tables, NoExits(), Mac(0), Mac(1), trace) {
      NothingLeaves(tables, trace);
    }
  }

  lemma {:induction false} CorrectTablesExist(m: Metric, net: Net, s: set<Addr>)
      returns (tables: map<Addr, Table>, depths: map<Addr, map<Addr, nat>>)
    requires IsClosed(net) && s <= net.Keys
    ensures tables.Keys == depths.Keys == s
    ensures forall u {:trigger CorrectTable(m, View(net, u), tables[u], depths[u])} :: u in s ==>
              CorrectTable(m, View(net, u), tables[u], depths[u])
    decreases s
  {
    tables, depths := map[], map[];
    if s != {} {
      var u :| u in s;
      tables, depths := CorrectTablesExist(m, net, s - {u});
      var t, depth := RouteCalculation.CorrectTableExists(m, View(net, u));
      tables, depths := tables[u := t], depths[u := depth];
    }
  }
}
