/** What path weights are in numbers: sums of link costs and products of percentages, and what a better
    link is worth. */
module LinkCosts {
  import opened Basics
  import opened Weights
  import opened Paths

  // ---------------------------------------------------------------- sums and products

  /** Expected transmissions along a path: a link heard 100/n percent of the time costs n, a dead one
      100. */
  function EtxSum(p: seq<Link>): real {
    if p == [] then 0.0
    else (if p[0].quality == 0 then 100.0 else 100.0 / p[0].quality as real) + EtxSum(p[1..])
  }

  /** The share of packets that every link of a path lets through, of 1. */
  function Share(p: seq<Link>): (r: real)
    ensures r >= 0.0
  {
    if p == [] then 1.0 else p[0].quality as real / 100.0 * Share(p[1..])
  }

  /** The same in percent. */
  function Delivery(p: seq<Link>): real {
    100.0 * Share(p)
  }

  lemma {:induction false} EtxSumJoins(p: seq<Link>, q: seq<Link>)
    ensures EtxSum(p + q) == EtxSum(p) + EtxSum(q)
  {
    if p == [] {
      assert p + q == q;
    } else {
      assert (p + q)[1..] == p[1..] + q;
      EtxSumJoins(p[1..], q);
    }
  }

  lemma {:induction false} ShareJoins(p: seq<Link>, q: seq<Link>)
    ensures Share(p + q) == Share(p) * Share(q)
  {
    if p == [] {
      assert p + q == q;
    } else {
      assert (p + q)[1..] == p[1..] + q;
      ShareJoins(p[1..], q);
      Associates(p[0].quality as real / 100.0, Share(p[1..]), Share(q));
    }
  }

  lemma Associates(x: real, y: real, z: real)
    ensures x * (y * z) == (x * y) * z
  {
  }

  /** What a path's label records: its length, and for ETX-ADD the sum of its link costs, for the
      other metrics the percentage its links let through, a product of percentages. */
  lemma {:induction false} LabelInNumbers(m: Metric, p: seq<Link>)
    requires p != []
    ensures PathLabel(m, p) == Label(if m.EtxAdd? then EtxSum(p) else Delivery(p), |p|)
    decreases |p|
  {
    if |p| == 1 {
      SumOfOne(p[0]);
      ShareOfOne(p[0]);
      assert p == [p[0]];
    } else {
      LabelInNumbers(m, Init(p));
      if m.EtxAdd? {
        SumOfOneMore(p);
      } else {
        DeliveryOfOneMore(p);
      }
    }
  }

  lemma SumOfOne(l: Link)
    ensures EtxSum([l]) == CalculateEtx(l.quality)
  {
    assert [l][1..] == [];
  }

  lemma ShareOfOne(l: Link)
    ensures Share([l]) == l.quality as real / 100.0 && Delivery([l]) == l.quality as real
  {
    assert [l][1..] == [];
  }

  lemma SumOfOneMore(p: seq<Link>)
    requires p != []
    ensures EtxSum(p) == EtxSum(Init(p)) + CalculateEtx(Last(p).quality)
  {
    assert p == Init(p) + [Last(p)];
    SumOfOne(Last(p));
    EtxSumJoins(Init(p), [Last(p)]);
  }

  lemma DeliveryOfOneMore(p: seq<Link>)
    requires p != []
    ensures Delivery(p) == Attenuate(Delivery(Init(p)), Last(p).quality)
  {
    assert p == Init(p) + [Last(p)];
    ShareOfOne(Last(p));
    ShareJoins(Init(p), [Last(p)]);
    InPercent(Share(Init(p)), Last(p).quality as real);
  }

  lemma InPercent(x: real, q: real)
    ensures 100.0 * (x * (q / 100.0)) == 100.0 * x * q / 100.0
  {
  }

  /** Perfect links cost one each and lose nothing. */
  lemma {:induction false} PerfectLinks(p: seq<Link>)
    requires forall i :: 0 <= i < |p| ==> p[i].quality == 100
    ensures EtxSum(p) == |p| as real && Share(p) == 1.0
  {
    if p != [] {
      PerfectLinks(p[1..]);
    }
  }

  // ---------------------------------------------------------------- what a better link is worth

  /** The path with link `i` heard at quality `q`. */
  function WithLink(p: seq<Link>, i: nat, q: nat): seq<Link>
    requires i < |p|
  {
    p[i := Link(p[i].addr, q)]
  }

  /** A better link costs less, but for the step from 0 to 1, which both cost 100. */
  lemma BetterLinkCostsLess(was: nat, q: nat)
    requires q >= was
    ensures CalculateEtx(q) <= CalculateEtx(was)
    ensures CalculateEtx(q) < CalculateEtx(was) <==> q > was && q >= 2
  {
    if was > 0 {
      QuotientFalls(100.0, was as real, q as real);
    } else if q > 0 {
      QuotientFalls(100.0, 1.0, q as real);
    }
  }

  lemma QuotientFalls(a: real, b: real, c: real)
    requires a > 0.0 && 0.0 < b <= c
    ensures a / c <= a / b && (a / c < a / b <==> b < c)
  {
    var x, y := a / b, a / c;
    assert x * b == a && y * c == a && y > 0.0;
    if b < c {
      Grows(y, 0.0, c - b);
      assert (x - y) * b == y * (c - b);
      assert x - y > 0.0;
    }
  }

  lemma Grows(a: real, x: real, y: real)
    requires a >= 0.0 && x <= y
    ensures a * x <= a * y && (a * x < a * y <==> a > 0.0 && x < y)
  {
    assert a * (y - x) >= 0.0;
    assert a * y == a * x + a * (y - x);
  }

  /** Whether hearing link `i` of the path better makes the path better: always for ETX-ADD, but for the
      step from 0 to 1; for products if all other links are alive; never for hops. */
  predicate Gains(m: Metric, p: seq<Link>, i: nat, q: nat)
    requires i < |p|
  {
    q > p[i].quality &&
    match m
    case Plr | Etx => forall j :: 0 <= j < |p| && j != i ==> p[j].quality > 0
    case Hc => false
    case EtxAdd => q >= 2
  }

  /** Raising the quality of any link of a path never makes it worse, in any order its metric serves,
      and makes it better exactly as said. */
  lemma BetterLinkIsBetter(m: Metric, o: Order, p: seq<Link>, i: nat, q: nat)
    requires Serves(m, o) && i < |p| && q >= p[i].quality
    ensures Leq(o, PathLabel(m, WithLink(p, i, q)), PathLabel(m, p))
    ensures Less(o, PathLabel(m, WithLink(p, i, q)), PathLabel(m, p)) <==> Gains(m, p, i, q)
  {
    LabelInNumbers(m, p);
    LabelInNumbers(m, WithLink(p, i, q));
    if m.EtxAdd? {
      SumFalls(p, i, q);
    } else {
      DeliveryGrows(m, p, i, q);
    }
  }

  lemma {:induction false} SumFalls(p: seq<Link>, i: nat, q: nat)
    requires i < |p| && q >= p[i].quality
    ensures EtxSum(WithLink(p, i, q)) <= EtxSum(p)
    ensures EtxSum(WithLink(p, i, q)) < EtxSum(p) <==> q > p[i].quality && q >= 2
  {
    var r := WithLink(p, i, q);
    if i == 0 {
      assert r[1..] == p[1..];
      BetterLinkCostsLess(p[i].quality, q);
    } else {
      assert r[1..] == WithLink(p[1..], i - 1, q);
      SumFalls(p[1..], i - 1, q);
    }
  }

  lemma {:induction false} DeliveryGrows(m: Metric, p: seq<Link>, i: nat, q: nat)
    requires i < |p| && q >= p[i].quality && !m.EtxAdd?
    ensures PathLabel(m, WithLink(p, i, q)).quality >= PathLabel(m, p).quality
    ensures PathLabel(m, WithLink(p, i, q)).quality > PathLabel(m, p).quality <==>
            q > p[i].quality && forall j :: 0 <= j < |p| && j != i ==> p[j].quality > 0
    decreases |p|
  {
    var r := WithLink(p, i, q);
    if |p| > 1 {
      var x, y := PathLabel(m, Init(p)).quality, PathLabel(m, Init(r)).quality;
      assert forall j :: 0 <= j < |p| - 1 ==> Init(p)[j] == p[j];
      if i == |p| - 1 {
        assert Init(r) == Init(p);
        LivePathHasLiveLinks(m, Init(p));
        OverBetterLink(x, p[i].quality, q);
      } else {
        assert Init(r) == WithLink(Init(p), i, q);
        DeliveryGrows(m, Init(p), i, q);
        AfterBetterLink(x, y, Last(p).quality);
      }
    }
  }

  lemma OverBetterLink(x: real, was: nat, q: nat)
    requires x >= 0.0 && was <= q
    ensures Attenuate(x, was) <= Attenuate(x, q) && (Attenuate(x, was) < Attenuate(x, q) <==> x > 0.0 && was < q)
  {
    Grows(x, was as real, q as real);
  }

  lemma AfterBetterLink(x: real, y: real, q: nat)
    requires 0.0 <= x <= y
    ensures Attenuate(x, q) <= Attenuate(y, q) && (Attenuate(x, q) < Attenuate(y, q) <==> x < y && q > 0)
  {
    Grows(q as real, x, y);
  }

  // ---------------------------------------------------------------- what a correct table is worth

  /** In numbers: the route `r` is at least as good as the path `p`. Products need percentages, hop
      counts at most 256 nodes. */
  ghost predicate IsAsGood(m: Metric, g: Graph, r: seq<Link>, p: seq<Link>)
    requires r != [] && p != []
  {
    match m
    case Plr | Etx =>
      HasPercentages(g) ==>
        Delivery(r) >= Delivery(p) &&
        (|Universe(g)| <= 255 && Delivery(r) == Delivery(p) && Delivery(p) > 0.0 ==> |r| <= |p|)
    case Hc => |Universe(g)| <= 255 ==> |r| <= |p|
    case EtxAdd => EtxSum(r) <= EtxSum(p)
  }

  ghost predicate HasPercentages(g: Graph) {
    (forall l :: l in g.neighbors ==> l.quality <= 100) && forall u, l :: Edge(g, u, l) ==> l.quality <= 100
  }

  /** The entry is that of `r`: its first node, its length in a byte, its sum or product. */
  predicate IsEntryOf(m: Metric, e: Route, r: seq<Link>)
    requires r != []
  {
    e.nextHop == r[0].addr && e.hopCount == |r| % 256 &&
    e.quality == if m.EtxAdd? then EtxSum(r) else Delivery(r)
  }

  /** The route entry `e` to `d` is that of a path no other one is better than. */
  ghost predicate IsBestEntry(m: Metric, g: Graph, e: Route, d: Addr) {
    exists r :: LeadsTo(g, r, d) && IsEntryOf(m, e, r) && forall p :: LeadsTo(g, p, d) ==> IsAsGood(m, g, r, p)
  }

  ghost predicate IsBestTable(m: Metric, g: Graph, t: Table) {
    (forall d :: d in t ==> IsBestEntry(m, g, t[d], d)) && forall p :: IsPath(g, p) ==> Last(p).addr in t
  }

  /** A correct table holds, in numbers, a best path to every address that a path reaches. */
  lemma CorrectIsBest(m: Metric, g: Graph, t: Table, depth: map<Addr, nat>)
    requires CorrectTable(m, g, t, depth)
    ensures IsBestTable(m, g, t)
  {
    assert CoversAllPaths(g, t);
    forall d | d in t ensures IsBestEntry(m, g, t[d], d) {
      var r := TreePath(m, g, t, depth, d);
      TreePathRealises(m, g, t, depth, d);
      LabelInNumbers(m, r);
      assert LeadsTo(g, r, d) && IsEntryOf(m, t[d], r);
      forall p | LeadsTo(g, p, d) ensures IsAsGood(m, g, r, p) {
        TreePathIsAsGood(m, g, t, depth, d, p);
      }
    }
  }

  lemma TreePathIsAsGood(m: Metric, g: Graph, t: Table, depth: map<Addr, nat>, d: Addr, p: seq<Link>)
    requires CorrectTable(m, g, t, depth) && d in t && LeadsTo(g, p, d)
    ensures IsAsGood(m, g, TreePath(m, g, t, depth, d), p)
  {
    var r := TreePath(m, g, t, depth, d);
    TreePathRealises(m, g, t, depth, d);
    LabelInNumbers(m, r);
    LabelInNumbers(m, p);
    forall o | Admissible(m, o, g) && Ranks(o, PathLabel(m, p)) ensures Leq(o, PathLabel(m, r), PathLabel(m, p)) {
      assert IsOptimal(m, o, g, t, depth);
    }
    LeqInNumbers(m, g, r, p);
  }

  lemma LeqInNumbers(m: Metric, g: Graph, r: seq<Link>, p: seq<Link>)
    requires r != [] && p != []
    requires forall o :: Admissible(m, o, g) && Ranks(o, PathLabel(m, p)) ==> Leq(o, PathLabel(m, r), PathLabel(m, p))
    ensures IsAsGood(m, g, r, p)
  {
    LabelInNumbers(m, r);
    LabelInNumbers(m, p);
    match m
    case Hc => assert |Universe(g)| <= 255 ==> Admissible(m, HopsOnly, g);
    case EtxAdd => assert Admissible(m, CostAsc, g);
    case _ =>
      assert HasPercentages(g) ==> Admissible(m, QualityDesc, g);
      assert HasPercentages(g) && |Universe(g)| <= 255 ==> Admissible(m, QualityThenHops, g);
  }

  // ---------------------------------------------------------------- a better network has better routes

  /** The list has this link, heard at least as well. */
  predicate HasBetter(ls: seq<Link>, l: Link) {
    exists b :: b in ls && b.addr == l.addr && b.quality >= l.quality
  }

  /** `h` has every link of `g`, heard at least as well. */
  ghost predicate IsBetterNet(g: Graph, h: Graph) {
    g.self == h.self && (forall l :: l in g.neighbors ==> HasBetter(h.neighbors, l)) &&
    forall u, l :: Edge(g, u, l) ==> u in h.topo && HasBetter(h.topo[u], l)
  }

  /** As many hops, and no worse a sum or product. */
  predicate NoWorse(m: Metric, a: Label, b: Label) {
    a.hops == b.hops && if m.EtxAdd? then a.quality <= b.quality else a.quality >= b.quality
  }

  /** Each path of the one is a path of the other, as long and no worse. */
  lemma {:induction false} BetterPath(m: Metric, g: Graph, h: Graph, p: seq<Link>) returns (r: seq<Link>)
    requires IsBetterNet(g, h) && IsPath(g, p)
    ensures LeadsTo(h, r, Last(p).addr) && NoWorse(m, PathLabel(m, r), PathLabel(m, p))
    decreases |p|
  {
    if |p| == 1 {
      var b :| b in h.neighbors && b.addr == p[0].addr && b.quality >= p[0].quality;
      r := [b];
      BetterLinkCostsLess(p[0].quality, b.quality);
    } else {
      var u := Last(Init(p)).addr;
      var front := BetterPath(m, g, h, Init(p));
      var b :| b in h.topo[u] && b.addr == Last(p).addr && b.quality >= Last(p).quality;
      r := front + [b];
      assert Init(r) == front && Last(r) == b;
      BetterLabel(m, PathLabel(m, front), PathLabel(m, Init(p)), b.quality, Last(p).quality);
    }
  }

  lemma BetterLabel(m: Metric, a: Label, b: Label, q: nat, was: nat)
    requires q >= was && a.quality >= 0.0 && b.quality >= 0.0 && NoWorse(m, a, b)
    ensures NoWorse(m, Extend(m, a, q), Extend(m, b, was))
  {
    BetterLinkCostsLess(was, q);
    if !m.EtxAdd? {
      OverBetterLink(a.quality, was, q);
      AfterBetterLink(b.quality, a.quality, was);
    }
  }

  /** When links are heard better, or new ones appear, no route gets worse: what route calculation then
      leaves is at least as good in every order that the metric serves, for routes the order ranks. */
  lemma BetterNetHasBetterRoutes(m: Metric, o: Order, g: Graph, h: Graph, t: Table, depth: map<Addr, nat>,
                                 t': Table, depth': map<Addr, nat>, d: Addr)
    requires IsBetterNet(g, h) && CorrectTable(m, g, t, depth) && CorrectTable(m, h, t', depth') && d in t
    requires Admissible(m, o, h) && Ranks(o, LabelOf(t, depth, d))
    ensures d in t' && d in depth' && Leq(o, LabelOf(t', depth', d), LabelOf(t, depth, d))
  {
    TreePathRealises(m, g, t, depth, d);
    var r := BetterPath(m, g, h, TreePath(m, g, t, depth, d));
    NoWorseIsLeq(m, o, PathLabel(m, r), LabelOf(t, depth, d));
    assert CoversAllPaths(h, t');
    assert Leq(o, LabelOf(t', depth', d), PathLabel(m, r)) by { assert IsOptimal(m, o, h, t', depth'); }
    LeqIsTotalPreorder(o, LabelOf(t', depth', d), PathLabel(m, r), LabelOf(t, depth, d));
  }

  lemma NoWorseIsLeq(m: Metric, o: Order, a: Label, b: Label)
    requires Serves(m, o) && NoWorse(m, a, b)
    ensures Leq(o, a, b) && (Ranks(o, b) ==> Ranks(o, a))
  {
  }
}
