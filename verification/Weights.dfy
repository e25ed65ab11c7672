/** The path weights of the three selection orders of route calculation, as one algebra.

    A label is what a route accumulates: its quality (a product, or a sum for ETX-ADD) and its
    hop count. `Leq` reads "at least as good as". Everything Dijkstra needs of a metric is stated
    by the lemmas of this module; its proof uses nothing else about a metric. */
module Weights {

  datatype Metric = Plr | Hc | Etx | EtxAdd

  datatype Label = Label(quality: real, hops: nat)

  function CalculateEtx(q: nat): (cost: real)
    ensures cost > 0.0
  {
    if q == 0 then 100.0 else 100.0 / q as real
  }

  function Start(m: Metric, q: nat): (r: Label)
    ensures r.quality >= 0.0
  {
    Label(if m.EtxAdd? then CalculateEtx(q) else q as real, 1)
  }

  /** What is left of a product of percentages after one more link. */
  function Attenuate(x: real, q: nat): (r: real)
    requires x >= 0.0
    ensures r >= 0.0
  {
    x * q as real / 100.0
  }

  function Extend(m: Metric, a: Label, q: nat): (r: Label)
    requires a.quality >= 0.0
    ensures r.quality >= 0.0
  {
    Label(if m.EtxAdd? then a.quality + CalculateEtx(q) else Attenuate(a.quality, q), a.hops + 1)
  }

  /** What may be minimised: quality alone, quality and then hops, hops alone, or the ETX sum. */
  datatype Order = QualityDesc | QualityThenHops | HopsOnly | CostAsc

  predicate Leq(o: Order, a: Label, b: Label) {
    match o
    case QualityDesc => a.quality >= b.quality
    case QualityThenHops => a.quality > b.quality || (a.quality == b.quality && a.hops <= b.hops)
    case HopsOnly => a.hops <= b.hops
    case CostAsc => a.quality <= b.quality
  }

  predicate Less(o: Order, a: Label, b: Label) {
    Leq(o, a, b) && !Leq(o, b, a)
  }

  predicate UsesHops(o: Order) {
    o.QualityThenHops? || o.HopsOnly?
  }

  /** The orders a metric's comparator decides. */
  predicate Serves(m: Metric, o: Order) {
    match m
    case Plr | Etx => o.QualityDesc? || o.QualityThenHops?
    case Hc => o.HopsOnly?
    case EtxAdd => o.CostAsc?
  }

  /** The link qualities for which an order behaves: percentages for products. */
  predicate LinkOk(o: Order, q: nat) {
    o.QualityDesc? || o.QualityThenHops? ==> q <= 100
  }

  /** Whether an order ranks a route reliably: one of quality 0 has lost what its hops could have
      broken a tie about. */
  predicate Ranks(o: Order, a: Label) {
    o.QualityThenHops? ==> a.quality > 0.0
  }

  lemma LeqIsTotalPreorder(o: Order, a: Label, b: Label, c: Label)
    ensures Leq(o, a, a)
    ensures Leq(o, a, b) || Leq(o, b, a)
    ensures Leq(o, a, b) && Leq(o, b, c) ==> Leq(o, a, c)
    ensures Less(o, a, b) && Leq(o, b, c) ==> Less(o, a, c)
    ensures Leq(o, a, b) && Less(o, b, c) ==> Less(o, a, c)
  {
  }

  /** Attenuation keeps order, keeps it strictly over a live link, and never amplifies. */
  lemma AttenuateIsMonotone(x: real, y: real, q: nat)
    requires x >= y >= 0.0
    ensures Attenuate(x, q) >= Attenuate(y, q)
    ensures q <= 100 ==> Attenuate(x, q) <= x
    ensures q > 0 && x > y ==> Attenuate(x, q) > Attenuate(y, q)
  {
    ScaledPercent(x, y, q as real);
    if q <= 100 {
      ScaledPercent(100.0, q as real, x);
    }
    if q > 0 && x > y {
      LiveLinkKeepsStrict(x, y, q);
    }
  }

  lemma LiveLinkKeepsStrict(x: real, y: real, q: nat)
    requires x > y >= 0.0 && q > 0
    ensures Attenuate(x, q) > Attenuate(y, q)
  {
    ScaledPercent(x, y, q as real);
  }

  lemma LiveLinkKeepsLive(x: real, q: nat)
    requires x >= 0.0
    ensures Attenuate(x, q) > 0.0 <==> x > 0.0 && q > 0
  {
    assert Attenuate(0.0, q) == 0.0 == Attenuate(x, 0);
    if x > 0.0 && q > 0 {
      LiveLinkKeepsStrict(x, 0.0, q);
    }
  }

  lemma ScaledPercent(x: real, y: real, c: real)
    requires x >= y && c >= 0.0
    ensures x * c / 100.0 >= y * c / 100.0 && c * x / 100.0 >= c * y / 100.0
    ensures x > y && c > 0.0 ==> x * c / 100.0 > y * c / 100.0
  {
    ScalingIsMonotone(x, y, c);
    PercentIsMonotone(x * c, y * c);
  }

  lemma PercentIsMonotone(a: real, b: real)
    ensures a >= b ==> a / 100.0 >= b / 100.0
    ensures a > b ==> a / 100.0 > b / 100.0
  {
  }

  lemma ScalingIsMonotone(x: real, y: real, c: real)
    requires x >= y && c >= 0.0
    ensures x * c >= y * c && c * x >= c * y
    ensures x > y && c > 0.0 ==> x * c > y * c
  {
    var gap := (x - y) * c;
    assert gap >= 0.0;
    assert x > y && c > 0.0 ==> gap > 0.0;
    assert x * c == y * c + gap;
  }

  /** Isotonicity: a better prefix stays better across any further link, exactly unless hops break
      ties, the link is dead and the better prefix is the longer one. */
  lemma ExtendKeepsOrder(m: Metric, o: Order, a: Label, b: Label, q: nat)
    requires Serves(m, o) && LinkOk(o, q)
    requires a.quality >= 0.0 && b.quality >= 0.0
    requires Leq(o, a, b)
    ensures Leq(o, Extend(m, a, q), Extend(m, b, q)) <==> !(o.QualityThenHops? && q == 0 && a.hops > b.hops)
  {
    if !m.EtxAdd? && a.quality >= b.quality {
      AttenuateIsMonotone(a.quality, b.quality, q);
    }
    if q == 0 {
      assert Attenuate(a.quality, 0) == 0.0 == Attenuate(b.quality, 0);
    }
  }

  /** So over a dead link the tie-break by hops can turn the order of two prefixes around: the better
      one stays better exactly if it is not the longer one. */
  lemma DeadLinkBreaksTieBreak(m: Metric, a: Label, b: Label)
    requires Serves(m, QualityThenHops) && a.quality >= 0.0 && b.quality >= 0.0 && Leq(QualityThenHops, a, b)
    ensures Leq(QualityThenHops, Extend(m, a, 0), Extend(m, b, 0)) <==> a.hops <= b.hops
  {
    ExtendKeepsOrder(m, QualityThenHops, a, b, 0);
  }

  /** A route that is ranked reliably was so before its last link, and that link is alive. */
  lemma RankedPrefix(m: Metric, o: Order, a: Label, q: nat)
    requires Serves(m, o) && a.quality >= 0.0 && Ranks(o, Extend(m, a, q))
    ensures Ranks(o, a) && (o.QualityThenHops? ==> q > 0)
  {
    LiveLinkKeepsLive(a.quality, q);
  }

  /** Monotonicity: no link makes a route better. */
  lemma ExtendNeverImproves(m: Metric, o: Order, a: Label, q: nat)
    requires Serves(m, o) && LinkOk(o, q)
    requires a.quality >= 0.0
    ensures Leq(o, a, Extend(m, a, q))
  {
    if !m.EtxAdd? {
      AttenuateIsMonotone(a.quality, a.quality, q);
    }
  }
}
