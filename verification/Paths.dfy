/** The link-state graph one node routes over, its paths, and what a routing table must satisfy. */
module Paths {
  import opened Basics
  import opened Weights

  /** `neighbors` is the neighbour set with best-link qualities, `topo` the topology set. */
  datatype Graph = Graph(self: Addr, neighbors: seq<Link>, topo: map<Addr, seq<Link>>)

  predicate Edge(g: Graph, u: Addr, l: Link) {
    u in g.topo && l in g.topo[u]
  }

  /** A path is the list of links taken. It leaves through the neighbour set, follows TC edges and
      never returns to the node itself, which is not part of its own routing table. */
  predicate IsPath(g: Graph, p: seq<Link>) {
    |p| > 0 &&
    Last(p).addr != g.self &&
    if |p| == 1 then p[0] in g.neighbors
    else IsPath(g, Init(p)) && Edge(g, Last(Init(p)).addr, Last(p))
  }

  predicate LeadsTo(g: Graph, p: seq<Link>, d: Addr) {
    IsPath(g, p) && Last(p).addr == d
  }

  function Last(p: seq<Link>): Link
    requires |p| > 0
  {
    p[|p| - 1]
  }

  function Init(p: seq<Link>): seq<Link>
    requires |p| > 0
  {
    p[..|p| - 1]
  }

  function PathLabel(m: Metric, p: seq<Link>): (r: Label)
    requires |p| > 0
    ensures r.quality >= 0.0
  {
    if |p| == 1 then Start(m, p[0].quality)
    else Extend(m, PathLabel(m, Init(p)), Last(p).quality)
  }

  function Addrs(ls: seq<Link>): set<Addr> {
    set l | l in ls :: l.addr
  }

  /** Every address a route could lead to. */
  function Universe(g: Graph): set<Addr> {
    Addrs(g.neighbors) + (set u, l | u in g.topo && l in g.topo[u] :: l.addr) - {g.self}
  }

  ghost predicate LinksOk(o: Order, g: Graph) {
    (forall l :: l in g.neighbors ==> LinkOk(o, l.quality)) &&
    (forall u, l :: Edge(g, u, l) ==> LinkOk(o, l.quality))
  }

  /** The orders in which the table is promised to be optimal. Orders that look at hops need the
      8-bit hop count not to wrap, so at most 256 nodes including this one. */
  ghost predicate Admissible(m: Metric, o: Order, g: Graph) {
    Serves(m, o) && LinksOk(o, g) && (UsesHops(o) ==> |Universe(g)| <= 255)
  }

  /** A routing table entry; the hop count is a byte. */
  datatype Route = Route(nextHop: Addr, precursor: Addr, hopCount: nat, quality: real)

  type Table = map<Addr, Route>

  /** The label a table records for `d`, with the true hop count instead of the stored byte. */
  ghost function LabelOf(t: Table, depth: map<Addr, nat>, d: Addr): Label
    requires d in t && d in depth
  {
    Label(t[d].quality, depth[d])
  }

  /** `d`'s entry is one real link beyond its precursor's entry (or beyond this node). */
  ghost predicate IsHop(m: Metric, g: Graph, t: Table, depth: map<Addr, nat>, d: Addr, q: nat)
    requires t.Keys == depth.Keys && d in t
  {
    t[d].hopCount == depth[d] % 256 &&
    if t[d].precursor == g.self then
      Link(d, q) in g.neighbors && t[d].nextHop == d && LabelOf(t, depth, d) == Start(m, q)
    else
      var u := t[d].precursor;
      u in t && t[u].quality >= 0.0 && Edge(g, u, Link(d, q)) && t[d].nextHop == t[u].nextHop &&
      LabelOf(t, depth, d) == Extend(m, LabelOf(t, depth, u), q)
  }

  ghost predicate HasHop(m: Metric, g: Graph, t: Table, depth: map<Addr, nat>, d: Addr)
    requires t.Keys == depth.Keys && d in t
  {
    exists q :: IsHop(m, g, t, depth, d, q)
  }

  /** The table is a tree rooted at this node whose edges are links of the graph. */
  ghost predicate IsTree(m: Metric, g: Graph, t: Table, depth: map<Addr, nat>) {
    t.Keys == depth.Keys && g.self !in t &&
    (forall d :: d in t ==> t[d].quality >= 0.0) &&
    forall d {:trigger HasHop(m, g, t, depth, d)} :: d in t ==> HasHop(m, g, t, depth, d)
  }

  ghost function HopQuality(m: Metric, g: Graph, t: Table, depth: map<Addr, nat>, d: Addr): (q: nat)
    requires IsTree(m, g, t, depth) && d in t
    ensures IsHop(m, g, t, depth, d, q)
  {
    assert HasHop(m, g, t, depth, d);
    var q :| IsHop(m, g, t, depth, d, q); q
  }

  /** The links from this node to `d`, read off the table by following precursors. */
  ghost function TreePath(m: Metric, g: Graph, t: Table, depth: map<Addr, nat>, d: Addr): (p: seq<Link>)
    requires IsTree(m, g, t, depth) && d in t
    ensures |p| > 0
    decreases depth[d]
  {
    var q := HopQuality(m, g, t, depth, d);
    (if t[d].precursor == g.self then [] else TreePath(m, g, t, depth, t[d].precursor)) + [Link(d, q)]
  }

  /** Following precursors from `d` takes exactly the recorded number of hops back to this node,
      over links whose qualities compose to the recorded one; the next hop is the first node. */
  lemma {:induction false} TreePathRealises(m: Metric, g: Graph, t: Table, depth: map<Addr, nat>, d: Addr)
    requires IsTree(m, g, t, depth) && d in t
    ensures var p := TreePath(m, g, t, depth, d);
            IsPath(g, p) && Last(p).addr == d && |p| == depth[d] && |p| % 256 == t[d].hopCount &&
            PathLabel(m, p) == LabelOf(t, depth, d) &&
            p[0].addr == t[d].nextHop && p[0] in g.neighbors
    decreases depth[d]
  {
    if t[d].precursor != g.self {
      var u := t[d].precursor;
      var q := HopQuality(m, g, t, depth, d);
      TreePathRealises(m, g, t, depth, u);
      var p := TreePath(m, g, t, depth, d);
      assert Init(p) == TreePath(m, g, t, depth, u);
    }
  }

  /** The nodes on the way to `d` are routed themselves, at strictly increasing depth. */
  lemma {:induction false} TreePathDepths(m: Metric, g: Graph, t: Table, depth: map<Addr, nat>, d: Addr, i: nat)
    requires IsTree(m, g, t, depth) && d in t
    requires i < |TreePath(m, g, t, depth, d)|
    ensures var v := TreePath(m, g, t, depth, d)[i].addr; v in t && depth[v] == i + 1
    decreases depth[d]
  {
    TreePathRealises(m, g, t, depth, d);
    var p := TreePath(m, g, t, depth, d);
    if i < |p| - 1 {
      assert t[d].precursor != g.self;
      assert p[i] == TreePath(m, g, t, depth, t[d].precursor)[i];
      TreePathDepths(m, g, t, depth, t[d].precursor, i);
    }
  }

  /** Each route of the table is at least as good as every path to its destination that the order
      ranks reliably. */
  ghost predicate IsOptimal(m: Metric, o: Order, g: Graph, t: Table, depth: map<Addr, nat>)
    requires t.Keys == depth.Keys
  {
    forall p :: IsPath(g, p) && Last(p).addr in t && Ranks(o, PathLabel(m, p)) ==>
      Leq(o, LabelOf(t, depth, Last(p).addr), PathLabel(m, p))
  }

  /** `l`'s entry is at least as good as taking link `l` from this node, or from `u`. */
  ghost predicate StartsNoBetter(m: Metric, o: Order, t: Table, depth: map<Addr, nat>, l: Link)
    requires t.Keys == depth.Keys
  {
    l.addr in t && Leq(o, LabelOf(t, depth, l.addr), Start(m, l.quality))
  }

  ghost predicate ExtendsNoBetter(m: Metric, o: Order, t: Table, depth: map<Addr, nat>, u: Addr, l: Link)
    requires t.Keys == depth.Keys && u in t && t[u].quality >= 0.0
  {
    l.addr in t && Leq(o, LabelOf(t, depth, l.addr), Extend(m, LabelOf(t, depth, u), l.quality))
  }

  /** No link improves any route, dead links included. */
  ghost predicate IsRelaxed(m: Metric, o: Order, g: Graph, t: Table, depth: map<Addr, nat>)
    requires IsTree(m, g, t, depth)
  {
    (forall l {:trigger StartsNoBetter(m, o, t, depth, l)} :: l in g.neighbors ==> StartsNoBetter(m, o, t, depth, l)) &&
    forall u, l {:trigger ExtendsNoBetter(m, o, t, depth, u, l)} ::
      u in t && Edge(g, u, l) && l.addr != g.self ==> ExtendsNoBetter(m, o, t, depth, u, l)
  }

  ghost predicate CoversAllPaths(g: Graph, t: Table) {
    forall p :: IsPath(g, p) ==> Last(p).addr in t
  }

  /** What route calculation promises of the table it leaves. */
  ghost predicate CorrectTable(m: Metric, g: Graph, t: Table, depth: map<Addr, nat>) {
    IsTree(m, g, t, depth) && CoversAllPaths(g, t) &&
    (|Universe(g)| <= 255 ==> forall d :: d in t ==> depth[d] == t[d].hopCount) &&
    forall o :: Admissible(m, o, g) ==> IsOptimal(m, o, g, t, depth) && IsRelaxed(m, o, g, t, depth)
  }

  /** A route of positive quality is optimal over every path, dead links or not; so is any route of
      the orders that do not break ties by hops. */
  lemma RankedRouteIsOptimal(m: Metric, o: Order, g: Graph, t: Table, depth: map<Addr, nat>, p: seq<Link>)
    requires CorrectTable(m, g, t, depth) && Admissible(m, o, g) && IsPath(g, p)
    requires Last(p).addr in t ==> Ranks(o, LabelOf(t, depth, Last(p).addr))
    ensures Last(p).addr in t && Leq(o, LabelOf(t, depth, Last(p).addr), PathLabel(m, p))
  {
    assert IsOptimal(m, o, g, t, depth);
  }

  predicate AllLive(p: seq<Link>) {
    forall i :: 0 <= i < |p| ==> p[i].quality > 0
  }

  /** A product of qualities is positive exactly along live links. */
  lemma {:induction false} LivePathHasLiveLinks(m: Metric, p: seq<Link>)
    requires p != [] && !m.EtxAdd?
    ensures PathLabel(m, p).quality > 0.0 <==> AllLive(p)
    decreases |p|
  {
    if |p| > 1 {
      var front, q := Init(p), Last(p).quality;
      LivePathHasLiveLinks(m, front);
      LiveLinkKeepsLive(PathLabel(m, front).quality, q);
      assert forall i :: 0 <= i < |front| ==> front[i] == p[i];
    }
  }

  /** The routes of positive quality are those to the addresses that live links lead to. */
  lemma LiveRouteHasLivePath(m: Metric, g: Graph, t: Table, depth: map<Addr, nat>, d: Addr)
    requires CorrectTable(m, g, t, depth) && Admissible(m, QualityDesc, g) && d in t
    ensures t[d].quality > 0.0 <==>
            exists p :: IsPath(g, p) && Last(p).addr == d && AllLive(p)
  {
    TreePathRealises(m, g, t, depth, d);
    LivePathHasLiveLinks(m, TreePath(m, g, t, depth, d));
    assert IsOptimal(m, QualityDesc, g, t, depth);
    forall p | IsPath(g, p) && Last(p).addr == d && AllLive(p)
      ensures t[d].quality > 0.0
    {
      LivePathHasLiveLinks(m, p);
    }
  }

  /** The keys of a correct table are exactly the addresses that paths reach. */
  lemma KeysAreReachable(m: Metric, g: Graph, t: Table, depth: map<Addr, nat>, d: Addr)
    requires CorrectTable(m, g, t, depth)
    ensures d in t <==> exists p :: IsPath(g, p) && Last(p).addr == d
  {
    if d in t {
      TreePathRealises(m, g, t, depth, d);
    }
  }
}
