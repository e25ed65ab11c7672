/** Hop-by-hop forwarding across nodes that each calculated their own table. */
module Network {
  import opened Basics
  import opened Weights
  import opened Paths

  /** The common link graph: every node's links to its neighbours. */
  type Net = map<Addr, seq<Link>>

  /** What node `u` routes over: its own links as neighbour set, the other nodes' links as topology
      set (a node drops its own TCs). */
  function View(net: Net, u: Addr): Graph
    requires u in net
  {
    Graph(u, net[u], net - {u})
  }

  ghost predicate IsClosed(net: Net) {
    forall u, l :: u in net && l in net[u] ==> l.addr in net && l.addr != u
  }

  ghost predicate NetLinksOk(o: Order, net: Net) {
    forall u, l :: u in net && l in net[u] ==> LinkOk(o, l.quality)
  }

  /** Every node's table is one route calculation leaves for that node's view. */
  ghost predicate TablesCorrect(m: Metric, net: Net, tables: map<Addr, Table>, depths: map<Addr, map<Addr, nat>>) {
    tables.Keys == net.Keys == depths.Keys &&
    forall u {:trigger CorrectTable(m, View(net, u), tables[u], depths[u])} :: u in net ==>
      CorrectTable(m, View(net, u), tables[u], depths[u])
  }

  /** The orders in which forwarding makes strict progress: quality with hop tie-break for PLR and
      ETX, hops for HC, the ETX sum for ETX-ADD. */
  function ProgressOrder(m: Metric): Order {
    match m
    case Plr | Etx => QualityThenHops
    case Hc => HopsOnly
    case EtxAdd => CostAsc
  }

  lemma ViewIsAdmissible(m: Metric, net: Net, u: Addr)
    requires IsClosed(net) && u in net && NetLinksOk(ProgressOrder(m), net) && |net| <= 256
    ensures Admissible(m, ProgressOrder(m), View(net, u))
    ensures forall l :: l in net[u] ==> l.addr != u
  {
    var g := View(net, u);
    assert Universe(g) <= net.Keys - {u};
    SubsetSize(Universe(g), net.Keys - {u});
  }

  /** Putting one more link in front of a path makes it strictly worse. */
  lemma {:induction false} PrependWorsens(m: Metric, l: Link, s: seq<Link>)
    requires |s| > 0
    requires m.Plr? || m.Etx? ==> l.quality <= 100
    ensures PathLabel(m, [l] + s).hops == PathLabel(m, s).hops + 1
    ensures m.EtxAdd? ==> PathLabel(m, [l] + s).quality > PathLabel(m, s).quality
    ensures m.Plr? || m.Etx? ==> PathLabel(m, [l] + s).quality <= PathLabel(m, s).quality
    decreases |s|
  {
    var p := [l] + s;
    assert Last(p) == Last(s);
    if |s| == 1 {
      assert Init(p) == [l];
      if !m.EtxAdd? {
        ProductOfTwo(l.quality, s[0].quality);
      }
    } else {
      assert Init(p) == [l] + Init(s);
      PrependWorsens(m, l, Init(s));
      if m.Plr? || m.Etx? {
        AttenuateIsMonotone(PathLabel(m, Init(s)).quality, PathLabel(m, Init(p)).quality, Last(s).quality);
      }
    }
  }

  lemma ProductOfTwo(a: nat, b: nat)
    ensures a <= 100 ==> Attenuate(a as real, b) <= b as real
  {
    if a <= 100 {
      assert a as real * b as real <= 100.0 * b as real;
    }
  }

  /** The rest of `u`'s path behind its next hop `n` is a path `n` itself may use. */
  lemma {:induction false} SuffixIsPath(net: Net, u: Addr, n: Addr, p: seq<Link>)
    requires u in net && n in net && n != u
    requires IsPath(View(net, u), p) && |p| > 1 && p[0].addr == n
    requires forall i :: 1 <= i < |p| ==> p[i].addr != n
    ensures IsPath(View(net, n), p[1..])
    decreases |p|
  {
    var s := p[1..];
    assert Last(s) == Last(p);
    if |p| > 2 {
      assert Init(p)[1..] == Init(s);
      SuffixIsPath(net, u, n, Init(p));
      assert Last(Init(s)) == Last(Init(p));
    }
  }

  /** A route visits its next hop only once. */
  lemma NextHopIsFirst(m: Metric, g: Graph, t: Table, depth: map<Addr, nat>, d: Addr, i: nat)
    requires IsTree(m, g, t, depth) && d in t
    requires var p := TreePath(m, g, t, depth, d); 1 <= i < |p|
    ensures TreePath(m, g, t, depth, d)[i].addr != t[d].nextHop
  {
    TreePathRealises(m, g, t, depth, d);
    TreePathDepths(m, g, t, depth, d, 0);
    TreePathDepths(m, g, t, depth, d, i);
  }

  /** Behind its first link a path that visits its first node once is strictly better, and the first
      node may use it. */
  lemma RestOfPath(m: Metric, net: Net, u: Addr, n: Addr, p: seq<Link>)
    requires IsClosed(net) && NetLinksOk(ProgressOrder(m), net) && u in net
    requires IsPath(View(net, u), p) && p[0] in net[u] && p[0].addr == n
    requires |p| > 1 && forall i :: 1 <= i < |p| ==> p[i].addr != n
    ensures n in net && IsPath(View(net, n), p[1..]) && Last(p[1..]) == Last(p)
    ensures Less(ProgressOrder(m), PathLabel(m, p[1..]), PathLabel(m, p))
    ensures Ranks(ProgressOrder(m), PathLabel(m, p)) ==> Ranks(ProgressOrder(m), PathLabel(m, p[1..]))
  {
    assert p == [p[0]] + p[1..];
    SuffixIsPath(net, u, n, p);
    PrependWorsens(m, p[0], p[1..]);
  }

  /** What lies behind the next hop on `u`'s own route: a path the next hop may use, strictly better
      than the route `u` recorded. */
  lemma RestOfRoute(m: Metric, net: Net, t: Table, depth: map<Addr, nat>, u: Addr, d: Addr) returns (s: seq<Link>)
    requires IsClosed(net) && NetLinksOk(ProgressOrder(m), net)
    requires u in net && IsTree(m, View(net, u), t, depth) && d in t
    ensures var n := t[d].nextHop;
            n in net && n != u && (exists l :: l in net[u] && l.addr == n) &&
            (n != d ==> |s| > 0 && IsPath(View(net, n), s) && Last(s).addr == d &&
                        Less(ProgressOrder(m), PathLabel(m, s), LabelOf(t, depth, d)) &&
                        (Ranks(ProgressOrder(m), LabelOf(t, depth, d)) ==> Ranks(ProgressOrder(m), PathLabel(m, s))))
  {
    var g, n := View(net, u), t[d].nextHop;
    var p := TreePath(m, g, t, depth, d);
    TreePathRealises(m, g, t, depth, d);
    assert p[0] in net[u];
    s := p[1..];
    if n != d {
      forall i | 1 <= i < |p| ensures p[i].addr != n {
        NextHopIsFirst(m, g, t, depth, d, i);
      }
      RestOfPath(m, net, u, n, p);
    }
  }

  /** `n`'s route to `d` is strictly better than `u`'s. */
  ghost predicate Closer(m: Metric, d: Addr, tn: Table, dn: map<Addr, nat>, tu: Table, du: map<Addr, nat>) {
    d in tn && d in dn && d in tu && d in du &&
    Less(ProgressOrder(m), LabelOf(tn, dn, d), LabelOf(tu, du, d))
  }

  /** `u` has a route to `d` that its metric ranks reliably: for PLR and ETX, one of positive quality. */
  ghost predicate HasLiveRoute(m: Metric, t: Table, depth: map<Addr, nat>, d: Addr) {
    d in t && d in depth && Ranks(ProgressOrder(m), LabelOf(t, depth, d))
  }

  /** One forwarding step along a live route: the next hop exists, and unless it is the destination
      its own route to `d` is live again and strictly better than the sender's. */
  lemma NextHopImproves(m: Metric, net: Net, tables: map<Addr, Table>, depths: map<Addr, map<Addr, nat>>,
                        u: Addr, d: Addr)
    requires IsClosed(net) && NetLinksOk(ProgressOrder(m), net) && |net| <= 256
    requires TablesCorrect(m, net, tables, depths)
    requires u in net && HasLiveRoute(m, tables[u], depths[u], d)
    ensures var n := tables[u][d].nextHop;
            n in net && n != u && (exists l :: l in net[u] && l.addr == n) &&
            (n == d || (HasLiveRoute(m, tables[n], depths[n], d) &&
                        Closer(m, d, tables[n], depths[n], tables[u], depths[u])))
  {
    var o, n := ProgressOrder(m), tables[u][d].nextHop;
    assert CorrectTable(m, View(net, u), tables[u], depths[u]);
    var s := RestOfRoute(m, net, tables[u], depths[u], u, d);
    if n != d {
      ViewIsAdmissible(m, net, n);
      assert CorrectTable(m, View(net, n), tables[n], depths[n]);
      assert IsOptimal(m, o, View(net, n), tables[n], depths[n]);
      LeqIsTotalPreorder(o, LabelOf(tables[n], depths[n], d), PathLabel(m, s), LabelOf(tables[u], depths[u], d));
    }
  }

  // ---------------------------------------------------------------- forwarding

  /** For each node the neighbours it has a best link to. A neighbour may have none: it is in the
      neighbour set and routed over, but a packet for it is dropped. */
  type Exits = map<Addr, set<Addr>>

  /** What every node's tables guarantee: a neighbour of positive quality has a best link. */
  ghost predicate ExitsSound(net: Net, exits: Exits) {
    exits.Keys == net.Keys && forall u, l :: u in net && l in net[u] && l.quality > 0 ==> l.addr in exits[u]
  }

  /** Every neighbour has a best link. */
  ghost predicate ExitsFull(net: Net, exits: Exits) {
    exits.Keys == net.Keys && forall u, l :: u in net && l in net[u] ==> l.addr in exits[u]
  }

  /** Where the recorded next hops lead. */
  ghost predicate IsCourse(tables: map<Addr, Table>, d: Addr, course: seq<Addr>) {
    forall i :: 0 <= i < |course| - 1 ==>
      course[i] in tables && d in tables[course[i]] && course[i + 1] == tables[course[i]][d].nextHop
  }

  /** `u` can hand a packet to `n`. */
  predicate HasExit(exits: Exits, u: Addr, n: Addr) {
    u in exits && n in exits[u]
  }

  /** A forwarding trace: each node looks up its own next hop for `d` and hands the packet over the
      best link to it. */
  ghost predicate IsTrace(tables: map<Addr, Table>, exits: Exits, d: Addr, trace: seq<Addr>) {
    IsCourse(tables, d, trace) && forall i :: 0 <= i < |trace| - 1 ==> HasExit(exits, trace[i], trace[i + 1])
  }

  ghost predicate IsDelivery(tables: map<Addr, Table>, exits: Exits, u: Addr, d: Addr, trace: seq<Addr>) {
    |trace| >= 2 && trace[0] == u && trace[|trace| - 1] == d && IsTrace(tables, exits, d, trace)
  }

  /** The metrics that multiply qualities and break ties by hops. */
  predicate Multiplies(m: Metric) {
    m.Plr? || m.Etx?
  }

  /** Loop freedom and delivery. From a node with a live route the next hops lead to the destination
      and to no node twice. A packet arrives exactly if each node on the way has a best link to its next
      hop; for PLR and ETX they all have, since a live route leaves over a neighbour of positive
      quality. */
  lemma Delivered(m: Metric, net: Net, exits: Exits, tables: map<Addr, Table>, depths: map<Addr, map<Addr, nat>>,
                  u: Addr, d: Addr) returns (course: seq<Addr>)
    requires IsClosed(net) && NetLinksOk(ProgressOrder(m), net) && |net| <= 256
    requires TablesCorrect(m, net, tables, depths)
    requires u in net && HasLiveRoute(m, tables[u], depths[u], d)
    ensures |course| >= 2 && course[0] == u && course[|course| - 1] == d
    ensures IsCourse(tables, d, course)
    ensures forall i, j :: 0 <= i < j < |course| ==> course[i] != course[j]
    ensures |course| <= |net|
    ensures (exists trace :: IsDelivery(tables, exits, u, d, trace)) <==> IsTrace(tables, exits, d, course)
    ensures (Multiplies(m) && ExitsSound(net, exits)) || ExitsFull(net, exits) ==> IsTrace(tables, exits, d, course)
  {
    course := DeliveredAvoiding(m, net, tables, depths, u, d, {});
    TraceFits(net, course);
    if IsTrace(tables, exits, d, course) {
      assert IsDelivery(tables, exits, u, d, course);
    }
    forall trace | IsDelivery(tables, exits, u, d, trace) ensures IsTrace(tables, exits, d, course) {
      DeliveryTakesCourse(tables, exits, u, d, course, trace);
    }
    if (Multiplies(m) && ExitsSound(net, exits)) || ExitsFull(net, exits) {
      forall i | 0 <= i < |course| - 1 ensures HasExit(exits, course[i], course[i + 1]) {
        assert course[i] in course;
        LiveRouteHasExit(m, net, exits, tables, depths, course[i], d);
      }
    }
  }

  lemma {:induction false} CourseIsOnly(tables: map<Addr, Table>, d: Addr, s: seq<Addr>, t: seq<Addr>, i: nat)
    requires IsCourse(tables, d, s) && IsCourse(tables, d, t) && i < |s| && i < |t| && s[0] == t[0]
    ensures s[i] == t[i]
  {
    if i > 0 {
      CourseIsOnly(tables, d, s, t, i - 1);
    }
  }

  /** A packet that arrives has gone all along the course. */
  lemma DeliveryTakesCourse(tables: map<Addr, Table>, exits: Exits, u: Addr, d: Addr, course: seq<Addr>,
                            trace: seq<Addr>)
    requires |course| >= 2 && course[0] == u && course[|course| - 1] == d && IsCourse(tables, d, course)
    requires forall i, j :: 0 <= i < j < |course| ==> course[i] != course[j]
    requires IsDelivery(tables, exits, u, d, trace)
    ensures IsTrace(tables, exits, d, course)
  {
    if |trace| < |course| {
      CourseIsOnly(tables, d, course, trace, |trace| - 1);
    }
    forall i | 0 <= i < |course| - 1 ensures HasExit(exits, course[i], course[i + 1]) {
      CourseIsOnly(tables, d, course, trace, i);
      CourseIsOnly(tables, d, course, trace, i + 1);
    }
  }

  /** A live route leaves over a best link: always where all neighbours have one, and for PLR and ETX
      where those of positive quality have. */
  lemma LiveRouteHasExit(m: Metric, net: Net, exits: Exits, tables: map<Addr, Table>, depths: map<Addr, map<Addr, nat>>,
                         u: Addr, d: Addr)
    requires TablesCorrect(m, net, tables, depths) && u in net && HasLiveRoute(m, tables[u], depths[u], d)
    requires (Multiplies(m) && ExitsSound(net, exits)) || ExitsFull(net, exits)
    ensures HasExit(exits, u, tables[u][d].nextHop)
  {
    var g, t, depth := View(net, u), tables[u], depths[u];
    assert CorrectTable(m, g, t, depth);
    TreePathRealises(m, g, t, depth, d);
    var p := TreePath(m, g, t, depth, d);
    assert p[0] in net[u];
    if Multiplies(m) {
      LivePathHasLiveLinks(m, p);
      assert p[0].quality > 0;
    }
  }

  ghost predicate CloserThanAll(m: Metric, d: Addr, tables: map<Addr, Table>, depths: map<Addr, map<Addr, nat>>,
                                u: Addr, seen: set<Addr>)
    requires u in tables && u in depths && seen <= tables.Keys && seen <= depths.Keys
  {
    forall v {:trigger tables[v]} :: v in seen ==> Closer(m, d, tables[u], depths[u], tables[v], depths[v])
  }

  lemma CloserIsTransitive(m: Metric, d: Addr, ta: Table, da: map<Addr, nat>, tb: Table, db: map<Addr, nat>,
                           tc: Table, dc: map<Addr, nat>)
    requires Closer(m, d, ta, da, tb, db) && Closer(m, d, tb, db, tc, dc)
    ensures Closer(m, d, ta, da, tc, dc)
  {
    LeqIsTotalPreorder(ProgressOrder(m), LabelOf(ta, da, d), LabelOf(tb, db, d), LabelOf(tc, dc, d));
  }

  lemma StepKeepsClosest(m: Metric, d: Addr, tables: map<Addr, Table>, depths: map<Addr, map<Addr, nat>>,
                         n: Addr, u: Addr, seen: set<Addr>)
    requires n in tables && n in depths && u in tables && u in depths
    requires seen <= tables.Keys && seen <= depths.Keys
    requires CloserThanAll(m, d, tables, depths, u, seen)
    requires Closer(m, d, tables[n], depths[n], tables[u], depths[u])
    ensures CloserThanAll(m, d, tables, depths, n, seen + {u})
    ensures n !in seen + {u}
  {
    forall v | v in seen ensures Closer(m, d, tables[n], depths[n], tables[v], depths[v]) {
      assert Closer(m, d, tables[u], depths[u], tables[v], depths[v]);
      CloserIsTransitive(m, d, tables[n], depths[n], tables[u], depths[u], tables[v], depths[v]);
    }
  }

  lemma NoRouteToSelf(m: Metric, net: Net, tables: map<Addr, Table>, depths: map<Addr, map<Addr, nat>>, u: Addr)
    requires TablesCorrect(m, net, tables, depths) && u in net
    ensures u !in tables[u]
  {
    assert CorrectTable(m, View(net, u), tables[u], depths[u]);
  }

  lemma ConsCourse(tables: map<Addr, Table>, d: Addr, u: Addr, rest: seq<Addr>)
    requires rest != [] && IsCourse(tables, d, rest) && u !in rest
    requires u in tables && d in tables[u] && rest[0] == tables[u][d].nextHop
    requires forall i, j :: 0 <= i < j < |rest| ==> rest[i] != rest[j]
    ensures IsCourse(tables, d, [u] + rest)
    ensures var course := [u] + rest; forall i, j :: 0 <= i < j < |course| ==> course[i] != course[j]
  {
  }

  lemma {:induction false} DeliveredAvoiding(m: Metric, net: Net, tables: map<Addr, Table>,
                                             depths: map<Addr, map<Addr, nat>>, u: Addr, d: Addr, seen: set<Addr>)
      returns (course: seq<Addr>)
    requires IsClosed(net) && NetLinksOk(ProgressOrder(m), net) && |net| <= 256
    requires TablesCorrect(m, net, tables, depths)
    requires u in net && HasLiveRoute(m, tables[u], depths[u], d) && u !in seen
    requires seen <= net.Keys && d !in seen
    requires CloserThanAll(m, d, tables, depths, u, seen)
    ensures |course| >= 2 && course[0] == u && course[|course| - 1] == d
    ensures IsCourse(tables, d, course)
    ensures forall i, j :: 0 <= i < j < |course| ==> course[i] != course[j]
    ensures forall v :: v in course ==> v in net && v !in seen
    ensures forall i :: 0 <= i < |course| - 1 ==> HasLiveRoute(m, tables[course[i]], depths[course[i]], d)
    decreases net.Keys - seen
  {
    var n := tables[u][d].nextHop;
    NextHopImproves(m, net, tables, depths, u, d);
    NoRouteToSelf(m, net, tables, depths, u);
    if n == d {
      course := [u, d];
    } else {
      StepKeepsClosest(m, d, tables, depths, n, u, seen);
      var rest := DeliveredAvoiding(m, net, tables, depths, n, d, seen + {u});
      course := [u] + rest;
      ConsCourse(tables, d, u, rest);
    }
  }

  lemma TraceFits(net: Net, trace: seq<Addr>)
    requires forall v :: v in trace ==> v in net
    requires forall i, j :: 0 <= i < j < |trace| ==> trace[i] != trace[j]
    ensures |trace| <= |net|
  {
    var visited := set v | v in trace;
    DistinctCount(trace);
    SubsetSize(visited, net.Keys);
  }

  lemma {:induction false} DistinctCount(s: seq<Addr>)
    requires forall i, j :: 0 <= i < j < |s| ==> s[i] != s[j]
    ensures |set v | v in s| == |s|
  {
    if s != [] {
      var front := s[..|s| - 1];
      DistinctCount(front);
      assert (set v | v in s) == (set v | v in front) + {s[|s| - 1]};
    } else {
      assert (set v | v in s) == {};
    }
  }
}
