/** From TC messages to delivery: nodes that have heard each other's links and rebuilt their tables
    forward packets without loops. */
module Convergence {
  import opened Basics
  import opened Weights
  import opened Paths
  import opened Queues
  import opened Topology
  import opened NodeDatabase
  import Network
  import SeqNumbers

  // ---------------------------------------------------------------- equal graphs, equal tables

  /** The same links, in whatever order they are listed. */
  ghost predicate SameLinks(g: Graph, h: Graph) {
    g.self == h.self && (forall l :: l in g.neighbors <==> l in h.neighbors) &&
    forall u, l :: Edge(g, u, l) <==> Edge(h, u, l)
  }

  lemma {:induction false} SamePaths(g: Graph, h: Graph, p: seq<Link>)
    requires SameLinks(g, h) && IsPath(g, p)
    ensures IsPath(h, p)
    decreases |p|
  {
    if |p| > 1 {
      SamePaths(g, h, Init(p));
    }
  }

  lemma SameTree(m: Metric, g: Graph, h: Graph, t: Table, depth: map<Addr, nat>)
    requires SameLinks(g, h) && IsTree(m, g, t, depth)
    ensures IsTree(m, h, t, depth)
  {
    forall d | d in t ensures HasHop(m, h, t, depth, d) {
      assert HasHop(m, g, t, depth, d);
      var q :| IsHop(m, g, t, depth, d, q);
      assert IsHop(m, h, t, depth, d, q);
    }
  }

  lemma SameUniverse(g: Graph, h: Graph)
    requires SameLinks(g, h)
    ensures Universe(g) <= Universe(h)
  {
    forall a | a in Universe(g) ensures a in Universe(h) {
      if l :| l in g.neighbors && l.addr == a {
        assert l in h.neighbors;
      } else {
        var u, l :| u in g.topo && l in g.topo[u] && l.addr == a;
        assert Edge(g, u, l);
        assert Edge(h, u, l);
      }
    }
  }

  /** Which tables are correct depends on the links alone, not on the order in which the daemon
      happens to walk its hash tables. */
  lemma SameTables(m: Metric, g: Graph, h: Graph, t: Table, depth: map<Addr, nat>)
    requires SameLinks(g, h) && CorrectTable(m, g, t, depth)
    ensures CorrectTable(m, h, t, depth)
  {
    SameTree(m, g, h, t, depth);
    SameUniverse(g, h);
    SameUniverse(h, g);
    assert Universe(g) == Universe(h);
    forall p | IsPath(h, p) ensures IsPath(g, p) {
      SamePaths(h, g, p);
    }
    forall o | Admissible(m, o, h) ensures IsOptimal(m, o, h, t, depth) && IsRelaxed(m, o, h, t, depth) {
      assert Admissible(m, o, g);
      assert IsOptimal(m, o, g, t, depth);
      SameRelaxed(m, o, g, h, t, depth);
    }
  }

  lemma SameRelaxed(m: Metric, o: Order, g: Graph, h: Graph, t: Table, depth: map<Addr, nat>)
    requires SameLinks(g, h) && IsTree(m, g, t, depth) && IsRelaxed(m, o, g, t, depth)
    requires IsTree(m, h, t, depth)
    ensures IsRelaxed(m, o, h, t, depth)
  {
    forall u, l | u in t && Edge(h, u, l) && l.addr != h.self ensures ExtendsNoBetter(m, o, t, depth, u, l) {
      assert Edge(g, u, l);
    }
  }

  // ---------------------------------------------------------------- the whole network

  /** Every node's links to its neighbours. */
  type LinkState = map<Addr, map<Addr, nat>>

  /** The topology set `v` holds what every other node advertises, and nothing else. */
  ghost predicate Knows(v: View, self: Addr, links: LinkState) {
    forall u :: (u in v <==> u in links && u != self && links[u] != map[]) && (u in v ==> v[u].nbrs == links[u])
  }

  ghost predicate LinkStateOk(o: Order, links: LinkState) {
    |links| <= 256 &&
    forall u, w :: u in links && w in links[u] ==> w in links && w != u && LinkOk(o, links[u][w])
  }

  /** Node `u` knows every other node's links and has built its table since. */
  ghost predicate IsSynced(m: Metric, links: LinkState, u: Addr, v: View, c: Calculation)
    requires u in links
  {
    Knows(v, u, links) && IsView(c.graph, u, links[u], v) && c.metric == m && Calculated(c)
  }

  ghost predicate Converged(m: Metric, links: LinkState, views: map<Addr, View>, tables: map<Addr, Calculation>) {
    views.Keys == links.Keys == tables.Keys &&
    forall u {:trigger IsSynced(m, links, u, views[u], tables[u])} :: u in links ==>
      IsSynced(m, links, u, views[u], tables[u])
  }

  /** The link `l` out of `a`. */
  predicate HasLink(links: LinkState, a: Addr, l: Link) {
    a in links && l.addr in links[a] && links[a][l.addr] == l.quality
  }

  /** A synced node routes over exactly the links of the network. */
  lemma SyncedLinks(m: Metric, links: LinkState, u: Addr, v: View, c: Calculation, a: Addr, l: Link)
    requires u in links && IsSynced(m, links, u, v, c)
    ensures c.graph.self == u
    ensures l in c.graph.neighbors <==> HasLink(links, u, l)
    ensures Edge(c.graph, a, l) <==> a != u && HasLink(links, a, l)
  {
    assert a in v <==> a in links && a != u && links[a] != map[];
  }

  ghost function NetOf(tables: map<Addr, Calculation>): Network.Net {
    map u | u in tables :: tables[u].graph.neighbors
  }

  lemma NetLinks(m: Metric, links: LinkState, views: map<Addr, View>, tables: map<Addr, Calculation>, u: Addr, l: Link)
    requires Converged(m, links, views, tables)
    ensures HasLink(links, u, l) <==> u in NetOf(tables) && l in NetOf(tables)[u]
  {
    if u in links {
      assert IsSynced(m, links, u, views[u], tables[u]);
      SyncedLinks(m, links, u, views[u], tables[u], u, l);
    }
  }

  /** In a converged network each node has routed over the one common graph. */
  lemma ViewsAgree(m: Metric, links: LinkState, views: map<Addr, View>, tables: map<Addr, Calculation>, u: Addr)
    requires Converged(m, links, views, tables) && u in links
    ensures SameLinks(tables[u].graph, Network.View(NetOf(tables), u))
  {
    assert IsSynced(m, links, u, views[u], tables[u]);
    forall a, l ensures l in tables[u].graph.neighbors <==> l in NetOf(tables)[u]
                ensures Edge(tables[u].graph, a, l) <==> Edge(Network.View(NetOf(tables), u), a, l)
    {
      SyncedLinks(m, links, u, views[u], tables[u], a, l);
      NetLinks(m, links, views, tables, a, l);
    }
    SyncedLinks(m, links, u, views[u], tables[u], u, Link(u, 0));
  }

  ghost function RoutesOf(tables: map<Addr, Calculation>): map<Addr, Table> {
    map a | a in tables :: tables[a].routes
  }

  ghost function DepthsOf(tables: map<Addr, Calculation>): map<Addr, map<Addr, nat>> {
    map a | a in tables :: tables[a].depth
  }

  lemma NetTablesCorrect(m: Metric, links: LinkState, views: map<Addr, View>, tables: map<Addr, Calculation>)
    requires Converged(m, links, views, tables)
    ensures Network.TablesCorrect(m, NetOf(tables), RoutesOf(tables), DepthsOf(tables))
  {
    var net := NetOf(tables);
    forall a | a in net ensures CorrectTable(m, Network.View(net, a), RoutesOf(tables)[a], DepthsOf(tables)[a]) {
      assert IsSynced(m, links, a, views[a], tables[a]);
      ViewsAgree(m, links, views, tables, a);
      SameTables(m, tables[a].graph, Network.View(net, a), tables[a].routes, tables[a].depth);
    }
  }

  /** Every node has a best link to its neighbours of positive quality, as its tables guarantee. */
  ghost predicate HasExits(links: LinkState, exits: Network.Exits) {
    exits.Keys == links.Keys && forall u, w :: u in links && w in links[u] && links[u][w] > 0 ==> w in exits[u]
  }

  /** Every node has a best link to each of its neighbours. */
  ghost predicate HasAllExits(links: LinkState, exits: Network.Exits) {
    exits.Keys == links.Keys && forall u, w :: u in links && w in links[u] ==> w in exits[u]
  }

  lemma NetExits(m: Metric, links: LinkState, views: map<Addr, View>, tables: map<Addr, Calculation>,
                 exits: Network.Exits)
    requires Converged(m, links, views, tables)
    ensures HasExits(links, exits) ==> Network.ExitsSound(NetOf(tables), exits)
    ensures HasAllExits(links, exits) ==> Network.ExitsFull(NetOf(tables), exits)
  {
    assert NetOf(tables).Keys == links.Keys;
    forall u, l | u in NetOf(tables) && l in NetOf(tables)[u]
      ensures HasExits(links, exits) && l.quality > 0 ==> l.addr in exits[u]
      ensures HasAllExits(links, exits) ==> l.addr in exits[u]
    {
      NetLinks(m, links, views, tables, u, l);
    }
  }

  /** Forwarding in a converged network. From any node with a live route the next hops lead to the
      destination and to no node twice. The packet arrives exactly if each node on the way has a best
      link to its next hop; for PLR and ETX they all have. */
  lemma ConvergedNetworkDelivers(m: Metric, links: LinkState, views: map<Addr, View>, tables: map<Addr, Calculation>,
                                 exits: Network.Exits, u: Addr, d: Addr) returns (course: seq<Addr>)
    requires Converged(m, links, views, tables) && LinkStateOk(Network.ProgressOrder(m), links)
    requires u in links && Network.HasLiveRoute(m, tables[u].routes, tables[u].depth, d)
    ensures |course| >= 2 && course[0] == u && course[|course| - 1] == d && |course| <= |links|
    ensures Network.IsCourse(RoutesOf(tables), d, course)
    ensures forall i, j :: 0 <= i < j < |course| ==> course[i] != course[j]
    ensures (exists trace :: Network.IsDelivery(RoutesOf(tables), exits, u, d, trace)) <==>
            Network.IsTrace(RoutesOf(tables), exits, d, course)
    ensures (Network.Multiplies(m) && HasExits(links, exits)) || HasAllExits(links, exits) ==>
              Network.IsTrace(RoutesOf(tables), exits, d, course)
  {
    NetTablesCorrect(m, links, views, tables);
    NetIsOk(m, links, views, tables);
    NetExits(m, links, views, tables, exits);
    assert NetOf(tables).Keys == links.Keys;
    assert |NetOf(tables)| == |NetOf(tables).Keys|;
    course := Network.Delivered(m, NetOf(tables), exits, RoutesOf(tables), DepthsOf(tables), u, d);
  }

  lemma NetIsOk(m: Metric, links: LinkState, views: map<Addr, View>, tables: map<Addr, Calculation>)
    requires Converged(m, links, views, tables) && LinkStateOk(Network.ProgressOrder(m), links)
    ensures var net := NetOf(tables); Network.IsClosed(net) && Network.NetLinksOk(Network.ProgressOrder(m), net)
  {
    forall u, l | u in NetOf(tables) && l in NetOf(tables)[u]
      ensures l.addr in links && l.addr != u && LinkOk(Network.ProgressOrder(m), l.quality)
    {
      NetLinks(m, links, views, tables, u, l);
    }
  }

  // ---------------------------------------------------------------- from TCs to a converged network

  /** The last TC that the run accepted from `u` lists exactly `nbrs` and has not expired; or `u` has
      no neighbours and is not known to have any. */
  ghost predicate LearntFrom(events: seq<Topology.Event>, u: Addr, nbrs: map<Addr, nat>, now: int) {
    if nbrs == map[] then forall i: nat :: LastAccepted(events, i, u) ==> events[i].tc.links == []
    else
      Unexpired(LatestDeadline(events, u), now).Some? &&
      exists i: nat :: LastAccepted(events, i, u) && Lists(events[i].tc.links, nbrs)
  }

  /** A node that accepts a neighbour-complete TC then stores exactly the sender's neighbour set, and
      has learnt it until the TC expires or another one comes. */
  lemma TcTeaches(events: seq<Topology.Event>, tc: Tc, nbrs: map<Addr, nat>, due: int, at: int, now: int)
    requires due > at && due > now && Accepts(RunEvents(events), tc) && Lists(tc.links, nbrs)
    ensures var r := RunEvents(events + [Received(tc, due, at)]);
            (tc.orig in r <==> nbrs != map[]) && (tc.orig in r ==> r[tc.orig].nbrs == nbrs)
    ensures LearntFrom(events + [Received(tc, due, at)], tc.orig, nbrs, now)
  {
    var n, r := |events|, events + [Received(tc, due, at)];
    Topology.RunGrows(events, Received(tc, due, at));
    TcEffect(RunEvents(events), tc, due, at, tc.orig);
    ListsAreMaps(tc.links, nbrs);
    assert r[..n] == events;
    assert LastAccepted(r, n, tc.orig);
    forall i: nat | LastAccepted(r, i, tc.orig) ensures i == n {
      LastAcceptedIsOne(r, i, n, tc.orig);
    }
  }

  /** Two nodes that share no tables. */
  predicate AreApart(a: Node, b: Node)
    reads a, b
  {
    a != b && a.ns != b.ns && a.ns.twoHop != b.ns.twoHop && a.topo != b.topo && a.table != b.table &&
    a.calculator != b.calculator
  }

  /** And that is what a TC emission at one node and its handling at another come to: while the sender has
      less than 256 neighbours and its message has room, the receiver has learnt all of them, with the
      qualities the sender has, until the TC expires. */
  method EmitAndLearn(sender: Node, receiver: Node, seqNum: nat, maxCount: nat, interval: nat, prevHop: Option<Addr>,
                      at: int) returns (ghost nbrs: map<Addr, nat>)
    requires sender.Valid() && receiver.Valid() && sender.self != receiver.self
    requires AreApart(sender, receiver)
    requires interval < 256 && SeqNumbers.IsSeq(seqNum)
    requires Accepts(receiver.topo.AsMap(), Tc(sender.self, seqNum, []))
    requires |sender.ns.tuples| < 256 && |sender.ns.tuples| <= maxCount
    modifies sender`history, sender.ns, sender.ns.twoHop
    modifies receiver`pendingRtc, receiver`history, receiver.ns, receiver.ns.twoHop, receiver.topo
    ensures receiver.Valid()
    ensures nbrs.Keys == sender.ns.tuples.Keys && forall a :: a in nbrs ==> nbrs[a] == sender.ns.tuples[a].quality
    ensures forall now :: now < at + Hold(interval, receiver.maxMissedTc) ==>
              LearntFrom(receiver.history.events, sender.self, nbrs, now)
  {
    var tc;
    tc, nbrs := EmitAll(sender, seqNum, maxCount, at);
    Learn(receiver, tc, nbrs, interval, prevHop, at);
  }

  method EmitAll(sender: Node, seqNum: nat, maxCount: nat, at: int) returns (tc: Tc, ghost nbrs: map<Addr, nat>)
    requires sender.Valid() && |sender.ns.tuples| < 256 && |sender.ns.tuples| <= maxCount
    modifies sender`history, sender.ns, sender.ns.twoHop
    ensures sender.Valid() && tc.orig == sender.self && tc.seqNum == seqNum && Lists(tc.links, nbrs)
    ensures nbrs.Keys == sender.ns.tuples.Keys && forall a :: a in nbrs ==> nbrs[a] == sender.ns.tuples[a].quality
  {
    ghost var was := sender.ns.tuples;
    tc := sender.MakeTc(seqNum, maxCount, at);
    nbrs := Qualities(sender.ns.tuples);
    FewerKeys(nbrs, was);
  }

  method Learn(receiver: Node, tc: Tc, ghost nbrs: map<Addr, nat>, interval: nat, prevHop: Option<Addr>, at: int)
    requires receiver.Valid() && tc.orig != receiver.self && interval < 256 && SeqNumbers.IsSeq(tc.seqNum)
    requires Accepts(receiver.topo.AsMap(), tc) && Lists(tc.links, nbrs)
    modifies receiver`pendingRtc, receiver`history, receiver.ns, receiver.ns.twoHop, receiver.topo
    ensures receiver.Valid()
    ensures forall now :: now < at + Hold(interval, receiver.maxMissedTc) ==>
              LearntFrom(receiver.history.events, tc.orig, nbrs, now)
  {
    ghost var events, due := receiver.history.events, at + Hold(interval, receiver.maxMissedTc);
    receiver.Story();
    var relay := receiver.HandleTc(tc, interval, prevHop, at);
    forall now | now < due ensures LearntFrom(receiver.history.events, tc.orig, nbrs, now) {
      TcTeaches(events, tc, nbrs, due, at, now);
    }
  }

  lemma FewerKeys<V, W>(m: map<Addr, V>, n: map<Addr, W>)
    requires m.Keys <= n.Keys
    ensures |m| <= |n|
  {
    SubsetSize(m.Keys, n.Keys);
    assert |m| == |m.Keys| && |n| == |n.Keys|;
  }

  /** By `now` the node `self` has learnt every other node's links, and heard from no stranger. */
  ghost predicate Learnt(events: seq<Topology.Event>, self: Addr, links: LinkState, now: int) {
    EventsBy(events, now) &&
    (forall i :: 0 <= i < |events| && events[i].Received? ==>
      events[i].due > events[i].at && events[i].tc.orig in links && events[i].tc.orig != self) &&
    forall u :: u in links && u != self ==> LearntFrom(events, u, links[u], now)
  }

  lemma LastAcceptedIsOne(events: seq<Topology.Event>, i: nat, j: nat, u: Addr)
    requires LastAccepted(events, i, u) && LastAccepted(events, j, u)
    ensures i == j
  {
  }

  /** A node that has learnt them holds exactly the links every other node has. */
  lemma LearntIsKnown(events: seq<Topology.Event>, self: Addr, links: LinkState, now: int)
    requires Learnt(events, self, links, now)
    ensures Knows(Unlapsed(RunEvents(events), now), self, links)
  {
    var v := Unlapsed(RunEvents(events), now);
    forall u ensures (u in v <==> u in links && u != self && links[u] != map[]) && (u in v ==> v[u].nbrs == links[u]) {
      var i := QueryAnswersLastAccepted(events, now, u);
      if u in v {
        var e := EntryIsLastAccepted(events, u);
        LastAcceptedIsOne(events, e, i, u);
        assert LearntFrom(events, u, links[u], now);
        LearntEntry(events, u, links[u], now, i);
      } else if u in links && u != self {
        assert LearntFrom(events, u, links[u], now);
      }
    }
  }

  lemma LearntEntry(events: seq<Topology.Event>, u: Addr, nbrs: map<Addr, nat>, now: int, i: nat)
    requires LearntFrom(events, u, nbrs, now) && LastAccepted(events, i, u) && events[i].tc.links != []
    ensures nbrs != map[] && LinkMap(events[i].tc.links) == nbrs
  {
    if nbrs != map[] {
      var j: nat :| LastAccepted(events, j, u) && Lists(events[j].tc.links, nbrs);
      LastAcceptedIsOne(events, i, j, u);
      ListsAreMaps(events[i].tc.links, nbrs);
    }
  }

  /** A node that learnt every other node's links by the time `now` at which it built its table. */
  ghost predicate BuiltAfterLearning(m: Metric, links: LinkState, u: Addr, events: seq<Topology.Event>, now: int,
                                     c: Calculation)
    requires u in links
  {
    Learnt(events, u, links, now) && IsView(c.graph, u, links[u], Unlapsed(RunEvents(events), now)) &&
    c.metric == m && Calculated(c)
  }

  /** That is how a node's own rebuild leaves it. */
  method BuildAfterLearning(node: Node, links: LinkState, now: int)
    requires node.Valid() && node.pendingRtc && node.self in links
    requires Learnt(node.history.events, node.self, links, now)
    modifies node`pendingRtc, node`built, node`history, node.ns, node.ns.twoHop, node.topo, node.table, node.calculator
    ensures node.Valid() && node.built.routes == node.table.routes
    ensures Qualities(node.ns.tuples) == links[node.self] ==>
              BuiltAfterLearning(node.metric, links, node.self, old(node.history).events, now, node.built)
    ensures Qualities(node.ns.tuples) == links[node.self] ==>
              forall w :: w in links[node.self] && links[node.self][w] > 0 ==> w in ExitsOf(node.ns.tuples)
  {
    node.Story();
    node.BuildRoutingTable(now);
    assert Calculated(node.built);
    SaneHasExits(node);
  }

  lemma SaneHasExits(node: Node)
    requires node.Valid()
    ensures forall w ::
              w in Qualities(node.ns.tuples) && Qualities(node.ns.tuples)[w] > 0 ==> w in ExitsOf(node.ns.tuples)
  {
  }

  function ViewsOf(runs: map<Addr, seq<Topology.Event>>, times: map<Addr, int>): map<Addr, View> {
    map u | u in runs && u in times :: Unlapsed(RunEvents(runs[u]), times[u])
  }

  ghost predicate AllBuilt(m: Metric, links: LinkState, runs: map<Addr, seq<Topology.Event>>, times: map<Addr, int>,
                           tables: map<Addr, Calculation>) {
    runs.Keys == times.Keys == tables.Keys == links.Keys &&
    forall u {:trigger BuiltAfterLearning(m, links, u, runs[u], times[u], tables[u])} :: u in links ==>
      BuiltAfterLearning(m, links, u, runs[u], times[u], tables[u])
  }

  /** From TCs to delivery: when every node has accepted the other nodes' complete TCs and then built
      its table, the network has converged. */
  lemma NetworkConverges(m: Metric, links: LinkState, runs: map<Addr, seq<Topology.Event>>, times: map<Addr, int>,
                         tables: map<Addr, Calculation>)
    requires AllBuilt(m, links, runs, times, tables)
    ensures Converged(m, links, ViewsOf(runs, times), tables)
  {
    var views := ViewsOf(runs, times);
    assert views.Keys == links.Keys == tables.Keys;
    forall u | u in links ensures IsSynced(m, links, u, views[u], tables[u]) {
      MemberIsSynced(m, links, runs, times, tables, u);
    }
    assert Converged(m, links, views, tables);
  }

  lemma MemberIsSynced(m: Metric, links: LinkState, runs: map<Addr, seq<Topology.Event>>, times: map<Addr, int>,
                       tables: map<Addr, Calculation>, u: Addr)
    requires AllBuilt(m, links, runs, times, tables) && u in links
    ensures IsSynced(m, links, u, ViewsOf(runs, times)[u], tables[u])
  {
    assert BuiltAfterLearning(m, links, u, runs[u], times[u], tables[u]);
    NodeIsSynced(m, links, u, runs[u], times[u], tables[u]);
  }

  lemma NodeIsSynced(m: Metric, links: LinkState, u: Addr, events: seq<Topology.Event>, now: int, c: Calculation)
    requires u in links && BuiltAfterLearning(m, links, u, events, now, c)
    ensures IsSynced(m, links, u, Unlapsed(RunEvents(events), now), c)
  {
    LearntIsKnown(events, u, links, now);
  }

  /** A walk along the links that does not come back to its start. */
  ghost predicate IsWalk(links: LinkState, walk: seq<Addr>) {
    |walk| >= 2 && walk[0] !in walk[1..] &&
    forall i :: 0 <= i < |walk| - 1 ==> walk[i] in links && walk[i + 1] in links[walk[i]]
  }

  /** In a converged network a node has a route to whomever the links lead to. */
  lemma ConvergedNetworkRoutes(m: Metric, links: LinkState, views: map<Addr, View>, tables: map<Addr, Calculation>,
                               walk: seq<Addr>)
    requires Converged(m, links, views, tables) && IsWalk(links, walk)
    ensures walk[|walk| - 1] in tables[walk[0]].routes
  {
    var u := walk[0];
    assert IsSynced(m, links, u, views[u], tables[u]);
    WalkPath(m, links, u, views[u], tables[u], walk);
    assert CoversAllPaths(tables[u].graph, tables[u].routes);
  }

  ghost predicate IsLiveWalk(links: LinkState, walk: seq<Addr>) {
    IsWalk(links, walk) && AllLive(LinksAlong(links, walk))
  }

  /** And where they lead over live links, its route is live: for PLR and ETX packets arrive, for the
      other metrics exactly if each node on the way has a best link to its next hop. */
  lemma LiveWalksDeliver(m: Metric, links: LinkState, views: map<Addr, View>, tables: map<Addr, Calculation>,
                         exits: Network.Exits, walk: seq<Addr>) returns (course: seq<Addr>)
    requires Converged(m, links, views, tables) && LinkStateOk(Network.ProgressOrder(m), links)
    requires IsLiveWalk(links, walk) && HasExits(links, exits)
    ensures |course| >= 2 && course[0] == walk[0] && course[|course| - 1] == walk[|walk| - 1] && |course| <= |links|
    ensures Network.IsCourse(RoutesOf(tables), walk[|walk| - 1], course)
    ensures forall i, j :: 0 <= i < j < |course| ==> course[i] != course[j]
    ensures var u, d := walk[0], walk[|walk| - 1];
            (exists trace :: Network.IsDelivery(RoutesOf(tables), exits, u, d, trace)) <==>
            Network.IsTrace(RoutesOf(tables), exits, d, course)
    ensures Network.Multiplies(m) || HasAllExits(links, exits) ==>
              Network.IsTrace(RoutesOf(tables), exits, walk[|walk| - 1], course)
  {
    LiveWalkIsRanked(m, links, views, tables, walk);
    course := ConvergedNetworkDelivers(m, links, views, tables, exits, walk[0], walk[|walk| - 1]);
  }

  lemma LiveWalkIsRanked(m: Metric, links: LinkState, views: map<Addr, View>, tables: map<Addr, Calculation>,
                         walk: seq<Addr>)
    requires Converged(m, links, views, tables) && LinkStateOk(Network.ProgressOrder(m), links)
    requires IsLiveWalk(links, walk)
    ensures var c := tables[walk[0]]; Network.HasLiveRoute(m, c.routes, c.depth, walk[|walk| - 1])
  {
    var u, p := walk[0], LinksAlong(links, walk);
    var c := tables[u];
    assert IsSynced(m, links, u, views[u], c);
    WalkPath(m, links, u, views[u], c, walk);
    if Network.ProgressOrder(m).QualityThenHops? {
      SyncedLinksOk(m, links, u, views[u], c);
    }
    LivePathIsRanked(m, c, p);
  }

  lemma LivePathIsRanked(m: Metric, c: Calculation, p: seq<Link>)
    requires c.metric == m && Calculated(c) && IsPath(c.graph, p) && AllLive(p)
    requires Network.ProgressOrder(m).QualityThenHops? ==> LinksOk(QualityDesc, c.graph)
    ensures Network.HasLiveRoute(m, c.routes, c.depth, Last(p).addr)
  {
    assert CoversAllPaths(c.graph, c.routes);
    if Network.ProgressOrder(m).QualityThenHops? {
      assert IsOptimal(m, QualityDesc, c.graph, c.routes, c.depth);
      LivePathHasLiveLinks(m, p);
    }
  }

  lemma SyncedLinksOk(m: Metric, links: LinkState, u: Addr, v: View, c: Calculation)
    requires u in links && IsSynced(m, links, u, v, c) && LinkStateOk(QualityThenHops, links)
    ensures LinksOk(QualityDesc, c.graph)
  {
    forall l | l in c.graph.neighbors ensures l.quality <= 100 {
      SyncedLinks(m, links, u, v, c, u, l);
      LinkStateLink(links, u, l);
    }
    forall a, l | Edge(c.graph, a, l) ensures l.quality <= 100 {
      SyncedLinks(m, links, u, v, c, a, l);
      LinkStateLink(links, a, l);
    }
  }

  lemma LinkStateLink(links: LinkState, a: Addr, l: Link)
    requires LinkStateOk(QualityThenHops, links)
    ensures HasLink(links, a, l) ==> l.quality <= 100
  {
    if HasLink(links, a, l) {
      var w := l.addr;
      assert w in links[a] && w in links;
    }
  }

  /** The links a walk takes. */
  ghost function LinksAlong(links: LinkState, walk: seq<Addr>): (p: seq<Link>)
    requires IsWalk(links, walk)
    ensures p != []
    decreases |walk|
  {
    var n := |walk| - 1;
    var l := Link(walk[n], links[walk[n - 1]][walk[n]]);
    if n == 1 then [l] else ShorterWalk(links, walk); LinksAlong(links, walk[..n]) + [l]
  }

  lemma ShorterWalk(links: LinkState, walk: seq<Addr>)
    requires IsWalk(links, walk) && |walk| > 2
    ensures IsWalk(links, walk[..|walk| - 1])
  {
    assert walk[..|walk| - 1][1..] == walk[1..][..|walk| - 2];
  }

  lemma {:induction false} WalkPath(m: Metric, links: LinkState, u: Addr, v: View, c: Calculation, walk: seq<Addr>)
    requires u in links && IsSynced(m, links, u, v, c) && IsWalk(links, walk) && walk[0] == u
    ensures var p := LinksAlong(links, walk); IsPath(c.graph, p) && Last(p).addr == walk[|walk| - 1]
    decreases |walk|
  {
    var p, n := LinksAlong(links, walk), |walk| - 1;
    var l := Link(walk[n], links[walk[n - 1]][walk[n]]);
    SyncedLinks(m, links, u, v, c, walk[n - 1], l);
    assert walk[n] == walk[1..][n - 1];
    if n > 1 {
      ShorterWalk(links, walk);
      WalkPath(m, links, u, v, c, walk[..n]);
      assert walk[n - 1] == walk[1..][n - 2];
      assert Init(p) == LinksAlong(links, walk[..n]);
    }
  }
}
