/** One node: its tables and the steps that change them. */
module NodeDatabase {
  import opened Basics
  import opened Weights
  import opened Paths
  import opened TimeCode
  import opened Queues
  import opened TwoHop
  import opened Neighbors
  import opened Hello
  import opened Topology
  import RouteCalculation
  import MprSelection
  import SeqNumbers

  // ---------------------------------------------------------------- steps of the neighbourhood

  /** What a step does to the neighbour tables. */
  datatype Move = Heard(msg: Msg, from: Arrival, due: int, at: int) | Reselect(at: int) | Lapse(at: int)

  /** Relays are chosen anew, after whatever is due has gone. */
  ghost predicate Reselected(now: int, s0: Snap, s: Snap) {
    var lapsed := Lapsed(s0.ts, now);
    s.ts == Live(s0.ts, now) &&
    exists cands, twoHops ::
      MprSelection.Selected(s0.tuples - lapsed, s0.oneHop - lapsed, now, cands, twoHops, s.tuples, s.oneHop)
  }

  ghost predicate Moves(self: Addr, m: Metric, locals: set<Addr>, s0: Snap, e: Move, s: Snap) {
    match e
    case Heard(msg, from, due, now) => msg.orig != self && HelloEffect(self, m, locals, msg, from, due, now, s0, s)
    case Reselect(now) => Reselected(now, s0, s)
    case Lapse(now) => OnlyExpired(now, s0, s)
  }

  /** Purges only forget records. */
  lemma PurgesForget(was: Forward, oneHop: Forward, now: int, v: Addr, w: Addr)
    requires ForwardOk(was) && PurgedFrom(was, oneHop, now)
    ensures RecordOf(oneHop, v, w).Some? ==> RecordOf(oneHop, v, w) == RecordOf(was, v, w)
  {
    assert EntryPurgedFrom(was, oneHop, v, now);
    if v in was {
      PurgeForgetsDue(was, v, now, v, w);
    }
  }

  lemma ReselectionKeepsSane(self: Addr, now: int, s0: Snap, s: Snap)
    requires Sane(self, s0) && Reselected(now, s0, s)
    ensures Sane(self, s)
  {
    var lapsed := Lapsed(s0.ts, now);
    forall v, w | RecordOf(s.oneHop, v, w).Some? ensures v in s.tuples && w !in s.tuples && w != self {
      PurgesForget(s0.oneHop - lapsed, s.oneHop, now, v, w);
      RecordWithout(s0.oneHop, lapsed, v, w);
    }
  }

  lemma MoveKeepsSane(self: Addr, m: Metric, locals: set<Addr>, s0: Snap, e: Move, s: Snap)
    requires Sane(self, s0) && Moves(self, m, locals, s0, e, s)
    ensures Sane(self, s)
  {
    match e
    case Heard(msg, from, due, now) => HelloKeepsSane(self, m, locals, msg, from, due, now, s0, s);
    case Reselect(now) => ReselectionKeepsSane(self, now, s0, s);
    case Lapse(now) => ExpiryKeepsSane(self, now, s0, s);
  }

  /** A run of neighbourhood steps from empty tables. */
  ghost predicate IsRun(self: Addr, m: Metric, locals: set<Addr>, moves: seq<Move>, trace: seq<Snap>) {
    |trace| == |moves| + 1 && trace[0] == BLANK_SNAP &&
    forall i :: 0 <= i < |moves| ==> Moves(self, m, locals, trace[i], moves[i], trace[i + 1])
  }

  /** At every moment of every run the node is neither its own neighbour nor a 2-hop neighbour,
      nobody is both a neighbour and a 2-hop neighbour, and 2-hop neighbours are known through
      current neighbours only. */
  lemma {:induction false} RunIsSane(self: Addr, m: Metric, locals: set<Addr>, moves: seq<Move>, trace: seq<Snap>,
                                     k: nat)
    requires IsRun(self, m, locals, moves, trace) && k < |trace|
    ensures Sane(self, trace[k])
  {
    if k > 0 {
      RunIsSane(self, m, locals, moves, trace, k - 1);
      MoveKeepsSane(self, m, locals, trace[k - 1], moves[k - 1], trace[k]);
    }
  }

  lemma RunGrows(self: Addr, m: Metric, locals: set<Addr>, moves: seq<Move>, trace: seq<Snap>, e: Move, s: Snap)
    requires IsRun(self, m, locals, moves, trace) && Moves(self, m, locals, trace[|moves|], e, s)
    ensures IsRun(self, m, locals, moves + [e], trace + [s])
  {
    var moves', trace' := moves + [e], trace + [s];
    forall i | 0 <= i < |moves'| ensures Moves(self, m, locals, trace'[i], moves'[i], trace'[i + 1]) {
      if i < |moves| {
        assert Moves(self, m, locals, trace[i], moves[i], trace[i + 1]);
      }
    }
  }

  // ---------------------------------------------------------------- neighbours over a run

  /** No step of the run happened later than `now`. */
  ghost predicate MovesBy(moves: seq<Move>, now: int) {
    forall i :: 0 <= i < |moves| ==> moves[i].at <= now
  }

  /** The plain map from addresses to latest deadlines, from which nothing is ever purged: each
      symmetric HELLO sets its sender's. */
  function LatestHeard(locals: set<Addr>, moves: seq<Move>, x: Addr): Option<int> {
    if moves == [] then None
    else
      var e := moves[|moves| - 1];
      if e.Heard? && e.msg.orig == x && IsSymmetric(locals, e.from, e.msg.ifaces) then Some(e.due)
      else LatestHeard(locals, moves[..|moves| - 1], x)
  }

  lemma MoveKeepsPlain(self: Addr, m: Metric, locals: set<Addr>, s0: Snap, e: Move, s: Snap, now: int, x: Addr)
    requires WellFormed(s0.ts) && Moves(self, m, locals, s0, e, s) && e.at <= now
    ensures WellFormed(s.ts)
    ensures Unexpired(Due(s.ts, x), now) ==
            if e.Heard? && e.msg.orig == x && IsSymmetric(locals, e.from, e.msg.ifaces) then Unexpired(Some(e.due), now)
            else Unexpired(Due(s0.ts, x), now)
  {
    QueueIsMap(s0.ts, 0, x, e.at, x);
  }

  /** Lazy expiry of neighbours is invisible: at every moment of every run, who is a neighbour is what
      the plain map says with the deadlines that have passed ignored. */
  lemma {:induction false} LazyNeighborsArePlain(self: Addr, m: Metric, locals: set<Addr>, moves: seq<Move>,
                                                 trace: seq<Snap>, k: nat, now: int, x: Addr)
    requires IsRun(self, m, locals, moves, trace) && k <= |moves| && MovesBy(moves[..k], now)
    ensures WellFormed(trace[k].ts)
    ensures Unexpired(Due(trace[k].ts, x), now) == Unexpired(LatestHeard(locals, moves[..k], x), now)
  {
    if k > 0 {
      assert moves[..k][..k - 1] == moves[..k - 1] && moves[..k][k - 1] == moves[k - 1];
      assert moves[..k - 1] <= moves[..k];
      LazyNeighborsArePlain(self, m, locals, moves, trace, k - 1, now, x);
      MoveKeepsPlain(self, m, locals, trace[k - 1], moves[k - 1], trace[k], now, x);
    }
  }

  /** The HELLOs among the steps. */
  function HellosOf(moves: seq<Move>): seq<Move> {
    if moves == [] then []
    else HellosOf(moves[..|moves| - 1]) + if moves[|moves| - 1].Heard? then [moves[|moves| - 1]] else []
  }

  lemma {:induction false} HellosAppend(moves: seq<Move>, more: seq<Move>)
    ensures HellosOf(moves + more) == HellosOf(moves) + HellosOf(more)
    decreases |more|
  {
    if more == [] {
      assert moves + more == moves;
    } else {
      assert (moves + more)[..|moves + more| - 1] == moves + more[..|more| - 1];
      HellosAppend(moves, more[..|more| - 1]);
    }
  }

  /** Only they decide who is a neighbour. */
  lemma {:induction false} HellosDecide(locals: set<Addr>, moves: seq<Move>, x: Addr)
    ensures LatestHeard(locals, HellosOf(moves), x) == LatestHeard(locals, moves, x)
    decreases |moves|
  {
    if moves != [] {
      var before, e := moves[..|moves| - 1], moves[|moves| - 1];
      var hellos := HellosOf(before);
      HellosDecide(locals, before, x);
      if e.Heard? {
        assert (hellos + [e])[..|hellos|] == hellos && (hellos + [e])[|hellos|] == e;
      } else {
        assert HellosOf(moves) == hellos;
      }
    }
  }

  // ---------------------------------------------------------------- the graph a node routes over

  /** The neighbours that have a best link. */
  function ExitsOf(tuples: map<Addr, Neighbor>): set<Addr> {
    set a | a in tuples && tuples[a].bestLink.Some?
  }

  function Qualities(tuples: map<Addr, Neighbor>): map<Addr, nat> {
    map a | a in tuples :: tuples[a].quality
  }

  /** The list holds exactly the links of the map. */
  ghost predicate Lists(ls: seq<Link>, nbrs: map<Addr, nat>) {
    forall l :: l in ls <==> l.addr in nbrs && nbrs[l.addr] == l.quality
  }

  /** The graph of a node with neighbours `nbrs` that knows the topology `v`. */
  ghost predicate IsView(g: Graph, self: Addr, nbrs: map<Addr, nat>, v: View) {
    g.self == self && Lists(g.neighbors, nbrs) &&
    forall u, l :: Edge(g, u, l) <==> u in v && l.addr in v[u].nbrs && v[u].nbrs[l.addr] == l.quality
  }

  method ListLinks(nbrs: map<Addr, nat>) returns (ls: seq<Link>)
    ensures Lists(ls, nbrs) && |ls| == |nbrs|
  {
    var order := Enumerate(nbrs.Keys);
    ls := [];
    for i := 0 to |order|
      invariant |ls| == i && forall j :: 0 <= j < i ==> order[j] in nbrs && ls[j] == Link(order[j], nbrs[order[j]])
    {
      ls := ls + [Link(order[i], nbrs[order[i]])];
    }
    forall l: Link | l.addr in nbrs && nbrs[l.addr] == l.quality ensures l in ls {
      var j :| 0 <= j < |order| && order[j] == l.addr;
      assert ls[j] == l;
    }
  }

  /** A list of links, each neighbour once, denotes the map it lists. */
  lemma ListsAreMaps(ls: seq<Link>, nbrs: map<Addr, nat>)
    requires Lists(ls, nbrs)
    ensures LinkMap(ls) == nbrs
    ensures ls == [] <==> nbrs == map[]
  {
    forall a ensures a in LinkMap(ls) <==> a in nbrs {
      LastEntryWins(ls, a);
      if a in nbrs {
        assert Link(a, nbrs[a]) in ls;
      }
    }
    forall a | a in LinkMap(ls) ensures LinkMap(ls)[a] == nbrs[a] {
      LastEntryWins(ls, a);
      var i: nat :| IsLastEntry(ls, i, Link(a, LinkMap(ls)[a]));
      assert ls[i] in ls;
    }
    if nbrs != map[] {
      var a :| a in nbrs;
      assert Link(a, nbrs[a]) in ls;
    }
    if ls != [] {
      assert ls[0] in ls;
    }
  }

  /** The topology set as link lists. */
  method ListTopology(v: View) returns (topo: map<Addr, seq<Link>>)
    ensures topo.Keys == v.Keys && forall u :: u in v ==> Lists(topo[u], v[u].nbrs)
  {
    topo := map[];
    var rest := v.Keys;
    while rest != {}
      invariant topo.Keys == v.Keys - rest && rest <= v.Keys
      invariant forall u :: u in topo ==> Lists(topo[u], v[u].nbrs)
      decreases rest
    {
      var u :| u in rest;
      var ls := ListLinks(v[u].nbrs);
      topo, rest := topo[u := ls], rest - {u};
    }
  }

  /** Every link the tables hold is one the routing table was built from. Without neighbours the
      topology set does not matter. */
  ghost predicate UpToDate(g: Graph, nbrs: map<Addr, nat>, v: View) {
    (forall a :: a in nbrs ==> Link(a, nbrs[a]) in g.neighbors) &&
    (g.neighbors == [] || forall u, w :: u in v && w in v[u].nbrs ==> Edge(g, u, Link(w, v[u].nbrs[w])))
  }

  /** Tables that are up to date can only have lost paths since. */
  lemma {:induction false} OnlyFewerPaths(g: Graph, h: Graph, nbrs: map<Addr, nat>, v: View, p: seq<Link>)
    requires UpToDate(g, nbrs, v) && IsView(h, g.self, nbrs, v) && IsPath(h, p)
    ensures IsPath(g, p)
    decreases |p|
  {
    if |p| == 1 {
      assert p[0] == Link(p[0].addr, nbrs[p[0].addr]);
    } else {
      OnlyFewerPaths(g, h, nbrs, v, Init(p));
      StartsAtNeighbor(g, Init(p));
      var u, l := Last(Init(p)).addr, Last(p);
      assert l == Link(l.addr, v[u].nbrs[l.addr]);
    }
  }

  lemma {:induction false} StartsAtNeighbor(g: Graph, p: seq<Link>)
    requires IsPath(g, p)
    ensures p[0] in g.neighbors
    decreases |p|
  {
    if |p| > 1 {
      StartsAtNeighbor(g, Init(p));
    }
  }

  /** A routing table with what it was calculated from. */
  datatype Calculation = Calculation(metric: Metric, graph: Graph, routes: Table, depth: map<Addr, nat>)

  ghost predicate Calculated(c: Calculation) {
    CorrectTable(c.metric, c.graph, c.routes, c.depth)
  }

  /** `c` is calculated correctly; said in a way that unfolds only where `Calculated` is mentioned. */
  ghost predicate Stands(c: Calculation) {
    forall d {:trigger Calculated(d)} :: d == c ==> Calculated(d)
  }

  // ---------------------------------------------------------------- hold times

  /** So many announced intervals, in microseconds. */
  function Hold(interval: nat, times: nat): (d: int)
    requires interval < 256
    ensures times >= 1 ==> d > 0
  {
    HoldIsPositive(interval, times);
    (ParseTime(interval) * times as real * 1000000.0).Floor
  }

  lemma HoldIsPositive(interval: nat, times: nat)
    requires interval < 256
    ensures times >= 1 ==> ParseTime(interval) * times as real * 1000000.0 >= 15625.0
  {
    if times >= 1 {
      ShiftIsMonotone(1.0, 1.0 + (interval / 16) as real, 0, interval % 16);
      var p := ParseTime(interval);
      assert p >= 1.0 / 64.0;
      var more := p * (times - 1) as real;
      assert more >= 0.0 && p * times as real == more + p;
    }
  }

  // ---------------------------------------------------------------- what a node has been through

  /** The steps of the neighbourhood with the tables between them, and the events of the topology set. */
  datatype History = History(moves: seq<Move>, trace: seq<Snap>, events: seq<Topology.Event>)

  ghost predicate IsHistory(self: Addr, m: Metric, locals: set<Addr>, h: History, s: Snap, v: View) {
    IsRun(self, m, locals, h.moves, h.trace) && h.trace[|h.moves|] == s && v == RunEvents(h.events) &&
    forall i :: 0 <= i < |h.events| && h.events[i].Received? ==> h.events[i].due > h.events[i].at
  }

  /** The tables are what the history makes them; said, again, so that it unfolds only where asked. */
  ghost predicate Led(self: Addr, m: Metric, locals: set<Addr>, h: History, s: Snap, v: View) {
    forall g {:trigger IsHistory(self, m, locals, g, s, v)} :: g == h ==> IsHistory(self, m, locals, g, s, v)
  }

  function WithMove(h: History, e: Move, s: Snap): History {
    h.(moves := h.moves + [e], trace := h.trace + [s])
  }

  function WithEvent(h: History, e: Topology.Event): History {
    h.(events := h.events + [e])
  }

  lemma MoveIsLed(self: Addr, m: Metric, locals: set<Addr>, h: History, s0: Snap, v: View, e: Move, s: Snap)
    requires Led(self, m, locals, h, s0, v) && Moves(self, m, locals, s0, e, s)
    ensures Led(self, m, locals, WithMove(h, e, s), s, v)
  {
    assert IsHistory(self, m, locals, h, s0, v);
    RunGrows(self, m, locals, h.moves, h.trace, e, s);
    assert IsHistory(self, m, locals, WithMove(h, e, s), s, v);
  }

  lemma EventIsLed(self: Addr, m: Metric, locals: set<Addr>, h: History, s: Snap, v: View, e: Topology.Event)
    requires Led(self, m, locals, h, s, v) && (e.Received? ==> e.due > e.at)
    ensures Led(self, m, locals, WithEvent(h, e), s, AfterEvent(v, e))
  {
    assert IsHistory(self, m, locals, h, s, v);
    Topology.RunGrows(h.events, e);
    assert IsHistory(self, m, locals, WithEvent(h, e), s, AfterEvent(v, e));
  }

  lemma HistoryNeighbor(self: Addr, m: Metric, locals: set<Addr>, h: History, s: Snap, v: View, now: int, a: Addr)
    requires Led(self, m, locals, h, s, v) && MovesBy(h.moves, now)
    ensures IsLive(s.ts, a, now) <==> Unexpired(LatestHeard(locals, h.moves, a), now).Some?
  {
    assert IsHistory(self, m, locals, h, s, v);
    assert h.moves[..|h.moves|] == h.moves;
    LazyNeighborsArePlain(self, m, locals, h.moves, h.trace, |h.moves|, now, a);
  }

  lemma HistoryLinks(self: Addr, m: Metric, locals: set<Addr>, h: History, s: Snap, v: View, now: int, a: Addr)
    requires Led(self, m, locals, h, s, v) && EventsBy(h.events, now)
    ensures a in Unlapsed(v, now) <==> Unexpired(LatestDeadline(h.events, a), now).Some?
    ensures a in Unlapsed(v, now) ==>
              exists i: nat :: LastAccepted(h.events, i, a) && Unlapsed(v, now)[a].nbrs == LinkMap(h.events[i].tc.links)
  {
    assert IsHistory(self, m, locals, h, s, v);
    var i := QueryAnswersLastAccepted(h.events, now, a);
  }

  /** Expiry of neighbours is one step more, and can only lose links. */
  lemma LapseStep(self: Addr, m: Metric, locals: set<Addr>, h: History, s0: Snap, s: Snap, v: View, now: int, g: Graph)
    requires Led(self, m, locals, h, s0, v) && OnlyExpired(now, s0, s)
    ensures Led(self, m, locals, WithMove(h, Lapse(now), s), s, v)
    ensures UpToDate(g, Qualities(s0.tuples), v) ==> UpToDate(g, Qualities(s.tuples), v)
  {
    MoveIsLed(self, m, locals, h, s0, v, Lapse(now), s);
    if UpToDate(g, Qualities(s0.tuples), v) {
      FewerLinksStayUpToDate(g, Qualities(s0.tuples), v, Qualities(s.tuples), v);
    }
  }

  /** An event of the topology set that brings no new link. */
  lemma EventStep(self: Addr, m: Metric, locals: set<Addr>, h: History, s: Snap, v: View, e: Topology.Event, g: Graph)
    requires Led(self, m, locals, h, s, v) && (e.Received? ==> e.due > e.at)
    ensures Led(self, m, locals, WithEvent(h, e), s, AfterEvent(v, e))
    ensures UpToDate(g, Qualities(s.tuples), v) && !(e.Received? && Accepts(v, e.tc)) ==>
              UpToDate(g, Qualities(s.tuples), AfterEvent(v, e))
  {
    EventIsLed(self, m, locals, h, s, v, e);
    if UpToDate(g, Qualities(s.tuples), v) && !(e.Received? && Accepts(v, e.tc)) {
      FewerLinksStayUpToDate(g, Qualities(s.tuples), v, Qualities(s.tuples), AfterEvent(v, e));
    }
  }

  /** A rebuild is an expiry of neighbours and, if there are any, a query of the topology set. */
  lemma RebuildIsLed(self: Addr, m: Metric, locals: set<Addr>, h: History, s0: Snap, v: View, s: Snap, now: int,
                     asked: bool) returns (h': History)
    requires Led(self, m, locals, h, s0, v) && OnlyExpired(now, s0, s)
    ensures Led(self, m, locals, h', s, if asked then Unlapsed(v, now) else v)
    ensures h'.moves == h.moves + [Lapse(now)] && h'.events == h.events + if asked then [Asked(now)] else []
  {
    MoveIsLed(self, m, locals, h, s0, v, Lapse(now), s);
    h' := WithMove(h, Lapse(now), s);
    if asked {
      EventIsLed(self, m, locals, h', s, v, Asked(now));
      h' := WithEvent(h', Asked(now));
    }
  }

  const BLANK_SNAP: Snap := Snap([], map[], map[])

  function BlankCalculation(m: Metric, self: Addr): Calculation {
    Calculation(m, Graph(self, [], map[]), map[], map[])
  }

  lemma StartIsFine(self: Addr, m: Metric, locals: set<Addr>)
    ensures Stands(BlankCalculation(m, self)) && UpToDate(BlankCalculation(m, self).graph, map[], map[])
    ensures Sane(self, BLANK_SNAP) && Led(self, m, locals, History([], [BLANK_SNAP], []), BLANK_SNAP, map[])
  {
    BlankIsCorrect(self, m);
    BlankIsLed(self, m, locals);
  }

  lemma BlankIsCorrect(self: Addr, m: Metric)
    ensures Stands(BlankCalculation(m, self))
  {
    assert Calculated(BlankCalculation(m, self));
  }

  lemma BlankIsLed(self: Addr, m: Metric, locals: set<Addr>)
    ensures Led(self, m, locals, History([], [BLANK_SNAP], []), BLANK_SNAP, map[])
  {
    assert IsHistory(self, m, locals, History([], [BLANK_SNAP], []), BLANK_SNAP, map[]);
  }

  // ---------------------------------------------------------------- the node

  /** Every 2-hop path that is good enough has a relay that is good enough. */
  ghost predicate Covered(s: Snap, now: int) {
    forall v, w :: MprSelection.ReachesWell(s.tuples, s.oneHop, now, v, w) ==>
      exists m :: MprSelection.ReachesWell(s.tuples, s.oneHop, now, m, w) && s.tuples[m].mpr
  }

  lemma ReselectionCovers(now: int, s0: Snap, s: Snap)
    requires Reselected(now, s0, s)
    ensures Covered(s, now)
  {
    var lapsed := Lapsed(s0.ts, now);
    var cands, twoHops :|
      MprSelection.Selected(s0.tuples - lapsed, s0.oneHop - lapsed, now, cands, twoHops, s.tuples, s.oneHop);
    forall v, w | MprSelection.ReachesWell(s.tuples, s.oneHop, now, v, w)
      ensures exists m :: MprSelection.ReachesWell(s.tuples, s.oneHop, now, m, w) && s.tuples[m].mpr
    {
      var m := MprSelection.SelectionCovers(s0.tuples - lapsed, s0.oneHop - lapsed, now, cands, twoHops,
                                            s.tuples, s.oneHop, v, w);
    }
  }

  /** A HELLO takes the tables from `s0` to `mid`; if it was symmetric, a covering choice of relays
      follows. */
  ghost predicate HelloSteps(self: Addr, m: Metric, locals: set<Addr>, hello: Move, s0: Snap, mid: Snap, s: Snap,
                             sym: bool)
    requires hello.Heard?
  {
    (sym <==> IsSymmetric(locals, hello.from, hello.msg.ifaces)) &&
    Moves(self, m, locals, s0, hello, mid) &&
    if sym then Moves(self, m, locals, mid, Reselect(hello.at), s) && Covered(s, hello.at) else s == mid
  }

  /** One HELLO of another node. */
  method HelloStep(ns: NeighborSet, self: Addr, m: Metric, locals: set<Addr>, hello: Move)
      returns (sym: bool, ghost mid: Snap)
    requires ns.Valid() && Sane(self, SnapOf(ns)) && hello.Heard? && hello.msg.orig != self && hello.due > hello.at
    modifies ns, ns.twoHop
    ensures ns.Valid() && Sane(self, SnapOf(ns))
    ensures HelloSteps(self, m, locals, hello, old(SnapOf(ns)), mid, SnapOf(ns), sym)
  {
    sym := ApplyHello(ns, self, m, locals, hello.msg, hello.from, hello.due, hello.at);
    mid := SnapOf(ns);
    MoveKeepsSane(self, m, locals, old(SnapOf(ns)), hello, mid);
    if sym {
      ghost var cands, twoHops := MprSelection.ChooseMprSet(ns, hello.at);
      assert Reselected(hello.at, mid, SnapOf(ns));
      ReselectionKeepsSane(self, hello.at, mid, SnapOf(ns));
      ReselectionCovers(hello.at, mid, SnapOf(ns));
    }
  }

  lemma HelloHistory(self: Addr, m: Metric, locals: set<Addr>, h: History, s0: Snap, hello: Move, mid: Snap, s: Snap,
                     sym: bool, v: View) returns (h': History)
    requires hello.Heard? && HelloSteps(self, m, locals, hello, s0, mid, s, sym) && Led(self, m, locals, h, s0, v)
    ensures Led(self, m, locals, h', s, v) && h'.events == h.events
    ensures h'.moves == h.moves + [hello] + if sym then [Reselect(hello.at)] else []
  {
    MoveIsLed(self, m, locals, h, s0, v, hello, mid);
    h' := WithMove(h, hello, mid);
    if sym {
      MoveIsLed(self, m, locals, h', mid, v, Reselect(hello.at), s);
      h' := WithMove(h', Reselect(hello.at), s);
    }
  }

  /** Whether a message that came in from `prevHop`, if that is known, is to be passed on. */
  method AmRelayFor(ns: NeighborSet, self: Addr, prevHop: Option<Addr>, now: int) returns (relay: bool)
    requires ns.Valid() && Sane(self, SnapOf(ns))
    modifies ns, ns.twoHop
    ensures ns.Valid() && Sane(self, SnapOf(ns))
    ensures if prevHop.None? then !relay && SnapOf(ns) == old(SnapOf(ns))
            else OnlyExpired(now, old(SnapOf(ns)), SnapOf(ns)) &&
                 (relay <==> prevHop.value in ns.tuples && ns.tuples[prevHop.value].mprSelector)
  {
    relay := false;
    if prevHop.Some? {
      relay := ns.IsMprSelector(prevHop.value, now);
      ExpiryKeepsSane(self, now, old(SnapOf(ns)), SnapOf(ns));
    }
  }

  /** Relaying after a TC: asked only about accepted ones from a known previous hop. */
  ghost predicate RelaySteps(accepted: bool, prevHop: Option<Addr>, now: int, s0: Snap, s: Snap, relay: bool) {
    if accepted && prevHop.Some? then
      OnlyExpired(now, s0, s) && (relay <==> prevHop.value in s.tuples && s.tuples[prevHop.value].mprSelector)
    else !relay && s == s0
  }

  /** One TC of another node. */
  method TcStep(ns: NeighborSet, topo: TopologySet, self: Addr, tc: Tc, due: int, prevHop: Option<Addr>, now: int)
      returns (accepted: bool, relay: bool)
    requires ns.Valid() && Sane(self, SnapOf(ns)) && topo.Valid() && self !in topo.AsMap()
    requires tc.orig != self && due > now && SeqNumbers.IsSeq(tc.seqNum)
    modifies ns, ns.twoHop, topo
    ensures ns.Valid() && Sane(self, SnapOf(ns)) && topo.Valid() && self !in topo.AsMap()
    ensures topo.AsMap() == AfterTc(old(topo.AsMap()), tc, due, now)
    ensures accepted <==> Accepts(old(topo.AsMap()), tc)
    ensures !accepted ==> forall u :: u in topo.AsMap() ==>
              u in old(topo.AsMap()) && topo.AsMap()[u].nbrs == old(topo.AsMap())[u].nbrs
    ensures RelaySteps(accepted, prevHop, now, old(SnapOf(ns)), SnapOf(ns), relay)
  {
    ghost var v := topo.AsMap();
    accepted := topo.HandleTc(tc, due, now);
    TcEffect(v, tc, due, now, self);
    relay := false;
    if accepted {
      relay := AmRelayFor(ns, self, prevHop, now);
    }
  }

  method AskedNeighbor(ns: NeighborSet, self: Addr, a: Addr, now: int) returns (r: bool)
    requires ns.Valid() && Sane(self, SnapOf(ns))
    modifies ns, ns.twoHop
    ensures ns.Valid() && Sane(self, SnapOf(ns)) && OnlyExpired(now, old(SnapOf(ns)), SnapOf(ns))
    ensures r <==> IsLive(old(ns.ts), a, now)
  {
    r := ns.IsNeigh(a, now);
    ExpiryKeepsSane(self, now, old(SnapOf(ns)), SnapOf(ns));
  }

  /** The links to route over. The neighbour set is purged first; the topology set is only asked,
      and so purged, when there is a neighbour to start from. */
  method ReadGraph(ns: NeighborSet, topo: TopologySet, self: Addr, now: int) returns (g: Graph)
    requires ns.Valid() && Sane(self, SnapOf(ns)) && topo.Valid()
    modifies ns, ns.twoHop, topo
    ensures ns.Valid() && Sane(self, SnapOf(ns)) && topo.Valid()
    ensures OnlyExpired(now, old(SnapOf(ns)), SnapOf(ns))
    ensures topo.AsMap() == if g.neighbors == [] then old(topo.AsMap()) else Unlapsed(old(topo.AsMap()), now)
    ensures IsView(g, self, Qualities(ns.tuples), Unlapsed(old(topo.AsMap()), now))
  {
    ghost var v := Unlapsed(topo.AsMap(), now);
    UnlapsedTwice(topo.AsMap(), now);
    ns.PurgeTimeslot(now, {});
    ExpiryKeepsSane(self, now, old(SnapOf(ns)), SnapOf(ns));
    var neighbors := ListLinks(Qualities(ns.tuples));
    if neighbors != [] {
      topo.PurgeTimeslot(now);
    }
    var lists := ListTopology(Unlapsed(topo.AsMap(), now));
    g := Graph(self, neighbors, lists);
    ListedIsView(g, self, Qualities(ns.tuples), v);
  }

  lemma ListedIsView(g: Graph, self: Addr, nbrs: map<Addr, nat>, v: View)
    requires g.self == self && Lists(g.neighbors, nbrs)
    requires g.topo.Keys == v.Keys && forall u :: u in v ==> Lists(g.topo[u], v[u].nbrs)
    ensures IsView(g, self, nbrs, v)
  {
  }

  lemma FewerLinksStayUpToDate(g: Graph, nbrs: map<Addr, nat>, v: View, fewer: map<Addr, nat>, w: View)
    requires UpToDate(g, nbrs, v)
    requires forall a :: a in fewer ==> a in nbrs && fewer[a] == nbrs[a]
    requires forall u :: u in w ==> u in v && w[u].nbrs == v[u].nbrs
    ensures UpToDate(g, fewer, w)
  {
  }

  /** A graph just read is up to date. */
  lemma ReadIsUpToDate(g: Graph, self: Addr, nbrs: map<Addr, nat>, v: View, w: View)
    requires IsView(g, self, nbrs, v) && (g.neighbors != [] ==> w == v)
    ensures UpToDate(g, nbrs, w)
  {
  }

  /** Only neighbours are listed, with their qualities: all of them if the byte-wide count and the
      message have room, else as many as they leave. */
  ghost predicate Advertises(links: seq<Link>, nbrs: map<Addr, nat>, maxCount: nat) {
    |links| == (if |nbrs| % 256 > maxCount then maxCount else |nbrs| % 256) &&
    (|nbrs| < 256 && |nbrs| <= maxCount ==> Lists(links, nbrs)) &&
    forall l :: l in links ==> l.addr in nbrs && nbrs[l.addr] == l.quality
  }

  method FirstLinks(nbrs: map<Addr, nat>, maxCount: nat) returns (links: seq<Link>)
    ensures Advertises(links, nbrs, maxCount)
  {
    var all := ListLinks(nbrs);
    var count := |all| % 256;
    if count > maxCount {
      count := maxCount;
    }
    links := all[..count];
    assert count == |all| ==> links == all;
  }

  /** The rebuild, with a record of what it was built from. */
  method Calculate(calculator: RouteCalculation.RouteCalculator, m: Metric, g: Graph) returns (ghost c: Calculation)
    requires forall l :: l in g.neighbors ==> l.addr != g.self
    modifies calculator, calculator.table
    ensures c.metric == m && c.graph == g && c.routes == calculator.table.routes && Stands(c)
  {
    ghost var depth := calculator.Rebuild(m, g);
    c := Calculation(m, g, calculator.table.routes, depth);
  }

  class Node {
    const self: Addr
    const metric: Metric
    const locals: set<Addr>
    const maxMissedHello: nat
    const maxMissedTc: nat
    const ns: NeighborSet
    const topo: TopologySet
    const table: RouteCalculation.RoutingTable
    const calculator: RouteCalculation.RouteCalculator
    var pendingRtc: bool
    ghost var built: Calculation         // how the routing table came about
    ghost var history: History

    ghost predicate NeighborhoodOk()
      reads this, ns, ns.twoHop
    {
      ns.Valid() && Sane(self, SnapOf(ns))
    }

    ghost predicate TableOk()
      reads this, ns, topo, table, calculator
    {
      calculator.table == table && built.metric == metric && built.graph.self == self &&
      built.routes == table.routes && Stands(built) &&
      (!pendingRtc ==> UpToDate(built.graph, Qualities(ns.tuples), topo.AsMap()))
    }

    ghost predicate Valid()
      reads this, ns, ns.twoHop, topo, table, calculator
    {
      maxMissedTc >= 1 && NeighborhoodOk() && topo.Valid() && self !in topo.AsMap() && TableOk() &&
      Led(self, metric, locals, history, SnapOf(ns), topo.AsMap())
    }

    constructor (self: Addr, metric: Metric, locals: set<Addr>, maxMissedHello: nat, maxMissedTc: nat)
      requires maxMissedTc >= 1
      ensures Valid() && SnapOf(ns) == BLANK_SNAP && topo.AsMap() == map[] && table.routes == map[]
      ensures this.self == self && this.metric == metric && this.locals == locals && !pendingRtc
      ensures this.maxMissedHello == maxMissedHello && this.maxMissedTc == maxMissedTc
      ensures history == History([], [BLANK_SNAP], [])
      ensures fresh(ns) && fresh(ns.twoHop) && fresh(topo) && fresh(table) && fresh(calculator)
    {
      this.self, this.metric, this.locals := self, metric, locals;
      this.maxMissedHello, this.maxMissedTc := maxMissedHello, maxMissedTc;
      ns := new NeighborSet();
      topo := new TopologySet();
      var t := new RouteCalculation.RoutingTable();
      table := t;
      calculator := new RouteCalculation.RouteCalculator(t);
      pendingRtc := false;
      built, history := BlankCalculation(metric, self), History([], [BLANK_SNAP], []);
      new;
      StartIsFine(self, metric, locals);
    }

    /** olsr_handle_hello behind olsr_drop_errors. */
    method HandleHello(msg: Msg, interval: nat, from: Arrival, now: int) returns (sym: bool, ghost mid: Snap)
      requires Valid() && interval < 256
      modifies this`pendingRtc, this`history, ns, ns.twoHop
      ensures Valid()
      ensures msg.orig == self ==>
                !sym && SnapOf(ns) == old(SnapOf(ns)) && pendingRtc == old(pendingRtc) && history == old(history)
      ensures msg.orig != self ==>
                pendingRtc &&
                HelloSteps(self, metric, locals, Heard(msg, from, now + Hold(interval, maxMissedHello + 1), now),
                           old(SnapOf(ns)), mid, SnapOf(ns), sym)
      ensures msg.orig != self ==>
                history.events == old(history).events &&
                history.moves == old(history).moves +
                                 [Heard(msg, from, now + Hold(interval, maxMissedHello + 1), now)] +
                                 if sym then [Reselect(now)] else []
    {
      sym, mid := false, SnapOf(ns);
      if msg.orig != self {
        var hello := Heard(msg, from, now + Hold(interval, maxMissedHello + 1), now);
        sym, mid := HelloStep(ns, self, metric, locals, hello);
        history := HelloHistory(self, metric, locals, history, old(SnapOf(ns)), hello, mid, SnapOf(ns), sym,
                                topo.AsMap());
        pendingRtc := true;
      }
    }

    /** olsr_handle_tc behind olsr_drop_errors. */
    method HandleTc(tc: Tc, interval: nat, prevHop: Option<Addr>, now: int) returns (relay: bool)
      requires Valid() && interval < 256 && SeqNumbers.IsSeq(tc.seqNum)
      modifies this`pendingRtc, this`history, ns, ns.twoHop, topo
      ensures Valid()
      ensures history.events == old(history).events +
                                if tc.orig == self then [] else [Received(tc, now + Hold(interval, maxMissedTc), now)]
      ensures var asked := tc.orig != self && Accepts(old(topo.AsMap()), tc) && prevHop.Some?;
              history.moves == old(history).moves + if asked then [Lapse(now)] else []
      ensures var due := now + Hold(interval, maxMissedTc);
              topo.AsMap() == if tc.orig == self then old(topo.AsMap()) else AfterTc(old(topo.AsMap()), tc, due, now)
      ensures var accepted := tc.orig != self && Accepts(old(topo.AsMap()), tc);
              pendingRtc == (old(pendingRtc) || accepted) &&
              RelaySteps(accepted, prevHop, now, old(SnapOf(ns)), SnapOf(ns), relay)
    {
      relay := false;
      if tc.orig != self {
        ghost var v, s0 := topo.AsMap(), SnapOf(ns);
        var accepted, due := false, now + Hold(interval, maxMissedTc);
        accepted, relay := TcStep(ns, topo, self, tc, due, prevHop, now);
        EventStep(self, metric, locals, history, s0, v, Received(tc, due, now), built.graph);
        history := WithEvent(history, Received(tc, due, now));
        if accepted && prevHop.Some? {
          MoveIsLed(self, metric, locals, history, s0, topo.AsMap(), Lapse(now), SnapOf(ns));
          history := WithMove(history, Lapse(now), SnapOf(ns));
        }
        if accepted {
          pendingRtc := true;
        }
      }
    }

    /** olsr_periodic_build_routingtable. */
    method BuildRoutingTable(now: int)
      requires Valid()
      modifies this`pendingRtc, this`built, this`history, ns, ns.twoHop, topo, table, calculator
      ensures Valid() && !pendingRtc
      ensures !old(pendingRtc) ==> SnapOf(ns) == old(SnapOf(ns)) && topo.AsMap() == old(topo.AsMap()) &&
                                   table.routes == old(table.routes) && built == old(built) && history == old(history)
      ensures old(pendingRtc) ==>
                history.moves == old(history).moves + [Lapse(now)] &&
                history.events == old(history).events + if built.graph.neighbors == [] then [] else [Asked(now)]
      ensures old(pendingRtc) ==>
                forall l :: l in built.graph.neighbors <==>
                            l.addr in ns.tuples && ns.tuples[l.addr].quality == l.quality
      ensures old(pendingRtc) ==> OnlyExpired(now, old(SnapOf(ns)), SnapOf(ns)) &&
                                  IsView(built.graph, self, Qualities(ns.tuples), Unlapsed(old(topo.AsMap()), now))
    {
      if !pendingRtc {
        return;
      }
      ghost var h, s0, v := history, SnapOf(ns), topo.AsMap();
      var g := ReadGraph(ns, topo, self, now);
      history := RebuildIsLed(self, metric, locals, h, s0, v, SnapOf(ns), now, g.neighbors != []);
      ReadIsUpToDate(g, self, Qualities(ns.tuples), Unlapsed(old(topo.AsMap()), now), topo.AsMap());
      built := Calculate(calculator, metric, g);
      pendingRtc := false;
    }

    /** The lookup of olsr_fwd2dest: the best link of the next hop, if the next hop is still a
        neighbour and has one. */
    method Forward(dest: Addr) returns (link: Option<LinkId>)
      requires Valid()
      ensures link == if dest in table.routes && table.routes[dest].nextHop in ns.tuples
                      then ns.tuples[table.routes[dest].nextHop].bestLink else None
      ensures link.Some? <==> dest in table.routes && table.routes[dest].nextHop in ExitsOf(ns.tuples)
    {
      var nextHop := table.GetNextHop(dest);
      link := None;
      if nextHop.Some? && nextHop.value in ns.tuples {
        link := ns.tuples[nextHop.value].bestLink;
      }
    }

    /** olsr_periodic_send_tc: the neighbours, as many as the byte-wide count and the message hold. */
    method MakeTc(seqNum: nat, maxCount: nat, now: int) returns (tc: Tc)
      requires Valid()
      modifies this`history, ns, ns.twoHop
      ensures Valid() && OnlyExpired(now, old(SnapOf(ns)), SnapOf(ns))
      ensures history.moves == old(history).moves + [Lapse(now)] && history.events == old(history).events
      ensures tc.orig == self && tc.seqNum == seqNum
      ensures Advertises(tc.links, Qualities(ns.tuples), maxCount)
      ensures forall l :: l in tc.links ==> l.addr in ns.tuples && ns.tuples[l.addr].quality == l.quality
    {
      PurgeNeighbors(now);
      var links := FirstLinks(Qualities(ns.tuples), maxCount);
      tc := Tc(self, seqNum, links);
    }

    /** The purge that precedes every walk over the neighbour set. */
    method PurgeNeighbors(now: int)
      requires Valid()
      modifies this`history, ns, ns.twoHop
      ensures Valid() && OnlyExpired(now, old(SnapOf(ns)), SnapOf(ns))
      ensures history.moves == old(history).moves + [Lapse(now)] && history.events == old(history).events
    {
      ghost var h, s0 := history, SnapOf(ns);
      ns.PurgeTimeslot(now, {});
      ExpiryKeepsSane(self, now, s0, SnapOf(ns));
      LapseStep(self, metric, locals, h, s0, SnapOf(ns), topo.AsMap(), now, built.graph);
      history := WithMove(h, Lapse(now), SnapOf(ns));
    }

    /** Whether `a` is a neighbour, over the whole life of the node: exactly if the deadline that the
        last symmetric HELLO from it set has not passed. */
    method AskNeighbor(a: Addr, now: int) returns (r: bool)
      requires Valid() && MovesBy(history.moves, now)
      modifies this`history, ns, ns.twoHop
      ensures Valid() && OnlyExpired(now, old(SnapOf(ns)), SnapOf(ns))
      ensures r <==> Unexpired(LatestHeard(locals, HellosOf(old(history).moves), a), now).Some?
      ensures history.moves == old(history).moves + [Lapse(now)] && history.events == old(history).events
    {
      HellosDecide(locals, history.moves, a);
      ghost var h, s0 := history, SnapOf(ns);
      HistoryNeighbor(self, metric, locals, h, s0, topo.AsMap(), now, a);
      r := AskedNeighbor(ns, self, a, now);
      LapseStep(self, metric, locals, h, s0, SnapOf(ns), topo.AsMap(), now, built.graph);
      history := WithMove(h, Lapse(now), SnapOf(ns));
    }

    /** The links of an originator, over the whole life of the node: those of the last TC accepted from
        it, while its latest deadline has not passed. */
    method AskLinks(orig: Addr, now: int) returns (nbrs: map<Addr, nat>)
      requires Valid() && EventsBy(history.events, now)
      modifies this`history, topo
      ensures Valid()
      ensures history.events == old(history).events + [Asked(now)] && history.moves == old(history).moves
      ensures var events := old(history).events;
              if Unexpired(LatestDeadline(events, orig), now).None? then nbrs == map[]
              else exists i: nat :: LastAccepted(events, i, orig) && nbrs == LinkMap(events[i].tc.links)
    {
      ghost var h, v := history, topo.AsMap();
      HistoryLinks(self, metric, locals, h, SnapOf(ns), v, now, orig);
      nbrs := topo.GetNeighbors(orig, now);
      EventStep(self, metric, locals, h, SnapOf(ns), v, Asked(now), built.graph);
      history := WithEvent(h, Asked(now));
    }

    /** The tables are what the node has been through. */
    lemma Story()
      requires Valid()
      ensures IsRun(self, metric, locals, history.moves, history.trace)
      ensures history.trace[|history.moves|] == SnapOf(ns) && topo.AsMap() == RunEvents(history.events)
    {
      assert IsHistory(self, metric, locals, history, SnapOf(ns), topo.AsMap());
    }

    /** The neighbourhood, as the tables hold it: an address listed as a 2-hop neighbour is neither a
        neighbour nor the node itself, and is listed under neighbours only. */
    lemma Neighborhood(w: Addr)
      requires Valid() && w in ns.twoHop.twoHop
      ensures w !in ns.tuples && w != self && self !in ns.tuples
      ensures ns.twoHop.twoHop[w] != map[] && forall v :: v in ns.twoHop.twoHop[w] ==> v in ns.tuples
    {
      forall v | v in ns.twoHop.twoHop[w] ensures v in ns.tuples && w !in ns.tuples && w != self {
        assert Fwd(ns.twoHop.oneHop, v, w) == Back(ns.twoHop.twoHop, v, w);
        RecordsAreListed(ns.twoHop.oneHop, v, w);
      }
    }

    /** While no rebuild is pending, the table routes to every address that a path over the links now
        in the tables reaches, at least as well as that path does. */
    lemma StillOptimal(o: Order, h: Graph, p: seq<Link>)
      requires Valid() && !pendingRtc
      requires IsView(h, self, Qualities(ns.tuples), topo.AsMap()) && IsPath(h, p)
      ensures Last(p).addr in table.routes && Last(p).addr in built.depth
      ensures var r := LabelOf(table.routes, built.depth, Last(p).addr);
              Admissible(metric, o, built.graph) && (Ranks(o, r) || Ranks(o, PathLabel(metric, p))) ==>
                Leq(o, r, PathLabel(metric, p))
    {
      OnlyFewerPaths(built.graph, h, Qualities(ns.tuples), topo.AsMap(), p);
      assert Calculated(built);
      if Admissible(metric, o, built.graph) {
        assert IsOptimal(metric, o, built.graph, table.routes, built.depth);
      }
    }

    /** Where the next hop of a route is still the neighbour it was, a packet has a link to leave by
        whenever the route has positive quality. */
    lemma LiveRoutesForward(dest: Addr)
      requires Valid() && dest in table.routes && !metric.EtxAdd? && table.routes[dest].quality > 0.0
      requires forall l :: l in built.graph.neighbors && l.addr == table.routes[dest].nextHop ==>
                 l.addr in ns.tuples && ns.tuples[l.addr].quality == l.quality
      ensures var n := table.routes[dest].nextHop; n in ns.tuples && ns.tuples[n].bestLink.Some?
    {
      assert Calculated(built);
      TreePathRealises(metric, built.graph, table.routes, built.depth, dest);
      LivePathHasLiveLinks(metric, TreePath(metric, built.graph, table.routes, built.depth, dest));
    }
  }

  // ---------------------------------------------------------------- whole runs of a node

  /** What can happen to a node. */
  datatype Event =
    | GotHello(msg: Msg, interval: nat, from: Arrival, at: int)
    | GotTc(tc: Tc, tcInterval: nat, prevHop: Option<Addr>, at: int)
    | Rebuild(at: int)
    | EmitTc(seqNum: nat, maxCount: nat, at: int)
    | QueryNeighbor(a: Addr, at: int)
    | QueryLinks(orig: Addr, at: int)

  /** Bytes and 16-bit numbers, as they come off the wire. */
  predicate OnWire(e: Event) {
    match e
    case GotHello(_, interval, _, _) => interval < 256
    case GotTc(tc, interval, _, _) => interval < 256 && SeqNumbers.IsSeq(tc.seqNum)
    case _ => true
  }

  predicate AllOnWire(events: seq<Event>) {
    forall i :: 0 <= i < |events| ==> OnWire(events[i])
  }

  /** Nothing the node has been through happened later than `now`. */
  ghost predicate HistoryBy(h: History, now: int) {
    MovesBy(h.moves, now) && EventsBy(h.events, now)
  }

  /** The clock does not go back, and starts at `start` or later. */
  ghost predicate Clocked(events: seq<Event>, start: int) {
    (forall i :: 0 <= i < |events| ==> start <= events[i].at) &&
    forall i, j :: 0 <= i < j < |events| ==> events[i].at <= events[j].at
  }

  /** The steps and the TCs that events bring about at a node, other than expiries and choices of relays. */
  function HellosIn(self: Addr, maxMissedHello: nat, events: seq<Event>): seq<Move>
    requires AllOnWire(events)
  {
    if events == [] then []
    else
      var e := events[|events| - 1];
      assert OnWire(e);
      HellosIn(self, maxMissedHello, events[..|events| - 1]) +
      if e.GotHello? && e.msg.orig != self
      then [Heard(e.msg, e.from, e.at + Hold(e.interval, maxMissedHello + 1), e.at)] else []
  }

  function TcsIn(self: Addr, maxMissedTc: nat, events: seq<Event>): seq<Topology.Event>
    requires AllOnWire(events)
  {
    if events == [] then []
    else
      var e := events[|events| - 1];
      assert OnWire(e);
      TcsIn(self, maxMissedTc, events[..|events| - 1]) +
      if e.GotTc? && e.tc.orig != self
      then [Received(e.tc, e.at + Hold(e.tcInterval, maxMissedTc), e.at)] else []
  }

  function TcsOf(events: seq<Topology.Event>): seq<Topology.Event> {
    if events == [] then []
    else TcsOf(events[..|events| - 1]) + if events[|events| - 1].Received? then [events[|events| - 1]] else []
  }

  lemma {:induction false} TcsAppend(events: seq<Topology.Event>, more: seq<Topology.Event>)
    ensures TcsOf(events + more) == TcsOf(events) + TcsOf(more)
    decreases |more|
  {
    if more == [] {
      assert events + more == events;
    } else {
      assert (events + more)[..|events + more| - 1] == events + more[..|more| - 1];
      TcsAppend(events, more[..|more| - 1]);
    }
  }

  /** The history has grown by exactly the HELLOs and TCs of the events, in order. */
  ghost predicate Follows(self: Addr, maxMissedHello: nat, maxMissedTc: nat, events: seq<Event>, h0: History,
                          h: History)
    requires AllOnWire(events)
  {
    h0.moves <= h.moves && HellosOf(h.moves) == HellosOf(h0.moves) + HellosIn(self, maxMissedHello, events) &&
    h0.events <= h.events && TcsOf(h.events) == TcsOf(h0.events) + TcsIn(self, maxMissedTc, events)
  }

  /** One event adds what it brings about to the history, and nothing later than itself. */
  ghost predicate Adds(self: Addr, maxMissedHello: nat, maxMissedTc: nat, e: Event, h0: History, h: History)
    requires OnWire(e)
  {
    Follows(self, maxMissedHello, maxMissedTc, [e], h0, h) &&
    forall now :: e.at <= now && HistoryBy(h0, now) ==> HistoryBy(h, now)
  }

  lemma HistoryAdds(self: Addr, maxMissedHello: nat, maxMissedTc: nat, e: Event, h0: History, h: History,
                    moves: seq<Move>, events: seq<Topology.Event>)
    requires OnWire(e) && h.moves == h0.moves + moves && h.events == h0.events + events
    requires HellosOf(moves) == HellosIn(self, maxMissedHello, [e]) && TcsOf(events) == TcsIn(self, maxMissedTc, [e])
    requires MovesBy(moves, e.at) && EventsBy(events, e.at)
    ensures Adds(self, maxMissedHello, maxMissedTc, e, h0, h)
  {
    HellosAppend(h0.moves, moves);
    TcsAppend(h0.events, events);
    forall now | e.at <= now && HistoryBy(h0, now) ensures HistoryBy(h, now) {
      LaterHistory(h0, h, moves, events, e.at, now);
    }
  }

  lemma LaterHistory(h0: History, h: History, moves: seq<Move>, events: seq<Topology.Event>, at: int, now: int)
    requires h.moves == h0.moves + moves && h.events == h0.events + events
    requires HistoryBy(h0, now) && MovesBy(moves, at) && EventsBy(events, at) && at <= now
    ensures HistoryBy(h, now)
  {
    forall i | 0 <= i < |h.moves| ensures h.moves[i].at <= now {
      assert h.moves[i] == if i < |h0.moves| then h0.moves[i] else moves[i - |h0.moves|];
    }
    forall i | 0 <= i < |h.events| ensures h.events[i].at <= now {
      assert h.events[i] == if i < |h0.events| then h0.events[i] else events[i - |h0.events|];
    }
  }

  lemma FewSteps(now: int, hello: Move, tc: Topology.Event)
    ensures HellosOf([]) == [] && TcsOf([]) == []
    ensures HellosOf([Lapse(now)]) == [] && HellosOf([Reselect(now)]) == [] && TcsOf([Asked(now)]) == []
    ensures hello.Heard? ==> HellosOf([hello]) == [hello] && HellosOf([hello] + [Reselect(now)]) == [hello]
    ensures tc.Received? ==> TcsOf([tc]) == [tc]
  {
    assert [hello][..0] == [] && ([hello] + [Reselect(now)])[..1] == [hello];
    assert [tc][..0] == [] && [Lapse(now)][..0] == [] && [Reselect(now)][..0] == [] && [Asked(now)][..0] == [];
  }

  method OnHello(node: Node, e: Event)
    requires node.Valid() && e.GotHello? && OnWire(e)
    modifies node`pendingRtc, node`history, node.ns, node.ns.twoHop
    ensures node.Valid()
    ensures Adds(node.self, node.maxMissedHello, node.maxMissedTc, e, old(node.history), node.history)
  {
    ghost var h0 := node.history;
    var sym, mid := node.HandleHello(e.msg, e.interval, e.from, e.at);
    HelloAdds(node.self, node.maxMissedHello, node.maxMissedTc, e, h0, node.history, sym);
  }

  lemma HelloAdds(self: Addr, maxMissedHello: nat, maxMissedTc: nat, e: Event, h0: History, h: History, sym: bool)
    requires e.GotHello? && OnWire(e)
    requires e.msg.orig == self ==> h == h0
    requires e.msg.orig != self ==>
               h.events == h0.events &&
               h.moves == h0.moves + [Heard(e.msg, e.from, e.at + Hold(e.interval, maxMissedHello + 1), e.at)] +
                          if sym then [Reselect(e.at)] else []
    ensures Adds(self, maxMissedHello, maxMissedTc, e, h0, h)
  {
    var hello := Heard(e.msg, e.from, e.at + Hold(e.interval, maxMissedHello + 1), e.at);
    var moves := if e.msg.orig == self then [] else [hello] + if sym then [Reselect(e.at)] else [];
    FewSteps(e.at, hello, Asked(e.at));
    OneEvent(self, maxMissedHello, maxMissedTc, e);
    HistoryAdds(self, maxMissedHello, maxMissedTc, e, h0, h, moves, []);
  }

  method OnTc(node: Node, e: Event)
    requires node.Valid() && e.GotTc? && OnWire(e)
    modifies node`pendingRtc, node`history, node.ns, node.ns.twoHop, node.topo
    ensures node.Valid()
    ensures Adds(node.self, node.maxMissedHello, node.maxMissedTc, e, old(node.history), node.history)
  {
    ghost var h0 := node.history;
    ghost var asked := e.tc.orig != node.self && Accepts(node.topo.AsMap(), e.tc) && e.prevHop.Some?;
    var relay := node.HandleTc(e.tc, e.tcInterval, e.prevHop, e.at);
    TcAdds(node.self, node.maxMissedHello, node.maxMissedTc, e, h0, node.history, asked);
  }

  lemma TcAdds(self: Addr, maxMissedHello: nat, maxMissedTc: nat, e: Event, h0: History, h: History, asked: bool)
    requires e.GotTc? && OnWire(e)
    requires h.moves == h0.moves + if asked then [Lapse(e.at)] else []
    requires h.events == h0.events + if e.tc.orig == self then []
                                     else [Received(e.tc, e.at + Hold(e.tcInterval, maxMissedTc), e.at)]
    ensures Adds(self, maxMissedHello, maxMissedTc, e, h0, h)
  {
    var received := Received(e.tc, e.at + Hold(e.tcInterval, maxMissedTc), e.at);
    var moves := if asked then [Lapse(e.at)] else [];
    var events := if e.tc.orig == self then [] else [received];
    FewSteps(e.at, Lapse(e.at), received);
    OneEvent(self, maxMissedHello, maxMissedTc, e);
    HistoryAdds(self, maxMissedHello, maxMissedTc, e, h0, h, moves, events);
  }

  method OnRebuild(node: Node, e: Event)
    requires node.Valid() && e.Rebuild?
    modifies node`pendingRtc, node`built, node`history, node.ns, node.ns.twoHop, node.topo, node.table, node.calculator
    ensures node.Valid()
    ensures Adds(node.self, node.maxMissedHello, node.maxMissedTc, e, old(node.history), node.history)
  {
    ghost var h0, pending := node.history, node.pendingRtc;
    node.BuildRoutingTable(e.at);
    LookAdds(node.self, node.maxMissedHello, node.maxMissedTc, e, h0, node.history, pending,
             pending && node.built.graph.neighbors != []);
  }

  /** What only looks at the tables adds an expiry or a query. */
  method OnQuery(node: Node, e: Event)
    requires node.Valid() && (e.EmitTc? || e.QueryNeighbor? || e.QueryLinks?) && HistoryBy(node.history, e.at)
    modifies node`history, node.ns, node.ns.twoHop, node.topo
    ensures node.Valid()
    ensures Adds(node.self, node.maxMissedHello, node.maxMissedTc, e, old(node.history), node.history)
  {
    ghost var h0 := node.history;
    if e.EmitTc? {
      var tc := node.MakeTc(e.seqNum, e.maxCount, e.at);
    } else if e.QueryNeighbor? {
      var r := node.AskNeighbor(e.a, e.at);
    } else {
      var nbrs := node.AskLinks(e.orig, e.at);
    }
    LookAdds(node.self, node.maxMissedHello, node.maxMissedTc, e, h0, node.history, !e.QueryLinks?, e.QueryLinks?);
  }

  lemma LookAdds(self: Addr, maxMissedHello: nat, maxMissedTc: nat, e: Event, h0: History, h: History, lapse: bool,
                 asked: bool)
    requires !e.GotHello? && !e.GotTc?
    requires h.moves == h0.moves + if lapse then [Lapse(e.at)] else []
    requires h.events == h0.events + if asked then [Asked(e.at)] else []
    ensures Adds(self, maxMissedHello, maxMissedTc, e, h0, h)
  {
    FewSteps(e.at, Lapse(e.at), Asked(e.at));
    OneEvent(self, maxMissedHello, maxMissedTc, e);
    HistoryAdds(self, maxMissedHello, maxMissedTc, e, h0, h, if lapse then [Lapse(e.at)] else [],
                if asked then [Asked(e.at)] else []);
  }

  lemma OneEvent(self: Addr, maxMissedHello: nat, maxMissedTc: nat, e: Event)
    requires OnWire(e)
    ensures HellosIn(self, maxMissedHello, [e]) ==
            if e.GotHello? && e.msg.orig != self
            then [Heard(e.msg, e.from, e.at + Hold(e.interval, maxMissedHello + 1), e.at)] else []
    ensures TcsIn(self, maxMissedTc, [e]) ==
            if e.GotTc? && e.tc.orig != self
            then [Received(e.tc, e.at + Hold(e.tcInterval, maxMissedTc), e.at)] else []
  {
    assert [e][..0] == [] && [e][0] == e;
  }

  /** One event of a run. */
  method StepNode(node: Node, e: Event)
    requires node.Valid() && OnWire(e) && HistoryBy(node.history, e.at)
    modifies node`pendingRtc, node`built, node`history, node.ns, node.ns.twoHop, node.topo, node.table, node.calculator
    ensures node.Valid()
    ensures Adds(node.self, node.maxMissedHello, node.maxMissedTc, e, old(node.history), node.history)
  {
    if e.GotHello? {
      OnHello(node, e);
    } else if e.GotTc? {
      OnTc(node, e);
    } else if e.Rebuild? {
      OnRebuild(node, e);
    } else {
      OnQuery(node, e);
    }
  }

  /** The time of the last of the first `i` events. */
  function TimeAt(events: seq<Event>, i: nat, start: int): int
    requires i <= |events|
  {
    if i == 0 then start else events[i - 1].at
  }

  /** Every run keeps the node's invariant, and its history is that of the run: exactly the HELLOs and TCs
      that came in, in order, none but its own left out, and nothing later than the last event. */
  method RunNode(node: Node, events: seq<Event>, start: int)
    requires node.Valid() && HistoryBy(node.history, start) && Clocked(events, start) && AllOnWire(events)
    modifies node`pendingRtc, node`built, node`history, node.ns, node.ns.twoHop, node.topo, node.table, node.calculator
    ensures node.Valid()
    ensures Follows(node.self, node.maxMissedHello, node.maxMissedTc, events, old(node.history), node.history)
    ensures HistoryBy(node.history, TimeAt(events, |events|, start))
  {
    ghost var h0 := node.history;
    for i := 0 to |events|
      invariant node.Valid() && HistoryBy(node.history, TimeAt(events, i, start))
      invariant Follows(node.self, node.maxMissedHello, node.maxMissedTc, events[..i], h0, node.history)
    {
      ghost var h1 := node.history;
      LaterBy(h1, TimeAt(events, i, start), events[i].at);
      StepNode(node, events[i]);
      FollowsOn(node.self, node.maxMissedHello, node.maxMissedTc, events, i, h0, h1, node.history);
    }
    assert events[..|events|] == events;
  }

  lemma LaterBy(h: History, before: int, now: int)
    requires HistoryBy(h, before) && before <= now
    ensures HistoryBy(h, now)
  {
  }

  lemma FollowsOn(self: Addr, maxMissedHello: nat, maxMissedTc: nat, events: seq<Event>, i: nat,
                  h0: History, h1: History, h: History)
    requires i < |events| && AllOnWire(events)
    requires Follows(self, maxMissedHello, maxMissedTc, events[..i], h0, h1)
    requires Adds(self, maxMissedHello, maxMissedTc, events[i], h1, h) && HistoryBy(h1, events[i].at)
    ensures Follows(self, maxMissedHello, maxMissedTc, events[..i + 1], h0, h) && HistoryBy(h, events[i].at)
  {
    InGrows(self, maxMissedHello, maxMissedTc, events, i);
    Regroup(HellosOf(h0.moves), HellosIn(self, maxMissedHello, events[..i]),
            HellosIn(self, maxMissedHello, [events[i]]));
    Regroup(TcsOf(h0.events), TcsIn(self, maxMissedTc, events[..i]), TcsIn(self, maxMissedTc, [events[i]]));
  }

  lemma Regroup<T>(a: seq<T>, b: seq<T>, c: seq<T>)
    ensures a + b + c == a + (b + c)
  {
  }

  lemma InGrows(self: Addr, maxMissedHello: nat, maxMissedTc: nat, events: seq<Event>, i: nat)
    requires i < |events| && AllOnWire(events)
    ensures AllOnWire(events[..i]) && AllOnWire(events[..i + 1]) && OnWire(events[i])
    ensures HellosIn(self, maxMissedHello, events[..i + 1]) ==
            HellosIn(self, maxMissedHello, events[..i]) + HellosIn(self, maxMissedHello, [events[i]])
    ensures TcsIn(self, maxMissedTc, events[..i + 1]) ==
            TcsIn(self, maxMissedTc, events[..i]) + TcsIn(self, maxMissedTc, [events[i]])
  {
    assert events[..i + 1][..i] == events[..i];
    OneEvent(self, maxMissedHello, maxMissedTc, events[i]);
  }
}
