/** How long the tables remember a sender that has fallen silent, in microseconds and in its own true
    intervals. */
module Silence {
  import opened Basics
  import opened TimeCode
  import opened Queues
  import opened Hello
  import opened Topology
  import opened NodeDatabase
  import SeqNumbers
  import Weights

  // ---------------------------------------------------------------- hold times in microseconds

  /** `a` doubled `k` times. */
  function Doubled(a: nat, k: nat): nat {
    if k == 0 then a else 2 * Doubled(a, k - 1)
  }

  /** So many intervals of an interval byte, in microseconds: the high nibble plus one counts 64ths of a
      second, and the low nibble says how often to double them. */
  function Micros(interval: nat, times: nat): nat {
    if times == 0 then 0 else Micros(interval, times - 1) + 15625 * Doubled(1 + interval / 16, interval % 16)
  }

  lemma {:induction false} MicrosIsProduct(interval: nat, times: nat)
    ensures Micros(interval, times) == 15625 * (times * ((1 + interval / 16) * Pow2(interval % 16)))
  {
    DoubledIsProduct(1 + interval / 16, interval % 16);
    if times > 0 {
      MicrosIsProduct(interval, times - 1);
      OneMore(times, (1 + interval / 16) * Pow2(interval % 16));
    }
  }

  lemma OneMore(n: nat, x: nat)
    requires n > 0
    ensures n * x == (n - 1) * x + x
  {
  }

  lemma {:induction false} DoubledIsProduct(a: nat, k: nat)
    ensures Doubled(a, k) == a * Pow2(k)
  {
    if k > 0 {
      DoubledIsProduct(a, k - 1);
      assert a * (2 * Pow2(k - 1)) == 2 * (a * Pow2(k - 1));
    }
  }

  lemma {:induction false} ShiftOfWhole(a: nat, k: nat)
    ensures Shift(a as real, k) == Doubled(a, k) as real
  {
    if k > 0 {
      ShiftOfWhole(a, k - 1);
    }
  }

  lemma {:induction false} MicrosAreTimes(interval: nat, times: nat)
    requires interval < 256
    ensures Micros(interval, times) as real == 1000000.0 * Times(times, ParseTime(interval))
  {
    if times > 0 {
      MicrosAreTimes(interval, times - 1);
      ShiftOfWhole(1 + interval / 16, interval % 16);
    }
  }

  /** The deadlines of the handlers are such hold times, exactly. */
  lemma HoldIsMicros(interval: nat, times: nat)
    requires interval < 256
    ensures Hold(interval, times) == Micros(interval, times)
  {
    MicrosAreTimes(interval, times);
    TimesIsProduct(times, ParseTime(interval));
  }

  // ---------------------------------------------------------------- in the sender's true intervals

  /** No more than `count` intervals `t` have passed. */
  predicate IsWithin(elapsed: int, count: nat, t: real) {
    elapsed as real <= 1000000.0 * Times(count, t)
  }

  /** `times` intervals, as the byte for `t` gives them, have not passed. */
  predicate IsHeld(elapsed: int, times: nat, t: real)
    requires 0.0 < t < 8192.0
  {
    elapsed < Micros(Sparce(t), times)
  }

  /** Whatever the interval of a sender is, from `j` 64ths of a second on, what is held for `times` of
      its coded intervals is held throughout `count` of its true ones, exactly if
      `count * (j + 1) <= j * times`. */
  lemma HeldThroughout(j: nat, times: nat, count: nat)
    requires 1 <= j <= 8 && times >= 1
    ensures count * (j + 1) <= j * times <==>
            forall t, elapsed :: j as real / 64.0 <= t < 8192.0 && IsWithin(elapsed, count, t) ==>
              IsHeld(elapsed, times, t)
  {
    HoldOutlastsIntervals(j, times - 1, count);
    if count * (j + 1) <= j * times {
      forall t, elapsed | j as real / 64.0 <= t < 8192.0 && IsWithin(elapsed, count, t)
        ensures IsHeld(elapsed, times, t)
      {
        HeldIsHold(elapsed, times, t);
      }
    } else {
      var t :| j as real / 64.0 <= t < 8192.0 && HelloHold(t, times - 1) <= Times(count, t);
      var elapsed := Micros(Sparce(t), times);
      MicrosAreTimes(Sparce(t), times);
      HeldIsHold(elapsed, times, t);
      assert IsWithin(elapsed, count, t) && !IsHeld(elapsed, times, t);
    }
  }

  lemma HeldIsHold(elapsed: int, times: nat, t: real)
    requires 0.0 < t < 8192.0 && times >= 1
    ensures IsHeld(elapsed, times, t) <==> elapsed as real < 1000000.0 * HelloHold(t, times - 1)
  {
    MicrosAreTimes(Sparce(t), times);
  }

  /** From 1/64 s on it is not held longer than so many true intervals. */
  lemma NotHeldBeyond(elapsed: int, times: nat, t: real)
    requires 1.0 / 64.0 <= t < 8192.0 && times >= 1 && elapsed as real >= 1000000.0 * Times(times, t)
    ensures !IsHeld(elapsed, times, t)
  {
    HeldIsHold(elapsed, times, t);
    NextHelloIsTooLate(1, times - 1, t);
  }

  // ---------------------------------------------------------------- a neighbour that falls silent

  lemma {:induction false} LatestHeardSkips(locals: set<Addr>, hellos: seq<Move>, more: seq<Move>, a: Addr)
    requires forall e :: e in more && e.Heard? && e.msg.orig == a ==> !IsSymmetric(locals, e.from, e.msg.ifaces)
    ensures LatestHeard(locals, hellos + more, a) == LatestHeard(locals, hellos, a)
    decreases |more|
  {
    if more == [] {
      assert hellos + more == hellos;
    } else {
      var n := |more| - 1;
      assert (hellos + more)[..|hellos + more| - 1] == hellos + more[..n];
      LatestHeardSkips(locals, hellos, more[..n], a);
    }
  }

  /** No symmetric HELLO of `a` is among the events. */
  predicate IsSilent(locals: set<Addr>, events: seq<NodeDatabase.Event>, a: Addr) {
    forall i :: 0 <= i < |events| && events[i].GotHello? && events[i].msg.orig == a ==>
      !IsSymmetric(locals, events[i].from, events[i].msg.ifaces)
  }

  lemma {:induction false} SilentHellos(self: Addr, maxMissed: nat, locals: set<Addr>, events: seq<NodeDatabase.Event>,
                                        a: Addr)
    requires AllOnWire(events) && IsSilent(locals, events, a)
    ensures forall e :: e in HellosIn(self, maxMissed, events) && e.Heard? && e.msg.orig == a ==>
              !IsSymmetric(locals, e.from, e.msg.ifaces)
    decreases |events|
  {
    if events != [] {
      SilentHellos(self, maxMissed, locals, events[..|events| - 1], a);
      assert OnWire(events[|events| - 1]);
    }
  }

  /** All events happen from `at` to `now`, in order. */
  ghost predicate Between(events: seq<NodeDatabase.Event>, at: int, now: int) {
    AllOnWire(events) && Clocked(events, at) && at <= now && forall i :: 0 <= i < |events| ==> events[i].at <= now
  }

  /** A symmetric HELLO that announces an interval byte, then whatever else happens to the node but another
      symmetric HELLO of the same sender, then the question whether it is a neighbour: it is exactly until
      one interval more than the configured number of misses has passed. */
  method AskAfterHello(node: Node, msg: Msg, interval: nat, from: Arrival, at: int, events: seq<NodeDatabase.Event>,
                       now: int) returns (r: bool)
    requires node.Valid() && HistoryBy(node.history, at) && interval < 256 && msg.orig != node.self
    requires IsSymmetric(node.locals, from, msg.ifaces)
    requires Between(events, at, now) && IsSilent(node.locals, events, msg.orig)
    modifies node`pendingRtc, node`built, node`history, node.ns, node.ns.twoHop, node.topo, node.table, node.calculator
    ensures node.Valid()
    ensures r <==> now < at + Micros(interval, node.maxMissedHello + 1)
  {
    HelloThenEvents(node, msg, interval, from, at, events, now);
    r := node.AskNeighbor(msg.orig, now);
    HoldIsMicros(interval, node.maxMissedHello + 1);
  }

  method HelloThenEvents(node: Node, msg: Msg, interval: nat, from: Arrival, at: int, events: seq<NodeDatabase.Event>,
                         now: int)
    requires node.Valid() && HistoryBy(node.history, at) && interval < 256 && msg.orig != node.self
    requires IsSymmetric(node.locals, from, msg.ifaces)
    requires Between(events, at, now) && IsSilent(node.locals, events, msg.orig)
    modifies node`pendingRtc, node`built, node`history, node.ns, node.ns.twoHop, node.topo, node.table, node.calculator
    ensures node.Valid() && MovesBy(node.history.moves, now)
    ensures LatestHeard(node.locals, HellosOf(node.history.moves), msg.orig) ==
            Some(at + Hold(interval, node.maxMissedHello + 1))
  {
    HearHello(node, msg, interval, from, at);
    ghost var h0 := node.history;
    RunNode(node, events, at);
    LaterBy(node.history, TimeAt(events, |events|, at), now);
    StillLatest(node.self, node.maxMissedHello, node.maxMissedTc, node.locals, events, msg.orig, h0, node.history);
  }

  method HearHello(node: Node, msg: Msg, interval: nat, from: Arrival, at: int)
    requires node.Valid() && HistoryBy(node.history, at) && interval < 256 && msg.orig != node.self
    requires IsSymmetric(node.locals, from, msg.ifaces)
    modifies node`pendingRtc, node`history, node.ns, node.ns.twoHop
    ensures node.Valid() && HistoryBy(node.history, at)
    ensures LatestHeard(node.locals, HellosOf(node.history.moves), msg.orig) ==
            Some(at + Hold(interval, node.maxMissedHello + 1))
  {
    ghost var h0 := node.history;
    var sym, mid := node.HandleHello(msg, interval, from, at);
    HelloIsLatest(node.self, node.maxMissedHello, node.locals, msg, interval, from, at, h0, node.history);
  }

  lemma StillLatest(self: Addr, maxMissedHello: nat, maxMissedTc: nat, locals: set<Addr>,
                    events: seq<NodeDatabase.Event>, a: Addr, h0: History, h: History)
    requires AllOnWire(events) && IsSilent(locals, events, a)
    requires Follows(self, maxMissedHello, maxMissedTc, events, h0, h)
    ensures LatestHeard(locals, HellosOf(h.moves), a) == LatestHeard(locals, HellosOf(h0.moves), a)
  {
    SilentHellos(self, maxMissedHello, locals, events, a);
    LatestHeardSkips(locals, HellosOf(h0.moves), HellosIn(self, maxMissedHello, events), a);
  }

  lemma HelloIsLatest(self: Addr, maxMissedHello: nat, locals: set<Addr>, msg: Msg, interval: nat,
                      from: Arrival, at: int, h0: History, h: History)
    requires interval < 256 && IsSymmetric(locals, from, msg.ifaces) && HistoryBy(h0, at)
    requires h.events == h0.events
    requires h.moves == h0.moves + [Heard(msg, from, at + Hold(interval, maxMissedHello + 1), at)] + [Reselect(at)]
    ensures HistoryBy(h, at)
    ensures LatestHeard(locals, HellosOf(h.moves), msg.orig) == Some(at + Hold(interval, maxMissedHello + 1))
  {
    var hello := Heard(msg, from, at + Hold(interval, maxMissedHello + 1), at);
    HelloIsBy(h0, h, hello, at);
    HelloIsLast(locals, h0.moves, hello, at);
    assert h.moves == h0.moves + ([hello] + [Reselect(at)]);
  }

  lemma HelloIsBy(h0: History, h: History, hello: Move, at: int)
    requires HistoryBy(h0, at) && hello.at == at && h.events == h0.events
    requires h.moves == h0.moves + [hello] + [Reselect(at)]
    ensures HistoryBy(h, at)
  {
    assert h.moves == h0.moves + ([hello] + [Reselect(at)]);
    LaterHistory(h0, h, [hello] + [Reselect(at)], [], at, at);
  }

  lemma HelloIsLast(locals: set<Addr>, moves: seq<Move>, hello: Move, at: int)
    requires hello.Heard? && IsSymmetric(locals, hello.from, hello.msg.ifaces)
    ensures LatestHeard(locals, HellosOf(moves + ([hello] + [Reselect(at)])), hello.msg.orig) == Some(hello.due)
  {
    var hellos := HellosOf(moves);
    HellosAppend(moves, [hello] + [Reselect(at)]);
    FewSteps(at, hello, Topology.Asked(at));
    assert (hellos + [hello])[..|hellos|] == hellos && (hellos + [hello])[|hellos|] == hello;
  }

  /** The same for a sender that announces its true interval. It outlives the configured number `n` of
      silent intervals if `n` is at most 8 and the interval at least `n` 64ths of a second, and one; the
      HELLO that ends the silence never comes before the deadline. */
  method AskBetweenHellos(node: Node, msg: Msg, t: real, from: Arrival, at: int, events: seq<NodeDatabase.Event>,
                          now: int) returns (r: bool)
    requires node.Valid() && HistoryBy(node.history, at) && 0.0 < t < 8192.0 && msg.orig != node.self
    requires IsSymmetric(node.locals, from, msg.ifaces)
    requires Between(events, at, now) && IsSilent(node.locals, events, msg.orig)
    modifies node`pendingRtc, node`built, node`history, node.ns, node.ns.twoHop, node.topo, node.table, node.calculator
    ensures node.Valid()
    ensures r <==> IsHeld(now - at, node.maxMissedHello + 1, t)
    ensures IsCoded(node.maxMissedHello, t) && IsWithin(now - at, node.maxMissedHello, t) ==> r
    ensures t >= 1.0 / 64.0 && (now - at) as real >= 1000000.0 * Times(node.maxMissedHello + 1, t) ==> !r
  {
    r := AskAfterHello(node, msg, Sparce(t), from, at, events, now);
    MissedHellos(now - at, node.maxMissedHello, t);
  }

  /** Intervals that lose so little by coding that `misses` of them are outlived: from `misses` 64ths of a
      second on, and one, and for at most eight misses. */
  predicate IsCoded(misses: nat, t: real) {
    misses <= 8 && t >= 1.0 / 64.0 && t >= misses as real / 64.0
  }

  lemma MissedHellos(elapsed: int, misses: nat, t: real)
    requires 0.0 < t < 8192.0
    ensures IsCoded(misses, t) && IsWithin(elapsed, misses, t) ==> IsHeld(elapsed, misses + 1, t)
    ensures t >= 1.0 / 64.0 && elapsed as real >= 1000000.0 * Times(misses + 1, t) ==>
              !IsHeld(elapsed, misses + 1, t)
  {
    if IsCoded(misses, t) && IsWithin(elapsed, misses, t) {
      var j := if misses == 0 then 1 else misses;
      ProductsCompare(j, misses);
      HeldThroughout(j, misses + 1, misses);
    }
    if t >= 1.0 / 64.0 && elapsed as real >= 1000000.0 * Times(misses + 1, t) {
      NotHeldBeyond(elapsed, misses + 1, t);
    }
  }

  // ---------------------------------------------------------------- an originator that falls silent

  /** No TC of `orig` is among the events. */
  predicate IsUnheard(events: seq<NodeDatabase.Event>, orig: Addr) {
    forall i :: 0 <= i < |events| && events[i].GotTc? ==> events[i].tc.orig != orig
  }

  lemma {:induction false} UnheardTcs(self: Addr, maxMissed: nat, events: seq<NodeDatabase.Event>, orig: Addr)
    requires AllOnWire(events) && IsUnheard(events, orig)
    ensures forall e :: e in TcsIn(self, maxMissed, events) && e.Received? ==> e.tc.orig != orig
    decreases |events|
  {
    if events != [] {
      UnheardTcs(self, maxMissed, events[..|events| - 1], orig);
      assert OnWire(events[|events| - 1]);
    }
  }

  lemma {:induction false} TcsAreThere(events: seq<Topology.Event>, e: Topology.Event)
    requires e in events && e.Received?
    ensures e in TcsOf(events)
    decreases |events|
  {
    var n := |events| - 1;
    if e != events[n] {
      assert e in events[..n];
      TcsAreThere(events[..n], e);
    }
  }

  /** Among what the node's history gained there is no TC of `orig`. */
  lemma NothingHeard(self: Addr, maxMissedHello: nat, maxMissedTc: nat, events: seq<NodeDatabase.Event>, orig: Addr,
                     h0: History, h: History) returns (more: seq<Topology.Event>)
    requires AllOnWire(events) && IsUnheard(events, orig)
    requires Follows(self, maxMissedHello, maxMissedTc, events, h0, h)
    ensures h.events == h0.events + more && forall e :: e in more && e.Received? ==> e.tc.orig != orig
  {
    more := h.events[|h0.events|..];
    assert h.events == h0.events + more;
    TcsAppend(h0.events, more);
    var a := TcsOf(h0.events);
    var b := TcsIn(self, maxMissedTc, events);
    assert (a + TcsOf(more))[|a|..] == TcsOf(more) && (a + b)[|a|..] == b;
    UnheardTcs(self, maxMissedTc, events, orig);
    forall e | e in more && e.Received? ensures e.tc.orig != orig {
      TcsAreThere(more, e);
    }
  }

  /** The last event of `before` is an accepted TC of `orig` that lists somebody; nothing was heard of it
      since. Then it is the last one accepted and its deadline is the latest. */
  lemma {:induction false} TcIsLatest(before: seq<Topology.Event>, tc: Tc, due: int, at: int, more: seq<Topology.Event>)
    requires Accepts(RunEvents(before), tc) && tc.links != []
    requires forall e :: e in more && e.Received? ==> e.tc.orig != tc.orig
    ensures LatestDeadline(before + [Received(tc, due, at)] + more, tc.orig) == Some(due)
    ensures LastAccepted(before + [Received(tc, due, at)] + more, |before|, tc.orig)
    decreases |more|
  {
    var all := before + [Received(tc, due, at)] + more;
    assert all[..|before|] == before;
    forall j | |before| < j < |all| ensures !AcceptedAt(all, j, tc.orig) {
      assert all[j] in more;
    }
    if more == [] {
      assert all[..|all| - 1] == before;
    } else {
      assert all[..|all| - 1] == before + [Received(tc, due, at)] + more[..|more| - 1];
      TcIsLatest(before, tc, due, at, more[..|more| - 1]);
    }
  }

  /** An accepted TC that lists somebody and announces an interval byte, then whatever else happens to the
      node but another TC of the same originator, then the question for its links: they are those of the TC,
      exactly until the configured number of intervals has passed. */
  method AskAfterTc(node: Node, tc: Tc, interval: nat, prevHop: Option<Addr>, at: int,
                    events: seq<NodeDatabase.Event>, now: int) returns (nbrs: map<Addr, nat>)
    requires node.Valid() && HistoryBy(node.history, at) && interval < 256 && SeqNumbers.IsSeq(tc.seqNum)
    requires tc.orig != node.self && tc.links != [] && Accepts(node.topo.AsMap(), tc)
    requires Between(events, at, now) && IsUnheard(events, tc.orig)
    modifies node`pendingRtc, node`built, node`history, node.ns, node.ns.twoHop, node.topo, node.table, node.calculator
    ensures node.Valid()
    ensures nbrs == if now < at + Micros(interval, node.maxMissedTc) then LinkMap(tc.links) else map[]
  {
    ghost var n := TcThenEvents(node, tc, interval, prevHop, at, events, now);
    ghost var gained := node.history.events;
    nbrs := node.AskLinks(tc.orig, now);
    HoldIsMicros(interval, node.maxMissedTc);
    forall i: nat | LastAccepted(gained, i, tc.orig) ensures i == n { }
  }

  method TcThenEvents(node: Node, tc: Tc, interval: nat, prevHop: Option<Addr>, at: int,
                      events: seq<NodeDatabase.Event>, now: int) returns (ghost n: nat)
    requires node.Valid() && HistoryBy(node.history, at) && interval < 256 && SeqNumbers.IsSeq(tc.seqNum)
    requires tc.orig != node.self && tc.links != [] && Accepts(node.topo.AsMap(), tc)
    requires Between(events, at, now) && IsUnheard(events, tc.orig)
    modifies node`pendingRtc, node`built, node`history, node.ns, node.ns.twoHop, node.topo, node.table, node.calculator
    ensures node.Valid() && EventsBy(node.history.events, now)
    ensures LatestDeadline(node.history.events, tc.orig) == Some(at + Hold(interval, node.maxMissedTc))
    ensures LastAccepted(node.history.events, n, tc.orig) && node.history.events[n].tc == tc
  {
    ghost var h0, due := node.history, at + Hold(interval, node.maxMissedTc);
    node.Story();
    n := |h0.events|;
    var relay := node.HandleTc(tc, interval, prevHop, at);
    ghost var h1 := node.history;
    TcIsBy(h0, h1, tc, due, at);
    RunNode(node, events, at);
    LaterBy(node.history, TimeAt(events, |events|, at), now);
    ghost var more := NothingHeard(node.self, node.maxMissedHello, node.maxMissedTc, events, tc.orig, h1, node.history);
    TcIsLatest(h0.events, tc, due, at, more);
  }

  lemma TcIsBy(h0: History, h: History, tc: Tc, due: int, at: int)
    requires HistoryBy(h0, at) && h.events == h0.events + [Received(tc, due, at)]
    requires h.moves == h0.moves || h.moves == h0.moves + [Lapse(at)]
    ensures HistoryBy(h, at)
  {
    assert h0.moves + [] == h0.moves;
    LaterHistory(h0, h, if h.moves == h0.moves then [] else [Lapse(at)], [Received(tc, due, at)], at, at);
  }

  /** The same for an originator that announces its true interval: its links outlive `count` silent
      intervals where `count * (j + 1)` is at most `j` times the configured number, from `j` 64ths of a
      second on, and never that number itself. */
  method AskBetweenTcs(node: Node, tc: Tc, t: real, prevHop: Option<Addr>, at: int, events: seq<NodeDatabase.Event>,
                       now: int, ghost j: nat, ghost count: nat) returns (nbrs: map<Addr, nat>)
    requires node.Valid() && HistoryBy(node.history, at) && 0.0 < t < 8192.0 && SeqNumbers.IsSeq(tc.seqNum)
    requires tc.orig != node.self && tc.links != [] && Accepts(node.topo.AsMap(), tc)
    requires Between(events, at, now) && IsUnheard(events, tc.orig)
    modifies node`pendingRtc, node`built, node`history, node.ns, node.ns.twoHop, node.topo, node.table, node.calculator
    ensures node.Valid()
    ensures nbrs == if IsHeld(now - at, node.maxMissedTc, t) then LinkMap(tc.links) else map[]
    ensures Tolerates(j, node.maxMissedTc, count, t) && IsWithin(now - at, count, t) ==> nbrs == LinkMap(tc.links)
    ensures t >= 1.0 / 64.0 && (now - at) as real >= 1000000.0 * Times(node.maxMissedTc, t) ==> nbrs == map[]
  {
    nbrs := AskAfterTc(node, tc, Sparce(t), prevHop, at, events, now);
    MissedTcs(now - at, node.maxMissedTc, t, j, count);
  }

  predicate Tolerates(j: nat, times: nat, count: nat, t: real) {
    1 <= j <= 8 && count * (j + 1) <= j * times && t >= j as real / 64.0
  }

  lemma MissedTcs(elapsed: int, times: nat, t: real, j: nat, count: nat)
    requires 0.0 < t < 8192.0 && times >= 1
    ensures Tolerates(j, times, count, t) && IsWithin(elapsed, count, t) ==> IsHeld(elapsed, times, t)
    ensures t >= 1.0 / 64.0 && elapsed as real >= 1000000.0 * Times(times, t) ==> !IsHeld(elapsed, times, t)
  {
    if Tolerates(j, times, count, t) && IsWithin(elapsed, count, t) {
      HeldThroughout(j, times, count);
    }
    if t >= 1.0 / 64.0 && elapsed as real >= 1000000.0 * Times(times, t) {
      NotHeldBeyond(elapsed, times, t);
    }
  }

  // ---------------------------------------------------------------- relaying for who asked for it

  /** A neighbour's HELLO, then an accepted TC that came in from it: the TC is relayed exactly if the HELLO
      named this node with code 2 and its hold time has not passed. */
  method RelayAfterHello(node: Node, msg: Msg, interval: nat, from: Arrival, at: int, tc: Tc, tcInterval: nat, now: int)
      returns (relay: bool)
    requires node.Valid() && interval < 256 && tcInterval < 256 && SeqNumbers.IsSeq(tc.seqNum)
    requires msg.orig != node.self && IsSymmetric(node.locals, from, msg.ifaces)
    requires tc.orig != node.self && Accepts(node.topo.AsMap(), tc)
    modifies node`pendingRtc, node`history, node.ns, node.ns.twoHop, node.topo
    ensures node.Valid()
    ensures relay <==> now < at + Micros(interval, node.maxMissedHello + 1) &&
                       exists i :: 0 <= i < |msg.neighs| && msg.neighs[i].addr == node.self && msg.neighs[i].code == 2
  {
    ghost var s0, due := SnapOf(node.ns), at + Hold(interval, node.maxMissedHello + 1);
    HoldIsMicros(interval, node.maxMissedHello + 1);
    var sym, mid := node.HandleHello(msg, interval, from, at);
    ghost var s1 := SnapOf(node.ns);
    SelectorAfterHello(node.self, node.metric, node.locals, msg, from, due, at, s0, mid, s1);
    relay := node.HandleTc(tc, tcInterval, Some(msg.orig), now);
    SelectorLapses(msg.orig, due, now, s1, SnapOf(node.ns));
  }

  lemma SelectorAfterHello(self: Addr, m: Weights.Metric, locals: set<Addr>, msg: Msg, from: Arrival, due: int, at: int,
                           s0: Snap, mid: Snap, s: Snap)
    requires IsSymmetric(locals, from, msg.ifaces) && due > at
    requires HelloEffect(self, m, locals, msg, from, due, at, s0, mid) && Reselected(at, mid, s)
    ensures WellFormed(s.ts) && Due(s.ts, msg.orig) == Some(due) && msg.orig in s.tuples
    ensures s.tuples[msg.orig].mprSelector <==>
            exists i :: 0 <= i < |msg.neighs| && msg.neighs[i].addr == self && msg.neighs[i].code == 2
  {
    QueueIsMap(mid.ts, 0, msg.orig, at, msg.orig);
    LapsedIsDue(mid.ts, at, msg.orig);
  }

  lemma SelectorLapses(a: Addr, due: int, now: int, s0: Snap, s: Snap)
    requires WellFormed(s0.ts) && Due(s0.ts, a) == Some(due) && a in s0.tuples && OnlyExpired(now, s0, s)
    ensures a in s.tuples <==> now < due
    ensures a in s.tuples ==> s.tuples[a] == s0.tuples[a]
  {
    LapsedIsDue(s0.ts, now, a);
  }
}
