/** What a HELLO's codes and qualities do to the tables, in numbers. */
module HelloLaws {
  import opened Basics
  import opened Weights
  import opened Queues
  import opened TwoHop
  import opened Neighbors
  import opened Hello

  // ---------------------------------------------------------------- link codes

  /** Entry `i` lists our interface as one the sender hears, and no later entry does. */
  predicate IsLastMatch(locals: set<Addr>, from: Arrival, es: seq<IfaceEntry>, i: nat) {
    i < |es| && es[i].linkCode % 4 != 3 && es[i].addr == from.localIface && from.localIface in locals &&
    forall j :: i < j < |es| ==> !(es[j].linkCode % 4 != 3 && es[j].addr == from.localIface)
  }

  /** Of the four link codes 3 alone does not count. An entry for our interface with another one makes the
      sender a neighbour until the hold time runs out, no relay and of the announced willingness; without
      such an entry nothing but expiry happens. */
  lemma LinkCodes(self: Addr, m: Metric, locals: set<Addr>, msg: Msg, from: Arrival, due: int, now: int,
                  s0: Snap, s: Snap)
    requires HelloEffect(self, m, locals, msg, from, due, now, s0, s)
    ensures if exists i: nat :: IsLastMatch(locals, from, msg.ifaces, i) then
              Due(s.ts, msg.orig) == Some(due) && msg.orig in s.tuples &&
              !s.tuples[msg.orig].mpr && s.tuples[msg.orig].willingness == msg.willingness
            else s == s0 || OnlyExpired(now, s0, s)
  {
    LastMatchExists(locals, from, msg.ifaces);
    if IsSymmetric(locals, from, msg.ifaces) {
      HeardForgetsSelector(m, locals, TupleOf(s0, msg.orig), msg.willingness, from, msg.ifaces);
    }
  }

  lemma {:induction false} LastMatchExists(locals: set<Addr>, from: Arrival, es: seq<IfaceEntry>)
    ensures IsSymmetric(locals, from, es) <==> exists i: nat :: IsLastMatch(locals, from, es, i)
    decreases |es|
  {
    if es != [] {
      var front, n := es[..|es| - 1], |es| - 1;
      LastMatchExists(locals, from, front);
      SymmetricGrows(locals, from, es);
      if HearsUs(locals, from, es[n]) {
        assert IsLastMatch(locals, from, es, n);
      } else {
        forall i: nat | i < n ensures IsLastMatch(locals, from, front, i) <==> IsLastMatch(locals, from, es, i) {
        }
        if i: nat :| IsLastMatch(locals, from, es, i) {
          assert i != n;
        }
      }
    }
  }

  // ---------------------------------------------------------------- the quality of the best link

  /** What the sender's best link is worth if it is the one the HELLO came over: for ETX both directions
      multiply, as `x` and `y` percent do, rounded down in a byte; for the other metrics it is the quality
      that the sender listed last. */
  lemma BestLinkQuality(self: Addr, m: Metric, locals: set<Addr>, msg: Msg, from: Arrival, due: int, now: int,
                        s0: Snap, s: Snap, i: nat)
    requires HelloEffect(self, m, locals, msg, from, due, now, s0, s) && IsLastMatch(locals, from, msg.ifaces, i)
    requires msg.orig in s.tuples && s.tuples[msg.orig].bestLink == Some(LinkId(from.localIface, from.senderIface))
    ensures var q, x, y := s.tuples[msg.orig].quality, from.measured, msg.ifaces[i].qualityFrom;
            if m.Etx? then IsEtxByte(q, x * y, x, y) else q == y
  {
    var t := TupleOf(s0, msg.orig);
    LastMatchExists(locals, from, msg.ifaces);
    BestLinkHeard(m, locals, t, msg.willingness, from, msg.ifaces);
    LastMatchDecides(m, locals, from, msg.ifaces, i);
    EtxQuality(from.measured, msg.ifaces[i].qualityFrom);
  }

  /** `q` percent is what two directions of `x` and `y` percent with product `p` make together: never
      above either, the other one where one is perfect, and nothing exactly if the product is below one
      percent. */
  predicate IsBothWays(q: nat, p: nat, x: nat, y: nat) {
    100 * q <= p < 100 * (q + 1) && q <= x && q <= y && (x == 100 ==> q == y) && (y == 100 ==> q == x) &&
    (q == 0 <==> p < 100)
  }

  lemma InByte(p: nat)
    ensures var q := p / 100 % 256; 100 * q <= p < 100 * (q + 1) <==> p < 25600
  {
  }

  lemma BothWays(q: nat, p: nat, x: nat, y: nat)
    requires 100 * q <= p < 100 * (q + 1) && p <= 100 * x && p <= 100 * y
    requires (x == 100 ==> p == 100 * y) && (y == 100 ==> p == 100 * x)
    ensures IsBothWays(q, p, x, y)
  {
  }

  /** The byte for a product `p`; right exactly below 25600. */
  predicate IsEtxByte(q: nat, p: nat, x: nat, y: nat) {
    (100 * q <= p < 100 * (q + 1) <==> p < 25600) && (x <= 100 && y <= 100 ==> IsBothWays(q, p, x, y))
  }

  lemma EtxByte(p: nat, x: nat, y: nat)
    requires x <= 100 && y <= 100 ==>
               p <= 100 * x && p <= 100 * y && (x == 100 ==> p == 100 * y) && (y == 100 ==> p == 100 * x)
    ensures IsEtxByte(p / 100 % 256, p, x, y)
  {
    InByte(p);
    if x <= 100 && y <= 100 {
      BothWays(p / 100 % 256, p, x, y);
    }
  }

  lemma EtxQuality(x: nat, y: nat)
    ensures IsEtxByte(x * y / 100 % 256, x * y, x, y)
  {
    if x <= 100 && y <= 100 {
      AtMost(x, y);
    }
    EtxByte(x * y, x, y);
  }

  lemma AtMost(x: nat, y: nat)
    requires x <= 100 && y <= 100
    ensures x * y <= 100 * y && x * y <= 100 * x
    ensures (x == 100 ==> x * y == 100 * y) && (y == 100 ==> x * y == 100 * x)
  {
    assert (100 - x) * y >= 0 && x * (100 - y) >= 0;
  }

  lemma {:induction false} LastMatchDecides(m: Metric, locals: set<Addr>, from: Arrival, es: seq<IfaceEntry>, i: nat)
    requires IsLastMatch(locals, from, es, i)
    ensures LastQuality(m, locals, from, es) == EntryQuality(m, from, es[i])
    decreases |es|
  {
    if i < |es| - 1 {
      LastMatchDecides(m, locals, from, es[..|es| - 1], i);
    }
  }

  /** The two directions may be exchanged: what is measured here and what the sender lists. */
  lemma DirectionsCount(self: Addr, m: Metric, locals: set<Addr>, msg: Msg, from: Arrival, due: int, now: int,
                        s0: Snap, s: Snap, e0: Snap, e: Snap, i: nat)
    requires m.Etx? && HelloEffect(self, m, locals, msg, from, due, now, s0, s)
    requires IsLastMatch(locals, from, msg.ifaces, i)
    requires var y := msg.ifaces[i].qualityFrom;
             HelloEffect(self, m, locals, msg.(ifaces := msg.ifaces[i := msg.ifaces[i].(qualityFrom := from.measured)]),
                         from.(measured := y), due, now, e0, e)
    requires var link := Some(LinkId(from.localIface, from.senderIface));
             msg.orig in s.tuples && s.tuples[msg.orig].bestLink == link &&
             msg.orig in e.tuples && e.tuples[msg.orig].bestLink == link
    requires from.measured <= 100 && msg.ifaces[i].qualityFrom <= 100
    ensures s.tuples[msg.orig].quality == e.tuples[msg.orig].quality
  {
    var x, y := from.measured, msg.ifaces[i].qualityFrom;
    var msg' := msg.(ifaces := msg.ifaces[i := msg.ifaces[i].(qualityFrom := x)]);
    BestLinkQuality(self, m, locals, msg, from, due, now, s0, s, i);
    BestLinkQuality(self, m, locals, msg', from.(measured := y), due, now, e0, e, i);
    assert x * y == y * x;
  }

  /** Whether a stranger's only matching entry gives it a best link: exactly if what the link is worth is
      positive. */
  lemma StrangerHeard(self: Addr, m: Metric, locals: set<Addr>, msg: Msg, from: Arrival, due: int, now: int,
                      s0: Snap, s: Snap, e: IfaceEntry)
    requires HelloEffect(self, m, locals, msg, from, due, now, s0, s) && msg.orig !in s0.tuples
    requires msg.ifaces == [e] && e.linkCode % 4 != 3 && e.addr == from.localIface && from.localIface in locals
    requires from.measured <= 100 && e.qualityFrom <= 100
    ensures msg.orig in s.tuples
    ensures var t, x, y := s.tuples[msg.orig], from.measured, e.qualityFrom;
            if (if m.Etx? then x * y < 100 else y == 0) then t.bestLink == None && t.quality == 0
            else t.bestLink == Some(LinkId(from.localIface, from.senderIface)) &&
                 if m.Etx? then IsBothWays(t.quality, x * y, x, y) else t.quality == y
  {
    assert msg.ifaces[..0] == [] && msg.ifaces[0] == e && HearsUs(locals, from, e);
    assert HearAll(m, locals, BLANK, msg.willingness, from, [e]) == Hear(m, BLANK, msg.willingness, from, e);
    EtxQuality(from.measured, e.qualityFrom);
  }

  // ---------------------------------------------------------------- neighbour codes

  /** Entry `i` is the last one that lists `w` as a symmetric neighbour, by another code than 0. */
  predicate IsLastListing(es: seq<NeighEntry>, w: Addr, i: nat) {
    i < |es| && es[i].addr == w && es[i].code != 0 && forall j :: i < j < |es| ==> es[j].addr != w || es[j].code == 0
  }

  /** Code 2 for this node makes the sender a relay selector. For a stranger every code but 0 writes a
      2-hop record, the last such entry deciding; code 0, or none, keeps what has not expired. */
  lemma NeighborCodes(self: Addr, m: Metric, locals: set<Addr>, msg: Msg, from: Arrival, due: int, now: int,
                      s0: Snap, s: Snap, w: Addr)
    requires HelloEffect(self, m, locals, msg, from, due, now, s0, s) && IsSymmetric(locals, from, msg.ifaces)
    ensures msg.orig in s.tuples
    ensures s.tuples[msg.orig].mprSelector <==>
            exists i :: 0 <= i < |msg.neighs| && msg.neighs[i].addr == self && msg.neighs[i].code == 2
    ensures forall i: nat :: IsLastListing(msg.neighs, w, i) && w !in s.tuples && w != self ==>
              RecordOf(s.oneHop, msg.orig, w) == Some(Record(msg.neighs[i].quality, due))
    ensures (forall i: nat :: !IsLastListing(msg.neighs, w, i)) || w in s.tuples || w == self ==>
              RecordOf(s.oneHop, msg.orig, w) ==
              if w == msg.orig then None else UnexpiredRecord(RecordOf(s0.oneHop, msg.orig, w), now)
  {
    LastListingDecides(msg.neighs, w);
  }

  lemma {:induction false} LastListingDecides(es: seq<NeighEntry>, w: Addr)
    ensures LastListed(es, w).Some? <==> exists i: nat :: IsLastListing(es, w, i)
    ensures forall i: nat :: IsLastListing(es, w, i) ==> LastListed(es, w) == Some(es[i].quality)
    decreases |es|
  {
    if es != [] {
      var front, n := es[..|es| - 1], |es| - 1;
      LastListingDecides(front, w);
      if es[n].addr == w && es[n].code != NOT_NEIGH {
        assert IsLastListing(es, w, n);
      } else {
        forall i: nat | i < n ensures IsLastListing(front, w, i) <==> IsLastListing(es, w, i) {
        }
        if i: nat :| IsLastListing(es, w, i) {
          assert i != n;
        }
      }
    }
  }
}
