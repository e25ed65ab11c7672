/** Runs of messages to tables on which the daemon does not keep what its routes and relays promise. */
module ReachableTables {
  import opened Basics
  import opened Weights
  import opened Queues
  import opened TwoHop
  import opened Neighbors
  import opened Hello
  import opened NodeDatabase
  import opened LapsedSender
  import MprSpec
  import MprSelection

  // ---------------------------------------------------------------- neighbours of quality 0

  const AT_NEAR: Arrival := Arrival(HERE, NEAR, 100)

  /** The sender as our only neighbour, without 2-hop neighbours. */
  function Alone(due: int, link: Option<LinkId>, quality: nat): Snap {
    Snap([Slot(due, SENDER)], map[SENDER := Neighbor(false, false, 3, link, quality)], map[])
  }

  /** Nobody is to be reached, so there are no relays. */
  lemma NoRelay(due: int, now: int, link: Option<LinkId>, quality: nat)
    requires now < due
    ensures Reselected(now, Alone(due, link, quality), Alone(due, link, quality))
  {
    var s := Alone(due, link, quality);
    assert Lapsed(s.ts, now) == {} && Live(s.ts, now) == s.ts;
    assert s.tuples - {} == s.tuples && s.oneHop - {} == s.oneHop;
    var cands: seq<MprSpec.Candidate> := [];
    assert MprSelection.AreCandidates(cands, s.tuples, s.oneHop.Keys);
    forall a ensures EntryPurgedFrom(s.oneHop, s.oneHop, a, now) { }
    assert MprSelection.Selected(s.tuples, s.oneHop, now, cands, {}, s.tuples, s.oneHop);
  }

  /** A HELLO that lists this node alone. */
  lemma HeardAlone(m: Metric, s0: Snap, quality: nat, due: int, now: int)
    requires s0 == BLANK_SNAP || exists d, l, q :: s0 == Alone(d, l, q)
    ensures var t := Hear(m, TupleOf(s0, SENDER), 3, AT_NEAR, IfaceEntry(2, HERE, quality));
            Moves(SELF, m, {HERE}, s0, AloneHello(quality, due, now), Alone(due, t.bestLink, t.quality))
  {
    var t := Hear(m, TupleOf(s0, SENDER), 3, AT_NEAR, IfaceEntry(2, HERE, quality));
    var s := Alone(due, t.bestLink, t.quality);
    HeardOnce(m, TupleOf(s0, SENDER), AT_NEAR, quality);
    forall x ensures Due(s.ts, x) == if x == SENDER then Some(due) else Unexpired(Due(s0.ts, x), now)
             ensures x in s.tuples <==> x == SENDER || (x in s0.tuples && IsLive(s0.ts, x, now))
    {
    }
  }

  function AloneHello(quality: nat, due: int, now: int): Move {
    Heard(HelloOf(quality, []), AT_NEAR, due, now)
  }

  /** Such a HELLO and the choice of relays after it, as the end of a run. */
  lemma HeardAloneNext(m: Metric, moves: seq<Move>, trace: seq<Snap>, quality: nat, due: int, now: int)
    requires IsRun(SELF, m, {HERE}, moves, trace) && now < due
    requires trace[|moves|] == BLANK_SNAP || exists d, l, q :: trace[|moves|] == Alone(d, l, q)
    ensures var t := Hear(m, TupleOf(trace[|moves|], SENDER), 3, AT_NEAR, IfaceEntry(2, HERE, quality));
            var s := Alone(due, t.bestLink, t.quality);
            IsRun(SELF, m, {HERE}, moves + [AloneHello(quality, due, now), Reselect(now)], trace + [s, s])
  {
    var t := Hear(m, TupleOf(trace[|moves|], SENDER), 3, AT_NEAR, IfaceEntry(2, HERE, quality));
    var s, hello := Alone(due, t.bestLink, t.quality), AloneHello(quality, due, now);
    HeardAlone(m, trace[|moves|], quality, due, now);
    RunGrows(SELF, m, {HERE}, moves, trace, hello, s);
    NoRelay(due, now, t.bestLink, t.quality);
    RunGrows(SELF, m, {HERE}, moves + [hello], trace + [s], Reselect(now), s);
    assert moves + [hello] + [Reselect(now)] == moves + [hello, Reselect(now)];
    assert trace + [s] + [s] == trace + [s, s];
  }

  /** The first HELLO that lists this node at quality 0: its sender is a neighbour, routed over at quality
      0, but has no best link. */
  lemma FaintNeighborIsReachable(m: Metric)
    ensures var s := Alone(100, None, 0);
            IsRun(SELF, m, {HERE}, [] + [AloneHello(0, 100, 0), Reselect(0)], [BLANK_SNAP] + [s, s]) &&
            IsLive(s.ts, SENDER, 0) && Qualities(s.tuples) == map[SENDER := 0] && ExitsOf(s.tuples) == {}
  {
    HeardAloneNext(m, [], [BLANK_SNAP], 0, 100, 0);
  }

  /** After one at quality 80 the same neighbour keeps its best link when the quality falls to 0. */
  lemma FadingNeighborIsReachable(m: Metric)
    ensures var link := Some(LinkId(HERE, NEAR));
            var high, low := Alone(100, link, 80), Alone(101, link, 0);
            IsRun(SELF, m, {HERE}, [] + [AloneHello(80, 100, 0), Reselect(0)] + [AloneHello(0, 101, 1), Reselect(1)],
                  [BLANK_SNAP] + [high, high] + [low, low]) &&
            IsLive(low.ts, SENDER, 1) && Qualities(low.tuples) == map[SENDER := 0] && ExitsOf(low.tuples) == {SENDER}
  {
    var high := Alone(100, Some(LinkId(HERE, NEAR)), 80);
    HeardAloneNext(m, [], [BLANK_SNAP], 80, 100, 0);
    HeardAloneNext(m, [] + [AloneHello(80, 100, 0), Reselect(0)], [BLANK_SNAP] + [high, high], 0, 101, 1);
  }

  // ---------------------------------------------------------------- a 2-hop record that has expired

  const OTHER: Addr := Mac(3)
  const BEHIND: Addr := Mac(4)
  const SIDE: Addr := Mac(13)          // the other neighbour's interface

  function ListedUntil(due: int): OneHopEntry {
    OneHopEntry(map[BEYOND := 90], [Slot(due, BEYOND)])
  }

  /** The sender alone, with a 2-hop record that expires at 5. */
  function Lone(due: int, mpr: bool): Snap {
    Snap([Slot(due, SENDER)], map[SENDER := TupleAt(mpr)], map[SENDER := ListedUntil(5)])
  }

  function OtherTuple(): Neighbor {
    Neighbor(false, false, 3, Some(LinkId(HERE, SIDE)), 100)
  }

  /** And with another neighbour that reaches somebody else. */
  const PAIR: Snap :=
    Snap([Slot(100, SENDER), Slot(100, OTHER)], map[SENDER := TupleAt(true), OTHER := OtherTuple()],
         map[SENDER := ListedUntil(5), OTHER := OneHopEntry(map[BEHIND := 100], [Slot(100, BEHIND)])])

  /** A HELLO with a short interval that lists a 2-hop neighbour, a second one with a long interval that
      lists none, and after its record has expired a HELLO of another neighbour. */
  function PairMoves(): seq<Move> {
    [Heard(HelloOf(80, [NeighEntry(1, BEYOND, 90)]), Arrival(HERE, NEAR, 0), 5, 0), Reselect(0),
     Heard(HelloOf(80, []), Arrival(HERE, NEAR, 0), 100, 1), Reselect(1),
     Heard(Msg(OTHER, 3, [IfaceEntry(2, HERE, 100)], [NeighEntry(1, BEHIND, 100)]), Arrival(HERE, SIDE, 0), 100, 10)]
  }

  function PairTrace(): seq<Snap> {
    [BLANK_SNAP, Lone(5, false), Lone(5, true), Lone(100, false), Lone(100, true), PAIR]
  }

  function LoneRecord(a: Addr, b: Addr): Option<Record> {
    if a == SENDER && b == BEYOND then Some(Record(90, 5)) else None
  }

  lemma LoneRecords(due: int, mpr: bool, a: Addr, b: Addr)
    ensures RecordOf(Lone(due, mpr).oneHop, a, b) == LoneRecord(a, b)
    ensures Due(Lone(due, mpr).ts, a) == if a == SENDER then Some(due) else None
    ensures WellFormed(Lone(due, mpr).ts)
  {
  }

  lemma PairRecords(a: Addr, b: Addr)
    ensures RecordOf(PAIR.oneHop, a, b) ==
            if a == OTHER && b == BEHIND then Some(Record(100, 100)) else LoneRecord(a, b)
    ensures Due(PAIR.ts, a) == if a == SENDER || a == OTHER then Some(100) else None
    ensures WellFormed(PAIR.ts)
  {
    var q := PAIR.ts;
    assert q[0] == Slot(100, SENDER) && q[1..] == [Slot(100, OTHER)] && q[1..][1..] == [];
    assert Due(q[1..], a) == if a == OTHER then Some(100) else None;
  }

  lemma ShortHello()
    ensures Moves(SELF, Plr, {HERE}, PairTrace()[0], PairMoves()[0], PairTrace()[1])
  {
    HeardOnce(Plr, BLANK, Arrival(HERE, NEAR, 0), 80);
    forall a, b ensures RecordOf(Lone(5, false).oneHop, a, b) == LoneRecord(a, b)
                ensures Due(Lone(5, false).ts, a) == if a == SENDER then Some(5) else None
                ensures LastListed([NeighEntry(1, BEYOND, 90)], b) == if b == BEYOND then Some(90) else None
    {
      LoneRecords(5, false, a, b);
      ListedOnce(b);
    }
    LoneRecords(5, false, SELF, SELF);
  }

  lemma EmptyHello()
    ensures Moves(SELF, Plr, {HERE}, PairTrace()[2], PairMoves()[2], PairTrace()[3])
  {
    HeardOnce(Plr, TupleAt(true), Arrival(HERE, NEAR, 0), 80);
    forall a, b ensures RecordOf(Lone(5, true).oneHop, a, b) == LoneRecord(a, b)
                ensures RecordOf(Lone(100, false).oneHop, a, b) == LoneRecord(a, b)
                ensures Due(Lone(5, true).ts, a) == if a == SENDER then Some(5) else None
                ensures Due(Lone(100, false).ts, a) == if a == SENDER then Some(100) else None
    {
      LoneRecords(5, true, a, b);
      LoneRecords(100, false, a, b);
    }
    LoneRecords(100, false, SELF, SELF);
  }

  lemma OtherHello()
    ensures Moves(SELF, Plr, {HERE}, PairTrace()[4], PairMoves()[4], PairTrace()[5])
  {
    HeardOnce(Plr, BLANK, Arrival(HERE, SIDE, 0), 100);
    forall a, b ensures RecordOf(Lone(100, true).oneHop, a, b) == LoneRecord(a, b)
                ensures RecordOf(PAIR.oneHop, a, b) ==
                        if a == OTHER && b == BEHIND then Some(Record(100, 100)) else LoneRecord(a, b)
                ensures Due(Lone(100, true).ts, a) == if a == SENDER then Some(100) else None
                ensures Due(PAIR.ts, a) == if a == SENDER || a == OTHER then Some(100) else None
                ensures LastListed([NeighEntry(1, BEHIND, 100)], b) == if b == BEHIND then Some(100) else None
    {
      LoneRecords(100, true, a, b);
      PairRecords(a, b);
      assert [NeighEntry(1, BEHIND, 100)][..0] == [];
    }
    PairRecords(SELF, SELF);
  }

  lemma LoneRelay(due: int, now: int)
    requires 0 <= now < 5 <= due
    ensures Reselected(now, Lone(due, false), Lone(due, true))
  {
    var s, r := Lone(due, false), Lone(due, true);
    var c := MprSpec.Candidate(SENDER, 3, 80);
    assert Lapsed(s.ts, now) == {} && Live(s.ts, now) == s.ts;
    assert s.tuples - {} == s.tuples && s.oneHop - {} == s.oneHop;
    assert ForwardOk(s.oneHop) by {
      EntryFits(BEYOND, 90, 5);
    }
    OneGreedy(MprSelection.ReachOf(s.oneHop, now));
    assert r.tuples == WithMprs(s.tuples, {SENDER});
    assert MprSelection.AreCandidates([c], s.tuples, s.oneHop.Keys);
    forall a ensures EntryPurgedFrom(s.oneHop, r.oneHop, a, now) { }
    assert Fwd(s.oneHop, SENDER, BEYOND).Some?;
    assert MprSelection.Selected(s.tuples, s.oneHop, now, [c], {BEYOND}, r.tuples, r.oneHop);
  }

  lemma EntryFits(w: Addr, quality: nat, due: int)
    ensures QueueFits(OneHopEntry(map[w := quality], [Slot(due, w)]))
  {
    var e := OneHopEntry(map[w := quality], [Slot(due, w)]);
    forall x ensures x in e.nbrs <==> Due(e.ts, x).Some? {
      assert e.ts[1..] == [];
    }
  }

  lemma PairIsRealRun()
    ensures IsRun(SELF, Plr, {HERE}, PairMoves(), PairTrace())
  {
    ShortHello();
    LoneRelay(5, 0);
    EmptyHello();
    LoneRelay(100, 1);
    OtherHello();
  }

  /** A choice of relays with no neighbour due. */
  lemma NothingLapsed(s0: Snap, s: Snap, now: int) returns (cands: seq<MprSpec.Candidate>, twoHops: set<Addr>)
    requires Reselected(now, s0, s) && Lapsed(s0.ts, now) == {}
    ensures MprSelection.Selected(s0.tuples, s0.oneHop, now, cands, twoHops, s.tuples, s.oneHop)
  {
    assert s0.tuples - {} == s0.tuples && s0.oneHop - {} == s0.oneHop;
    cands, twoHops :| MprSelection.Selected(s0.tuples, s0.oneHop, now, cands, twoHops, s.tuples, s.oneHop);
  }

  /** If a listed 2-hop neighbour is reached by nobody any more, all listed neighbours become relays. */
  lemma AllBecomeRelays(s0: Snap, s: Snap, now: int, v: Addr, w: Addr)
    requires Reselected(now, s0, s) && Lapsed(s0.ts, now) == {}
    requires Fwd(s0.oneHop, v, w).Some? && forall u :: w !in LiveLinks(s0.oneHop, u, now)
    ensures forall a :: a in s0.oneHop ==> a in s.tuples && s.tuples[a].mpr
  {
    var cands, twoHops := NothingLapsed(s0, s, now);
    MprSelection.RelaysAreListed(s0.tuples, s0.oneHop, now, cands, twoHops, s.tuples, s.oneHop);
    MprSelection.ExpiredRecordMakesAllRelays(s0.tuples, s0.oneHop, now, cands, twoHops, s.tuples, s.oneHop, v, w);
  }

  /** If only one neighbour is listed and it reaches somebody well, it is the only relay. */
  lemma OneBecomesRelay(s0: Snap, s: Snap, now: int, v: Addr, w: Addr)
    requires Reselected(now, s0, s) && Lapsed(s0.ts, now) == {} && s0.oneHop.Keys == {v}
    requires MprSelection.ReachesWell(s0.tuples, s0.oneHop, now, v, w)
    ensures s.tuples.Keys == s0.tuples.Keys && forall a :: a in s.tuples ==> (s.tuples[a].mpr <==> a == v)
  {
    var cands, twoHops := NothingLapsed(s0, s, now);
    MprSelection.RelaysAreListed(s0.tuples, s0.oneHop, now, cands, twoHops, s.tuples, s.oneHop);
    LiveLinksStay(s0.oneHop, s.oneHop, v, now);
    var m := MprSelection.SelectionCovers(s0.tuples, s0.oneHop, now, cands, twoHops, s.tuples, s.oneHop, v, w);
  }

  function RelaysOf(s: Snap): set<Addr> {
    set a | a in s.tuples && s.tuples[a].mpr
  }

  /** When relays are chosen at 10, the sender still lists the 2-hop neighbour of its first HELLO, whose
      record has expired. Nobody reaches that one, so both neighbours become relays, whatever the order the
      tables are walked in; from the tables purged of what has expired only the other one does. */
  lemma ExpiredRecordCostsRelays() returns (lazy: Snap, eager: Snap)
    ensures IsRun(SELF, Plr, {HERE}, PairMoves(), PairTrace()) && PairTrace()[|PairMoves()|] == PAIR
    ensures Reselected(10, PAIR, lazy) && Reselected(10, Purged(PAIR, 10), eager)
    ensures forall s :: Reselected(10, PAIR, s) ==> RelaysOf(s) == {SENDER, OTHER}
    ensures forall e :: Reselected(10, Purged(PAIR, 10), e) ==> RelaysOf(e) == {OTHER}
  {
    PairIsRealRun();
    lazy := LazyChoice();
    eager := EagerChoice();
    forall s | Reselected(10, PAIR, s) ensures RelaysOf(s) == {SENDER, OTHER} {
      LazyRelays(s);
    }
    forall e | Reselected(10, Purged(PAIR, 10), e) ensures RelaysOf(e) == {OTHER} {
      EagerRelays(e);
    }
  }

  lemma ChoiceExists(s0: Snap, now: int, cands: seq<MprSpec.Candidate>, twoHops: set<Addr>) returns (s: Snap)
    requires ForwardOk(s0.oneHop) && MprSelection.AreCandidates(cands, s0.tuples, s0.oneHop.Keys)
    requires forall w :: w in twoHops <==> exists v :: Fwd(s0.oneHop, v, w).Some?
    requires Lapsed(s0.ts, now) == {}
    ensures Reselected(now, s0, s)
  {
    var picks := MprSpec.Greedy(MprSelection.ReachOf(s0.oneHop, now), cands, twoHops);
    s := Snap(Live(s0.ts, now), WithMprs(s0.tuples, MprSpec.Relays(cands, picks)), s0.oneHop);
    assert s0.tuples - {} == s0.tuples && s0.oneHop - {} == s0.oneHop;
    forall a ensures EntryPurgedFrom(s0.oneHop, s.oneHop, a, now) { }
    assert MprSelection.Selected(s0.tuples, s0.oneHop, now, cands, twoHops, s.tuples, s.oneHop);
  }

  lemma LazyChoice() returns (s: Snap)
    ensures Reselected(10, PAIR, s)
  {
    EntryFits(BEYOND, 90, 5);
    EntryFits(BEHIND, 100, 100);
    PairRecordsAt(10);
    assert Fwd(PAIR.oneHop, OTHER, BEHIND).Some?;
    s := ChoiceExists(PAIR, 10, [MprSpec.Candidate(SENDER, 3, 80), MprSpec.Candidate(OTHER, 3, 100)], {BEYOND, BEHIND});
  }

  lemma EagerChoice() returns (e: Snap)
    ensures Reselected(10, Purged(PAIR, 10), e)
  {
    var p := Purged(PAIR, 10);
    EntryFits(BEHIND, 100, 100);
    PurgedPair(10);
    assert p.oneHop[OTHER] == PAIR.oneHop[OTHER];
    assert Fwd(p.oneHop, OTHER, BEHIND).Some?;
    e := ChoiceExists(p, 10, [MprSpec.Candidate(OTHER, 3, 100)], {BEHIND});
  }

  lemma PairRecordsAt(now: int)
    requires 5 <= now < 100
    ensures Lapsed(PAIR.ts, now) == {} && PAIR.oneHop.Keys == {SENDER, OTHER}
    ensures Fwd(PAIR.oneHop, SENDER, BEYOND).Some? && forall u :: BEYOND !in LiveLinks(PAIR.oneHop, u, now)
  {
    assert Live(PAIR.oneHop[SENDER].ts, now) == [];
  }

  lemma LazyRelays(s: Snap)
    requires Reselected(10, PAIR, s)
    ensures RelaysOf(s) == {SENDER, OTHER}
  {
    PairRecordsAt(10);
    AllBecomeRelays(PAIR, s, 10, SENDER, BEYOND);
  }

  lemma PurgedPair(now: int)
    requires 5 <= now < 100
    ensures var e := Purged(PAIR, now);
            e.tuples == PAIR.tuples && Lapsed(e.ts, now) == {} && e.oneHop.Keys == {OTHER} &&
            MprSelection.ReachesWell(e.tuples, e.oneHop, now, OTHER, BEHIND)
  {
    var f := PAIR.oneHop;
    assert Live(f[SENDER].ts, now) == [] && Live(f[OTHER].ts, now) == f[OTHER].ts;
    assert Lapsed(PAIR.ts, now) == {} && PAIR.tuples - {} == PAIR.tuples;
  }

  lemma EagerRelays(e: Snap)
    requires Reselected(10, Purged(PAIR, 10), e)
    ensures RelaysOf(e) == {OTHER}
  {
    PurgedPair(10);
    OneBecomesRelay(Purged(PAIR, 10), e, 10, OTHER, BEHIND);
  }
}
