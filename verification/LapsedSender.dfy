/** Lazy against eager expiry of a HELLO's sender. The tables expire lazily, so a HELLO may find its
    sender's tuple and 2-hop records although the hold time has run out. */
module LapsedSender {
  import opened Basics
  import opened Weights
  import opened Queues
  import opened TwoHop
  import opened Neighbors
  import opened Hello
  import opened NodeDatabase
  import MprSelection
  import MprSpec

  // ---------------------------------------------------------------- what can be seen of the tables

  function LiveTuple(s: Snap, x: Addr, now: int): Option<Neighbor> {
    if IsLive(s.ts, x, now) && x in s.tuples then Some(s.tuples[x]) else None
  }

  function LiveRecord(s: Snap, a: Addr, b: Addr, now: int): Option<Record> {
    if IsLive(s.ts, a, now) then UnexpiredRecord(RecordOf(s.oneHop, a, b), now) else None
  }

  /** The tables cannot be told apart by what has not expired. */
  ghost predicate SameView(s: Snap, e: Snap, now: int) {
    (forall x {:trigger LiveTuple(s, x, now)} {:trigger LiveTuple(e, x, now)} ::
      Unexpired(Due(s.ts, x), now) == Unexpired(Due(e.ts, x), now) && LiveTuple(s, x, now) == LiveTuple(e, x, now)) &&
    forall a, b {:trigger LiveRecord(s, a, b, now)} {:trigger LiveRecord(e, a, b, now)} ::
      LiveRecord(s, a, b, now) == LiveRecord(e, a, b, now)
  }

  /** Every neighbour is queued, and nobody else. */
  ghost predicate IsKept(s: Snap) {
    WellFormed(s.ts) && forall x :: x in s.tuples <==> Due(s.ts, x).Some?
  }

  /** Nothing in the tables has expired. */
  ghost predicate IsEager(e: Snap, now: int) {
    (forall x :: x in e.tuples ==> IsLive(e.ts, x, now)) &&
    forall a, b :: RecordOf(e.oneHop, a, b).Some? ==> IsLive(e.ts, a, now) && RecordOf(e.oneHop, a, b).value.due > now
  }

  /** Whether the sender's leftovers make no difference: it is no lapsed neighbour, or the HELLO is not
      symmetric, or its best link is superseded and every record of it that has not expired itself is
      rewritten. */
  ghost predicate IsHarmless(m: Metric, locals: set<Addr>, msg: Msg, from: Arrival, now: int, s0: Snap) {
    IsSymmetric(locals, from, msg.ifaces) && msg.orig in s0.tuples && !IsLive(s0.ts, msg.orig, now) ==>
      IsSuperseded(m, locals, s0.tuples[msg.orig], from, msg.ifaces) && AllRewritten(msg, now, s0)
  }

  ghost predicate AllRewritten(msg: Msg, now: int, s0: Snap) {
    forall b :: UnexpiredRecord(RecordOf(s0.oneHop, msg.orig, b), now).Some? ==> LastListed(msg.neighs, b).Some?
  }

  // ---------------------------------------------------------------- the exact condition

  /** A HELLO handled on tables that expire lazily has the effect it has on tables purged of everything
      expired, exactly if the sender's leftovers are harmless. */
  lemma LapsedSenderMatters(self: Addr, m: Metric, locals: set<Addr>, msg: Msg, from: Arrival, due: int, now: int,
                            s0: Snap, e0: Snap, s: Snap, e: Snap)
    requires Sane(self, s0) && IsKept(s0) && Sane(self, e0) && IsKept(e0) && IsEager(e0, now)
    requires SameView(s0, e0, now) && due > now && msg.orig != self
    requires HelloEffect(self, m, locals, msg, from, due, now, s0, s)
    requires HelloEffect(self, m, locals, msg, from, due, now, e0, e)
    ensures SameView(s, e, now) <==> IsHarmless(m, locals, msg, from, now, s0)
  {
    if IsSymmetric(locals, from, msg.ifaces) {
      forall x ensures Unexpired(Due(s.ts, x), now) == Unexpired(Due(e.ts, x), now)
               ensures x != msg.orig ==> LiveTuple(s, x, now) == LiveTuple(e, x, now)
      {
        assert LiveTuple(s0, x, now) == LiveTuple(e0, x, now);
      }
      forall a, b | a != msg.orig ensures LiveRecord(s, a, b, now) == LiveRecord(e, a, b, now) {
        OtherRecordIsSame(self, m, locals, msg, from, due, now, s0, e0, s, e, a, b);
      }
      SenderTuple(self, m, locals, msg, from, due, now, s0, e0, s, e);
      SenderRecords(self, m, locals, msg, from, due, now, s0, e0, s, e);
      assert LiveTuple(s, msg.orig, now) == LiveTuple(e, msg.orig, now) <==> s.tuples[msg.orig] == e.tuples[msg.orig];
    } else {
      PurgeKeepsView(self, msg, now, s0, s);
      PurgeKeepsView(self, msg, now, e0, e);
      ViewsChain(now, s0, s, e0, e);
    }
  }

  lemma ViewsChain(now: int, s0: Snap, s: Snap, e0: Snap, e: Snap)
    requires SameView(s0, s, now) && SameView(s0, e0, now) && SameView(e0, e, now)
    ensures SameView(s, e, now)
  {
    forall x ensures Unexpired(Due(s.ts, x), now) == Unexpired(Due(e.ts, x), now)
             ensures LiveTuple(s, x, now) == LiveTuple(e, x, now)
    {
      assert LiveTuple(s0, x, now) == LiveTuple(s, x, now) && LiveTuple(s0, x, now) == LiveTuple(e0, x, now);
      assert LiveTuple(e0, x, now) == LiveTuple(e, x, now);
    }
    forall a, b ensures LiveRecord(s, a, b, now) == LiveRecord(e, a, b, now) {
      assert LiveRecord(s0, a, b, now) == LiveRecord(s, a, b, now);
      assert LiveRecord(s0, a, b, now) == LiveRecord(e0, a, b, now);
      assert LiveRecord(e0, a, b, now) == LiveRecord(e, a, b, now);
    }
  }

  lemma PurgeKeepsView(self: Addr, msg: Msg, now: int, s0: Snap, s: Snap)
    requires IsKept(s0)
    requires if msg.neighs == [] then s == s0 else OnlyExpired(now, s0, s)
    ensures SameView(s0, s, now)
  {
    forall x ensures Unexpired(Due(s.ts, x), now) == Unexpired(Due(s0.ts, x), now)
             ensures LiveTuple(s, x, now) == LiveTuple(s0, x, now)
    {
      QueueIsMap(s0.ts, 0, x, now, x);
      LapsedIsDue(s0.ts, now, x);
    }
    forall a, b ensures LiveRecord(s, a, b, now) == LiveRecord(s0, a, b, now) {
      QueueIsMap(s0.ts, 0, a, now, a);
      LapsedIsDue(s0.ts, now, a);
      RecordWithout(s0.oneHop, Lapsed(s0.ts, now), a, b);
    }
  }

  /** What other neighbours have recorded is seen the same. */
  lemma OtherRecordIsSame(self: Addr, m: Metric, locals: set<Addr>, msg: Msg, from: Arrival, due: int, now: int,
                          s0: Snap, e0: Snap, s: Snap, e: Snap, a: Addr, b: Addr)
    requires SameView(s0, e0, now) && IsSymmetric(locals, from, msg.ifaces) && a != msg.orig
    requires HelloEffect(self, m, locals, msg, from, due, now, s0, s)
    requires HelloEffect(self, m, locals, msg, from, due, now, e0, e)
    ensures LiveRecord(s, a, b, now) == LiveRecord(e, a, b, now)
  {
    assert LiveRecord(s0, a, b, now) == LiveRecord(e0, a, b, now);
    assert LiveTuple(s0, a, now) == LiveTuple(e0, a, now);
  }

  lemma SenderTuple(self: Addr, m: Metric, locals: set<Addr>, msg: Msg, from: Arrival, due: int, now: int,
                    s0: Snap, e0: Snap, s: Snap, e: Snap)
    requires Sane(self, s0) && IsKept(s0) && IsKept(e0) && IsEager(e0, now) && SameView(s0, e0, now)
    requires IsSymmetric(locals, from, msg.ifaces)
    requires HelloEffect(self, m, locals, msg, from, due, now, s0, s)
    requires HelloEffect(self, m, locals, msg, from, due, now, e0, e)
    ensures s.tuples[msg.orig] == e.tuples[msg.orig] <==>
            !(msg.orig in s0.tuples && !IsLive(s0.ts, msg.orig, now)) ||
            IsSuperseded(m, locals, s0.tuples[msg.orig], from, msg.ifaces)
  {
    var orig := msg.orig;
    assert LiveTuple(s0, orig, now) == LiveTuple(e0, orig, now);
    HeardForgetsSelector(m, locals, TupleOf(s0, orig), msg.willingness, from, msg.ifaces);
    HeardForgetsSelector(m, locals, TupleOf(e0, orig), msg.willingness, from, msg.ifaces);
    if orig in s0.tuples && !IsLive(s0.ts, orig, now) {
      assert TupleOf(e0, orig) == BLANK;
      StaleLinkLingers(m, locals, s0.tuples[orig], msg.willingness, from, msg.ifaces);
    } else {
      assert TupleOf(s0, orig) == TupleOf(e0, orig);
    }
  }

  lemma SenderRecord(self: Addr, m: Metric, locals: set<Addr>, msg: Msg, from: Arrival, due: int, now: int,
                     s0: Snap, e0: Snap, s: Snap, e: Snap, b: Addr)
    requires Sane(self, s0) && IsKept(s0) && IsKept(e0) && IsEager(e0, now) && SameView(s0, e0, now)
    requires IsSymmetric(locals, from, msg.ifaces) && due > now && msg.orig != self
    requires HelloEffect(self, m, locals, msg, from, due, now, s0, s)
    requires HelloEffect(self, m, locals, msg, from, due, now, e0, e)
    ensures LiveRecord(s, msg.orig, b, now) == LiveRecord(e, msg.orig, b, now) <==>
            !(msg.orig in s0.tuples && !IsLive(s0.ts, msg.orig, now)) ||
            UnexpiredRecord(RecordOf(s0.oneHop, msg.orig, b), now).None? || LastListed(msg.neighs, b).Some?
  {
    var orig := msg.orig;
    assert LiveRecord(s0, orig, b, now) == LiveRecord(e0, orig, b, now);
    assert LiveTuple(s0, orig, now) == LiveTuple(e0, orig, now);
    assert LiveTuple(s0, b, now) == LiveTuple(e0, b, now);
    assert b in s.tuples <==> b in e.tuples;
    assert RecordOf(s0.oneHop, orig, b).Some? ==> b !in s.tuples && b != self && b != orig;
  }

  lemma SenderRecords(self: Addr, m: Metric, locals: set<Addr>, msg: Msg, from: Arrival, due: int, now: int,
                      s0: Snap, e0: Snap, s: Snap, e: Snap)
    requires Sane(self, s0) && IsKept(s0) && IsKept(e0) && IsEager(e0, now) && SameView(s0, e0, now)
    requires IsSymmetric(locals, from, msg.ifaces) && due > now && msg.orig != self
    requires HelloEffect(self, m, locals, msg, from, due, now, s0, s)
    requires HelloEffect(self, m, locals, msg, from, due, now, e0, e)
    ensures (forall b :: LiveRecord(s, msg.orig, b, now) == LiveRecord(e, msg.orig, b, now)) <==>
            !(msg.orig in s0.tuples && !IsLive(s0.ts, msg.orig, now)) || AllRewritten(msg, now, s0)
  {
    forall b ensures LiveRecord(s, msg.orig, b, now) == LiveRecord(e, msg.orig, b, now) <==>
            !(msg.orig in s0.tuples && !IsLive(s0.ts, msg.orig, now)) ||
            UnexpiredRecord(RecordOf(s0.oneHop, msg.orig, b), now).None? || LastListed(msg.neighs, b).Some?
    {
      SenderRecord(self, m, locals, msg, from, due, now, s0, e0, s, e, b);
    }
  }

  // ---------------------------------------------------------------- there is such a table

  /** The 2-hop records purged of everything expired. */
  function PurgedIndex(s: Snap, now: int): Forward {
    map a | a in s.oneHop && a !in Lapsed(s.ts, now) && Live(s.oneHop[a].ts, now) != [] ::
      OneHopEntry(Restrict(s.oneHop[a].nbrs, Live(s.oneHop[a].ts, now)), Live(s.oneHop[a].ts, now))
  }

  function Purged(s: Snap, now: int): Snap {
    Snap(Live(s.ts, now), s.tuples - Lapsed(s.ts, now), PurgedIndex(s, now))
  }

  lemma PurgedRecord(s: Snap, now: int, a: Addr, b: Addr)
    requires IsKept(s) && ForwardOk(s.oneHop) && (RecordOf(s.oneHop, a, b).Some? ==> a in s.tuples)
    ensures RecordOf(PurgedIndex(s, now), a, b) == LiveRecord(s, a, b, now)
  {
    LapsedIsDue(s.ts, now, a);
    if a in s.oneHop {
      PurgeForgetsDue(s.oneHop, a, now, a, b);
      if a !in Lapsed(s.ts, now) && Live(s.oneHop[a].ts, now) != [] {
        assert PurgedIndex(s, now)[a] == AfterPurge(s.oneHop, a, now)[a];
      }
    }
  }

  lemma PurgedNeighbor(s: Snap, now: int, x: Addr)
    requires IsKept(s)
    ensures var e := Purged(s, now);
            Due(e.ts, x) == Unexpired(Due(s.ts, x), now) &&
            (x in e.tuples <==> IsLive(s.ts, x, now)) && (x in e.tuples ==> x in s.tuples && e.tuples[x] == s.tuples[x])
  {
    QueueIsMap(s.ts, 0, x, now, x);
    LapsedIsDue(s.ts, now, x);
  }

  /** `e` holds exactly what has not expired of `s`. */
  ghost predicate IsPurged(s: Snap, e: Snap, now: int) {
    WellFormed(e.ts) && (forall x :: Due(e.ts, x) == Unexpired(Due(s.ts, x), now)) &&
    (forall x :: x in e.tuples <==> IsLive(s.ts, x, now)) &&
    (forall x :: x in e.tuples ==> x in s.tuples && e.tuples[x] == s.tuples[x]) &&
    forall a, b :: RecordOf(e.oneHop, a, b) == LiveRecord(s, a, b, now)
  }

  lemma PurgedKeepsSane(self: Addr, s: Snap, e: Snap, now: int)
    requires Sane(self, s) && IsKept(s) && IsPurged(s, e, now)
    ensures Sane(self, e)
  {
  }

  lemma PurgedHasNothingDue(s: Snap, e: Snap, now: int)
    requires IsKept(s) && IsPurged(s, e, now)
    ensures IsKept(e) && IsEager(e, now)
  {
    forall a, b | RecordOf(e.oneHop, a, b).Some?
      ensures IsLive(e.ts, a, now) && RecordOf(e.oneHop, a, b).value.due > now
    {
      assert RecordOf(e.oneHop, a, b) == LiveRecord(s, a, b, now);
    }
  }

  lemma PurgedLooksTheSame(s: Snap, e: Snap, now: int)
    requires IsKept(s) && IsPurged(s, e, now)
    ensures SameView(s, e, now)
  {
    forall x ensures Unexpired(Due(s.ts, x), now) == Unexpired(Due(e.ts, x), now)
             ensures LiveTuple(s, x, now) == LiveTuple(e, x, now)
    {
      assert Due(e.ts, x) == Unexpired(Due(s.ts, x), now);
    }
    forall a, b ensures LiveRecord(s, a, b, now) == LiveRecord(e, a, b, now) {
      assert RecordOf(e.oneHop, a, b) == LiveRecord(s, a, b, now);
      assert Due(e.ts, a) == Unexpired(Due(s.ts, a), now);
    }
  }

  /** Purging everything expired gives the tables that the exact condition compares with. */
  lemma PurgedIsEager(self: Addr, s: Snap, now: int)
    requires Sane(self, s) && IsKept(s) && ForwardOk(s.oneHop)
    ensures var e := Purged(s, now); Sane(self, e) && IsKept(e) && IsEager(e, now) && SameView(s, e, now)
  {
    var e := Purged(s, now);
    assert IsPurged(s, e, now) by {
      QueueIsMap(s.ts, 0, self, now, self);
      forall x ensures Due(e.ts, x) == Unexpired(Due(s.ts, x), now)
               ensures x in e.tuples <==> IsLive(s.ts, x, now)
               ensures x in e.tuples ==> x in s.tuples && e.tuples[x] == s.tuples[x]
      {
        PurgedNeighbor(s, now, x);
      }
      forall a, b ensures RecordOf(e.oneHop, a, b) == LiveRecord(s, a, b, now) {
        PurgedRecord(s, now, a, b);
      }
    }
    PurgedKeepsSane(self, s, e, now);
    PurgedHasNothingDue(s, e, now);
    PurgedLooksTheSame(s, e, now);
  }

  // ---------------------------------------------------------------- messages that make the difference

  const SELF: Addr := Mac(0)
  const SENDER: Addr := Mac(1)
  const BEYOND: Addr := Mac(2)
  const HERE: Addr := Mac(10)          // our interface
  const NEAR: Addr := Mac(11)          // the sender's first interface
  const FAR: Addr := Mac(12)           // the sender's second interface

  function HelloOf(quality: nat, neighs: seq<NeighEntry>): Msg {
    Msg(SENDER, 3, [IfaceEntry(2, HERE, quality)], neighs)
  }

  function TupleAt(mpr: bool): Neighbor {
    Neighbor(mpr, false, 3, Some(LinkId(HERE, NEAR)), 80)
  }

  function SnapAt(due: int, mpr: bool): Snap {
    Snap([Slot(due, SENDER)], map[SENDER := TupleAt(mpr)],
         map[SENDER := OneHopEntry(map[BEYOND := 90], [Slot(100, BEYOND)])])
  }

  function OnlyRecord(a: Addr, b: Addr): Option<Record> {
    if a == SENDER && b == BEYOND then Some(Record(90, 100)) else None
  }

  /** A HELLO with a long interval that lists a 2-hop neighbour, and a later one with a short interval
      that lists none, each followed by a choice of relays. */
  function Moves4(): seq<Move> {
    [Heard(HelloOf(80, [NeighEntry(1, BEYOND, 90)]), Arrival(HERE, NEAR, 0), 100, 0), Reselect(0),
     Heard(HelloOf(80, []), Arrival(HERE, NEAR, 0), 5, 1), Reselect(1)]
  }

  function Trace4(): seq<Snap> {
    [Snap([], map[], map[]), SnapAt(100, false), SnapAt(100, true), SnapAt(5, false), SnapAt(5, true)]
  }

  lemma HeardOnce(m: Metric, t: Neighbor, from: Arrival, quality: nat)
    requires from.localIface == HERE
    ensures var e := IfaceEntry(2, HERE, quality);
            IsSymmetric({HERE}, from, [e]) && HearAll(m, {HERE}, t, 3, from, [e]) == Hear(m, t, 3, from, e)
  {
    var e := IfaceEntry(2, HERE, quality);
    assert [e][..0] == [] && [e][0] == e && HearsUs({HERE}, from, e);
  }

  lemma ListedOnce(w: Addr)
    ensures LastListed([NeighEntry(1, BEYOND, 90)], w) == if w == BEYOND then Some(90) else None
  {
    assert [NeighEntry(1, BEYOND, 90)][..0] == [];
  }

  lemma SnapAtRecords(due: int, mpr: bool, a: Addr, b: Addr)
    ensures RecordOf(SnapAt(due, mpr).oneHop, a, b) == OnlyRecord(a, b)
    ensures Due(SnapAt(due, mpr).ts, a) == if a == SENDER then Some(due) else None
    ensures WellFormed(SnapAt(due, mpr).ts)
  {
  }

  lemma IndexIsOk()
    ensures ForwardOk(SnapAt(0, false).oneHop)
  {
    var e := SnapAt(0, false).oneHop[SENDER];
    assert QueueFits(e) by {
      forall w ensures w in e.nbrs <==> Due(e.ts, w).Some? {
        assert e.ts[1..] == [];
      }
    }
  }

  lemma OneGreedy(reach: MprSpec.Reach)
    ensures var c := MprSpec.Candidate(SENDER, 3, 80);
            MprSpec.Greedy(reach, [c], {BEYOND}) == [c] && MprSpec.Relays([c], [c]) == {SENDER}
  {
    var c := MprSpec.Candidate(SENDER, 3, 80);
    assert Without([c], 0) == [];
    assert MprSpec.Greedy(reach, [], MprSpec.Uncovered(reach, c, {BEYOND})) == [];
  }

  lemma FirstHello()
    ensures Moves(SELF, Plr, {HERE}, Trace4()[0], Moves4()[0], Trace4()[1])
  {
    HeardOnce(Plr, BLANK, Arrival(HERE, NEAR, 0), 80);
    forall a, b ensures RecordOf(SnapAt(100, false).oneHop, a, b) == OnlyRecord(a, b)
                ensures Due(SnapAt(100, false).ts, a) == if a == SENDER then Some(100) else None
                ensures LastListed([NeighEntry(1, BEYOND, 90)], b) == if b == BEYOND then Some(90) else None
    {
      SnapAtRecords(100, false, a, b);
      ListedOnce(b);
    }
    SnapAtRecords(100, false, SELF, SELF);
  }

  lemma SecondHello()
    ensures Moves(SELF, Plr, {HERE}, Trace4()[2], Moves4()[2], Trace4()[3])
  {
    HeardOnce(Plr, TupleAt(true), Arrival(HERE, NEAR, 0), 80);
    forall a, b ensures RecordOf(SnapAt(100, true).oneHop, a, b) == RecordOf(SnapAt(5, false).oneHop, a, b)
                ensures RecordOf(SnapAt(5, false).oneHop, a, b) == OnlyRecord(a, b)
                ensures Due(SnapAt(100, true).ts, a) == if a == SENDER then Some(100) else None
                ensures Due(SnapAt(5, false).ts, a) == if a == SENDER then Some(5) else None
    {
      SnapAtRecords(100, true, a, b);
      SnapAtRecords(5, false, a, b);
    }
    SnapAtRecords(5, false, SELF, SELF);
  }

  lemma OneRelay(due: int, now: int)
    requires 0 <= now < due <= 100
    ensures Reselected(now, SnapAt(due, false), SnapAt(due, true))
  {
    var s, r := SnapAt(due, false), SnapAt(due, true);
    var c := MprSpec.Candidate(SENDER, 3, 80);
    var reach := MprSelection.ReachOf(s.oneHop, now);
    assert Lapsed(s.ts, now) == {} && Live(s.ts, now) == s.ts;
    assert s.tuples - {} == s.tuples && s.oneHop - {} == s.oneHop;
    SnapAtRecords(due, false, SELF, SELF);
    IndexIsOk();
    OneGreedy(reach);
    assert r.tuples == WithMprs(s.tuples, {SENDER});
    assert MprSelection.AreCandidates([c], s.tuples, s.oneHop.Keys);
    forall a ensures EntryPurgedFrom(s.oneHop, r.oneHop, a, now) { }
    assert Fwd(s.oneHop, SENDER, BEYOND).Some?;
    assert MprSelection.Selected(s.tuples, s.oneHop, now, [c], {BEYOND}, r.tuples, r.oneHop);
  }

  lemma IsRealRun()
    ensures IsRun(SELF, Plr, {HERE}, Moves4(), Trace4())
  {
    FirstHello();
    OneRelay(100, 0);
    SecondHello();
    OneRelay(5, 1);
  }

  /** A reachable state in which the sender's hold time has run out at time 10. A HELLO that lists
      nobody then keeps the 2-hop record of the first one alive, though its tuple is as good as new; one
      over a weaker link that lists the same 2-hop neighbour keeps the old best link. */
  lemma LeftoversAreReachable()
    ensures IsRun(SELF, Plr, {HERE}, Moves4(), Trace4())
    ensures var s, near, far := Trace4()[4], Arrival(HERE, NEAR, 0), Arrival(HERE, FAR, 0);
            var better, weaker := HelloOf(90, []), HelloOf(50, [NeighEntry(1, BEYOND, 90)]);
            (IsSuperseded(Plr, {HERE}, s.tuples[SENDER], near, better.ifaces) && !AllRewritten(better, 10, s)) &&
            (!IsSuperseded(Plr, {HERE}, s.tuples[SENDER], far, weaker.ifaces) && AllRewritten(weaker, 10, s)) &&
            !IsHarmless(Plr, {HERE}, better, near, 10, s) && !IsHarmless(Plr, {HERE}, weaker, far, 10, s)
  {
    IsRealRun();
    var s, near, far := Trace4()[4], Arrival(HERE, NEAR, 0), Arrival(HERE, FAR, 0);
    var better, weaker := HelloOf(90, []), HelloOf(50, [NeighEntry(1, BEYOND, 90)]);
    HeardOnce(Plr, BLANK, near, 90);
    HeardOnce(Plr, BLANK, far, 50);
    assert HearsUs({HERE}, near, better.ifaces[0]) && EntryQuality(Plr, near, better.ifaces[0]) == 90;
    forall b ensures UnexpiredRecord(RecordOf(s.oneHop, SENDER, b), 10) == OnlyRecord(SENDER, b)
             ensures LastListed(weaker.neighs, b) == if b == BEYOND then Some(90) else None
             ensures LastListed(better.neighs, b) == None
    {
      SnapAtRecords(5, true, SENDER, b);
      ListedOnce(b);
    }
    SnapAtRecords(5, true, SENDER, BEYOND);
    assert UnexpiredRecord(RecordOf(s.oneHop, SENDER, BEYOND), 10).Some?;
    assert !IsLive(s.ts, SENDER, 10) && SENDER in s.tuples;
  }
}
