/** The topology set: each TC originator's advertised links and last sequence number, expired
    lazily. */
module Topology {
  import opened Basics
  import opened Queues
  import opened SeqNumbers

  /** What is known of one originator. */
  datatype Entry = Entry(nbrs: map<Addr, nat>, seqNum: nat, due: int)

  /** The set as a plain map. */
  type View = map<Addr, Entry>

  /** A received TC. */
  datatype Tc = Tc(orig: Addr, seqNum: nat, links: seq<Link>)

  /** The adjacency a list of links denotes: the last entry wins on duplicates. */
  function LinkMap(links: seq<Link>): map<Addr, nat> {
    if links == [] then map[]
    else LinkMap(links[..|links| - 1])[links[|links| - 1].addr := links[|links| - 1].quality]
  }

  ghost predicate IsLastEntry(links: seq<Link>, i: nat, l: Link) {
    i < |links| && links[i] == l && forall j :: i < j < |links| ==> links[j].addr != l.addr
  }

  lemma {:induction false} LastEntryWins(links: seq<Link>, a: Addr)
    ensures a in LinkMap(links) <==> exists i :: 0 <= i < |links| && links[i].addr == a
    ensures a in LinkMap(links) ==> exists i: nat :: IsLastEntry(links, i, Link(a, LinkMap(links)[a]))
  {
    if links != [] {
      var front, last := links[..|links| - 1], links[|links| - 1];
      LastEntryWins(front, a);
      if last.addr == a {
        assert IsLastEntry(links, |links| - 1, Link(a, LinkMap(links)[a]));
      } else if a in LinkMap(front) {
        var i: nat :| IsLastEntry(front, i, Link(a, LinkMap(front)[a]));
        assert links[i] == front[i];
        assert IsLastEntry(links, i, Link(a, LinkMap(links)[a]));
      }
    }
  }

  // ---------------------------------------------------------------- effects on the plain map

  function Unlapsed(v: View, now: int): View {
    map a | a in v && v[a].due > now :: v[a]
  }

  /** Whether a TC's sequence number is taken for new. */
  predicate Accepts(v: View, tc: Tc) {
    tc.orig !in v || SeqComp(v[tc.orig].seqNum, tc.seqNum) < 0
  }

  /** A rejected TC renews the deadline and nothing else of its originator. */
  function Touched(v: View, tc: Tc, due: int): View
    requires tc.orig in v
  {
    v[tc.orig := v[tc.orig].(due := due)]
  }

  /** The set after a TC was handled at `now`. */
  function AfterTc(v: View, tc: Tc, due: int, now: int): View {
    Unlapsed(
      if !Accepts(v, tc) then Touched(v, tc, due)
      else if tc.links == [] then v - {tc.orig}
      else v[tc.orig := Entry(LinkMap(tc.links), tc.seqNum, due)], now)
  }

  lemma UnlapsedUpdate(v: View, orig: Addr, e: Entry, f: Entry, now: int)
    requires e.due > now && f.due > now
    ensures Unlapsed(v[orig := e], now)[orig := f] == Unlapsed(v[orig := f], now)
    ensures Unlapsed(v[orig := e], now) - {orig} == Unlapsed(v - {orig}, now)
    ensures orig in Unlapsed(v[orig := e], now) && Unlapsed(v[orig := e], now)[orig] == e
  {
  }

  lemma UnlapsedTwice(v: View, now: int)
    ensures Unlapsed(Unlapsed(v, now), now) == Unlapsed(v, now)
  {
  }

  // ---------------------------------------------------------------- the tables in place

  datatype Tcs = Tcs(nbrs: map<Addr, nat>, seqNum: nat)

  /** The entries that are queued, with their deadlines. */
  function ViewOf(tcs: map<Addr, Tcs>, ts: Queue<Addr>): View {
    map a | a in tcs && Due(ts, a).Some? :: Entry(tcs[a].nbrs, tcs[a].seqNum, Due(ts, a).value)
  }

  lemma ViewWithout(tcs: map<Addr, Tcs>, q: Queue<Addr>, orig: Addr)
    requires WellFormed(q) && forall a :: a in tcs <==> Due(q, a).Some?
    ensures var r := Delete(q, orig);
            WellFormed(r) && (forall a :: a in tcs - {orig} <==> Due(r, a).Some?) &&
            ViewOf(tcs - {orig}, r) == ViewOf(tcs, q) - {orig}
  {
    var r := Delete(q, orig);
    forall x ensures Due(r, x) == if x == orig then None else Due(q, x) {
      QueueIsMap(q, 0, orig, 0, x);
    }
    QueueIsMap(q, 0, orig, 0, orig);
    ViewsDiffer(tcs, q, r, orig);
  }

  lemma ViewsDiffer(tcs: map<Addr, Tcs>, q: Queue<Addr>, r: Queue<Addr>, orig: Addr)
    requires forall x :: Due(r, x) == if x == orig then None else Due(q, x)
    ensures ViewOf(tcs - {orig}, r) == ViewOf(tcs, q) - {orig}
  {
  }

  class TopologySet {
    var tcs: map<Addr, Tcs>
    var ts: Queue<Addr>

    /** Every originator has exactly one element in the queue, and nobody else does. */
    ghost predicate Valid()
      reads this
    {
      WellFormed(ts) && forall a :: a in tcs <==> Due(ts, a).Some?
    }

    function AsMap(): View
      reads this
    {
      ViewOf(tcs, ts)
    }

    constructor ()
      ensures Valid() && AsMap() == map[]
    {
      tcs, ts := map[], [];
    }

    /** timeslot_purgeobjects with the purge callback, which drops the originator's entry. */
    method PurgeTimeslot(now: int)
      requires Valid()
      modifies this
      ensures Valid() && AsMap() == Unlapsed(old(AsMap()), now)
      ensures ts == Live(old(ts), now) && tcs == old(tcs) - Lapsed(old(ts), now)
    {
      ghost var gone: set<Addr> := {};
      var more := ts != [];
      while more && ts[0].due <= now
        invariant more <==> ts != []
        invariant IsPurging(ts, old(ts), gone, now) && tcs == old(tcs) - gone
        decreases |ts|
      {
        var a := ts[0].obj;
        PurgeGoesOn(ts, old(ts), gone, now);
        ts, gone := ts[1..], gone + {a};
        more := ts != [];
        tcs := tcs - {a};
      }
      PurgeEnds(ts, old(ts), gone, now);
      forall a ensures a in gone <==> old(Due(ts, a)).Some? && old(Due(ts, a)).value <= now {
        LapsedIsDue(old(ts), now, a);
      }
    }

    /** Moves an originator that has an entry to its new deadline. */
    method Requeue(orig: Addr, due: int, ghost now: int) returns (alone: bool)
      requires WellFormed(ts) && (forall a :: Due(ts, a).Some? ==> a in tcs)
      requires orig in tcs && (forall a :: a in tcs && a != orig ==> Due(ts, a).Some?)
      modifies this`ts
      ensures Valid() && Due(ts, orig) == Some(due) && (alone ==> ts == [Slot(due, orig)])
      ensures AsMap() == old(AsMap())[orig := Entry(tcs[orig].nbrs, tcs[orig].seqNum, due)]
    {
      ghost var q := ts;
      forall x ensures Due(Add(q, due, orig), x) == if x == orig then Some(due) else Due(q, x) {
        QueueIsMap(q, due, orig, now, x);
      }
      QueueIsMap(q, due, orig, now, orig);
      var rest := Delete(ts, orig);
      ts := Insert(rest, due, orig);
      alone := rest == [];
    }

    /** timeslot_addobject for an originator that has an entry, with its built-in purge. */
    method Renew(orig: Addr, due: int, now: int)
      requires WellFormed(ts) && (forall a :: Due(ts, a).Some? ==> a in tcs)
      requires orig in tcs && (forall a :: a in tcs && a != orig ==> Due(ts, a).Some?) && due > now
      modifies this
      ensures Valid() && orig in tcs && tcs[orig] == old(tcs[orig])
      ensures AsMap() == Unlapsed(old(AsMap())[orig := Entry(old(tcs[orig]).nbrs, old(tcs[orig]).seqNum, due)], now)
    {
      var alone := Requeue(orig, due, now);
      LapsedIsDue(ts, now, orig);
      if alone {
        OnlyOne(AsMap(), orig, due, now);
      } else {
        PurgeTimeslot(now);
      }
    }

    lemma OnlyOne(v: View, orig: Addr, due: int, now: int)
      requires ts == [Slot(due, orig)] && due > now && v == AsMap()
      ensures Unlapsed(v, now) == v
    {
      assert ts[1..] == [];
      forall a | a in v ensures v[a].due > now {
        assert Due(ts, a).Some? && Due(ts[1..], a) == None;
      }
    }

    /** Overwrites an originator's list and number. */
    method Write(orig: Addr, entry: Tcs)
      requires Valid() && orig in tcs
      modifies this
      ensures Valid() && ts == old(ts) && tcs == old(tcs)[orig := entry]
      ensures orig in old(AsMap())
      ensures AsMap() == old(AsMap())[orig := Entry(entry.nbrs, entry.seqNum, old(AsMap())[orig].due)]
    {
      tcs := tcs[orig := entry];
    }

    /** olsr_db_tc_updateseqnum. */
    method UpdateSeqNum(orig: Addr, seqNum: nat, due: int, now: int) returns (ok: bool)
      requires Valid() && due > now && IsSeq(seqNum)
      modifies this
      ensures Valid() && orig in tcs
      ensures var v, tc := old(AsMap()), Tc(orig, seqNum, []);
              (ok <==> Accepts(v, tc)) &&
              AsMap() ==
              Unlapsed(if ok then v[orig := Entry(tcs[orig].nbrs, seqNum, due)] else Touched(v, tc, due), now)
    {
      CompOfDifference(seqNum - 1, seqNum);
      ghost var v := AsMap();
      if orig !in tcs {
        tcs := tcs[orig := Tcs(map[], 0)];
        tcs := tcs[orig := tcs[orig].(seqNum := Wire(seqNum - 1))];
      }
      ghost var e := Entry(tcs[orig].nbrs, tcs[orig].seqNum, due);
      assert AsMap() == v;
      Renew(orig, due, now);
      assert AsMap() == Unlapsed(v[orig := e], now);
      if SeqComp(tcs[orig].seqNum, seqNum) >= 0 {
        ok := false;
      } else {
        UnlapsedUpdate(v, orig, e, e.(seqNum := seqNum), now);
        Write(orig, tcs[orig].(seqNum := seqNum));
        ok := true;
      }
    }

    /** olsr_db_tc_removetc. */
    method RemoveTc(orig: Addr)
      requires Valid()
      modifies this
      ensures Valid() && AsMap() == old(AsMap()) - {orig}
    {
      if orig in tcs {
        ViewWithout(tcs, ts, orig);
        ts := Delete(ts, orig);
        tcs := tcs - {orig};
      }
    }

    /** olsr_db_tc_removeneighbors. */
    method RemoveNeighbors(orig: Addr)
      requires Valid()
      modifies this
      ensures Valid() && ts == old(ts)
      ensures var v := old(AsMap()); AsMap() == if orig in v then v[orig := v[orig].(nbrs := map[])] else v
    {
      if orig in tcs {
        Write(orig, tcs[orig].(nbrs := map[]));
      }
    }

    /** olsr_db_tc_settuple. */
    method SetTuple(orig: Addr, nbr: Addr, quality: nat, due: int, now: int)
      requires Valid() && due > now
      modifies this
      ensures Valid()
      ensures var v := old(AsMap());
              var e := if orig in v then v[orig] else Entry(map[], 0, due);
              AsMap() == Unlapsed(v[orig := Entry(e.nbrs[nbr := quality], e.seqNum, due)], now)
    {
      ghost var v := AsMap();
      if orig !in tcs {
        tcs := tcs[orig := Tcs(map[], 0)];
      }
      ghost var e := Entry(tcs[orig].nbrs, tcs[orig].seqNum, due);
      assert AsMap() == v;
      Renew(orig, due, now);
      assert AsMap() == Unlapsed(v[orig := e], now);
      UnlapsedUpdate(v, orig, e, e.(nbrs := e.nbrs[nbr := quality]), now);
      Write(orig, tcs[orig].(nbrs := tcs[orig].nbrs[nbr := quality]));
    }

    /** The links of an accepted TC, written one by one. */
    method SetTuples(tc: Tc, due: int, now: int, ghost v: View)
      requires Valid() && due > now
      requires AsMap() == Unlapsed(v[tc.orig := Entry(map[], tc.seqNum, due)], now)
      modifies this
      ensures Valid() && AsMap() == Unlapsed(v[tc.orig := Entry(LinkMap(tc.links), tc.seqNum, due)], now)
    {
      for i := 0 to |tc.links|
        invariant Valid()
        invariant AsMap() == Unlapsed(v[tc.orig := Entry(LinkMap(tc.links[..i]), tc.seqNum, due)], now)
      {
        assert tc.links[..i + 1][..i] == tc.links[..i];
        var l := tc.links[i];
        ghost var e := Entry(LinkMap(tc.links[..i]), tc.seqNum, due);
        ghost var f := e.(nbrs := e.nbrs[l.addr := l.quality]);
        UnlapsedUpdate(v, tc.orig, e, f, now);
        UnlapsedTwice(v[tc.orig := f], now);
        SetTuple(tc.orig, l.addr, l.quality, due, now);
      }
      assert tc.links[..|tc.links|] == tc.links;
    }

    /** The database effect of olsr_handle_tc. */
    method HandleTc(tc: Tc, due: int, now: int) returns (accepted: bool)
      requires Valid() && due > now && IsSeq(tc.seqNum)
      modifies this
      ensures Valid() && AsMap() == AfterTc(old(AsMap()), tc, due, now)
      ensures accepted <==> Accepts(old(AsMap()), tc)
    {
      ghost var v := AsMap();
      accepted := UpdateSeqNum(tc.orig, tc.seqNum, due, now);
      if !accepted {
        return;
      }
      ghost var e := Entry(tcs[tc.orig].nbrs, tc.seqNum, due);
      UnlapsedUpdate(v, tc.orig, e, e.(nbrs := map[]), now);
      if tc.links == [] {
        RemoveTc(tc.orig);
      } else {
        RemoveNeighbors(tc.orig);
        SetTuples(tc, due, now, v);
      }
    }

    /** An originator's unexpired links. */
    method GetNeighbors(orig: Addr, now: int) returns (nbrs: map<Addr, nat>)
      requires Valid()
      modifies this
      ensures Valid() && AsMap() == Unlapsed(old(AsMap()), now)
      ensures nbrs == if orig in AsMap() then AsMap()[orig].nbrs else map[]
    {
      PurgeTimeslot(now);
      nbrs := if orig in tcs then tcs[orig].nbrs else map[];
    }
  }

  // ---------------------------------------------------------------- one TC

  /** An originator's first TC is accepted, and so is whatever follows in circular order. A stale one
      changes only the deadline; an accepted one replaces the adjacency by exactly its own list, or
      drops the originator when the list is empty. Others only lose what has lapsed. */
  lemma TcEffect(v: View, tc: Tc, due: int, now: int, a: Addr)
    requires due > now
    ensures tc.orig !in v ==> Accepts(v, tc)
    ensures var r := AfterTc(v, tc, due, now);
            if a != tc.orig then (a in r <==> a in v && v[a].due > now) && (a in r ==> r[a] == v[a])
            else if !Accepts(v, tc) then a in r && r[a] == v[a].(due := due)
            else (a in r <==> tc.links != []) && (a in r ==> r[a].seqNum == tc.seqNum && r[a].nbrs == LinkMap(tc.links))
  {
  }

  /** The set expires lazily, so a TC may meet an entry that has lapsed but not been purged. That is
      the same as meeting no entry, exactly unless the TC is stale against the lapsed entry: then the
      lapsed adjacency is revived instead of the TC's being taken (a repeat of the very same TC
      aside, where the two coincide). */
  lemma LapsedEntryMatters(v: View, tc: Tc, due: int, now: int)
    requires due > now
    ensures AfterTc(v, tc, due, now) == AfterTc(Unlapsed(v, now), tc, due, now) <==>
            !(tc.orig in v && v[tc.orig].due <= now && SeqComp(v[tc.orig].seqNum, tc.seqNum) >= 0) ||
            (tc.links != [] && v[tc.orig].seqNum == tc.seqNum && v[tc.orig].nbrs == LinkMap(tc.links))
  {
    var lazy, eager := AfterTc(v, tc, due, now), AfterTc(Unlapsed(v, now), tc, due, now);
    if tc.orig in v && v[tc.orig].due <= now && SeqComp(v[tc.orig].seqNum, tc.seqNum) >= 0 {
      assert tc.orig in lazy && lazy[tc.orig] == v[tc.orig].(due := due);
      if tc.links != [] {
        assert eager[tc.orig] == Entry(LinkMap(tc.links), tc.seqNum, due);
      } else {
        assert tc.orig !in eager;
      }
      if tc.links != [] && v[tc.orig].seqNum == tc.seqNum && v[tc.orig].nbrs == LinkMap(tc.links) {
        assert lazy == eager;
      }
    } else {
      assert lazy == eager;
    }
  }

  // ---------------------------------------------------------------- whole runs

  /** A TC handled with deadline `due`, or a purge because somebody asked. */
  datatype Event = Received(tc: Tc, due: int, at: int) | Asked(at: int)

  function AfterEvent(v: View, e: Event): View {
    match e
    case Received(tc, due, now) => AfterTc(v, tc, due, now)
    case Asked(now) => Unlapsed(v, now)
  }

  function RunEvents(events: seq<Event>): View {
    if events == [] then map[] else AfterEvent(RunEvents(events[..|events| - 1]), events[|events| - 1])
  }

  lemma RunGrows(events: seq<Event>, e: Event)
    ensures RunEvents(events + [e]) == AfterEvent(RunEvents(events), e)
  {
    assert (events + [e])[..|events|] == events;
  }

  /** Event i is a TC of `a` that was accepted. */
  ghost predicate AcceptedAt(events: seq<Event>, i: nat, a: Addr) {
    i < |events| && events[i].Received? && events[i].tc.orig == a && Accepts(RunEvents(events[..i]), events[i].tc)
  }

  ghost predicate LastAccepted(events: seq<Event>, i: nat, a: Addr) {
    AcceptedAt(events, i, a) && forall j :: i < j < |events| ==> !AcceptedAt(events, j, a)
  }

  /** Freshness: while an originator has an entry, the entry is exactly the last accepted TC's list
      and number. */
  lemma {:induction false} EntryIsLastAccepted(events: seq<Event>, a: Addr) returns (i: nat)
    requires forall j :: 0 <= j < |events| && events[j].Received? ==> events[j].due > events[j].at
    requires a in RunEvents(events)
    ensures LastAccepted(events, i, a)
    ensures var tc := events[i].tc;
            tc.links != [] && RunEvents(events)[a].nbrs == LinkMap(tc.links) && RunEvents(events)[a].seqNum == tc.seqNum
    decreases |events|
  {
    var before, n := events[..|events| - 1], |events| - 1;
    if AcceptedAt(events, n, a) {
      i := n;
    } else {
      i := EntryIsLastAccepted(before, a);
      forall j | 0 <= j < n ensures AcceptedAt(events, j, a) <==> AcceptedAt(before, j, a) {
        assert before[..j] == events[..j];
      }
    }
  }

  /** No event of the run happened later than `now`. */
  ghost predicate EventsBy(events: seq<Event>, now: int) {
    forall i :: 0 <= i < |events| ==> events[i].at <= now
  }

  /** The plain map from originators to latest deadlines, from which nothing is ever purged: every TC
      sets its originator's deadline, and an accepted empty one removes it. */
  function LatestDeadline(events: seq<Event>, a: Addr): Option<int> {
    if events == [] then None
    else
      var before, e := events[..|events| - 1], events[|events| - 1];
      if !e.Received? || e.tc.orig != a then LatestDeadline(before, a)
      else if Accepts(RunEvents(before), e.tc) && e.tc.links == [] then None
      else Some(e.due)
  }

  function DueIn(v: View, a: Addr): Option<int> {
    if a in v then Some(v[a].due) else None
  }

  /** Lazy expiry is invisible in the deadlines: at any time from the last event on, the set answers as
      that plain map with what has passed ignored. */
  lemma {:induction false} LazyDeadlinesArePlain(events: seq<Event>, now: int, a: Addr)
    requires EventsBy(events, now)
    ensures Unexpired(DueIn(RunEvents(events), a), now) == Unexpired(LatestDeadline(events, a), now)
    decreases |events|
  {
    if events != [] {
      LazyDeadlinesArePlain(events[..|events| - 1], now, a);
    }
  }

  /** What a query answers after a run: the list of the last TC accepted from the originator, if the
      latest deadline has not passed. */
  lemma QueryAnswersLastAccepted(events: seq<Event>, now: int, a: Addr) returns (i: nat)
    requires EventsBy(events, now)
    requires forall j :: 0 <= j < |events| && events[j].Received? ==> events[j].due > events[j].at
    ensures var v := Unlapsed(RunEvents(events), now);
            (a in v <==> Unexpired(LatestDeadline(events, a), now).Some?) &&
            (a in v ==> LastAccepted(events, i, a) && v[a].nbrs == LinkMap(events[i].tc.links))
  {
    LazyDeadlinesArePlain(events, now, a);
    i := 0;
    if a in RunEvents(events) {
      i := EntryIsLastAccepted(events, a);
    }
  }

  /** While an originator's entry lives, each accepted number is ahead of the one accepted before it,
      by 1 to 32769 around the circle. */
  lemma AcceptedAdvances(events: seq<Event>, a: Addr, j: nat) returns (i: nat)
    requires forall k :: 0 <= k < |events| && events[k].Received? ==> events[k].due > events[k].at
    requires AcceptedAt(events, j, a) && a in RunEvents(events[..j])
    requires forall k :: 0 <= k < |events| && events[k].Received? ==> IsSeq(events[k].tc.seqNum)
    ensures i < j && LastAccepted(events[..j], i, a)
    ensures SeqComp(events[i].tc.seqNum, events[j].tc.seqNum) < 0
    ensures 1 <= Wire(events[j].tc.seqNum - events[i].tc.seqNum) <= 32769
  {
    i := EntryIsLastAccepted(events[..j], a);
    BehindIsAhead(events[i].tc.seqNum, events[j].tc.seqNum);
  }

  lemma OneLink(l: Link)
    ensures LinkMap([l]) == map[l.addr := l.quality]
  {
    assert [l][..0] == [];
  }

  /** Two TCs the code can receive: the second is older than the first, whose hold time has run out
      unnoticed. The first one's links are back, though only the second one is recent. */
  lemma LapsedEntryRevives()
    ensures var tc1, tc2 := Tc(Mac(1), 5, [Link(Mac(2), 90)]), Tc(Mac(1), 3, [Link(Mac(3), 80)]);
            var heard := [Received(tc1, 10, 0)];
            RunEvents(heard + [Received(tc2, 30, 20)]) == map[Mac(1) := Entry(map[Mac(2) := 90], 5, 30)] &&
            RunEvents(heard + [Asked(20)] + [Received(tc2, 30, 20)]) == map[Mac(1) := Entry(map[Mac(3) := 80], 3, 30)]
  {
    var tc1, tc2 := Tc(Mac(1), 5, [Link(Mac(2), 90)]), Tc(Mac(1), 3, [Link(Mac(3), 80)]);
    var heard := [Received(tc1, 10, 0)];
    var v := map[Mac(1) := Entry(map[Mac(2) := 90], 5, 10)];
    OneLink(Link(Mac(2), 90));
    OneLink(Link(Mac(3), 80));
    RunGrows([], Received(tc1, 10, 0));
    assert [] + heard == heard;
    assert RunEvents(heard) == v;
    RunGrows(heard, Received(tc2, 30, 20));
    assert SeqComp(5, 3) == 1;
    RunGrows(heard, Asked(20));
    assert RunEvents(heard + [Asked(20)]) == map[];
    RunGrows(heard + [Asked(20)], Received(tc2, 30, 20));
  }
}
