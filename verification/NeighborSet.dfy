/** The neighbour set: symmetric 1-hop neighbours, expired lazily, each expiry cascading into the
    2-hop neighbour set. */
module Neighbors {
  import opened Basics
  import opened Queues
  import opened TwoHop

  /** The link used to reach a neighbour: local interface and the neighbour's interface address. */
  datatype LinkId = LinkId(localIface: Addr, neighborIface: Addr)

  datatype Neighbor = Neighbor(mpr: bool, mprSelector: bool, willingness: nat, bestLink: Option<LinkId>, quality: nat)

  const WILL_NEVER: nat := 0

  class NeighborSet {
    var tuples: map<Addr, Neighbor>
    var ts: Queue<Addr>
    const twoHop: TwoHopSet

    /** Every tuple has exactly one element in the queue, except those of `newcomers`, which may lack theirs;
        and only neighbours have 2-hop neighbours. */
    ghost predicate ValidBut(newcomers: set<Addr>)
      reads this, twoHop
    {
      twoHop.Valid() && WellFormed(ts) &&
      (forall a :: Due(ts, a).Some? ==> a in tuples) &&
      (forall a :: a in tuples && a !in newcomers ==> Due(ts, a).Some?) &&
      forall v :: v in twoHop.oneHop ==> v in tuples
    }

    ghost predicate Valid()
      reads this, twoHop
    {
      ValidBut({})
    }

    constructor ()
      ensures Valid() && tuples == map[] && ts == [] && fresh(twoHop) && twoHop.oneHop == map[]
    {
      tuples, ts := map[], [];
      twoHop := new TwoHopSet();
    }

    /** The purge callback: a neighbour's 2-hop neighbours go with it. */
    method PurgeTuple(a: Addr)
      requires twoHop.Valid()
      modifies this`tuples, twoHop
      ensures twoHop.Valid() && tuples == old(tuples) - {a} && twoHop.oneHop == old(twoHop.oneHop) - {a}
    {
      twoHop.Del1hNeighbor(a);
      tuples := tuples - {a};
    }

    /** timeslot_purgeobjects on the neighbours' queue. */
    method PurgeTimeslot(now: int, ghost newcomers: set<Addr>)
      requires ValidBut(newcomers)
      requires forall a :: a in newcomers && Due(ts, a).Some? ==> Due(ts, a).value > now
      modifies this, twoHop
      ensures ValidBut(newcomers)
      ensures ts == Live(old(ts), now) && tuples == old(tuples) - Lapsed(old(ts), now)
      ensures twoHop.oneHop == old(twoHop.oneHop) - Lapsed(old(ts), now)
    {
      ghost var gone: set<Addr> := {};
      var more := ts != [];
      while more && ts[0].due <= now
        invariant more <==> ts != []
        invariant IsPurging(ts, old(ts), gone, now) && twoHop.Valid()
        invariant tuples == old(tuples) - gone && twoHop.oneHop == old(twoHop.oneHop) - gone
        decreases |ts|
      {
        var a := ts[0].obj;
        PurgeGoesOn(ts, old(ts), gone, now);
        ts, gone := ts[1..], gone + {a};
        more := ts != [];
        PurgeTuple(a);
      }
      PurgeEnds(ts, old(ts), gone, now);
    }

    /** A tuple for `a`, created blank if there is none; a stale one is found as it was left. */
    method GcNeigh(a: Addr)
      requires Valid()
      modifies this`tuples
      ensures ValidBut({a}) && a in tuples
      ensures tuples == if a in old(tuples) then old(tuples)
                        else old(tuples)[a := Neighbor(false, false, WILL_NEVER, None, 0)]
    {
      if a !in tuples {
        tuples := tuples[a := Neighbor(false, false, WILL_NEVER, None, 0)];
      }
    }

    /** (Re)starts a neighbour's hold time. */
    method UpdateTimeslot(a: Addr, due: int, now: int)
      requires ValidBut({a}) && a in tuples && due > now
      modifies this, twoHop
      ensures Valid()
      ensures ts == AddAndPurge(old(ts), due, a, now)
      ensures var lapsed := Lapsed(Add(old(ts), due, a), now);
              ts == Live(Add(old(ts), due, a), now) &&
              tuples == old(tuples) - lapsed && twoHop.oneHop == old(twoHop.oneHop) - lapsed && a !in lapsed
    {
      ghost var q := ts;
      forall x ensures Due(Add(q, due, a), x) == if x == a then Some(due) else Due(q, x) {
        QueueIsMap(q, due, a, now, x);
      }
      QueueIsMap(q, due, a, now, a);
      AddAndPurgeThenPurge(q, due, a, now);
      LapsedIsDue(Add(q, due, a), now, a);
      var rest := Delete(ts, a);
      ts := Insert(rest, due, a);
      if rest != [] {
        PurgeTimeslot(now, {});
      } else {
        assert Lapsed(ts, now) == {};
      }
    }

    /** The state after whatever was due at `now` has been purged from the state given. */
    ghost predicate ExpiredFrom(ts0: Queue<Addr>, tuples0: map<Addr, Neighbor>, oneHop0: Forward, now: int)
      reads this, twoHop
    {
      ts == Live(ts0, now) && tuples == tuples0 - Lapsed(ts0, now) && twoHop.oneHop == oneHop0 - Lapsed(ts0, now)
    }

    /** Whether `a` is a neighbour now: exactly when its latest hold time has not run out. */
    method IsNeigh(a: Addr, now: int) returns (r: bool)
      requires Valid()
      modifies this, twoHop
      ensures Valid() && ExpiredFrom(old(ts), old(tuples), old(twoHop.oneHop), now)
      ensures r <==> old(Due(ts, a)).Some? && old(Due(ts, a)).value > now
      ensures r <==> a in tuples
    {
      LapsedIsDue(ts, now, a);
      PurgeTimeslot(now, {});
      r := a in tuples;
    }

    method GetNeigh(a: Addr, now: int) returns (r: Option<Neighbor>)
      requires Valid()
      modifies this, twoHop
      ensures Valid() && ExpiredFrom(old(ts), old(tuples), old(twoHop.oneHop), now)
      ensures r == if a in tuples then Some(tuples[a]) else None
    {
      PurgeTimeslot(now, {});
      r := if a in tuples then Some(tuples[a]) else None;
    }

    method IsMprSelector(a: Addr, now: int) returns (r: bool)
      requires Valid()
      modifies this, twoHop
      ensures Valid() && ExpiredFrom(old(ts), old(tuples), old(twoHop.oneHop), now)
      ensures r <==> a in tuples && tuples[a].mprSelector
    {
      PurgeTimeslot(now, {});
      r := a in tuples && tuples[a].mprSelector;
    }

    method GetLinkQuality(a: Addr, now: int) returns (r: nat)
      requires Valid()
      modifies this, twoHop
      ensures Valid() && ExpiredFrom(old(ts), old(tuples), old(twoHop.oneHop), now)
      ensures r == if a in tuples then tuples[a].quality else 0
    {
      PurgeTimeslot(now, {});
      r := if a in tuples then tuples[a].quality else 0;
    }

    method SetMprStatus(a: Addr, isMpr: bool, now: int)
      requires Valid()
      modifies this, twoHop
      ensures Valid()
      ensures ts == Live(old(ts), now) && twoHop.oneHop == old(twoHop.oneHop) - Lapsed(old(ts), now)
      ensures var live := old(tuples) - Lapsed(old(ts), now);
              tuples == if a in live then live[a := live[a].(mpr := isMpr)] else live
    {
      PurgeTimeslot(now, {});
      if a in tuples {
        tuples := tuples[a := tuples[a].(mpr := isMpr)];
      }
    }

    method RemoveAllMprs(now: int)
      requires Valid()
      modifies this, twoHop
      ensures Valid()
      ensures ts == Live(old(ts), now) && twoHop.oneHop == old(twoHop.oneHop) - Lapsed(old(ts), now)
      ensures tuples == WithMprs(old(tuples) - Lapsed(old(ts), now), {})
    {
      PurgeTimeslot(now, {});
      ghost var live := tuples;
      var todo := tuples.Keys;
      while todo != {}
        invariant todo <= tuples.Keys == live.Keys
        invariant forall a :: a in tuples ==> tuples[a] == if a in todo then live[a] else live[a].(mpr := false)
        modifies this`tuples
        decreases todo
      {
        var a :| a in todo;
        tuples := tuples[a := tuples[a].(mpr := false)];
        todo := todo - {a};
      }
    }
  }

  /** The tuples with exactly the given addresses marked as relays. */
  function WithMprs(tuples: map<Addr, Neighbor>, mprs: set<Addr>): map<Addr, Neighbor> {
    map a | a in tuples :: tuples[a].(mpr := a in mprs)
  }
}
