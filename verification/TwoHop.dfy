/** The 2-hop neighbour set: an index from 1-hop to 2-hop neighbours and one back, kept in agreement
    by additions, deletions and timed purges. */
module TwoHop {
  import opened Basics
  import opened Queues

  /** A 1-hop neighbour's 2-hop neighbours with link qualities, and the queue that expires them. */
  datatype OneHopEntry = OneHopEntry(nbrs: map<Addr, nat>, ts: Queue<Addr>)

  type Forward = map<Addr, OneHopEntry>
  type Backward = map<Addr, map<Addr, nat>>

  /** The link quality listed for `w` under `v`, if any. */
  function Fwd(oneHop: Forward, v: Addr, w: Addr): Option<nat> {
    if v in oneHop && w in oneHop[v].nbrs then Some(oneHop[v].nbrs[w]) else None
  }

  /** The link quality listed for `v` under `w`, if any. */
  function Back(twoHop: Backward, v: Addr, w: Addr): Option<nat> {
    if w in twoHop && v in twoHop[w] then Some(twoHop[w][v]) else None
  }

  /** The deadline of the record (v, w), if any. */
  function Deadline(oneHop: Forward, v: Addr, w: Addr): Option<int> {
    if v in oneHop then Due(oneHop[v].ts, w) else None
  }

  // ---------------------------------------------------------------- the invariant

  /** An entry's queue holds exactly its records, once each. */
  ghost predicate QueueFits(e: OneHopEntry) {
    WellFormed(e.ts) && forall w :: w in e.nbrs <==> Due(e.ts, w).Some?
  }

  ghost predicate ForwardOk(oneHop: Forward) {
    forall v {:trigger oneHop[v]} :: v in oneHop ==> QueueFits(oneHop[v]) && oneHop[v].ts != []
  }

  ghost predicate BackwardOk(twoHop: Backward) {
    forall w {:trigger twoHop[w]} :: w in twoHop ==> twoHop[w] != map[]
  }

  /** w is listed under v exactly when v is listed under w, with the same quality; a record being
      added, (v, skip), may still be missing on one side. */
  ghost predicate AgreeBut(oneHop: Forward, twoHop: Backward, v: Addr, skip: Option<Addr>) {
    forall a, b :: !(a == v && skip == Some(b)) ==> Fwd(oneHop, a, b) == Back(twoHop, a, b)
  }

  ghost predicate Agree(oneHop: Forward, twoHop: Backward) {
    forall a, b :: Fwd(oneHop, a, b) == Back(twoHop, a, b)
  }

  // ---------------------------------------------------------------- effects on the forward index

  function EntryOf(oneHop: Forward, v: Addr): OneHopEntry {
    if v in oneHop then oneHop[v] else OneHopEntry(map[], [])
  }

  function Restrict(nbrs: map<Addr, nat>, q: Queue<Addr>): map<Addr, nat> {
    map w | w in nbrs && Due(q, w).Some? :: nbrs[w]
  }

  /** v's entry cut down to the records still queued in `q`; an empty entry disappears. */
  function WithQueue(oneHop: Forward, v: Addr, nbrs: map<Addr, nat>, q: Queue<Addr>): Forward {
    if q == [] then oneHop - {v} else oneHop[v := OneHopEntry(Restrict(nbrs, q), q)]
  }

  function AfterPurge(oneHop: Forward, v: Addr, now: int): Forward
    requires v in oneHop
  {
    WithQueue(oneHop, v, oneHop[v].nbrs, Live(oneHop[v].ts, now))
  }

  function AfterAdd(oneHop: Forward, v: Addr, w: Addr, quality: nat, due: int, now: int): Forward {
    var e := EntryOf(oneHop, v);
    WithQueue(oneHop, v, e.nbrs[w := quality], Live(Add(e.ts, due, w), now))
  }

  /** Everything forgotten about `w`. */
  function AfterDel2(oneHop: Forward, w: Addr): Forward {
    map v | v in oneHop && (w in oneHop[v].nbrs ==> Delete(oneHop[v].ts, w) != []) ::
      if w in oneHop[v].nbrs then OneHopEntry(oneHop[v].nbrs - {w}, Delete(oneHop[v].ts, w)) else oneHop[v]
  }

  // ---------------------------------------------------------------- the backward index as a value

  /** The backward index without the pair (v, w). */
  function DropBack(twoHop: Backward, v: Addr, w: Addr): Backward {
    if w !in twoHop then twoHop
    else if twoHop[w] - {v} == map[] then twoHop - {w}
    else twoHop[w := twoHop[w] - {v}]
  }

  lemma DropBackDrops(twoHop: Backward, v: Addr, w: Addr)
    requires BackwardOk(twoHop)
    ensures BackwardOk(DropBack(twoHop, v, w))
    ensures forall a, b :: Back(DropBack(twoHop, v, w), a, b) == if a == v && b == w then None else Back(twoHop, a, b)
  {
    if w in twoHop {
      assert forall a :: a in twoHop[w] && a != v ==> a in twoHop[w] - {v};
    }
  }

  /** Shrinking a record's list on either side changes just that pair, whether or not an entry left
      empty is then dropped. */
  lemma ShrinkFwd(oneHop: Forward, v: Addr, w: Addr, ts: Queue<Addr>)
    requires v in oneHop
    ensures var nbrs := oneHop[v].nbrs - {w};
            var r := oneHop[v := OneHopEntry(nbrs, ts)];
            (forall a, b :: Fwd(r, a, b) == if a == v && b == w then None else Fwd(oneHop, a, b)) &&
            (nbrs == map[] ==> forall a, b :: Fwd(r - {v}, a, b) == Fwd(r, a, b))
  {
  }

  lemma DropEntryOk(oneHop: Forward, v: Addr)
    requires ForwardOk(oneHop)
    ensures ForwardOk(oneHop - {v})
  {
  }

  lemma EmptiedEntry(oneHop: Forward, v: Addr)
    requires v in oneHop && oneHop[v].nbrs == map[]
    ensures forall a, b :: Fwd(oneHop - {v}, a, b) == Fwd(oneHop, a, b)
  {
  }

  lemma ShrinkBack(twoHop: Backward, v: Addr, w: Addr)
    requires w in twoHop
    ensures var r := twoHop[w := twoHop[w] - {v}];
            (forall a, b :: Back(r, a, b) == if a == v && b == w then None else Back(twoHop, a, b)) &&
            (twoHop[w] - {v} == map[] ==> forall a, b :: Back(r - {w}, a, b) == Back(r, a, b))
  {
  }

  /** The forward index without the record (v, w), the queue untouched. */
  function DropFwd(oneHop: Forward, v: Addr, w: Addr): Forward
    requires v in oneHop
  {
    var nbrs := oneHop[v].nbrs - {w};
    if nbrs == map[] then oneHop - {v} else oneHop[v := oneHop[v].(nbrs := nbrs)]
  }

  lemma DropFwdDrops(oneHop: Forward, v: Addr, w: Addr)
    requires v in oneHop
    ensures forall a, b :: Fwd(DropFwd(oneHop, v, w), a, b) == if a == v && b == w then None else Fwd(oneHop, a, b)
  {
    ShrinkFwd(oneHop, v, w, oneHop[v].ts);
    assert oneHop[v := OneHopEntry(oneHop[v].nbrs - {w}, oneHop[v].ts)] - {v} == oneHop - {v};
  }

  function PutBack(twoHop: Backward, v: Addr, w: Addr, quality: nat): Backward {
    twoHop[w := (if w in twoHop then twoHop[w] else map[])[v := quality]]
  }

  lemma PutBackPuts(twoHop: Backward, v: Addr, w: Addr, quality: nat)
    requires BackwardOk(twoHop)
    ensures BackwardOk(PutBack(twoHop, v, w, quality))
    ensures forall a, b :: Back(PutBack(twoHop, v, w, quality), a, b) ==
                           if a == v && b == w then Some(quality) else Back(twoHop, a, b)
  {
    assert v in PutBack(twoHop, v, w, quality)[w];
  }

  // ---------------------------------------------------------------- pieces of the purge

  lemma WithQueueOk(oneHop: Forward, v: Addr, nbrs: map<Addr, nat>, q: Queue<Addr>)
    requires forall a {:trigger oneHop[a]} :: a in oneHop && a != v ==> QueueFits(oneHop[a]) && oneHop[a].ts != []
    requires WellFormed(q) && forall w :: Due(q, w).Some? ==> w in nbrs
    ensures ForwardOk(WithQueue(oneHop, v, nbrs, q))
  {
  }

  class TwoHopSet {
    var oneHop: Forward
    var twoHop: Backward

    ghost predicate Valid()
      reads this
    {
      ForwardOk(oneHop) && BackwardOk(twoHop) && Agree(oneHop, twoHop)
    }

    constructor ()
      ensures Valid() && oneHop == map[] && twoHop == map[]
    {
      oneHop, twoHop := map[], map[];
    }

    /** The purge callback for record (v, w), whose queue element is already gone. The reverse record
        is looked up without a guard; agreement makes it present. The last record takes v's entry,
        queue included, with it. */
    method Purge2hNeighbor(v: Addr, w: Addr, ghost skip: Option<Addr>)
      requires v in oneHop && w in oneHop[v].nbrs && skip != Some(w)
      requires BackwardOk(twoHop) && AgreeBut(oneHop, twoHop, v, skip)
      modifies this
      ensures BackwardOk(twoHop) && AgreeBut(oneHop, twoHop, v, skip)
      ensures forall b :: skip == Some(b) ==> Back(twoHop, v, b) == old(Back(twoHop, v, b))
      ensures oneHop == DropFwd(old(oneHop), v, w)
    {
      DropBackDrops(twoHop, v, w);
      DropFwdDrops(oneHop, v, w);
      assert Fwd(oneHop, v, w) == Back(twoHop, v, w);
      if w in twoHop {
        assert v in twoHop[w];
        twoHop := twoHop[w := twoHop[w] - {v}];
        if twoHop[w] == map[] {
          twoHop := twoHop - {w};
        }
      }
      assert twoHop == DropBack(old(twoHop), v, w);
      oneHop := oneHop[v := oneHop[v].(nbrs := oneHop[v].nbrs - {w})];
      if oneHop[v].nbrs == map[] {
        oneHop := oneHop - {v};
      }
      assert oneHop == DropFwd(old(oneHop), v, w);
    }

    /** One turn of the purge loop: takes the head off v's queue and hands it to the callback. */
    method PurgeHead(v: Addr, ghost was: Forward, ghost nbrs: map<Addr, nat>, ghost q: Queue<Addr>,
                     ghost skip: Option<Addr>) returns (more: bool)
      requires q != [] && WellFormed(q) && forall w :: Due(q, w).Some? ==> w in nbrs
      requires oneHop == WithQueue(was, v, nbrs, q) && skip != Some(q[0].obj)
      requires BackwardOk(twoHop) && AgreeBut(oneHop, twoHop, v, skip)
      modifies this
      ensures oneHop == WithQueue(was, v, nbrs, q[1..]) && (more <==> q[1..] != [])
      ensures BackwardOk(twoHop) && AgreeBut(oneHop, twoHop, v, skip)
      ensures skip.Some? ==> Back(twoHop, v, skip.value) == old(Back(twoHop, v, skip.value))
    {
      var w := oneHop[v].ts[0].obj;
      TailRemains(q, q);
      oneHop := oneHop[v := oneHop[v].(ts := oneHop[v].ts[1..])];
      more := oneHop[v].ts != [];
      Purge2hNeighbor(v, w, skip);
      RestrictTail(nbrs, q);
    }

    /** timeslot_purgeobjects on v's queue. `more` is the local `tail` of that loop: it is read before
        the callback runs, and the queue is looked at again only while it says so; by then the
        callback may have destroyed the queue together with v's entry. */
    method PurgeTimeslot(v: Addr, now: int, ghost skip: Option<Addr>)
      requires v in oneHop && ForwardOk(oneHop) && BackwardOk(twoHop) && AgreeBut(oneHop, twoHop, v, skip)
      requires skip.Some? ==> Due(oneHop[v].ts, skip.value).Some? && Due(oneHop[v].ts, skip.value).value > now
      modifies this
      ensures oneHop == AfterPurge(old(oneHop), v, now)
      ensures ForwardOk(oneHop) && BackwardOk(twoHop) && AgreeBut(oneHop, twoHop, v, skip)
      ensures skip.Some? ==> Back(twoHop, v, skip.value) == old(Back(twoHop, v, skip.value))
    {
      ghost var e, q := oneHop[v], oneHop[v].ts;
      assert Restrict(e.nbrs, q) == e.nbrs;
      var more := oneHop[v].ts != [];
      while more && oneHop[v].ts[0].due <= now
        invariant oneHop == WithQueue(old(oneHop), v, e.nbrs, q)
        invariant more <==> q != []
        invariant Remains(q, e.ts) && Live(q, now) == Live(e.ts, now)
        invariant skip.Some? ==> Due(q, skip.value) == Due(e.ts, skip.value)
        invariant BackwardOk(twoHop) && AgreeBut(oneHop, twoHop, v, skip)
        invariant skip.Some? ==> Back(twoHop, v, skip.value) == old(Back(twoHop, v, skip.value))
        decreases |q|
      {
        TailRemains(q, e.ts);
        more := PurgeHead(v, old(oneHop), e.nbrs, q, skip);
        q := q[1..];
      }
      WithQueueOk(old(oneHop), v, e.nbrs, q);
    }

    /** The 1-hop side of an addition, with the purge that timeslot_addobject ends in unless the
        object is the only one queued. */
    method AddForward(v: Addr, w: Addr, quality: nat, due: int, now: int)
      requires Valid() && due > now
      modifies this
      ensures v in oneHop && ForwardOk(oneHop) && BackwardOk(twoHop) && AgreeBut(oneHop, twoHop, v, Some(w))
      ensures Fwd(oneHop, v, w) == Some(quality)
      ensures AfterPurge(oneHop, v, now) == AfterAdd(old(oneHop), v, w, quality, due, now)
    {
      ghost var e, was := EntryOf(oneHop, v), oneHop;
      AddFits(e, w, quality, due);
      AddIsPending(was, twoHop, v, w, quality, due);
      if v !in oneHop {
        oneHop := oneHop[v := OneHopEntry(map[], [])];
      }
      oneHop := oneHop[v := oneHop[v].(nbrs := oneHop[v].nbrs[w := quality])];
      var rest := Delete(oneHop[v].ts, w);
      oneHop := oneHop[v := oneHop[v].(ts := Insert(rest, due, w))];
      ghost var added := was[v := OneHopEntry(e.nbrs[w := quality], Add(e.ts, due, w))];
      assert oneHop == added;
      RecordStays(added, v, w, now);
      AfterAddIsPurge(was, v, w, quality, due, now);
      if rest != [] {
        PurgeTimeslot(v, now, Some(w));
      }
    }

    /** Records that `v` reaches `w`, until `due`. */
    method Add2hNeighbor(v: Addr, w: Addr, quality: nat, due: int, now: int)
      requires Valid() && due > now
      modifies this
      ensures Valid() && oneHop == AfterAdd(old(oneHop), v, w, quality, due, now)
    {
      AddForward(v, w, quality, due, now);
      PutBackPuts(twoHop, v, w, quality);
      twoHop := PutBack(twoHop, v, w, quality);
      PurgeTimeslot(v, now, None);
    }

    /** The 2-hop neighbours of v that have not expired. */
    method Get2hNeighbors(v: Addr, now: int) returns (nbrs: map<Addr, nat>)
      requires Valid()
      modifies this
      ensures Valid()
      ensures oneHop == if v in old(oneHop) then AfterPurge(old(oneHop), v, now) else old(oneHop)
      ensures nbrs == EntryOf(oneHop, v).nbrs
    {
      nbrs := map[];
      if v in oneHop {
        PurgeTimeslot(v, now, None);
        if v in oneHop {
          nbrs := oneHop[v].nbrs;
        }
      }
    }

    /** The quality of the link from v to w, 0 if it is not recorded or has expired. */
    method GetLinkQuality(v: Addr, w: Addr, now: int) returns (quality: nat)
      requires Valid()
      modifies this
      ensures Valid()
      ensures oneHop == if v in old(oneHop) then AfterPurge(old(oneHop), v, now) else old(oneHop)
      ensures quality == if Fwd(oneHop, v, w).Some? then Fwd(oneHop, v, w).value else 0
    {
      var nbrs := Get2hNeighbors(v, now);
      quality := if w in nbrs then nbrs[w] else 0;
    }

    /** Drops v's expired records. */
    method Clear1hn(v: Addr, now: int)
      requires Valid()
      modifies this
      ensures Valid()
      ensures oneHop == if v in old(oneHop) then AfterPurge(old(oneHop), v, now) else old(oneHop)
    {
      if v in oneHop {
        PurgeTimeslot(v, now, None);
      }
    }

    /** Unlists v under w; an entry left empty is dropped. */
    method RemoveReverse(v: Addr, w: Addr)
      modifies this`twoHop
      ensures twoHop == DropBack(old(twoHop), v, w)
    {
      if w in twoHop {
        if v in twoHop[w] {
          twoHop := twoHop[w := twoHop[w] - {v}];
        } else {
          assert twoHop[w] - {v} == twoHop[w];
        }
        if twoHop[w] == map[] {
          twoHop := twoHop - {w};
        }
      }
    }

    /** Takes the pair (v, w) off both lists, leaving v's entry in place. */
    method Unlist(v: Addr, w: Addr)
      requires BackwardOk(twoHop) && Agree(oneHop, twoHop) && v in oneHop && w in oneHop[v].nbrs
      modifies this
      ensures BackwardOk(twoHop) && Agree(oneHop, twoHop)
      ensures oneHop - {v} == old(oneHop) - {v} && v in oneHop && oneHop[v].nbrs == old(oneHop)[v].nbrs - {w}
    {
      DropBackDrops(twoHop, v, w);
      ShrinkFwd(oneHop, v, w, oneHop[v].ts);
      RemoveReverse(v, w);
      oneHop := oneHop[v := oneHop[v].(nbrs := oneHop[v].nbrs - {w})];
    }

    /** Forgets everything v reaches. */
    method Del1hNeighbor(v: Addr)
      requires Valid()
      modifies this
      ensures Valid() && oneHop == old(oneHop) - {v}
    {
      if v !in oneHop {
        return;
      }
      while oneHop[v].nbrs != map[]
        invariant v in oneHop && oneHop - {v} == old(oneHop) - {v}
        invariant BackwardOk(twoHop) && Agree(oneHop, twoHop)
        decreases |oneHop[v].nbrs|
      {
        var w :| w in oneHop[v].nbrs;
        Unlist(v, w);
      }
      EmptiedEntry(oneHop, v);
      DropEntryOk(old(oneHop), v);
      oneHop := oneHop - {v};
    }

    /** Unlists w under v, with its queue element; an entry left empty is destroyed. */
    method RemoveForward(v: Addr, w: Addr)
      requires ForwardOk(oneHop) && v in oneHop && w in oneHop[v].nbrs
      modifies this`oneHop
      ensures ForwardOk(oneHop) && AfterDel2(oneHop, w) == AfterDel2(old(oneHop), w)
      ensures forall a, b :: Fwd(oneHop, a, b) == if a == v && b == w then None else old(Fwd(oneHop, a, b))
    {
      ghost var was := oneHop;
      ShrinkFwd(oneHop, v, w, Delete(oneHop[v].ts, w));
      DeleteFits(oneHop[v], w);
      oneHop := oneHop[v := OneHopEntry(oneHop[v].nbrs - {w}, Delete(oneHop[v].ts, w))];
      if oneHop[v].nbrs == map[] {
        oneHop := oneHop - {v};
      }
      DropOne(was, v, w, oneHop);
    }

    /** Takes the pair (v, w) off both lists, leaving w's entry in place. */
    method UnlistBack(v: Addr, w: Addr)
      requires ForwardOk(oneHop) && Agree(oneHop, twoHop) && w in twoHop && v in twoHop[w]
      modifies this
      ensures ForwardOk(oneHop) && Agree(oneHop, twoHop) && AfterDel2(oneHop, w) == AfterDel2(old(oneHop), w)
      ensures twoHop == old(twoHop)[w := old(twoHop)[w] - {v}]
    {
      assert Fwd(oneHop, v, w) == Back(twoHop, v, w);
      ShrinkBack(twoHop, v, w);
      RemoveForward(v, w);
      twoHop := twoHop[w := twoHop[w] - {v}];
    }

    /** Forgets everything about w as a 2-hop neighbour. */
    method Del2hNeighbor(w: Addr)
      requires Valid()
      modifies this
      ensures Valid() && oneHop == AfterDel2(old(oneHop), w) && w !in twoHop
    {
      if w !in twoHop {
        NotListed(oneHop, twoHop, w);
        return;
      }
      while twoHop[w] != map[]
        invariant w in twoHop && ForwardOk(oneHop) && Agree(oneHop, twoHop)
        invariant forall b {:trigger twoHop[b]} :: b in twoHop && b != w ==> twoHop[b] != map[]
        invariant AfterDel2(oneHop, w) == AfterDel2(old(oneHop), w)
        decreases |twoHop[w]|
      {
        var v :| v in twoHop[w];
        UnlistBack(v, w);
      }
      ghost var emptied := twoHop;
      twoHop := twoHop - {w};
      assert forall a, b :: Back(twoHop, a, b) == Back(emptied, a, b);
      NotListed(oneHop, twoHop, w);
    }
  }

  lemma AfterAddIsPurge(oneHop: Forward, v: Addr, w: Addr, quality: nat, due: int, now: int)
    ensures var e := EntryOf(oneHop, v);
            var added := oneHop[v := OneHopEntry(e.nbrs[w := quality], Add(e.ts, due, w))];
            AfterPurge(added, v, now) == AfterAdd(oneHop, v, w, quality, due, now)
  {
  }

  lemma AddFits(e: OneHopEntry, w: Addr, quality: nat, due: int)
    requires QueueFits(e)
    ensures QueueFits(OneHopEntry(e.nbrs[w := quality], Add(e.ts, due, w)))
    ensures Due(Add(e.ts, due, w), w) == Some(due)
    ensures Add(e.ts, due, w) != []
  {
    forall x ensures Due(Add(e.ts, due, w), x) == if x == w then Some(due) else Due(e.ts, x) {
      QueueIsMap(e.ts, due, w, 0, x);
    }
    QueueIsMap(e.ts, due, w, 0, w);
  }

  /** Between the two halves of an addition only the new pair is out of step. */
  lemma AddIsPending(oneHop: Forward, twoHop: Backward, v: Addr, w: Addr, quality: nat, due: int)
    requires ForwardOk(oneHop) && Agree(oneHop, twoHop)
    requires QueueFits(OneHopEntry(EntryOf(oneHop, v).nbrs[w := quality], Add(EntryOf(oneHop, v).ts, due, w)))
    requires Add(EntryOf(oneHop, v).ts, due, w) != []
    ensures var e := EntryOf(oneHop, v);
            var added := oneHop[v := OneHopEntry(e.nbrs[w := quality], Add(e.ts, due, w))];
            ForwardOk(added) && AgreeBut(added, twoHop, v, Some(w)) && Fwd(added, v, w) == Some(quality)
  {
    var e := EntryOf(oneHop, v);
    var added := oneHop[v := OneHopEntry(e.nbrs[w := quality], Add(e.ts, due, w))];
    forall a, b | !(a == v && b == w) ensures Fwd(added, a, b) == Back(twoHop, a, b) {
      assert Fwd(oneHop, a, b) == Back(twoHop, a, b);
    }
  }

  /** A record with a future deadline survives a purge, and purging again changes nothing. */
  lemma RecordStays(oneHop: Forward, v: Addr, w: Addr, now: int)
    requires ForwardOk(oneHop) && v in oneHop && Due(oneHop[v].ts, w).Some? && Due(oneHop[v].ts, w).value > now
    ensures var r := AfterPurge(oneHop, v, now);
            v in r && Fwd(r, v, w) == Fwd(oneHop, v, w) && AfterPurge(r, v, now) == r
  {
    var ts := oneHop[v].ts;
    QueueIsMap(ts, 0, w, now, w);
    LiveKeeps(ts, now);
    assert Due(Live(ts, now), w).Some?;
    var nbrs := Restrict(oneHop[v].nbrs, Live(ts, now));
    assert Restrict(nbrs, Live(ts, now)) == nbrs;
  }

  lemma DeleteFits(e: OneHopEntry, w: Addr)
    requires QueueFits(e)
    ensures QueueFits(OneHopEntry(e.nbrs - {w}, Delete(e.ts, w)))
    ensures e.nbrs - {w} == map[] <==> Delete(e.ts, w) == []
  {
    var ts := Delete(e.ts, w);
    forall x ensures Due(ts, x) == if x == w then None else Due(e.ts, x) {
      QueueIsMap(e.ts, 0, w, 0, x);
    }
    QueueIsMap(e.ts, 0, w, 0, w);
    if ts != [] {
      assert Due(ts, ts[0].obj).Some?;
      assert ts[0].obj in e.nbrs - {w};
    }
  }

  /** Taking w from one entry leaves the same to be done. */
  lemma DropOne(oneHop: Forward, v: Addr, w: Addr, r: Forward)
    requires v in oneHop && w in oneHop[v].nbrs
    requires oneHop[v].nbrs - {w} == map[] <==> Delete(oneHop[v].ts, w) == []
    requires var e' := OneHopEntry(oneHop[v].nbrs - {w}, Delete(oneHop[v].ts, w));
             r == if e'.nbrs == map[] then oneHop[v := e'] - {v} else oneHop[v := e']
    ensures AfterDel2(r, w) == AfterDel2(oneHop, w)
  {
    var a, b := AfterDel2(r, w), AfterDel2(oneHop, w);
    forall x ensures x in a <==> x in b {
    }
    forall x | x in a ensures a[x] == b[x] {
    }
  }

  lemma NotListed(oneHop: Forward, twoHop: Backward, w: Addr)
    requires Agree(oneHop, twoHop) && w !in twoHop
    ensures AfterDel2(oneHop, w) == oneHop
  {
    forall v | v in oneHop ensures w !in oneHop[v].nbrs {
      assert Fwd(oneHop, v, w) == Back(twoHop, v, w);
    }
  }

  lemma RestrictTail(nbrs: map<Addr, nat>, q: Queue<Addr>)
    requires q != [] && WellFormed(q) && forall w :: Due(q, w).Some? ==> w in nbrs
    ensures Restrict(nbrs, q[1..]) == Restrict(nbrs, q) - {q[0].obj}
    ensures Restrict(nbrs, q[1..]) == map[] <==> q[1..] == []
  {
    TailRemains(q, q);
    if |q| > 1 {
      assert Due(q[1..], q[1].obj).Some?;
      assert q[1].obj in Restrict(nbrs, q[1..]);
    }
  }

  // ---------------------------------------------------------------- the index as a plain map

  datatype Record = Record(quality: nat, due: int)

  /** What the index knows of the pair (v, w). */
  function RecordOf(oneHop: Forward, v: Addr, w: Addr): Option<Record> {
    if Fwd(oneHop, v, w).Some? && Deadline(oneHop, v, w).Some?
    then Some(Record(Fwd(oneHop, v, w).value, Deadline(oneHop, v, w).value)) else None
  }

  /** A well-formed index has a record exactly where it lists a quality, and where it has a deadline. */
  lemma RecordsAreListed(oneHop: Forward, v: Addr, w: Addr)
    requires ForwardOk(oneHop)
    ensures RecordOf(oneHop, v, w).Some? <==> Fwd(oneHop, v, w).Some?
    ensures RecordOf(oneHop, v, w).Some? <==> Deadline(oneHop, v, w).Some?
  {
  }

  /** A purge of v's queue forgets exactly v's records that are due. */
  lemma PurgeForgetsDue(oneHop: Forward, v: Addr, now: int, a: Addr, b: Addr)
    requires ForwardOk(oneHop) && v in oneHop
    ensures var was := RecordOf(oneHop, a, b);
            RecordOf(AfterPurge(oneHop, v, now), a, b) ==
            if a == v && was.Some? && was.value.due <= now then None else was
  {
    QueueIsMap(oneHop[v].ts, 0, b, now, b);
    RecordsAreListed(oneHop, v, b);
  }

  /** An addition writes one record and forgets v's records that are due. */
  lemma AddWritesRecord(oneHop: Forward, v: Addr, w: Addr, quality: nat, due: int, now: int, a: Addr, b: Addr)
    requires ForwardOk(oneHop) && due > now
    ensures var was := RecordOf(oneHop, a, b);
            RecordOf(AfterAdd(oneHop, v, w, quality, due, now), a, b) ==
            if a == v && b == w then Some(Record(quality, due))
            else if a == v && was.Some? && was.value.due <= now then None else was
  {
    var e := EntryOf(oneHop, v);
    AddFits(e, w, quality, due);
    QueueIsMap(e.ts, due, w, 0, b);
    AddedRecord(oneHop, v, w, quality, due, Add(e.ts, due, w), a, b);
    AfterAddIsPurge(oneHop, v, w, quality, due, now);
    PurgeForgetsDue(oneHop[v := OneHopEntry(e.nbrs[w := quality], Add(e.ts, due, w))], v, now, a, b);
  }

  lemma AddedRecord(oneHop: Forward, v: Addr, w: Addr, quality: nat, due: int, ts: Queue<Addr>, a: Addr, b: Addr)
    requires ForwardOk(oneHop)
    requires Due(ts, b) == if b == w then Some(due) else Due(EntryOf(oneHop, v).ts, b)
    ensures RecordOf(oneHop[v := OneHopEntry(EntryOf(oneHop, v).nbrs[w := quality], ts)], a, b) ==
            if a == v && b == w then Some(Record(quality, due)) else RecordOf(oneHop, a, b)
  {
    RecordsAreListed(oneHop, a, b);
  }

  /** Deleting a 2-hop neighbour forgets its records and no others. */
  lemma Del2Forgets(oneHop: Forward, w: Addr, a: Addr, b: Addr)
    requires ForwardOk(oneHop)
    ensures RecordOf(AfterDel2(oneHop, w), a, b) == if b == w then None else RecordOf(oneHop, a, b)
  {
    if a in oneHop {
      RecordsAreListed(oneHop, a, b);
      assert QueueFits(oneHop[a]);
      DeletedRecord(oneHop[a], w, b);
      assert RecordOf(oneHop, a, b) == RecordIn(oneHop[a], b);
    }
  }

  /** The record for `w` in one entry. */
  function RecordIn(e: OneHopEntry, w: Addr): Option<Record> {
    if w in e.nbrs && Due(e.ts, w).Some? then Some(Record(e.nbrs[w], Due(e.ts, w).value)) else None
  }

  lemma DeletedRecord(e: OneHopEntry, w: Addr, b: Addr)
    requires QueueFits(e)
    ensures RecordIn(OneHopEntry(e.nbrs - {w}, Delete(e.ts, w)), b) == if b == w then None else RecordIn(e, b)
    ensures Delete(e.ts, w) == [] && b != w ==> RecordIn(e, b) == None
    ensures w !in e.nbrs && b == w ==> RecordIn(e, b) == None
  {
    QueueIsMap(e.ts, 0, w, 0, b);
  }

  /** The two directions of a valid index are each determined by the other. */
  lemma DirectionsDetermineEachOther(oneHop: Forward, s: Backward, t: Backward)
    requires BackwardOk(s) && BackwardOk(t) && Agree(oneHop, s) && Agree(oneHop, t)
    ensures s == t
  {
    forall w ensures w in s <==> w in t {
      if w in s { var v :| v in s[w]; assert Back(s, v, w) == Fwd(oneHop, v, w) == Back(t, v, w); }
      if w in t { var v :| v in t[w]; assert Back(t, v, w) == Fwd(oneHop, v, w) == Back(s, v, w); }
    }
    forall w | w in s ensures s[w] == t[w] {
      forall v ensures Back(s, v, w) == Back(t, v, w) { assert Back(s, v, w) == Fwd(oneHop, v, w); }
      SameMap(s, t, w);
    }
  }

  lemma SameMap(s: Backward, t: Backward, w: Addr)
    requires w in s && w in t && forall v :: Back(s, v, w) == Back(t, v, w)
    ensures s[w] == t[w]
  {
    forall v ensures v in s[w] <==> v in t[w] { assert Back(s, v, w) == Back(t, v, w); }
    forall v | v in s[w] ensures s[w][v] == t[w][v] { assert Back(s, v, w) == Back(t, v, w); }
  }

  // ---------------------------------------------------------------- what purges leave unchanged

  /** v's 2-hop links that have not expired. */
  function LiveLinks(oneHop: Forward, v: Addr, now: int): map<Addr, nat> {
    if v in oneHop then Restrict(oneHop[v].nbrs, Live(oneHop[v].ts, now)) else map[]
  }

  /** Each entry is as it was, or purged at `now`. */
  ghost predicate PurgedFrom(was: Forward, oneHop: Forward, now: int) {
    forall a {:trigger EntryPurgedFrom(was, oneHop, a, now)} :: EntryPurgedFrom(was, oneHop, a, now)
  }

  ghost predicate EntryIs(oneHop: Forward, r: Forward, a: Addr) {
    EntryOf(oneHop, a) == EntryOf(r, a) && (a in oneHop <==> a in r)
  }

  ghost predicate EntryPurgedFrom(was: Forward, oneHop: Forward, a: Addr, now: int) {
    EntryIs(oneHop, was, a) || (a in was && EntryIs(oneHop, AfterPurge(was, a, now), a))
  }

  lemma PurgeOnce(was: Forward, oneHop: Forward, v: Addr, now: int)
    requires ForwardOk(was) && PurgedFrom(was, oneHop, now) && v in oneHop
    ensures PurgedFrom(was, AfterPurge(oneHop, v, now), now)
    ensures EntryOf(AfterPurge(oneHop, v, now), v).nbrs == LiveLinks(was, v, now)
  {
    var r := AfterPurge(oneHop, v, now);
    assert EntryPurgedFrom(was, oneHop, v, now);
    if v in AfterPurge(was, v, now) {
      PurgeTwice(was, v, now);
    }
    forall a ensures EntryPurgedFrom(was, r, a, now) {
      assert EntryPurgedFrom(was, oneHop, a, now);
    }
  }

  lemma PurgeTwice(oneHop: Forward, v: Addr, now: int)
    requires ForwardOk(oneHop) && v in oneHop && v in AfterPurge(oneHop, v, now)
    ensures AfterPurge(AfterPurge(oneHop, v, now), v, now) == AfterPurge(oneHop, v, now)
  {
    var q := Live(oneHop[v].ts, now);
    LiveKeeps(oneHop[v].ts, now);
    assert Live(q, now) == q;
    assert Restrict(Restrict(oneHop[v].nbrs, q), q) == Restrict(oneHop[v].nbrs, q);
  }

  /** A purge changes nobody's unexpired links. */
  lemma LiveLinksStay(was: Forward, oneHop: Forward, v: Addr, now: int)
    requires ForwardOk(was) && PurgedFrom(was, oneHop, now)
    ensures LiveLinks(oneHop, v, now) == LiveLinks(was, v, now)
    ensures v in oneHop ==> v in was
  {
    assert EntryPurgedFrom(was, oneHop, v, now);
    if v in was {
      var q := Live(was[v].ts, now);
      LiveKeeps(was[v].ts, now);
      assert Live(q, now) == q;
      assert Restrict(Restrict(was[v].nbrs, q), q) == Restrict(was[v].nbrs, q);
      if q == [] {
        assert Restrict(was[v].nbrs, q) == map[];
      }
    }
  }
}
