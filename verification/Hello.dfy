/** HELLO handling: what one message does to the neighbour set and the 2-hop neighbour set. */
module Hello {
  import opened Basics
  import opened Weights
  import opened Queues
  import opened TwoHop
  import opened Neighbors

  const LINK_MASK: nat := 3          // the low two bits of a link code
  const LOST_LINK: nat := 3
  const NOT_NEIGH: nat := 0
  const MPR_NEIGH: nat := 2

  /** A neighbour interface the sender lists, with the quality it hears from there. */
  datatype IfaceEntry = IfaceEntry(linkCode: nat, addr: Addr, qualityFrom: nat)

  /** A neighbour the sender lists. */
  datatype NeighEntry = NeighEntry(code: nat, addr: Addr, quality: nat)

  datatype Msg = Msg(orig: Addr, willingness: nat, ifaces: seq<IfaceEntry>, neighs: seq<NeighEntry>)

  /** How the message came in: our interface, the sender's, and the quality measured on that link by
      the sliding window once this message is counted. */
  datatype Arrival = Arrival(localIface: Addr, senderIface: Addr, measured: nat)

  // ---------------------------------------------------------------- the sender's tuple

  /** The sender hears us on the interface the message came in on. */
  predicate HearsUs(locals: set<Addr>, from: Arrival, e: IfaceEntry) {
    e.linkCode % (LINK_MASK + 1) != LOST_LINK && e.addr in locals && e.addr == from.localIface
  }

  predicate IsSymmetric(locals: set<Addr>, from: Arrival, ifaces: seq<IfaceEntry>) {
    exists i :: 0 <= i < |ifaces| && HearsUs(locals, from, ifaces[i])
  }

  /** The link quality a listed interface implies; both directions count for ETX. */
  function EntryQuality(m: Metric, from: Arrival, e: IfaceEntry): nat {
    if m.Etx? then from.measured * e.qualityFrom / 100 % 256 else e.qualityFrom
  }

  /** The tuple after one matching entry: relay marks off, willingness taken over, and the best link
      updated if it is this one, replaced if this one is better. */
  function Hear(m: Metric, t: Neighbor, willingness: nat, from: Arrival, e: IfaceEntry): Neighbor {
    var q, link := EntryQuality(m, from, e), LinkId(from.localIface, from.senderIface);
    var r := t.(mprSelector := false, mpr := false, willingness := willingness);
    if r.bestLink == Some(link) then r.(quality := q)
    else if r.quality < q then r.(quality := q, bestLink := Some(link))
    else r
  }

  const BLANK: Neighbor := Neighbor(false, false, WILL_NEVER, None, 0)

  /** The sender's tuple after all listed interfaces. */
  function HearAll(m: Metric, locals: set<Addr>, t: Neighbor, willingness: nat, from: Arrival,
                   es: seq<IfaceEntry>): Neighbor
  {
    if es == [] then t
    else
      var r := HearAll(m, locals, t, willingness, from, es[..|es| - 1]);
      if HearsUs(locals, from, es[|es| - 1]) then Hear(m, r, willingness, from, es[|es| - 1]) else r
  }

  /** The sender lists us as its relay. */
  predicate ChoseUs(self: Addr, es: seq<NeighEntry>) {
    exists i :: 0 <= i < |es| && es[i].addr == self && es[i].code == MPR_NEIGH
  }

  // ---------------------------------------------------------------- the sender's 2-hop records

  /** The quality of the last symmetric entry for `w`. */
  function LastListed(es: seq<NeighEntry>, w: Addr): Option<nat> {
    if es == [] then None
    else if es[|es| - 1].addr == w && es[|es| - 1].code != NOT_NEIGH then Some(es[|es| - 1].quality)
    else LastListed(es[..|es| - 1], w)
  }

  function UnexpiredRecord(r: Option<Record>, now: int): Option<Record> {
    if r.Some? && r.value.due > now then r else None
  }

  /** The record (a, b) once the sender `orig` is known as a symmetric neighbour: it is nobody's
      2-hop neighbour, and its own expired records are gone. */
  function SymRecord(orig: Addr, aLive: bool, r: Option<Record>, a: Addr, b: Addr, now: int): Option<Record> {
    if b == orig then None else if a == orig then UnexpiredRecord(r, now) else if aLive then r else None
  }

  /** The record (orig, b) after the listed neighbours `es`; only strangers become 2-hop neighbours. */
  function ListedRecord(es: seq<NeighEntry>, stranger: bool, r: Option<Record>, b: Addr, due: int): Option<Record> {
    if stranger && LastListed(es, b).Some? then Some(Record(LastListed(es, b).value, due)) else r
  }

  /** Being a neighbour at `now`, by an unexpired deadline. */
  predicate IsLive(ts: Queue<Addr>, a: Addr, now: int) {
    Unexpired(Due(ts, a), now).Some?
  }

  // ---------------------------------------------------------------- facts about the index

  lemma RecordWithout(oneHop: Forward, s: set<Addr>, a: Addr, b: Addr)
    ensures RecordOf(oneHop - s, a, b) == if a in s then None else RecordOf(oneHop, a, b)
  {
  }

  // ---------------------------------------------------------------- the effect of a message

  /** The neighbour tables at one moment. */
  datatype Snap = Snap(ts: Queue<Addr>, tuples: map<Addr, Neighbor>, oneHop: Forward)

  ghost function SnapOf(ns: NeighborSet): Snap
    reads ns, ns.twoHop
  {
    Snap(ns.ts, ns.tuples, ns.twoHop.oneHop)
  }

  function TupleOf(s: Snap, a: Addr): Neighbor {
    if a in s.tuples then s.tuples[a] else BLANK
  }

  /** `orig` was heard symmetrically: it is a live neighbour with tuple `t`, whatever was due is gone,
      and the 2-hop records are as they must be. */
  ghost predicate SymEffectOn(orig: Addr, t: Neighbor, due: int, now: int, s0: Snap, s: Snap) {
    WellFormed(s.ts) &&
    (forall x :: Due(s.ts, x) == if x == orig then Some(due) else Unexpired(Due(s0.ts, x), now)) &&
    (forall x :: x in s.tuples <==> x == orig || (x in s0.tuples && IsLive(s0.ts, x, now))) &&
    (forall x :: x in s.tuples && x != orig ==> s.tuples[x] == s0.tuples[x]) &&
    s.tuples[orig] == t &&
    forall a, b :: RecordOf(s.oneHop, a, b) ==
                   SymRecord(orig, IsLive(s0.ts, a, now), RecordOf(s0.oneHop, a, b), a, b, now)
  }

  /** What was due is gone and nothing else happened. */
  ghost predicate OnlyExpired(now: int, s0: Snap, s: Snap) {
    var lapsed := Lapsed(s0.ts, now);
    s.ts == Live(s0.ts, now) && s.tuples == s0.tuples - lapsed && s.oneHop == s0.oneHop - lapsed
  }

  /** Everything a HELLO does before relays are chosen anew. */
  ghost predicate HelloEffect(self: Addr, m: Metric, locals: set<Addr>, msg: Msg, from: Arrival, due: int, now: int,
                              s0: Snap, s: Snap) {
    var orig := msg.orig;
    if !IsSymmetric(locals, from, msg.ifaces) then
      if msg.neighs == [] then s == s0 else OnlyExpired(now, s0, s)
    else
      var t := HearAll(m, locals, TupleOf(s0, orig), msg.willingness, from, msg.ifaces);
      WellFormed(s.ts) &&
      (forall x :: Due(s.ts, x) == if x == orig then Some(due) else Unexpired(Due(s0.ts, x), now)) &&
      (forall x :: x in s.tuples <==> x == orig || (x in s0.tuples && IsLive(s0.ts, x, now))) &&
      (forall x :: x in s.tuples && x != orig ==> s.tuples[x] == s0.tuples[x]) &&
      s.tuples[orig] == t.(mprSelector := ChoseUs(self, msg.neighs)) &&
      forall a, b :: RecordOf(s.oneHop, a, b) ==
                     var r := SymRecord(orig, IsLive(s0.ts, a, now), RecordOf(s0.oneHop, a, b), a, b, now);
                     if a == orig then ListedRecord(msg.neighs, b !in s.tuples && b != self, r, b, due) else r
  }

  lemma TouchedDue(q: Queue<Addr>, due: int, o: Addr, now: int, x: Addr)
    requires WellFormed(q) && due > now
    ensures Due(Live(Add(q, due, o), now), x) == if x == o then Some(due) else Unexpired(Due(q, x), now)
    ensures x in Lapsed(Add(q, due, o), now) <==> x != o && Due(q, x).Some? && Due(q, x).value <= now
  {
    QueueIsMap(q, due, o, now, x);
    QueueIsMap(Add(q, due, o), 0, o, now, x);
    LapsedIsDue(Add(q, due, o), now, x);
  }

  /** The index after a symmetric HELLO: lapsed neighbours' entries gone, the sender forgotten as a
      2-hop neighbour, the sender's own entry purged. */
  lemma SymEffect(f: Forward, f1: Forward, f2: Forward, f3: Forward, q: Queue<Addr>, due: int, orig: Addr, now: int,
                  a: Addr, b: Addr)
    requires WellFormed(q) && due > now
    requires ForwardOk(f1) && ForwardOk(f2)
    requires a in f && a != orig ==> Due(q, a).Some?
    requires f1 == f - Lapsed(Add(q, due, orig), now)
    requires f2 == AfterDel2(f1, orig)
    requires f3 == if orig in f2 then AfterPurge(f2, orig, now) else f2
    ensures RecordOf(f3, a, b) == SymRecord(orig, IsLive(q, a, now), RecordOf(f, a, b), a, b, now)
  {
    TouchedDue(q, due, orig, now, a);
    RecordWithout(f, Lapsed(Add(q, due, orig), now), a, b);
    Del2Forgets(f1, orig, a, b);
    if orig in f2 {
      PurgeForgetsDue(f2, orig, now, a, b);
    }
  }

  /** The three updates of the 2-hop neighbour set that a symmetric HELLO makes. */
  method RefreshIndex(ns: NeighborSet, orig: Addr, due: int, now: int)
    requires ns.ValidBut({orig}) && orig in ns.tuples && due > now
    modifies ns, ns.twoHop
    ensures ns.Valid()
    ensures var lapsed := Lapsed(Add(old(ns.ts), due, orig), now);
            ns.ts == Live(Add(old(ns.ts), due, orig), now) && ns.tuples == old(ns.tuples) - lapsed
    ensures forall a, b :: RecordOf(ns.twoHop.oneHop, a, b) ==
              SymRecord(orig, old(IsLive(ns.ts, a, now)), old(RecordOf(ns.twoHop.oneHop, a, b)), a, b, now)
  {
    ghost var q, f := ns.ts, ns.twoHop.oneHop;
    assert forall a :: a in f && a != orig ==> Due(q, a).Some?;
    ns.UpdateTimeslot(orig, due, now);
    ghost var f1 := ns.twoHop.oneHop;
    ns.twoHop.Del2hNeighbor(orig);
    ghost var f2 := ns.twoHop.oneHop;
    ns.twoHop.Clear1hn(orig, now);
    ghost var f3 := ns.twoHop.oneHop;
    forall a, b ensures RecordOf(f3, a, b) == SymRecord(orig, IsLive(q, a, now), RecordOf(f, a, b), a, b, now) {
      SymEffect(f, f1, f2, f3, q, due, orig, now, a, b);
    }
  }

  /** One matching entry: create or find the tuple, update it, restart its hold time, and let the
      sender be no 2-hop neighbour. */
  method HearSym(ns: NeighborSet, m: Metric, msg: Msg, from: Arrival, e: IfaceEntry, due: int, now: int)
    requires ns.Valid() && due > now
    modifies ns, ns.twoHop
    ensures ns.Valid()
    ensures var s0 := old(SnapOf(ns));
            SymEffectOn(msg.orig, Hear(m, TupleOf(s0, msg.orig), msg.willingness, from, e), due, now, s0, SnapOf(ns))
  {
    var orig := msg.orig;
    ghost var s0 := SnapOf(ns);
    ns.GcNeigh(orig);
    ns.tuples := ns.tuples[orig := Hear(m, ns.tuples[orig], msg.willingness, from, e)];
    RefreshIndex(ns, orig, due, now);
    SymIsHeard(orig, Hear(m, TupleOf(s0, orig), msg.willingness, from, e), due, now, s0, SnapOf(ns));
  }

  lemma SymIsHeard(orig: Addr, t: Neighbor, due: int, now: int, s0: Snap, s: Snap)
    requires WellFormed(s0.ts) && due > now && forall x :: x in s0.tuples <==> Due(s0.ts, x).Some?
    requires s.ts == Live(Add(s0.ts, due, orig), now)
    requires s.tuples == s0.tuples[orig := t] - Lapsed(Add(s0.ts, due, orig), now)
    requires forall a, b :: RecordOf(s.oneHop, a, b) ==
               SymRecord(orig, IsLive(s0.ts, a, now), RecordOf(s0.oneHop, a, b), a, b, now)
    ensures SymEffectOn(orig, t, due, now, s0, s)
  {
    TouchedIsWellFormed(s0.ts, due, orig, now);
    forall x ensures Due(s.ts, x) == if x == orig then Some(due) else Unexpired(Due(s0.ts, x), now)
             ensures x in s.tuples <==> x == orig || (x in s0.tuples && IsLive(s0.ts, x, now))
    {
      TouchedDue(s0.ts, due, orig, now, x);
    }
  }

  lemma TouchedIsWellFormed(q: Queue<Addr>, due: int, o: Addr, now: int)
    requires WellFormed(q)
    ensures WellFormed(Live(Add(q, due, o), now))
  {
    QueueIsMap(q, due, o, now, o);
    QueueIsMap(Add(q, due, o), due, o, now, o);
  }

  /** Hearing the sender twice in one message is hearing it once, tuple aside. */
  lemma SymTwice(orig: Addr, t: Neighbor, u: Neighbor, due: int, now: int, s0: Snap, s1: Snap, s2: Snap)
    requires due > now
    requires SymEffectOn(orig, t, due, now, s0, s1) && SymEffectOn(orig, u, due, now, s1, s2)
    ensures SymEffectOn(orig, u, due, now, s0, s2)
  {
  }

  /** The loop over the listed interfaces. */
  method ReadIfaces(ns: NeighborSet, m: Metric, locals: set<Addr>, msg: Msg, from: Arrival, due: int, now: int)
      returns (sym: bool)
    requires ns.Valid() && due > now
    modifies ns, ns.twoHop
    ensures ns.Valid() && (sym <==> IsSymmetric(locals, from, msg.ifaces))
    ensures var s0, s := old(SnapOf(ns)), SnapOf(ns);
            if !sym then s == s0
            else SymEffectOn(msg.orig, HearAll(m, locals, TupleOf(s0, msg.orig), msg.willingness, from, msg.ifaces),
                             due, now, s0, s)
  {
    sym := false;
    ghost var s0, es := SnapOf(ns), msg.ifaces;
    for i := 0 to |msg.ifaces|
      invariant ns.Valid() && (sym <==> IsSymmetric(locals, from, es[..i]))
      invariant !sym ==>
                  SnapOf(ns) == s0 &&
                  HearAll(m, locals, TupleOf(s0, msg.orig), msg.willingness, from, es[..i]) == TupleOf(s0, msg.orig)
      invariant sym ==> SymEffectOn(msg.orig, HearAll(m, locals, TupleOf(s0, msg.orig), msg.willingness, from, es[..i]),
                                    due, now, s0, SnapOf(ns))
    {
      assert es[..i + 1][..i] == es[..i];
      var e := msg.ifaces[i];
      if HearsUs(locals, from, e) {
        ghost var s1 := SnapOf(ns);
        HearSym(ns, m, msg, from, e, due, now);
        if sym {
          SymTwice(msg.orig, s1.tuples[msg.orig], ns.tuples[msg.orig], due, now, s0, s1, SnapOf(ns));
        }
        sym := true;
        assert es[..i + 1][i] == e;
      } else {
        assert forall k :: 0 <= k < i + 1 && HearsUs(locals, from, es[..i + 1][k]) ==>
                             k < i && es[..i][k] == es[..i + 1][k];
        assert forall k :: 0 <= k < i ==> es[..i][k] == es[..i + 1][k];
      }
    }
    assert es[..|es|] == es;
  }

  // ---------------------------------------------------------------- the listed neighbours

  /** Nothing of these tables is due at `now` but records of other neighbours than `orig`. */
  ghost predicate Quiet(orig: Addr, now: int, s: Snap) {
    (forall x :: Due(s.ts, x).Some? ==> Due(s.ts, x).value > now) &&
    forall b :: RecordOf(s.oneHop, orig, b).Some? ==> RecordOf(s.oneHop, orig, b).value.due > now
  }

  lemma QuietPurge<T>(q: Queue<T>, now: int)
    requires WellFormed(q) && forall x :: Due(q, x).Some? ==> Due(q, x).value > now
    ensures Live(q, now) == q && Lapsed(q, now) == {}
  {
    forall s | s in q ensures s.due > now {
      DueIsSlot(q, s.obj, s.due);
    }
  }

  /** The tables after the first entries `es` of a symmetric sender's list. */
  ghost predicate Listed(self: Addr, orig: Addr, es: seq<NeighEntry>, due: int, s1: Snap, s: Snap)
    requires orig in s1.tuples
  {
    s.ts == s1.ts &&
    s.tuples == s1.tuples[orig := s1.tuples[orig].(mprSelector := s1.tuples[orig].mprSelector || ChoseUs(self, es))] &&
    forall a, b :: RecordOf(s.oneHop, a, b) ==
                   var r := RecordOf(s1.oneHop, a, b);
                   if a == orig then ListedRecord(es, b !in s1.tuples && b != self, r, b, due) else r
  }

  lemma ChoseUsGrows(self: Addr, es: seq<NeighEntry>, e: NeighEntry)
    ensures ChoseUs(self, es + [e]) <==> ChoseUs(self, es) || (e.addr == self && e.code == MPR_NEIGH)
  {
    var r := es + [e];
    if ChoseUs(self, es) {
      var i :| 0 <= i < |es| && es[i].addr == self && es[i].code == MPR_NEIGH;
      assert r[i] == es[i];
    }
    assert r[|es|] == e;
  }

  /** One entry more, in terms of the record it may write. */
  lemma ListedGrows(es: seq<NeighEntry>, e: NeighEntry, stranger: bool, r: Option<Record>, b: Addr, due: int)
    ensures ListedRecord(es + [e], stranger, r, b, due) ==
            if stranger && e.addr == b && e.code != NOT_NEIGH then Some(Record(e.quality, due))
            else ListedRecord(es, stranger, r, b, due)
  {
    assert (es + [e])[..|es|] == es;
  }

  /** The index after one entry more: written if the entry is symmetric and for a stranger. */
  lemma ListedStep(self: Addr, orig: Addr, e: NeighEntry, due: int, now: int, es: seq<NeighEntry>,
                   s1: Snap, s: Snap, r: Snap, known: bool)
    requires due > now && orig in s1.tuples && Quiet(orig, now, s1) && ForwardOk(s.oneHop)
    requires Listed(self, orig, es, due, s1, s)
    requires known <==> e.addr in s1.tuples
    requires r.ts == s.ts && orig in s.tuples
    requires r.tuples ==
             if e.addr == self && e.code == MPR_NEIGH then s.tuples[orig := s.tuples[orig].(mprSelector := true)]
                         else s.tuples
    requires r.oneHop == if !known && e.addr != self && e.code != NOT_NEIGH
                         then AfterAdd(s.oneHop, orig, e.addr, e.quality, due, now) else s.oneHop
    ensures Listed(self, orig, es + [e], due, s1, r)
  {
    ChoseUsGrows(self, es, e);
    forall a, b ensures RecordOf(r.oneHop, a, b) ==
        var was := RecordOf(s1.oneHop, a, b);
        if a == orig then ListedRecord(es + [e], b !in s1.tuples && b != self, was, b, due) else was
    {
      ListedGrows(es, e, b !in s1.tuples && b != self, RecordOf(s1.oneHop, a, b), b, due);
      AddWritesRecord(s.oneHop, orig, e.addr, e.quality, due, now, a, b);
    }
  }

  /** Asking whether somebody is a neighbour changes nothing while nothing is due. */
  method AskQuietly(ns: NeighborSet, a: Addr, now: int) returns (known: bool)
    requires ns.Valid() && forall x :: Due(ns.ts, x).Some? ==> Due(ns.ts, x).value > now
    modifies ns, ns.twoHop
    ensures ns.Valid() && SnapOf(ns) == old(SnapOf(ns)) && (known <==> a in ns.tuples)
  {
    QuietPurge(ns.ts, now);
    ghost var tuples, oneHop := ns.tuples, ns.twoHop.oneHop;
    known := ns.IsNeigh(a, now);
    assert tuples - {} == tuples && oneHop - {} == oneHop;
  }

  /** A symmetric entry for a stranger becomes a 2-hop record. */
  method AddStranger(ns: NeighborSet, self: Addr, orig: Addr, e: NeighEntry, due: int, now: int)
    requires ns.Valid() && due > now && orig in ns.tuples
    requires forall x :: Due(ns.ts, x).Some? ==> Due(ns.ts, x).value > now
    modifies ns, ns.twoHop
    ensures ns.Valid() && ns.ts == old(ns.ts) && ns.tuples == old(ns.tuples)
    ensures ns.twoHop.oneHop == if e.addr !in ns.tuples && e.addr != self && e.code != NOT_NEIGH
                                then AfterAdd(old(ns.twoHop.oneHop), orig, e.addr, e.quality, due, now)
                                else old(ns.twoHop.oneHop)
  {
    var known := AskQuietly(ns, e.addr, now);
    if !known && e.addr != self && e.code != NOT_NEIGH {
      ns.twoHop.Add2hNeighbor(orig, e.addr, e.quality, due, now);
    }
  }

  /** The body of the loop over a symmetric sender's neighbours. */
  method ReadNeigh(ns: NeighborSet, self: Addr, orig: Addr, e: NeighEntry, due: int, now: int,
                   ghost es: seq<NeighEntry>, ghost s1: Snap)
    requires ns.Valid() && due > now && orig in s1.tuples
    requires Quiet(orig, now, s1) && Listed(self, orig, es, due, s1, SnapOf(ns))
    modifies ns, ns.twoHop
    ensures ns.Valid() && Listed(self, orig, es + [e], due, s1, SnapOf(ns))
  {
    ghost var s := SnapOf(ns);
    if e.addr == self && e.code == MPR_NEIGH {
      ns.tuples := ns.tuples[orig := ns.tuples[orig].(mprSelector := true)];
    }
    AddStranger(ns, self, orig, e, due, now);
    ListedStep(self, orig, e, due, now, es, s1, s, SnapOf(ns), e.addr in s1.tuples);
  }

  /** The sender's record becomes quiet by being heard. */
  lemma HeardIsQuiet(orig: Addr, t: Neighbor, due: int, now: int, s0: Snap, s: Snap)
    requires due > now && SymEffectOn(orig, t, due, now, s0, s)
    ensures Quiet(orig, now, s)
  {
  }

  /** A symmetrically heard sender starts out as nobody's relay selector. */
  lemma {:induction false} HeardForgetsSelector(m: Metric, locals: set<Addr>, t: Neighbor, willingness: nat,
                                                from: Arrival,
                                                es: seq<IfaceEntry>)
    requires IsSymmetric(locals, from, es)
    ensures var r := HearAll(m, locals, t, willingness, from, es);
            !r.mprSelector && !r.mpr && r.willingness == willingness
    decreases |es|
  {
    var front := es[..|es| - 1];
    if !HearsUs(locals, from, es[|es| - 1]) {
      var i :| 0 <= i < |es| && HearsUs(locals, from, es[i]);
      assert front[i] == es[i];
      HeardForgetsSelector(m, locals, t, willingness, from, front);
    }
  }

  /** The loop over the neighbours a symmetric sender lists. */
  method ReadNeighs(ns: NeighborSet, self: Addr, orig: Addr, es: seq<NeighEntry>, due: int, now: int)
    requires ns.Valid() && due > now && orig in ns.tuples && Quiet(orig, now, SnapOf(ns))
    modifies ns, ns.twoHop
    ensures ns.Valid() && Listed(self, orig, es, due, old(SnapOf(ns)), SnapOf(ns))
  {
    ghost var s1 := SnapOf(ns);
    assert Listed(self, orig, [], due, s1, s1);
    for i := 0 to |es|
      invariant ns.Valid() && Listed(self, orig, es[..i], due, s1, SnapOf(ns))
    {
      assert es[..i + 1] == es[..i] + [es[i]];
      ReadNeigh(ns, self, orig, es[i], due, now, es[..i], s1);
    }
    assert es[..|es|] == es;
  }

  /** The same loop when the sender does not hear us: it only asks, and asking purges. */
  method SkimNeighs(ns: NeighborSet, es: seq<NeighEntry>, now: int)
    requires ns.Valid()
    modifies ns, ns.twoHop
    ensures ns.Valid()
    ensures if es == [] then SnapOf(ns) == old(SnapOf(ns)) else OnlyExpired(now, old(SnapOf(ns)), SnapOf(ns))
  {
    PurgedIsQuiet(ns.ts, now);
    for i := 0 to |es|
      invariant ns.Valid()
      invariant if i == 0 then SnapOf(ns) == old(SnapOf(ns)) else OnlyExpired(now, old(SnapOf(ns)), SnapOf(ns))
    {
      var _ := ns.IsNeigh(es[i].addr, now);
    }
  }

  /** The database effect of one HELLO, up to the choice of relays. */
  method ApplyHello(ns: NeighborSet, self: Addr, m: Metric, locals: set<Addr>, msg: Msg, from: Arrival, due: int,
                    now: int)
      returns (sym: bool)
    requires ns.Valid() && due > now
    modifies ns, ns.twoHop
    ensures ns.Valid() && (sym <==> IsSymmetric(locals, from, msg.ifaces))
    ensures HelloEffect(self, m, locals, msg, from, due, now, old(SnapOf(ns)), SnapOf(ns))
  {
    ghost var s0 := SnapOf(ns);
    sym := ReadIfaces(ns, m, locals, msg, from, due, now);
    if sym {
      ghost var s1 := SnapOf(ns);
      HeardIsQuiet(msg.orig, s1.tuples[msg.orig], due, now, s0, s1);
      HeardForgetsSelector(m, locals, TupleOf(s0, msg.orig), msg.willingness, from, msg.ifaces);
      ReadNeighs(ns, self, msg.orig, msg.neighs, due, now);
      HelloComposes(self, m, locals, msg, from, due, now, s0, s1, SnapOf(ns));
    } else {
      SkimNeighs(ns, msg.neighs, now);
    }
  }

  lemma HelloComposes(self: Addr, m: Metric, locals: set<Addr>, msg: Msg, from: Arrival, due: int, now: int,
                      s0: Snap, s1: Snap, s: Snap)
    requires IsSymmetric(locals, from, msg.ifaces)
    requires var t := HearAll(m, locals, TupleOf(s0, msg.orig), msg.willingness, from, msg.ifaces);
             !t.mprSelector && SymEffectOn(msg.orig, t, due, now, s0, s1)
    requires Listed(self, msg.orig, msg.neighs, due, s1, s)
    ensures HelloEffect(self, m, locals, msg, from, due, now, s0, s)
  {
    assert s.tuples.Keys == s1.tuples.Keys;
  }

  // ---------------------------------------------------------------- a tuple that outlived its hold time

  ghost predicate Beats(m: Metric, locals: set<Addr>, from: Arrival, es: seq<IfaceEntry>, x: nat) {
    exists i :: 0 <= i < |es| && HearsUs(locals, from, es[i]) && EntryQuality(m, from, es[i]) > x
  }

  lemma BeatsGrows(m: Metric, locals: set<Addr>, from: Arrival, es: seq<IfaceEntry>, x: nat)
    requires es != []
    ensures var e := es[|es| - 1];
            Beats(m, locals, from, es, x) <==>
            Beats(m, locals, from, es[..|es| - 1], x) || (HearsUs(locals, from, e) && EntryQuality(m, from, e) > x)
  {
    var front := es[..|es| - 1];
    if Beats(m, locals, from, front, x) {
      var i :| 0 <= i < |front| && HearsUs(locals, from, front[i]) && EntryQuality(m, from, front[i]) > x;
      assert es[i] == front[i];
    }
    if Beats(m, locals, from, es, x) {
      var i :| 0 <= i < |es| && HearsUs(locals, from, es[i]) && EntryQuality(m, from, es[i]) > x;
      assert i < |front| ==> es[i] == front[i];
    }
  }

  /** The quality the last matching entry implies. */
  function LastQuality(m: Metric, locals: set<Addr>, from: Arrival, es: seq<IfaceEntry>): nat {
    if es == [] then 0
    else if HearsUs(locals, from, es[|es| - 1]) then EntryQuality(m, from, es[|es| - 1])
    else LastQuality(m, locals, from, es[..|es| - 1])
  }

  /** The best link after all entries: this link with the quality last listed, if it was best before
      or some entry beats what was best before; otherwise what was best before. */
  lemma {:induction false} BestLinkHeard(m: Metric, locals: set<Addr>, t: Neighbor, willingness: nat, from: Arrival,
                                         es: seq<IfaceEntry>)
    ensures var r := HearAll(m, locals, t, willingness, from, es);
            var link := Some(LinkId(from.localIface, from.senderIface));
            if IsSymmetric(locals, from, es) && (t.bestLink == link || Beats(m, locals, from, es, t.quality))
            then r.bestLink == link && r.quality == LastQuality(m, locals, from, es)
            else r.bestLink == t.bestLink && r.quality == t.quality
    decreases |es|
  {
    if es != [] {
      var front, e := es[..|es| - 1], es[|es| - 1];
      BestLinkHeard(m, locals, t, willingness, from, front);
      BeatsGrows(m, locals, from, es, t.quality);
      SymmetricGrows(locals, from, es);
    }
  }

  lemma SymmetricGrows(locals: set<Addr>, from: Arrival, es: seq<IfaceEntry>)
    requires es != []
    ensures IsSymmetric(locals, from, es) <==>
            IsSymmetric(locals, from, es[..|es| - 1]) || HearsUs(locals, from, es[|es| - 1])
  {
    var front := es[..|es| - 1];
    if IsSymmetric(locals, from, front) {
      var i :| 0 <= i < |front| && HearsUs(locals, from, front[i]);
      assert es[i] == front[i];
    }
    if i :| 0 <= i < |es| && HearsUs(locals, from, es[i]) {
      assert i < |front| ==> es[i] == front[i];
    }
  }

  /** A lapsed tuple that makes no difference to what a symmetric HELLO makes of it. */
  ghost predicate IsSuperseded(m: Metric, locals: set<Addr>, stale: Neighbor, from: Arrival, es: seq<IfaceEntry>) {
    stale.bestLink.None? ||
    Beats(m, locals, from, es,
          if stale.bestLink == Some(LinkId(from.localIface, from.senderIface)) then 0 else stale.quality)
  }

  /** A HELLO may find the sender's tuple lapsed but not yet purged, and then starts from it instead
      of from a blank one. The tuple it leaves is the same exactly when the stale one has no best link
      or some matching entry beats it; otherwise the best link of a link long gone stays in place. */
  lemma StaleLinkLingers(m: Metric, locals: set<Addr>, stale: Neighbor, willingness: nat, from: Arrival,
                         es: seq<IfaceEntry>)
    requires IsSymmetric(locals, from, es)
    requires stale.quality > 0 ==> stale.bestLink.Some?
    ensures HearAll(m, locals, stale, willingness, from, es) == HearAll(m, locals, BLANK, willingness, from, es) <==>
            IsSuperseded(m, locals, stale, from, es)
  {
    BestLinkHeard(m, locals, stale, willingness, from, es);
    BestLinkHeard(m, locals, BLANK, willingness, from, es);
    HeardForgetsSelector(m, locals, stale, willingness, from, es);
    HeardForgetsSelector(m, locals, BLANK, willingness, from, es);
    LastBeats(m, locals, from, es);
    assert Beats(m, locals, from, es, stale.quality) ==> Beats(m, locals, from, es, 0);
  }

  lemma {:induction false} LastBeats(m: Metric, locals: set<Addr>, from: Arrival, es: seq<IfaceEntry>)
    ensures LastQuality(m, locals, from, es) > 0 ==> Beats(m, locals, from, es, 0)
    decreases |es|
  {
    if es != [] {
      LastBeats(m, locals, from, es[..|es| - 1]);
      BeatsGrows(m, locals, from, es, 0);
    }
  }

  // ---------------------------------------------------------------- what every message keeps

  /** The node is not its own neighbour; whoever has a 2-hop neighbour is a neighbour; no neighbour,
      nor the node itself, is a 2-hop neighbour; and a neighbour of positive quality has a best link. */
  ghost predicate Sane(self: Addr, s: Snap) {
    self !in s.tuples &&
    (forall v, w :: RecordOf(s.oneHop, v, w).Some? ==> v in s.tuples && w !in s.tuples && w != self) &&
    forall a :: a in s.tuples && s.tuples[a].quality > 0 ==> s.tuples[a].bestLink.Some?
  }

  lemma {:induction false} HeardHasLink(m: Metric, locals: set<Addr>, t: Neighbor, willingness: nat, from: Arrival,
                                        es: seq<IfaceEntry>)
    requires t.quality > 0 ==> t.bestLink.Some?
    ensures var r := HearAll(m, locals, t, willingness, from, es); r.quality > 0 ==> r.bestLink.Some?
    decreases |es|
  {
    if es != [] {
      HeardHasLink(m, locals, t, willingness, from, es[..|es| - 1]);
    }
  }

  lemma HelloKeepsSane(self: Addr, m: Metric, locals: set<Addr>, msg: Msg, from: Arrival, due: int, now: int,
                       s0: Snap, s: Snap)
    requires Sane(self, s0) && msg.orig != self
    requires HelloEffect(self, m, locals, msg, from, due, now, s0, s)
    ensures Sane(self, s)
  {
    if IsSymmetric(locals, from, msg.ifaces) {
      HeardHasLink(m, locals, TupleOf(s0, msg.orig), msg.willingness, from, msg.ifaces);
      forall v, w | RecordOf(s.oneHop, v, w).Some? ensures v in s.tuples && w !in s.tuples && w != self {
        HelloKeepsPair(self, m, locals, msg, from, due, now, s0, s, v, w);
      }
    } else if msg.neighs != [] {
      ExpiryKeepsSane(self, now, s0, s);
    }
  }

  lemma HelloKeepsPair(self: Addr, m: Metric, locals: set<Addr>, msg: Msg, from: Arrival, due: int, now: int,
                       s0: Snap, s: Snap, v: Addr, w: Addr)
    requires Sane(self, s0) && msg.orig != self && IsSymmetric(locals, from, msg.ifaces)
    requires HelloEffect(self, m, locals, msg, from, due, now, s0, s)
    requires RecordOf(s.oneHop, v, w).Some?
    ensures v in s.tuples && w !in s.tuples && w != self
  {
    var r := SymRecord(msg.orig, IsLive(s0.ts, v, now), RecordOf(s0.oneHop, v, w), v, w, now);
    assert r.Some? ==> RecordOf(s0.oneHop, v, w).Some? && w != msg.orig;
  }

  lemma ExpiryKeepsSane(self: Addr, now: int, s0: Snap, s: Snap)
    requires Sane(self, s0) && OnlyExpired(now, s0, s)
    ensures Sane(self, s)
  {
    forall v, w | RecordOf(s.oneHop, v, w).Some? ensures v in s.tuples && w !in s.tuples && w != self {
      RecordWithout(s0.oneHop, Lapsed(s0.ts, now), v, w);
    }
  }
}
