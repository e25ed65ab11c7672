/** The contents of an expiry queue as a value: records of an object and its purge time, soonest
    first, exactly as the linked-list code of timeslot.c orders them. */
module Queues {
  import opened Basics

  datatype Slot<T> = Slot(due: int, obj: T)

  type Queue<T> = seq<Slot<T>>

  ghost predicate Sorted<T>(q: Queue<T>) {
    forall i, j :: 0 <= i < j < |q| ==> q[i].due <= q[j].due
  }

  ghost predicate Unique<T>(q: Queue<T>) {
    forall i, j :: 0 <= i < j < |q| ==> q[i].obj != q[j].obj
  }

  ghost predicate WellFormed<T>(q: Queue<T>) {
    Sorted(q) && Unique(q)
  }

  ghost predicate Has<T>(q: Queue<T>, o: T) {
    exists d :: Slot(d, o) in q
  }

  /** Where the search from the late end stops. */
  function Place<T>(q: Queue<T>, due: int, i: nat): (r: nat)
    requires i < |q|
    ensures r <= i
  {
    if i > 0 && due < q[i].due then Place(q, due, i - 1) else i
  }

  function Insert<T>(q: Queue<T>, due: int, o: T): Queue<T> {
    if q == [] then [Slot(due, o)]
    else
      var i := Place(q, due, |q| - 1);
      Splice(q, if due >= q[i].due then i + 1 else i, Slot(due, o))
  }

  function Delete<T(==)>(q: Queue<T>, o: T): Queue<T> {
    if q == [] then [] else if q[0].obj == o then q[1..] else [q[0]] + Delete(q[1..], o)
  }

  /** Re-adding moves an object. */
  function Add<T(==)>(q: Queue<T>, due: int, o: T): Queue<T> {
    Insert(Delete(q, o), due, o)
  }

  function Live<T>(q: Queue<T>, now: int): Queue<T> {
    if q != [] && q[0].due <= now then Live(q[1..], now) else q
  }

  function Expired<T>(q: Queue<T>, now: int): Queue<T> {
    if q != [] && q[0].due <= now then [q[0]] + Expired(q[1..], now) else []
  }

  /** Adding also purges, but not when the object is the only one. */
  function AddAndPurge<T(==)>(q: Queue<T>, due: int, o: T, now: int): Queue<T> {
    if Delete(q, o) == [] then [Slot(due, o)] else Live(Add(q, due, o), now)
  }

  // ---------------------------------------------------------------- a map from objects to deadlines

  /** The deadline the queue holds for an object. */
  function Due<T(==)>(q: Queue<T>, o: T): Option<int> {
    if q == [] then None else if q[0].obj == o then Some(q[0].due) else Due(q[1..], o)
  }

  lemma {:induction false} DueIsSlot<T>(q: Queue<T>, o: T, d: int)
    requires Unique(q)
    ensures Due(q, o) == Some(d) <==> Slot(d, o) in q
    ensures Due(q, o) == None <==> !Has(q, o)
  {
    if q != [] {
      assert q == [q[0]] + q[1..];
      assert q[0] == Slot(q[0].due, q[0].obj);
      DueIsSlot(q[1..], o, d);
      if q[0].obj == o {
        assert Slot(q[0].due, o) in q;
      } else if Has(q, o) {
        var e :| Slot(e, o) in q;
        assert Slot(e, o) in q[1..];
      }
    }
  }

  /** A first record splits off: it is the soonest, and its object is not in the rest. */
  lemma HeadIsSoonest<T>(q: Queue<T>)
    requires WellFormed(q) && q != []
    ensures WellFormed(q[1..])
    ensures forall s :: s in q[1..] ==> q[0].due <= s.due && q[0].obj != s.obj
    ensures forall s :: s in q <==> s == q[0] || s in q[1..]
  {
    assert q == [q[0]] + q[1..];
  }

  lemma ConsIsWellFormed<T>(s: Slot<T>, q: Queue<T>)
    requires WellFormed(q)
    requires forall i :: 0 <= i < |q| ==> s.due <= q[i].due && s.obj != q[i].obj
    ensures WellFormed([s] + q)
  {
  }

  lemma {:induction false} DeleteHas<T>(q: Queue<T>, o: T, s: Slot<T>)
    requires WellFormed(q)
    ensures s in Delete(q, o) <==> s in q && s.obj != o
  {
    if q != [] {
      HeadIsSoonest(q);
      if q[0].obj != o {
        DeleteHas(q[1..], o, s);
      }
    }
  }

  lemma {:induction false} DeleteIsWellFormed<T>(q: Queue<T>, o: T)
    requires WellFormed(q)
    ensures WellFormed(Delete(q, o))
  {
    if q != [] {
      HeadIsSoonest(q);
      if q[0].obj != o {
        DeleteIsWellFormed(q[1..], o);
        var rest := Delete(q[1..], o);
        forall i | 0 <= i < |rest| ensures q[0].due <= rest[i].due && q[0].obj != rest[i].obj {
          DeleteHas(q[1..], o, rest[i]);
        }
        ConsIsWellFormed(q[0], rest);
      }
    }
  }

  lemma DeleteRemoves<T>(q: Queue<T>, o: T)
    requires WellFormed(q)
    ensures WellFormed(Delete(q, o))
    ensures forall s :: s in Delete(q, o) <==> s in q && s.obj != o
  {
    DeleteIsWellFormed(q, o);
    forall s ensures s in Delete(q, o) <==> s in q && s.obj != o { DeleteHas(q, o, s); }
  }

  lemma {:induction false} PlaceSplits<T>(q: Queue<T>, due: int, i: nat)
    requires Sorted(q) && i < |q| && forall j :: i < j < |q| ==> due < q[j].due
    ensures var r := Place(q, due, i);
            (forall j :: r < j < |q| ==> due < q[j].due) && (forall j :: 0 <= j < r ==> q[j].due <= due)
  {
    if i > 0 && due < q[i].due {
      PlaceSplits(q, due, i - 1);
    }
  }

  lemma SpliceIsWellFormed<T>(q: Queue<T>, k: nat, x: Slot<T>)
    requires WellFormed(q) && k <= |q|
    requires forall j :: 0 <= j < |q| ==> q[j].obj != x.obj
    requires (forall j :: 0 <= j < k ==> q[j].due <= x.due) && (forall j :: k <= j < |q| ==> x.due <= q[j].due)
    ensures WellFormed(Splice(q, k, x))
  {
    SpliceAt(q, k, x);
  }

  lemma SpliceHas<T>(q: seq<T>, k: nat, x: T, y: T)
    requires k <= |q|
    ensures y in Splice(q, k, x) <==> y in q || y == x
  {
    assert q == q[..k] + q[k..];
  }

  lemma InsertSorts<T>(q: Queue<T>, due: int, o: T)
    requires WellFormed(q) && !Has(q, o)
    ensures WellFormed(Insert(q, due, o))
    ensures forall s :: s in Insert(q, due, o) <==> s in q || s == Slot(due, o)
  {
    if q != [] {
      PlaceSplits(q, due, |q| - 1);
      var i := Place(q, due, |q| - 1);
      var k := if due >= q[i].due then i + 1 else i;
      forall j | 0 <= j < |q| ensures q[j].obj != o { assert Slot(q[j].due, q[j].obj) in q; }
      SpliceIsWellFormed(q, k, Slot(due, o));
      forall s ensures s in Splice(q, k, Slot(due, o)) <==> s in q || s == Slot(due, o) {
        SpliceHas(q, k, Slot(due, o), s);
      }
    }
  }

  /** Equal deadlines keep the order of arrival: a new element goes behind all that are due no later, and
      before all that are due later. */
  lemma InsertKeepsArrivals<T>(q: Queue<T>, due: int, o: T) returns (k: nat)
    requires Sorted(q)
    ensures k <= |q| && Insert(q, due, o) == q[..k] + [Slot(due, o)] + q[k..]
    ensures forall j :: 0 <= j < |q| ==> (q[j].due <= due <==> j < k)
  {
    k := 0;
    if q != [] {
      PlaceSplits(q, due, |q| - 1);
      var i := Place(q, due, |q| - 1);
      k := if due >= q[i].due then i + 1 else i;
    }
  }

  lemma {:induction false} LiveKeeps<T>(q: Queue<T>, now: int)
    requires WellFormed(q)
    ensures WellFormed(Live(q, now))
    ensures forall s :: s in Live(q, now) <==> s in q && s.due > now
    ensures Live(q, now) == [] || Live(q, now)[0].due > now
  {
    if q != [] && q[0].due <= now {
      LiveKeeps(q[1..], now);
      assert q == [q[0]] + q[1..];
    } else if q != [] {
      forall s | s in q ensures s.due > now {
        var i :| 0 <= i < |q| && q[i] == s;
      }
    }
  }

  lemma {:induction false} PurgeIsPrefix<T>(q: Queue<T>, now: int)
    ensures q == Expired(q, now) + Live(q, now)
  {
    if q != [] && q[0].due <= now {
      PurgeIsPrefix(q[1..], now);
      assert q == [q[0]] + q[1..];
    }
  }

  lemma {:induction false} ExpiredIsDue<T>(q: Queue<T>, now: int)
    ensures forall s :: s in Expired(q, now) ==> s.due <= now
  {
    if q != [] && q[0].due <= now {
      ExpiredIsDue(q[1..], now);
    }
  }

  /** A purge takes exactly what is due, in non-decreasing order of purge time, and leaves the rest
      as it was. */
  lemma PurgeSplits<T>(q: Queue<T>, now: int)
    requires WellFormed(q)
    ensures q == Expired(q, now) + Live(q, now)
    ensures forall s :: s in Expired(q, now) <==> s in q && s.due <= now
    ensures forall i, j :: 0 <= i < j < |Expired(q, now)| ==> Expired(q, now)[i].due <= Expired(q, now)[j].due
  {
    PurgeIsPrefix(q, now);
    ExpiredIsDue(q, now);
    LiveKeeps(q, now);
    assert forall i :: 0 <= i < |Expired(q, now)| ==> Expired(q, now)[i] == q[i];
  }

  /** The queue is a map from objects to deadlines: adding updates it, deleting removes from it, and
      a purge forgets the deadlines that have passed. */
  lemma QueueIsMap<T>(q: Queue<T>, due: int, o: T, now: int, x: T)
    requires WellFormed(q)
    ensures WellFormed(Add(q, due, o)) && WellFormed(Delete(q, o)) && WellFormed(Live(q, now))
    ensures Due(Add(q, due, o), x) == if x == o then Some(due) else Due(q, x)
    ensures Due(Delete(q, o), x) == if x == o then None else Due(q, x)
    ensures Due(Live(q, now), x) == if Due(q, x).Some? && Due(q, x).value > now then Due(q, x) else None
  {
    DeleteRemoves(q, o);
    var rest := Delete(q, o);
    assert !Has(rest, o);
    InsertSorts(rest, due, o);
    LiveKeeps(q, now);
    DueFollows(q, rest, x);
    DueFollows(rest, Add(q, due, o), x);
    DueFollows(q, Live(q, now), x);
    DueIsSlot(rest, o, due);
    DueIsSlot(Add(q, due, o), o, due);
  }

  /** Deadlines are determined by which records a queue has. */
  lemma DueFollows<T>(q: Queue<T>, r: Queue<T>, x: T)
    requires Unique(q) && Unique(r)
    ensures (forall d :: Slot(d, x) in r <==> Slot(d, x) in q) ==> Due(r, x) == Due(q, x)
    ensures Due(q, x).Some? ==> Slot(Due(q, x).value, x) in q
    ensures Due(r, x).Some? ==> Slot(Due(r, x).value, x) in r
    ensures (forall d :: Slot(d, x) !in r) ==> Due(r, x) == None
    ensures (exists d :: Slot(d, x) in r) ==> Due(r, x).Some?
    ensures forall d :: Slot(d, x) in r ==> Due(r, x) == Some(d)
    ensures forall d :: Slot(d, x) in q ==> Due(q, x) == Some(d)
  {
    forall d ensures Due(q, x) == Some(d) <==> Slot(d, x) in q { DueIsSlot(q, x, d); }
    forall d ensures Due(r, x) == Some(d) <==> Slot(d, x) in r { DueIsSlot(r, x, d); }
    if Due(q, x).Some? { assert Due(q, x) == Some(Due(q, x).value); }
    if Due(r, x).Some? { assert Due(r, x) == Some(Due(r, x).value); }
  }

  /** Adding with its built-in purge ends, once purged, where adding and then purging ends. */
  lemma AddAndPurgeThenPurge<T>(q: Queue<T>, due: int, o: T, now: int)
    requires WellFormed(q)
    ensures Live(AddAndPurge(q, due, o, now), now) == Live(Add(q, due, o), now)
    ensures due > now ==> AddAndPurge(q, due, o, now) == Live(Add(q, due, o), now)
  {
    QueueIsMap(q, due, o, now, o);
    LiveKeeps(Add(q, due, o), now);
    if Delete(q, o) == [] {
      assert Add(q, due, o) == [Slot(due, o)];
    }
  }

  // ---------------------------------------------------------------- what a purge takes

  /** The objects due at `now`. */
  function Lapsed<T>(q: Queue<T>, now: int): set<T> {
    set s | s in q && s.due <= now :: s.obj
  }

  lemma LapsedIsDue<T>(q: Queue<T>, now: int, o: T)
    requires Unique(q)
    ensures o in Lapsed(q, now) <==> Due(q, o).Some? && Due(q, o).value <= now
  {
    if o in Lapsed(q, now) {
      var s :| s in q && s.due <= now && s.obj == o;
      DueIsSlot(q, o, s.due);
    }
    if Due(q, o).Some? {
      DueIsSlot(q, o, Due(q, o).value);
    }
  }

  /** Once purged, nothing is due until the clock moves. */
  lemma PurgedIsQuiet<T>(q: Queue<T>, now: int)
    requires WellFormed(q)
    ensures Live(Live(q, now), now) == Live(q, now) && Lapsed(Live(q, now), now) == {}
  {
    LiveKeeps(q, now);
  }

  /** `q` is what is left of `q0`. */
  ghost predicate Remains<T(!new)>(q: Queue<T>, q0: Queue<T>) {
    WellFormed(q) && forall w :: Due(q, w).Some? ==> Due(q, w) == Due(q0, w)
  }

  lemma TailRemains<T(!new)>(q: Queue<T>, q0: Queue<T>)
    requires Remains(q, q0) && q != []
    ensures Remains(q[1..], q0)
    ensures Due(q, q[0].obj) == Some(q[0].due)
    ensures forall w :: Due(q[1..], w) == if w == q[0].obj then None else Due(q, w)
  {
    HeadIsSoonest(q);
    assert Delete(q, q[0].obj) == q[1..];
    forall w ensures Due(q[1..], w) == if w == q[0].obj then None else Due(q, w) {
      QueueIsMap(q, 0, q[0].obj, 0, w);
    }
  }

  /** In the middle of a purge of `q0`: `gone` has been purged and `q` is left. */
  ghost predicate IsPurging<T(!new)>(q: Queue<T>, q0: Queue<T>, gone: set<T>, now: int) {
    WellFormed(q) && Live(q, now) == Live(q0, now) && gone + Lapsed(q, now) == Lapsed(q0, now) &&
    forall w :: Due(q, w) == if w in gone then None else Due(q0, w)
  }

  lemma PurgeGoesOn<T(!new)>(q: Queue<T>, q0: Queue<T>, gone: set<T>, now: int)
    requires IsPurging(q, q0, gone, now) && q != [] && q[0].due <= now
    ensures IsPurging(q[1..], q0, gone + {q[0].obj}, now)
    ensures q[0].obj !in gone && Due(q, q[0].obj) == Some(q[0].due)
  {
    TailRemains(q, q);
    HeadIsSoonest(q);
    assert Lapsed(q, now) == {q[0].obj} + Lapsed(q[1..], now);
  }

  lemma PurgeEnds<T(!new)>(q: Queue<T>, q0: Queue<T>, gone: set<T>, now: int)
    requires IsPurging(q, q0, gone, now) && (q == [] || q[0].due > now)
    ensures q == Live(q0, now) && gone == Lapsed(q0, now)
  {
    LiveKeeps(q, now);
    assert Lapsed(q, now) == {};
  }

  // ---------------------------------------------------------------- lazy expiry over whole runs

  /** What happens to an expiry queue: an object's deadline is set, an object is deleted, or the
      queue is purged because somebody asked. */
  datatype Op<T> = Touch(obj: T, due: int, at: int) | Forget(obj: T) | Purge(at: int)

  function Run<T(==)>(ops: seq<Op<T>>): Queue<T> {
    if ops == [] then []
    else
      var q := Run(ops[..|ops| - 1]);
      match ops[|ops| - 1]
      case Touch(o, due, now) => AddAndPurge(q, due, o, now)
      case Forget(o) => Delete(q, o)
      case Purge(now) => Live(q, now)
  }

  /** The plain map from objects to latest deadlines, from which nothing is ever purged. */
  function Latest<T(==)>(ops: seq<Op<T>>, o: T): Option<int> {
    if ops == [] then None
    else
      var before := Latest(ops[..|ops| - 1], o);
      match ops[|ops| - 1]
      case Touch(p, due, _) => if p == o then Some(due) else before
      case Forget(p) => if p == o then None else before
      case Purge(_) => before
  }

  /** No purge of the run happened later than `now`. */
  ghost predicate ClockBy<T>(ops: seq<Op<T>>, now: int) {
    forall i :: 0 <= i < |ops| ==>
      match ops[i] case Touch(_, _, at) => at <= now case Forget(_) => true case Purge(at) => at <= now
  }

  function Unexpired(d: Option<int>, now: int): Option<int> {
    if d.Some? && d.value > now then d else None
  }

  /** One step of the queue, with its built-in purges, seen through an unexpired-only view. */
  lemma StepUnexpired<T>(q: Queue<T>, op: Op<T>, now: int, o: T)
    requires WellFormed(q) && (op.Forget? || op.at <= now)
    ensures var r := match op
              case Touch(p, due, at) => AddAndPurge(q, due, p, at)
              case Forget(p) => Delete(q, p)
              case Purge(at) => Live(q, at);
            WellFormed(r) &&
            Unexpired(Due(r, o), now) ==
            match op
              case Touch(p, due, _) => if p == o then Unexpired(Some(due), now) else Unexpired(Due(q, o), now)
              case Forget(p) => if p == o then None else Unexpired(Due(q, o), now)
              case Purge(_) => Unexpired(Due(q, o), now)
  {
    match op
    case Touch(p, due, at) =>
      QueueIsMap(q, due, p, at, o);
      QueueIsMap(Add(q, due, p), 0, p, at, o);
      if Delete(q, p) == [] {
        assert Due(Delete(q, p), o) == None;
      }
    case Forget(p) => QueueIsMap(q, 0, p, now, o);
    case Purge(at) => QueueIsMap(q, 0, o, at, o);
  }

  /** Lazy expiry is invisible: at any time from the last purge on, the queue answers as the plain
      map that ignores deadlines at or before now. */
  lemma {:induction false} LazyIsPlain<T>(ops: seq<Op<T>>, now: int, o: T)
    requires ClockBy(ops, now)
    ensures WellFormed(Run(ops))
    ensures Unexpired(Due(Run(ops), o), now) == Unexpired(Latest(ops, o), now)
    decreases |ops|
  {
    if ops != [] {
      var before, op := ops[..|ops| - 1], ops[|ops| - 1];
      LazyIsPlain(before, now, o);
      StepUnexpired(Run(before), op, now, o);
    }
  }
}
