/** Duplicate detection and numbering per (source, destination) pair. */
module RlSeq {
  import opened Basics
  import opened Queues
  import opened SeqNumbers
  import opened WindowSpec

  /** Source and destination address. */
  type Key = (Addr, Addr)

  /** A window in use: it stands for a non-empty set of received numbers. */
  ghost predicate InUse(list: Numbers, ws: nat) {
    exists received :: received != {} && Represents(list, ws, received)
  }

  ghost predicate IsLargest(received: set<int>, top: int) {
    top in received && forall y :: y in received ==> y <= top
  }

  /** The lift of a number relative to a window in use is near enough to be recorded faithfully. */
  lemma RecordLifts(list: Numbers, ws: nat, received: set<int>, top: int, w: nat)
    requires 2 <= ws <= 255 && IsSeq(w) && Represents(list, ws, received) && IsLargest(received, top)
    ensures list != [] && Head(list) == Wire(top) && Wire(Lift(top, ws, w)) == w
    ensures Represents(AddSn(list, ws, w), ws, received + {Lift(top, ws, w)})
  {
    LiftHasWire(top, ws, w);
    RecordNear(list, ws, received, top, Lift(top, ws, w));
  }

  lemma RecordNear(list: Numbers, ws: nat, received: set<int>, top: int, x: int)
    requires 2 <= ws <= 255 && Represents(list, ws, received) && IsLargest(received, top) && Fits(top, ws, x)
    ensures list != [] && Head(list) == Wire(top)
    ensures Represents(AddSn(list, ws, Wire(x)), ws, received + {x})
  {
    HeadIs(list, ws, received, top);
    FitsTheLargest(received, top, ws, x);
    AddKeepsWindow(list, ws, received, x);
  }

  /** Windows stay in use, hence non-empty, whatever is recorded. */
  lemma StaysInUse(list: Numbers, ws: nat, w: nat)
    requires 2 <= ws <= 255 && IsSeq(w) && (list == [] || InUse(list, ws))
    ensures InUse(AddSn(list, ws, w), ws) && AddSn(list, ws, w) != []
  {
    if list == [] {
      assert IsWindowOf([w], ws, {w}) && [w] == WireAll([w]);
      assert Represents([w], ws, {w});
    } else {
      var received :| received != {} && Represents(list, ws, received);
      var top := HeadIsTop(list, ws, received);
      RecordLifts(list, ws, received, top, w);
      var top' := HeadIsTop(AddSn(list, ws, w), ws, received + {Lift(top, ws, w)});
    }
  }

  /** The next number after the head always becomes the head. */
  lemma NextBecomesHead(list: Numbers, ws: nat, received: set<int>, top: int)
    requires 2 <= ws <= 255 && Represents(list, ws, received) && IsLargest(received, top)
    ensures list != [] && Head(list) == Wire(top)
    ensures var r := AddSn(list, ws, Wire(Head(list) + 1));
            Represents(r, ws, received + {top + 1}) && r != [] && Head(r) == Wire(top + 1) == Wire(Head(list) + 1)
  {
    RecordNear(list, ws, received, top, top + 1);
    assert Wire(Head(list) + 1) == Wire(top + 1) by { WireOfSum(top, 1); }
    HeadIs(AddSn(list, ws, Wire(top + 1)), ws, received + {top + 1}, top + 1);
  }

  lemma IssueBecomesHead(list: Numbers, ws: nat)
    requires 2 <= ws <= 255 && list != [] && InUse(list, ws)
    ensures var next := Wire(Head(list) + 1);
            var r := AddSn(list, ws, next); r != [] && InUse(r, ws) && Head(r) == next
  {
    var received :| received != {} && Represents(list, ws, received);
    var top := HeadIsTop(list, ws, received);
    NextBecomesHead(list, ws, received, top);
    assert received + {top + 1} != {};
  }

  // ---------------------------------------------------------------- what the windows mean

  /** A number recorded keeps being known until the head has moved a whole window past it, and is
      known exactly as long as some number of the window has its wire form. */
  lemma KnownIsInWindow(list: Numbers, ws: nat, received: set<int>, top: int, x: int)
    requires Represents(list, ws, received)
    requires top in received && forall y :: y in received ==> y <= top
    ensures Wire(x) in list <==> exists y :: y in received && top - ws < y && Wire(y) == Wire(x)
    ensures x in received && top - ws < x ==> Wire(x) in list
  {
    var l :| IsWindowOf(l, ws, received) && list == WireAll(l);
    assert l != [] && Top(l) in l;
    if Wire(x) in list {
      var i :| 0 <= i < |list| && list[i] == Wire(x);
      assert l[i] in l && Wire(l[i]) == Wire(x);
    }
    forall y | y in received && top - ws < y ensures Wire(y) in list {
      assert y in l;
      var i :| 0 <= i < |l| && l[i] == y;
      assert list[i] == Wire(y);
    }
  }

  /** A second copy right behind the first is recognised exactly when the number was not already a
      window or more behind: such old numbers are passed on but never recorded. */
  lemma RepeatIsKnown(list: Numbers, ws: nat, w: nat)
    requires 2 <= ws <= 255 && IsSeq(w) && InUse(list, ws) && w !in list
    ensures list != [] && (w in AddSn(list, ws, w) <==> SeqComp(Head(list), Wire(w + ws)) < 0)
  {
    var received :| received != {} && Represents(list, ws, received);
    var top := HeadIsTop(list, ws, received);
    if SeqComp(Head(list), Wire(w + ws)) < 0 {
      RecentIsRecorded(list, ws, received, top, w);
    }
  }

  lemma RecentIsRecorded(list: Numbers, ws: nat, received: set<int>, top: int, w: nat)
    requires 2 <= ws <= 255 && IsSeq(w) && Represents(list, ws, received) && IsLargest(received, top)
    requires list != [] && SeqComp(Head(list), Wire(w + ws)) < 0
    ensures w in AddSn(list, ws, w)
  {
    var x := Lift(top, ws, w);
    RecordLifts(list, ws, received, top, w);
    assert top - ws < x by {
      CompLifts(top, x + ws);
      WireOfSum(x, ws);
    }
    KnownIsInWindow(AddSn(list, ws, w), ws, received + {x}, if x > top then x else top, x);
  }

  /** Such a number at the default window size: 10 after 100 passes as often as it is sent. */
  lemma OldNumberKeepsPassing()
    ensures InUse(RunOps(50, [Record(100)]), 50)
    ensures RunOps(50, [Record(100)]) == RunOps(50, [Record(100), Record(10)]) == [100]
  {
    assert [Record(100), Record(10)][..1] == [Record(100)] && [Record(100)][..0] == [];
    assert RunOps(50, [Record(100)]) == [100];
    SingletonWindow(100, 50);
  }

  // ---------------------------------------------------------------- numbering over a run

  /** What happens to one pair's window while its entry lives: a number is issued, or one is
      recorded. */
  datatype Op = Issue | Record(w: nat)

  /** The number issued next: 0 for a new window, else one more than the head. */
  function NextAfter(list: Numbers): nat {
    if list == [] then 0 else Wire(Head(list) + 1)
  }

  /** The number an operation offers to the window. */
  function Offered(list: Numbers, op: Op): nat {
    match op
    case Issue => NextAfter(list)
    case Record(w) => w
  }

  function RunOps(ws: nat, ops: seq<Op>): Numbers {
    if ops == [] then []
    else var list := RunOps(ws, ops[..|ops| - 1]); AddSn(list, ws, Offered(list, ops[|ops| - 1]))
  }

  predicate OpsOk(ops: seq<Op>) {
    forall i :: 0 <= i < |ops| && ops[i].Record? ==> IsSeq(ops[i].w)
  }

  /** The last number of a run, unbounded: an issue is one above the head, a recorded number is its
      lift around the head. */
  function LastNumber(ws: nat, ops: seq<Op>): int
    requires ops != [] && OpsOk(ops)
    decreases |ops|, 0
  {
    var op := ops[|ops| - 1];
    if |ops| == 1 then (if op.Issue? then 0 else op.w)
    else
      var top := TopOf(ws, ops[..|ops| - 1]);
      if op.Issue? then top + 1 else Lift(top, ws, op.w)
  }

  /** The head of the window as an unbounded number. */
  function TopOf(ws: nat, ops: seq<Op>): int
    requires ops != [] && OpsOk(ops)
    decreases |ops|, 1
  {
    var x := LastNumber(ws, ops);
    if |ops| == 1 then x
    else var top := TopOf(ws, ops[..|ops| - 1]); if x > top then x else top
  }

  /** The number step `i` of a run issued or recorded. */
  function NumberAt(ws: nat, ops: seq<Op>, i: nat): int
    requires i < |ops| && OpsOk(ops)
  {
    LastNumber(ws, ops[..i + 1])
  }

  /** All of them. */
  ghost function AllNumbers(ws: nat, ops: seq<Op>): set<int>
    requires OpsOk(ops)
  {
    if ops == [] then {} else AllNumbers(ws, ops[..|ops| - 1]) + {LastNumber(ws, ops)}
  }

  lemma {:induction false} AllNumbersAre(ws: nat, ops: seq<Op>, x: int)
    requires OpsOk(ops)
    ensures x in AllNumbers(ws, ops) <==> exists i: nat :: i < |ops| && NumberAt(ws, ops, i) == x
    decreases |ops|
  {
    if ops != [] {
      var before, n := ops[..|ops| - 1], |ops| - 1;
      AllNumbersAre(ws, before, x);
      assert ops[..n + 1] == ops;
      assert NumberAt(ws, ops, n) == LastNumber(ws, ops);
      forall i: nat | i < n ensures NumberAt(ws, ops, i) == NumberAt(ws, before, i) {
        assert ops[..i + 1] == before[..i + 1];
      }
    }
  }

  /** Along any run of issues and recordings the window is the window over everything issued or
      recorded, and its head is the wire form of the largest of it. */
  lemma {:induction false} RunIsWindowOfAll(ws: nat, ops: seq<Op>)
    requires 2 <= ws <= 255 && ops != [] && OpsOk(ops)
    ensures Represents(RunOps(ws, ops), ws, AllNumbers(ws, ops))
    ensures IsLargest(AllNumbers(ws, ops), TopOf(ws, ops))
    ensures RunOps(ws, ops) != [] && Head(RunOps(ws, ops)) == Wire(TopOf(ws, ops))
    decreases |ops|
  {
    var before, op := ops[..|ops| - 1], ops[|ops| - 1];
    assert ops == before + [op];
    if before == [] {
      FirstIsWindow(ws, op);
    } else {
      RunIsWindowOfAll(ws, before);
      NextIsWindow(ws, before, op);
    }
    HeadIs(RunOps(ws, ops), ws, AllNumbers(ws, ops), TopOf(ws, ops));
  }

  lemma FirstIsWindow(ws: nat, op: Op)
    requires ws > 0 && OpsOk([op])
    ensures Represents(RunOps(ws, [op]), ws, AllNumbers(ws, [op])) && IsLargest(AllNumbers(ws, [op]), TopOf(ws, [op]))
  {
    var x := if op.Issue? then 0 else op.w;
    assert [op][..0] == [] && [op][0] == op;
    assert Offered([], op) == x && AddSn([], ws, x) == [x];
    assert RunOps(ws, []) == [] && RunOps(ws, [op]) == [x];
    assert LastNumber(ws, [op]) == x == TopOf(ws, [op]);
    assert AllNumbers(ws, []) == {} && AllNumbers(ws, [op]) == {x};
    SingletonWindow(x, ws);
  }

  lemma NextIsWindow(ws: nat, ops: seq<Op>, op: Op)
    requires 2 <= ws <= 255 && ops != [] && OpsOk(ops + [op]) && OpsOk(ops)
    requires Represents(RunOps(ws, ops), ws, AllNumbers(ws, ops)) && IsLargest(AllNumbers(ws, ops), TopOf(ws, ops))
    ensures Represents(RunOps(ws, ops + [op]), ws, AllNumbers(ws, ops + [op]))
    ensures IsLargest(AllNumbers(ws, ops + [op]), TopOf(ws, ops + [op]))
  {
    var longer := ops + [op];
    assert longer[..|longer| - 1] == ops && longer[|ops|] == op;
    var x := NextNumber(ws, RunOps(ws, ops), AllNumbers(ws, ops), TopOf(ws, ops), op);
    assert x == LastNumber(ws, longer);
  }

  lemma SingletonWindow(x: int, ws: nat)
    requires IsSeq(x) && ws > 0
    ensures Represents([x], ws, {x})
  {
    assert IsWindowOf([x], ws, {x}) && [x] == WireAll([x]);
  }

  /** The number one operation adds to a window in use. */
  lemma NextNumber(ws: nat, list: Numbers, received: set<int>, top: int, op: Op) returns (x: int)
    requires 2 <= ws <= 255 && Represents(list, ws, received) && (op.Record? ==> IsSeq(op.w))
    requires IsLargest(received, top)
    ensures list != []
    ensures Represents(AddSn(list, ws, Offered(list, op)), ws, received + {x})
    ensures x == if op.Issue? then top + 1 else Lift(top, ws, op.w)
  {
    match op
    case Issue =>
      NextBecomesHead(list, ws, received, top);
      x := top + 1;
    case Record(w) =>
      RecordLifts(list, ws, received, top, w);
      x := Lift(top, ws, w);
  }

  /** `w` is the wire form of a number issued or recorded that the head has not moved a whole window
      past. */
  ghost predicate IsKnown(ws: nat, ops: seq<Op>, w: nat) {
    OpsOk(ops) &&
    exists i: nat :: i < |ops| && TopOf(ws, ops) < NumberAt(ws, ops, i) + ws && Wire(NumberAt(ws, ops, i)) == w
  }

  /** A wire number is known at some moment of a run exactly if a number of that wire form was issued
      or recorded before and the head has not moved a whole window past it since. */
  lemma KnownOverRun(ws: nat, ops: seq<Op>, w: nat)
    requires 2 <= ws <= 255 && OpsOk(ops)
    ensures w in RunOps(ws, ops) <==> IsKnown(ws, ops, w)
  {
    if ops != [] {
      var all, top := AllNumbers(ws, ops), TopOf(ws, ops);
      RunIsWindowOfAll(ws, ops);
      if w in RunOps(ws, ops) {
        InWindowIsWire(RunOps(ws, ops), ws, all, w);
        KnownIsInWindow(RunOps(ws, ops), ws, all, top, w);
        var y :| y in all && top - ws < y && Wire(y) == Wire(w);
        AllNumbersAre(ws, ops, y);
      }
      forall i: nat | i < |ops| && top < NumberAt(ws, ops, i) + ws && Wire(NumberAt(ws, ops, i)) == w
        ensures w in RunOps(ws, ops)
      {
        AllNumbersAre(ws, ops, NumberAt(ws, ops, i));
        KnownIsInWindow(RunOps(ws, ops), ws, all, top, NumberAt(ws, ops, i));
      }
    }
  }

  lemma InWindowIsWire(list: Numbers, ws: nat, received: set<int>, w: nat)
    requires Represents(list, ws, received) && w in list
    ensures IsSeq(w) && Wire(w) == w
  {
    var l :| IsWindowOf(l, ws, received) && list == WireAll(l);
  }

  /** Persistence: what step `i` put into the window stays known, through all later issues and
      recordings, until the head has moved a whole window past it. */
  lemma StaysKnown(ws: nat, ops: seq<Op>, i: nat, j: nat)
    requires 2 <= ws <= 255 && OpsOk(ops) && i < j <= |ops|
    requires TopOf(ws, ops[..j]) < NumberAt(ws, ops, i) + ws
    ensures Wire(NumberAt(ws, ops, i)) in RunOps(ws, ops[..j])
  {
    assert ops[..j][..i + 1] == ops[..i + 1];
    assert NumberAt(ws, ops[..j], i) == NumberAt(ws, ops, i);
    KnownOverRun(ws, ops[..j], Wire(NumberAt(ws, ops, i)));
  }

  /** The head never falls back, and every issue moves it strictly forward. */
  lemma {:induction false} IssuesAdvance(ws: nat, ops: seq<Op>, i: nat, j: nat)
    requires 1 <= i <= j <= |ops| && OpsOk(ops)
    ensures TopOf(ws, ops[..i]) <= TopOf(ws, ops[..j])
    ensures i < j && ops[j - 1].Issue? ==> TopOf(ws, ops[..i]) < TopOf(ws, ops[..j])
    decreases j
  {
    if i < j {
      IssuesAdvance(ws, ops, i, j - 1);
      assert ops[..j][..j - 1] == ops[..j - 1];
    }
  }

  // ---------------------------------------------------------------- the table

  /** The window of an entry is what the operations since its creation made it. */
  ghost predicate Explains(ws: nat, ops: seq<Op>, list: Numbers) {
    ops != [] && OpsOk(ops) && list == RunOps(ws, ops)
  }

  ghost predicate AllExplained(ws: nat, entries: map<Key, Numbers>, log: map<Key, seq<Op>>) {
    log.Keys == entries.Keys && (forall k :: k in entries ==> entries[k] != []) &&
    forall k {:trigger Explains(ws, log[k], entries[k])} :: k in entries ==> Explains(ws, log[k], entries[k])
  }

  function WindowOf(entries: map<Key, Numbers>, k: Key): Numbers {
    if k in entries then entries[k] else []
  }

  function LogOf(log: map<Key, seq<Op>>, k: Key): seq<Op> {
    if k in log then log[k] else []
  }

  lemma ExplainedIsInUse(ws: nat, ops: seq<Op>, list: Numbers)
    requires 2 <= ws <= 255 && Explains(ws, ops, list)
    ensures list != [] && InUse(list, ws)
  {
    RunIsWindowOfAll(ws, ops);
  }

  lemma RunOpsGrows(ws: nat, ops: seq<Op>, op: Op)
    ensures RunOps(ws, ops + [op]) == AddSn(RunOps(ws, ops), ws, Offered(RunOps(ws, ops), op))
  {
    assert (ops + [op])[..|ops|] == ops;
  }

  /** One operation more on one window. */
  lemma OneLogGrows(ws: nat, ops: seq<Op>, was: Numbers, list: Numbers, op: Op)
    requires 2 <= ws <= 255 && OpsOk(ops) && OpsOk([op]) && was == RunOps(ws, ops)
    requires list == AddSn(was, ws, Offered(was, op))
    ensures Explains(ws, ops + [op], list) && list != []
  {
    RunOpsGrows(ws, ops, op);
    assert [op][0] == op;
    ExplainedIsInUse(ws, ops + [op], list);
  }

  lemma LogGrows(ws: nat, entries: map<Key, Numbers>, log: map<Key, seq<Op>>, k: Key, list: Numbers, op: Op)
    requires 2 <= ws <= 255 && AllExplained(ws, entries, log) && OpsOk([op])
    requires list == AddSn(WindowOf(entries, k), ws, Offered(WindowOf(entries, k), op))
    ensures AllExplained(ws, entries[k := list], log[k := LogOf(log, k) + [op]])
  {
    assert k in entries ==> Explains(ws, log[k], entries[k]);
    OneLogGrows(ws, LogOf(log, k), WindowOf(entries, k), list, op);
    AllStayExplained(ws, entries, log, k, LogOf(log, k) + [op], list);
  }

  lemma AllStayExplained(ws: nat, entries: map<Key, Numbers>, log: map<Key, seq<Op>>, k: Key, ops: seq<Op>,
                         list: Numbers)
    requires AllExplained(ws, entries, log) && Explains(ws, ops, list) && list != []
    ensures AllExplained(ws, entries[k := list], log[k := ops])
  {
    var entries', log' := entries[k := list], log[k := ops];
    forall j | j in entries' ensures Explains(ws, log'[j], entries'[j]) {
      assert j != k ==> Explains(ws, log[j], entries[j]);
    }
  }

  /** What the table knows: each live entry's history, and the queue that expires them. */
  datatype TableState = TableState(log: map<Key, seq<Op>>, ts: Queue<Key>)

  /** When an entry touched at `now` expires: window-size seconds later, in microseconds. */
  function HoldUntil(ws: nat, now: int): int {
    now + ws * 1_000_000
  }

  /** The table after operation `op` on entry `k`: everything due goes, entry `k` starts anew, with the
      history it had even if it was due. */
  function Touched(ws: nat, s: TableState, k: Key, op: Op, now: int): TableState {
    var q := Add(s.ts, HoldUntil(ws, now), k);
    TableState(s.log[k := LogOf(s.log, k) + [op]] - Lapsed(q, now), Live(q, now))
  }

  function Purged(s: TableState, now: int): TableState {
    TableState(s.log - Lapsed(s.ts, now), Live(s.ts, now))
  }

  class RlTable {
    var entries: map<Key, Numbers>
    var ts: Queue<Key>
    const windowSize: nat
    ghost var log: map<Key, seq<Op>>     // what happened to an entry while it lived

    /** Each entry has exactly one queue element, and its window is what its log makes it. */
    ghost predicate Valid()
      reads this
    {
      2 <= windowSize <= 255 && WellFormed(ts) &&
      (forall k :: k in entries <==> Due(ts, k).Some?) && AllExplained(windowSize, entries, log)
    }

    ghost function State(): TableState
      reads this
    {
      TableState(log, ts)
    }

    constructor (windowSize: nat)
      requires 2 <= windowSize <= 255
      ensures Valid() && entries == map[] && State() == TableState(map[], []) && this.windowSize == windowSize
    {
      entries, ts, log, this.windowSize := map[], [], map[], windowSize;
    }

    method PurgeTimeslot(now: int)
      requires Valid()
      modifies this
      ensures Valid() && ts == Live(old(ts), now)
      ensures entries == old(entries) - Lapsed(old(ts), now) && log == old(log) - Lapsed(old(ts), now)
    {
      ghost var gone: set<Key> := {};
      var more := ts != [];
      while more && ts[0].due <= now
        invariant more <==> ts != []
        invariant IsPurging(ts, old(ts), gone, now)
        invariant entries == old(entries) - gone && log == old(log) - gone
        decreases |ts|
      {
        var k := ts[0].obj;
        PurgeGoesOn(ts, old(ts), gone, now);
        ts, gone := ts[1..], gone + {k};
        more := ts != [];
        entries, log := entries - {k}, log - {k};
      }
      PurgeEnds(ts, old(ts), gone, now);
    }

    /** Restarts an entry's hold time, with the purge of timeslot_addobject. */
    method Renew(k: Key, now: int)
      requires 2 <= windowSize <= 255 && WellFormed(ts) && k in entries
      requires forall a :: a in entries && a != k ==> Due(ts, a).Some?
      requires forall a :: Due(ts, a).Some? ==> a in entries
      requires AllExplained(windowSize, entries, log)
      modifies this
      ensures Valid() && ts == Live(Add(old(ts), HoldUntil(windowSize, now), k), now)
      ensures k in entries && entries == old(entries) - Lapsed(Add(old(ts), HoldUntil(windowSize, now), k), now)
      ensures log == old(log) - Lapsed(Add(old(ts), HoldUntil(windowSize, now), k), now)
    {
      ghost var q, due := ts, HoldUntil(windowSize, now);
      forall x ensures Due(Add(q, due, k), x) == if x == k then Some(due) else Due(q, x) {
        QueueIsMap(q, due, k, now, x);
      }
      QueueIsMap(q, due, k, now, k);
      LapsedIsDue(Add(q, due, k), now, k);
      AddAndPurgeThenPurge(q, due, k, now);
      var rest := Delete(ts, k);
      ts := Insert(rest, HoldUntil(windowSize, now), k);
      if rest != [] {
        PurgeTimeslot(now);
      } else {
        assert Lapsed(ts, now) == {};
      }
    }

    /** Stores a pair's window, which operation `op` made it, and restarts its hold time. */
    method Store(k: Key, list: Numbers, ghost op: Op, now: int)
      requires Valid() && OpsOk([op])
      requires list == AddSn(WindowOf(entries, k), windowSize, Offered(WindowOf(entries, k), op))
      modifies this
      ensures Valid() && k in entries && entries[k] == list
      ensures State() == Touched(windowSize, old(State()), k, op, now) && k in log
      ensures entries - {k} == old(entries) - {k} - Lapsed(Add(old(ts), HoldUntil(windowSize, now), k), now)
    {
      ghost var was := entries;
      LogGrows(windowSize, entries, log, k, list, op);
      entries, log := entries[k := list], log[k := LogOf(log, k) + [op]];
      assert entries - {k} == was - {k};
      RemovalsCommute(entries, {k}, Lapsed(Add(ts, HoldUntil(windowSize, now), k), now));
      Renew(k, now);
    }

    /** rl_get_nextseq. */
    method GetNextSeq(src: Addr, dest: Addr, now: int) returns (seqNum: nat)
      requires Valid()
      modifies this
      ensures Valid() && (src, dest) in entries && Head(entries[(src, dest)]) == seqNum
      ensures var was := WindowOf(old(entries), (src, dest));
              seqNum == NextAfter(was) && entries[(src, dest)] == AddSn(was, windowSize, seqNum)
      ensures State() == Touched(windowSize, old(State()), (src, dest), Issue, now)
      ensures var k := (src, dest);
              entries - {k} == old(entries) - {k} - Lapsed(Add(old(ts), HoldUntil(windowSize, now), k), now)
    {
      var k := (src, dest);
      if k in entries {
        assert Explains(windowSize, log[k], entries[k]);
        ExplainedIsInUse(windowSize, log[k], entries[k]);
      }
      var list;
      seqNum, list := NextOf(WindowOf(entries, k));
      Store(k, list, Issue, now);
    }

    /** Issues 0 from a new window, else the number after the head. */
    method NextOf(list: Numbers) returns (seqNum: nat, next: Numbers)
      requires 2 <= windowSize <= 255 && (list == [] || InUse(list, windowSize))
      ensures seqNum == NextAfter(list) && next == AddSn(list, windowSize, seqNum)
      ensures next != [] && Head(next) == seqNum
    {
      if list == [] {
        seqNum, next := 0, AddSn([], windowSize, 0);
      } else {
        IssueBecomesHead(list, windowSize);
        next := AddSn(list, windowSize, Wire(Head(list) + 1));
        seqNum := Head(next);
      }
    }

    /** rl_add_seq. */
    method AddSeq(src: Addr, dest: Addr, seqNum: nat, now: int)
      requires Valid() && IsSeq(seqNum)
      modifies this
      ensures Valid() && (src, dest) in entries && entries[(src, dest)] != []
      ensures entries[(src, dest)] == AddSn(WindowOf(old(entries), (src, dest)), windowSize, seqNum)
      ensures State() == Touched(windowSize, old(State()), (src, dest), Record(seqNum), now)
      ensures var k := (src, dest);
              entries - {k} == old(entries) - {k} - Lapsed(Add(old(ts), HoldUntil(windowSize, now), k), now)
    {
      var k := (src, dest);
      Store(k, AddSn(WindowOf(entries, k), windowSize, seqNum), Record(seqNum), now);
    }

    /** rl_check_seq: whether the number is in the pair's unexpired window. */
    method CheckSeq(src: Addr, dest: Addr, seqNum: nat, now: int) returns (known: bool)
      requires Valid()
      modifies this
      ensures Valid() && State() == Purged(old(State()), now) && entries == old(entries) - Lapsed(old(ts), now)
      ensures known <==> (src, dest) in entries && seqNum in entries[(src, dest)]
      ensures known <==> (src, dest) in log && IsKnown(windowSize, log[(src, dest)], seqNum)
    {
      PurgeTimeslot(now);
      var k := (src, dest);
      if k !in entries {
        return false;
      }
      assert Explains(windowSize, log[k], entries[k]);
      KnownOverRun(windowSize, log[k], seqNum);
      known := Contains(entries[k], seqNum);
    }

    /** The loop from the head down. */
    method Contains(list: Numbers, seqNum: nat) returns (known: bool)
      ensures known <==> seqNum in list
    {
      var i := |list|;
      while i > 0
        invariant 0 <= i <= |list| && seqNum !in list[i..]
      {
        i := i - 1;
        if list[i] == seqNum {
          return true;
        }
      }
      return false;
    }

    /** The duplicate check of olsr_fwd2dest: a number found in the window is dropped, any other is
        recorded and passed on. */
    method PassOn(src: Addr, dest: Addr, seqNum: nat, now: int) returns (pass: bool)
      requires Valid() && IsSeq(seqNum)
      modifies this
      ensures Valid()
      ensures var k, live := (src, dest), old(entries) - Lapsed(old(ts), now);
              (pass <==> !(k in live && seqNum in live[k])) &&
              if pass then k in entries && entries[k] == AddSn(WindowOf(live, k), windowSize, seqNum)
              else entries == live
      ensures var k, s := (src, dest), Purged(old(State()), now);
              (pass <==> !(k in s.log && IsKnown(windowSize, s.log[k], seqNum))) &&
              State() == if pass then Touched(windowSize, s, k, Record(seqNum), now) else s
    {
      var known := CheckSeq(src, dest, seqNum, now);
      if !known {
        AddSeq(src, dest, seqNum, now);
      }
      pass := !known;
    }
  }
}
