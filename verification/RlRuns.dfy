/** Numbering and duplicate detection over whole runs of the table: with its times, and with whatever
    other pairs do in between. */
module RlRuns {
  import opened Basics
  import opened Queues
  import opened SeqNumbers
  import opened WindowSpec
  import opened RlSeq

  /** An operation of the table: a number is issued or recorded for a pair, or somebody asks. */
  datatype TableOp = Used(key: Key, op: RlSeq.Op, at: int) | Asked(at: int)

  predicate TableOpsOk(ops: seq<TableOp>) {
    forall i :: 0 <= i < |ops| && ops[i].Used? ==> OpsOk([ops[i].op])
  }

  function RunTable(ws: nat, ops: seq<TableOp>): TableState {
    if ops == [] then TableState(map[], [])
    else
      var s := RunTable(ws, ops[..|ops| - 1]);
      match ops[|ops| - 1]
      case Used(k, op, now) => Touched(ws, s, k, op, now)
      case Asked(now) => Purged(s, now)
  }

  // ---------------------------------------------------------------- one pair's life

  /** What one pair's entry has been through, and when it expires. */
  datatype Life = Life(log: seq<RlSeq.Op>, due: int)

  function Survives(l: Option<Life>, now: int): Option<Life> {
    if l.Some? && l.value.due > now then l else None
  }

  predicate Uses(op: TableOp, k: Key) {
    op.Used? && op.key == k
  }

  /** One pair's entry without a queue: its own uses add to it and renew it, whether or not it was due;
      any other operation ends it if it is due. */
  function LifeOf(ws: nat, ops: seq<TableOp>, k: Key): Option<Life> {
    if ops == [] then None
    else
      var before, op := LifeOf(ws, ops[..|ops| - 1], k), ops[|ops| - 1];
      if Uses(op, k) then Some(Life((if before.Some? then before.value.log else []) + [op.op], HoldUntil(ws, op.at)))
      else Survives(before, op.at)
  }

  /** The table holds one pair's life. */
  ghost predicate Holds(s: TableState, k: Key, l: Option<Life>) {
    WellFormed(s.ts) &&
    if l.None? then k !in s.log && Due(s.ts, k) == None
    else k in s.log && s.log[k] == l.value.log && Due(s.ts, k) == Some(l.value.due)
  }

  lemma TouchedHolds(ws: nat, s: TableState, j: Key, op: RlSeq.Op, now: int, k: Key, l: Option<Life>)
    requires ws > 0 && Holds(s, k, l)
    ensures Holds(Touched(ws, s, j, op, now), k,
                  if j == k then Some(Life((if l.Some? then l.value.log else []) + [op], HoldUntil(ws, now)))
                  else Survives(l, now))
  {
    var q := Add(s.ts, HoldUntil(ws, now), j);
    QueueIsMap(s.ts, HoldUntil(ws, now), j, now, k);
    QueueIsMap(q, 0, j, now, k);
    LapsedIsDue(q, now, k);
  }

  lemma PurgedHolds(s: TableState, now: int, k: Key, l: Option<Life>)
    requires Holds(s, k, l)
    ensures Holds(Purged(s, now), k, Survives(l, now))
  {
    QueueIsMap(s.ts, 0, k, now, k);
    LapsedIsDue(s.ts, now, k);
  }

  /** The table with its one queue is each pair's life on its own. */
  lemma {:induction false} TableHoldsLives(ws: nat, ops: seq<TableOp>, k: Key)
    requires ws > 0
    ensures Holds(RunTable(ws, ops), k, LifeOf(ws, ops, k))
    decreases |ops|
  {
    if ops != [] {
      var before, op := ops[..|ops| - 1], ops[|ops| - 1];
      TableHoldsLives(ws, before, k);
      match op
      case Used(j, o, now) => TouchedHolds(ws, RunTable(ws, before), j, o, now, k, LifeOf(ws, before, k));
      case Asked(now) => PurgedHolds(RunTable(ws, before), now, k, LifeOf(ws, before, k));
    }
  }

  /** What a query at `now` after a run answers for wire number `w` of pair `k`. */
  ghost predicate Answers(ws: nat, ops: seq<TableOp>, k: Key, w: nat, now: int) {
    var s := Purged(RunTable(ws, ops), now);
    k in s.log && IsKnown(ws, s.log[k], w)
  }

  /** It is yes exactly if the entry has not expired and the number is known to its history. */
  lemma QueryIsPlain(ws: nat, ops: seq<TableOp>, k: Key, w: nat, now: int)
    requires ws > 0
    ensures var l := Survives(LifeOf(ws, ops, k), now);
            Answers(ws, ops, k, w, now) <==> l.Some? && IsKnown(ws, l.value.log, w)
  {
    TableHoldsLives(ws, ops, k);
    PurgedHolds(RunTable(ws, ops), now, k, LifeOf(ws, ops, k));
  }

  // ---------------------------------------------------------------- duplicates stay known

  /** The time of the last use of `k`. */
  function LastUse(ops: seq<TableOp>, k: Key): Option<int> {
    if ops == [] then None
    else if Uses(ops[|ops| - 1], k) then Some(ops[|ops| - 1].at)
    else LastUse(ops[..|ops| - 1], k)
  }

  /** After step `i`, which used `k`, nothing but uses of `k` happened later than the hold time after
      its last use. */
  ghost predicate KeptAlive(ws: nat, ops: seq<TableOp>, k: Key, i: nat) {
    i < |ops| && Uses(ops[i], k) &&
    forall j :: i < j < |ops| && !Uses(ops[j], k) ==>
      LastUse(ops[..j], k).Some? && ops[j].at < HoldUntil(ws, LastUse(ops[..j], k).value)
  }

  /** Then the entry lives on with all its history. */
  lemma {:induction false} EntryLivesOn(ws: nat, ops: seq<TableOp>, k: Key, i: nat)
    requires KeptAlive(ws, ops, k, i)
    ensures var l, was := LifeOf(ws, ops, k), LifeOf(ws, ops[..i + 1], k);
            l.Some? && was.Some? && was.value.log != [] && was.value.log <= l.value.log &&
            LastUse(ops, k).Some? && l.value.due == HoldUntil(ws, LastUse(ops, k).value)
    decreases |ops|
  {
    var before := ops[..|ops| - 1];
    if i == |ops| - 1 {
      assert ops[..i + 1] == ops;
    } else {
      assert before[..i + 1] == ops[..i + 1];
      forall j | i < j < |before| && !Uses(before[j], k)
        ensures LastUse(before[..j], k).Some? && before[j].at < HoldUntil(ws, LastUse(before[..j], k).value)
      {
        assert before[..j] == ops[..j];
      }
      EntryLivesOn(ws, before, k, i);
      assert !Uses(ops[|ops| - 1], k) ==> LastUse(ops[..|ops| - 1], k).Some?;
    }
  }

  /** Histories are made of operations the code can receive. */
  lemma {:induction false} LifeIsOk(ws: nat, ops: seq<TableOp>, k: Key)
    requires TableOpsOk(ops) && LifeOf(ws, ops, k).Some?
    ensures OpsOk(LifeOf(ws, ops, k).value.log)
    decreases |ops|
  {
    var before, op := ops[..|ops| - 1], ops[|ops| - 1];
    if LifeOf(ws, before, k).Some? {
      LifeIsOk(ws, before, k);
    }
    if Uses(op, k) {
      assert OpsOk([op.op]);
      assert [op.op][0] == op.op;
    }
  }

  /** The number, unbounded, that step `i` issued or recorded for `k`. */
  function NumberUsed(ws: nat, ops: seq<TableOp>, k: Key, i: nat): int
    requires i < |ops| && TableOpsOk(ops) && Uses(ops[i], k)
  {
    UsedIsOk(ws, ops, k, i);
    LastNumber(ws, LifeOf(ws, ops[..i + 1], k).value.log)
  }

  lemma UsedIsOk(ws: nat, ops: seq<TableOp>, k: Key, i: nat)
    requires i < |ops| && TableOpsOk(ops) && Uses(ops[i], k)
    ensures var l := LifeOf(ws, ops[..i + 1], k); l.Some? && l.value.log != [] && OpsOk(l.value.log)
  {
    assert forall j :: 0 <= j < i + 1 ==> ops[..i + 1][j] == ops[j];
    LifeIsOk(ws, ops[..i + 1], k);
  }

  /** Duplicate detection over runs with times: a number issued or recorded for a pair is known, whatever
      happens for this and other pairs, until the head has moved a whole window past it or the pair has
      gone unused for its hold time. */
  lemma TableStaysKnown(ws: nat, ops: seq<TableOp>, k: Key, i: nat, now: int)
    requires 2 <= ws <= 255 && TableOpsOk(ops) && KeptAlive(ws, ops, k, i)
    requires LastUse(ops, k).Some? && now < HoldUntil(ws, LastUse(ops, k).value)
    ensures var l := LifeOf(ws, ops, k);
            l.Some? && l.value.log != [] && OpsOk(l.value.log) &&
            (TopOf(ws, l.value.log) < NumberUsed(ws, ops, k, i) + ws ==>
              Answers(ws, ops, k, Wire(NumberUsed(ws, ops, k, i)), now))
  {
    EntryLivesOn(ws, ops, k, i);
    LifeIsOk(ws, ops, k);
    UsedIsOk(ws, ops, k, i);
    var log, was := LifeOf(ws, ops, k).value.log, LifeOf(ws, ops[..i + 1], k).value.log;
    assert log[..|was|] == was;
    assert NumberAt(ws, log, |was| - 1) == NumberUsed(ws, ops, k, i);
    QueryIsPlain(ws, ops, k, Wire(NumberUsed(ws, ops, k, i)), now);
  }

  /** Nothing but uses of other pairs, and queries, follow step `i`, up to `now`. */
  predicate IsLastUse(ops: seq<TableOp>, k: Key, i: nat, now: int) {
    i < |ops| && Uses(ops[i], k) && forall j :: i < j < |ops| ==> !Uses(ops[j], k) && ops[j].at <= now
  }

  lemma {:induction false} LastUseIs(ws: nat, ops: seq<TableOp>, k: Key, i: nat, now: int)
    requires IsLastUse(ops, k, i, now)
    ensures LastUse(ops, k) == Some(ops[i].at)
    ensures LifeOf(ws, ops, k).Some? ==> LifeOf(ws, ops, k).value.due == HoldUntil(ws, ops[i].at)
    decreases |ops|
  {
    if i < |ops| - 1 {
      LastUseIs(ws, ops[..|ops| - 1], k, i, now);
    }
  }

  /** In microseconds: after its last use a pair is known for as many seconds as its window has numbers,
      and no longer. Until then the number recorded there is answered for, while the head is less than a
      window past it; from then on no number is. */
  lemma LastUseHolds(ws: nat, ops: seq<TableOp>, k: Key, i: nat, now: int, w: nat)
    requires 2 <= ws <= 255 && TableOpsOk(ops) && IsLastUse(ops, k, i, now)
    ensures k in Purged(RunTable(ws, ops), now).log <==> now < ops[i].at + ws * 1_000_000
    ensures now >= ops[i].at + ws * 1_000_000 ==> !Answers(ws, ops, k, w, now)
    ensures now < ops[i].at + ws * 1_000_000 && ops[i].op == Record(w) ==>
              var l := LifeOf(ws, ops, k);
              l.Some? && l.value.log != [] && OpsOk(l.value.log) &&
              (TopOf(ws, l.value.log) < NumberUsed(ws, ops, k, i) + ws ==> Answers(ws, ops, k, w, now))
  {
    LastUseIs(ws, ops, k, i, now);
    TableHoldsLives(ws, ops, k);
    PurgedHolds(RunTable(ws, ops), now, k, LifeOf(ws, ops, k));
    if now < ops[i].at + ws * 1_000_000 {
      forall j | i < j < |ops|
        ensures LastUse(ops[..j], k).Some? && ops[j].at < HoldUntil(ws, LastUse(ops[..j], k).value)
      {
        LastUseIs(ws, ops[..j], k, i, now);
      }
      EntryLivesOn(ws, ops, k, i);
      TableStaysKnown(ws, ops, k, i, now);
      UsedNumberIsSent(ws, ops, k, i);
    }
  }

  function LifeIn(s: TableState, k: Key): Option<Life> {
    if k in s.log && Due(s.ts, k).Some? then Some(Life(s.log[k], Due(s.ts, k).value)) else None
  }

  /** A packet that passes the duplicate check, and a copy of it with the same number at `now`: for a new
      pair the copy passes exactly from as many seconds later on as the window has numbers; for another
      one also if the number was a window or more behind its head. */
  method PassTwice(table: RlTable, src: Addr, dest: Addr, seqNum: nat, at: int, now: int)
      returns (first: bool, second: bool)
    requires table.Valid() && IsSeq(seqNum) && at <= now
    modifies table
    ensures table.Valid()
    ensures var log := LogOf(Purged(old(table.State()), at).log, (src, dest));
            first ==> (second <==> now >= at + table.windowSize * 1_000_000 ||
                                   IsTooOld(table.windowSize, log, seqNum))
  {
    ghost var ws, k, s0 := table.windowSize, (src, dest), table.State();
    TableHolds(table, k);
    first := PassLogged(table, src, dest, seqNum, at);
    ghost var s1 := table.State();
    second := PassLogged(table, src, dest, seqNum, now);
    if first {
      CopyIsKnown(ws, s0, k, seqNum, at, now, s1);
    }
  }

  /** The number is known to the pair's entry. */
  ghost predicate Knows(ws: nat, s: TableState, k: Key, w: nat) {
    k in s.log && IsKnown(ws, s.log[k], w)
  }

  /** The duplicate check, as far as the histories of the pairs show. */
  method PassLogged(table: RlTable, src: Addr, dest: Addr, seqNum: nat, now: int) returns (pass: bool)
    requires table.Valid() && IsSeq(seqNum)
    modifies table
    ensures table.Valid()
    ensures var k, s := (src, dest), Purged(old(table.State()), now);
            (pass <==> !Knows(table.windowSize, s, k, seqNum)) &&
            table.State() == if pass then Touched(table.windowSize, s, k, Record(seqNum), now) else s
  {
    pass := table.PassOn(src, dest, seqNum, now);
  }

  lemma TableHolds(table: RlTable, k: Key)
    requires table.Valid()
    ensures Holds(table.State(), k, LifeIn(table.State(), k)) && OpsOk(LogOf(table.State().log, k))
  {
    if k in table.log {
      assert Explains(table.windowSize, table.log[k], table.entries[k]);
    }
  }

  /** Packets were counted, and the number is a window or more behind the head. */
  ghost predicate IsTooOld(ws: nat, log: seq<RlSeq.Op>, w: nat) {
    log != [] && SeqComp(HeadOr0(RunOps(ws, log)), Wire(w + ws)) >= 0
  }

  lemma CopyIsKnown(ws: nat, s0: TableState, k: Key, w: nat, at: int, now: int, s: TableState)
    requires 2 <= ws <= 255 && IsSeq(w) && at <= now && Holds(s0, k, LifeIn(s0, k))
    requires OpsOk(LogOf(s0.log, k)) && !Knows(ws, Purged(s0, at), k, w)
    requires s == Touched(ws, Purged(s0, at), k, Record(w), at)
    ensures Knows(ws, Purged(s, now), k, w) <==>
            now < at + ws * 1_000_000 && !IsTooOld(ws, LogOf(Purged(s0, at).log, k), w)
  {
    var l := Survives(LifeIn(s0, k), at);
    PurgedHolds(s0, at, k, LifeIn(s0, k));
    TouchedHolds(ws, Purged(s0, at), k, Record(w), at, k, l);
    var log := LogOf(Purged(s0, at).log, k);
    PurgedHolds(s, now, k, Some(Life(log + [Record(w)], HoldUntil(ws, at))));
    RepeatIsDropped(ws, log, w);
  }

  /** The wire form of the number a step used is the one that was recorded, or handed out. */
  lemma UsedNumberIsSent(ws: nat, ops: seq<TableOp>, k: Key, i: nat)
    requires 2 <= ws <= 255 && i < |ops| && TableOpsOk(ops) && Uses(ops[i], k)
    ensures var before := LifeOf(ws, ops[..i], k);
            Wire(NumberUsed(ws, ops, k, i)) ==
            Offered(RunOps(ws, if before.Some? then before.value.log else []), ops[i].op)
  {
    UsedIsOk(ws, ops, k, i);
    assert ops[..i + 1] == ops[..i] + [ops[i]];
    LifeGrows(ws, ops[..i], ops[i], k);
    var log := LifeOf(ws, ops[..i + 1], k).value.log;
    var was := log[..|log| - 1];
    assert log == was + [ops[i].op] && log[|log| - 1] == ops[i].op;
    assert OpsOk(was) && OpsOk([ops[i].op]);
    LastNumberIsOffered(ws, was, ops[i].op);
  }

  lemma LastNumberIsOffered(ws: nat, ops: seq<RlSeq.Op>, op: RlSeq.Op)
    requires 2 <= ws <= 255 && OpsOk(ops) && OpsOk(ops + [op]) && OpsOk([op])
    ensures Wire(LastNumber(ws, ops + [op])) == Offered(RunOps(ws, ops), op)
  {
    assert [op][0] == op;
    LastNumberIs(ws, ops, op);
    if ops != [] {
      assert RunOps(ws, ops) != [] && Head(RunOps(ws, ops)) == Wire(TopOf(ws, ops)) by {
        RunIsWindowOfAll(ws, ops);
      }
      NextIsOffered(ws, RunOps(ws, ops), TopOf(ws, ops), op);
    }
  }

  lemma LastNumberIs(ws: nat, ops: seq<RlSeq.Op>, op: RlSeq.Op)
    requires OpsOk(ops) && OpsOk(ops + [op]) && (op.Record? ==> IsSeq(op.w))
    ensures LastNumber(ws, ops + [op]) ==
            if ops == [] then (if op.Issue? then 0 else op.w)
            else if op.Issue? then TopOf(ws, ops) + 1 else Lift(TopOf(ws, ops), ws, op.w)
  {
    assert (ops + [op])[..|ops|] == ops && (ops + [op])[|ops|] == op;
  }

  lemma NextIsOffered(ws: nat, list: Numbers, top: int, op: RlSeq.Op)
    requires list != [] && Head(list) == Wire(top) && (op.Record? ==> IsSeq(op.w))
    ensures Wire(if op.Issue? then top + 1 else Lift(top, ws, op.w)) == Offered(list, op)
  {
    if op.Issue? {
      WireOfSum(top, 1);
    } else {
      LiftHasWire(top, ws, op.w);
    }
  }

  /** A packet whose number was just offered is known exactly if it was known before, or the pair is new,
      or the number is less than a window behind the head. */
  lemma RepeatIsDropped(ws: nat, ops: seq<RlSeq.Op>, w: nat)
    requires 2 <= ws <= 255 && OpsOk(ops) && IsSeq(w)
    ensures IsKnown(ws, ops + [Record(w)], w) <==>
            IsKnown(ws, ops, w) || ops == [] || SeqComp(HeadOr0(RunOps(ws, ops)), Wire(w + ws)) < 0
  {
    var more, list := ops + [Record(w)], RunOps(ws, ops);
    RunOpsGrows(ws, ops, Record(w));
    KnownOverRun(ws, ops, w);
    KnownOverRun(ws, more, w);
    if ops != [] {
      RunIsWindowOfAll(ws, ops);
      if w in list {
        KnownStaysKnown(list, ws, w);
      } else {
        assert IsLargest(AllNumbers(ws, ops), TopOf(ws, ops));
        RepeatIsKnown(list, ws, w);
      }
    }
  }

  function HeadOr0(list: Numbers): nat {
    if list == [] then 0 else Head(list)
  }

  lemma KnownStaysKnown(list: Numbers, ws: nat, w: nat)
    requires 2 <= ws <= 255 && IsSeq(w) && InUse(list, ws) && w in list
    ensures w in AddSn(list, ws, w)
  {
    var received :| received != {} && Represents(list, ws, received);
    var top := HeadIsTop(list, ws, received);
    InWindowIsWire(list, ws, received, w);
    KnownIsInWindow(list, ws, received, top, w);
    var y :| y in received && top - ws < y && Wire(y) == Wire(w);
    RecordNear(list, ws, received, top, y);
    KnownIsInWindow(AddSn(list, ws, w), ws, received + {y}, top, y);
  }

  // ---------------------------------------------------------------- an entry found expired

  /** Recording `w` leaves nothing of the window but `w`. */
  predicate StartsOver(list: Numbers, ws: nat, w: nat) {
    list == [w] || (list != [] && SeqComp(Head(list), Wire(w + ws)) < 0 && SeqComp(w, Wire(Head(list) + ws)) >= 0)
  }

  /** Numbers are issued and recorded without purging first, so an entry may be found that has expired
      unnoticed. Its numbering then goes on where it stood instead of at 0, always; a recorded number
      leaves the window of a new entry exactly if it is a window or more ahead, or the only one there. */
  lemma ExpiredEntryMatters(ws: nat, list: Numbers, op: RlSeq.Op)
    requires 2 <= ws <= 255 && InUse(list, ws) && OpsOk([op])
    ensures list != []
    ensures AddSn(list, ws, Offered(list, op)) == AddSn([], ws, Offered([], op)) <==>
            op.Record? && StartsOver(list, ws, op.w)
  {
    var received :| received != {} && Represents(list, ws, received);
    var top := HeadIsTop(list, ws, received);
    assert [op][0] == op;
    FirstIsAlone(ws, Offered([], op));
    if op.Issue? {
      ExpiredIssue(list, ws, received, top);
    } else {
      RecordStartsOver(list, ws, received, top, op.w);
    }
  }

  lemma ExpiredIssue(list: Numbers, ws: nat, received: set<int>, top: int)
    requires 2 <= ws <= 255 && Represents(list, ws, received) && IsLargest(received, top)
    ensures AddSn(list, ws, Offered(list, Issue)) != [0]
  {
    NextBecomesHead(list, ws, received, top);
    IssueIsNotFirst(list, ws, received, top);
  }

  lemma IssueIsNotFirst(list: Numbers, ws: nat, received: set<int>, top: int)
    requires 2 <= ws <= 255 && IsLargest(received, top) && list != []
    requires Represents(AddSn(list, ws, Wire(Head(list) + 1)), ws, received + {top + 1})
    ensures AddSn(list, ws, Offered(list, Issue)) != [0]
  {
    TwoAreKept(AddSn(list, ws, Wire(Head(list) + 1)), ws, received, top);
  }

  lemma FirstIsAlone(ws: nat, w: nat)
    requires 2 <= ws <= 255
    ensures AddSn([], ws, w) == [w]
  {
  }

  /** A window that the number after the head has joined holds both. */
  lemma TwoAreKept(r: Numbers, ws: nat, received: set<int>, top: int)
    requires 2 <= ws <= 255 && IsLargest(received, top) && Represents(r, ws, received + {top + 1})
    ensures r != [0]
  {
    KnownIsInWindow(r, ws, received + {top + 1}, top + 1, top);
    KnownIsInWindow(r, ws, received + {top + 1}, top + 1, top + 1);
    WireOfDifference(top, top + 1);
  }

  lemma RecordStartsOver(list: Numbers, ws: nat, received: set<int>, top: int, w: nat)
    requires 2 <= ws <= 255 && IsSeq(w) && Represents(list, ws, received) && IsLargest(received, top)
    requires list != [] && Head(list) == Wire(top)
    ensures AddSn(list, ws, w) == [w] <==> StartsOver(list, ws, w)
  {
    var x := Lift(top, ws, w);
    RecordLifts(list, ws, received, top, w);
    StartsOverLifts(list, ws, top, x);
    if top < x + ws {
      if x == top {
        KnownOnly(list, ws, received, top);
      } else {
        OnlyOneLeft(AddSn(list, ws, w), ws, received, top, x);
        DifferentWires(top, x);
      }
    }
  }

  /** In unbounded numbers: one window ahead, or the only one there. */
  lemma StartsOverLifts(list: Numbers, ws: nat, top: int, x: int)
    requires 2 <= ws <= 255 && list != [] && Head(list) == Wire(top) && Fits(top, ws, x)
    ensures SeqComp(Head(list), Wire(Wire(x) + ws)) < 0 <==> top < x + ws
    ensures StartsOver(list, ws, Wire(x)) <==> list == [Wire(x)] || x >= top + ws
  {
    WireOfSum(x, ws);
    CompLifts(top, x + ws);
    if top < x + ws {
      WireOfSum(top, ws);
      CompLifts(x, top + ws);
    }
  }

  /** What a window holds after `x` was recorded that is not too old. */
  lemma OnlyOneLeft(r: Numbers, ws: nat, received: set<int>, top: int, x: int)
    requires 2 <= ws <= 255 && Represents(r, ws, received + {x}) && IsLargest(received, top)
    requires Fits(top, ws, x) && top < x + ws && x != top
    ensures r == [Wire(x)] <==> x >= top + ws
  {
    if x >= top + ws {
      OnlyNewest(r, ws, received + {x}, x);
    } else {
      var newest := if x > top then x else top;
      KnownIsInWindow(r, ws, received + {x}, newest, top);
      KnownIsInWindow(r, ws, received + {x}, newest, x);
      DifferentWires(top, x);
    }
  }

  lemma DifferentWires(x: int, y: int)
    requires x != y && -65536 < x - y < 65536
    ensures Wire(x) != Wire(y)
  {
    WireOfDifference(x, y);
  }

  /** Recording the head again changes nothing. */
  lemma KnownOnly(list: Numbers, ws: nat, received: set<int>, top: int)
    requires 2 <= ws <= 255 && Represents(list, ws, received) && IsLargest(received, top)
    ensures AddSn(list, ws, Wire(top)) == list
  {
    var l :| IsWindowOf(l, ws, received) && list == WireAll(l);
    assert Top(l) == top by { assert Top(l) in l; }
    forall j | 0 <= j < |l| ensures top - ws < l[j] <= top { assert l[j] in l; }
    AddFollows(l, ws, top);
    assert top in l;
  }

  /** A window all of whose other numbers are a window or more behind holds just the newest. */
  lemma OnlyNewest(list: Numbers, ws: nat, received: set<int>, x: int)
    requires ws > 0 && Represents(list, ws, received) && IsLargest(received, x)
    requires forall y :: y in received && y != x ==> y <= x - ws
    ensures list == [Wire(x)]
  {
    var l :| IsWindowOf(l, ws, received) && list == WireAll(l);
    assert Top(l) == x by { assert Top(l) in l; }
    forall j | 0 <= j < |l| ensures l[j] == x { assert l[j] in l; }
    IncreasingSpread(l);
  }

  /** In the table: an entry `k` that has expired unnoticed is used again. Everything else, and every
      entry that has not expired, is as if the table had been purged first. */
  lemma ExpiredPairMatters(ws: nat, s: TableState, k: Key, op: RlSeq.Op, now: int, l: Life)
    requires 2 <= ws <= 255 && OpsOk([op]) && OpsOk(l.log) && l.log != []
    requires Holds(s, k, Some(l)) && l.due <= now
    ensures var lazy, eager := Touched(ws, s, k, op, now), Touched(ws, Purged(s, now), k, op, now);
            k in lazy.log && k in eager.log && lazy.log[k] == l.log + [op] && eager.log[k] == [op] &&
            (RunOps(ws, lazy.log[k]) == RunOps(ws, eager.log[k]) <==>
             op.Record? && StartsOver(RunOps(ws, l.log), ws, op.w))
  {
    TouchedHolds(ws, s, k, op, now, k, Some(l));
    PurgedHolds(s, now, k, Some(l));
    TouchedHolds(ws, Purged(s, now), k, op, now, k, None);
    assert [] + [op] == [op];
    RunOpsGrows(ws, l.log, op);
    RunOpsGrows(ws, [], op);
    RunIsWindowOfAll(ws, l.log);
    assert IsLargest(AllNumbers(ws, l.log), TopOf(ws, l.log));
    ExpiredEntryMatters(ws, RunOps(ws, l.log), op);
  }

  lemma LivePairsSeeNothing(ws: nat, s: TableState, j: Key, op: RlSeq.Op, now: int, k: Key, l: Option<Life>)
    requires ws > 0 && Holds(s, k, l) && (k != j || l == Survives(l, now))
    ensures var r := if j == k then Some(Life((if l.Some? then l.value.log else []) + [op], HoldUntil(ws, now)))
                     else Survives(l, now);
            Holds(Touched(ws, s, j, op, now), k, r) && Holds(Touched(ws, Purged(s, now), j, op, now), k, r)
  {
    TouchedHolds(ws, s, j, op, now, k, l);
    PurgedHolds(s, now, k, l);
    TouchedHolds(ws, Purged(s, now), j, op, now, k, Survives(l, now));
  }

  /** A pair whose entry expired a window ago, with nothing happening in between, is issued 1, not 0. */
  lemma NumberingGoesOn(k: Key)
    ensures var ops := [Used(k, Issue, 0), Used(k, Issue, HoldUntil(50, 0))];
            LifeOf(50, ops, k) == Some(Life([Issue, Issue], HoldUntil(50, ops[1].at))) &&
            Survives(LifeOf(50, ops[..1], k), ops[1].at) == None && NumberUsed(50, ops, k, 1) == 1
  {
    var first, second := Used(k, Issue, 0), Used(k, Issue, HoldUntil(50, 0));
    LifeGrows(50, [], first, k);
    LifeGrows(50, [first], second, k);
    assert [] + [first] == [first] && [first] + [second] == [first, second];
    assert [first, second][..1] == [first] && [first, second][..2] == [first, second];
    assert [] + [Issue] == [Issue] && [Issue] + [Issue] == [Issue, Issue];
    SecondIssue(50);
  }

  lemma SecondIssue(ws: nat)
    ensures LastNumber(ws, [Issue, Issue]) == 1
  {
    assert [Issue, Issue][..1] == [Issue];
    assert LastNumber(ws, [Issue]) == 0 == TopOf(ws, [Issue]);
  }

  lemma LifeGrows(ws: nat, ops: seq<TableOp>, op: TableOp, k: Key)
    ensures LifeOf(ws, ops + [op], k) ==
            var before := LifeOf(ws, ops, k);
            if Uses(op, k)
            then Some(Life((if before.Some? then before.value.log else []) + [op.op], HoldUntil(ws, op.at)))
            else Survives(before, op.at)
  {
    assert (ops + [op])[..|ops|] == ops;
  }
}
