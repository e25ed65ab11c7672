/** Seconds-and-microseconds arithmetic. Every deadline of the database is such a value; the other
    modules use its total number of microseconds, which these lemmas justify. */
module Timeval {

  const USEC: int := 1_000_000

  datatype Timeval = Timeval(sec: int, usec: int) {
    predicate IsNormal() {
      0 <= usec < 1_000_000
    }

    function Micros(): int {
      sec * 1_000_000 + usec
    }
  }

  function CompareTv(a: Timeval, b: Timeval): int {
    if a == b then 0
    else if a.sec > b.sec then 1
    else if b.sec > a.sec then -1
    else if a.usec > b.usec then 1
    else -1
  }

  /** On normalised values the comparison is that of the microsecond totals. */
  lemma CompareIsOnMicros(a: Timeval, b: Timeval)
    requires a.IsNormal() && b.IsNormal()
    ensures CompareTv(a, b) == 0 <==> a.Micros() == b.Micros()
    ensures CompareTv(a, b) > 0 <==> a.Micros() > b.Micros()
    ensures CompareTv(a, b) < 0 <==> a.Micros() < b.Micros()
  {
  }

  /** A struct timeval in memory: sum and difference are written through a pointer that callers let
      alias an operand. */
  class Cell {
    var sec: int
    var usec: int

    function Value(): Timeval
      reads this
    {
      Timeval(sec, usec)
    }

    constructor (v: Timeval)
      ensures Value() == v
    {
      sec, usec := v.sec, v.usec;
    }
  }

  /** Adds also when `sum` is one of the operands. */
  method AddTv(tv1: Cell, tv2: Cell, sum: Cell)
    requires tv1.Value().IsNormal() && tv2.Value().IsNormal()
    modifies sum
    ensures sum.Value().IsNormal()
    ensures sum.Value().Micros() == old(tv1.Value().Micros()) + old(tv2.Value().Micros())
  {
    sum.sec := tv1.sec + tv2.sec;
    var usecSum := tv1.usec + tv2.usec;
    if usecSum >= USEC {
      sum.sec := sum.sec + 1;
      sum.usec := usecSum - USEC;
    } else {
      sum.usec := usecSum;
    }
  }

  /** Subtracts also when `diff` is one of the operands. */
  method DiffTv(tv1: Cell, tv2: Cell, diff: Cell)
    requires tv1.Value().IsNormal() && tv2.Value().IsNormal()
    modifies diff
    ensures diff.Value().IsNormal()
    ensures diff.Value().Micros() == old(tv1.Value().Micros()) - old(tv2.Value().Micros())
  {
    diff.sec := tv1.sec - tv2.sec;
    var usecDiff := tv1.usec - tv2.usec;
    if usecDiff < 0 {
      diff.sec := diff.sec - 1;
      diff.usec := usecDiff + USEC;
    } else {
      diff.usec := usecDiff;
    }
  }
}
