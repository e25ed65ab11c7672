/** 16-bit sequence numbers under the circular comparator, and their lift to the integers. */
module SeqNumbers {

  const SEQ_RANGE: int := 0x1_0000
  const SEQNO_MAX: int := SEQ_RANGE - 1

  /** A number as it travels: the low 16 bits. */
  function Wire(x: int): (w: nat)
    ensures w < SEQ_RANGE
  {
    x % SEQ_RANGE
  }

  predicate IsSeq(x: int) {
    0 <= x < SEQ_RANGE
  }

  /** hf_seq_comp_i_j on 16-bit arguments: 0 on equality, 1 when `i` is ahead by less than half the
      circle, else -1. */
  function SeqComp(i: nat, j: nat): int
  {
    if i == j then 0
    else if Wire(i - j) < SEQNO_MAX / 2 then 1
    else -1
  }

  function Sign(x: int): int {
    if x > 0 then 1 else if x < 0 then -1 else 0
  }

  lemma WireOfDifference(x: int, y: int)
    ensures Wire(Wire(x) - Wire(y)) == Wire(x - y)
    ensures Wire(x) == Wire(y) <==> Wire(x - y) == 0
  {
    var a, b := x / SEQ_RANGE, y / SEQ_RANGE;
    assert x == a * SEQ_RANGE + Wire(x) && y == b * SEQ_RANGE + Wire(y);
    assert x - y == (a - b) * SEQ_RANGE + (Wire(x) - Wire(y));
  }

  /** What the comparator says about the wire forms of two integers, for every pair: it depends on
      the difference modulo 2^16 alone. */
  lemma CompOfDifference(x: int, y: int)
    ensures SeqComp(Wire(x), Wire(y)) ==
            (if Wire(x - y) == 0 then 0 else if Wire(x - y) <= 32766 then 1 else -1)
  {
    WireOfDifference(x, y);
  }

  /** The comparator lifts: on integers at most 32766 apart it is the sign of their difference. It
      still says "behind" for `x` up to 32769 behind `y`, and within one turn of the circle it is the
      sign nowhere else. */
  lemma CompLifts(x: int, y: int)
    ensures -32769 <= x - y <= 32766 ==> SeqComp(Wire(x), Wire(y)) == Sign(x - y)
    ensures -SEQ_RANGE < x - y < SEQ_RANGE && SeqComp(Wire(x), Wire(y)) == Sign(x - y) ==> -32769 <= x - y <= 32766
  {
    CompOfDifference(x, y);
  }

  /** A number judged behind another trails it by 1 to 32769 around the circle. */
  lemma BehindIsAhead(i: nat, j: nat)
    requires IsSeq(i) && IsSeq(j)
    ensures SeqComp(i, j) < 0 <==> 1 <= Wire(j - i) <= 32769
  {
    CompOfDifference(i, j);
  }

  /** Antisymmetry fails exactly at circular differences 32767, 32768 and 32769, where each number
      counts as behind the other. */
  lemma CompAntisymmetry(i: nat, j: nat)
    requires IsSeq(i) && IsSeq(j)
    ensures SeqComp(i, j) == -SeqComp(j, i) <==> Wire(i - j) !in {32767, 32768, 32769}
    ensures Wire(i - j) in {32767, 32768, 32769} ==> SeqComp(i, j) == SeqComp(j, i) == -1
  {
    CompOfDifference(i, j);
    CompOfDifference(j, i);
  }

  /** On any three numbers whose lifts span at most 32766 the comparator is transitive; on the whole
      circle it is not. */
  lemma CompIsOrderOnSpan(x: int, y: int, z: int)
    requires -32766 <= x - y <= 32766 && -32766 <= y - z <= 32766 && -32766 <= x - z <= 32766
    ensures SeqComp(Wire(x), Wire(y)) >= 0 && SeqComp(Wire(y), Wire(z)) >= 0 ==> SeqComp(Wire(x), Wire(z)) >= 0
    ensures SeqComp(Wire(x), Wire(y)) == -SeqComp(Wire(y), Wire(x))
  {
    CompLifts(x, y);
    CompLifts(y, x);
    CompLifts(y, z);
    CompLifts(x, z);
  }

  /** Two steps ahead in a row are a step ahead exactly when together they make less than half the
      circle. */
  lemma CompIsTransitiveWithinHalf(i: nat, j: nat, k: nat)
    requires IsSeq(i) && IsSeq(j) && IsSeq(k)
    requires SeqComp(i, j) >= 0 && SeqComp(j, k) >= 0
    ensures SeqComp(i, k) >= 0 <==> Wire(i - j) + Wire(j - k) <= 32766
  {
    WireOfGap(i, j);
    WireOfGap(j, k);
    WireOfGap(i, k);
  }

  lemma WireOfGap(i: nat, j: nat)
    requires IsSeq(i) && IsSeq(j)
    ensures Wire(i - j) == if i >= j then i - j else i - j + SEQ_RANGE
  {
  }

  /** So it is not transitive on the whole circle. */
  lemma CompIsNotTransitive()
    ensures SeqComp(60000, 40000) > 0 && SeqComp(40000, 20000) > 0 && SeqComp(60000, 20000) < 0
    ensures Wire(60000 - 40000) + Wire(40000 - 20000) == 40000
  {
  }
}
