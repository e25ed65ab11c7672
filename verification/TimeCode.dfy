/** The one-byte interval code of HELLO and TC headers. Exact reals stand for C floats. */
module TimeCode {

  const C_INV_COEFF: real := 64.0

  function Pow2(n: nat): (p: nat)
    ensures p >= 1
  {
    if n == 0 then 1 else 2 * Pow2(n - 1)
  }

  /** x * (1 << k). */
  function Shift(x: real, k: nat): real {
    if k == 0 then x else 2.0 * Shift(x, k - 1)
  }

  lemma {:induction false} ShiftMultiplies(x: real, k: nat)
    ensures Shift(x, k) == x * Pow2(k) as real
  {
    if k > 0 {
      ShiftMultiplies(x, k - 1);
      assert 2.0 * (x * Pow2(k - 1) as real) == x * (2.0 * Pow2(k - 1) as real);
    }
  }

  lemma {:induction false} ShiftIsMonotone(x: real, y: real, j: nat, k: nat)
    requires 0.0 <= x <= y && j <= k
    ensures 0.0 <= Shift(x, j) <= Shift(y, k)
    ensures x < y ==> Shift(x, j) < Shift(y, k)
    decreases k
  {
    if j > 0 {
      ShiftIsMonotone(x, y, j - 1, k - 1);
    } else if k > 0 {
      ShiftIsMonotone(x, y, 0, k - 1);
    }
  }

  lemma {:induction false} ShiftIsLinear(c: real, x: real, k: nat)
    ensures Shift(c * x, k) == c * Shift(x, k)
  {
    if k > 0 {
      ShiftIsLinear(c, x, k - 1);
      assert 2.0 * (c * Shift(x, k - 1)) == c * (2.0 * Shift(x, k - 1));
    }
  }

  /** hf_parse_time: the high nibble is the mantissa less one, the low nibble the exponent. */
  function ParseTime(code: nat): (t: real)
    requires code < 256
  {
    Shift(1.0 + (code / 16) as real, code % 16) / C_INV_COEFF
  }

  /** Where the halving loop stops, started at `af` with exponent `b`. */
  function Normalise(af: real, b: nat): (r: (real, nat))
    requires af > 0.0
    decreases af.Floor
  {
    if af >= 16.0 then Normalise(af / 2.0, b + 1) else (af, b)
  }

  /** Conversion to an unsigned byte truncates toward zero. */
  function Mantissa(af: real): (a: nat)
    requires 0.0 < af < 16.0
    ensures a <= 14
  {
    if af < 1.0 then 0 else (af - 1.0).Floor
  }

  /** The whole number the code keeps of a mantissa. */
  function Kept(af: real): (w: real)
    requires 0.0 < af < 16.0
    ensures 1.0 <= w <= 15.0
    ensures af >= 1.0 ==> w <= af
    ensures af < w + 1.0
  {
    1.0 + Mantissa(af) as real
  }

  /** The byte for a mantissa and exponent that fit their nibbles. */
  function Pack(a: nat, b: nat): (code: nat)
    requires a <= 15 && b <= 15
    ensures code < 256 && code / 16 == a && code % 16 == b
  {
    a * 16 + b
  }

  /** A split of a number into a mantissa and an exponent, as the halving loop leaves it. */
  ghost predicate IsSplit(x: real, k: nat) {
    0.0 < x < 16.0 && (k > 0 ==> x >= 8.0)
  }

  lemma {:induction false} NormaliseSplits(af: real, b: nat)
    requires af > 0.0
    ensures var r := Normalise(af, b);
            r.1 >= b && IsSplit(r.0, r.1 - b) && Shift(r.0, r.1 - b) == af
    decreases af.Floor
  {
    if af >= 16.0 {
      NormaliseSplits(af / 2.0, b + 1);
    }
  }

  /** The split is the only one with the mantissa in range. */
  lemma {:induction false} NormaliseIsUnique(x: real, k: nat, b: nat)
    requires IsSplit(x, k)
    ensures Shift(x, k) > 0.0
    ensures Normalise(Shift(x, k), b) == (x, b + k)
    decreases k
  {
    if k > 0 {
      ShiftIsMonotone(8.0, x, 0, k - 1);
      NormaliseIsUnique(x, k - 1, b + 1);
    }
  }

  lemma ShiftOf8By16()
    ensures Shift(8.0, 16) == 524288.0
  {
    assert Shift(8.0, 4) == 128.0;
    assert Shift(8.0, 8) == 2048.0;
    assert Shift(8.0, 12) == 32768.0;
  }

  /** Up to 8192 s the exponent fits its nibble. */
  lemma ExponentFits(time: real)
    requires 0.0 < time < 8192.0
    ensures Normalise(time * C_INV_COEFF, 0).1 <= 15
  {
    var r := Normalise(time * C_INV_COEFF, 0);
    NormaliseSplits(time * C_INV_COEFF, 0);
    ShiftOf8By16();
    if r.1 >= 16 {
      ShiftIsMonotone(8.0, r.0, 16, r.1);
    }
  }

  /** The byte hf_sparce_time computes. */
  function Sparce(time: real): (code: nat)
    requires 0.0 < time < 8192.0
    ensures code < 256
  {
    var r := Normalise(time * C_INV_COEFF, 0);
    NormaliseSplits(time * C_INV_COEFF, 0);
    ExponentFits(time);
    Pack(Mantissa(r.0), r.1)
  }

  /** The halving loop. */
  method SparceTime(time: real) returns (code: nat)
    requires 0.0 < time < 8192.0
    ensures code == Sparce(time)
  {
    var af, b := time * C_INV_COEFF, 0;
    while af >= 16.0
      invariant af > 0.0
      invariant Normalise(af, b) == Normalise(time * C_INV_COEFF, 0)
      decreases af.Floor
    {
      af, b := af / 2.0, b + 1;
    }
    ExponentFits(time);
    code := Pack(Mantissa(af), b);
  }

  /** What a code denotes: the split of the coded time with the mantissa cut to a whole number. */
  lemma ParseOfSparce(time: real) returns (x: real, k: nat)
    requires 0.0 < time < 8192.0
    ensures IsSplit(x, k) && k <= 15
    ensures time == Shift(x, k) / C_INV_COEFF
    ensures ParseTime(Sparce(time)) == Shift(Kept(x), k) / C_INV_COEFF
    ensures Normalise(time * C_INV_COEFF, 0) == (x, k)
  {
    var r := Normalise(time * C_INV_COEFF, 0);
    NormaliseSplits(time * C_INV_COEFF, 0);
    ExponentFits(time);
    x, k := r.0, r.1;
  }

  /** What cutting the mantissa loses is less than one unit of the exponent, and at least `j` units are
      kept of a number of at least `j`. */
  lemma KeptBound(x: real, k: nat, j: nat)
    requires IsSplit(x, k) && 1 <= j <= 8 && Shift(x, k) >= j as real
    ensures var w, unit := Shift(Kept(x), k), Shift(1.0, k);
            unit >= 1.0 && w <= Shift(x, k) < w + unit && Times(j, unit) <= w
  {
    var w := Kept(x);
    assert x >= j as real;
    assert (x - 1.0).Floor >= j - 1;
    assert j as real <= w <= x < w + 1.0;
    ShiftIsMonotone(1.0, 1.0, 0, k);
    ShiftIsMonotone(w, x, k, k);
    ShiftIsMonotone(x, w + 1.0, k, k);
    ShiftAdds(w, 1.0, k);
    ShiftIsMonotone(j as real, w, k, k);
    ShiftTimes(j, k);
  }

  lemma {:induction false} ShiftAdds(x: real, y: real, k: nat)
    ensures Shift(x + y, k) == Shift(x, k) + Shift(y, k)
  {
    if k > 0 {
      ShiftAdds(x, y, k - 1);
    }
  }

  lemma {:induction false} ShiftTimes(n: nat, k: nat)
    ensures Shift(n as real, k) == Times(n, Shift(1.0, k))
  {
    if n == 0 {
      ShiftAdds(0.0, 0.0, k);
    } else {
      ShiftTimes(n - 1, k);
      ShiftAdds((n - 1) as real, 1.0, k);
      assert n as real == (n - 1) as real + 1.0;
    }
  }

  lemma SmallIsRoundedUp(x: real, k: nat)
    requires IsSplit(x, k) && Shift(x, k) < 1.0
    ensures k == 0 && Kept(x) == 1.0 > x
  {
    ShiftIsMonotone(0.0, x, 0, k);
    ShiftIsMonotone(if k > 0 then 8.0 else 0.0, x, 0, k);
  }

  /** From `j` 64ths of a second on, the code rounds down by less than one part in `j + 1`: it loses
      less than a unit of which it keeps `j`. */
  lemma CodeRatio(time: real, j: nat) returns (unit: real)
    requires 1 <= j <= 8 && j as real / C_INV_COEFF <= time < 8192.0
    ensures var p := ParseTime(Sparce(time)); unit > 0.0 && p <= time < p + unit && Times(j, unit) <= p
  {
    var x, k := ParseOfSparce(time);
    assert Shift(x, k) >= j as real by { Back64(time, Shift(x, k), j as real); }
    KeptBound(x, k, j);
    unit := Shift(1.0, k) / C_INV_COEFF;
    TimesOver64(j, Shift(1.0, k));
  }

  lemma Back64(t: real, s: real, a: real)
    requires t == s / C_INV_COEFF && a / C_INV_COEFF <= t
    ensures a <= s
  {
  }

  lemma {:induction false} TimesOver64(n: nat, x: real)
    ensures Times(n, x / C_INV_COEFF) == Times(n, x) / C_INV_COEFF
  {
    if n > 0 {
      TimesOver64(n - 1, x);
    }
  }

  /** The code rounds down by less than a factor two, and by less than 9/8 from 1/8 s on; below
      1/64 s, and only there, it rounds up. */
  lemma CodeBound(time: real)
    requires 0.0 < time < 8192.0
    ensures var p := ParseTime(Sparce(time));
            p > 0.0 && (p <= time <==> time >= 1.0 / 64.0) && time < 2.0 * p &&
            (time >= 1.0 / 8.0 ==> time < 9.0 / 8.0 * p)
  {
    if time >= 1.0 / 64.0 {
      RoundsDown(time);
      if time >= 1.0 / 8.0 {
        RoundsDownLittle(time);
      }
    } else {
      RoundsUp(time);
    }
  }

  lemma RoundsDown(time: real)
    requires 1.0 / 64.0 <= time < 8192.0
    ensures var p := ParseTime(Sparce(time)); 0.0 < p <= time < 2.0 * p
  {
    var unit := CodeRatio(time, 1);
    TimesIsProduct(1, unit);
  }

  lemma RoundsDownLittle(time: real)
    requires 1.0 / 8.0 <= time < 8192.0
    ensures time < 9.0 / 8.0 * ParseTime(Sparce(time))
  {
    var unit := CodeRatio(time, 8);
    TimesIsProduct(8, unit);
  }

  lemma RoundsUp(time: real)
    requires 0.0 < time < 1.0 / 64.0
    ensures ParseTime(Sparce(time)) == 1.0 / C_INV_COEFF
  {
    var x, k := ParseOfSparce(time);
    assert Shift(x, k) == time * C_INV_COEFF < 1.0;
    SmallIsRoundedUp(x, k);
  }

  lemma CutIsMonotone(x: real, y: real)
    requires 0.0 < x <= y < 16.0
    ensures Kept(x) <= Kept(y)
  {
  }

  /** The mantissa-16 boundary separates exponents. */
  lemma ShiftSeparates(x: real, j: nat, y: real, k: nat)
    requires 0.0 < x < 16.0 && 8.0 <= y && j < k
    ensures Shift(x, j) < Shift(y, k)
  {
    ShiftIsLinear(2.0, 8.0, j);
    ShiftIsMonotone(x, 16.0, j, j);
    ShiftIsMonotone(8.0, y, j + 1, k);
  }

  lemma KeptIsMonotone(x: real, j: nat, y: real, k: nat)
    requires IsSplit(x, j) && IsSplit(y, k) && Shift(x, j) <= Shift(y, k)
    ensures Shift(Kept(x), j) <= Shift(Kept(y), k)
  {
    if j == k {
      if x > y { ShiftIsMonotone(y, x, j, j); }
      CutIsMonotone(x, y);
      ShiftIsMonotone(Kept(x), Kept(y), j, j);
    } else if j < k {
      CutIsMonotone(8.0, y);
      ShiftSeparates(Kept(x), j, Kept(y), k);
    } else {
      ShiftSeparates(y, k, x, j);
    }
  }

  /** A longer interval never gets a code for a shorter one. */
  lemma CodeIsMonotone(t1: real, t2: real)
    requires 0.0 < t1 <= t2 < 8192.0
    ensures ParseTime(Sparce(t1)) <= ParseTime(Sparce(t2))
  {
    var x, j := ParseOfSparce(t1);
    var y, k := ParseOfSparce(t2);
    KeptIsMonotone(x, j, y, k);
  }

  /** Coding what a receiver decoded gives the same byte. */
  lemma RecodingIsStable(time: real)
    requires 0.0 < time < 8192.0
    ensures var p := ParseTime(Sparce(time)); 0.0 < p < 8192.0 && Sparce(p) == Sparce(time)
  {
    var x, k := ParseOfSparce(time);
    CodeBound(time);
    assert ParseTime(Sparce(time)) < 8192.0 by {
      if time < 1.0 / 64.0 { CodeIsMonotone(time, 1.0); CodeBound(1.0); }
    }
    NormaliseIsUnique(Kept(x), k, 0);
    assert Mantissa(Kept(x)) == Mantissa(x);
  }

  /** How long a neighbour is kept after a HELLO that announced interval `time`. */
  function HelloHold(time: real, maxMissed: nat): real
    requires 0.0 < time < 8192.0
  {
    Times(maxMissed + 1, ParseTime(Sparce(time)))
  }

  /** From `j` 64ths of a second on, the hold time outlasts `c` true intervals, whatever the interval
      is, exactly if `c * (j + 1) <= j * (maxMissed + 1)`. */
  lemma HoldOutlastsIntervals(j: nat, maxMissed: nat, c: nat)
    requires 1 <= j <= 8
    ensures c * (j + 1) <= j * (maxMissed + 1) <==>
            forall t :: j as real / C_INV_COEFF <= t < 8192.0 ==> HelloHold(t, maxMissed) > Times(c, t)
  {
    if c * (j + 1) <= j * (maxMissed + 1) {
      forall t | j as real / C_INV_COEFF <= t < 8192.0 ensures HelloHold(t, maxMissed) > Times(c, t) {
        HoldSuffices(j, maxMissed, c, t);
      }
    } else {
      HoldFallsShort(j, maxMissed, c);
    }
  }

  lemma HoldSuffices(j: nat, maxMissed: nat, c: nat, t: real)
    requires 1 <= j <= 8 && c * (j + 1) <= j * (maxMissed + 1) && j as real / C_INV_COEFF <= t < 8192.0
    ensures HelloHold(t, maxMissed) > Times(c, t)
  {
    var unit := CodeRatio(t, j);
    var p := ParseTime(Sparce(t));
    RatioSuffices(p, t, unit, j, maxMissed + 1, c);
  }

  lemma RatioSuffices(p: real, t: real, unit: real, j: nat, n: nat, c: nat)
    requires unit > 0.0 && t < p + unit && 1 <= j && 1 <= n && Times(j, unit) <= p && c * (j + 1) <= j * n
    ensures Times(n, p) > Times(c, t)
  {
    SpareIntervals(j, n, c);
    SpareCovers(n - c, j, c, unit, p);
    CountsSuffice(p, t, unit, n, c);
  }

  lemma SpareCovers(spare: nat, j: nat, c: nat, unit: real, p: real)
    requires unit > 0.0 && 1 <= j && c <= spare * j && Times(j, unit) <= p
    ensures p > 0.0 && Times(c, unit) <= Times(spare, p)
  {
    TimesGrows(spare, Times(j, unit), p);
    TimesTimes(spare, j, unit);
    TimesCounts(c, spare * j, unit);
    TimesCounts(1, j, unit);
    assert Times(1, unit) == unit;
  }

  lemma CountsSuffice(p: real, t: real, unit: real, n: nat, c: nat)
    requires p > 0.0 && t < p + unit && c <= n && 1 <= n && Times(c, unit) <= Times(n - c, p)
    ensures Times(n, p) > Times(c, t)
  {
    if c == 0 {
      TimesCounts(1, n, p);
      assert Times(1, p) == p;
    } else {
      TimesSums(c, n - c, p);
      TimesAdds(c, p, unit);
      TimesGrows(c, t, p + unit);
    }
  }

  /** Intervals held beyond the `c` asked for. */
  lemma SpareIntervals(j: nat, n: nat, c: nat)
    requires 1 <= j && c * (j + 1) <= j * n
    ensures c <= n && c <= (n - c) * j
  {
    MoreIsTooMuch(j, n, c);
    assert c * (j + 1) == j * c + c;
    assert j * n - j * c == (n - c) * j;
  }

  lemma MoreIsTooMuch(j: nat, n: nat, c: nat)
    ensures c > n ==> c * (j + 1) > j * n
  {
    if c > n {
      AtLeastOnce(c - n, j + 1);
      assert c * (j + 1) == n * (j + 1) + (c - n) * (j + 1);
      assert n * (j + 1) == j * n + n;
    }
  }

  lemma AtLeastOnce(a: nat, b: nat)
    requires a >= 1
    ensures a * b >= b
  {
    assert a * b == (a - 1) * b + b;
  }

  // ---------------------------------------------------------------- whole multiples

  /** n * x as a sum, so that multiples can be compared without multiplying. */
  function Times(n: nat, x: real): real {
    if n == 0 then 0.0 else Times(n - 1, x) + x
  }

  lemma {:induction false} TimesIsProduct(n: nat, x: real)
    ensures Times(n, x) == n as real * x == x * n as real
  {
    if n > 0 {
      TimesIsProduct(n - 1, x);
      assert n as real == (n - 1) as real + 1.0;
      assert n as real * x == (n - 1) as real * x + x;
    }
  }

  lemma ProductsToTimes(m: nat, x: real, n: nat, y: real)
    requires x * m as real <= n as real * y
    ensures Times(m, x) <= Times(n, y)
  {
    TimesIsProduct(m, x);
    TimesIsProduct(n, y);
  }

  lemma {:induction false} TimesAdds(n: nat, x: real, y: real)
    ensures Times(n, x + y) == Times(n, x) + Times(n, y)
  {
    if n > 0 {
      TimesAdds(n - 1, x, y);
    }
  }

  lemma {:induction false} TimesSums(m: nat, n: nat, x: real)
    ensures Times(m + n, x) == Times(m, x) + Times(n, x)
  {
    if n > 0 {
      TimesSums(m, n - 1, x);
    }
  }

  lemma {:induction false} TimesGrows(n: nat, x: real, y: real)
    requires x <= y
    ensures Times(n, x) <= Times(n, y)
    ensures n > 0 && x < y ==> Times(n, x) < Times(n, y)
  {
    if n > 0 {
      TimesGrows(n - 1, x, y);
    }
  }

  lemma {:induction false} TimesCounts(m: nat, n: nat, x: real)
    requires m <= n && x >= 0.0
    ensures 0.0 <= Times(m, x) <= Times(n, x)
    decreases n
  {
    if n > 0 {
      TimesCounts(if m > 0 then m - 1 else 0, n - 1, x);
    }
  }

  lemma {:induction false} TimesTimes(m: nat, n: nat, x: real)
    ensures Times(m, Times(n, x)) == Times(m * n, x)
  {
    if m > 0 {
      TimesTimes(m - 1, n, x);
      TimesSums((m - 1) * n, n, x);
      assert (m - 1) * n + n == m * n;
    }
  }

  // ---------------------------------------------------------------- where the hold time falls short

  /** The interval that loses most: just short of the next mantissa. */
  function WorstInterval(j: nat, c: nat): real {
    (j as real + c as real / (c + 1) as real) / C_INV_COEFF
  }

  lemma WorstIsCut(j: nat, c: nat)
    requires 1 <= j <= 8
    ensures j as real / C_INV_COEFF <= WorstInterval(j, c) < 8192.0
    ensures ParseTime(Sparce(WorstInterval(j, c))) == j as real / C_INV_COEFF
  {
    var f, t := c as real / (c + 1) as real, WorstInterval(j, c);
    FractionIsProper(c);
    var x, k := ParseOfSparce(t);
    assert t * C_INV_COEFF == j as real + f;
    assert Normalise(j as real + f, 0) == (j as real + f, 0);
    assert (j as real + f - 1.0).Floor == j - 1;
    assert Kept(x) == j as real && Shift(Kept(x), 0) == j as real;
  }

  lemma FractionIsProper(c: nat)
    ensures 0.0 <= c as real / (c + 1) as real < 1.0
    ensures c as real - c as real * (c as real / (c + 1) as real) < 1.0
  {
    var d := c as real;
    var f := d / (d + 1.0);
    assert (c + 1) as real == d + 1.0;
    assert f * (d + 1.0) == d;
    assert f * d + f == d;
  }

  lemma HoldFallsShort(j: nat, maxMissed: nat, c: nat)
    requires 1 <= j <= 8 && c * (j + 1) > j * (maxMissed + 1)
    ensures exists t :: j as real / C_INV_COEFF <= t < 8192.0 && HelloHold(t, maxMissed) <= Times(c, t)
  {
    var t := WorstCase(j, maxMissed + 1, c);
    assert HelloHold(t, maxMissed) <= Times(c, t);
  }

  lemma WorstCase(j: nat, n: nat, c: nat) returns (t: real)
    requires 1 <= j <= 8 && c * (j + 1) > j * n
    ensures j as real / C_INV_COEFF <= t < 8192.0 && Times(n, ParseTime(Sparce(t))) <= Times(c, t)
  {
    t := WorstInterval(j, c);
    WorstIsCut(j, c);
    ShortfallInTimes(j, n, c);
  }

  lemma ShortfallInTimes(j: nat, n: nat, c: nat)
    requires c * (j + 1) > j * n
    ensures Times(n, j as real / C_INV_COEFF) <= Times(c, WorstInterval(j, c))
  {
    Shortfall(j, n, c);
    ProductsToTimes(n, j as real / C_INV_COEFF, c, WorstInterval(j, c));
  }

  lemma Shortfall(j: nat, n: nat, c: nat)
    requires c * (j + 1) > j * n
    ensures j as real / C_INV_COEFF * n as real <= c as real * WorstInterval(j, c)
  {
    var d, f, r := c as real, c as real / (c + 1) as real, j as real;
    FractionIsProper(c);
    assert c * (j + 1) == c * j + c;
    assert j * n <= c * j + c - 1;
    assert (j * n) as real == r * n as real && (c * j) as real == d * r;
    assert r * n as real <= d * r + d * f;
    assert d * r + d * f == d * (r + f);
    Over64(r, n as real, d, r + f);
  }

  lemma Over64(a: real, b: real, c: real, e: real)
    requires a * b <= c * e
    ensures a / C_INV_COEFF * b <= c * (e / C_INV_COEFF)
  {
    assert a / C_INV_COEFF * b == a * b / C_INV_COEFF;
    assert c * (e / C_INV_COEFF) == c * e / C_INV_COEFF;
  }

  /** From `j` 64ths of a second on, a neighbour outlives the configured number of silent intervals,
      whatever the interval is, exactly when that number is at most `j`: one from 1/64 s, eight from
      1/8 s. The HELLO that ends the silence never comes before the deadline. */
  lemma HoldOutlastsMissedHellos(j: nat, maxMissed: nat)
    requires 1 <= j <= 8
    ensures maxMissed <= j <==>
            forall t :: j as real / C_INV_COEFF <= t < 8192.0 ==> HelloHold(t, maxMissed) > Times(maxMissed, t)
    ensures forall t :: j as real / C_INV_COEFF <= t < 8192.0 ==> HelloHold(t, maxMissed) <= Times(maxMissed + 1, t)
  {
    HoldOutlastsIntervals(j, maxMissed, maxMissed);
    ProductsCompare(j, maxMissed);
    forall t | j as real / C_INV_COEFF <= t < 8192.0 ensures HelloHold(t, maxMissed) <= Times(maxMissed + 1, t) {
      NextHelloIsTooLate(j, maxMissed, t);
    }
  }

  lemma ProductsCompare(j: nat, n: nat)
    ensures n * (j + 1) <= j * (n + 1) <==> n <= j
  {
    assert n * (j + 1) == n * j + n && j * (n + 1) == n * j + j;
  }

  lemma NextHelloIsTooLate(j: nat, maxMissed: nat, t: real)
    requires 1 <= j <= 8 && j as real / C_INV_COEFF <= t < 8192.0
    ensures HelloHold(t, maxMissed) <= Times(maxMissed + 1, t)
  {
    var unit := CodeRatio(t, j);
    TimesGrows(maxMissed + 1, ParseTime(Sparce(t)), t);
  }
}
