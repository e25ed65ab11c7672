/** The sliding window of received sequence numbers as a value: the list contents from tail to head,
    exactly as the linked-list code changes them, and what they mean for unbounded numbers. */
module WindowSpec {
  import opened Basics
  import opened SeqNumbers

  /** Contents of a window list, oldest first. */
  type Numbers = seq<nat>

  function Head(list: Numbers): nat
    requires list != []
  {
    list[|list| - 1]
  }

  /** Where the search from the head stops. */
  function Search(list: Numbers, s: nat, i: nat): (r: nat)
    requires i < |list|
    ensures r <= i
  {
    if i > 0 && SeqComp(list[i], s) >= 0 && list[i] != s then Search(list, s, i - 1) else i
  }

  function InsertAt(list: Numbers, i: nat, s: nat): Numbers
    requires i <= |list|
  {
    Splice(list, i, s)
  }

  /** The list with `s` put in its place; a number the search meets is not put in again. */
  function Grown(list: Numbers, s: nat): (r: Numbers)
    requires list != []
    ensures r != []
  {
    var i := Search(list, s, |list| - 1);
    if list[i] == s then list else InsertAt(list, if SeqComp(list[i], s) < 0 then i + 1 else i, s)
  }

  /** Drops from the tail what is `max` or more behind `h`. */
  function DropSn(list: Numbers, max: nat, h: nat): Numbers
  {
    if list != [] && SeqComp(h, Wire(list[0] + max)) >= 0 then DropSn(list[1..], max, h) else list
  }

  /** The contents after number `s` was offered. The element counter is a byte: at a multiple of
      256 elements the list would count as empty. */
  function AddSn(list: Numbers, max: nat, s: nat): Numbers
  {
    if list != [] && SeqComp(Head(list), Wire(s + max)) >= 0 then list
    else if |list| % 256 == 0 then [s]
    else
      var grown := Grown(list, s);
      if grown == list then list else DropSn(grown, max, Head(grown))
  }

  function Quality(count: nat, max: nat): nat
    requires max > 0
  {
    100 * count / max % 256
  }

  // ---------------------------------------------------------------- unbounded numbers

  function WireAll(l: seq<int>): (r: Numbers)
    ensures |r| == |l| && forall i :: 0 <= i < |l| ==> r[i] == Wire(l[i])
  {
    seq(|l|, i requires 0 <= i < |l| => Wire(l[i]))
  }

  ghost predicate Increasing(l: seq<int>) {
    forall i, j :: 0 <= i < j < |l| ==> l[i] < l[j]
  }

  function Top(l: seq<int>): int
    requires l != []
  {
    l[|l| - 1]
  }

  /** `l` lists, in increasing order, the members of `received` less than `max` behind the largest. */
  ghost predicate IsWindowOf(l: seq<int>, max: nat, received: set<int>) {
    Increasing(l) &&
    if received == {} then l == []
    else
      l != [] &&
      (forall x :: x in received ==> x <= Top(l)) &&
      forall x :: x in l <==> x in received && Top(l) - max < x
  }

  /** The list contents are the wire forms of the window over everything received. */
  ghost predicate Represents(list: Numbers, max: nat, received: set<int>) {
    exists l :: IsWindowOf(l, max, received) && list == WireAll(l)
  }

  /** How far a new number may be from the largest one so far. */
  predicate Fits(top: int, max: nat, x: int) {
    x - top <= 32769 - max && top - x <= max + 32766
  }

  // The same algorithm on integers, with plain comparisons.

  function SearchInt(l: seq<int>, x: int, i: nat): (r: nat)
    requires i < |l|
    ensures r <= i
  {
    if i > 0 && l[i] > x then SearchInt(l, x, i - 1) else i
  }

  function DropInt(l: seq<int>, max: nat, top: int): seq<int> {
    if l != [] && l[0] + max <= top then DropInt(l[1..], max, top) else l
  }

  function InsertInt(l: seq<int>, x: int): (r: seq<int>)
    requires l != []
    ensures |r| == |l| + 1
  {
    var i := SearchInt(l, x, |l| - 1);
    var k := if l[i] < x then i + 1 else i;
    Splice(l, k, x)
  }

  function AddInt(l: seq<int>, max: nat, x: int): seq<int> {
    if l == [] then [x]
    else if Top(l) >= x + max || x in l then l
    else var grown := InsertInt(l, x); DropInt(grown, max, Top(grown))
  }

  // ---------------------------------------------------------------- the integer form is right

  lemma {:induction false} SearchIntFinds(l: seq<int>, x: int, i: nat)
    requires Increasing(l) && i < |l| && x !in l
    requires forall j :: i < j < |l| ==> l[j] > x
    ensures var r := SearchInt(l, x, i);
            (forall j :: r < j < |l| ==> l[j] > x) && (forall j :: 0 <= j < r ==> l[j] < x)
  {
    if i > 0 && l[i] > x {
      SearchIntFinds(l, x, i - 1);
    }
  }

  lemma InsertionSorts(l: seq<int>, k: nat, x: int)
    requires Increasing(l) && l != [] && k <= |l|
    requires (forall j :: 0 <= j < k ==> l[j] < x) && (forall j :: k <= j < |l| ==> x < l[j])
    ensures var r := Splice(l, k, x);
            Increasing(r) && (forall y :: y in r <==> y in l || y == x) &&
            Top(r) == if x > Top(l) then x else Top(l)
  {
    var r := Splice(l, k, x);
    assert forall j :: 0 <= j < |r| ==> r[j] == if j < k then l[j] else if j == k then x else l[j - 1];
    forall y | y in l ensures y in r {
      var j :| 0 <= j < |l| && l[j] == y;
      assert r[if j < k then j else j + 1] == y;
    }
    assert r[k] == x;
  }

  lemma InsertIntSorts(l: seq<int>, x: int)
    requires Increasing(l) && l != [] && x !in l
    ensures var r := InsertInt(l, x);
            Increasing(r) && (forall y :: y in r <==> y in l || y == x) &&
            Top(r) == if x > Top(l) then x else Top(l)
  {
    SearchIntFinds(l, x, |l| - 1);
    var i := SearchInt(l, x, |l| - 1);
    assert l[i] in l;
    InsertionSorts(l, if l[i] < x then i + 1 else i, x);
  }

  lemma {:induction false} DropIntCuts(l: seq<int>, max: nat, top: int)
    requires Increasing(l)
    ensures var r := DropInt(l, max, top);
            Increasing(r) && (forall y :: y in r <==> y in l && y > top - max) &&
            (l != [] && Top(l) > top - max ==> r != [] && Top(r) == Top(l))
  {
    if l != [] && l[0] + max <= top {
      DropIntCuts(l[1..], max, top);
      assert l == [l[0]] + l[1..];
    } else if l != [] {
      assert forall y :: y in l ==> y >= l[0];
    }
  }

  /** Offering a number to the window over `received` gives the window over one number more. */
  lemma AddIntIsWindow(l: seq<int>, max: nat, received: set<int>, x: int)
    requires max > 0 && IsWindowOf(l, max, received)
    ensures IsWindowOf(AddInt(l, max, x), max, received + {x})
  {
    if l == [] {
      assert received == {};
    } else if Top(l) >= x + max || x in l {
    } else {
      InsertIntSorts(l, x);
      var grown := InsertInt(l, x);
      DropIntCuts(grown, max, Top(grown));
    }
  }

  // ---------------------------------------------------------------- the wire form follows it

  lemma {:induction false} SearchFollows(l: seq<int>, x: int, i: nat)
    requires Increasing(l) && i < |l| && x !in l
    requires forall j :: 0 <= j < |l| ==> -32769 <= l[j] - x <= 32766
    ensures Search(WireAll(l), Wire(x), i) == SearchInt(l, x, i)
  {
    CompLifts(l[i], x);
    if i > 0 && l[i] > x {
      SearchFollows(l, x, i - 1);
    }
  }

  lemma {:induction false} SearchFindsDuplicate(l: seq<int>, x: int, i: nat)
    requires Increasing(l) && i < |l| && x in l[..i + 1]
    requires forall j :: 0 <= j < |l| ==> -32769 <= l[j] - x <= 32766
    ensures l[Search(WireAll(l), Wire(x), i)] == x
  {
    CompLifts(l[i], x);
    if l[i] != x {
      assert i > 0;
      var j :| 0 <= j < i + 1 && l[j] == x;
      assert l[..i][j] == x;
      SearchFindsDuplicate(l, x, i - 1);
    }
  }

  lemma {:induction false} DropFollows(l: seq<int>, max: nat, top: int)
    requires forall j :: 0 <= j < |l| ==> -32769 <= top - (l[j] + max) <= 32766
    ensures DropSn(WireAll(l), max, Wire(top)) == WireAll(DropInt(l, max, top))
  {
    if l != [] {
      CompLifts(top, l[0] + max);
      WireOfSum(l[0], max);
      if l[0] + max <= top {
        DropFollows(l[1..], max, top);
        assert WireAll(l)[1..] == WireAll(l[1..]);
      }
    }
  }

  lemma WireOfSum(x: int, n: int)
    ensures Wire(Wire(x) + n) == Wire(x + n)
  {
    var a := x / SEQ_RANGE;
    assert x == a * SEQ_RANGE + Wire(x);
    assert x + n == a * SEQ_RANGE + (Wire(x) + n);
    WireShift(Wire(x) + n, a);
  }

  lemma WireShift(x: int, a: int)
    ensures Wire(a * SEQ_RANGE + x) == Wire(x)
  {
  }

  /** All of `l` is less than `max` behind its top, and `x` is near enough to be compared. */
  ghost predicate Near(l: seq<int>, max: nat, x: int) {
    l != [] && Increasing(l) && Fits(Top(l), max, x) && Top(l) < x + max &&
    forall j :: 0 <= j < |l| ==> Top(l) - max < l[j] <= Top(l)
  }

  lemma InsertAtFollows(l: seq<int>, k: nat, x: int)
    requires k <= |l|
    ensures InsertAt(WireAll(l), k, Wire(x)) == WireAll(Splice(l, k, x))
  {
  }

  /** A new number lands where it belongs among the integers. */
  lemma GrownFollows(l: seq<int>, x: int)
    requires Increasing(l) && l != [] && x !in l
    requires forall j :: 0 <= j < |l| ==> -32769 <= l[j] - x <= 32766
    ensures Grown(WireAll(l), Wire(x)) == WireAll(InsertInt(l, x))
  {
    SearchFollows(l, x, |l| - 1);
    var i := SearchInt(l, x, |l| - 1);
    CompLifts(l[i], x);
    assert l[i] in l;
    InsertAtFollows(l, if l[i] < x then i + 1 else i, x);
  }

  lemma NearIsComparable(l: seq<int>, max: nat, x: int)
    requires 2 <= max <= 255 && Near(l, max, x)
    ensures forall j :: 0 <= j < |l| ==> -32769 <= l[j] - x <= 32766
  {
  }

  lemma DropGrownFollows(l: seq<int>, max: nat, x: int)
    requires 2 <= max <= 255 && Near(l, max, x) && x !in l
    ensures var grown := InsertInt(l, x);
            DropSn(WireAll(grown), max, Wire(Top(grown))) == WireAll(DropInt(grown, max, Top(grown)))
  {
    var grown := InsertInt(l, x);
    InsertIntSorts(l, x);
    forall j | 0 <= j < |grown| ensures -32769 <= Top(grown) - (grown[j] + max) <= 32766 {
      assert grown[j] in grown;
    }
    DropFollows(grown, max, Top(grown));
  }

  lemma AddNewFollows(l: seq<int>, max: nat, x: int)
    requires 2 <= max <= 255 && Near(l, max, x) && x !in l && |l| <= 255
    requires SeqComp(Head(WireAll(l)), Wire(Wire(x) + max)) < 0
    ensures AddSn(WireAll(l), max, Wire(x)) == WireAll(AddInt(l, max, x))
  {
    NearIsComparable(l, max, x);
    GrownFollows(l, x);
    DropGrownFollows(l, max, x);
    AddSnGrows(WireAll(l), max, Wire(x));
  }

  /** A number that is neither too old nor known is put in its place, and the window moves up. */
  lemma AddSnGrows(list: Numbers, max: nat, s: nat)
    requires list != [] && |list| <= 255 && SeqComp(Head(list), Wire(s + max)) < 0
    requires |Grown(list, s)| != |list|
    ensures AddSn(list, max, s) == DropSn(Grown(list, s), max, Head(Grown(list, s)))
  {
    assert |list| % 256 == 0 <==> |list| == 0;
    assert Grown(list, s) != list;
  }

  /** Inside a window of at most 255 numbers every comparison the code makes about a fitting number
      is the integer comparison. */
  lemma AddFollows(l: seq<int>, max: nat, x: int)
    requires 2 <= max <= 255 && Increasing(l)
    requires l != [] ==> (forall j :: 0 <= j < |l| ==> Top(l) - max < l[j] <= Top(l)) && Fits(Top(l), max, x)
    ensures AddSn(WireAll(l), max, Wire(x)) == WireAll(AddInt(l, max, x))
  {
    if l != [] {
      WindowIsShort(l, Top(l), max);
      CompLifts(Top(l), x + max);
      WireOfSum(x, max);
      if Top(l) < x + max {
        if x in l {
          AddKnownFollows(l, max, x);
        } else {
          AddNewFollows(l, max, x);
        }
      }
    }
  }

  lemma AddKnownFollows(l: seq<int>, max: nat, x: int)
    requires 2 <= max <= 255 && Increasing(l) && x in l && |l| <= max
    requires forall j :: 0 <= j < |l| ==> Top(l) - max < l[j] <= Top(l)
    ensures AddSn(WireAll(l), max, Wire(x)) == WireAll(l)
  {
    assert l[..|l| - 1 + 1] == l;
    SearchFindsDuplicate(l, x, |l| - 1);
  }

  lemma {:induction false} IncreasingSpread(l: seq<int>)
    requires Increasing(l) && l != []
    ensures Top(l) - l[0] >= |l| - 1
  {
    if |l| > 1 {
      IncreasingSpread(l[..|l| - 1]);
    }
  }

  lemma WindowIsShort(l: seq<int>, top: int, max: nat)
    requires Increasing(l) && forall j :: 0 <= j < |l| ==> top - max < l[j] <= top
    ensures |l| <= max
  {
    if l != [] {
      IncreasingSpread(l);
    }
  }

  // ---------------------------------------------------------------- whole runs

  /** The list after the wire forms of `xs` were offered in turn to a new window. */
  function Run(max: nat, xs: seq<int>): Numbers {
    if xs == [] then [] else AddSn(Run(max, xs[..|xs| - 1]), max, Wire(xs[|xs| - 1]))
  }

  ghost function Received(xs: seq<int>): set<int> {
    set x | x in xs
  }

  ghost predicate FitsAll(received: set<int>, max: nat, x: int) {
    forall top :: top in received && (forall y :: y in received ==> y <= top) ==> Fits(top, max, x)
  }

  /** Each new number fits the largest before it. */
  ghost predicate InRange(max: nat, xs: seq<int>) {
    xs == [] ||
    (InRange(max, xs[..|xs| - 1]) && FitsAll(Received(xs[..|xs| - 1]), max, xs[|xs| - 1]))
  }

  /** One step of the refinement. */
  lemma AddKeepsWindow(list: Numbers, max: nat, received: set<int>, x: int)
    requires 2 <= max <= 255 && Represents(list, max, received)
    requires FitsAll(received, max, x)
    ensures Represents(AddSn(list, max, Wire(x)), max, received + {x})
  {
    var l :| IsWindowOf(l, max, received) && list == WireAll(l);
    forall j | 0 <= j < |l| ensures Top(l) - max < l[j] <= Top(l) { assert l[j] in l; }
    assert l != [] ==> Top(l) in l;
    AddFollows(l, max, x);
    AddIntIsWindow(l, max, received, x);
  }

  /** Refinement over whole runs: the list is always the window over everything received. */
  lemma {:induction false} RunIsWindow(max: nat, xs: seq<int>)
    requires 2 <= max <= 255 && InRange(max, xs)
    ensures Represents(Run(max, xs), max, Received(xs))
    decreases |xs|
  {
    if xs == [] {
      assert IsWindowOf([], max, Received(xs)) && WireAll([]) == [];
    } else {
      var before := xs[..|xs| - 1];
      RunIsWindow(max, before);
      assert Received(xs) == Received(before) + {xs[|xs| - 1]};
      AddKeepsWindow(Run(max, before), max, Received(before), xs[|xs| - 1]);
    }
  }

  lemma WindowCount(list: Numbers, max: nat, received: set<int>, top: int)
    requires Represents(list, max, received)
    requires top in received && forall x :: x in received ==> x <= top
    ensures |list| == |set x | x in received && top - max < x| <= max
  {
    var l :| IsWindowOf(l, max, received) && list == WireAll(l);
    assert Top(l) in l;
    forall j | 0 <= j < |l| ensures top - max < l[j] <= top { assert l[j] in l; }
    WindowIsShort(l, top, max);
    IncreasingCount(l);
    assert (set x | x in l) == set x | x in received && top - max < x;
  }

  /** The reported quality is the share of the last `max` numbers that arrived, in percent. */
  lemma QualityIsDeliveryRatio(list: Numbers, max: nat, received: set<int>, top: int, heard: nat)
    requires 1 <= max <= 255 && Represents(list, max, received)
    requires top in received && forall x :: x in received ==> x <= top
    requires heard == |set x | x in received && top - max < x|
    ensures |list| == heard <= max
    ensures Quality(|list|, max) == 100 * heard / max <= 100
  {
    WindowCount(list, max, received, top);
    QualityIsPercent(heard, max);
  }

  lemma QualityIsPercent(count: nat, max: nat)
    requires count <= max && max > 0
    ensures Quality(count, max) == 100 * count / max <= 100
  {
    PercentBound(count, max);
  }

  lemma PercentBound(count: nat, max: nat)
    requires count <= max && max > 0
    ensures 100 * count / max <= 100
  {
    var q := 100 * count / max;
    assert q * max <= 100 * max;
    TimesIsMonotone(101, q, max);
  }

  lemma TimesIsMonotone(a: nat, b: nat, c: nat)
    ensures a <= b ==> a * c <= b * c
  {
  }

  lemma {:induction false} IncreasingCount(l: seq<int>)
    requires Increasing(l)
    ensures |set x | x in l| == |l|
  {
    if l != [] {
      var front := l[..|l| - 1];
      IncreasingCount(front);
      assert (set x | x in l) == (set x | x in front) + {Top(l)};
    } else {
      assert (set x | x in l) == {};
    }
  }

  // ---------------------------------------------------------------- every run is in range

  /** The integer a 16-bit number is taken to mean while the largest so far is `top`. */
  function Lift(top: int, max: nat, w: nat): (x: int)
    requires IsSeq(w)
    ensures Fits(top, max, x)
  {
    top + 32769 - max - Wire(top + 32769 - max - w)
  }

  lemma LiftHasWire(top: int, max: nat, w: nat)
    requires IsSeq(w)
    ensures Wire(Lift(top, max, w)) == w
  {
    LiftTurns(top + 32769 - max, w);
  }

  /** Going back to `c` from a number of the same wire form takes whole turns. */
  lemma LiftTurns(c: int, w: nat)
    requires IsSeq(w)
    ensures Wire(c - Wire(c - w)) == w
  {
    var k := (c - w) / SEQ_RANGE;
    assert c - Wire(c - w) == k * SEQ_RANGE + w;
    WireShift(w, k);
  }

  lemma LiftIsUnique(top: int, max: nat, x: int)
    ensures Wire(Lift(top, max, Wire(x))) == Wire(x)
    ensures Fits(top, max, x) ==> Lift(top, max, Wire(x)) == x
  {
    LiftHasWire(top, max, Wire(x));
    if Fits(top, max, x) {
      OneTurn(Lift(top, max, Wire(x)), x, top + 32769 - max);
    }
  }

  /** Two numbers of the same wire form within one turn are equal. */
  lemma OneTurn(x: int, y: int, c: int)
    requires Wire(x) == Wire(y) && 0 <= c - x < SEQ_RANGE && 0 <= c - y < SEQ_RANGE
    ensures x == y
  {
    var j, k := x / SEQ_RANGE, y / SEQ_RANGE;
    assert x == j * SEQ_RANGE + Wire(x) && y == k * SEQ_RANGE + Wire(y);
    assert x - y == (j - k) * SEQ_RANGE;
  }

  /** The head of the list is the wire form of the largest number received. */
  lemma HeadIsTop(list: Numbers, max: nat, received: set<int>) returns (top: int)
    requires Represents(list, max, received) && received != {} && max > 0
    ensures top in received && forall y :: y in received ==> y <= top
    ensures list != [] && Head(list) == Wire(top)
  {
    var l :| IsWindowOf(l, max, received) && list == WireAll(l);
    top := Top(l);
    assert top in l;
  }

  /** So it is of any window over those numbers. */
  lemma HeadIs(list: Numbers, max: nat, received: set<int>, top: int)
    requires top in received && (forall y :: y in received ==> y <= top) && max > 0
    ensures Represents(list, max, received) ==> list != [] && Head(list) == Wire(top)
  {
    if Represents(list, max, received) {
      var t := HeadIsTop(list, max, received);
    }
  }

  lemma FitsTheLargest(received: set<int>, top: int, max: nat, x: int)
    requires top in received && (forall y :: y in received ==> y <= top) && Fits(top, max, x)
    ensures FitsAll(received, max, x)
  {
  }

  /** The run so far can be continued by the lift of any 16-bit number. */
  lemma NextLifts(max: nat, xs: seq<int>, w: nat) returns (x: int)
    requires IsSeq(w) && 2 <= max <= 255 && InRange(max, xs)
    ensures Wire(x) == w && FitsAll(Received(xs), max, x)
  {
    if xs == [] {
      x := w;
    } else {
      RunIsWindow(max, xs);
      assert xs[0] in Received(xs);
      x := LiftFits(Run(max, xs), max, Received(xs), w);
    }
  }

  lemma LiftFits(list: Numbers, max: nat, received: set<int>, w: nat) returns (x: int)
    requires IsSeq(w) && max > 0 && Represents(list, max, received) && received != {}
    ensures Wire(x) == w && FitsAll(received, max, x)
  {
    var top := HeadIsTop(list, max, received);
    x := Lift(top, max, w);
    LiftHasWire(top, max, w);
    FitsTheLargest(received, top, max, x);
  }

  /** Whatever 16-bit numbers arrive, they are the wire forms of some in-range run; so the window
      reading of the list never breaks down, and its byte-sized counter never wraps. */
  lemma {:induction false} EveryRunLifts(max: nat, ws: Numbers) returns (xs: seq<int>)
    requires 2 <= max <= 255 && forall i :: 0 <= i < |ws| ==> IsSeq(ws[i])
    ensures WireAll(xs) == ws && InRange(max, xs) && |Run(max, xs)| <= max
    decreases |ws|
  {
    xs := [];
    if ws != [] {
      var before := EveryRunLifts(max, ws[..|ws| - 1]);
      var x := NextLifts(max, before, Head(ws));
      xs := before + [x];
      InRangeGrows(max, before, x);
      assert WireAll(xs) == WireAll(before) + [Wire(x)];
      assert ws == ws[..|ws| - 1] + [Head(ws)];
    }
    assert |Run(max, xs)| <= max by {
      RunIsWindow(max, xs);
      RunIsShort(max, xs);
    }
  }

  lemma InRangeGrows(max: nat, xs: seq<int>, x: int)
    requires InRange(max, xs) && FitsAll(Received(xs), max, x)
    ensures InRange(max, xs + [x])
  {
    assert (xs + [x])[..|xs|] == xs;
  }

  lemma RunIsShort(max: nat, xs: seq<int>)
    requires Represents(Run(max, xs), max, Received(xs))
    ensures |Run(max, xs)| <= max
  {
    var l :| IsWindowOf(l, max, Received(xs)) && Run(max, xs) == WireAll(l);
    forall j | 0 <= j < |l| ensures Top(l) - max < l[j] <= Top(l) { assert l[j] in l; }
    if l != [] {
      WindowIsShort(l, Top(l), max);
    }
  }

  // ---------------------------------------------------------------- how tight the range is

  /** One step beyond the upper bound a newer number is taken for an old one and ignored. */
  lemma TooNewIsIgnored(top: int, max: nat)
    requires 2 <= max <= 255
    ensures AddSn([Wire(top)], max, Wire(top + 32770 - max)) == [Wire(top)]
    ensures !Represents([Wire(top)], max, {top, top + 32770 - max})
  {
    var x := top + 32770 - max;
    CompOfDifference(top, x + max);
    WireOfSum(x, max);
    HeadIs([Wire(top)], max, {top, x}, x);
    WireOfDifference(x, top);
  }

  /** One step beyond the lower bound an old number is taken for the newest and evicts the window. */
  lemma TooOldEvicts(top: int, max: nat)
    requires 2 <= max <= 255
    ensures AddSn([Wire(top)], max, Wire(top - max - 32767)) == [Wire(top - max - 32767)]
    ensures !Represents([Wire(top - max - 32767)], max, {top, top - max - 32767})
  {
    var x := top - max - 32767;
    var y := x + SEQ_RANGE;
    WireShift(x, 1);
    assert [Wire(top)] == WireAll([top]);
    AddFollows([top], max, y);
    assert InsertInt([top], y) == [top, y];
    assert DropInt([top, y], max, y) == [y];
    assert WireAll([y]) == [Wire(x)];
    HeadIs([Wire(x)], max, {top, x}, top);
    WireOfDifference(x, top);
  }

  /** A window of size one is too small: it can end up holding two numbers and report 200 percent. */
  lemma SizeOneOverflows()
    ensures Run(1, [0, 32768]) == [0, 32768]
    ensures Quality(|Run(1, [0, 32768])|, 1) == 200
  {
    assert [0, 32768][..1] == [0] && [0][..0] == [];
    assert Run(1, [0]) == [0];
    assert InsertAt([0], 1, 32768) == [0, 32768];
  }

  lemma {:induction false} RunSeesWireForms(max: nat, xs: seq<int>, ys: seq<int>)
    requires WireAll(xs) == WireAll(ys)
    ensures Run(max, xs) == Run(max, ys)
    decreases |xs|
  {
    assert |xs| == |WireAll(xs)| == |ys|;
    if xs != [] {
      var n := |xs| - 1;
      assert WireAll(xs)[n] == WireAll(ys)[n];
      assert WireAll(xs[..n]) == WireAll(xs)[..n] == WireAll(ys[..n]);
      assert Run(max, xs[..n]) == Run(max, ys[..n]) by { RunSeesWireForms(max, xs[..n], ys[..n]); }
      assert Wire(xs[n]) == Wire(ys[n]);
    }
  }

  /** The window never holds more numbers than its size, whatever arrives, exactly for sizes above
      one. */
  lemma NeverOverflows(max: nat)
    requires 1 <= max <= 255
    ensures max >= 2 <==> forall xs :: |Run(max, xs)| <= max
  {
    if max >= 2 {
      forall xs ensures |Run(max, xs)| <= max {
        var ys := EveryRunLifts(max, WireAll(xs));
        RunSeesWireForms(max, xs, ys);
      }
    } else {
      SizeOneOverflows();
    }
  }
}
