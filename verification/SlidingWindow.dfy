/** The sliding window in place: a doubly linked list of sequence numbers. link_set/sliding_window.c
    and rl_seq_t/sw.c hold the same code, so both are this class. */
module SlidingWindow {
  import opened Basics
  import opened SeqNumbers
  import opened WindowSpec

  class Element {
    var seqNum: nat
    var prev: Element?   // towards the tail, older
    var next: Element?   // towards the head, newer

    constructor (seqNum: nat)
      ensures this.seqNum == seqNum && prev == null && next == null
    {
      this.seqNum, prev, next := seqNum, null, null;
    }
  }

  class Window {
    var head: Element?
    var tail: Element?
    var size: nat         // a byte
    const maxSize: nat    // a byte
    ghost var nodes: seq<Element>   // from tail to head
    ghost var repr: set<Element>    // the elements ever allocated for this list

    ghost predicate Linked(ns: seq<Element>)
      reads ns
    {
      (forall i, j :: 0 <= i < j < |ns| ==> ns[i] != ns[j]) &&
      (ns != [] ==> ns[0].prev == null && ns[|ns| - 1].next == null) &&
      (forall i {:trigger ns[i].prev} :: 1 <= i < |ns| ==> ns[i].prev == ns[i - 1]) &&
      (forall i {:trigger ns[i].next} :: 0 <= i < |ns| - 1 ==> ns[i].next == ns[i + 1])
    }

    ghost predicate Valid()
      reads this, repr
    {
      (forall i {:trigger nodes[i]} :: 0 <= i < |nodes| ==> nodes[i] in repr) &&
      maxSize <= 255 && size == |nodes| % 256 && Linked(nodes) &&
      tail == (if nodes == [] then null else nodes[0]) &&
      head == (if nodes == [] then null else nodes[|nodes| - 1])
    }

    static ghost function NumbersOf(ns: seq<Element>): (r: Numbers)
      reads ns
      ensures |r| == |ns| && forall i {:trigger r[i]} :: 0 <= i < |ns| ==> r[i] == ns[i].seqNum
    {
      seq(|ns|, i requires 0 <= i < |ns| reads ns => ns[i].seqNum)
    }

    /** The list contents, oldest first. */
    ghost function Contents(): (r: Numbers)
      requires Valid()
      reads this, repr
      ensures |r| == |nodes| && forall i {:trigger r[i]} :: 0 <= i < |r| ==> r[i] == nodes[i].seqNum
    {
      NumbersOf(nodes)
    }

    constructor (maxSize: nat)
      requires maxSize <= 255
      ensures Valid() && this.maxSize == maxSize && Contents() == [] && repr == {}
    {
      head, tail, size := null, null, 0;
      this.maxSize := maxSize;
      nodes, repr := [], {};
    }

    /** Frees the oldest element. */
    method DropTail()
      requires Valid() && nodes != []
      modifies this, repr
      ensures Valid() && nodes == old(nodes)[1..] && Contents() == old(Contents())[1..] && repr == old(repr)
    {
      var newTail := tail.next;
      if newTail != null {
        newTail.prev := null;
      }
      if tail == head {
        tail, head := newTail, newTail;
      } else {
        tail := newTail;
      }
      size := (size + 255) % 256;
      nodes := nodes[1..];
    }

    /** Drops everything that is a window or more behind `seqNum`. */
    method DropSn(seqNum: nat)
      requires Valid()
      modifies this, repr
      ensures Valid() && Contents() == WindowSpec.DropSn(old(Contents()), maxSize, seqNum)
      ensures repr == old(repr)
    {
      var searchEl := tail;
      while searchEl != null && SeqComp(seqNum, Wire(searchEl.seqNum + maxSize)) >= 0
        invariant Valid() && searchEl == tail
        invariant repr == old(repr)
        invariant WindowSpec.DropSn(Contents(), maxSize, seqNum) == WindowSpec.DropSn(old(Contents()), maxSize, seqNum)
        decreases |nodes|
      {
        searchEl := searchEl.next;
        assert WindowSpec.DropSn(Contents(), maxSize, seqNum) == WindowSpec.DropSn(Contents()[1..], maxSize, seqNum);
        DropTail();
      }
    }

    /** The pointers of the list `ns` once `newEl` is spliced in at position `k`. */
    ghost predicate Spliced(ns: seq<Element>, k: nat, newEl: Element)
      reads ns, newEl
    {
      k <= |ns| &&
      newEl.prev == (if k > 0 then ns[k - 1] else null) &&
      newEl.next == (if k < |ns| then ns[k] else null) &&
      (forall j {:trigger ns[j].prev} :: 0 <= j < |ns| ==>
        ns[j].prev == if j == k then newEl else if j == 0 then null else ns[j - 1]) &&
      (forall j {:trigger ns[j].next} :: 0 <= j < |ns| ==>
        ns[j].next == if j == k - 1 then newEl else if j == |ns| - 1 then null else ns[j + 1])
    }

    /** Links a new element in behind `searchEl`, the element at position `i`. */
    method InsertAfter(newEl: Element, searchEl: Element, ghost i: nat)
      requires Valid() && newEl !in repr && i < |nodes| && searchEl == nodes[i]
      modifies this`head, repr, newEl
      ensures Spliced(nodes, i + 1, newEl) && newEl.seqNum == old(newEl.seqNum)
      ensures forall j :: 0 <= j < |nodes| ==> nodes[j].seqNum == old(nodes[j].seqNum)
      ensures head == if i == |nodes| - 1 then newEl else old(head)
    {
      assert i + 1 < |nodes| ==> searchEl.next == nodes[i + 1];
      newEl.prev := searchEl;
      newEl.next := searchEl.next;
      searchEl.next := newEl;
      if newEl.next != null {
        newEl.next.prev := newEl;
      }
      if head == searchEl {
        head := newEl;
      }
    }

    /** Links a new element in before `searchEl`, the element at position `i`. */
    method InsertBefore(newEl: Element, searchEl: Element, ghost i: nat)
      requires Valid() && newEl !in repr && i < |nodes| && searchEl == nodes[i]
      modifies this`tail, repr, newEl
      ensures Spliced(nodes, i, newEl) && newEl.seqNum == old(newEl.seqNum)
      ensures forall j :: 0 <= j < |nodes| ==> nodes[j].seqNum == old(nodes[j].seqNum)
      ensures tail == if i == 0 then newEl else old(tail)
    {
      assert i > 0 ==> searchEl.prev == nodes[i - 1];
      newEl.prev := searchEl.prev;
      newEl.next := searchEl;
      searchEl.prev := newEl;
      if newEl.prev != null {
        newEl.prev.next := newEl;
      }
      if tail == searchEl {
        tail := newEl;
      }
    }

    /** A splice turns a well-formed list into a well-formed list with one element more. */
    lemma SpliceLinks(ns: seq<Element>, k: nat, newEl: Element)
      requires Spliced(ns, k, newEl) && newEl !in ns
      requires forall i, j :: 0 <= i < j < |ns| ==> ns[i] != ns[j]
      ensures Linked(Splice(ns, k, newEl))
    {
      var r := Splice(ns, k, newEl);
      SpliceAt(ns, k, newEl);
      forall j | 1 <= j < |r| ensures r[j].prev == r[j - 1] && r[j - 1].next == r[j] {
      }
    }

    lemma SpliceContents(ns: seq<Element>, k: nat, newEl: Element)
      requires k <= |ns|
      ensures var r := Splice(ns, k, newEl);
              NumbersOf(r) == InsertAt(NumbersOf(ns), k, newEl.seqNum)
    {
      var r := Splice(ns, k, newEl);
      SpliceAt(ns, k, newEl);
      var a, b := NumbersOf(r), InsertAt(NumbersOf(ns), k, newEl.seqNum);
      forall j | 0 <= j < |r| ensures a[j] == b[j] {
        assert r[j] == if j < k then ns[j] else if j == k then newEl else ns[j - 1];
      }
    }

    /** The search for a number's place, from the head. */
    method FindPlace(seqNum: nat) returns (searchEl: Element, ghost i: nat)
      requires Valid() && nodes != []
      ensures i < |nodes| && searchEl == nodes[i]
      ensures i == Search(Contents(), seqNum, |nodes| - 1)
    {
      searchEl, i := head, |nodes| - 1;
      while searchEl.prev != null && SeqComp(searchEl.seqNum, seqNum) >= 0
        invariant 0 <= i < |nodes| && searchEl == nodes[i]
        invariant Search(Contents(), seqNum, i) == Search(Contents(), seqNum, |nodes| - 1)
        decreases i
      {
        if searchEl.seqNum == seqNum {
          return;
        }
        searchEl := searchEl.prev;
        i := i - 1;
      }
    }

    /** Offers a sequence number to the window. */
    method AddSn(seqNum: nat)
      requires Valid()
      modifies this, repr
      ensures Valid() && Contents() == WindowSpec.AddSn(old(Contents()), maxSize, seqNum)
      ensures fresh(repr - old(repr))
    {
      if head != null && SeqComp(head.seqNum, Wire(seqNum + maxSize)) >= 0 {
        return;
      }
      if size == 0 {
        Restart(seqNum);
        return;
      }
      Place(seqNum);
    }

    /** Finds the place of a number that is not too old and, unless it is there already, puts it in. */
    method Place(seqNum: nat)
      requires Valid() && nodes != []
      modifies this, repr
      ensures Valid() && fresh(repr - old(repr))
      ensures var list := old(Contents());
              var grown := Grown(list, seqNum);
              Contents() == if grown == list then list else WindowSpec.DropSn(grown, maxSize, WindowSpec.Head(grown))
    {
      var searchEl, i := FindPlace(seqNum);
      if searchEl.seqNum == seqNum {
        return;
      }
      Insert(seqNum, searchEl, i);
    }

    /** Makes `seqNum` the only element. */
    method Restart(seqNum: nat)
      requires Valid()
      modifies this
      ensures Valid() && Contents() == [seqNum] && fresh(repr - old(repr))
    {
      var newEl := new Element(seqNum);
      head, tail, size := newEl, newEl, 1;
      nodes, repr := [newEl], repr + {newEl};
    }

    /** Puts a new number in its place and drops what the window then leaves behind. */
    method Insert(seqNum: nat, searchEl: Element, ghost i: nat)
      requires Valid()
      requires i < |nodes| && searchEl == nodes[i] && searchEl.seqNum != seqNum
      requires i == Search(Contents(), seqNum, |nodes| - 1)
      modifies this, repr
      ensures Valid() && fresh(repr - old(repr))
      ensures var grown := Grown(old(Contents()), seqNum);
              Contents() == WindowSpec.DropSn(grown, maxSize, WindowSpec.Head(grown))
    {
      var newEl := new Element(seqNum);
      Grow(newEl, searchEl, i);
      DropSn(head.seqNum);
    }

    /** Counts a spliced element in: from here on it belongs to the list. */
    method CountIn(newEl: Element, ghost k: nat)
      requires maxSize <= 255 && nodes != [] && size == |nodes| % 256
      requires forall j {:trigger nodes[j]} :: 0 <= j < |nodes| ==> nodes[j] in repr
      requires newEl !in repr && Spliced(nodes, k, newEl)
      requires forall i, j :: 0 <= i < j < |nodes| ==> nodes[i] != nodes[j]
      requires tail == if k == 0 then newEl else nodes[0]
      requires head == if k == |nodes| then newEl else nodes[|nodes| - 1]
      modifies this`size, this`nodes, this`repr
      ensures repr == old(repr) + {newEl}
      ensures Valid() && nodes == Splice(old(nodes), k, newEl)
      ensures NumbersOf(nodes) == InsertAt(old(NumbersOf(nodes)), k, newEl.seqNum)
    {
      ghost var before := nodes;
      nodes, repr := Splice(before, k, newEl), repr + {newEl};
      size := (size + 1) % 256;
      assert Linked(nodes) by { SpliceLinks(before, k, newEl); }
      assert NumbersOf(nodes) == InsertAt(NumbersOf(before), k, newEl.seqNum) by { SpliceContents(before, k, newEl); }
      assert head == nodes[|before|] && tail == nodes[0];
      forall j | 0 <= j < |nodes| ensures nodes[j] in repr { SpliceAt(before, k, newEl); }
    }

    method Grow(newEl: Element, searchEl: Element, ghost i: nat)
      requires Valid() && newEl !in repr
      requires i < |nodes| && searchEl == nodes[i] && searchEl.seqNum != newEl.seqNum
      requires i == Search(Contents(), newEl.seqNum, |nodes| - 1)
      modifies this, repr, newEl
      ensures Valid() && Contents() == Grown(old(Contents()), old(newEl.seqNum))
      ensures repr == old(repr) + {newEl}
    {
      ghost var list := Contents();
      ghost var grown := Grown(list, newEl.seqNum);
      if SeqComp(searchEl.seqNum, newEl.seqNum) < 0 {
        assert grown == InsertAt(list, i + 1, newEl.seqNum);
        InsertAfter(newEl, searchEl, i);
        assert NumbersOf(nodes) == list;
        CountIn(newEl, i + 1);
      } else {
        assert grown == InsertAt(list, i, newEl.seqNum);
        InsertBefore(newEl, searchEl, i);
        assert NumbersOf(nodes) == list;
        CountIn(newEl, i);
      }
      assert Contents() == grown;
    }

    /** The percentage of the window that is filled. */
    method GetQuality() returns (quality: nat)
      requires Valid() && maxSize > 0 && |nodes| < 256
      ensures quality == Quality(|Contents()|, maxSize)
    {
      quality := 100 * size / maxSize % 256;
    }
  }
}
