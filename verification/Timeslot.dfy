/** The expiry queue in place: a doubly linked list sorted from tail (soonest) to head, with a hash
    from objects to their elements. */
module Timeslot {
  import opened Basics
  import opened Queues

  class Element<T> {
    var prev: Element?<T>   // towards the tail, sooner
    var next: Element?<T>   // towards the head, later
    var due: int
    var obj: T

    constructor (due: int, obj: T)
      ensures this.due == due && this.obj == obj && prev == null && next == null
    {
      this.due, this.obj, prev, next := due, obj, null, null;
    }
  }

  class Timeslot<T(==)> {
    var head: Element?<T>
    var tail: Element?<T>
    var size: nat
    var elements: map<T, Element<T>>
    ghost var nodes: seq<Element<T>>   // from tail to head
    ghost var repr: set<Element<T>>

    static ghost predicate Linked(ns: seq<Element<T>>)
      reads ns
    {
      (ns != [] ==> ns[0].prev == null && ns[|ns| - 1].next == null) &&
      (forall i {:trigger ns[i].prev} :: 1 <= i < |ns| ==> ns[i].prev == ns[i - 1]) &&
      (forall i {:trigger ns[i].next} :: 0 <= i < |ns| - 1 ==> ns[i].next == ns[i + 1])
    }

    static ghost function SlotsOf(ns: seq<Element<T>>): (q: Queue<T>)
      reads ns
      ensures |q| == |ns| && forall i {:trigger q[i]} :: 0 <= i < |ns| ==> q[i] == Slot(ns[i].due, ns[i].obj)
    {
      seq(|ns|, i requires 0 <= i < |ns| reads ns => Slot(ns[i].due, ns[i].obj))
    }

    /** The hash has exactly the listed elements, by their objects. */
    static ghost predicate Hashes(es: map<T, Element<T>>, ns: seq<Element<T>>)
      reads ns
    {
      (forall i {:trigger ns[i].obj} :: 0 <= i < |ns| ==> ns[i].obj in es && es[ns[i].obj] == ns[i]) &&
      forall o {:trigger es[o]} :: o in es ==> es[o] in ns && es[o].obj == o
    }

    ghost predicate Valid()
      reads this, repr
    {
      (forall i {:trigger nodes[i]} :: 0 <= i < |nodes| ==> nodes[i] in repr) &&
      size == |nodes| && Linked(nodes) &&
      tail == (if nodes == [] then null else nodes[0]) &&
      head == (if nodes == [] then null else nodes[|nodes| - 1]) &&
      Hashes(elements, nodes) && WellFormed(SlotsOf(nodes))
    }

    /** The queue the list holds, soonest first. */
    ghost function Contents(): Queue<T>
      requires Valid()
      reads this, repr
    {
      SlotsOf(nodes)
    }

    constructor ()
      ensures Valid() && Contents() == [] && repr == {}
    {
      head, tail, size, elements := null, null, 0, map[];
      nodes, repr := [], {};
    }

    // -------------------------------------------------------------- removal

    /** The pointers of the list `ns` once its element `k` is taken out. */
    ghost predicate Cut(ns: seq<Element<T>>, k: nat)
      reads ns
    {
      k < |ns| &&
      (forall j {:trigger ns[j].prev} :: 0 <= j < |ns| && j != k ==>
        ns[j].prev == if j == 0 then null
                      else if j - 1 == k then (if k == 0 then null else ns[k - 1])
                      else ns[j - 1]) &&
      (forall j {:trigger ns[j].next} :: 0 <= j < |ns| && j != k ==>
        ns[j].next == if j == |ns| - 1 then null
                      else if j + 1 == k then (if k == |ns| - 1 then null else ns[k + 1]) else ns[j + 1])
    }

    lemma CutLinks(ns: seq<Element<T>>, k: nat)
      requires Cut(ns, k)
      ensures Linked(Without(ns, k))
    {
      var r := Without(ns, k);
      WithoutAt(ns, k);
      if r != [] {
        assert r[0] == ns[if k == 0 then 1 else 0];
        assert r[|r| - 1] == ns[if k == |ns| - 1 then |ns| - 2 else |ns| - 1];
      }
      forall j | 1 <= j < |r| ensures r[j].prev == r[j - 1] && r[j - 1].next == r[j] {
      }
    }

    lemma {:induction false} WithoutIsDelete(q: Queue<T>, k: nat)
      requires Unique(q) && k < |q|
      ensures Delete(q, q[k].obj) == Without(q, k)
    {
      if k > 0 {
        assert q[1..][k - 1] == q[k];
        WithoutIsDelete(q[1..], k - 1);
        assert Without(q, k) == [q[0]] + Without(q[1..], k - 1);
      } else {
        assert Without(q, 0) == q[1..];
      }
    }

    lemma SlotsWithout(ns: seq<Element<T>>, k: nat)
      requires k < |ns| && WellFormed(SlotsOf(ns))
      ensures SlotsOf(Without(ns, k)) == Delete(SlotsOf(ns), ns[k].obj)
      ensures WellFormed(SlotsOf(Without(ns, k)))
    {
      var q := SlotsOf(ns);
      WithoutIsDelete(q, k);
      DeleteRemoves(q, ns[k].obj);
      var a, b := SlotsOf(Without(ns, k)), Without(q, k);
      WithoutAt(ns, k);
      WithoutAt(q, k);
      forall j | 0 <= j < |a| ensures a[j] == b[j] {
        assert a[j] == Slot(Without(ns, k)[j].due, Without(ns, k)[j].obj);
      }
    }

    /** Takes element `k` out of the list and the hash. */
    method Unlink(el: Element<T>, ghost k: nat)
      requires Valid() && k < |nodes| && el == nodes[k]
      modifies this, repr
      ensures Valid() && repr == old(repr) && Contents() == Delete(old(Contents()), old(el.obj))
    {
      ghost var q := Contents();
      UnlinkPointers(el, k);
      assert SlotsOf(nodes) == q;
      CountOut(el, k);
    }

    method CountOut(el: Element<T>, ghost k: nat)
      requires Cut(nodes, k) && el == nodes[k] && size == |nodes|
      requires forall j {:trigger nodes[j]} :: 0 <= j < |nodes| ==> nodes[j] in repr
      requires Hashes(elements, nodes) && WellFormed(SlotsOf(nodes))
      requires tail == if k > 0 then nodes[0] else if |nodes| == 1 then null else nodes[1]
      requires head == if k < |nodes| - 1 then nodes[|nodes| - 1] else if |nodes| == 1 then null else nodes[|nodes| - 2]
      modifies this`size, this`elements, this`nodes
      ensures Valid() && SlotsOf(nodes) == Delete(old(SlotsOf(nodes)), el.obj)
    {
      ghost var before, was := nodes, elements;
      elements := elements - {el.obj};
      size := size - 1;
      nodes := Without(before, k);
      assert Linked(nodes) by { CutLinks(before, k); }
      assert SlotsOf(nodes) == Delete(SlotsOf(before), el.obj) && WellFormed(SlotsOf(nodes)) by {
        SlotsWithout(before, k);
      }
      assert Hashes(elements, nodes) by { HashWithout(elements, was, before, k); }
      forall j | 0 <= j < |nodes| ensures nodes[j] in repr { WithoutAt(before, k); }
      assert nodes != [] ==> tail == nodes[0] && head == nodes[|nodes| - 1] by { WithoutAt(before, k); }
    }

    lemma HashWithout(es: map<T, Element<T>>, was: map<T, Element<T>>, ns: seq<Element<T>>, k: nat)
      requires Hashes(was, ns) && k < |ns| && es == was - {ns[k].obj}
      requires Unique(SlotsOf(ns))
      ensures Hashes(es, Without(ns, k))
    {
      var r := Without(ns, k);
      WithoutAt(ns, k);
      var q := SlotsOf(ns);
      forall j | 0 <= j < |r| ensures r[j].obj in es && es[r[j].obj] == r[j] {
        var i := if j < k then j else j + 1;
        assert r[j] == ns[i] && q[i].obj != q[k].obj;
      }
      forall o | o in es ensures es[o] in r && es[o].obj == o {
        assert was[o] == es[o];
        var i :| 0 <= i < |ns| && ns[i] == was[o];
        assert r[if i < k then i else i - 1] == ns[i];
      }
    }

    /** Distinct objects sit in distinct elements. */
    lemma DistinctElements()
      requires Valid()
      ensures forall i, j :: 0 <= i < j < |nodes| ==> nodes[i] != nodes[j]
    {
      var q := SlotsOf(nodes);
      forall i, j | 0 <= i < j < |nodes| ensures nodes[i] != nodes[j] { assert q[i].obj != q[j].obj; }
    }

    method UnlinkPointers(el: Element<T>, ghost k: nat)
      requires Valid() && k < |nodes| && el == nodes[k]
      modifies this`head, this`tail, repr
      ensures Cut(nodes, k)
      ensures forall j :: 0 <= j < |nodes| ==> nodes[j].due == old(nodes[j].due) && nodes[j].obj == old(nodes[j].obj)
      ensures tail == if k > 0 then old(tail) else if |nodes| == 1 then null else nodes[1]
      ensures head == if k < |nodes| - 1 then old(head) else if |nodes| == 1 then null else nodes[|nodes| - 2]
    {
      assert k > 0 ==> el.prev == nodes[k - 1];
      assert k < |nodes| - 1 ==> el.next == nodes[k + 1];
      DistinctElements();
      if el.prev != null {
        el.prev.next := el.next;
      }
      if el.next != null {
        el.next.prev := el.prev;
      }
      if tail == el {
        tail := tail.next;
      }
      if head == el {
        head := head.prev;
      }
    }

    /** Removes an object, if it is queued. */
    method DeleteObject(o: T) returns (found: bool)
      requires Valid()
      modifies this, repr
      ensures Valid() && repr == old(repr)
      ensures Contents() == Delete(old(Contents()), o)
      ensures found <==> Has(old(Contents()), o)
    {
      found := o in elements;
      if found {
        var el := elements[o];
        ghost var k :| 0 <= k < |nodes| && nodes[k] == el;
        assert Contents()[k] == Slot(el.due, o);
        Unlink(el, k);
      } else {
        forall i | 0 <= i < |nodes| ensures Contents()[i].obj != o { assert nodes[i].obj in elements; }
        AbsentIsKept(Contents(), o);
      }
    }

    lemma {:induction false} AbsentIsKept(q: Queue<T>, o: T)
      requires forall i :: 0 <= i < |q| ==> q[i].obj != o
      ensures Delete(q, o) == q && !Has(q, o)
    {
      if q != [] {
        AbsentIsKept(q[1..], o);
      }
    }

    // -------------------------------------------------------------- insertion

    /** The pointers of the list `ns` once `el` is linked in at position `k`. */
    ghost predicate Spliced(ns: seq<Element<T>>, k: nat, el: Element<T>)
      reads ns, el
    {
      k <= |ns| &&
      el.prev == (if k > 0 then ns[k - 1] else null) &&
      el.next == (if k < |ns| then ns[k] else null) &&
      (forall j {:trigger ns[j].prev} :: 0 <= j < |ns| ==>
        ns[j].prev == if j == k then el else if j == 0 then null else ns[j - 1]) &&
      (forall j {:trigger ns[j].next} :: 0 <= j < |ns| ==>
        ns[j].next == if j == k - 1 then el else if j == |ns| - 1 then null else ns[j + 1])
    }

    lemma SpliceLinks(ns: seq<Element<T>>, k: nat, el: Element<T>)
      requires Spliced(ns, k, el)
      ensures Linked(Splice(ns, k, el))
    {
      var r := Splice(ns, k, el);
      SpliceAt(ns, k, el);
      forall j | 1 <= j < |r| ensures r[j].prev == r[j - 1] && r[j - 1].next == r[j] {
      }
    }

    lemma SlotsSpliced(ns: seq<Element<T>>, k: nat, el: Element<T>)
      requires k <= |ns|
      ensures SlotsOf(Splice(ns, k, el)) == Splice(SlotsOf(ns), k, Slot(el.due, el.obj))
    {
      var r, q := Splice(ns, k, el), SlotsOf(ns);
      SpliceAt(ns, k, el);
      SpliceAt(q, k, Slot(el.due, el.obj));
      var a, b := SlotsOf(r), Splice(q, k, Slot(el.due, el.obj));
      forall j | 0 <= j < |a| ensures a[j] == b[j] {
        assert a[j] == Slot(r[j].due, r[j].obj);
      }
    }

    lemma HashSpliced(es: map<T, Element<T>>, ns: seq<Element<T>>, k: nat, el: Element<T>)
      requires Hashes(es, ns) && k <= |ns| && el.obj !in es
      ensures Hashes(es[el.obj := el], Splice(ns, k, el))
    {
      var r, es' := Splice(ns, k, el), es[el.obj := el];
      SpliceAt(ns, k, el);
      forall j | 0 <= j < |r| ensures r[j].obj in es' && es'[r[j].obj] == r[j] {
        if j != k {
          var n := ns[if j < k then j else j - 1];
          assert r[j] == n && n.obj in es;
        }
      }
      forall o | o in es' ensures es'[o] in r && es'[o].obj == o {
        if o == el.obj {
          assert r[k] == el;
        } else {
          assert es[o] in ns;
          var i :| 0 <= i < |ns| && ns[i] == es[o];
          assert r[if i < k then i else i + 1] == ns[i];
        }
      }
    }

    method LinkAfter(el: Element<T>, searchEl: Element<T>, ghost i: nat)
      requires Valid() && el !in repr && i < |nodes| && searchEl == nodes[i]
      modifies this`head, repr, el
      ensures Spliced(nodes, i + 1, el) && el.due == old(el.due) && el.obj == old(el.obj)
      ensures forall j :: 0 <= j < |nodes| ==> nodes[j].due == old(nodes[j].due) && nodes[j].obj == old(nodes[j].obj)
      ensures head == if i == |nodes| - 1 then el else old(head)
    {
      assert i + 1 < |nodes| ==> searchEl.next == nodes[i + 1];
      DistinctElements();
      el.prev := searchEl;
      el.next := searchEl.next;
      searchEl.next := el;
      if el.next != null {
        el.next.prev := el;
      }
      if head == searchEl {
        head := el;
      }
    }

    method LinkBefore(el: Element<T>, searchEl: Element<T>, ghost i: nat)
      requires Valid() && el !in repr && i < |nodes| && searchEl == nodes[i]
      modifies this`tail, repr, el
      ensures Spliced(nodes, i, el) && el.due == old(el.due) && el.obj == old(el.obj)
      ensures forall j :: 0 <= j < |nodes| ==> nodes[j].due == old(nodes[j].due) && nodes[j].obj == old(nodes[j].obj)
      ensures tail == if i == 0 then el else old(tail)
    {
      assert i > 0 ==> searchEl.prev == nodes[i - 1];
      DistinctElements();
      el.prev := searchEl.prev;
      el.next := searchEl;
      searchEl.prev := el;
      if el.prev != null {
        el.prev.next := el;
      }
      if tail == searchEl {
        tail := el;
      }
    }

    /** From here on the linked-in element belongs to the queue. */
    method CountIn(el: Element<T>, ghost k: nat, ghost q: Queue<T>)
      requires nodes != [] && size == |nodes| && el !in repr && Spliced(nodes, k, el) && el.obj !in elements
      requires forall j {:trigger nodes[j]} :: 0 <= j < |nodes| ==> nodes[j] in repr
      requires Hashes(elements, nodes)
      requires q == Splice(SlotsOf(nodes), k, Slot(el.due, el.obj)) && WellFormed(q)
      requires tail == if k == 0 then el else nodes[0]
      requires head == if k == |nodes| then el else nodes[|nodes| - 1]
      modifies this`size, this`elements, this`nodes, this`repr
      ensures Valid() && Contents() == q && repr == old(repr) + {el}
    {
      ghost var before, was := nodes, elements;
      elements := elements[el.obj := el];
      size := size + 1;
      nodes, repr := Splice(before, k, el), repr + {el};
      assert Linked(nodes) by { SpliceLinks(before, k, el); }
      assert SlotsOf(nodes) == q by { SlotsSpliced(before, k, el); }
      assert Hashes(elements, nodes) by { HashSpliced(was, before, k, el); }
      forall j | 0 <= j < |nodes| ensures nodes[j] in repr { SpliceAt(before, k, el); }
      assert tail == nodes[0] && head == nodes[|before|];
    }

    /** The search for an element's place, from the late end. */
    method FindPlace(due: int) returns (searchEl: Element<T>, ghost i: nat)
      requires Valid() && nodes != []
      ensures i < |nodes| && searchEl == nodes[i] && i == Place(Contents(), due, |nodes| - 1)
    {
      searchEl, i := head, |nodes| - 1;
      while searchEl.prev != null && due < searchEl.due
        invariant 0 <= i < |nodes| && searchEl == nodes[i]
        invariant Place(Contents(), due, i) == Place(Contents(), due, |nodes| - 1)
        decreases i
      {
        assert Contents()[i].due == searchEl.due;
        searchEl := searchEl.prev;
        i := i - 1;
      }
      assert Contents()[i].due == searchEl.due;
    }

    method InsertElement(due: int, o: T)
      requires Valid() && nodes != [] && o !in elements
      modifies this, repr
      ensures Valid() && fresh(repr - old(repr)) && Contents() == Insert(old(Contents()), due, o)
    {
      ghost var q := Contents();
      assert WellFormed(Insert(q, due, o)) by { AbsentHasNone(o); InsertSorts(q, due, o); }
      var searchEl, i := FindPlace(due);
      assert q[i].due == searchEl.due;
      var el := new Element(due, o);
      LinkIn(el, searchEl, i, Insert(q, due, o));
    }

    method LinkIn(el: Element<T>, searchEl: Element<T>, ghost i: nat, ghost q: Queue<T>)
      requires Valid() && i < |nodes| && searchEl == nodes[i] && el !in repr && el.obj !in elements
      requires q == Splice(Contents(), if el.due >= searchEl.due then i + 1 else i, Slot(el.due, el.obj))
      requires WellFormed(q)
      modifies this, repr, el
      ensures Valid() && repr == old(repr) + {el} && Contents() == q
    {
      ghost var was := SlotsOf(nodes);
      if el.due >= searchEl.due {
        LinkAfter(el, searchEl, i);
        assert SlotsOf(nodes) == was;
        CountIn(el, i + 1, q);
      } else {
        LinkBefore(el, searchEl, i);
        assert SlotsOf(nodes) == was;
        CountIn(el, i, q);
      }
    }

    lemma AbsentHasNone(o: T)
      requires Valid()
      ensures o !in elements <==> !Has(Contents(), o)
    {
      var q := Contents();
      forall i | 0 <= i < |q| ensures q[i].obj in elements { assert q[i] == Slot(nodes[i].due, nodes[i].obj); }
      if o in elements {
        var i :| 0 <= i < |nodes| && nodes[i] == elements[o];
        assert q[i] == Slot(elements[o].due, o);
      }
    }

    /** Puts the first element into an empty queue. */
    method InsertFirst(due: int, o: T)
      requires Valid() && nodes == []
      modifies this
      ensures Valid() && fresh(repr - old(repr)) && Contents() == [Slot(due, o)]
    {
      var el := new Element(due, o);
      elements := map[o := el];
      head, tail, size := el, el, 1;
      nodes, repr := [el], repr + {el};
    }

    // -------------------------------------------------------------- purge

    /** Queues an object, moving it if it was queued before, and purges what is due, unless the
        queue was empty. The objects purged are reported in the order the purger is called. */
    method AddObject(due: int, o: T, now: int) returns (purged: Queue<T>)
      requires Valid()
      modifies this, repr
      ensures Valid() && fresh(repr - old(repr))
      ensures Contents() == AddAndPurge(old(Contents()), due, o, now)
      ensures purged == if Delete(old(Contents()), o) == [] then [] else Expired(Add(old(Contents()), due, o), now)
    {
      ghost var q := Contents();
      var found := DeleteObject(o);
      DeleteRemoves(q, o);
      AbsentHasNone(o);
      purged := AddNew(due, o, now);
    }

    /** Queues an object that is not queued, and purges unless the queue was empty. */
    method AddNew(due: int, o: T, now: int) returns (purged: Queue<T>)
      requires Valid() && o !in elements
      modifies this, repr
      ensures Valid() && fresh(repr - old(repr))
      ensures var q := old(Contents());
              if q == [] then Contents() == [Slot(due, o)] && purged == []
              else Contents() == Live(Insert(q, due, o), now) && purged == Expired(Insert(q, due, o), now)
    {
      purged := [];
      if size == 0 {
        InsertFirst(due, o);
      } else {
        InsertElement(due, o);
        purged := PurgeObjects(now);
      }
    }

    method UnlinkTail()
      requires Valid() && nodes != []
      modifies this`head, this`tail, repr
      ensures Cut(nodes, 0)
      ensures forall j :: 0 <= j < |nodes| ==> nodes[j].due == old(nodes[j].due) && nodes[j].obj == old(nodes[j].obj)
      ensures tail == if |nodes| == 1 then null else nodes[1]
      ensures head == if |nodes| == 1 then null else nodes[|nodes| - 1]
    {
      assert |nodes| > 1 ==> tail.next == nodes[1];
      DistinctElements();
      var searchEl := tail.next;
      if searchEl != null {
        searchEl.prev := null;
      }
      if tail == head {
        tail, head := null, null;
      } else {
        tail := searchEl;
      }
    }

    /** Removes the soonest element. */
    method PopTail() returns (el: Element<T>)
      requires Valid() && nodes != []
      modifies this, repr
      ensures Valid() && repr == old(repr)
      ensures Contents() == old(Contents())[1..] && Slot(el.due, el.obj) == old(Contents())[0]
    {
      el := tail;
      ghost var q := Contents();
      assert q[0] == Slot(el.due, el.obj);
      UnlinkTail();
      assert SlotsOf(nodes) == q;
      CountOut(el, 0);
      assert Delete(q, el.obj) == q[1..];
    }

    /** Removes what is due. */
    method PurgeObjects(now: int) returns (purged: Queue<T>)
      requires Valid()
      modifies this, repr
      ensures Valid() && repr == old(repr)
      ensures Contents() == Live(old(Contents()), now) && purged == Expired(old(Contents()), now)
    {
      purged := [];
      while tail != null && tail.due <= now
        invariant Valid() && repr == old(repr)
        invariant Live(Contents(), now) == Live(old(Contents()), now)
        invariant purged + Expired(Contents(), now) == Expired(old(Contents()), now)
        decreases |nodes|
      {
        ghost var q := Contents();
        assert q[0] == Slot(tail.due, tail.obj);
        var el := PopTail();
        assert Expired(q, now) == [q[0]] + Expired(q[1..], now);
        purged := purged + [Slot(el.due, el.obj)];
      }
      if tail != null {
        assert Contents()[0] == Slot(tail.due, tail.obj);
      }
    }
  }
}
