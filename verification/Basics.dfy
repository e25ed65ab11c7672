/** Addresses and small facts about built-in collections that several tables share. */
module Basics {

  /** An Ethernet main address. The daemon only copies and compares addresses. */
  datatype Addr = Mac(value: nat)

  datatype Option<+T> = None | Some(value: T)

  /** One adjacency of the link-state graph: the far end and its 8-bit link quality. */
  datatype Link = Link(addr: Addr, quality: nat)

  /** `s` with `x` put in at position `k`. */
  function Splice<T>(s: seq<T>, k: nat, x: T): (r: seq<T>)
    requires k <= |s|
    ensures |r| == |s| + 1
  {
    s[..k] + [x] + s[k..]
  }

  lemma SpliceAt<T>(s: seq<T>, k: nat, x: T)
    requires k <= |s|
    ensures var r := Splice(s, k, x);
            forall j {:trigger r[j]} :: 0 <= j < |r| ==> r[j] == if j < k then s[j] else if j == k then x else s[j - 1]
  {
  }

  /** `s` without its element `k`. */
  function Without<T>(s: seq<T>, k: nat): (r: seq<T>)
    requires k < |s|
    ensures |r| == |s| - 1
  {
    s[..k] + s[k + 1..]
  }

  lemma WithoutAt<T>(s: seq<T>, k: nat)
    requires k < |s|
    ensures var r := Without(s, k);
            forall j {:trigger r[j]} :: 0 <= j < |r| ==> r[j] == s[if j < k then j else j + 1]
  {
  }

  lemma RemovalsCommute<K, V>(m: map<K, V>, a: set<K>, b: set<K>)
    ensures m - a - b == m - b - a
  {
  }

  lemma SubsetSize<T>(a: set<T>, b: set<T>)
    requires a <= b
    ensures |a| <= |b|
  {
    if a != {} {
      var x :| x in a;
      SubsetSize(a - {x}, b - {x});
    }
  }

  /** Lists the keys of a table once each. The hash tables of the daemon are walked in insertion
      order; every order is allowed here, so what is proved holds for that one too. */
  method Enumerate<T>(s: set<T>) returns (order: seq<T>)
    ensures forall x :: x in order <==> x in s
    ensures |order| == |s|
    ensures forall i, j :: 0 <= i < j < |order| ==> order[i] != order[j]
  {
    order := [];
    var rest := s;
    while rest != {}
      invariant rest <= s
      invariant forall x :: x in order <==> x in s - rest
      invariant |order| == |s| - |rest|
      invariant forall i, j :: 0 <= i < j < |order| ==> order[i] != order[j]
      decreases rest
    {
      var x :| x in rest;
      order, rest := order + [x], rest - {x};
    }
  }
}
