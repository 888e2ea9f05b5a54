/** The two orderings under which networks are sorted, and a sort function
    standing for the library's `sorted`. */
module Sorting {
  import opened Networks

  /** `ByLength` is the key (version, prefix length, address) that puts
      supernets first; `ByAddress` is the key (version, address, prefix
      length) of the final, readable order. */
  datatype Order = ByLength | ByAddress

  function Key(n: Net, o: Order): (k: (nat, nat, nat))
    ensures o.ByLength? ==> n == Net(k.0, k.2, k.1)
    ensures o.ByAddress? ==> n == Net(k.0, k.1, k.2)
  {
    match o
    case ByLength => (n.version, n.plen, n.addr)
    case ByAddress => (n.version, n.addr, n.plen)
  }

  /** Lexicographic comparison of keys, as Python compares tuples. */
  predicate KeyLe(x: (nat, nat, nat), y: (nat, nat, nat)) {
    x.0 < y.0 || (x.0 == y.0 && (x.1 < y.1 || (x.1 == y.1 && x.2 <= y.2)))
  }

  predicate NetLe(a: Net, b: Net, o: Order) {
    KeyLe(Key(a, o), Key(b, o))
  }

  predicate IsSorted(s: seq<Net>, o: Order) {
    forall i, j :: 0 <= i < j < |s| ==> NetLe(s[i], s[j], o)
  }

  predicate Distinct(s: seq<Net>) {
    forall i, j :: 0 <= i < j < |s| ==> s[i] != s[j]
  }

  /** Each key holds all three fields, so the order is total and antisymmetric:
      ties cannot occur between different networks. */
  lemma NetLeTotalOrder(a: Net, b: Net, c: Net, o: Order)
    ensures NetLe(a, b, o) || NetLe(b, a, o)
    ensures NetLe(a, b, o) && NetLe(b, a, o) ==> a == b
    ensures NetLe(a, b, o) && NetLe(b, c, o) ==> NetLe(a, c, o)
  {
  }

  function Insert(x: Net, s: seq<Net>, o: Order): (r: seq<Net>)
    requires IsSorted(s, o)
    ensures IsSorted(r, o)
    ensures multiset(r) == multiset(s) + multiset{x}
  {
    if s == [] then [x]
    else if NetLe(x, s[0], o) then
      SortedCons(x, s, o);
      [x] + s
    else
      var rest := Insert(x, s[1..], o);
      InsertBehind(x, s, rest, o);
      [s[0]] + rest
  }

  /** When `x` sorts after the head of `s`, the head goes in front of the
      insertion into the tail. */
  lemma InsertBehind(x: Net, s: seq<Net>, rest: seq<Net>, o: Order)
    requires s != [] && IsSorted(s, o) && !NetLe(x, s[0], o)
    requires IsSorted(rest, o) && multiset(rest) == multiset(s[1..]) + multiset{x}
    ensures IsSorted([s[0]] + rest, o)
    ensures multiset([s[0]] + rest) == multiset(s) + multiset{x}
  {
    assert s == [s[0]] + s[1..];
    forall k | k in rest
      ensures NetLe(s[0], k, o)
    {
      assert k in multiset(rest);
      if k != x {
        var j :| 0 <= j < |s[1..]| && s[1..][j] == k;
        assert s[j + 1] == k;
      }
    }
    SortedCons(s[0], rest, o);
  }

  lemma SortedCons(h: Net, t: seq<Net>, o: Order)
    requires IsSorted(t, o)
    requires forall k :: k in t ==> NetLe(h, k, o)
    ensures IsSorted([h] + t, o)
  {
    var s := [h] + t;
    forall i, j | 0 <= i < j < |s|
      ensures NetLe(s[i], s[j], o)
    {
      assert s[j] == t[j - 1];
      if i > 0 {
        assert s[i] == t[i - 1];
      }
    }
  }

  /** The library's `sorted`: an ordered permutation of its input. */
  function Sort(s: seq<Net>, o: Order): (r: seq<Net>)
    ensures IsSorted(r, o)
    ensures multiset(r) == multiset(s)
  {
    if s == [] then []
    else
      assert s == [s[0]] + s[1..];
      Insert(s[0], Sort(s[1..], o), o)
  }

  /** Two sorted, duplicate-free sequences with the same elements are equal:
      the sorted order of a set of networks is unique, whatever the sort's
      stability. */
  lemma {:induction false} SortedDistinctUnique(a: seq<Net>, b: seq<Net>, o: Order)
    requires IsSorted(a, o) && IsSorted(b, o) && Distinct(a) && Distinct(b)
    requires forall x :: x in a <==> x in b
    ensures a == b
  {
    SameElementsEmpty(a, b);
    if a != [] {
      assert a[0] in b && b[0] in a;
      NetLeTotalOrder(a[0], b[0], a[0], o);
      assert a[0] == b[0];
      forall x | x in a[1..]
        ensures x in b[1..]
      {
        assert x in b && x != b[0];
      }
      forall x | x in b[1..]
        ensures x in a[1..]
      {
        assert x in a && x != a[0];
      }
      SortedDistinctUnique(a[1..], b[1..], o);
      assert a == [a[0]] + a[1..] && b == [b[0]] + b[1..];
    }
  }

  lemma SameElementsEmpty(a: seq<Net>, b: seq<Net>)
    requires forall x :: x in a <==> x in b
    ensures a == [] <==> b == []
  {
    if a != [] {
      assert a[0] in a;
    }
    if b != [] {
      assert b[0] in b;
    }
  }

  /** A permutation keeps a sequence free of duplicates. */
  lemma {:induction false} DistinctIffSingleCounts(s: seq<Net>)
    ensures Distinct(s) <==> forall x :: multiset(s)[x] <= 1
  {
    if s != [] {
      var t := s[1..];
      assert s == [s[0]] + t;
      DistinctIffSingleCounts(t);
      if Distinct(s) {
        assert Distinct(t);
        forall j | 0 <= j < |t|
          ensures t[j] != s[0]
        {
          assert t[j] == s[j + 1];
        }
      }
      if forall x :: multiset(s)[x] <= 1 {
        assert forall x :: multiset(t)[x] <= multiset(s)[x];
        assert multiset(t)[s[0]] == 0;
        forall i, j | 0 <= i < j < |s|
          ensures s[i] != s[j]
        {
          if i == 0 {
            assert s[j] in t;
          } else {
            assert s[i] == t[i - 1] && s[j] == t[j - 1];
          }
        }
      }
    }
  }

  lemma DistinctPermutation(s: seq<Net>, t: seq<Net>)
    requires Distinct(s) && multiset(s) == multiset(t)
    ensures Distinct(t)
  {
    DistinctIffSingleCounts(s);
    DistinctIffSingleCounts(t);
  }
}
