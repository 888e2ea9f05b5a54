/** Subnet deduplication: keep supernets, drop every network that is
    covered by a network already kept. */
module Dedupe {
  import opened Networks
  import opened Sorting

  /** No network of `s` contains a network at another position of `s`;
      networks of different versions are never compared. */
  predicate Antichain(s: seq<Net>)
    requires AllValid(s)
  {
    forall i, j :: 0 <= i < |s| && 0 <= j < |s| && i != j && s[i].version == s[j].version ==>
      !SubnetOf(s[i], s[j])
  }

  /** `n` lies in some network of `kept` of its own version. */
  predicate CoveredBy(n: Net, kept: seq<Net>)
    requires ValidNet(n) && AllValid(kept)
  {
    exists k :: k in kept && k.version == n.version && SubnetOf(n, k)
  }

  predicate Covers(kept: seq<Net>, nets: seq<Net>)
    requires AllValid(kept) && AllValid(nets)
  {
    forall n :: n in nets ==> CoveredBy(n, kept)
  }

  /** `n` is not strictly contained in any network of `nets`. */
  predicate IsMaximal(n: Net, nets: seq<Net>)
    requires ValidNet(n) && AllValid(nets)
  {
    forall m :: m in nets && m.version == n.version && SubnetOf(n, m) ==> m == n
  }

  /** What the deduplicated list promises: drawn from the input, free of
      redundant networks, covering the input, in address order. */
  predicate DedupSpec(nets: seq<Net>, r: seq<Net>)
    requires AllValid(nets)
  {
    && AllValid(r)
    && multiset(r) <= multiset(nets)
    && Antichain(r)
    && Covers(r, nets)
    && IsSorted(r, ByAddress)
  }

  method DedupeSubnets(nets: seq<Net>) returns (r: seq<Net>)
    requires AllValid(nets)
    ensures AllValid(r) && multiset(r) <= multiset(nets)
    ensures Antichain(r)
    ensures Covers(r, nets)
    ensures IsSorted(r, ByAddress)
  {
    var ordered := Sort(nets, ByLength);
    var kept: seq<Net> := [];
    ScanStart(nets, ordered);
    for i := 0 to |ordered|
      invariant Scanned(kept, ordered, i)
    {
      var net := ordered[i];
      var covered := false;
      for j := 0 to |kept|
        invariant forall m :: 0 <= m < j ==> !(net.version == kept[m].version && SubnetOf(net, kept[m]))
      {
        if net.version == kept[j].version && SubnetOf(net, kept[j]) {
          covered := true;
          break;
        }
      }
      if covered {
        ScanCovered(kept, ordered, i);
      } else {
        ScanKept(kept, ordered, i);
        kept := kept + [net];
      }
    }
    r := Sort(kept, ByAddress);
    ScanDone(kept, ordered, nets, r);
  }

  /** The invariant of the scan over the length-ordered input: after the
      first `i` networks, `kept` is an antichain drawn from them and covering
      them, and no kept network sorts after a network still to come. */
  ghost predicate Scanned(kept: seq<Net>, ordered: seq<Net>, i: nat)
  {
    && i <= |ordered|
    && AllValid(ordered)
    && IsSorted(ordered, ByLength)
    && AllValid(kept)
    && multiset(kept) <= multiset(ordered[..i])
    && Antichain(kept)
    && Covers(kept, ordered[..i])
    && forall k, j :: k in kept && i <= j < |ordered| ==> NetLe(k, ordered[j], ByLength)
  }

  lemma ScanStart(nets: seq<Net>, ordered: seq<Net>)
    requires AllValid(nets) && ordered == Sort(nets, ByLength)
    ensures Scanned([], ordered, 0)
  {
    assert forall n :: n in ordered ==> n in multiset(nets);
  }

  lemma ScanCovered(kept: seq<Net>, ordered: seq<Net>, i: nat)
    requires Scanned(kept, ordered, i) && i < |ordered|
    requires exists m :: 0 <= m < |kept| && ordered[i].version == kept[m].version && SubnetOf(ordered[i], kept[m])
    ensures Scanned(kept, ordered, i + 1)
  {
    assert ordered[..i + 1] == ordered[..i] + [ordered[i]];
    CoversCovered(kept, ordered[..i], ordered[i]);
  }

  lemma ScanKept(kept: seq<Net>, ordered: seq<Net>, i: nat)
    requires Scanned(kept, ordered, i) && i < |ordered|
    requires forall m :: 0 <= m < |kept| ==> !(ordered[i].version == kept[m].version && SubnetOf(ordered[i], kept[m]))
    ensures Scanned(kept + [ordered[i]], ordered, i + 1)
  {
    var net := ordered[i];
    assert ordered[..i + 1] == ordered[..i] + [net];
    assert net in ordered;
    AntichainAppend(kept, net);
    CoversKept(kept, ordered[..i], net);
    var kept' := kept + [net];
    forall k, j | k in kept' && i + 1 <= j < |ordered|
      ensures NetLe(k, ordered[j], ByLength)
    {
      if k == net {
        assert NetLe(ordered[i], ordered[j], ByLength);
      } else {
        assert k in kept;
      }
    }
  }

  lemma ScanDone(kept: seq<Net>, ordered: seq<Net>, nets: seq<Net>, r: seq<Net>)
    requires Scanned(kept, ordered, |ordered|)
    requires AllValid(nets) && multiset(ordered) == multiset(nets)
    requires multiset(r) == multiset(kept) && IsSorted(r, ByAddress)
    ensures AllValid(r) && multiset(r) <= multiset(nets)
    ensures Antichain(r)
    ensures Covers(r, nets)
  {
    assert ordered[..|ordered|] == ordered;
    AntichainPermutation(kept, r);
    CoversPermutation(kept, r, ordered, nets);
  }

  lemma CoversCovered(kept: seq<Net>, done: seq<Net>, net: Net)
    requires AllValid(kept) && AllValid(done) && ValidNet(net)
    requires Covers(kept, done)
    requires exists m :: 0 <= m < |kept| && net.version == kept[m].version && SubnetOf(net, kept[m])
    ensures AllValid(done + [net]) && Covers(kept, done + [net])
  {
    var m :| 0 <= m < |kept| && net.version == kept[m].version && SubnetOf(net, kept[m]);
    assert kept[m] in kept;
  }

  lemma CoversKept(kept: seq<Net>, done: seq<Net>, net: Net)
    requires AllValid(kept) && AllValid(done) && ValidNet(net)
    requires Covers(kept, done)
    ensures AllValid(kept + [net]) && AllValid(done + [net]) && Covers(kept + [net], done + [net])
  {
    var kept' := kept + [net];
    assert net in kept' && SubnetOf(net, net);
    forall n | n in done
      ensures CoveredBy(n, kept')
    {
      var k :| k in kept && k.version == n.version && SubnetOf(n, k);
      assert k in kept';
    }
  }

  lemma CoversPermutation(kept: seq<Net>, r: seq<Net>, done: seq<Net>, nets: seq<Net>)
    requires AllValid(kept) && AllValid(done) && AllValid(nets) && AllValid(r)
    requires multiset(kept) == multiset(r) && multiset(done) == multiset(nets)
    requires Covers(kept, done)
    ensures Covers(r, nets)
  {
    forall n | n in nets
      ensures CoveredBy(n, r)
    {
      assert n in multiset(done);
      assert n in done && CoveredBy(n, kept);
      var k :| k in kept && k.version == n.version && SubnetOf(n, k);
      assert k in multiset(r);
    }
  }

  /** Appending a network that no kept network contains, and that is no
      coarser than any kept network, keeps the list an antichain. */
  lemma AntichainAppend(kept: seq<Net>, net: Net)
    requires AllValid(kept) && ValidNet(net) && Antichain(kept)
    requires forall m :: 0 <= m < |kept| ==> !(net.version == kept[m].version && SubnetOf(net, kept[m]))
    requires forall k :: k in kept ==> NetLe(k, net, ByLength)
    ensures AllValid(kept + [net]) && Antichain(kept + [net])
  {
    var s := kept + [net];
    forall i, j | 0 <= i < |s| && 0 <= j < |s| && i != j && s[i].version == s[j].version
      ensures !SubnetOf(s[i], s[j])
    {
      if j == |kept| {
        assert s[i] == kept[i] && NetLe(kept[i], net, ByLength);
      } else if i == |kept| {
        assert s[j] == kept[j];
      } else {
        assert s[i] == kept[i] && s[j] == kept[j];
      }
    }
  }

  lemma AntichainDistinct(s: seq<Net>)
    requires AllValid(s) && Antichain(s)
    ensures Distinct(s)
  {
    forall i, j | 0 <= i < j < |s|
      ensures s[i] != s[j]
    {
      assert SubnetOf(s[i], s[i]);
    }
  }

  /** Reordering an antichain leaves an antichain. */
  lemma AntichainPermutation(s: seq<Net>, t: seq<Net>)
    requires AllValid(s) && Antichain(s) && multiset(s) == multiset(t)
    ensures AllValid(t) && Antichain(t)
  {
    assert forall x :: x in t <==> x in multiset(s);
    assert AllValid(t);
    AntichainDistinct(s);
    DistinctPermutation(s, t);
    forall i, j | 0 <= i < |t| && 0 <= j < |t| && i != j && t[i].version == t[j].version
      ensures !SubnetOf(t[i], t[j])
    {
      assert t[i] in multiset(s) && t[j] in multiset(s);
      var p :| 0 <= p < |s| && s[p] == t[i];
      var q :| 0 <= q < |s| && s[q] == t[j];
      if i < j {
        assert t[i] != t[j];
      } else {
        assert t[j] != t[i];
      }
    }
  }

  // ---------------------------------------------------------------------
  // What the specification determines

  /** The kept networks are exactly the input networks that no other input
      network contains. */
  lemma DedupIsMaximal(nets: seq<Net>, r: seq<Net>)
    requires AllValid(nets) && DedupSpec(nets, r)
    ensures forall n :: n in r <==> n in nets && IsMaximal(n, nets)
  {
    forall n | n in r
      ensures n in nets && IsMaximal(n, nets)
    {
      assert n in multiset(nets);
      forall m | m in nets && m.version == n.version && SubnetOf(n, m)
        ensures m == n
      {
        var k :| k in r && k.version == m.version && SubnetOf(m, k);
        SubnetOfTransitive(n, m, k);
        var p :| 0 <= p < |r| && r[p] == n;
        var q :| 0 <= q < |r| && r[q] == k;
        assert p == q;
        SubnetOfAntisymmetric(n, m);
      }
    }
    forall n | n in nets && IsMaximal(n, nets)
      ensures n in r
    {
      var k :| k in r && k.version == n.version && SubnetOf(n, k);
      assert k in multiset(nets);
    }
  }

  /** The specification leaves no freedom: two results for the same input
      are the same list. */
  lemma DedupDeterministic(nets: seq<Net>, r1: seq<Net>, r2: seq<Net>)
    requires AllValid(nets) && DedupSpec(nets, r1) && DedupSpec(nets, r2)
    ensures r1 == r2
  {
    DedupIsMaximal(nets, r1);
    DedupIsMaximal(nets, r2);
    AntichainDistinct(r1);
    AntichainDistinct(r2);
    SortedDistinctUnique(r1, r2, ByAddress);
  }

  /** Deduplicating a deduplicated list gives it back unchanged. */
  lemma DedupIdempotent(nets: seq<Net>, r: seq<Net>, r2: seq<Net>)
    requires AllValid(nets) && DedupSpec(nets, r) && DedupSpec(r, r2)
    ensures r2 == r
  {
    forall n | n in r
      ensures CoveredBy(n, r)
    {
      assert SubnetOf(n, n);
    }
    DedupDeterministic(r, r, r2);
  }

  /** An address lies in some kept network exactly when it lies in some
      input network: deduplication loses no address and adds none. */
  lemma DedupKeepsAddresses(nets: seq<Net>, r: seq<Net>, v: nat, x: nat)
    requires AllValid(nets) && DedupSpec(nets, r)
    ensures (exists n :: n in nets && Holds(n, v, x)) <==> (exists k :: k in r && Holds(k, v, x))
  {
    if n :| n in nets && Holds(n, v, x) {
      var k :| k in r && k.version == n.version && SubnetOf(n, k);
      SubnetOfHolds(n, k, v, x);
    }
    if k :| k in r && Holds(k, v, x) {
      assert k in multiset(nets);
    }
  }
}
