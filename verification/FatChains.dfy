/** Cluster chains over an allocation table read as numbers: who owns which cluster. */
module FatChains {
  import opened FatTable

  ghost predicate Table(geo: Geometry, links: seq<nat>) {
    geo.Sound() && |links| == geo.countOfClusters + 2
  }

  /** Each cluster's entry names the next one; the last entry is an end mark. */
  ghost predicate Linked(geo: Geometry, links: seq<nat>, cs: seq<nat>)
    requires Table(geo, links)
  {
    forall i :: 0 <= i < |cs| ==> geo.ValidCluster(cs[i]) && LinkOk(geo, links, cs, i)
  }

  ghost predicate LinkOk(geo: Geometry, links: seq<nat>, cs: seq<nat>, i: nat)
    requires Table(geo, links) && i < |cs| && geo.ValidCluster(cs[i])
  {
    if i + 1 == |cs| then geo.IsEoc(links[cs[i]]) else links[cs[i]] == cs[i + 1]
  }

  /** The clusters of a file whose first cluster is first; 0 stands for a file without any. */
  ghost predicate IsChain(geo: Geometry, links: seq<nat>, first: nat, cs: seq<nat>)
    requires Table(geo, links)
  {
    if first == 0 then cs == [] else cs != [] && cs[0] == first && Linked(geo, links, cs)
  }

  lemma TailLinked(geo: Geometry, links: seq<nat>, cs: seq<nat>, i: nat)
    requires Table(geo, links) && Linked(geo, links, cs) && i <= |cs|
    ensures Linked(geo, links, cs[i..])
  {
    forall j | 0 <= j < |cs[i..]| ensures geo.ValidCluster(cs[i..][j]) && LinkOk(geo, links, cs[i..], j) {
      assert LinkOk(geo, links, cs, i + j);
    }
  }

  /** A chain is determined by its first cluster. */
  lemma {:induction false} SameStart(geo: Geometry, links: seq<nat>, cs: seq<nat>, ds: seq<nat>)
    requires Table(geo, links) && Linked(geo, links, cs) && Linked(geo, links, ds)
    requires cs != [] && ds != [] && cs[0] == ds[0]
    ensures cs == ds
  {
    assert LinkOk(geo, links, cs, 0) && LinkOk(geo, links, ds, 0);
    if |cs| > 1 { MarksApart(geo, cs[1]); }
    if |ds| > 1 { MarksApart(geo, ds[1]); }
    if |cs| > 1 && |ds| > 1 {
      TailLinked(geo, links, cs, 1);
      TailLinked(geo, links, ds, 1);
      SameStart(geo, links, cs[1..], ds[1..]);
      assert cs == [cs[0]] + cs[1..] && ds == [ds[0]] + ds[1..];
    }
  }

  /** A chain that ends never visits a cluster twice. */
  lemma NoRepeat(geo: Geometry, links: seq<nat>, cs: seq<nat>, i: nat, j: nat)
    requires Table(geo, links) && Linked(geo, links, cs) && i < j < |cs|
    ensures cs[i] != cs[j]
  {
    TailLinked(geo, links, cs, i);
    TailLinked(geo, links, cs, j);
    if cs[i] == cs[j] {
      SameStart(geo, links, cs[i..], cs[j..]);
    }
  }

  /** No cluster of a chain is marked free. */
  lemma MemberUsed(geo: Geometry, links: seq<nat>, cs: seq<nat>, i: nat)
    requires Table(geo, links) && Linked(geo, links, cs) && i < |cs|
    ensures geo.ValidCluster(cs[i]) && links[cs[i]] != 0
  {
    assert LinkOk(geo, links, cs, i);
    MarksApart(geo, cs[i]);
  }

  /** A chain keeps its meaning while the entries of its own clusters stay. */
  lemma LinkedFrame(geo: Geometry, links: seq<nat>, links2: seq<nat>, cs: seq<nat>)
    requires Table(geo, links) && Table(geo, links2) && Linked(geo, links, cs)
    requires forall i :: 0 <= i < |cs| && cs[i] < |links| ==> links2[cs[i]] == links[cs[i]]
    ensures Linked(geo, links2, cs)
  {
    forall i | 0 <= i < |cs| ensures geo.ValidCluster(cs[i]) && LinkOk(geo, links2, cs, i) {
      assert LinkOk(geo, links, cs, i);
    }
  }

  // ---------------------------------------------------------------- ownership

  /** A chain in numbers: it stays in the data region, each entry names the next cluster, and the entry of
      the last is an end mark: 0xFFF8 and above in 16 bits, 0x0FFFFFF8 and above in the low 28 of 32. */
  lemma ChainMeans(geo: Geometry, links: seq<nat>, first: nat, cs: seq<nat>)
    requires Table(geo, links)
    ensures IsChain(geo, links, first, cs) <==>
      if first == 0 then cs == []
      else
        && cs != [] && cs[0] == first
        && (forall i :: 0 <= i < |cs| ==> 2 <= cs[i] < geo.countOfClusters + 2)
        && (forall i :: 0 <= i < |cs| - 1 ==> links[cs[i]] == cs[i + 1])
        && var end := links[cs[|cs| - 1]];
          if geo.fatType == Fat16 then end >= 0xFFF8 else end % 0x1000_0000 >= 0x0FFF_FFF8
  {
    if cs != [] && forall i :: 0 <= i < |cs| ==> geo.ValidCluster(cs[i]) {
      assert LinkOk(geo, links, cs, |cs| - 1) <==> geo.IsEoc(links[cs[|cs| - 1]]);
      forall i | 0 <= i < |cs| - 1 ensures LinkOk(geo, links, cs, i) <==> links[cs[i]] == cs[i + 1] {
      }
    }
  }

  /** No cluster stands twice, in one chain or in two. */
  ghost predicate Apart(chains: seq<seq<nat>>) {
    forall s, i, t, j ::
      (0 <= s < |chains| && 0 <= i < |chains[s]| && 0 <= t < |chains| && 0 <= j < |chains[t]|
       && chains[s][i] == chains[t][j]) ==> s == t && i == j
  }

  /** Every owner has its chain, and the chains are acyclic and pairwise disjoint. */
  ghost predicate Owns(geo: Geometry, links: seq<nat>, firsts: seq<nat>, chains: seq<seq<nat>>) {
    && Table(geo, links) && |chains| == |firsts|
    && (forall s :: 0 <= s < |firsts| ==> IsChain(geo, links, firsts[s], chains[s]))
    && Apart(chains)
  }

  ghost function Last(cs: seq<nat>): nat {
    if cs == [] then 0 else cs[|cs| - 1]
  }

  /** The table after cluster c was hung behind prev. */
  ghost function Hung(geo: Geometry, links: seq<nat>, prev: nat, c: nat): (r: seq<nat>)
    requires c < |links| && prev < |links|
    ensures |r| == |links|
  {
    var ended := links[c := geo.EocMarker()];
    if prev == 0 then ended else ended[prev := c]
  }

  lemma FreeClusterUnowned(geo: Geometry, links: seq<nat>, firsts: seq<nat>, chains: seq<seq<nat>>, c: nat, s: nat,
                           i: nat)
    requires Owns(geo, links, firsts, chains) && c < |links| && links[c] == 0 && s < |chains| && i < |chains[s]|
    ensures chains[s][i] != c
  {
    assert IsChain(geo, links, firsts[s], chains[s]);
    MemberUsed(geo, links, chains[s], i);
  }

  lemma ExtendedChain(geo: Geometry, links: seq<nat>, cs: seq<nat>, c: nat)
    requires Table(geo, links) && Linked(geo, links, cs) && geo.ValidCluster(c) && links[c] == 0
    ensures Last(cs) < |links| && Linked(geo, Hung(geo, links, Last(cs), c), cs + [c])
  {
    var n, new_ := |cs|, cs + [c];
    if n > 0 { MemberUsed(geo, links, cs, n - 1); }
    var links2 := Hung(geo, links, Last(cs), c);
    MarksApart(geo, c);
    forall i | 0 <= i <= n ensures geo.ValidCluster(new_[i]) && LinkOk(geo, links2, new_, i) {
      if i < n {
        MemberUsed(geo, links, cs, i);
        assert LinkOk(geo, links, cs, i);
        if i + 1 < n { NoRepeat(geo, links, cs, i, n - 1); }
      }
    }
  }

  /** Appending a free cluster to one chain keeps all chains sound. */
  lemma Extended(geo: Geometry, links: seq<nat>, firsts: seq<nat>, chains: seq<seq<nat>>, s: nat, c: nat)
    requires Owns(geo, links, firsts, chains) && s < |chains| && geo.ValidCluster(c) && links[c] == 0
    ensures Last(chains[s]) < |links|
    ensures Owns(geo, Hung(geo, links, Last(chains[s]), c),
                 if chains[s] == [] then firsts[s := c] else firsts, chains[s := chains[s] + [c]])
  {
    var links2, chains2 := Hung(geo, links, HungAt(geo, links, firsts, chains, s), c), chains[s := chains[s] + [c]];
    var firsts2 := if chains[s] == [] then firsts[s := c] else firsts;
    assert IsChain(geo, links, firsts[s], chains[s]);
    ExtendedChain(geo, links, chains[s], c);
    forall t | 0 <= t < |firsts| ensures IsChain(geo, links2, firsts2[t], chains2[t]) {
      assert IsChain(geo, links, firsts[t], chains[t]);
      if t != s {
        forall i | 0 <= i < |chains[t]| ensures links2[chains[t][i]] == links[chains[t][i]] {
          MemberUsed(geo, links, chains[t], i);
          FreeClusterUnowned(geo, links, firsts, chains, c, t, i);
        }
        LinkedFrame(geo, links, links2, chains[t]);
      }
    }
    ApartExtended(geo, links, firsts, chains, s, c);
  }

  ghost function HungAt(geo: Geometry, links: seq<nat>, firsts: seq<nat>, chains: seq<seq<nat>>, s: nat): (prev: nat)
    requires Owns(geo, links, firsts, chains) && s < |chains|
    ensures prev == Last(chains[s]) < |links|
  {
    assert IsChain(geo, links, firsts[s], chains[s]);
    if chains[s] == [] then 0
    else
      MemberUsed(geo, links, chains[s], |chains[s]| - 1);
      Last(chains[s])
  }

  lemma ApartExtended(geo: Geometry, links: seq<nat>, firsts: seq<nat>, chains: seq<seq<nat>>, s: nat, c: nat)
    requires Owns(geo, links, firsts, chains) && s < |chains| && c < |links| && links[c] == 0
    ensures Apart(chains[s := chains[s] + [c]])
  {
    var chains2 := chains[s := chains[s] + [c]];
    forall t, i, u, j | 0 <= t < |chains2| && 0 <= i < |chains2[t]| && 0 <= u < |chains2| && 0 <= j < |chains2[u]|
      && chains2[t][i] == chains2[u][j]
      ensures t == u && i == j
    {
      if i < |chains[t]| { FreeClusterUnowned(geo, links, firsts, chains, c, t, i); }
      if j < |chains[u]| { FreeClusterUnowned(geo, links, firsts, chains, c, u, j); }
    }
  }

  /** The table with the clusters of cs marked free. */
  ghost function Zeroed(links: seq<nat>, cs: seq<nat>): (r: seq<nat>)
    ensures |r| == |links| && forall c :: 0 <= c < |r| ==> r[c] == if c in cs then 0 else links[c]
  {
    seq(|links|, c requires 0 <= c < |links| => if c in cs then 0 else links[c])
  }

  /** Freeing one chain keeps all the others. */
  lemma Released(geo: Geometry, links: seq<nat>, firsts: seq<nat>, chains: seq<seq<nat>>, s: nat)
    requires Owns(geo, links, firsts, chains) && s < |chains|
    ensures Owns(geo, Zeroed(links, chains[s]), firsts[s := 0], chains[s := []])
  {
    var links2, chains2, firsts2 := Zeroed(links, chains[s]), chains[s := []], firsts[s := 0];
    forall t | 0 <= t < |firsts| ensures IsChain(geo, links2, firsts2[t], chains2[t]) {
      assert IsChain(geo, links, firsts[t], chains[t]);
      if t != s {
        LinkedFrame(geo, links, links2, chains[t]);
      }
    }
  }

  // ---------------------------------------------------------------- accounting

  /** The free clusters below n. */
  ghost function FreeCount(links: seq<nat>, n: nat): nat
    requires n <= |links|
  {
    if n <= 2 then 0 else FreeCount(links, n - 1) + if links[n - 1] == 0 then 1 else 0
  }

  lemma {:induction false} FreeCountUpdate(links: seq<nat>, n: nat, c: nat, v: nat)
    requires n <= |links| && 2 <= c < |links|
    ensures FreeCount(links[c := v], n) ==
      FreeCount(links, n) + (if c < n && v == 0 then 1 else 0) - (if c < n && links[c] == 0 then 1 else 0)
  {
    if n > 2 {
      FreeCountUpdate(links, n - 1, c, v);
    }
  }

  ghost function Total(chains: seq<seq<nat>>): nat {
    if chains == [] then 0 else |chains[0]| + Total(chains[1..])
  }

  lemma {:induction false} TotalUpdate(chains: seq<seq<nat>>, s: nat, cs: seq<nat>)
    requires s < |chains|
    ensures Total(chains[s := cs]) == Total(chains) - |chains[s]| + |cs|
  {
    if s == 0 {
      assert chains[0 := cs][1..] == chains[1..];
    } else {
      assert chains[s := cs][1..] == chains[1..][s - 1 := cs];
      TotalUpdate(chains[1..], s - 1, cs);
    }
  }

  /** Free clusters and owned clusters together. */
  ghost function Balance(links: seq<nat>, chains: seq<seq<nat>>): nat {
    FreeCount(links, |links|) + Total(chains)
  }

  lemma ExtendKeepsBalance(geo: Geometry, links: seq<nat>, firsts: seq<nat>, chains: seq<seq<nat>>, s: nat, c: nat)
    requires Owns(geo, links, firsts, chains) && s < |chains| && geo.ValidCluster(c) && links[c] == 0
    ensures Last(chains[s]) < |links|
    ensures Balance(Hung(geo, links, Last(chains[s]), c), chains[s := chains[s] + [c]]) == Balance(links, chains)
  {
    var prev := HungAt(geo, links, firsts, chains, s);
    MarksApart(geo, c);
    var ended := links[c := geo.EocMarker()];
    FreeCountUpdate(links, |links|, c, geo.EocMarker());
    if prev != 0 {
      assert IsChain(geo, links, firsts[s], chains[s]);
      MemberUsed(geo, links, chains[s], |chains[s]| - 1);
      FreeCountUpdate(ended, |links|, prev, c);
    }
    TotalUpdate(chains, s, chains[s] + [c]);
  }

  lemma {:induction false} ZeroedCount(geo: Geometry, links: seq<nat>, cs: seq<nat>, n: nat)
    requires Table(geo, links) && Linked(geo, links, cs) && n <= |cs|
    ensures FreeCount(Zeroed(links, cs[..n]), |links|) == FreeCount(links, |links|) + n
  {
    if n == 0 {
      assert Zeroed(links, cs[..0]) == links;
    } else {
      ZeroedCount(geo, links, cs, n - 1);
      ZeroedStep(geo, links, cs, n - 1);
      FreeCountUpdate(Zeroed(links, cs[..n - 1]), |links|, cs[n - 1], 0);
    }
  }

  /** Clearing the next cluster of a chain that is partly cleared. */
  lemma ZeroedStep(geo: Geometry, links: seq<nat>, cs: seq<nat>, n: nat)
    requires Table(geo, links) && Linked(geo, links, cs) && n < |cs|
    ensures geo.ValidCluster(cs[n]) && Zeroed(links, cs[..n])[cs[n]] != 0
    ensures Zeroed(links, cs[..n])[cs[n] := 0] == Zeroed(links, cs[..n + 1])
  {
    MemberUsed(geo, links, cs, n);
    forall i | 0 <= i < n ensures cs[i] != cs[n] {
      NoRepeat(geo, links, cs, i, n);
    }
    assert cs[..n + 1] == cs[..n] + [cs[n]];
  }

  lemma ReleaseKeepsBalance(geo: Geometry, links: seq<nat>, firsts: seq<nat>, chains: seq<seq<nat>>, s: nat)
    requires Owns(geo, links, firsts, chains) && s < |chains|
    ensures Balance(Zeroed(links, chains[s]), chains[s := []]) == Balance(links, chains)
  {
    assert IsChain(geo, links, firsts[s], chains[s]);
    assert chains[s][..|chains[s]|] == chains[s];
    ZeroedCount(geo, links, chains[s], |chains[s]|);
    TotalUpdate(chains, s, []);
  }
}
