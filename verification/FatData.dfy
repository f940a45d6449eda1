/** The data region of a FAT image: cluster contents, and the byte array a chain of clusters makes up. */
module FatData {
  import opened Entries
  import opened Bytes
  import opened FatTable

  /** The image reaches to the end of the last cluster. */
  predicate Complete(geo: Geometry, img: seq<byte>) {
    geo.Sound() && |img| >= geo.ClusterOffset(geo.countOfClusters + 2)
  }

  predicate AllValid(geo: Geometry, cs: seq<nat>) {
    forall i :: 0 <= i < |cs| ==> geo.ValidCluster(cs[i])
  }

  predicate Distinct(cs: seq<nat>) {
    forall i, j :: 0 <= i < j < |cs| ==> cs[i] != cs[j]
  }

  lemma InsideImage(geo: Geometry, img: seq<byte>, c: nat)
    requires Complete(geo, img) && geo.ValidCluster(c)
    ensures geo.ClusterOffset(c) + geo.BytesPerCluster() <= |img|
  {
    ClustersApart(geo, c, geo.countOfClusters + 2);
  }

  function ClusterAt(geo: Geometry, img: seq<byte>, c: nat): (b: seq<byte>)
    requires Complete(geo, img) && geo.ValidCluster(c)
    ensures |b| == geo.BytesPerCluster()
  {
    InsideImage(geo, img, c);
    var off := geo.ClusterOffset(c);
    img[off..off + geo.BytesPerCluster()]
  }

  function Stamped(geo: Geometry, img: seq<byte>, c: nat, b: seq<byte>): (r: seq<byte>)
    requires Complete(geo, img) && geo.ValidCluster(c) && |b| == geo.BytesPerCluster()
    ensures |r| == |img|
  {
    InsideImage(geo, img, c);
    Splice(img, geo.ClusterOffset(c), b)
  }

  /** Where a cluster lies in the image, in bytes: it is read from there, and written there. */
  lemma ClusterLies(geo: Geometry, img: seq<byte>, c: nat, b: seq<byte>, at: nat, n: nat)
    requires Complete(geo, img) && geo.ValidCluster(c) && |b| == n == geo.sectorsPerCluster * geo.bytesPerSector
    requires at == (geo.dataStartSector + (c - 2) * geo.sectorsPerCluster) * geo.bytesPerSector
    ensures at + n <= |img| && n == geo.BytesPerCluster()
    ensures ClusterAt(geo, img, c) == img[at..at + n] && Stamped(geo, img, c, b) == img[..at] + b + img[at + n..]
  {
    InsideImage(geo, img, c);
  }

  /** Writing a cluster changes that cluster and nothing else in the image. */
  lemma StampedFacts(geo: Geometry, img: seq<byte>, c: nat, b: seq<byte>, d: nat)
    requires Complete(geo, img) && geo.ValidCluster(c) && |b| == geo.BytesPerCluster() && geo.ValidCluster(d)
    ensures ClusterAt(geo, Stamped(geo, img, c, b), d) == if d == c then b else ClusterAt(geo, img, d)
  {
    InsideImage(geo, img, c);
    InsideImage(geo, img, d);
    if d < c {
      ClustersApart(geo, d, c);
    } else if c < d {
      ClustersApart(geo, c, d);
    }
    if d != c {
      SpliceApart(img, geo.ClusterOffset(c), b, geo.ClusterOffset(d), geo.BytesPerCluster());
    }
  }

  /** The clusters of a chain, one after the other. */
  function DataOf(geo: Geometry, img: seq<byte>, cs: seq<nat>): seq<byte>
    requires Complete(geo, img) && AllValid(geo, cs)
  {
    if cs == [] then [] else ClusterAt(geo, img, cs[0]) + DataOf(geo, img, cs[1..])
  }

  lemma {:induction false} DataLength(geo: Geometry, img: seq<byte>, cs: seq<nat>)
    requires Complete(geo, img) && AllValid(geo, cs)
    ensures |DataOf(geo, img, cs)| == |cs| * geo.BytesPerCluster()
  {
    if cs != [] {
      DataLength(geo, img, cs[1..]);
      Distribute(|cs| - 1, geo.BytesPerCluster());
    }
  }

  lemma Distribute(a: nat, n: nat)
    ensures (a + 1) * n == a * n + n
  {
  }

  lemma {:induction false} DataAppend(geo: Geometry, img: seq<byte>, cs: seq<nat>, c: nat)
    requires Complete(geo, img) && AllValid(geo, cs) && geo.ValidCluster(c)
    ensures DataOf(geo, img, cs + [c]) == DataOf(geo, img, cs) + ClusterAt(geo, img, c)
  {
    if cs == [] {
      assert cs + [c] == [c];
    } else {
      assert (cs + [c])[1..] == cs[1..] + [c];
      DataAppend(geo, img, cs[1..], c);
    }
  }

  /** Cluster i of a chain holds bytes i*n up to (i+1)*n of its data. */
  lemma {:induction false} DataSlice(geo: Geometry, img: seq<byte>, cs: seq<nat>, i: nat)
    requires Complete(geo, img) && AllValid(geo, cs) && i < |cs|
    ensures var n := geo.BytesPerCluster();
      0 <= i * n <= i * n + n <= |DataOf(geo, img, cs)|
        && DataOf(geo, img, cs)[i * n..i * n + n] == ClusterAt(geo, img, cs[i])
  {
    hide Geometry.BytesPerCluster;
    var n := geo.BytesPerCluster();
    if i > 0 {
      DataSlice(geo, img, cs[1..], i - 1);
      Distribute(i - 1, n);
      DropFront(ClusterAt(geo, img, cs[0]), DataOf(geo, img, cs[1..]), (i - 1) * n, n);
    }
  }

  lemma DropFront(a: seq<byte>, d: seq<byte>, p: nat, n: nat)
    requires p + n <= |d|
    ensures (a + d)[|a| + p..|a| + p + n] == d[p..p + n]
  {
  }

  lemma {:induction false} DataFrame(geo: Geometry, img: seq<byte>, c: nat, b: seq<byte>, cs: seq<nat>)
    requires Complete(geo, img) && geo.ValidCluster(c) && |b| == geo.BytesPerCluster()
    requires AllValid(geo, cs) && c !in cs
    ensures DataOf(geo, Stamped(geo, img, c, b), cs) == DataOf(geo, img, cs)
  {
    if cs != [] {
      StampedFacts(geo, img, c, b, cs[0]);
      DataFrame(geo, img, c, b, cs[1..]);
    }
  }

  /** Writing cluster i of a chain overwrites bytes i*n up to (i+1)*n of its data. */
  lemma {:induction false} DataWrite(geo: Geometry, img: seq<byte>, cs: seq<nat>, i: nat, b: seq<byte>)
    requires Complete(geo, img) && AllValid(geo, cs) && Distinct(cs) && i < |cs| && |b| == geo.BytesPerCluster()
    ensures 0 <= i * |b| <= |DataOf(geo, img, cs)|
    ensures DataOf(geo, Stamped(geo, img, cs[i], b), cs) == Splice(DataOf(geo, img, cs), i * |b|, b)
  {
    hide Splice, Stamped, ClusterAt, Geometry.BytesPerCluster;
    if i == 0 {
      StampedFacts(geo, img, cs[0], b, cs[0]);
      DataFrame(geo, img, cs[0], b, cs[1..]);
      SpliceFront(ClusterAt(geo, img, cs[0]), DataOf(geo, img, cs[1..]), b);
    } else {
      DataWrite(geo, img, cs[1..], i - 1, b);
      DataWriteBehind(geo, img, cs, i, b, (i - 1) * |b|);
      Distribute(i - 1, |b|);
    }
  }

  lemma DataWriteBehind(geo: Geometry, img: seq<byte>, cs: seq<nat>, i: nat, b: seq<byte>, p: nat)
    requires Complete(geo, img) && AllValid(geo, cs) && Distinct(cs) && 0 < i < |cs| && |b| == geo.BytesPerCluster()
    requires p <= |DataOf(geo, img, cs[1..])|
    requires DataOf(geo, Stamped(geo, img, cs[i], b), cs[1..]) == Splice(DataOf(geo, img, cs[1..]), p, b)
    ensures |b| + p <= |DataOf(geo, img, cs)|
    ensures DataOf(geo, Stamped(geo, img, cs[i], b), cs) == Splice(DataOf(geo, img, cs), |b| + p, b)
  {
    hide Splice, Stamped, ClusterAt, Geometry.BytesPerCluster;
    StampedFacts(geo, img, cs[i], b, cs[0]);
    SpliceBehind(ClusterAt(geo, img, cs[0]), DataOf(geo, img, cs[1..]), p, b);
  }

  lemma SpliceFront(a: seq<byte>, d: seq<byte>, b: seq<byte>)
    requires |a| == |b|
    ensures Splice(a + d, 0, b) == b + d
  {
  }

  lemma SpliceBehind(a: seq<byte>, d: seq<byte>, p: nat, b: seq<byte>)
    requires p <= |d|
    ensures Splice(a + d, |a| + p, b) == a + Splice(d, p, b)
  {
  }

  /** Overwriting part of a block is overwriting that part of the whole. */
  lemma SpliceBlock(d: seq<byte>, at: nat, n: nat, from: nat, q: seq<byte>)
    requires at + n <= |d| && from + |q| <= n
    ensures |Splice(d[at..at + n], from, q)| == n
    ensures Splice(d, at, Splice(d[at..at + n], from, q)) == Splice(d, at + from, q)
  {
  }

  // ---------------------------------------------------------------- a file as a flat byte array

  /** What a file of this size shows of the data of its clusters. */
  function Shown(data: seq<byte>, size: nat): seq<byte> {
    if size <= |data| then data[..size] else data
  }

  /** Nothing but zeros lies between the end of the file and the end of its clusters. */
  ghost predicate Clean(data: seq<byte>, size: nat) {
    size <= |data| && forall k :: size <= k < |data| ==> data[k] == 0
  }

  function NewSize(size: nat, end: nat): nat {
    if end > size then end % TWO_32 else size
  }

  /** data grown by zeros to the length of now. */
  ghost predicate Padded(data: seq<byte>, now: seq<byte>) {
    |data| <= |now| && now == data + Zeros(|now| - |data|)
  }

  /** data grown by zeros, then overwritten by p from pos on. */
  ghost predicate Laid(data: seq<byte>, now: seq<byte>, pos: nat, p: seq<byte>) {
    && |data| <= |now| && pos + |p| <= |now|
    && now == Splice(data + Zeros(|now| - |data|), pos, p)
  }

  /** The only bytes a write past the end uncovers: those between the old end and pos that the file
      already had clusters for. */
  ghost predicate GapIsZero(data: seq<byte>, size: nat, pos: nat) {
    forall k :: size <= k < pos && k < |data| ==> data[k] == 0
  }

  lemma CleanGap(data: seq<byte>, size: nat, pos: nat)
    requires Clean(data, size)
    ensures GapIsZero(data, size, pos)
  {
  }

  /** Extending with zeroed clusters and writing into them gives the flat array's new contents,
      exactly when the gap was zero before. */
  lemma WriteIsFlat(data: seq<byte>, now: seq<byte>, size: nat, pos: nat, p: seq<byte>)
    requires Laid(data, now, pos, p) && size <= |data| && pos + |p| < TWO_32
    ensures NewSize(size, pos + |p|) <= |now|
    ensures Shown(now, NewSize(size, pos + |p|)) == Overwritten(Shown(data, size), pos, p) <==>
      GapIsZero(data, size, pos)
  {
    var l, r := Shown(now, NewSize(size, pos + |p|)), Overwritten(Shown(data, size), pos, p);
    assert |l| == |r|;
    assert forall k :: 0 <= k < |l| && !(size <= k < pos && k < |data|) ==> l[k] == r[k];
    assert forall k :: size <= k < pos && k < |data| ==> l[k] == data[k] && r[k] == 0;
  }

  /** A file with a byte left behind its end: a write one further on uncovers it. */
  lemma StaleByteShows()
    ensures var data, now := [7, 0], [7, 1];
      && Laid(data, now, 1, [1]) && !GapIsZero(data, 0, 1)
      && Shown(now, NewSize(0, 2)) == [7, 1] && Overwritten(Shown(data, 0), 1, [1]) == [0, 1]
  {
    var data: seq<byte>, p: seq<byte> := [7, 0], [1];
    assert data + Zeros(0) == data;
    assert Splice(data, 1, p) == [7, 1];
    assert data[0] != 0;
    assert Shown(data, 0) == [] && Zeros(1) == [0];
  }

  lemma WriteKeepsClean(data: seq<byte>, now: seq<byte>, size: nat, pos: nat, p: seq<byte>)
    requires Laid(data, now, pos, p) && pos + |p| < TWO_32 && Clean(data, size)
    ensures Clean(now, NewSize(size, pos + |p|))
  {
  }

  lemma PaddingIsInvisible(data: seq<byte>, now: seq<byte>, size: nat)
    requires Padded(data, now)
    ensures size <= |data| ==> Shown(now, size) == Shown(data, size)
    ensures Clean(data, size) ==> Clean(now, size)
  {
  }

  lemma PaddedSelf(a: seq<byte>)
    ensures Padded(a, a)
  {
  }

  lemma PaddedMore(a: seq<byte>, b: seq<byte>, n: nat)
    requires Padded(a, b)
    ensures Padded(a, b + Zeros(n))
  {
  }
}
