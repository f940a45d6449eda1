/** FAT geometry and the file allocation table as bytes, following the Microsoft FAT32 File System
    Specification, version 1.03 ("FAT Data Structure", "FAT Type Determination"). */
module FatTable {
  import opened Entries
  import opened Bytes

  datatype FatType = Fat16 | Fat32

  const LOW_28 := 0x1000_0000

  datatype Geometry = Geometry(fatType: FatType, bytesPerSector: nat, sectorsPerCluster: nat,
                               dataStartSector: nat, countOfClusters: nat, rootCluster: nat)
  {
    function BytesPerCluster(): nat { bytesPerSector * sectorsPerCluster }

    /** Bytes per table entry. */
    function Width(): nat { if fatType == Fat16 then 2 else 4 }

    /** One more than the largest value an entry can hold; the top four bits of a FAT32 entry are reserved. */
    function Limit(): nat { if fatType == Fat16 then 0x1_0000 else LOW_28 }

    predicate ValidCluster(c: nat) { 2 <= c < countOfClusters + 2 }

    predicate IsEoc(entry: nat) {
      if fatType == Fat16 then entry >= 0xFFF8 else entry % LOW_28 >= 0x0FFF_FFF8
    }

    function EocMarker(): nat { if fatType == Fat16 then 0xFFFF else 0x0FFF_FFFF }

    function ClusterOffset(c: nat): nat
      requires c >= 2
    {
      (dataStartSector + (c - 2) * sectorsPerCluster) * bytesPerSector
    }

    /** What is assumed of an opened volume. The type follows from the cluster count when it is opened;
        that no cluster number reaches the range of end marks is not checked there. */
    predicate Sound() {
      && bytesPerSector > 0 && sectorsPerCluster > 0
      && Some(fatType) == DetermineType(countOfClusters)
      && countOfClusters + 2 <= 0x0FFF_FFF8
    }
  }

  /** The variant depends on the number of clusters alone; FAT12 is not supported. */
  function DetermineType(countOfClusters: nat): Option<FatType> {
    if countOfClusters < 4085 then None
    else if countOfClusters < 65525 then Some(Fat16)
    else Some(Fat32)
  }

  /** From 4085 clusters on a volume is FAT16, and from 65525 on FAT32. */
  lemma TypeByCount(n: nat)
    ensures DetermineType(n).None? <==> n < 4085
    ensures DetermineType(n) == Some(Fat32) <==> n >= 65525
  {
  }

  /** Cluster numbers, end marks and the free mark can be told apart, and all fit an entry. */
  lemma MarksApart(geo: Geometry, c: nat)
    requires geo.Sound()
    ensures geo.ValidCluster(c) ==> !geo.IsEoc(c) && c != 0 && c < geo.Limit()
    ensures geo.IsEoc(geo.EocMarker()) && geo.EocMarker() < geo.Limit() && !geo.IsEoc(0)
  {
  }

  /** The bound on the number of clusters is what keeps cluster numbers apart from end marks. */
  lemma MarksApartWhen(geo: Geometry)
    requires Some(geo.fatType) == DetermineType(geo.countOfClusters)
    ensures (forall c: nat :: geo.ValidCluster(c) ==> !geo.IsEoc(c) && c < geo.Limit()) <==>
      geo.countOfClusters + 2 <= 0x0FFF_FFF8
  {
    if geo.countOfClusters + 2 > 0x0FFF_FFF8 {
      assert geo.ValidCluster(0x0FFF_FFF8) && geo.IsEoc(0x0FFF_FFF8);
    }
  }

  // ---------------------------------------------------------------- cluster positions

  lemma ClusterOffsetLinear(geo: Geometry, c: nat)
    requires c >= 2
    ensures geo.ClusterOffset(c) == geo.dataStartSector * geo.bytesPerSector + (c - 2) * geo.BytesPerCluster()
  {
    var a, s, b := c - 2, geo.sectorsPerCluster, geo.bytesPerSector;
    assert (geo.dataStartSector + a * s) * b == geo.dataStartSector * b + (a * s) * b;
    assert (a * s) * b == a * (b * s);
  }

  /** The data areas of different clusters do not overlap. */
  lemma ClustersApart(geo: Geometry, c: nat, d: nat)
    requires 2 <= c < d
    ensures geo.ClusterOffset(c) + geo.BytesPerCluster() <= geo.ClusterOffset(d)
  {
    hide Geometry.ClusterOffset;
    ClusterOffsetLinear(geo, c);
    ClusterOffsetLinear(geo, d);
    var n := geo.BytesPerCluster();
    MulMonotone(c - 1, d - 2, n);
    assert (c - 1) * n == (c - 2) * n + n;
  }

  // ---------------------------------------------------------------- table entries

  /** The table is long enough for every cluster. */
  predicate Covers(geo: Geometry, fat: seq<byte>) {
    |fat| >= (geo.countOfClusters + 2) * geo.Width()
  }

  /** The entry of cluster c; None when the table is too short. */
  function FatEntry(geo: Geometry, fat: seq<byte>, c: nat): Option<nat> {
    var off := c * geo.Width();
    if off + geo.Width() > |fat| then None
    else Some(Le(fat[off..off + geo.Width()]) % geo.Limit())
  }

  /** An entry is missing exactly when the table ends before it; otherwise it is the number its bytes
      make up, low byte first, without the top four bits of a FAT32 entry. */
  lemma FatEntryMeans(geo: Geometry, fat: seq<byte>, c: nat)
    ensures var width := if geo.fatType == Fat16 then 2 else 4;
      var off, e := c * width, FatEntry(geo, fat, c);
      && (e.None? <==> |fat| < off + width)
      && (e.Some? && geo.fatType == Fat16 ==> e.value == fat[off] + 0x100 * (fat[off + 1] as int))
      && (e.Some? && geo.fatType == Fat32 ==>
            var low := fat[off] + 0x100 * (fat[off + 1] as int) + 0x1_0000 * (fat[off + 2] as int);
            e.value == low + 0x100_0000 * (fat[off + 3] % 16 as int))
  {
    hide Le;
    if geo.fatType == Fat16 {
      if c * 2 + 2 <= |fat| {
        LePair(fat[c * 2..c * 2 + 2]);
      }
    } else if c * 4 + 4 <= |fat| {
      LowFour(fat, c * 4);
    }
  }

  lemma LowFour(fat: seq<byte>, off: nat)
    requires off + 4 <= |fat|
    ensures var low := fat[off] + 0x100 * (fat[off + 1] as int) + 0x1_0000 * (fat[off + 2] as int);
      Le(fat[off..off + 4]) % 0x1000_0000 == low + 0x100_0000 * (fat[off + 3] % 16 as int)
  {
    hide Le;
    LeFour(fat[off..off + 4]);
  }

  lemma InTable(geo: Geometry, fat: seq<byte>, c: nat)
    requires Covers(geo, fat) && c < geo.countOfClusters + 2
    ensures (c + 1) * geo.Width() <= |fat|
  {
  }

  /** The bytes that put value into an entry holding old: FAT32 keeps the four reserved bits. */
  function EntryBytes(geo: Geometry, old_: seq<byte>, value: nat): (b: seq<byte>)
    requires |old_| == geo.Width()
    ensures |b| == geo.Width()
  {
    if geo.fatType == Fat16 then LeBytes(value, 2)
    else LeBytes(Le(old_) / LOW_28 * LOW_28 + value % LOW_28, 4)
  }

  function Patched(geo: Geometry, fat: seq<byte>, c: nat, value: nat): (r: seq<byte>)
    requires (c + 1) * geo.Width() <= |fat|
    ensures |r| == |fat|
  {
    var off := c * geo.Width();
    Splice(fat, off, EntryBytes(geo, fat[off..off + geo.Width()], value))
  }

  /** The reserved bits of one number over the low bits of another. */
  lemma Repacked(bits: nat, value: nat)
    requires bits < TWO_32
    ensures var x := bits / LOW_28 * LOW_28 + value % LOW_28;
      x < TWO_32 && x % LOW_28 == value % LOW_28 && x / LOW_28 == bits / LOW_28
  {
    DivModUnique(bits / LOW_28 * LOW_28 + value % LOW_28, LOW_28, bits / LOW_28, value % LOW_28);
  }

  /** An entry written is read back, up to the entry's width; the reserved bits stay. */
  lemma EntryRoundTrip(geo: Geometry, old_: seq<byte>, value: nat)
    requires |old_| == geo.Width()
    ensures Le(EntryBytes(geo, old_, value)) % geo.Limit() == value % geo.Limit()
    ensures geo.fatType == Fat32 ==> Le(EntryBytes(geo, old_, value)) / LOW_28 == Le(old_) / LOW_28
  {
    hide Le, LeBytes;
    if geo.fatType == Fat16 {
      Le2(value);
    } else {
      SpanFacts();
      Repacked(Le(old_), value);
      Le4(Le(old_) / LOW_28 * LOW_28 + value % LOW_28);
    }
  }

  /** Writing one entry changes that entry only, and never a reserved bit. */
  lemma PatchedFacts(geo: Geometry, fat: seq<byte>, c: nat, value: nat, d: nat)
    requires (c + 1) * geo.Width() <= |fat| && (d + 1) * geo.Width() <= |fat|
    ensures FatEntry(geo, Patched(geo, fat, c, value), d)
      == if d == c then Some(value % geo.Limit()) else FatEntry(geo, fat, d)
    ensures geo.fatType == Fat32 ==>
      Le(Patched(geo, fat, c, value)[d * 4..d * 4 + 4]) / LOW_28 == Le(fat[d * 4..d * 4 + 4]) / LOW_28
  {
    hide Le, LeBytes;
    var w, off, at := geo.Width(), c * geo.Width(), d * geo.Width();
    var old_ := fat[off..off + w];
    EntryRoundTrip(geo, old_, value);
    if d == c {
      assert Patched(geo, fat, c, value)[at..at + w] == EntryBytes(geo, old_, value);
    } else {
      SpliceApart(fat, off, EntryBytes(geo, old_, value), at, w);
    }
  }

  /** The table as numbers: one entry for each cluster, and the two reserved ones. */
  function Links(geo: Geometry, fat: seq<byte>): (r: seq<nat>)
    requires Covers(geo, fat)
    ensures |r| == geo.countOfClusters + 2
    ensures forall c :: 0 <= c < |r| ==> FatEntry(geo, fat, c) == Some(r[c])
  {
    seq(geo.countOfClusters + 2, c requires 0 <= c < geo.countOfClusters + 2 => EntryAt(geo, fat, c))
  }

  function EntryAt(geo: Geometry, fat: seq<byte>, c: nat): (r: nat)
    requires Covers(geo, fat) && c < geo.countOfClusters + 2
    ensures FatEntry(geo, fat, c) == Some(r)
  {
    FatEntry(geo, fat, c).value
  }

  lemma PatchedLinks(geo: Geometry, fat: seq<byte>, c: nat, value: nat)
    requires Covers(geo, fat) && c < geo.countOfClusters + 2 && value < geo.Limit()
    ensures (c + 1) * geo.Width() <= |fat| && Covers(geo, Patched(geo, fat, c, value))
    ensures Links(geo, Patched(geo, fat, c, value)) == Links(geo, fat)[c := value]
  {
    hide Patched, FatEntry;
    InTable(geo, fat, c);
    var l, m := Links(geo, fat), Links(geo, Patched(geo, fat, c, value));
    forall d | 0 <= d < |l| ensures m[d] == l[c := value][d] {
      InTable(geo, fat, d);
      PatchedFacts(geo, fat, c, value, d);
      assert FatEntry(geo, fat, d) == Some(l[d]);
      assert FatEntry(geo, Patched(geo, fat, c, value), d) == Some(m[d]);
    }
  }
}
