/** Files on a FAT volume: creation, removal, positioning, reading and writing over cluster chains. */
module FatFile {
  import opened Entries
  import opened Bytes
  import opened FatTable
  import opened FatChains
  import opened FatData
  import opened FatVolume

  /** What a handle has to agree with: its slot holds a file whose chain it has cached. */
  ghost predicate HandleOk(v: Snapshot, slot: nat, clusters: seq<nat>) {
    slot < |v.entries| && slot < |v.chains| && v.entries[slot].IsFile() && clusters == v.chains[slot]
  }

  /** A handle on another file stays good, and its file keeps its bytes. */
  lemma OtherHandleKept(geo: Geometry, a: Snapshot, b: Snapshot, s: nat, slot: nat, clusters: seq<nat>)
    requires Touches(geo, a, b, s) && HandleOk(a, slot, clusters) && slot != s
    ensures HandleOk(b, slot, clusters) && b.entries[slot] == a.entries[slot]
    ensures Stored(geo, b, slot) == Stored(geo, a, slot)
  {
  }

  // ---------------------------------------------------------------- positions

  /** Where a position lies: cluster index, offset inside that cluster, and where the cluster starts. */
  function BlockIndex(pos: nat, n: nat): nat
    requires n > 0
  {
    pos / n
  }

  function BlockOffset(pos: nat, n: nat): nat
    requires n > 0
  {
    pos % n
  }

  ghost function BlockStart(pos: nat, n: nat): nat
    requires n > 0
  {
    pos / n * n
  }

  lemma Placed(pos: nat, n: nat, count: nat)
    requires n > 0
    ensures BlockIndex(pos, n) < count <==> pos < count * n
    ensures BlockStart(pos, n) + BlockOffset(pos, n) == pos && BlockOffset(pos, n) < n
  {
    var q := pos / n;
    assert pos == q * n + pos % n;
    if q < count {
      MulMonotone(q + 1, count, n);
      assert (q + 1) * n == q * n + n;
    } else {
      MulMonotone(count, q, n);
    }
  }

  function Needed(end: nat, n: nat): nat
    requires n > 0
  {
    (end + n - 1) / n
  }

  /** The number of clusters a file of length end needs is the least that covers it. */
  lemma NeededClusters(end: nat, n: nat, count: nat)
    requires n > 0
    ensures count >= Needed(end, n) <==> end <= count * n
  {
    var need := Needed(end, n);
    assert need * n <= end + n - 1 < need * n + n by {
      assert end + n - 1 == need * n + (end + n - 1) % n;
    }
    if count >= need {
      MulMonotone(need, count, n);
    } else {
      MulMonotone(count + 1, need, n);
      assert (count + 1) * n == count * n + n;
    }
  }

  /** What a file's clusters hold in all. */
  lemma CapacityOf(geo: Geometry, v: Snapshot, s: nat)
    requires Consistent(geo, v) && s < |v.chains|
    ensures geo.BytesPerCluster() > 0 && |Stored(geo, v, s)| == |v.chains[s]| * geo.BytesPerCluster()
    ensures Complete(geo, v.img) && AllValid(geo, v.chains[s])
  {
    ClusterIsNotEmpty(geo);
    ChainFacts(geo, v, s);
    DataLength(geo, v.img, v.chains[s]);
  }

  lemma ClusterIsNotEmpty(geo: Geometry)
    requires geo.Sound()
    ensures geo.BytesPerCluster() > 0
  {
    assert geo.bytesPerSector * geo.sectorsPerCluster >= geo.bytesPerSector by {
      MulMonotone(1, geo.sectorsPerCluster, geo.bytesPerSector);
    }
  }

  // ---------------------------------------------------------------- copying in and out

  /** One turn of the write loop: the block that holds position pos + |done| is rewritten. */
  lemma WriteBlock(d: seq<byte>, pos: nat, done: seq<byte>, piece: seq<byte>, n: nat, at: nat, from: nat,
                   before: seq<byte>)
    requires pos <= |d| && pos + |done| + |piece| <= |d|
    requires at + n <= |d| && at + from == pos + |done| && from + |piece| <= n == |before|
    requires (from == 0 && |piece| == n) || before == Splice(d, pos, done)[at..at + n]
    ensures Splice(Splice(d, pos, done), at, Splice(before, from, piece)) == Splice(d, pos, done + piece)
  {
    var now := Splice(d, pos, done);
    assert Splice(before, from, piece) == Splice(now[at..at + n], from, piece);
    SpliceBlock(now, at, n, from, piece);
    SpliceTwice(d, pos, done, piece);
  }

  /** The block that holds a position, and the bytes of the file in it. */
  lemma BlockOf(geo: Geometry, v: Snapshot, s: nat, pos: nat)
    requires Consistent(geo, v) && s < |v.chains|
    ensures geo.BytesPerCluster() > 0
    ensures var n := geo.BytesPerCluster(); var start, from := BlockStart(pos, n), BlockOffset(pos, n);
      && start + from == pos && from < n
      && (BlockIndex(pos, n) < |v.chains[s]| <==> pos < |Stored(geo, v, s)|)
      && (BlockIndex(pos, n) < |v.chains[s]| ==>
          && Complete(geo, v.img) && geo.ValidCluster(v.chains[s][BlockIndex(pos, n)])
          && start + n <= |Stored(geo, v, s)|
          && ClusterAt(geo, v.img, v.chains[s][BlockIndex(pos, n)]) == Stored(geo, v, s)[start..start + n])
  {
    hide Geometry.BytesPerCluster;
    CapacityOf(geo, v, s);
    var n := geo.BytesPerCluster();
    Placed(pos, n, |v.chains[s]|);
    if BlockIndex(pos, n) < |v.chains[s]| {
      DataSlice(geo, v.img, v.chains[s], BlockIndex(pos, n));
    }
  }

  /** The bytes a read of up to n bytes at pos sees. */
  function Window(s: seq<byte>, pos: nat, n: nat): seq<byte> {
    if pos >= |s| then [] else s[pos..Smaller(pos + n, |s|)]
  }

  class File {
    const vol: Volume
    const slot: nat
    var pos: nat
    var clusters: seq<nat>

    constructor (vol: Volume, slot: nat, clusters: seq<nat>)
      ensures this.vol == vol && this.slot == slot && pos == 0 && this.clusters == clusters
    {
      this.vol, this.slot, this.clusters, pos := vol, slot, clusters, 0;
    }

    ghost predicate Valid()
      reads this, vol, vol.fat
    {
      vol.Valid() && HandleOk(vol.Now(), slot, clusters)
    }

    /** Everything in the file's clusters, and the part of it the file shows. */
    ghost function Data(): seq<byte>
      requires Valid()
      reads this, vol, vol.fat
    {
      Stored(vol.geo, vol.Now(), slot)
    }

    ghost function Bytes(): seq<byte>
      requires Valid()
      reads this, vol, vol.fat
    {
      Shown(Data(), Size())
    }

    function Size(): nat
      requires slot < |vol.entries|
      reads this, vol
    {
      vol.entries[slot].size
    }

    /** Positions count from the start, the present position or the end; a negative result is an error. */
    method Seek(off: int, whence: Whence) returns (st: Option<nat>)
      requires Valid()
      modifies this`pos
      ensures Valid() && Bytes() == old(Bytes())
      ensures var abs := off + match whence case Start => 0 case Current => old(pos) case End => Size();
        if abs < 0 then st == None && pos == old(pos) else st == Some(abs) && pos == abs
    {
      hide Consistent, Covers, Links, Stored, Shown;
      var abs := off;
      match whence {
        case Start =>
        case Current => abs := pos + off;
        case End => abs := Size() + off;
      }
      if abs < 0 {
        return None;
      }
      pos := abs;
      st := Some(abs);
    }

    /** Reads up to n bytes; no bytes at all is reported as the end of the file. */
    method Read(n: nat) returns (data: seq<byte>, eof: bool)
      requires Valid()
      modifies this`pos
      ensures data == Window(Bytes(), old(pos), n) && eof == (data == []) && pos == old(pos) + |data|
      ensures |data| == if old(pos) >= |Bytes()| then 0 else Smaller(n, |Bytes()| - old(pos))
      ensures forall k :: 0 <= k < |data| ==> data[k] == Bytes()[old(pos) + k]
      ensures Valid() && Bytes() == old(Bytes())
    {
      hide Geometry.BytesPerCluster, Consistent, Covers, Stored, Links;
      data := [];
      if pos >= Size() {
        return [], true;
      }
      var want := Smaller(n, Size() - pos);
      CapacityOf(vol.geo, vol.Now(), slot);
      ghost var all := Data();
      var buf := new byte[vol.geo.BytesPerCluster()](_ => 0);
      while |data| < want
        invariant |data| <= want && fresh(buf) && buf.Length == vol.geo.BytesPerCluster() && pos == old(pos)
        invariant if pos < |all| then pos + |data| <= |all| && data == all[pos..pos + |data|] else data == []
      {
        var piece := CopyOut(pos + |data|, want - |data|, buf);
        if piece == [] {
          break;
        }
        data := data + piece;
      }
      pos := pos + |data|;
      eof := data == [];
    }

    /** One turn of the read loop: up to want bytes at position at, from one cluster; nothing when
        the chain ends before. */
    method CopyOut(at: nat, want: nat, buf: array<byte>) returns (piece: seq<byte>)
      requires Valid() && want > 0 && buf.Length == vol.geo.BytesPerCluster() && buf != vol.fat
      modifies buf
      ensures |piece| <= want && (piece == [] <==> at >= |Data()|)
      ensures at + |piece| <= |Data()| || piece == []
      ensures piece != [] ==> piece == Data()[at..at + |piece|]
    {
      hide Geometry.BytesPerCluster, BlockIndex, BlockOffset, BlockStart, Consistent, Complete, Covers, Links, Stored,
           ClusterAt;
      BlockOf(vol.geo, vol.Now(), slot, at);
      var cs := vol.geo.BytesPerCluster();
      var idx := BlockIndex(at, cs);
      if idx >= |clusters| {
        return [];
      }
      var st := vol.ReadCluster(clusters[idx], buf);
      var from := BlockOffset(at, cs);
      var k := Smaller(cs - from, want);
      SliceOfSlice(Data(), BlockStart(at, cs), cs, from, k);
      assert buf[from..from + k] == buf[..][from..from + k];
      piece := buf[from..from + k];
    }

    // -------------------------------------------------------------- writing

    /** Hangs one more zeroed cluster on the file's chain. */
    method Grow() returns (st: Status)
      requires Valid() && !vol.readOnly
      modifies this`clusters, vol`entries, vol`chains, vol`img, vol.fat
      ensures Valid() && (st == Ok || st == NoSpace)
      ensures vol.entries[slot] == old(vol.entries[slot]).(firstCluster := vol.entries[slot].firstCluster)
      ensures st == Ok ==> Touches(vol.geo, old(vol.Now()), vol.Now(), slot) && |clusters| == |old(clusters)| + 1
      ensures st == Ok ==> Data() == old(Data()) + Zeros(vol.geo.BytesPerCluster())
      ensures st == Ok ==> FreeCount(vol.Table(), |vol.Table()|) + 1 == old(FreeCount(vol.Table(), |vol.Table()|))
      ensures st == NoSpace ==> vol.Now() == old(vol.Now()) && clusters == old(clusters)
      ensures st == NoSpace ==> FreeCount(vol.Table(), |vol.Table()|) == 0
    {
      hide Geometry.BytesPerCluster, ClusterAt, DataOf, Covers, Stamped, Complete, Links, FatTable.FatEntry,
           Hung, Owns, Linked, Stored, FreeCount, Balance, Zeros;
      ghost var before := vol.Now();
      ChainFacts(vol.geo, before, slot);
      var prev, next := 0, 0;
      if |clusters| > 0 {
        MemberUsed(vol.geo, before.table, clusters, |clusters| - 1);
        prev := clusters[|clusters| - 1];
      }
      FreeCountZero(before.table, |before.table|);
      st, next := vol.Allocate(prev);
      if st != Ok {
        return;
      }
      GrownFacts(vol.geo, before, slot, next);
      if |clusters| == 0 {
        vol.entries := vol.entries[slot := vol.entries[slot].(firstCluster := next)];
      }
      clusters := clusters + [next];
      vol.chains := vol.chains[slot := clusters];
      st := vol.WriteCluster(next, Zeros(vol.geo.BytesPerCluster()));
      assert vol.Now() == Grown(vol.geo, before, slot, next);
    }

    /** Extends the chain until it has need clusters. What was allocated before the volume ran out
        of space stays allocated. */
    method Extend(need: nat) returns (st: Status)
      requires Valid() && !vol.readOnly
      modifies this`clusters, vol`entries, vol`chains, vol`img, vol.fat
      ensures Valid() && Touches(vol.geo, old(vol.Now()), vol.Now(), slot)
      ensures vol.entries[slot] == old(vol.entries[slot]).(firstCluster := vol.entries[slot].firstCluster)
      ensures Padded(old(Data()), Data())
      ensures st == if need > |old(clusters)| + old(FreeCount(vol.Table(), |vol.Table()|)) then NoSpace else Ok
      ensures |clusters| + FreeCount(vol.Table(), |vol.Table()|)
        == old(|clusters| + FreeCount(vol.Table(), |vol.Table()|))
      ensures st == Ok ==> |clusters| == if need > |old(clusters)| then need else |old(clusters)|
      ensures st == NoSpace ==> FreeCount(vol.Table(), |vol.Table()|) == 0
    {
      hide Geometry.BytesPerCluster, Consistent, Covers, Links, Stored, FreeCount, Balance;
      st := Ok;
      while |clusters| < need
        invariant st == Ok && Valid() && Touches(vol.geo, old(vol.Now()), vol.Now(), slot)
        invariant vol.entries[slot] == old(vol.entries[slot]).(firstCluster := vol.entries[slot].firstCluster)
        invariant Padded(old(Data()), Data())
        invariant |clusters| + FreeCount(vol.Table(), |vol.Table()|)
          == old(|clusters| + FreeCount(vol.Table(), |vol.Table()|))
        invariant |old(clusters)| <= |clusters| && (|clusters| == |old(clusters)| || |clusters| <= need)
      {
        ghost var before := vol.Now();
        st := Grow();
        if st == Ok {
          TouchesTrans(vol.geo, old(vol.Now()), before, vol.Now(), slot);
          PaddedMore(old(Data()), Stored(vol.geo, before, slot), vol.geo.BytesPerCluster());
        } else {
          return;
        }
      }
    }

    /** Writes p at the present position, extending the chain and the recorded size as needed. */
    method Write(p: seq<byte>) returns (n: nat, st: Status)
      requires Valid()
      modifies this`pos, this`clusters, vol`entries, vol`chains, vol`img, vol.fat
      ensures Valid() && Touches(vol.geo, old(vol.Now()), vol.Now(), slot)
      ensures vol.geo.BytesPerCluster() > 0 &&
              st == if vol.readOnly then ReadOnlyVolume
                    else if p != [] && Needed(old(pos) + |p|, vol.geo.BytesPerCluster())
                                       > |old(clusters)| + old(FreeCount(vol.Table(), |vol.Table()|)) then NoSpace
                    else Ok
      ensures n == (if st == Ok then |p| else 0) && pos == old(pos) + n
      ensures Size() == if n > 0 then NewSize(old(Size()), pos) else old(Size())
      ensures vol.entries[slot]
        == old(vol.entries[slot]).(firstCluster := vol.entries[slot].firstCluster, size := Size())
      ensures if n > 0 then Laid(old(Data()), Data(), old(pos), p) else Padded(old(Data()), Data())
      ensures p == [] || st == ReadOnlyVolume ==> vol.Now() == old(vol.Now()) && clusters == old(clusters)
      ensures st == Ok && p != [] ==> |clusters| == Larger(|old(clusters)|, Needed(pos, vol.geo.BytesPerCluster()))
      ensures st == NoSpace ==> |clusters| == |old(clusters)| + old(FreeCount(vol.Table(), |vol.Table()|))
      ensures old(Clean(Data(), Size())) && pos < TWO_32 ==> Clean(Data(), Size())
      ensures n > 0 && old(Size() <= |Data()|) && pos < TWO_32 ==>
        (Bytes() == Overwritten(old(Bytes()), old(pos), p) <==> GapIsZero(old(Data()), old(Size()), old(pos)))
      ensures n == 0 && old(Size() <= |Data()|) ==> Bytes() == old(Bytes())
    {
      hide Geometry.BytesPerCluster, Needed, Consistent, Complete, Covers, Links, Stored, FreeCount, Balance, Splice,
           Padded, Shown, Overwritten, Clean;
      n := 0;
      ghost var before, d, size, at := vol.Now(), Data(), Size(), pos;
      TouchesSelf(vol.geo, before, slot);
      CapacityOf(vol.geo, before, slot);
      PaddedSelf(d);
      if vol.readOnly {
        return 0, ReadOnlyVolume;
      }
      if |p| == 0 {
        return 0, Ok;
      }
      var need := Needed(pos + |p|, vol.geo.BytesPerCluster());
      st := Extend(need);
      PaddingIsInvisible(d, Data(), size);
      if st != Ok {
        return 0, st;
      }
      CapacityOf(vol.geo, vol.Now(), slot);
      NeededClusters(pos + |p|, vol.geo.BytesPerCluster(), |clusters|);
      ghost var extended := vol.Now();
      n := |p|;
      PutBytes(p);
      TouchesTrans(vol.geo, before, extended, vol.Now(), slot);
      LaidDown(d, Stored(vol.geo, extended, slot), Data(), size, at, p);
    }

    /** Copies p in at the present position, moves behind it, and records the size if it grew. */
    method PutBytes(p: seq<byte>)
      requires Valid() && !vol.readOnly && p != [] && pos + |p| <= |Data()|
      modifies this`pos, vol`entries, vol`img
      ensures Valid() && Touches(vol.geo, old(vol.Now()), vol.Now(), slot)
      ensures pos == old(pos) + |p| && Data() == Splice(old(Data()), old(pos), p)
      ensures vol.entries[slot] == old(vol.entries[slot]).(size := NewSize(old(Size()), pos))
    {
      hide Geometry.BytesPerCluster, Consistent, Complete, Covers, Links, Stored, FreeCount, Balance, Splice;
      ghost var before := vol.Now();
      CopyIn(p);
      ghost var copied := vol.Now();
      pos := pos + |p|;
      if pos > Size() {
        ResizedFacts(vol.geo, copied, slot, pos % TWO_32);
        vol.entries := vol.entries[slot := vol.entries[slot].(size := pos % TWO_32)];
        TouchesTrans(vol.geo, before, copied, vol.Now(), slot);
      }
    }

    /** Copies p over the file's data from the present position on, cluster by cluster; a cluster
        that is only partly covered is read first. */
    method CopyIn(p: seq<byte>)
      requires Valid() && !vol.readOnly && pos + |p| <= |Data()|
      modifies vol`img
      ensures Valid() && Touches(vol.geo, old(vol.Now()), vol.Now(), slot)
      ensures Data() == Splice(old(Data()), pos, p)
    {
      hide Geometry.BytesPerCluster, Consistent, Covers, Links, Stored, Balance, Splice;
      ghost var before := vol.Now();
      TouchesSelf(vol.geo, before, slot);
      ghost var d := Data();
      SpliceNothing(d, pos);
      var buf := new byte[vol.geo.BytesPerCluster()](_ => 0);
      var written := 0;
      while written < |p|
        invariant written <= |p| && fresh(buf) && buf.Length == vol.geo.BytesPerCluster()
        invariant Valid() && Touches(vol.geo, before, vol.Now(), slot)
        invariant Data() == Splice(d, pos, p[..written])
      {
        ghost var middle := vol.Now();
        var n := CopyBlock(p, written, d, buf);
        TouchesTrans(vol.geo, before, middle, vol.Now(), slot);
        written := written + n;
      }
      assert p[..written] == p;
    }

    /** One turn of the write loop. A cluster covered entirely need not be read. */
    method CopyBlock(p: seq<byte>, written: nat, ghost d: seq<byte>, buf: array<byte>) returns (n: nat)
      requires Valid() && !vol.readOnly && written < |p| && pos + |p| <= |d|
      requires buf.Length == vol.geo.BytesPerCluster() && buf != vol.fat
      requires Data() == Splice(d, pos, p[..written])
      modifies vol`img, buf
      ensures 0 < n <= |p| - written
      ensures Valid() && Touches(vol.geo, old(vol.Now()), vol.Now(), slot)
      ensures Data() == Splice(d, pos, p[..written + n])
    {
      hide Geometry.BytesPerCluster, BlockIndex, BlockOffset, BlockStart, Consistent, Complete, Covers, Links, Stored,
           ClusterAt, Splice, Stamped, Touches;
      BlockOf(vol.geo, vol.Now(), slot, pos + written);
      var cs := vol.geo.BytesPerCluster();
      var idx, from := BlockIndex(pos + written, cs), BlockOffset(pos + written, cs);
      n := Smaller(cs - from, |p| - written);
      if from != 0 || n != cs {
        var read := vol.ReadCluster(clusters[idx], buf);
      }
      ghost var before := buf[..];
      var piece := p[written..written + n];
      Put(buf, from, piece);
      assert p[..written] + piece == p[..written + n];
      ghost var start := BlockStart(pos + written, cs);
      WriteBlock(d, pos, p[..written], piece, cs, start, from, before);
      InkedBlock(vol.geo, vol.Now(), slot, pos + written, buf[..]);
      var st := vol.WriteCluster(clusters[idx], buf[..]);
      assert vol.Now() == Inked(vol.geo, old(vol.Now()), slot, idx, buf[..]);
    }
  }

  /** Rewriting the block that holds a position. */
  lemma InkedBlock(geo: Geometry, v: Snapshot, s: nat, pos: nat, b: seq<byte>)
    requires Consistent(geo, v) && s < |v.chains| && |b| == geo.BytesPerCluster() > 0
    requires BlockIndex(pos, |b|) < |v.chains[s]|
    ensures var now := Inked(geo, v, s, BlockIndex(pos, |b|), b);
      && Touches(geo, v, now, s)
      && BlockStart(pos, |b|) <= |Stored(geo, v, s)|
      && Stored(geo, now, s) == Splice(Stored(geo, v, s), BlockStart(pos, |b|), b)
  {
    InkedFacts(geo, v, s, BlockIndex(pos, |b|), b);
  }

  // ---------------------------------------------------------------- opening, creating, removing

  /** No two live files share a name. */
  ghost predicate DistinctNames(entries: seq<DirEntry>) {
    forall s, t ::
      (0 <= s < |entries| && 0 <= t < |entries| && entries[s].IsFile() && entries[t].IsFile()
       && entries[s].name == entries[t].name) ==> s == t
  }

  function FirstFree(entries: seq<DirEntry>): (s: nat)
    ensures s <= |entries|
    ensures s < |entries| ==> entries[s].free
    ensures forall t :: 0 <= t < s ==> !entries[t].free
  {
    if entries == [] || entries[0].free then 0 else 1 + FirstFree(entries[1..])
  }

  /** The slot Create uses: the one that has the name already, or the first free one. */
  function SlotFor(entries: seq<DirEntry>, name: seq<byte>): (s: nat)
    ensures s <= |entries|
  {
    if Find(entries, name) < |entries| then Find(entries, name) else FirstFree(entries)
  }

  lemma FindIs(entries: seq<DirEntry>, name: seq<byte>, s: nat)
    requires s < |entries| && entries[s].IsFile() && entries[s].name == name
    requires forall t :: 0 <= t < s ==> !(entries[t].IsFile() && entries[t].name == name)
    ensures Find(entries, name) == s
  {
  }

  function NewEntry(name: seq<byte>): (e: DirEntry)
    ensures e.IsFile() && e.name == name && e.Owned() == 0 && e.size == 0
  {
    DirEntry(name, ATTR_ARCHIVE, 0, 0, false)
  }

  /** After Create the name leads to the slot used, and names stay distinct. */
  lemma CreatedNames(entries: seq<DirEntry>, name: seq<byte>)
    requires SlotFor(entries, name) < |entries|
    ensures Find(entries[SlotFor(entries, name) := NewEntry(name)], name) == SlotFor(entries, name)
    ensures DistinctNames(entries) ==> DistinctNames(entries[SlotFor(entries, name) := NewEntry(name)])
  {
    var s := SlotFor(entries, name);
    FindIs(entries[s := NewEntry(name)], name, s);
  }

  /** After Remove the name is gone, if it was there once. */
  lemma RemovedNames(entries: seq<DirEntry>, name: seq<byte>, e: DirEntry)
    requires Find(entries, name) < |entries| && DistinctNames(entries) && !e.IsFile()
    ensures Find(entries[Find(entries, name) := e], name) == |entries|
    ensures DistinctNames(entries[Find(entries, name) := e])
  {
  }

  lemma AllFileBits(entries: seq<DirEntry>)
    ensures forall s :: 0 <= s < |entries| ==> (!entries[s].IsFile() <==>
      var a := entries[s].attr; entries[s].free || a & 0x08 != 0 || a & 0x10 != 0 || a & 0x0F == 0x0F)
  {
    forall s | 0 <= s < |entries| ensures !entries[s].IsFile() <==>
      var a := entries[s].attr; entries[s].free || a & 0x08 != 0 || a & 0x10 != 0 || a & 0x0F == 0x0F
    {
      FileBits(entries[s]);
    }
  }

  /** A handle to an existing file, with its chain walked. */
  method Open(v: Volume, name: seq<byte>) returns (st: Status, f: File?)
    requires v.Valid()
    ensures st == if Find(v.entries, name) < |v.entries| then Ok else NotFound
    ensures st == NotFound <==> forall s :: 0 <= s < |v.entries| && v.entries[s].name == name ==>
      var a := v.entries[s].attr; v.entries[s].free || a & 0x08 != 0 || a & 0x10 != 0 || a & 0x0F == 0x0F
    ensures st == Ok <==> f != null
    ensures f != null ==> fresh(f) && f.vol == v && f.slot == Find(v.entries, name) && f.pos == 0 && f.Valid()
  {
    hide Covers, Links, Complete;
    var s := Find(v.entries, name);
    AllFileBits(v.entries);
    if s == |v.entries| {
      return NotFound, null;
    }
    ghost var owned := v.chains[s];
    ChainFacts(v.geo, v.Now(), s);
    var walked, clusters := v.Chain(v.entries[s].firstCluster);
    assert IsChain(v.geo, v.Table(), v.entries[s].firstCluster, owned);
    if walked != Ok {
      return walked, null;
    }
    if owned != [] {
      SameStart(v.geo, v.Table(), owned, clusters);
    }
    f := new File(v, s, clusters);
    st := Ok;
  }

  /** A handle to a new empty file; a file of that name is emptied and its clusters are freed. */
  method Create(v: Volume, name: seq<byte>) returns (st: Status, f: File?)
    requires v.Valid()
    modifies v`entries, v`chains, v.fat
    ensures v.Valid()
    ensures st == if v.readOnly then ReadOnlyVolume
                  else if SlotFor(old(v.entries), name) < |old(v.entries)| then Ok else DirectoryFull
    ensures st == Ok <==> f != null
    ensures st != Ok ==> v.Now() == old(v.Now())
    ensures f != null ==> fresh(f) && f.vol == v && f.slot == SlotFor(old(v.entries), name) && f.slot < |old(v.entries)|
    ensures f != null ==>
      f.Valid() && f.pos == 0 && f.clusters == [] && f.Size() == 0 && f.Data() == [] && f.Bytes() == []
    ensures f != null ==> v.entries == old(v.entries)[f.slot := NewEntry(name)]
    ensures f != null ==> v.entries[f.slot] == DirEntry(name, 0x20, 0, 0, false)
    ensures f != null ==> Touches(v.geo, old(v.Now()), v.Now(), f.slot)
  {
    hide Covers, Links, Complete, IsChain, Linked, Apart, Balance;
    ghost var before := v.Now();
    st, f := ReadOnlyVolume, null;
    if v.readOnly {
      return;
    }
    var s := Find(v.entries, name);
    if s < |v.entries| {
      ChainFacts(v.geo, before, s);
      st := v.FreeChain(v.entries[s].firstCluster);
    } else {
      s := FirstFree(v.entries);
      if s == |v.entries| {
        return DirectoryFull, null;
      }
      ChainFacts(v.geo, before, s);
      assert v.chains[s] == [];
      assert Zeroed(before.table, []) == before.table;
      st := Ok;
    }
    EmptiedFacts(v.geo, before, s, NewEntry(name));
    v.entries := v.entries[s := NewEntry(name)];
    v.chains := v.chains[s := []];
    assert v.Now() == Emptied(before, s, NewEntry(name));
    f := new File(v, s, []);
  }

  /** Deletes a file: its clusters are free again, and so is its slot. */
  method Remove(v: Volume, name: seq<byte>) returns (st: Status)
    requires v.Valid()
    modifies v`entries, v`chains, v.fat
    ensures v.Valid()
    ensures st == if v.readOnly then ReadOnlyVolume else if Find(old(v.entries), name) == |old(v.entries)|
      then NotFound else Ok
    ensures !v.readOnly ==> (st == NotFound <==>
      forall s :: 0 <= s < |old(v.entries)| && old(v.entries)[s].name == name ==>
        var e := old(v.entries)[s]; e.free || e.attr & 0x08 != 0 || e.attr & 0x10 != 0 || e.attr & 0x0F == 0x0F)
    ensures st != Ok ==> v.Now() == old(v.Now())
    ensures st == Ok ==> Touches(v.geo, old(v.Now()), v.Now(), Find(old(v.entries), name))
    ensures st == Ok ==> var s := Find(old(v.entries), name);
      v.entries == old(v.entries)[s := old(v.entries)[s].(firstCluster := 0, size := 0, free := true)]
    ensures st == Ok && old(DistinctNames(v.entries)) ==>
      Find(v.entries, name) == |v.entries| && DistinctNames(v.entries)
  {
    hide Covers, Links, Complete, IsChain, Linked, Apart, Balance;
    ghost var before := v.Now();
    if v.readOnly {
      return ReadOnlyVolume;
    }
    var s := Find(v.entries, name);
    AllFileBits(v.entries);
    if s == |v.entries| {
      return NotFound;
    }
    ChainFacts(v.geo, before, s);
    st := v.FreeChain(v.entries[s].firstCluster);
    var e := v.entries[s].(firstCluster := 0, size := 0, free := true);
    EmptiedFacts(v.geo, before, s, e);
    v.entries := v.entries[s := e];
    v.chains := v.chains[s := []];
    assert v.Now() == Emptied(before, s, e);
    if DistinctNames(before.entries) {
      RemovedNames(before.entries, name, e);
    }
  }

  lemma LaidDown(d: seq<byte>, wide: seq<byte>, now: seq<byte>, size: nat, pos: nat, p: seq<byte>)
    requires Padded(d, wide) && pos + |p| <= |wide| && now == Splice(wide, pos, p)
    ensures Laid(d, now, pos, p)
    ensures Clean(d, size) && pos + |p| < TWO_32 ==> Clean(now, NewSize(size, pos + |p|))
    ensures size <= |d| && pos + |p| < TWO_32 ==>
      (Shown(now, NewSize(size, pos + |p|)) == Overwritten(Shown(d, size), pos, p) <==> GapIsZero(d, size, pos))
  {
    hide Clean, Shown, Overwritten, GapIsZero;
    if pos + |p| < TWO_32 {
      if size <= |d| { WriteIsFlat(d, now, size, pos, p); }
      if Clean(d, size) { WriteKeepsClean(d, now, size, pos, p); }
    }
  }

  lemma SpliceNothing(d: seq<byte>, pos: nat)
    requires pos <= |d|
    ensures Splice(d, pos, []) == d
  {
  }

  datatype Whence = Start | Current | End
}
