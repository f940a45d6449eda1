/** A mounted FAT volume: the cached table, the root directory and the image. */
module FatVolume {
  import opened Entries
  import opened Bytes
  import opened FatTable
  import opened FatChains
  import opened FatData

  datatype Status = Ok | ReadOnlyVolume | NotFound | Corrupted | NoSpace | DirectoryFull

  const ATTR_ARCHIVE: bv8 := 0x20
  const ATTR_LONG_NAME: bv8 := 0x0F
  const ATTR_DIRECTORY_OR_LABEL: bv8 := 0x18

  /** One slot of the root directory. A free slot may still carry the numbers of a deleted file. */
  datatype DirEntry = DirEntry(name: seq<byte>, attr: bv8, firstCluster: nat, size: nat, free: bool) {
    predicate IsFile() {
      !free && attr & ATTR_LONG_NAME != ATTR_LONG_NAME && attr & ATTR_DIRECTORY_OR_LABEL == 0
    }

    function Owned(): nat { if free then 0 else firstCluster }
  }

  /** A slot is a file's unless it is free, or one of three attribute patterns is set: volume label,
      directory, or the four low bits of a fragment of a long name. */
  lemma FileBits(e: DirEntry)
    ensures e.IsFile() <==> !e.free && e.attr & 0x08 == 0 && e.attr & 0x10 == 0 && e.attr & 0x0F != 0x0F
  {
    var a := e.attr;
    assert a & 0x18 == 0 <==> a & 0x08 == 0 && a & 0x10 == 0;
  }

  /** The slot of the live file called name, or |entries|. */
  function Find(entries: seq<DirEntry>, name: seq<byte>): (s: nat)
    ensures s <= |entries|
    ensures s < |entries| ==> entries[s].IsFile() && entries[s].name == name
    ensures forall t :: 0 <= t < s ==> !(entries[t].IsFile() && entries[t].name == name)
  {
    if entries == [] || (entries[0].IsFile() && entries[0].name == name) then 0 else 1 + Find(entries[1..], name)
  }

  /** The first cluster of each directory slot's owner, and of the root directory itself. */
  function Firsts(geo: Geometry, entries: seq<DirEntry>): (r: seq<nat>)
    ensures |r| == |entries| + 1
    ensures forall s :: 0 <= s < |entries| ==> r[s] == entries[s].Owned()
    ensures r[|entries|] == if geo.fatType == Fat32 then geo.rootCluster else 0
  {
    seq(|entries|, s requires 0 <= s < |entries| => entries[s].Owned())
      + [if geo.fatType == Fat32 then geo.rootCluster else 0]
  }

  lemma FirstsUpdate(geo: Geometry, entries: seq<DirEntry>, s: nat, e: DirEntry)
    requires s < |entries|
    ensures Firsts(geo, entries[s := e]) == Firsts(geo, entries)[s := e.Owned()]
  {
  }

  /** The state of a volume: table entries, directory slots, the chain each slot owns (the root
      directory's own chain comes last) and the image. */
  datatype Snapshot = Snapshot(table: seq<nat>, entries: seq<DirEntry>, chains: seq<seq<nat>>, img: seq<byte>)

  ghost predicate Consistent(geo: Geometry, v: Snapshot) {
    Complete(geo, v.img) && Owns(geo, v.table, Firsts(geo, v.entries), v.chains)
  }

  lemma ChainFacts(geo: Geometry, v: Snapshot, s: nat)
    requires Consistent(geo, v) && s < |v.chains|
    ensures Table(geo, v.table) && |v.chains| == |v.entries| + 1
    ensures AllValid(geo, v.chains[s]) && Distinct(v.chains[s]) && Linked(geo, v.table, v.chains[s])
    ensures s < |v.entries| ==> IsChain(geo, v.table, v.entries[s].Owned(), v.chains[s])
  {
    assert IsChain(geo, v.table, Firsts(geo, v.entries)[s], v.chains[s]);
    forall i, j | 0 <= i < j < |v.chains[s]| ensures v.chains[s][i] != v.chains[s][j] {
      NoRepeat(geo, v.table, v.chains[s], i, j);
    }
  }

  /** All the bytes in the clusters of one owner. */
  ghost function Stored(geo: Geometry, v: Snapshot, s: nat): seq<byte>
    requires Consistent(geo, v) && s < |v.chains|
  {
    ChainFacts(geo, v, s);
    DataOf(geo, v.img, v.chains[s])
  }

  /** From a to b nothing changed but the file in slot s: no other slot, no other owner's clusters,
      no other owner's bytes. No cluster was lost or made up either. */
  ghost predicate Touches(geo: Geometry, a: Snapshot, b: Snapshot, s: nat) {
    && Consistent(geo, a) && Consistent(geo, b) && |b.entries| == |a.entries|
    && (forall t :: 0 <= t < |a.entries| && t != s ==> b.entries[t] == a.entries[t])
    && (forall t :: 0 <= t < |a.chains| && t != s ==>
       b.chains[t] == a.chains[t] && Stored(geo, b, t) == Stored(geo, a, t))
    && Balance(b.table, b.chains) == Balance(a.table, a.chains)
  }

  /** One more cluster for the file in slot s, zeroed. */
  ghost function Grown(geo: Geometry, a: Snapshot, s: nat, c: nat): Snapshot
    requires Consistent(geo, a) && s < |a.entries| && geo.ValidCluster(c) && Last(a.chains[s]) < |a.table|
  {
    Snapshot(Hung(geo, a.table, Last(a.chains[s]), c),
             if a.chains[s] == [] then a.entries[s := a.entries[s].(firstCluster := c)] else a.entries,
             a.chains[s := a.chains[s] + [c]],
             Stamped(geo, a.img, c, Zeros(geo.BytesPerCluster())))
  }

  lemma GrownFacts(geo: Geometry, a: Snapshot, s: nat, c: nat)
    requires Consistent(geo, a) && s < |a.entries| && !a.entries[s].free && geo.ValidCluster(c) && a.table[c] == 0
    ensures Last(a.chains[s]) < |a.table|
    ensures Touches(geo, a, Grown(geo, a, s, c), s)
    ensures Stored(geo, Grown(geo, a, s, c), s) == Stored(geo, a, s) + Zeros(geo.BytesPerCluster())
    ensures FreeCount(Grown(geo, a, s, c).table, |a.table|) + 1 == FreeCount(a.table, |a.table|)
  {
    var firsts := Firsts(geo, a.entries);
    Extended(geo, a.table, firsts, a.chains, s, c);
    ExtendKeepsBalance(geo, a.table, firsts, a.chains, s, c);
    TotalUpdate(a.chains, s, a.chains[s] + [c]);
    var b := Grown(geo, a, s, c);
    FirstsUpdate(geo, a.entries, s, a.entries[s].(firstCluster := c));
    ChainFacts(geo, a, s);
    var zeros := Zeros(geo.BytesPerCluster());
    forall t | 0 <= t < |a.chains| && t != s ensures b.chains[t] == a.chains[t]
      && Stored(geo, b, t) == Stored(geo, a, t) {
      KeepsOther(geo, a, firsts, c, t, zeros);
    }
    KeepsOther(geo, a, firsts, c, s, zeros);
    StampedFacts(geo, a.img, c, zeros, c);
    DataAppend(geo, b.img, a.chains[s], c);
  }

  /** Stamping a free cluster leaves everybody's bytes alone. */
  lemma KeepsOther(geo: Geometry, a: Snapshot, firsts: seq<nat>, c: nat, t: nat, b: seq<byte>)
    requires Consistent(geo, a) && firsts == Firsts(geo, a.entries) && geo.ValidCluster(c) && a.table[c] == 0
    requires t < |a.chains| && |b| == geo.BytesPerCluster()
    ensures AllValid(geo, a.chains[t])
    ensures DataOf(geo, Stamped(geo, a.img, c, b), a.chains[t]) == Stored(geo, a, t)
  {
    ChainFacts(geo, a, t);
    forall i | 0 <= i < |a.chains[t]| ensures a.chains[t][i] != c {
      FreeClusterUnowned(geo, a.table, firsts, a.chains, c, t, i);
    }
    DataFrame(geo, a.img, c, b, a.chains[t]);
  }

  /** Cluster i of the file in slot s overwritten. */
  ghost function Inked(geo: Geometry, a: Snapshot, s: nat, i: nat, b: seq<byte>): Snapshot
    requires Consistent(geo, a) && s < |a.chains| && i < |a.chains[s]| && |b| == geo.BytesPerCluster()
  {
    ChainFacts(geo, a, s);
    a.(img := Stamped(geo, a.img, a.chains[s][i], b))
  }

  lemma InkedFacts(geo: Geometry, a: Snapshot, s: nat, i: nat, b: seq<byte>)
    requires Consistent(geo, a) && s < |a.chains| && i < |a.chains[s]| && |b| == geo.BytesPerCluster()
    ensures Touches(geo, a, Inked(geo, a, s, i, b), s)
    ensures 0 <= i * |b| <= |Stored(geo, a, s)|
    ensures Stored(geo, Inked(geo, a, s, i, b), s) == Splice(Stored(geo, a, s), i * |b|, b)
  {
    var now := Inked(geo, a, s, i, b);
    ChainFacts(geo, a, s);
    DataWrite(geo, a.img, a.chains[s], i, b);
    forall t | 0 <= t < |a.chains| && t != s ensures Stored(geo, now, t) == Stored(geo, a, t) {
      ChainFacts(geo, a, t);
      DataFrame(geo, a.img, a.chains[s][i], b, a.chains[t]);
    }
  }

  /** The file in slot s given up: its clusters free, its slot rewritten. */
  ghost function Emptied(a: Snapshot, s: nat, e: DirEntry): Snapshot
    requires s < |a.entries| && s < |a.chains|
  {
    Snapshot(Zeroed(a.table, a.chains[s]), a.entries[s := e], a.chains[s := []], a.img)
  }

  lemma EmptiedFacts(geo: Geometry, a: Snapshot, s: nat, e: DirEntry)
    requires Consistent(geo, a) && s < |a.entries| && e.Owned() == 0
    ensures Touches(geo, a, Emptied(a, s, e), s)
  {
    Released(geo, a.table, Firsts(geo, a.entries), a.chains, s);
    ReleaseKeepsBalance(geo, a.table, Firsts(geo, a.entries), a.chains, s);
    FirstsUpdate(geo, a.entries, s, e);
  }

  /** Only the size changed. */
  lemma ResizedFacts(geo: Geometry, a: Snapshot, s: nat, size: nat)
    requires Consistent(geo, a) && s < |a.entries|
    ensures Touches(geo, a, a.(entries := a.entries[s := a.entries[s].(size := size)]), s)
    ensures s < |a.chains|
    ensures Stored(geo, a.(entries := a.entries[s := a.entries[s].(size := size)]), s) == Stored(geo, a, s)
  {
    FirstsUpdate(geo, a.entries, s, a.entries[s].(size := size));
    assert Firsts(geo, a.entries)[s := a.entries[s].Owned()] == Firsts(geo, a.entries);
  }

  lemma TouchesSelf(geo: Geometry, a: Snapshot, s: nat)
    requires Consistent(geo, a)
    ensures Touches(geo, a, a, s)
  {
  }

  lemma TouchesTrans(geo: Geometry, a: Snapshot, b: Snapshot, c: Snapshot, s: nat)
    requires Touches(geo, a, b, s) && Touches(geo, b, c, s)
    ensures Touches(geo, a, c, s)
  {
  }

  lemma {:induction false} FreeCountZero(links: seq<nat>, n: nat)
    requires n <= |links|
    ensures FreeCount(links, n) == 0 <==> forall c :: 2 <= c < n ==> links[c] != 0
  {
    if n > 2 {
      FreeCountZero(links, n - 1);
    }
  }

  lemma {:induction false} FreeCountIs(links: seq<nat>, n: nat)
    requires n <= |links|
    ensures FreeCount(links, n) == |set c | 2 <= c < n && links[c] == 0|
  {
    var here := set c | 2 <= c < n && links[c] == 0;
    if n > 2 {
      FreeCountIs(links, n - 1);
      var before := set c | 2 <= c < n - 1 && links[c] == 0;
      assert here == before + if links[n - 1] == 0 then {n - 1} else {};
    } else {
      assert here == {};
    }
  }

  /** The clusters walked so far are the beginning of every chain from first, and c comes next. */
  ghost predicate OnTrack(geo: Geometry, links: seq<nat>, first: nat, walked: seq<nat>, c: nat)
    requires Table(geo, links)
  {
    && (forall i :: 0 <= i < |walked| ==> geo.ValidCluster(walked[i]))
    && (forall i :: 0 <= i < |walked| ==> links[walked[i]] == if i + 1 < |walked| then walked[i + 1] else c)
    && (if walked == [] then c else walked[0]) == first
    && forall cs :: IsChain(geo, links, first, cs) ==> |walked| < |cs| && walked == cs[..|walked|] && cs[|walked|] == c
  }

  /** A chain cannot go on at a cluster outside the data region, nor at one it visited before. */
  lemma NoWayOn(geo: Geometry, links: seq<nat>, first: nat, walked: seq<nat>, c: nat)
    requires Table(geo, links) && OnTrack(geo, links, first, walked, c) && first != 0
    requires !geo.ValidCluster(c) || c in walked
    ensures forall cs :: !IsChain(geo, links, first, cs)
  {
    forall cs | IsChain(geo, links, first, cs) ensures false {
      assert LinkOk(geo, links, cs, |walked|);
      if c in walked {
        var i :| 0 <= i < |walked| && walked[i] == c;
        NoRepeat(geo, links, cs, i, |walked|);
      }
    }
  }

  lemma NextOnTrack(geo: Geometry, links: seq<nat>, first: nat, walked: seq<nat>, c: nat)
    requires Table(geo, links) && OnTrack(geo, links, first, walked, c) && first != 0 && geo.ValidCluster(c)
    ensures geo.IsEoc(links[c]) ==> IsChain(geo, links, first, walked + [c])
    ensures !geo.IsEoc(links[c]) ==> OnTrack(geo, links, first, walked + [c], links[c])
    ensures links[c] == 0 ==> forall cs :: !IsChain(geo, links, first, cs)
  {
    var longer := walked + [c];
    MarksApart(geo, c);
    forall i | 0 <= i < |longer|
      ensures geo.ValidCluster(longer[i]) && links[longer[i]] == if i + 1 < |longer| then longer[i + 1] else links[c]
    {
      if i < |walked| {
        assert geo.ValidCluster(walked[i]);
        assert links[walked[i]] == (if i + 1 < |walked| then walked[i + 1] else c);
        assert longer[i + 1] == (if i + 1 < |walked| then walked[i + 1] else c);
      }
    }
    if geo.IsEoc(links[c]) {
      forall i | 0 <= i < |longer| ensures geo.ValidCluster(longer[i]) && LinkOk(geo, links, longer, i) {
      }
    } else {
      forall cs | IsChain(geo, links, first, cs)
        ensures links[c] != 0 && |longer| < |cs| && longer == cs[..|longer|] && cs[|longer|] == links[c]
      {
        assert LinkOk(geo, links, cs, |walked|);
        MarksApart(geo, cs[|longer|]);
      }
    }
  }

  ghost function Numbers(n: nat): (r: set<nat>)
    ensures |r| == n && forall c: nat :: c in r <==> c < n
  {
    if n == 0 then {} else Numbers(n - 1) + {n - 1}
  }

  lemma {:induction false} SubsetSize(a: set<nat>, b: set<nat>)
    requires a <= b
    ensures |a| <= |b|
    decreases a
  {
    if a != {} {
      var x :| x in a;
      SubsetSize(a - {x}, b - {x});
    }
  }

  class Volume {
    const geo: Geometry
    const readOnly: bool
    const fat: array<byte>
    var img: seq<byte>
    var entries: seq<DirEntry>
    ghost var chains: seq<seq<nat>>

    /** The table covers every cluster, the image is complete, and every owner has a chain of its own. */
    ghost predicate Valid()
      reads this, fat
    {
      Covers(geo, fat[..]) && Consistent(geo, Now())
    }

    ghost function Table(): seq<nat>
      requires Covers(geo, fat[..])
      reads this, fat
    {
      Links(geo, fat[..])
    }

    ghost function Now(): Snapshot
      requires Covers(geo, fat[..])
      reads this, fat
    {
      Snapshot(Table(), entries, chains, img)
    }

    /** Mounts a consistent image. */
    constructor (geo: Geometry, readOnly: bool, table: seq<byte>, img: seq<byte>, entries: seq<DirEntry>,
                 ghost chains: seq<seq<nat>>)
      requires Covers(geo, table) && Consistent(geo, Snapshot(Links(geo, table), entries, chains, img))
      ensures Valid() && fresh(fat) && fat[..] == table
      ensures this.geo == geo && this.readOnly == readOnly && this.img == img
      ensures this.entries == entries && this.chains == chains
    {
      this.geo, this.readOnly, this.img, this.entries, this.chains := geo, readOnly, img, entries, chains;
      fat := new byte[|table|](i requires 0 <= i < |table| => table[i]);
      new;
      assert fat[..] == table;
    }

    // -------------------------------------------------------------- the table

    method FatEntry(c: nat) returns (r: Option<nat>)
      ensures r == FatTable.FatEntry(geo, fat[..], c)
    {
      var off := c * geo.Width();
      if off + geo.Width() > fat.Length {
        return None;
      }
      r := Some(Le(fat[off..off + geo.Width()]) % geo.Limit());
      assert fat[off..off + geo.Width()] == fat[..][off..off + geo.Width()];
    }

    /** Writes one entry, or reports a cluster past the end of the table. */
    method SetFatEntry(c: nat, value: nat) returns (st: Status)
      modifies fat
      ensures st == if (c + 1) * geo.Width() > fat.Length then Corrupted else Ok
      ensures st == Ok ==> FatTable.FatEntry(geo, fat[..], c) == Some(value % geo.Limit())
      ensures st != Ok ==> fat[..] == old(fat[..])
      ensures old(Covers(geo, fat[..])) && c < geo.countOfClusters + 2 && value < geo.Limit() ==>
        st == Ok && Covers(geo, fat[..]) && Table() == old(Table())[c := value]
    {
      var off := c * geo.Width();
      if off + geo.Width() > fat.Length {
        return Corrupted;
      }
      PatchedFacts(geo, fat[..], c, value, c);
      if Covers(geo, fat[..]) && c < geo.countOfClusters + 2 && value < geo.Limit() {
        PatchedLinks(geo, fat[..], c, value);
      }
      assert fat[off..off + geo.Width()] == fat[..][off..off + geo.Width()];
      Put(fat, off, EntryBytes(geo, fat[off..off + geo.Width()], value));
      st := Ok;
    }

    /** Walks a chain, guarding against stray cluster numbers and loops. It fails exactly when
        there is no chain. */
    method Chain(first: nat) returns (st: Status, clusters: seq<nat>)
      requires Covers(geo, fat[..]) && geo.Sound()
      ensures st == Ok || st == Corrupted
      ensures st == Ok ==> IsChain(geo, Table(), first, clusters)
      ensures st == Corrupted ==> forall cs :: !IsChain(geo, Table(), first, cs)
    {
      hide Covers, FatTable.FatEntry, Links, EntryAt;
      clusters := [];
      if first == 0 {
        return Ok, [];
      }
      var seen: set<nat>, c := {}, first;
      while true
        invariant OnTrack(geo, Table(), first, clusters, c)
        invariant (forall d :: d in seen <==> d in clusters) && seen <= Numbers(geo.countOfClusters + 2)
        decreases geo.countOfClusters + 2 - |seen|
      {
        if !geo.ValidCluster(c) || c in seen {
          NoWayOn(geo, Table(), first, clusters, c);
          return Corrupted, [];
        }
        NextOnTrack(geo, Table(), first, clusters, c);
        seen := seen + {c};
        clusters := clusters + [c];
        SubsetSize(seen, Numbers(geo.countOfClusters + 2));
        var next := FatEntry(c);
        if geo.IsEoc(next.value) {
          return Ok, clusters;
        }
        if next.value == 0 {
          return Corrupted, [];
        }
        c := next.value;
      }
    }

    /** Takes the first free cluster, marks it as an end and hangs it behind prev. */
    method Allocate(prev: nat) returns (st: Status, c: nat)
      requires Covers(geo, fat[..]) && geo.Sound()
      requires prev != 0 ==> geo.ValidCluster(prev) && Table()[prev] != 0
      modifies fat
      ensures Covers(geo, fat[..])
      ensures st == if readOnly then ReadOnlyVolume
                    else if exists d: nat :: geo.ValidCluster(d) && old(Table())[d] == 0 then Ok else NoSpace
      ensures st == Ok ==> geo.ValidCluster(c) && old(Table())[c] == 0 && prev < |Table()|
      ensures st == Ok ==> forall d: nat :: 2 <= d < c ==> old(Table())[d] != 0
      ensures Table() == if st == Ok then Hung(geo, old(Table()), prev, c) else old(Table())
      ensures st == Ok ==> Table()[c] == if geo.fatType == Fat16 then 0xFFFF else 0x0FFF_FFFF
      ensures st == Ok && prev != 0 ==> Table()[prev] == c
      ensures forall d :: 0 <= d < |Table()| && (st != Ok || (d != c && (d != prev || prev == 0))) ==>
        Table()[d] == old(Table())[d]
    {
      hide Covers, FatTable.FatEntry, Links, EntryAt;
      if readOnly {
        return ReadOnlyVolume, 0;
      }
      MarksApart(geo, prev);
      c := 2;
      while c < geo.countOfClusters + 2
        invariant 2 <= c <= geo.countOfClusters + 2 && Covers(geo, fat[..]) && Table() == old(Table())
        invariant forall d :: 2 <= d < c ==> Table()[d] != 0
      {
        var entry := FatEntry(c);
        if entry.value == 0 {
          MarksApart(geo, c);
          st := SetFatEntry(c, geo.EocMarker());
          if prev != 0 {
            st := SetFatEntry(prev, c);
          }
          return Ok, c;
        }
        c := c + 1;
      }
      return NoSpace, 0;
    }

    /** Marks every cluster of a chain free; a first cluster without a chain is an error. */
    method FreeChain(first: nat) returns (st: Status)
      requires Covers(geo, fat[..]) && geo.Sound()
      modifies fat
      ensures Covers(geo, fat[..]) && (st == ReadOnlyVolume <==> readOnly)
      ensures !readOnly ==> st == Ok || st == Corrupted
      ensures st == Corrupted ==> forall cs :: !IsChain(geo, old(Table()), first, cs)
      ensures st == Ok ==> forall cs :: IsChain(geo, old(Table()), first, cs) ==> Table() == Zeroed(old(Table()), cs)
      ensures st == Ok ==> exists cs :: IsChain(geo, old(Table()), first, cs)
      ensures st != Ok ==> Table() == old(Table())
    {
      hide Covers, FatTable.FatEntry, Links, EntryAt;
      if readOnly {
        return ReadOnlyVolume;
      }
      ghost var table := Table();
      assert Zeroed(table, []) == table;
      if first == 0 {
        assert IsChain(geo, table, first, []);
        return Ok;
      }
      var walked, clusters := Chain(first);
      if walked != Ok {
        assert Table() == table;
        return Corrupted;
      }
      forall cs | IsChain(geo, table, first, cs) ensures cs == clusters {
        SameStart(geo, table, cs, clusters);
      }
      FreeAll(clusters);
      st := Ok;
    }

    method FreeAll(clusters: seq<nat>)
      requires Covers(geo, fat[..]) && geo.Sound() && Linked(geo, Table(), clusters)
      modifies fat
      ensures Covers(geo, fat[..]) && Table() == Zeroed(old(Table()), clusters)
    {
      hide Covers, FatTable.FatEntry, Links, EntryAt;
      ghost var table := Table();
      assert Zeroed(table, []) == table;
      MarksApart(geo, 2);
      var i := 0;
      while i < |clusters|
        invariant i <= |clusters| && Covers(geo, fat[..]) && Table() == Zeroed(table, clusters[..i])
      {
        ZeroedStep(geo, table, clusters, i);
        var st := SetFatEntry(clusters[i], 0);
        i := i + 1;
      }
      assert clusters[..i] == clusters;
    }

    method FreeClusters() returns (free: nat)
      requires Covers(geo, fat[..])
      ensures free == FreeCount(Table(), |Table()|)
      ensures free == |set c | 2 <= c < |Table()| && Table()[c] == 0|
    {
      hide Covers, FatTable.FatEntry, Links, EntryAt;
      free := 0;
      var c := 2;
      while c < geo.countOfClusters + 2
        invariant 2 <= c && (c <= geo.countOfClusters + 2 || geo.countOfClusters == 0)
        invariant c <= |Table()| && free == FreeCount(Table(), c)
      {
        var entry := FatEntry(c);
        if entry.value == 0 {
          free := free + 1;
        }
        c := c + 1;
      }
      FreeCountIs(Table(), |Table()|);
    }

    // -------------------------------------------------------------- clusters

    method ReadCluster(c: nat, dst: array<byte>) returns (st: Status)
      requires Complete(geo, img) && dst.Length == geo.BytesPerCluster()
      modifies dst
      ensures st == if geo.ValidCluster(c) then Ok else Corrupted
      ensures dst[..] == if st == Ok then ClusterAt(geo, img, c) else old(dst[..])
    {
      if !geo.ValidCluster(c) {
        return Corrupted;
      }
      InsideImage(geo, img, c);
      var off := geo.ClusterOffset(c);
      Put(dst, 0, img[off..off + geo.BytesPerCluster()]);
      assert dst[..] == dst[..][0..geo.BytesPerCluster()];
      st := Ok;
    }

    method WriteCluster(c: nat, src: seq<byte>) returns (st: Status)
      requires Complete(geo, img) && |src| == geo.BytesPerCluster()
      modifies this`img
      ensures st == if readOnly then ReadOnlyVolume else if geo.ValidCluster(c) then Ok else Corrupted
      ensures img == (if st == Ok then Stamped(geo, old(img), c, src) else old(img)) && Complete(geo, img)
    {
      if readOnly {
        return ReadOnlyVolume;
      }
      if !geo.ValidCluster(c) {
        return Corrupted;
      }
      InsideImage(geo, img, c);
      img := Splice(img, geo.ClusterOffset(c), src);
      st := Ok;
    }
  }
}
