/** Whole runs over a volume: any sequence of creating, opening, positioning, writing, reading and
    removing files behaves as the same sequence on independent flat byte arrays. */
module FatRun {
  import opened Entries
  import opened Bytes
  import opened FatTable
  import opened FatChains
  import opened FatData
  import opened FatVolume
  import opened FatFile

  datatype Op =
    | MakeFile(name: seq<byte>)
    | OpenFile(name: seq<byte>)
    | SeekTo(name: seq<byte>, pos: nat)
    | WriteTo(name: seq<byte>, bytes: seq<byte>)
    | ReadFrom(name: seq<byte>, count: nat)
    | RemoveFile(name: seq<byte>)

  /** What came of an operation: it was refused, it was done, or it was done and gave bytes. */
  datatype Answer = Refused | Done | Got(data: seq<byte>)

  /** A file as its user sees it. */
  datatype Flat = Flat(bytes: seq<byte>, pos: nat)

  /** A volume as its user sees it: the open files as flat byte arrays, the bytes of those that were there
      before and are not open, how many clusters each live file has (open or not), and how many directory
      slots and clusters are free. */
  datatype Disk = Disk(files: map<seq<byte>, Flat>, closed: map<seq<byte>, seq<byte>>, live: map<seq<byte>, nat>,
                       slots: nat, clusters: nat, clusterSize: nat, readOnly: bool)
  {
    function Held(name: seq<byte>): nat { if name in live then live[name] else 0 }

    /** How many clusters a file needs for a write of count bytes at its position. */
    function Reach(name: seq<byte>, count: nat): nat
      requires name in files && clusterSize > 0
    {
      Larger(Held(name), Needed(files[name].pos + count, clusterSize))
    }

    /** A write goes through if the file is open, its end stays below 2^32 and there are clusters enough. */
    predicate Writable(name: seq<byte>, count: nat)
      requires clusterSize > 0
    {
      Reachable(name, count) && (count > 0 ==> Reach(name, count) <= Held(name) + clusters)
    }

    predicate Reachable(name: seq<byte>, count: nat) {
      !readOnly && name in files && files[name].pos + count < TWO_32
    }

    /** The answer to an operation is determined by what the user can know. */
    function Respond(op: Op): Answer
      requires clusterSize > 0
    {
      match op
      case MakeFile(name) => if !readOnly && (name in live || slots > 0) then Done else Refused
      case OpenFile(name) => if name in files || name in closed then Done else Refused
      case SeekTo(name, pos) => if name in files then Done else Refused
      case WriteTo(name, p) => if Writable(name, |p|) then Done else Refused
      case ReadFrom(name, n) => if name in files then Got(Window(files[name].bytes, files[name].pos, n)) else Refused
      case RemoveFile(name) => if !readOnly && name in live then Done else Refused
    }

    /** What is left after it. Only a write that runs out of clusters does something before it is
        refused: the clusters there were now belong to the file. */
    function After(op: Op): (r: Disk)
      requires clusterSize > 0
      ensures r.clusterSize == clusterSize && r.readOnly == readOnly
    {
      match op
      case MakeFile(name) =>
        if Respond(op) == Refused then this
        else this.(files := files[name := Flat([], 0)], closed := closed - {name}, live := live[name := 0],
                   clusters := clusters + Held(name),
                   slots := if name in live then slots else slots - 1)
      case OpenFile(name) =>
        if name in files then this.(files := files[name := Flat(files[name].bytes, 0)])
        else if name in closed then this.(files := files[name := Flat(closed[name], 0)], closed := closed - {name})
        else this
      case SeekTo(name, pos) =>
        if name in files then this.(files := files[name := Flat(files[name].bytes, pos)]) else this
      case WriteTo(name, p) =>
        if !Reachable(name, |p|) || p == [] then this
        else if !Writable(name, |p|) then this.(live := live[name := Held(name) + clusters], clusters := 0)
        else this.(files := files[name := Flat(Overwritten(files[name].bytes, files[name].pos, p),
                                               files[name].pos + |p|)],
                   live := live[name := Reach(name, |p|)], clusters := clusters - (Reach(name, |p|) - Held(name)))
      case ReadFrom(name, n) =>
        if name in files
        then this.(files := files[name := Flat(files[name].bytes,
                                               files[name].pos + |Window(files[name].bytes, files[name].pos, n)|)])
        else this
      case RemoveFile(name) =>
        if Respond(op) == Refused then this
        else this.(files := files - {name}, closed := closed - {name}, live := live - {name},
                   clusters := clusters + Held(name), slots := slots + 1)
    }
  }

  ghost function Replay(start: Disk, ops: seq<Op>): (r: Disk)
    requires start.clusterSize > 0
    ensures r.clusterSize == start.clusterSize && r.readOnly == start.readOnly
  {
    if ops == [] then start else Replay(start, ops[..|ops| - 1]).After(ops[|ops| - 1])
  }

  // ---------------------------------------------------------------- what a volume holds

  ghost function FreeSlots(entries: seq<DirEntry>): nat {
    if entries == [] then 0 else (if entries[0].free then 1 else 0) + FreeSlots(entries[1..])
  }

  lemma {:induction false} FreeSlotsUpdate(entries: seq<DirEntry>, s: nat, e: DirEntry)
    requires s < |entries|
    ensures FreeSlots(entries[s := e])
      == FreeSlots(entries) - (if entries[s].free then 1 else 0) + (if e.free then 1 else 0)
  {
    if s == 0 {
      assert entries[0 := e][1..] == entries[1..];
    } else {
      assert entries[s := e][1..] == entries[1..][s - 1 := e];
      FreeSlotsUpdate(entries[1..], s - 1, e);
    }
  }

  /** A free slot is found exactly when there is one. */
  lemma {:induction false} SlotFound(entries: seq<DirEntry>)
    ensures FreeSlots(entries) > 0 <==> FirstFree(entries) < |entries|
  {
    if entries != [] {
      SlotFound(entries[1..]);
    }
  }

  /** The live names with the lengths of their chains. */
  ghost predicate Lists(live: map<seq<byte>, nat>, v: Snapshot) {
    |v.chains| == |v.entries| + 1 && forall x :: Listed(live, v, x)
  }

  ghost predicate Listed(live: map<seq<byte>, nat>, v: Snapshot, x: seq<byte>)
    requires |v.chains| == |v.entries| + 1
  {
    (x in live <==> Find(v.entries, x) < |v.entries|) && (x in live ==> live[x] == |v.chains[Find(v.entries, x)]|)
  }

  ghost function Directory(v: Snapshot): (live: map<seq<byte>, nat>)
    requires |v.chains| == |v.entries| + 1
    ensures Lists(live, v)
  {
    var names := set s | 0 <= s < |v.entries| && v.entries[s].IsFile() :: v.entries[s].name;
    assert forall x :: x in names <==> Find(v.entries, x) < |v.entries|;
    map x | x in names :: |v.chains[Find(v.entries, x)]|
  }

  /** The counts a user keeps are those of the volume. */
  ghost predicate Counts(d: Disk, geo: Geometry, readOnly: bool, v: Snapshot) {
    && d.clusterSize == geo.BytesPerCluster() > 0 && d.readOnly == readOnly
    && Lists(d.live, v) && d.slots == FreeSlots(v.entries) && d.clusters == FreeCount(v.table, |v.table|)
  }

  lemma CountsBasics(d: Disk, geo: Geometry, readOnly: bool, v: Snapshot)
    requires Counts(d, geo, readOnly, v)
    ensures d.clusterSize == geo.BytesPerCluster() > 0 && d.readOnly == readOnly
  {
  }

  lemma SameCounts(d: Disk, e: Disk, geo: Geometry, readOnly: bool, v: Snapshot)
    requires Counts(d, geo, readOnly, v) && e == d.(files := e.files, closed := e.closed)
    ensures Counts(e, geo, readOnly, v)
  {
  }

  /** What a file gains or gives up, the free clusters lose or gain. */
  lemma FreeMoved(geo: Geometry, a: Snapshot, b: Snapshot, s: nat)
    requires Touches(geo, a, b, s) && s < |a.chains|
    ensures |b.chains| == |a.chains|
    ensures FreeCount(b.table, |b.table|) + |b.chains[s]| == FreeCount(a.table, |a.table|) + |a.chains[s]|
  {
    ChainFacts(geo, a, s);
    ChainFacts(geo, b, s);
    assert b.chains == a.chains[s := b.chains[s]];
    TotalUpdate(a.chains, s, b.chains[s]);
  }

  /** The listing after the slot of one name was rewritten. */
  lemma ListsUpdate(a: Snapshot, b: Snapshot, s: nat, name: seq<byte>, live: map<seq<byte>, nat>)
    requires Lists(live, a) && s < |a.entries| && |b.entries| == |a.entries| && |b.chains| == |a.chains|
    requires forall t :: 0 <= t < |a.entries| && t != s ==> b.entries[t] == a.entries[t] && b.chains[t] == a.chains[t]
    requires DistinctNames(a.entries) && DistinctNames(b.entries)
    requires a.entries[s].IsFile() ==> a.entries[s].name == name
    requires name in live ==> Find(a.entries, name) == s
    requires b.entries[s].IsFile() ==> b.entries[s].name == name
    ensures Lists(if b.entries[s].IsFile() then live[name := |b.chains[s]|] else live - {name}, b)
  {
    var now := if b.entries[s].IsFile() then live[name := |b.chains[s]|] else live - {name};
    assert Listed(live, a, name);
    if b.entries[s].IsFile() {
      FindIs(b.entries, name, s);
    } else {
      assert forall t :: 0 <= t < |b.entries| ==> !(b.entries[t].IsFile() && b.entries[t].name == name);
    }
    forall x ensures Listed(now, b, x) {
      if x != name {
        assert Listed(live, a, x);
        OtherFound(a.entries, b.entries, s, x);
      }
    }
  }

  lemma OtherFound(a: seq<DirEntry>, b: seq<DirEntry>, s: nat, x: seq<byte>)
    requires |b| == |a| && s < |a| && forall t :: 0 <= t < |a| && t != s ==> b[t] == a[t]
    requires a[s].IsFile() ==> a[s].name != x
    requires b[s].IsFile() ==> b[s].name != x
    ensures Find(b, x) == Find(a, x)
  {
    var f, g := Find(a, x), Find(b, x);
    assert f < |a| ==> b[f] == a[f];
    assert g < |b| ==> a[g] == b[g];
  }

  lemma MadeCounts(d: Disk, geo: Geometry, a: Snapshot, b: Snapshot, name: seq<byte>)
    requires Counts(d, geo, false, a) && DistinctNames(a.entries) && SlotFor(a.entries, name) < |a.entries|
    requires Touches(geo, a, b, SlotFor(a.entries, name))
    requires b.entries == a.entries[SlotFor(a.entries, name) := NewEntry(name)]
    ensures d.Respond(MakeFile(name)) == Done && Counts(d.After(MakeFile(name)), geo, false, b)
  {
    hide Touches, FreeSlots, FreeCount, Consistent;
    var s := SlotFor(a.entries, name);
    assert Listed(d.live, a, name);
    SlotFound(a.entries);
    SlotOwnsNothing(geo, a, b, s);
    CreatedNames(a.entries, name);
    FreeMoved(geo, a, b, s);
    FreeSlotsUpdate(a.entries, s, NewEntry(name));
    ListsUpdate(a, b, s, name, d.live);
  }

  /** A slot without a first cluster owns no clusters, and nothing but slot s changed. */
  lemma SlotOwnsNothing(geo: Geometry, a: Snapshot, b: Snapshot, s: nat)
    requires Touches(geo, a, b, s) && s < |a.entries|
    ensures |a.chains| == |b.chains| == |a.entries| + 1 && |b.entries| == |a.entries|
    ensures (a.entries[s].Owned() == 0 ==> a.chains[s] == []) && (b.entries[s].Owned() == 0 ==> b.chains[s] == [])
    ensures forall t :: 0 <= t < |a.entries| && t != s ==> b.entries[t] == a.entries[t] && b.chains[t] == a.chains[t]
  {
    ChainFacts(geo, a, s);
    ChainFacts(geo, b, s);
  }

  lemma NotMade(d: Disk, geo: Geometry, readOnly: bool, a: Snapshot, name: seq<byte>)
    requires Counts(d, geo, readOnly, a) && (readOnly || SlotFor(a.entries, name) == |a.entries|)
    ensures d.Respond(MakeFile(name)) == Refused
  {
    assert Listed(d.live, a, name);
    SlotFound(a.entries);
  }

  lemma NotRemoved(d: Disk, geo: Geometry, readOnly: bool, a: Snapshot, name: seq<byte>)
    requires Counts(d, geo, readOnly, a)
    ensures d.Respond(RemoveFile(name)) == if !readOnly && Find(a.entries, name) < |a.entries| then Done else Refused
    ensures d.Respond(RemoveFile(name)) == Refused ==> d.After(RemoveFile(name)) == d
  {
    assert Listed(d.live, a, name);
  }

  lemma RemovedCounts(d: Disk, geo: Geometry, a: Snapshot, b: Snapshot, name: seq<byte>)
    requires Counts(d, geo, false, a) && DistinctNames(a.entries) && DistinctNames(b.entries)
    requires Find(a.entries, name) < |a.entries| && Touches(geo, a, b, Find(a.entries, name))
    requires b.entries[Find(a.entries, name)].free
    ensures d.Respond(RemoveFile(name)) == Done && Counts(d.After(RemoveFile(name)), geo, false, b)
  {
    hide Touches, FreeSlots, FreeCount, Consistent;
    var s := Find(a.entries, name);
    assert Listed(d.live, a, name);
    SlotOwnsNothing(geo, a, b, s);
    FreeMoved(geo, a, b, s);
    assert b.entries == a.entries[s := b.entries[s]];
    FreeSlotsUpdate(a.entries, s, b.entries[s]);
    ListsUpdate(a, b, s, name, d.live);
  }

  /** A write of p at the position of the open file called name, whether it went through or ran out. */
  lemma WrittenCounts(d: Disk, geo: Geometry, a: Snapshot, b: Snapshot, s: nat, name: seq<byte>, p: seq<byte>,
                      st: Status)
    requires Counts(d, geo, false, a) && DistinctNames(a.entries) && DistinctNames(b.entries)
    requires d.Reachable(name, |p|) && Touches(geo, a, b, s) && Find(a.entries, name) == s < |a.entries|
    requires b.entries[s].IsFile() && b.entries[s].name == name && |a.chains| == |b.chains| == |a.entries| + 1
    requires var need, free := Needed(d.files[name].pos + |p|, d.clusterSize), FreeCount(a.table, |a.table|);
      st == if p != [] && need > |a.chains[s]| + free then NoSpace else Ok
    requires |b.chains[s]| == if p == [] then |a.chains[s]|
                              else if st == Ok
                              then Larger(|a.chains[s]|, Needed(d.files[name].pos + |p|, d.clusterSize))
                              else |a.chains[s]| + FreeCount(a.table, |a.table|)
    ensures d.Respond(WriteTo(name, p)) == (if st == Ok then Done else Refused)
    ensures Counts(d.After(WriteTo(name, p)), geo, false, b)
    ensures d.After(WriteTo(name, p)).files ==
      if st == Ok && p != []
        then d.files[name := Flat(Overwritten(d.files[name].bytes, d.files[name].pos, p), d.files[name].pos + |p|)]
      else d.files
  {
    hide Touches, FreeSlots, FreeCount, Consistent, Needed, Overwritten;
    assert Listed(d.live, a, name);
    SlotOwnsNothing(geo, a, b, s);
    FreeMoved(geo, a, b, s);
    assert b.entries == a.entries[s := b.entries[s]];
    FreeSlotsUpdate(a.entries, s, b.entries[s]);
    ListsUpdate(a, b, s, name, d.live);
    assert d.live[name := d.live[name]] == d.live;
  }

  // ---------------------------------------------------------------- handles and their files

  /** Slot and clusters stand for the file called name with these bytes. */
  ghost predicate Mirrors(geo: Geometry, v: Snapshot, slot: nat, clusters: seq<nat>, name: seq<byte>,
                          bytes: seq<byte>) {
    && Consistent(geo, v) && HandleOk(v, slot, clusters) && Find(v.entries, name) == slot
    && Clean(Stored(geo, v, slot), v.entries[slot].size)
    && Shown(Stored(geo, v, slot), v.entries[slot].size) == bytes
  }

  /** What happens to the file in slot s does not reach a file of another name. */
  lemma OtherMirrorKept(geo: Geometry, a: Snapshot, b: Snapshot, s: nat, name: seq<byte>,
                        slot: nat, clusters: seq<nat>, other: seq<byte>, bytes: seq<byte>)
    requires Touches(geo, a, b, s) && Mirrors(geo, a, slot, clusters, other, bytes) && other != name
    requires s < |a.entries| && (a.entries[s].IsFile() ==> a.entries[s].name == name)
    requires b.entries[s].IsFile() ==> b.entries[s].name == name
    ensures Mirrors(geo, b, slot, clusters, other, bytes)
  {
    OtherHandleKept(geo, a, b, s, slot, clusters);
    FindIs(b.entries, other, slot);
  }

  /** A file nobody has opened, with these bytes. */
  ghost predicate Shelved(geo: Geometry, v: Snapshot, name: seq<byte>, bytes: seq<byte>) {
    var s := Find(v.entries, name);
    s < |v.chains| && Mirrors(geo, v, s, v.chains[s], name, bytes)
  }

  ghost predicate AllShelved(geo: Geometry, v: Snapshot, closed: map<seq<byte>, seq<byte>>) {
    forall x :: x in closed ==> Shelved(geo, v, x, closed[x])
  }

  /** What happens to one file does not reach the closed files of other names. */
  lemma ShelvedKept(geo: Geometry, a: Snapshot, b: Snapshot, s: nat, name: seq<byte>, closed: map<seq<byte>, seq<byte>>)
    requires Touches(geo, a, b, s) && AllShelved(geo, a, closed)
    requires s < |a.entries| && (a.entries[s].IsFile() ==> a.entries[s].name == name)
    requires b.entries[s].IsFile() ==> b.entries[s].name == name
    ensures AllShelved(geo, b, closed - {name})
  {
    forall x | x in closed && x != name ensures Shelved(geo, b, x, closed[x]) {
      assert Shelved(geo, a, x, closed[x]);
      var slot := Find(a.entries, x);
      OtherMirrorKept(geo, a, b, s, name, slot, a.chains[slot], x, closed[x]);
    }
  }

  /** The handle stands for the flat file. */
  ghost predicate Follows(v: Volume, f: File, name: seq<byte>, flat: Flat)
    reads v, v.fat, f
  {
    f.vol == v && Covers(v.geo, v.fat[..]) && Mirrors(v.geo, v.Now(), f.slot, f.clusters, name, flat.bytes)
      && f.pos == flat.pos
  }

  /** Every open handle stands for its flat file, and there are no others. */
  ghost predicate AllFollow(v: Volume, handles: map<seq<byte>, File>, m: map<seq<byte>, Flat>)
    reads v, v.fat, handles.Values
  {
    && v.Valid() && DistinctNames(v.entries) && handles.Keys == m.Keys
    && forall name :: name in handles ==> Follows(v, handles[name], name, m[name])
  }

  /** The volume and its handles stand for the disk the user sees. */
  ghost predicate InStep(v: Volume, handles: map<seq<byte>, File>, d: Disk)
    reads v, v.fat, handles.Values
  {
    && AllFollow(v, handles, d.files) && handles.Keys == d.files.Keys && Covers(v.geo, v.fat[..])
    && Counts(d, v.geo, v.readOnly, v.Now())
    && d.closed.Keys !! d.files.Keys && AllShelved(v.geo, v.Now(), d.closed)
  }

  /** Different names have different handles. */
  lemma HandlesDiffer(v: Volume, handles: map<seq<byte>, File>, m: map<seq<byte>, Flat>, name: seq<byte>,
                      other: seq<byte>)
    requires AllFollow(v, handles, m) && name in handles && other in handles && name != other
    ensures handles[name] != handles[other] && handles[name].slot != handles[other].slot
  {
    assert Follows(v, handles[name], name, m[name]) && Follows(v, handles[other], other, m[other]);
  }

  /** Nothing but the file called name changed, so all other handles still stand for their files. */
  lemma OthersFollow(v: Volume, handles: map<seq<byte>, File>, m: map<seq<byte>, Flat>, before: Snapshot, s: nat,
                     name: seq<byte>)
    requires Covers(v.geo, v.fat[..]) && Touches(v.geo, before, v.Now(), s) && s < |before.entries|
    requires handles.Keys == m.Keys
    requires before.entries[s].IsFile() ==> before.entries[s].name == name
    requires v.entries[s].IsFile() ==> v.entries[s].name == name
    requires forall x :: x in handles && x != name ==>
      && handles[x].vol == v && handles[x].pos == m[x].pos
      && Mirrors(v.geo, before, handles[x].slot, handles[x].clusters, x, m[x].bytes)
    ensures forall x :: x in handles && x != name ==> Follows(v, handles[x], x, m[x])
  {
    forall x | x in handles && x != name ensures Follows(v, handles[x], x, m[x]) {
      OtherMirrorKept(v.geo, before, v.Now(), s, name, handles[x].slot, handles[x].clusters, x, m[x].bytes);
    }
  }

  ghost predicate SameOrNew(handles: map<seq<byte>, File>, now: map<seq<byte>, File>, f: File?) {
    forall x :: x in now ==> (x in handles && now[x] == handles[x]) || now[x] == f
  }

  lemma EmptyMirror(geo: Geometry, v: Snapshot, slot: nat, name: seq<byte>)
    requires Consistent(geo, v) && HandleOk(v, slot, []) && Find(v.entries, name) == slot && v.entries[slot].size == 0
    requires Stored(geo, v, slot) == []
    ensures Mirrors(geo, v, slot, [], name, [])
  {
  }

  method Make(v: Volume, handles: map<seq<byte>, File>, name: seq<byte>, ghost d: Disk)
    returns (a: Answer, now: map<seq<byte>, File>, ghost f: File?)
    requires InStep(v, handles, d)
    modifies v, v.fat
    ensures InStep(v, now, d.After(MakeFile(name))) && a == d.Respond(MakeFile(name))
    ensures SameOrNew(handles, now, f) && (f != null ==> fresh(f))
    ensures Balance(v.Table(), v.chains) == old(Balance(v.Table(), v.chains))
  {
    hide Covers, Links, Complete, Owns, Consistent, Balance, Stored, Mirrors, Find, Counts, Shelved;
    ghost var before, m := v.Now(), d.files;
    assert forall x :: x in handles ==> Follows(v, handles[x], x, m[x]);
    var st, file := Create(v, name);
    f := file;
    if st != Ok {
      NotMade(d, v.geo, v.readOnly, before, name);
      return Refused, handles, f;
    }
    MadeCounts(d, v.geo, before, v.Now(), name);
    CreatedNames(before.entries, name);
    OthersFollow(v, handles, m, before, file.slot, name);
    ShelvedKept(v.geo, before, v.Now(), file.slot, name, d.closed);
    EmptyMirror(v.geo, v.Now(), file.slot, name);
    now := handles[name := file];
    a := Done;
  }

  /** Every live file is open or known by its bytes. */
  ghost predicate Known(d: Disk) {
    d.live.Keys == d.files.Keys + d.closed.Keys
  }

  lemma KnownKept(d: Disk, op: Op)
    requires d.clusterSize > 0 && Known(d)
    ensures Known(d.After(op))
  {
    hide Overwritten, Window, Disk.Reach, Disk.Writable;
  }

  /** A new handle on a file that is there, open already or not. */
  method Access(v: Volume, handles: map<seq<byte>, File>, name: seq<byte>, ghost d: Disk)
    returns (a: Answer, now: map<seq<byte>, File>, ghost f: File?)
    requires InStep(v, handles, d) && Known(d)
    ensures InStep(v, now, d.After(OpenFile(name))) && a == d.Respond(OpenFile(name))
    ensures SameOrNew(handles, now, f) && (f != null ==> fresh(f))
  {
    hide Covers, Links, Complete, Owns, Consistent, Balance, Stored, Mirrors, Find, Counts, Shelved, DistinctNames;
    ghost var m := d.files;
    assert forall x :: x in handles ==> Follows(v, handles[x], x, m[x]);
    CountsBasics(d, v.geo, v.readOnly, v.Now());
    var st, file := Open(v, name);
    f := file;
    LiveIsFound(d, v.geo, v.readOnly, v.Now(), name);
    if st != Ok {
      return Refused, handles, f;
    }
    if name in d.files {
      MirrorIsShelved(v.geo, v.Now(), handles[name].slot, handles[name].clusters, name, m[name].bytes);
    }
    ShelvedIsMirror(v.geo, v.Now(), file.slot, file.clusters, name, if name in m then m[name].bytes
      else d.closed[name]);
    now := handles[name := file];
    SameCounts(d, d.After(OpenFile(name)), v.geo, v.readOnly, v.Now());
    a := Done;
  }

  lemma MirrorIsShelved(geo: Geometry, v: Snapshot, slot: nat, clusters: seq<nat>, name: seq<byte>, bytes: seq<byte>)
    requires Mirrors(geo, v, slot, clusters, name, bytes)
    ensures Shelved(geo, v, name, bytes)
  {
  }

  lemma ShelvedIsMirror(geo: Geometry, v: Snapshot, slot: nat, clusters: seq<nat>, name: seq<byte>, bytes: seq<byte>)
    requires Shelved(geo, v, name, bytes) && slot == Find(v.entries, name) && HandleOk(v, slot, clusters)
    ensures Mirrors(geo, v, slot, clusters, name, bytes)
  {
  }

  lemma LiveIsFound(d: Disk, geo: Geometry, readOnly: bool, v: Snapshot, name: seq<byte>)
    requires Counts(d, geo, readOnly, v) && Known(d)
    ensures Find(v.entries, name) < |v.entries| <==> name in d.files || name in d.closed
  {
    assert Listed(d.live, v, name);
    assert name in d.live.Keys <==> name in d.files.Keys + d.closed.Keys;
  }

  method Write(v: Volume, handles: map<seq<byte>, File>, name: seq<byte>, p: seq<byte>, ghost d: Disk)
    returns (a: Answer)
    requires InStep(v, handles, d)
    modifies v, v.fat, handles.Values
    ensures InStep(v, handles, d.After(WriteTo(name, p))) && a == d.Respond(WriteTo(name, p))
    ensures Balance(v.Table(), v.chains) == old(Balance(v.Table(), v.chains))
  {
    hide Links, Consistent, Balance, Find, FreeCount, Needed, Overwritten, Counts, Follows, DistinctNames, Covers;
    CountsBasics(d, v.geo, v.readOnly, v.Now());
    if name !in handles || handles[name].pos + |p| >= TWO_32 {
      assert name in handles ==> Follows(v, handles[name], name, d.files[name]);
      PositionKnown(v, handles, d.files, name);
      return Refused;
    }
    PositionKnown(v, handles, d.files, name);
    ghost var before, s := v.Now(), handles[name].slot;
    var st := WriteHere(v, handles, name, p, d.files);
    if st == ReadOnlyVolume {
      assert d.files[name := d.files[name]] == d.files;
      return Refused;
    }
    assert d.files[name := d.files[name]] == d.files;
    WrittenCounts(d, v.geo, before, v.Now(), s, name, p, st);
    ShelvedKept(v.geo, before, v.Now(), s, name, d.closed);
    assert d.closed - {name} == d.closed;
    a := if st == Ok then Done else Refused;
  }

  lemma PositionKnown(v: Volume, handles: map<seq<byte>, File>, m: map<seq<byte>, Flat>, name: seq<byte>)
    requires AllFollow(v, handles, m)
    ensures name in handles ==> name in m && handles[name].pos == m[name].pos
  {
    assert name in handles ==> Follows(v, handles[name], name, m[name]);
  }

  /** The write to all handles: one flat file changes. */
  method WriteHere(v: Volume, handles: map<seq<byte>, File>, name: seq<byte>, p: seq<byte>,
                   ghost m: map<seq<byte>, Flat>)
    returns (st: Status)
    requires AllFollow(v, handles, m) && name in handles && m[name].pos + |p| < TWO_32 && v.geo.BytesPerCluster() > 0
    modifies v, v.fat, handles.Values
    ensures name in m && AllFollow(v, handles, m[name := Written(m[name], p, st)])
    ensures Wrote(v.geo, old(v.Now()), v.Now(), handles[name].slot, name, p, m[name].pos, v.readOnly, st)
  {
    hide Covers, Links, Consistent, Mirrors, Wrote, Written, Find;
    ghost var before := v.Now();
    assert forall x :: x in handles ==> Follows(v, handles[x], x, m[x]);
    forall x | x in handles && x != name ensures handles[x] != handles[name] {
      HandlesDiffer(v, handles, m, name, x);
    }
    var f := handles[name];
    st := WriteOne(v, f, name, p, m[name]);
    WroteParts(v.geo, before, v.Now(), f.slot, name, p, m[name].pos, v.readOnly, st);
    OthersFollow(v, handles, m, before, f.slot, name);
  }

  ghost function Written(f: Flat, p: seq<byte>, st: Status): Flat {
    if st == Ok && p != [] then Flat(Overwritten(f.bytes, f.pos, p), f.pos + |p|) else f
  }

  /** Everything the counts depend on: when the write goes through, and how long the chain is then. */
  ghost predicate Wrote(geo: Geometry, a: Snapshot, b: Snapshot, s: nat, name: seq<byte>, p: seq<byte>, pos: nat,
                        readOnly: bool, st: Status)
  {
    && geo.BytesPerCluster() > 0 && Touches(geo, a, b, s)
    && Find(a.entries, name) == s < |a.entries| && b.entries[s].IsFile() && b.entries[s].name == name
    && DistinctNames(b.entries) && |a.chains| == |b.chains| == |a.entries| + 1
    && var need := Needed(pos + |p|, geo.BytesPerCluster());
      && st == (if readOnly then ReadOnlyVolume
                else if p != [] && need > |a.chains[s]| + FreeCount(a.table, |a.table|) then NoSpace else Ok)
      && |b.chains[s]| == (if p == [] || readOnly then |a.chains[s]|
                           else if st == Ok then Larger(|a.chains[s]|, need)
                             else |a.chains[s]| + FreeCount(a.table, |a.table|))
      && (readOnly ==> b == a)
  }

  lemma WroteParts(geo: Geometry, a: Snapshot, b: Snapshot, s: nat, name: seq<byte>, p: seq<byte>, pos: nat,
                   readOnly: bool, st: Status)
    requires Wrote(geo, a, b, s, name, p, pos, readOnly, st)
    ensures Touches(geo, a, b, s) && s < |a.entries| && s < |b.entries| && a.entries[s].name == name
    ensures b.entries[s].name == name
    ensures DistinctNames(b.entries)
  {
  }

  /** The write to its own handle. */
  method WriteOne(v: Volume, f: File, name: seq<byte>, p: seq<byte>, ghost flat: Flat) returns (st: Status)
    requires v.Valid() && DistinctNames(v.entries) && Follows(v, f, name, flat)
    requires flat.pos + |p| < TWO_32 && v.geo.BytesPerCluster() > 0
    modifies v, v.fat, f
    ensures v.Valid() && Follows(v, f, name, Written(flat, p, st))
    ensures Wrote(v.geo, old(v.Now()), v.Now(), f.slot, name, p, flat.pos, v.readOnly, st)
  {
    hide Covers, Links, Complete, Owns, Consistent, Balance, Stored, Mirrors, Find, FreeCount, Needed, Overwritten,
         Clean, GapIsZero, Wrote, Laid, Padded, DistinctNames, Touches, NewSize;
    ghost var before, held := v.Now(), f.clusters;
    MirrorParts(v.geo, before, f.slot, f.clusters, name, flat.bytes);
    CleanGap(Stored(v.geo, before, f.slot), before.entries[f.slot].size, f.pos);
    var n;
    n, st := f.Write(p);
    WroteWhen(v.geo, before, v.Now(), f.slot, held, f.clusters, name, p, flat.pos, v.readOnly, st);
    MirrorWritten(v.geo, before, v.Now(), f.slot, f.clusters, name, Written(flat, p, st).bytes);
  }

  lemma WroteWhen(geo: Geometry, a: Snapshot, b: Snapshot, s: nat, held: seq<nat>, holds: seq<nat>, name: seq<byte>,
                  p: seq<byte>, pos: nat, readOnly: bool, st: Status)
    requires geo.BytesPerCluster() > 0 && Touches(geo, a, b, s) && DistinctNames(a.entries)
    requires HandleOk(a, s, held) && HandleOk(b, s, holds) && Find(a.entries, name) == s < |a.entries|
    requires b.entries[s].name == a.entries[s].name
    requires st == if readOnly then ReadOnlyVolume
                   else if p == [] then Ok
                   else if Needed(pos + |p|, geo.BytesPerCluster()) <= |held| + FreeCount(a.table, |a.table|) then Ok
                   else NoSpace
    requires p == [] || st == ReadOnlyVolume ==> b == a
    requires st == Ok && p != [] ==> |holds| == Larger(|held|, Needed(pos + |p|, geo.BytesPerCluster()))
    requires st == NoSpace ==> |holds| == |held| + FreeCount(a.table, |a.table|)
    ensures Wrote(geo, a, b, s, name, p, pos, readOnly, st)
  {
    hide FreeCount, Needed, Find, Stored, Balance;
    ChainFacts(geo, a, s);
    ChainFacts(geo, b, s);
  }

  lemma MirrorParts(geo: Geometry, v: Snapshot, slot: nat, clusters: seq<nat>, name: seq<byte>, bytes: seq<byte>)
    requires Mirrors(geo, v, slot, clusters, name, bytes)
    ensures HandleOk(v, slot, clusters) && Find(v.entries, name) == slot && v.entries[slot].name == name
    ensures Clean(Stored(geo, v, slot), v.entries[slot].size) && v.entries[slot].size <= |Stored(geo, v, slot)|
    ensures Shown(Stored(geo, v, slot), v.entries[slot].size) == bytes
  {
  }

  lemma MirrorWritten(geo: Geometry, a: Snapshot, b: Snapshot, slot: nat, clusters: seq<nat>, name: seq<byte>,
                      bytes: seq<byte>)
    requires Touches(geo, a, b, slot) && slot < |a.entries| && Find(a.entries, name) == slot
    requires HandleOk(b, slot, clusters)
    requires b.entries[slot].name == name && Clean(Stored(geo, b, slot), b.entries[slot].size)
    requires Shown(Stored(geo, b, slot), b.entries[slot].size) == bytes
    ensures Mirrors(geo, b, slot, clusters, name, bytes)
  {
    FindIs(b.entries, name, slot);
  }

  method Seek(v: Volume, handles: map<seq<byte>, File>, name: seq<byte>, pos: nat, ghost d: Disk)
    returns (a: Answer)
    requires InStep(v, handles, d)
    modifies handles.Values
    ensures InStep(v, handles, d.After(SeekTo(name, pos))) && a == d.Respond(SeekTo(name, pos))
  {
    hide AllFollow, Counts;
    CountsBasics(d, v.geo, v.readOnly, v.Now());
    if name !in handles {
      return Refused;
    }
    MoveTo(v, handles, name, pos, d.files);
    SameCounts(d, d.After(SeekTo(name, pos)), v.geo, v.readOnly, v.Now());
    a := Done;
  }

  method MoveTo(v: Volume, handles: map<seq<byte>, File>, name: seq<byte>, pos: nat, ghost m: map<seq<byte>, Flat>)
    requires AllFollow(v, handles, m) && name in handles
    modifies handles.Values
    ensures AllFollow(v, handles, m[name := Flat(m[name].bytes, pos)])
  {
    hide Covers, Mirrors, Stored;
    assert forall x :: x in handles ==> Follows(v, handles[x], x, m[x]);
    forall x | x in handles && x != name ensures handles[x] != handles[name] {
      HandlesDiffer(v, handles, m, name, x);
    }
    MirrorParts(v.geo, v.Now(), handles[name].slot, handles[name].clusters, name, m[name].bytes);
    var st := handles[name].Seek(pos, Start);
  }

  method Read(v: Volume, handles: map<seq<byte>, File>, name: seq<byte>, n: nat, ghost d: Disk)
    returns (a: Answer)
    requires InStep(v, handles, d)
    modifies handles.Values
    ensures InStep(v, handles, d.After(ReadFrom(name, n))) && a == d.Respond(ReadFrom(name, n))
  {
    hide AllFollow, Counts, Window;
    CountsBasics(d, v.geo, v.readOnly, v.Now());
    if name !in handles {
      return Refused;
    }
    var data := ReadHere(v, handles, name, n, d.files);
    SameCounts(d, d.After(ReadFrom(name, n)), v.geo, v.readOnly, v.Now());
    a := Got(data);
  }

  method ReadHere(v: Volume, handles: map<seq<byte>, File>, name: seq<byte>, n: nat, ghost m: map<seq<byte>, Flat>)
    returns (data: seq<byte>)
    requires AllFollow(v, handles, m) && name in handles
    modifies handles.Values
    ensures name in m && data == Window(m[name].bytes, m[name].pos, n)
    ensures AllFollow(v, handles, m[name := Flat(m[name].bytes, m[name].pos + |data|)])
  {
    hide Covers, Mirrors, Stored, Window;
    assert forall x :: x in handles ==> Follows(v, handles[x], x, m[x]);
    forall x | x in handles && x != name ensures handles[x] != handles[name] {
      HandlesDiffer(v, handles, m, name, x);
    }
    MirrorParts(v.geo, v.Now(), handles[name].slot, handles[name].clusters, name, m[name].bytes);
    var eof;
    data, eof := handles[name].Read(n);
  }

  /** Removing a file by name, open or not; a handle on it is given up. */
  method Delete(v: Volume, handles: map<seq<byte>, File>, name: seq<byte>, ghost d: Disk)
    returns (a: Answer, now: map<seq<byte>, File>)
    requires InStep(v, handles, d)
    modifies v, v.fat
    ensures InStep(v, now, d.After(RemoveFile(name))) && a == d.Respond(RemoveFile(name))
    ensures SameOrNew(handles, now, null)
    ensures Balance(v.Table(), v.chains) == old(Balance(v.Table(), v.chains))
  {
    hide Covers, Links, Complete, Owns, Consistent, Balance, Stored, Mirrors, Counts, Shelved, Find;
    ghost var before, m := v.Now(), d.files;
    assert forall x :: x in handles ==> Follows(v, handles[x], x, m[x]);
    var st := Remove(v, name);
    CountsBasics(d, v.geo, v.readOnly, before);
    NotRemoved(d, v.geo, v.readOnly, before, name);
    if st != Ok {
      return Refused, handles;
    }
    RemovedCounts(d, v.geo, before, v.Now(), name);
    OthersFollow(v, handles, m, before, Find(before.entries, name), name);
    ShelvedKept(v.geo, before, v.Now(), Find(before.entries, name), name, d.closed);
    now := handles - {name};
    a := Done;
  }

  /** No file has stale bytes behind its end, and each has clusters for its size. */
  ghost predicate Tidy(geo: Geometry, v: Snapshot)
    requires Consistent(geo, v) && |v.entries| <= |v.chains|
  {
    forall s :: 0 <= s < |v.entries| && v.entries[s].IsFile() ==> Clean(Stored(geo, v, s), v.entries[s].size)
  }

  ghost predicate TidyVolume(v: Volume)
    requires v.Valid()
    reads v, v.fat
  {
    ChainFacts(v.geo, v.Now(), |v.entries|);
    Tidy(v.geo, v.Now())
  }

  /** The bytes of the files, if the volume is tidy. */
  ghost function Shelf(geo: Geometry, v: Snapshot): map<seq<byte>, seq<byte>>
    requires Consistent(geo, v) && |v.chains| == |v.entries| + 1
  {
    if Tidy(geo, v) then
      map x | x in Directory(v) :: Shown(Stored(geo, v, Find(v.entries, x)), v.entries[Find(v.entries, x)].size)
    else map[]
  }

  /** What the user sees of a volume nobody has opened a file on. */
  ghost function Seen(v: Volume): Disk
    requires v.Valid()
    reads v, v.fat
  {
    ChainFacts(v.geo, v.Now(), |v.entries|);
    Disk(map[], Shelf(v.geo, v.Now()), Directory(v.Now()), FreeSlots(v.entries), FreeCount(v.Table(), |v.Table()|),
      v.geo.BytesPerCluster(),
      v.readOnly)
  }

  lemma ReplayNothing(start: Disk)
    requires start.clusterSize > 0
    ensures Replay(start, []) == start
  {
  }

  lemma ReplayOn(start: Disk, ops: seq<Op>, n: nat)
    requires start.clusterSize > 0 && n < |ops|
    ensures Replay(start, ops[..n + 1]) == Replay(start, ops[..n]).After(ops[n])
  {
    assert ops[..n + 1][..n] == ops[..n];
  }

  lemma Starts(v: Volume)
    requires v.Valid() && DistinctNames(v.entries)
    ensures InStep(v, map[], Seen(v)) && Seen(v).clusterSize > 0
    ensures TidyVolume(v) ==> Known(Seen(v))
  {
    ClusterIsNotEmpty(v.geo);
    ChainFacts(v.geo, v.Now(), |v.entries|);
    ShelfFacts(v.geo, v.Now());
  }

  lemma ShelfFacts(geo: Geometry, v: Snapshot)
    requires Consistent(geo, v) && |v.chains| == |v.entries| + 1
    ensures AllShelved(geo, v, Shelf(geo, v))
  {
    hide Stored, Clean, Shown;
    var shelf := Shelf(geo, v);
    forall x | x in shelf ensures Shelved(geo, v, x, shelf[x]) {
      assert Listed(Directory(v), v, x);
    }
  }

  /** Runs a script. Every answer, and the bytes every open file shows at the end, are those the
      user's view determines; what an operation may be refused for is part of it. Files that were there
      before are opened only on a tidy volume. */
  method Run(v: Volume, ops: seq<Op>) returns (answers: seq<Answer>, handles: map<seq<byte>, File>)
    requires v.Valid() && DistinctNames(v.entries)
    requires TidyVolume(v) || forall i :: 0 <= i < |ops| ==> !ops[i].OpenFile?
    modifies v, v.fat
    ensures old(Seen(v)).clusterSize > 0 && |answers| == |ops|
    ensures InStep(v, handles, Replay(old(Seen(v)), ops))
    ensures forall i :: 0 <= i < |ops| ==> answers[i] == Replay(old(Seen(v)), ops[..i]).Respond(ops[i])
    ensures Balance(v.Table(), v.chains) == old(Balance(v.Table(), v.chains))
  {
    hide Covers, Links, Consistent, Balance, AllFollow, Counts, Seen, Disk.After, Disk.Respond, Replay, TidyVolume,
         Known;
    answers, handles := [], map[];
    ghost var start := Seen(v);
    Starts(v);
    ghost var d, tidy := start, TidyVolume(v);
    ReplayNothing(start);
    while |answers| < |ops|
      invariant |answers| <= |ops|
      invariant d.clusterSize > 0 && d == Replay(start, ops[..|answers|]) && InStep(v, handles, d)
      invariant forall x :: x in handles ==> fresh(handles[x])
      invariant tidy ==> Known(d)
      invariant forall i :: 0 <= i < |answers| ==> answers[i] == Replay(start, ops[..i]).Respond(ops[i])
      invariant Balance(v.Table(), v.chains) == old(Balance(v.Table(), v.chains))
    {
      var op := ops[|answers|];
      var a;
      a, handles := Perform(v, handles, op, d);
      ReplayOn(start, ops, |answers|);
      if tidy {
        KnownKept(d, op);
      }
      d := d.After(op);
      answers := answers + [a];
    }
    assert ops[..|answers|] == ops;
  }

  method Perform(v: Volume, handles: map<seq<byte>, File>, op: Op, ghost d: Disk)
    returns (a: Answer, now: map<seq<byte>, File>)
    requires InStep(v, handles, d) && (op.OpenFile? ==> Known(d))
    modifies v, v.fat, handles.Values
    ensures InStep(v, now, d.After(op)) && a == d.Respond(op)
    ensures forall x :: x in now ==> (x in handles && now[x] == handles[x]) || fresh(now[x])
    ensures Balance(v.Table(), v.chains) == old(Balance(v.Table(), v.chains))
  {
    hide AllFollow, Disk.After, Disk.Respond, Balance, Covers, Lists;
    ghost var f;
    now := handles;
    match op {
      case MakeFile(name) => a, now, f := Make(v, handles, name, d);
      case OpenFile(name) => a, now, f := Access(v, handles, name, d);
      case SeekTo(name, pos) => a := Seek(v, handles, name, pos, d);
      case WriteTo(name, p) => a := Write(v, handles, name, p, d);
      case ReadFrom(name, n) => a := Read(v, handles, name, n, d);
      case RemoveFile(name) => a, now := Delete(v, handles, name, d);
    }
  }
}
