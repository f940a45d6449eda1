/** The byte form of an NDX page: a count, then key records of one size, the key padded to a
    multiple of four. */
module NdxPage {
  import opened Entries
  import opened Bytes
  import opened NdxTree

  const PAGE := 512

  function RecordSize(keySize: nat): (r: nat)
    ensures keySize + 8 <= r
  {
    8 + (keySize + 3) / 4 * 4
  }

  /** How many records of one size follow the count. */
  function Capacity(size: nat): nat
    requires size > 0
  {
    (PAGE - 4) / size
  }

  function PerPage(keySize: nat): nat { Capacity(RecordSize(keySize)) }

  /** Where record i starts. */
  function Place(keySize: nat, i: nat): nat { 4 + i * RecordSize(keySize) }

  lemma PlacesApart(keySize: nat, i: nat, j: nat)
    requires i < j <= PerPage(keySize)
    ensures Place(keySize, i) + RecordSize(keySize) <= Place(keySize, j) <= PAGE
  {
    hide RecordSize;
    MulMonotone(i + 1, j, RecordSize(keySize));
    AtMostQuotient(j, RecordSize(keySize), PAGE - 4);
  }

  /** Keys of up to 244 bytes leave room for the two records a tree needs. */
  lemma RoomForTwo(keySize: nat)
    ensures PerPage(keySize) >= 2 <==> keySize <= 244
  {
    AtMostQuotient(2, RecordSize(keySize), PAGE - 4);
  }

  /** As many bytes as a key has; a longer one is cut, a shorter one ends in zeros. */
  function Fitted(key: seq<byte>, keySize: nat): (r: seq<byte>)
    ensures |r| == keySize && forall i :: 0 <= i < keySize ==> r[i] == if i < |key| then key[i] else 0
  {
    if |key| >= keySize then key[..keySize] else key + Zeros(keySize - |key|)
  }

  function Cell(x: KeyRecord, keySize: nat): (r: seq<byte>)
    ensures |r| == RecordSize(keySize)
  {
    LeBytes(x.lower, 4) + LeBytes(x.recno, 4) + Fitted(x.key, keySize) + Zeros(RecordSize(keySize) - 8 - keySize)
  }

  function Cells(rs: seq<KeyRecord>, keySize: nat): (r: seq<byte>)
    ensures |r| == |rs| * RecordSize(keySize)
  {
    if rs == [] then [] else Cells(rs[..|rs| - 1], keySize) + Cell(rs[|rs| - 1], keySize)
  }

  function RecordOf(b: seq<byte>, keySize: nat): KeyRecord
    requires |b| == RecordSize(keySize)
  {
    KeyRecord(Le(b[0..4]), Le(b[4..8]), b[8..8 + keySize])
  }

  /** raw is an image of these records. */
  ghost predicate PageHolds(raw: seq<byte>, keySize: nat, rs: seq<KeyRecord>) {
    && |raw| == PAGE && Le(raw[0..4]) == |rs| <= PerPage(keySize)
    && forall i :: 0 <= i < |rs| ==> RecordAt(raw, keySize, i) == rs[i]
  }

  function RecordAt(raw: seq<byte>, keySize: nat, i: nat): KeyRecord
    requires |raw| == PAGE && i < PerPage(keySize)
  {
    PlacesApart(keySize, i, PerPage(keySize));
    RecordOf(raw[Place(keySize, i)..Place(keySize, i) + RecordSize(keySize)], keySize)
  }

  /** A page holds records if and only if bytes 0 to 3 count them, low byte first, and record i is found at
      4 + i * size: a page number and a record number of four bytes each and the key, where a record takes the
      next multiple of four bytes. */
  lemma HoldsMeans(raw: seq<byte>, keySize: nat, rs: seq<KeyRecord>)
    requires |raw| == 512
    ensures PageHolds(raw, keySize, rs) <==>
      && |rs| == raw[0] + 0x100 * (raw[1] as int) + 0x1_0000 * (raw[2] as int) + 0x100_0000 * (raw[3] as int)
      && |rs| <= PerPage(keySize) && forall i :: 0 <= i < |rs| ==> RecordAt(raw, keySize, i) == rs[i]
  {
    hide Le, RecordAt;
    LeFour(raw[0..4]);
  }

  lemma RecordPlace(raw: seq<byte>, keySize: nat, i: nat, size: nat, at: nat)
    requires |raw| == 512 && i < PerPage(keySize)
    requires size % 4 == 0 && keySize + 8 <= size < keySize + 12 && at == 4 + i * size
    ensures at + size <= 512 && size == RecordSize(keySize)
    ensures RecordAt(raw, keySize, i) == RecordOf(raw[at..at + size], keySize)
  {
    SizeIs(keySize, size);
    PlacesApart(keySize, i, PerPage(keySize));
    hide RecordOf;
    assert Place(keySize, i) == at;
  }

  lemma RecordMeans(b: seq<byte>, keySize: nat)
    requires |b| == RecordSize(keySize)
    ensures var r := RecordOf(b, keySize);
      && r.lower == b[0] + 0x100 * (b[1] as int) + 0x1_0000 * (b[2] as int) + 0x100_0000 * (b[3] as int)
      && r.recno == b[4] + 0x100 * (b[5] as int) + 0x1_0000 * (b[6] as int) + 0x100_0000 * (b[7] as int)
      && r.key == b[8..8 + keySize]
  {
    hide Le;
    LeFour(b[0..4]);
    LeFour(b[4..8]);
  }

  lemma SizeIs(keySize: nat, size: nat)
    requires size % 4 == 0 && keySize + 8 <= size < keySize + 12
    ensures RecordSize(keySize) == size
  {
  }

  /** As many records fit a page as its 508 bytes behind the count have room for. */
  lemma PerPageMeans(keySize: nat, size: nat, n: nat)
    requires size % 4 == 0 && keySize + 8 <= size < keySize + 12
    ensures n <= PerPage(keySize) <==> 4 + n * size <= 512
  {
    SizeIs(keySize, size);
    AtMostQuotient(n, size, 508);
  }

  /** What remains of a record in storage. */
  function Kept(x: KeyRecord, keySize: nat): KeyRecord {
    KeyRecord(x.lower % TWO_32, x.recno % TWO_32, Fitted(x.key, keySize))
  }

  function AllKept(rs: seq<KeyRecord>, keySize: nat): (r: seq<KeyRecord>)
    ensures |r| == |rs| && forall i :: 0 <= i < |rs| ==> r[i] == Kept(rs[i], keySize)
  {
    seq(|rs|, i requires 0 <= i < |rs| => Kept(rs[i], keySize))
  }

  predicate Storable(rs: seq<KeyRecord>, keySize: nat) {
    forall i :: 0 <= i < |rs| ==> rs[i].lower < TWO_32 && rs[i].recno < TWO_32 && |rs[i].key| == keySize
  }

  lemma KeptIsSame(rs: seq<KeyRecord>, keySize: nat)
    ensures AllKept(rs, keySize) == rs <==> Storable(rs, keySize)
  {
    if AllKept(rs, keySize) == rs {
      forall i | 0 <= i < |rs| ensures rs[i].lower < TWO_32 && rs[i].recno < TWO_32 && |rs[i].key| == keySize {
        assert rs[i] == Kept(rs[i], keySize);
      }
    }
    if Storable(rs, keySize) {
      assert forall i :: 0 <= i < |rs| ==> rs[i] == Kept(rs[i], keySize);
    }
  }

  lemma CellRoundTrip(x: KeyRecord, keySize: nat)
    ensures RecordOf(Cell(x, keySize), keySize) == Kept(x, keySize)
  {
    hide Le, LeBytes, RecordSize;
    var b := Cell(x, keySize);
    assert b[0..4] == LeBytes(x.lower, 4) && b[4..8] == LeBytes(x.recno, 4)
      && b[8..8 + keySize] == Fitted(x.key, keySize);
    Le4(x.lower);
    Le4(x.recno);
  }

  lemma {:induction false} CellAt(rs: seq<KeyRecord>, keySize: nat, i: nat)
    requires i < |rs|
    ensures 0 <= i * RecordSize(keySize) <= i * RecordSize(keySize) + RecordSize(keySize) <= |Cells(rs, keySize)|
    ensures Cells(rs, keySize)[i * RecordSize(keySize)..i * RecordSize(keySize) + RecordSize(keySize)]
      == Cell(rs[i], keySize)
  {
    hide Cell, RecordSize;
    MulMonotone(i + 1, |rs|, RecordSize(keySize));
    if i < |rs| - 1 {
      CellAt(rs[..|rs| - 1], keySize, i);
    }
  }

  /** The page while the first i records are in it. */
  ghost predicate Filled(raw: seq<byte>, keySize: nat, rs: seq<KeyRecord>, i: nat)
    requires i <= |rs| <= PerPage(keySize)
  {
    Place(keySize, i) <= PAGE && raw == LeBytes(|rs|, 4) + Cells(rs[..i], keySize) + Zeros(PAGE - Place(keySize, i))
  }

  lemma OnZeros(a: seq<byte>, m: nat, b: seq<byte>, raw: seq<byte>)
    requires |b| <= m && raw == a + Zeros(m)
    ensures Splice(raw, |a|, b) == a + b + Zeros(m - |b|)
  {
  }

  lemma FilledIsPage(raw: seq<byte>, keySize: nat, rs: seq<KeyRecord>)
    requires |rs| <= PerPage(keySize) && Filled(raw, keySize, rs, |rs|)
    ensures PageHolds(raw, keySize, AllKept(rs, keySize))
  {
    hide Le, LeBytes, RecordSize, Cell, Cells, RecordOf;
    assert rs[..|rs|] == rs;
    assert raw[0..4] == LeBytes(|rs|, 4);
    CountFits(keySize, |rs|);
    Le4(|rs|);
    forall i | 0 <= i < |rs| ensures RecordAt(raw, keySize, i) == Kept(rs[i], keySize) {
      CellAt(rs, keySize, i);
      PlacesApart(keySize, i, PerPage(keySize));
      var at, n := i * RecordSize(keySize), RecordSize(keySize);
      assert raw[4 + at..4 + at + n] == Cells(rs, keySize)[at..at + n];
      CellRoundTrip(rs[i], keySize);
    }
  }

  lemma CountFits(keySize: nat, n: nat)
    requires n <= PerPage(keySize)
    ensures n < TWO_32
  {
    MulMonotone(8, RecordSize(keySize), n);
    PlaceOfLast(keySize, n);
  }

  lemma PlaceOfLast(keySize: nat, n: nat)
    requires n <= PerPage(keySize)
    ensures n * RecordSize(keySize) <= PAGE - 4
  {
    hide RecordSize;
    AtMostQuotient(n, RecordSize(keySize), PAGE - 4);
  }

  /** One record onto a page whose rest is still zero. */
  method PutRecord(buf: array<byte>, keySize: nat, rs: seq<KeyRecord>, i: nat)
    requires i < |rs| <= PerPage(keySize) && buf.Length == PAGE && Filled(buf[..], keySize, rs, i)
    modifies buf
    ensures Filled(buf[..], keySize, rs, i + 1)
  {
    hide LeBytes, RecordSize, Cells;
    ghost var before := buf[..];
    PlacesApart(keySize, i, |rs|);
    PlacesApart(keySize, i, i + 1);
    var p, x := Place(keySize, i), rs[i];
    var key := if |x.key| >= keySize then x.key[..keySize] else x.key;
    Put(buf, p, LeBytes(x.lower, 4));
    Put(buf, p + 4, LeBytes(x.recno, 4));
    SpliceTwice(before, p, LeBytes(x.lower, 4), LeBytes(x.recno, 4));
    Put(buf, p + 8, key);
    ghost var numbers := LeBytes(x.lower, 4) + LeBytes(x.recno, 4);
    SpliceTwice(before, p, numbers, key);
    RecordFills(before, keySize, rs, i, numbers, key);
  }

  lemma RecordFills(raw: seq<byte>, keySize: nat, rs: seq<KeyRecord>, i: nat, numbers: seq<byte>, key: seq<byte>)
    requires i < |rs| <= PerPage(keySize) && Filled(raw, keySize, rs, i)
    requires numbers == LeBytes(rs[i].lower, 4) + LeBytes(rs[i].recno, 4)
    requires key == if |rs[i].key| >= keySize then rs[i].key[..keySize] else rs[i].key
    requires Place(keySize, i) + RecordSize(keySize) <= Place(keySize, i + 1) <= PAGE
    ensures Filled(Splice(raw, Place(keySize, i), numbers + key), keySize, rs, i + 1)
  {
    hide LeBytes, RecordSize, Cells, Cell;
    var head, done, size := LeBytes(|rs|, 4), Cells(rs[..i], keySize), RecordSize(keySize);
    var m, gap := PAGE - Place(keySize, i), size - 8 - |key|;
    NextPlace(keySize, i);
    OnZeros(head + done, m, numbers + key, raw);
    CellIs(rs[i], keySize, numbers, key);
    OneMoreCell(rs, keySize, i);
    Regroup(head, done, numbers + key, gap, m - 8 - |key|);
  }

  lemma NextPlace(keySize: nat, i: nat)
    ensures Place(keySize, i + 1) == Place(keySize, i) + RecordSize(keySize)
  {
    hide RecordSize;
    assert (i + 1) * RecordSize(keySize) == i * RecordSize(keySize) + RecordSize(keySize);
  }

  lemma CellIs(x: KeyRecord, keySize: nat, numbers: seq<byte>, key: seq<byte>)
    requires numbers == LeBytes(x.lower, 4) + LeBytes(x.recno, 4)
    requires key == if |x.key| >= keySize then x.key[..keySize] else x.key
    ensures |numbers| == 8 && |key| <= keySize
    ensures Cell(x, keySize) == numbers + key + Zeros(RecordSize(keySize) - 8 - |key|)
  {
    hide LeBytes, RecordSize;
  }

  lemma OneMoreCell(rs: seq<KeyRecord>, keySize: nat, i: nat)
    requires i < |rs|
    ensures Cells(rs[..i + 1], keySize) == Cells(rs[..i], keySize) + Cell(rs[i], keySize)
  {
    assert rs[..i + 1][..i] == rs[..i];
  }

  lemma Regroup(head: seq<byte>, done: seq<byte>, b: seq<byte>, gap: nat, m: nat)
    requires gap <= m
    ensures head + done + b + Zeros(m) == head + (done + (b + Zeros(gap))) + Zeros(m - gap)
  {
    assert Zeros(m) == Zeros(gap) + Zeros(m - gap);
  }

  method WritePage(rs: seq<KeyRecord>, keySize: nat) returns (ok: bool, buf: array<byte>)
    ensures fresh(buf)
    ensures ok <==> |rs| <= PerPage(keySize)
    ensures ok ==> PageHolds(buf[..], keySize, AllKept(rs, keySize))
  {
    hide LeBytes, RecordSize, Cells;
    buf := new byte[PAGE](_ => 0);
    if |rs| > PerPage(keySize) {
      return false, buf;
    }
    assert buf[..] == Zeros(PAGE);
    Put(buf, 0, LeBytes(|rs|, 4));
    OnZeros([], PAGE, LeBytes(|rs|, 4), Zeros(PAGE));
    assert Cells(rs[..0], keySize) == [];
    var i := 0;
    while i < |rs|
      invariant i <= |rs| && Filled(buf[..], keySize, rs, i)
    {
      PutRecord(buf, keySize, rs, i);
      i := i + 1;
    }
    FilledIsPage(buf[..], keySize, rs);
    ok := true;
  }

  /** Page 0 is the header; a count beyond the capacity is an error. */
  method ReadPage(number: nat, raw: seq<byte>, keySize: nat) returns (r: Option<seq<KeyRecord>>)
    requires |raw| == PAGE
    ensures r.Some? ==> number != 0 && PageHolds(raw, keySize, r.value)
    ensures r.None? ==> number == 0 || forall rs :: !PageHolds(raw, keySize, rs)
  {
    hide Le, RecordOf;
    if number == 0 {
      return None;
    }
    var count := Le(raw[0..4]);
    if count > PerPage(keySize) {
      return None;
    }
    var out: seq<KeyRecord> := [];
    while |out| < count
      invariant |out| <= count && forall i :: 0 <= i < |out| ==> out[i] == RecordAt(raw, keySize, i)
    {
      out := out + [RecordAt(raw, keySize, |out|)];
    }
    r := Some(out);
  }

  lemma DecodingIsUnique(raw: seq<byte>, keySize: nat, rs: seq<KeyRecord>, rs2: seq<KeyRecord>)
    requires PageHolds(raw, keySize, rs) && PageHolds(raw, keySize, rs2)
    ensures rs == rs2
  {
  }

  /** Reading back gives the same records exactly when their numbers and keys fit. */
  method RoundTrip(number: nat, rs: seq<KeyRecord>, keySize: nat) returns (r: Option<seq<KeyRecord>>)
    requires number != 0 && |rs| <= PerPage(keySize)
    ensures r.Some? && (r.value == rs <==> Storable(rs, keySize))
  {
    var ok, buf := WritePage(rs, keySize);
    r := ReadPage(number, buf[..], keySize);
    KeptIsSame(rs, keySize);
    if r.Some? {
      DecodingIsUnique(buf[..], keySize, r.value, AllKept(rs, keySize));
    }
  }
}
