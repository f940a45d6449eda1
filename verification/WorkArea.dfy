/** A work area: a table, its attached NTX indexes, a controlling order and a record pointer. */
module WorkArea {
  import opened Entries
  import opened TableFile
  import opened KeyedRows
  import opened NtxIndex
  import opened NtxMiss
  import NtxQuery
  import NtxCursor
  import opened PackEntries

  /** An open index with the key function it was built with. */
  datatype Attached = Attached(index: Index, keyFn: KeyFn)

  /** An index in the regime where every operation on it succeeds. */
  ghost predicate Ready(ix: Index)
    reads ix
  {
    ix.Valid() && ix.lay.maxItem >= 3 && !ix.unique && ix.Tight()
  }

  ghost predicate Carries(ix: Index, e: set<Entry>)
    reads ix
  {
    Ready(ix) && Lists(ix.Contents(), e)
  }

  /** The index holds exactly the keys and numbers of these records. */
  ghost predicate InAgreement(a: Attached, rows: seq<Row>)
    reads a.index
  {
    AllFit(a.index, a.keyFn, rows) && Carries(a.index, EntrySet(a.index, a.keyFn, rows))
  }

  /** The same in bytes: one entry for each record, made of what the key function gives for the record
      without its first byte, padded, and of the number of the record. */
  ghost predicate InBytes(ix: Index, fn: KeyFn, rows: seq<Row>)
    requires forall i :: 0 <= i < |rows| ==> rows[i] != []
    reads ix
  {
    && |ix.Contents()| == |rows|
    && forall i :: 0 <= i < |rows| ==>
       |fn(rows[i][1..])| <= ix.lay.keySize && Entry(ix.Pad(fn(rows[i][1..])), i + 1) in ix.Contents()
  }

  lemma Listing(a: Attached, rows: seq<Row>)
    requires InAgreement(a, rows) && forall i :: 0 <= i < |rows| ==> rows[i] != []
    ensures InBytes(a.index, a.keyFn, rows)
    ensures forall i :: 0 <= i < |rows| ==> Entry(a.index.Pad(a.keyFn(rows[i][1..])), i + 1) in a.index.Contents()
  {
    var s, e := a.index.Contents(), EntrySet(a.index, a.keyFn, rows);
    ListingIsPermutation(a.index, a.keyFn, rows, s);
    forall i | 0 <= i < |rows| ensures |a.keyFn(rows[i][1..])| <= a.index.lay.keySize
      && Entry(a.index.Pad(a.keyFn(rows[i][1..])), i + 1) in s
    {
      assert EntryOf(a.index, a.keyFn, rows[i], i + 1) in e;
      ListsMember(s, e, EntryOf(a.index, a.keyFn, rows[i], i + 1));
    }
  }

  lemma AllListings(indexes: seq<Attached>, t: Table)
    requires t.Valid() && forall j :: 0 <= j < |indexes| ==> InAgreement(indexes[j], t.Rows())
    ensures forall j :: 0 <= j < |indexes| ==> InBytes(indexes[j].index, indexes[j].keyFn, t.Rows())
  {
    hide InAgreement, InBytes;
    forall j | 0 <= j < |indexes| ensures InBytes(indexes[j].index, indexes[j].keyFn, t.Rows()) {
      Listing(indexes[j], t.Rows());
    }
  }

  // ---------------------------------------------------------------- single index entries

  method AddEntry(ix: Index, key: seq<byte>, recno: nat, ghost e: set<Entry>) returns (ok: bool)
    requires Carries(ix, e) && Entry(ix.Pad(key), recno) !in e
    modifies ix
    ensures ok <==> |key| <= ix.lay.keySize
    ensures Carries(ix, if ok then e + {Entry(ix.Pad(key), recno)} else e)
  {
    hide Index.Valid, Index.Contents, Index.Tight, Index.Synced, Lists, Inserted;
    ghost var before := ix.Contents();
    var added, st := ix.Insert(key, recno);
    ok := st == Ok;
    if ok {
      ListsInsert(before, e, Entry(ix.Pad(key), recno));
    }
  }

  method DropEntry(ix: Index, key: seq<byte>, recno: nat, ghost e: set<Entry>)
    requires Carries(ix, e) && |key| <= ix.lay.keySize && Entry(ix.Pad(key), recno) in e
    modifies ix
    ensures Carries(ix, e - {Entry(ix.Pad(key), recno)})
  {
    hide Index.Valid, Index.Contents, Index.Tight, Index.Synced, Lists, Removed, Quiet, Index.Now;
    ghost var before := ix.Contents();
    ListsRemove(before, e, Entry(ix.Pad(key), recno));
    var found, st := ix.Delete(key, recno);
  }

  /** The index has the entries of these records but one. */
  ghost predicate LacksOne(a: Attached, rows: seq<Row>, recno: nat)
    reads a.index
  {
    1 <= recno <= |rows| &&
    Carries(a.index, EntrySet(a.index, a.keyFn, rows) - {EntryOf(a.index, a.keyFn, rows[recno - 1], recno)})
  }

  lemma AgreeingIsReady(a: Attached, rows: seq<Row>)
    requires InAgreement(a, rows)
    ensures Ready(a.index)
  {
  }

  lemma LackingIsReady(a: Attached, rows: seq<Row>, recno: nat)
    requires LacksOne(a, rows, recno)
    ensures Ready(a.index)
  {
  }

  /** The first index for which the record's key is too long, if there is one. */
  ghost function FirstMisfit(indexes: seq<Attached>, row: Row, from: nat): (k: nat)
    requires from <= |indexes|
    ensures from <= k <= |indexes|
    ensures k < |indexes| ==> |KeyOf(indexes[k].keyFn, row)| > indexes[k].index.lay.keySize
    ensures forall j :: from <= j < k ==> |KeyOf(indexes[j].keyFn, row)| <= indexes[j].index.lay.keySize
    decreases |indexes| - from
  {
    if from == |indexes| || |KeyOf(indexes[from].keyFn, row)| > indexes[from].index.lay.keySize then from
    else FirstMisfit(indexes, row, from + 1)
  }

  /** One record's entry moved to its new key; equal keys leave the index alone. */
  method UpdateEntry(a: Attached, old_: Row, row: Row, recno: nat, ghost rows: seq<Row>, ghost after: seq<Row>)
    returns (ok: bool)
    requires InAgreement(a, rows) && 1 <= recno <= |rows| && rows[recno - 1] == old_ && after == rows[recno - 1 := row]
    modifies a.index
    ensures ok <==> |KeyOf(a.keyFn, row)| <= a.index.lay.keySize
    ensures if ok then InAgreement(a, after) else LacksOne(a, rows, recno)
  {
    hide Carries, EntrySet, Lists, Index.Valid;
    var oldKey, newKey := KeyOf(a.keyFn, old_), KeyOf(a.keyFn, row);
    ghost var e := EntrySet(a.index, a.keyFn, rows);
    SetReplace(a.index, a.keyFn, rows, recno - 1, row);
    if oldKey == newKey {
      SetSameKeys(a.index, a.keyFn, rows, after);
      CarriesReady(a.index, e);
      return true;
    }
    DropEntry(a.index, oldKey, recno, e);
    ok := AddEntry(a.index, newKey, recno, e - {EntryOf(a.index, a.keyFn, old_, recno)});
    CarriesReady(a.index, if ok then EntrySet(a.index, a.keyFn, after)
                        else e - {EntryOf(a.index, a.keyFn, old_, recno)});
  }

  lemma CarriesReady(ix: Index, e: set<Entry>)
    requires Carries(ix, e)
    ensures Ready(ix)
  {
  }

  /** Indexes a whole table, deleted records included. */
  method Build(ix: Index, table: Table, fn: KeyFn) returns (ok: bool)
    requires table.Valid() && Carries(ix, {})
    modifies ix
    ensures ok <==> AllFit(ix, fn, table.Rows())
    ensures if ok then InAgreement(Attached(ix, fn), table.Rows()) else Ready(ix)
  {
    hide Carries, Lists, Index.Valid;
    ghost var rows := table.Rows();
    var recno := 0;
    NoEntries(ix, fn);
    assert rows[..0] == [];
    while recno < table.recordCount
      invariant recno <= table.recordCount == |rows| && table.Valid() && table.Rows() == rows
      invariant AllFit(ix, fn, rows[..recno]) && Carries(ix, EntrySet(ix, fn, rows[..recno]))
    {
      ghost var e := EntrySet(ix, fn, rows[..recno]);
      recno := recno + 1;
      var row := table.Get(recno);
      SetAppend(ix, fn, rows[..recno - 1], row.value);
      assert rows[..recno] == rows[..recno - 1] + [row.value];
      ok := AddEntry(ix, KeyOf(fn, row.value), recno, e);
      if !ok {
        CarriesReady(ix, e);
        return;
      }
    }
    assert rows[..recno] == rows;
    ok := true;
  }

  /** Two indexes with the same layout in agreement with the same records hold the same sequence. */
  lemma AgreementIsUnique(a: Attached, b: Attached, rows: seq<Row>)
    requires InAgreement(a, rows) && InAgreement(b, rows)
    requires a.index.lay.keySize == b.index.lay.keySize && forall row :: KeyOf(a.keyFn, row) == KeyOf(b.keyFn, row)
    ensures a.index.Contents() == b.index.Contents()
  {
    var ea, eb := EntrySet(a.index, a.keyFn, rows), EntrySet(b.index, b.keyFn, rows);
    assert forall i :: 0 <= i < |rows| ==>
      EntryOf(a.index, a.keyFn, rows[i], i + 1) == EntryOf(b.index, b.keyFn, rows[i], i + 1);
    assert ea == eb;
    ListsUnique(a.index.Contents(), b.index.Contents(), ea);
  }

  // ---------------------------------------------------------------- repair after PACK

  /** Deletes every listed entry; the keys may be shorter than the index's. */
  method DropAll(ix: Index, xs: seq<Entry>, ghost ys: seq<Entry>, ghost e: set<Entry>)
    requires Carries(ix, e) && |ys| == |xs| && SetOf(ys) <= e
    requires forall k :: 0 <= k < |xs| ==>
      |xs[k].key| <= ix.lay.keySize && ys[k] == Entry(ix.Pad(xs[k].key), xs[k].recno)
    requires forall j, k :: 0 <= j < k < |ys| ==> ys[j] != ys[k]
    modifies ix
    ensures Carries(ix, e - SetOf(ys))
  {
    hide Carries;
    var i := 0;
    assert e - SetOf(ys[..0]) == e;
    while i < |xs|
      invariant i <= |xs| && Carries(ix, e - SetOf(ys[..i]))
    {
      assert ys[i] in ys && ys[i] !in ys[..i];
      DropEntry(ix, xs[i].key, xs[i].recno, e - SetOf(ys[..i]));
      assert e - SetOf(ys[..i]) - {ys[i]} == e - SetOf(ys[..i + 1]);
      i := i + 1;
    }
    assert ys[..i] == ys;
  }

  method AddAll(ix: Index, xs: seq<Entry>, ghost ys: seq<Entry>, ghost e: set<Entry>)
    requires Carries(ix, e) && |ys| == |xs| && SetOf(ys) !! e
    requires forall k :: 0 <= k < |xs| ==>
      |xs[k].key| <= ix.lay.keySize && ys[k] == Entry(ix.Pad(xs[k].key), xs[k].recno)
    requires forall j, k :: 0 <= j < k < |ys| ==> ys[j] != ys[k]
    modifies ix
    ensures Carries(ix, e + SetOf(ys))
  {
    hide Carries;
    var i := 0;
    assert e + SetOf(ys[..0]) == e;
    while i < |xs|
      invariant i <= |xs| && Carries(ix, e + SetOf(ys[..i]))
    {
      assert ys[i] in SetOf(ys) && ys[i] !in ys[..i];
      var ok := AddEntry(ix, xs[i].key, xs[i].recno, e + SetOf(ys[..i]));
      assert e + SetOf(ys[..i]) + {ys[i]} == e + SetOf(ys[..i + 1]);
      i := i + 1;
    }
    assert ys[..i] == ys;
  }

  /** The entries whose record is gone, found by walking the index. */
  method ScanStale(ix: Index, m: RecordMapping) returns (stale: seq<Entry>)
    requires ix.Valid()
    ensures stale == Stale(ix.Contents(), m)
  {
    hide Index.Valid, Index.Contents, NtxCursor.Cursor.Valid, NtxCursor.Cursor.Remaining;
    var cur := new NtxCursor.Cursor(ix);
    cur.First();
    stale := [];
    var more := cur.Next();
    ghost var left := ix.Contents();
    while more
      invariant cur.Valid() && cur.err == Ok && cur.ix == ix
      invariant more ==> left != [] && cur.current == left[0] && cur.Remaining() == left[1..]
      invariant !more ==> left == []
      invariant stale + Stale(left, m) == Stale(ix.Contents(), m)
      decreases |left|, more
    {
      if m.Lookup(cur.current.recno).None? {
        stale := stale + [cur.current];
      }
      left := left[1..];
      more := cur.Next();
    }
  }

  /** The survivors that changed their number, with keys read from the packed table. */
  method CollectMoves(table: Table, fn: KeyFn, m: RecordMapping, ghost rows: seq<Row>) returns (moves: seq<Move>)
    requires table.Valid() && table.Rows() == Surviving(rows) && Maps(m, rows)
    ensures moves == Moves(fn, rows, |rows|)
  {
    hide NewNumber, Surviving, Maps;
    moves := [];
    var oldNo := 1;
    MapsLength(m, rows);
    while oldNo <= m.OldCount()
      invariant 1 <= oldNo <= |rows| + 1 && moves == Moves(fn, rows, oldNo - 1)
    {
      LookupMeans(m, rows, oldNo);
      var newNo := m.Lookup(oldNo);
      if newNo.Some? && newNo.value != oldNo {
        SurvivorMoves(rows, oldNo - 1);
        var rec := table.Get(newNo.value);
        moves := moves + [Move(KeyOf(fn, rec.value), oldNo, newNo.value)];
      }
      oldNo := oldNo + 1;
    }
  }

  lemma MapsLength(m: RecordMapping, rows: seq<Row>)
    requires Maps(m, rows)
    ensures m.OldCount() == |rows|
  {
  }

  function OldForms(ms: seq<Move>): (r: seq<Entry>)
    ensures |r| == |ms| && forall k :: 0 <= k < |ms| ==> r[k] == Entry(ms[k].key, ms[k].oldNo)
  {
    seq(|ms|, k requires 0 <= k < |ms| => Entry(ms[k].key, ms[k].oldNo))
  }

  function NewForms(ms: seq<Move>): (r: seq<Entry>)
    ensures |r| == |ms| && forall k :: 0 <= k < |ms| ==> r[k] == Entry(ms[k].key, ms[k].newNo)
  {
    seq(|ms|, k requires 0 <= k < |ms| => Entry(ms[k].key, ms[k].newNo))
  }

  lemma KeysFit(ix: Index, fn: KeyFn, rows: seq<Row>)
    requires AllFit(ix, fn, rows)
    ensures forall k :: 0 <= k < |Moves(fn, rows, |rows|)| ==> |Moves(fn, rows, |rows|)[k].key| <= ix.lay.keySize
    ensures forall x :: x in EntrySet(ix, fn, rows) ==> |x.key| == ix.lay.keySize
  {
    forall k | 0 <= k < |Moves(fn, rows, |rows|)| ensures |Moves(fn, rows, |rows|)[k].key| <= ix.lay.keySize {
      MoveIs(fn, rows, |rows|, Moves(fn, rows, |rows|)[k]);
    }
  }

  /** Brings an index that agreed with the table before PACK into agreement with the packed table:
      stale entries out, then the old entries of moved records out, then their new entries in. */
  method Rebuild(a: Attached, table: Table, m: RecordMapping, ghost rows: seq<Row>)
    requires table.Valid() && table.Rows() == Surviving(rows) && Maps(m, rows) && InAgreement(a, rows)
    modifies a.index
    ensures InAgreement(a, Surviving(rows))
  {
    hide Lists, EntrySet, Dead, Fixed, Moves, Surviving, Maps, Stale, SetOf, AllFit, Index.Valid, Index.Contents,
         Index.Tight;
    var ix, fn := a.index, a.keyFn;
    ghost var e := EntrySet(ix, fn, rows);
    var moves := CollectMoves(table, fn, m, rows);
    var stale := ScanStale(ix, m);
    KeysFit(ix, fn, rows);
    StaleIsDead(ix, fn, rows, m, ix.Contents());
    StaleForms(ix, stale, e);
    DropAll(ix, stale, stale, e);
    DropMoves(ix, fn, rows);
    DropAll(ix, OldForms(moves), OldEntries(ix, moves), e - Dead(ix, fn, rows));
    AddMoves(ix, fn, rows);
    AddAll(ix, NewForms(moves), NewEntries(ix, moves), Fixed(ix, fn, rows));
    PackedFits(ix, fn, rows);
  }

  /** Entries read back from an index carry padded keys already. */
  lemma StaleForms(ix: Index, stale: seq<Entry>, e: set<Entry>)
    requires SetOf(stale) <= e && forall x :: x in e ==> |x.key| == ix.lay.keySize
    ensures forall k :: 0 <= k < |stale| ==>
      |stale[k].key| <= ix.lay.keySize && stale[k] == Entry(ix.Pad(stale[k].key), stale[k].recno)
  {
    forall k | 0 <= k < |stale| ensures |stale[k].key| == ix.lay.keySize {
      assert stale[k] in SetOf(stale);
    }
  }

  // ---------------------------------------------------------------- the area

  ghost function Naturals(n: nat): (r: seq<nat>)
    ensures |r| == n && forall i :: 0 <= i < n ==> r[i] == i + 1
  {
    seq(n, i requires 0 <= i < n => i + 1)
  }

  lemma NaturalsOnce(n: nat)
    ensures EachOnce(Naturals(n), n)
  {
    forall recno | 1 <= recno <= n ensures recno in Naturals(n) {
      assert Naturals(n)[recno - 1] == recno;
    }
  }

  class Area {
    const table: Table
    var indexes: seq<Attached>
    var order: nat
    var recno: nat
    var atEOF: bool
    var atBOF: bool

    ghost function Objects(): set<Index>
      reads this
    {
      set i | 0 <= i < |indexes| :: indexes[i].index
    }

    /** The table is sound and the attached indexes are different ones, all usable. */
    ghost predicate Wired()
      reads this, table, Objects()
    {
      && table.Valid() && order <= |indexes|
      && (forall i, j :: 0 <= i < j < |indexes| ==> indexes[i].index != indexes[j].index)
      && forall i :: 0 <= i < |indexes| ==> Ready(indexes[i].index)
    }

    /** Every attached index agrees with the table. */
    ghost predicate Attuned()
      reads this, table, Objects()
    {
      Wired() && forall i :: 0 <= i < |indexes| ==> InAgreement(indexes[i], table.Rows())
    }

    /** And the record pointer is inside it. */
    ghost predicate Valid()
      reads this, table, Objects()
    {
      Attuned() && recno <= table.recordCount && (recno == 0 <==> table.recordCount == 0)
    }

    /** The record numbers in the controlling order. */
    ghost function Sequence(): seq<nat>
      reads this, table, Objects()
    {
      if 0 < order <= |indexes| then Recnos(indexes[order - 1].index.Contents()) else Naturals(table.recordCount)
    }

    /** The pointer stands at place p of the controlling order. */
    ghost predicate At(p: int)
      reads this, table, Objects()
    {
      0 <= p < |Sequence()| && Sequence()[p] == recno
    }

    /** A fresh area over a table, at its first record. */
    constructor (table: Table)
      requires table.Valid()
      ensures Valid() && this.table == table && indexes == [] && order == 0
      ensures table.recordCount > 0 ==> recno == 1 && !atEOF
    {
      this.table, indexes, order, atBOF := table, [], 0, false;
      recno := if table.recordCount == 0 then 0 else 1;
      atEOF := table.recordCount == 0;
    }

    /** Whatever the order, it passes every record exactly once. */
    lemma EveryRecordOnce()
      requires Attuned()
      ensures EachOnce(Sequence(), table.recordCount)
    {
      NaturalsOnce(table.recordCount);
      if order > 0 {
        var a := indexes[order - 1];
        ListingIsPermutation(a.index, a.keyFn, table.Rows(), a.index.Contents());
      }
    }

    lemma PlaceIsRecord(p: int)
      requires Attuned()
      ensures |Sequence()| == table.recordCount
      ensures 0 <= p < |Sequence()| ==> 1 <= Sequence()[p] <= table.recordCount
    {
      EveryRecordOnce();
    }

    /** What the order is: that of the controlling index, or of the record numbers. */
    lemma OrderIs(p: int)
      requires Attuned() && At(p)
      ensures order == 0 ==> recno == p + 1
      ensures order > 0 ==> var s := indexes[order - 1].index.Contents(); 0 <= p < |s| && recno == s[p].recno
    {
    }

    /** The pointer has a place. */
    lemma Place() returns (p: int)
      requires Valid() && recno > 0
      ensures At(p)
    {
      EveryRecordOnce();
      assert recno in Sequence();
      p :| 0 <= p < |Sequence()| && Sequence()[p] == recno;
    }

    method SetEmpty()
      modifies this`recno, this`atEOF
      ensures recno == 0 && atEOF
    {
      recno, atEOF := 0, true;
    }

    lemma ContentsStrict()
      requires Attuned() && order > 0
      ensures StrictlySorted(indexes[order - 1].index.Contents())
      ensures |indexes[order - 1].index.Contents()| == table.recordCount
    {
      var a := indexes[order - 1];
      ListsStrictly(a.index.Contents(), EntrySet(a.index, a.keyFn, table.Rows()));
      ListingSize(a.index, a.keyFn, table.Rows(), a.index.Contents());
    }

    /** The first record in the controlling order, if there is any. */
    method First() returns (first: Option<nat>)
      requires Attuned()
      ensures |Sequence()| == table.recordCount
      ensures first == if table.recordCount > 0 then Some(Sequence()[0]) else None
    {
      hide Index.Valid, Index.Tight, Index.Contents, InAgreement, NtxQuery.FirstLeaf;
      EveryRecordOnce();
      if order == 0 {
        return if table.recordCount == 0 then None else Some(1);
      }
      ContentsStrict();
      var entry := NtxQuery.Min(indexes[order - 1].index);
      first := if entry.None? then None else Some(entry.value.recno);
    }

    method Last() returns (last: Option<nat>)
      requires Attuned()
      ensures |Sequence()| == table.recordCount
      ensures last == if table.recordCount > 0 then Some(Sequence()[table.recordCount - 1]) else None
    {
      hide Index.Valid, Index.Tight, Index.Contents, InAgreement, NtxQuery.LastLeaf;
      EveryRecordOnce();
      if order == 0 {
        return if table.recordCount == 0 then None else Some(table.recordCount);
      }
      ContentsStrict();
      var entry := NtxQuery.Max(indexes[order - 1].index);
      last := if entry.None? then None else Some(entry.value.recno);
    }

    method GoTop()
      requires Attuned()
      modifies this`recno, this`atEOF, this`atBOF
      ensures Sequence() == old(Sequence())
      ensures Valid() && !atBOF && atEOF == (table.recordCount == 0)
      ensures table.recordCount > 0 ==> At(0)
      ensures table.recordCount > 0 && order == 0 ==> recno == 1
      ensures table.recordCount > 0 && order > 0 ==>
        indexes[order - 1].index.Contents() != [] && recno == indexes[order - 1].index.Contents()[0].recno
    {
      hide InAgreement, Ready, Index.Contents, Table.Valid, Table.Rows, EachOnce, Recnos, Naturals;
      EveryRecordOnce();
      var first := First();
      atBOF := false;
      if first.None? {
        SetEmpty();
      } else {
        recno, atEOF := first.value, false;
        OrderIs(0);
      }
    }

    method GoBottom()
      requires Attuned()
      modifies this`recno, this`atEOF, this`atBOF
      ensures Sequence() == old(Sequence())
      ensures Valid() && !atBOF && atEOF == (table.recordCount == 0)
      ensures table.recordCount > 0 ==> At(table.recordCount - 1)
      ensures table.recordCount > 0 && order == 0 ==> recno == table.recordCount
      ensures table.recordCount > 0 && order > 0 ==> var s := indexes[order - 1].index.Contents();
        s != [] && recno == s[|s| - 1].recno
    {
      hide InAgreement, Ready, Index.Contents, Table.Valid, Table.Rows, EachOnce, Recnos, Naturals;
      EveryRecordOnce();
      var last := Last();
      atBOF := false;
      if last.None? {
        SetEmpty();
      } else {
        recno, atEOF := last.value, false;
        OrderIs(table.recordCount - 1);
      }
    }

    /** The key of the current record under the controlling index. */
    method CurrentKey(ghost p: int) returns (key: seq<byte>)
      requires Valid() && order > 0 && recno > 0 && At(p)
      ensures |key| <= indexes[order - 1].index.lay.keySize
      ensures indexes[order - 1].index.Contents()[p] == Entry(indexes[order - 1].index.Pad(key), recno)
    {
      hide Index.Valid, Index.Tight, Index.Contents;
      var row := table.Get(recno);
      var a := indexes[order - 1];
      key := KeyOf(a.keyFn, row.value);
      assert row.value == table.Rows()[recno - 1];
      ListedEntry(a.index, a.keyFn, table.Rows(), a.index.Contents(), p);
    }

    /** The record after the current one in the controlling order. */
    method Following(ghost p: int) returns (next: Option<nat>)
      requires Valid() && recno > 0 && At(p)
      ensures next == if p + 1 < |Sequence()| then Some(Sequence()[p + 1]) else None
    {
      hide Index.Valid, Index.Tight, Index.Contents, NtxQuery.IsSuccessor, StrictlySorted, Lists;
      if order == 0 {
        return if recno >= table.recordCount then None else Some(recno + 1);
      }
      var ix := indexes[order - 1].index;
      var key := CurrentKey(p);
      ContentsStrict();
      var entry, st := NtxQuery.Successor(ix, key, recno);
      NtxQuery.WalkForward(ix.Contents(), p, entry);
      next := if entry.None? then None else Some(entry.value.recno);
    }

    /** The record before the current one. */
    method Preceding(ghost p: int) returns (previous: Option<nat>)
      requires Valid() && recno > 0 && At(p)
      ensures previous == if p > 0 then Some(Sequence()[p - 1]) else None
    {
      hide Index.Valid, Index.Tight, Index.Contents, NtxQuery.IsPredecessor, StrictlySorted, Lists;
      if order == 0 {
        return if recno <= 1 then None else Some(recno - 1);
      }
      var ix := indexes[order - 1].index;
      var key := CurrentKey(p);
      ContentsStrict();
      var entry, st := NtxQuery.Predecessor(ix, key, recno);
      NtxQuery.WalkBackward(ix.Contents(), p, entry);
      previous := if entry.None? then None else Some(entry.value.recno);
    }

    /** Forward by one; at the end the pointer stays and the end flag is raised. The flag is not
        lowered by a move. */
    method SkipForward(ghost p: int)
      requires Valid() && (recno > 0 ==> At(p))
      modifies this`recno, this`atEOF, this`atBOF
      ensures Sequence() == old(Sequence())
      ensures Valid() && (old(recno) == 0 <==> recno == 0)
      ensures recno == 0 ==> atEOF && atBOF == old(atBOF)
      ensures recno > 0 ==>
        !atBOF && if p + 1 < table.recordCount then At(p + 1) && atEOF == old(atEOF) else At(p) && atEOF
    {
      hide InAgreement, Ready, Index.Contents, Table.Valid, Table.Rows, EachOnce;
      if recno == 0 {
        atEOF := true;
        return;
      }
      PlaceIsRecord(p + 1);
      var next := Following(p);
      atBOF := false;
      if next.None? {
        atEOF := true;
      } else {
        recno := next.value;
      }
    }

    method SkipBackward(ghost p: int)
      requires Valid() && (recno > 0 ==> At(p))
      modifies this`recno, this`atEOF, this`atBOF
      ensures Sequence() == old(Sequence())
      ensures Valid() && (old(recno) == 0 <==> recno == 0)
      ensures recno == 0 ==> atBOF && atEOF == old(atEOF)
      ensures recno > 0 ==> !atEOF && if p > 0 then At(p - 1) && atBOF == old(atBOF) else At(p) && atBOF
    {
      hide InAgreement, Ready, Index.Contents, Table.Valid, Table.Rows, EachOnce, Index.Valid, Sorted, Recnos, Naturals;
      if recno == 0 {
        atBOF := true;
        return;
      }
      PlaceIsRecord(p - 1);
      var previous := Preceding(p);
      atEOF := false;
      atBOF := atBOF || previous.None?;
      if previous.Some? {
        recno := previous.value;
      }
    }

    /** Moves by n records. A walk stops once the flag of its direction is up, even if that was so
        from the start. */
    method Skip(n: int, ghost p: int)
      requires Valid() && (recno > 0 ==> At(p))
      modifies this`recno, this`atEOF, this`atBOF
      ensures Sequence() == old(Sequence())
      ensures Valid() && (old(recno) == 0 <==> recno == 0)
      ensures n == 0 ==> recno == old(recno) && atEOF == old(atEOF) && atBOF == old(atBOF)
      ensures n > 0 && recno == 0 ==> atEOF
      ensures n < 0 && recno == 0 ==> atBOF
      ensures n > 0 && recno > 0 ==> var q := p + if old(atEOF) then 1 else n;
        !atBOF && atEOF == (old(atEOF) || q >= table.recordCount) && At(Smaller(q, table.recordCount - 1))
      ensures n < 0 && recno > 0 ==> var q := p - if old(atBOF) then 1 else -n;
        !atEOF && atBOF == (old(atBOF) || q < 0) && At(if q < 0 then 0 else q)
    {
      hide Wired, InAgreement, Sequence;
      Inside(p);
      if n > 0 {
        SkipAhead(n, p);
      } else if n < 0 {
        SkipBack(-n, p);
      }
    }

    method SkipAhead(n: nat, ghost p: int)
      requires Valid() && n > 0 && (recno > 0 ==> At(p) && 0 <= p < table.recordCount)
      modifies this`recno, this`atEOF, this`atBOF
      ensures Sequence() == old(Sequence())
      ensures Valid() && (old(recno) == 0 <==> recno == 0) && (recno == 0 ==> atEOF)
      ensures recno > 0 ==> var q := p + if old(atEOF) then 1 else n;
        !atBOF && atEOF == (old(atEOF) || q >= table.recordCount) && At(Smaller(q, table.recordCount - 1))
    {
      hide Valid, At;
      var done := 0;
      ghost var q := p;
      while done < n
        invariant done <= n && Valid() && (old(recno) == 0 <==> recno == 0)
        invariant recno > 0 ==> At(q) && q < table.recordCount && q == p + done
        invariant if done == 0 then atEOF == old(atEOF) else !atEOF && !old(atEOF) && recno > 0 && !atBOF
      {
        SkipForward(q);
        if atEOF {
          return;
        }
        done, q := done + 1, q + 1;
      }
    }

    method SkipBack(n: nat, ghost p: int)
      requires Valid() && n > 0 && (recno > 0 ==> At(p) && 0 <= p < table.recordCount)
      modifies this`recno, this`atEOF, this`atBOF
      ensures Sequence() == old(Sequence())
      ensures Valid() && (old(recno) == 0 <==> recno == 0) && (recno == 0 ==> atBOF)
      ensures recno > 0 ==> var q := p - if old(atBOF) then 1 else n;
        !atEOF && atBOF == (old(atBOF) || q < 0) && At(if q < 0 then 0 else q)
    {
      hide Valid, At;
      var done := 0;
      ghost var q := p;
      while done < n
        invariant done <= n && Valid() && (old(recno) == 0 <==> recno == 0)
        invariant recno > 0 ==> At(q) && 0 <= q && q + done == p
        invariant if done == 0 then atBOF == old(atBOF) else !atBOF && !old(atBOF) && recno > 0 && !atEOF
      {
        SkipBackward(q);
        if atBOF {
          return;
        }
        done, q := done + 1, q - 1;
      }
    }

    lemma Inside(p: int)
      requires Valid()
      ensures recno > 0 && At(p) ==> 0 <= p < table.recordCount
      ensures recno > 0 ==> table.recordCount > 0
    {
      EveryRecordOnce();
    }

    /** GO TOP and then SKIP until the end flag is up passes every record once, in controlling order. */
    method WalkForward() returns (visited: seq<nat>)
      requires Valid()
      modifies this`recno, this`atEOF, this`atBOF
      ensures Valid() && visited == old(Sequence()) && EachOnce(visited, table.recordCount)
    {
      hide Attuned, At, Sequence;
      EveryRecordOnce();
      ghost var all := Sequence();
      GoTop();
      visited := [];
      while !atEOF
        invariant Valid() && Sequence() == all && |visited| <= |all|
        invariant visited == all[..if atEOF then |all| else |visited|]
        invariant !atEOF ==> At(|visited|)
        decreases |all| - |visited|, !atEOF
      {
        StandsAt(|visited|);
        visited := visited + [recno];
        Skip(1, |visited| - 1);
      }
    }

    lemma StandsAt(p: int)
      requires Valid() && At(p)
      ensures 0 <= p < |Sequence()| && Sequence()[p] == recno && |Sequence()| == table.recordCount && recno > 0
    {
      EveryRecordOnce();
    }

    /** GO BOTTOM and then SKIP -1 until the begin flag is up passes every record once, in reverse. */
    method WalkBackward() returns (visited: seq<nat>)
      requires Valid()
      modifies this`recno, this`atEOF, this`atBOF
      ensures Valid() && EachOnce(visited, table.recordCount)
      ensures |visited| == |old(Sequence())| && forall k :: 0 <= k < |visited| ==>
        visited[k] == old(Sequence())[|visited| - 1 - k]
    {
      hide Attuned, At, Sequence;
      EveryRecordOnce();
      ghost var all := Sequence();
      GoBottom();
      visited := [];
      if atEOF {
        return;
      }
      while !atBOF
        invariant Valid() && Sequence() == all && |visited| <= |all|
        invariant atBOF ==> |visited| == |all|
        invariant forall k :: 0 <= k < |visited| ==> visited[k] == all[|all| - 1 - k]
        invariant !atBOF ==> At(|all| - 1 - |visited|)
        decreases |all| - |visited|, !atBOF
      {
        StandsAt(|all| - 1 - |visited|);
        visited := visited + [recno];
        Skip(-1, |all| - |visited|);
      }
      ReversedOnce(all, visited, table.recordCount);
    }

    // -------------------------------------------------------------- positioning by key

    method SetOrder(n: int) returns (ok: bool)
      requires Valid()
      modifies this`order
      ensures Valid() && ok == (0 <= n <= |indexes|) && order == if ok then n else old(order)
    {
      hide InAgreement, Index.Valid;
      ok := 0 <= n <= |indexes|;
      if ok {
        order := n;
      }
    }

    method GoTo(n: nat) returns (ok: bool)
      requires Valid()
      modifies this`recno, this`atEOF, this`atBOF
      ensures Valid() && ok == (1 <= n <= table.recordCount)
      ensures if ok then recno == n && !atEOF && !atBOF
        else recno == old(recno) && atEOF == old(atEOF) && atBOF == old(atBOF)
    {
      hide InAgreement, Index.Valid;
      ok := 1 <= n <= table.recordCount;
      if ok {
        recno, atEOF, atBOF := n, false, false;
      }
    }

    /** Positions at the first record whose key is at or above the padded key. The match reported is
        on the sought bytes as a prefix. When there is no such record the pointer stays where it was
        and the end flag is raised. */
    method Seek(key: seq<byte>) returns (matched: bool, ok: bool, ghost r: Option<Entry>)
      requires Valid()
      modifies this`recno, this`atEOF, this`atBOF
      ensures Valid() && ok == (order > 0 && |key| <= indexes[order - 1].index.lay.keySize)
      ensures !ok ==> !matched && recno == old(recno) && atEOF == old(atEOF) && atBOF == old(atBOF)
      ensures ok ==>
        && NtxQuery.IsFirstGE(indexes[order - 1].index.Contents(), indexes[order - 1].index.Pad(key), r)
        && (if r.Some? then recno == r.value.recno && !atEOF && !atBOF
            else recno == old(recno) && atEOF && atBOF == old(atBOF))
        && matched == (r.Some? && key <= r.value.key)
    {
      hide InAgreement, Index.Valid, Index.Tight, Index.Contents, NtxQuery.IsFirstGE;
      r := None;
      if order == 0 {
        return false, false, r;
      }
      EveryRecordOnce();
      var entry, st := NtxQuery.FirstGE(indexes[order - 1].index, key);
      r := entry;
      if st != Ok {
        return false, false, r;
      }
      ok := true;
      if entry.None? {
        atEOF := true;
        return false, true, r;
      }
      FoundIsRecord(indexes[order - 1].index.Pad(key), r);
      recno, atEOF, atBOF := entry.value.recno, false, false;
      matched := key <= entry.value.key;
    }

    lemma FoundIsRecord(key: seq<byte>, r: Option<Entry>)
      requires Valid() && order > 0 && NtxQuery.IsFirstGE(indexes[order - 1].index.Contents(), key, r) && r.Some?
      ensures 1 <= r.value.recno <= table.recordCount
    {
      var a := indexes[order - 1];
      var s, x := a.index.Contents(), r.value;
      var k :| 0 <= k < |s| && x == s[k];
      ListedEntry(a.index, a.keyFn, table.Rows(), a.index.Contents(), k);
    }

    // -------------------------------------------------------------- changing the table

    /** The key every attached index would need for this record fits it. */
    ghost predicate Fits(row: Row)
      reads this
    {
      forall i :: 0 <= i < |indexes| ==> |KeyOf(indexes[i].keyFn, row)| <= indexes[i].index.lay.keySize
    }

    /** Adds a record and its keys. A key that is too long stops the update half-way: the record is
        then in the table, and its entries only in the indexes attached before the one that failed. */
    method Append(row: Row) returns (n: nat, ok: bool)
      requires Valid() && |row| == table.sh.size
      modifies this`recno, this`atEOF, this`atBOF, table, Objects()
      ensures ok <==> Fits(row)
      ensures Wired() && table.Rows() == old(table.Rows()) + [row] && table.recordCount == old(table.recordCount) + 1
      ensures ok ==> Valid() && n == recno == table.recordCount && !atEOF && !atBOF
      ensures !ok ==> recno == old(recno) && atEOF == old(atEOF) && atBOF == old(atBOF)
      ensures forall j :: 0 <= j < |indexes| ==>
        InAgreement(indexes[j], if j < FirstMisfit(indexes, row, 0) then table.Rows() else old(table.Rows()))
      ensures ok <==> forall j :: 0 <= j < |indexes| ==> |indexes[j].keyFn(row[1..])| <= indexes[j].index.lay.keySize
      ensures ok ==> forall j :: 0 <= j < |indexes| ==>
        InBytes(indexes[j].index, indexes[j].keyFn, table.Rows())
    {
      hide Index.Valid, InAgreement, Ready, KeyOf, Table.Valid, RowsOf, FirstMisfit, InBytes;
      ghost var rows := table.Rows();
      n := table.Append(row);
      ok := AppendKeys(row, n, rows);
      FitsInBytes(table, indexes, row);
      if ok {
        recno, atEOF, atBOF := n, false, false;
        AllListings(indexes, table);
      }
    }

    /** The entry of a new record added to one attached index after the other. */
    method AppendKeys(row: Row, n: nat, ghost rows: seq<Row>) returns (ok: bool)
      requires n == |rows| + 1
      requires forall i, j :: 0 <= i < j < |indexes| ==> indexes[i].index != indexes[j].index
      requires forall i :: 0 <= i < |indexes| ==> InAgreement(indexes[i], rows)
      modifies Objects()
      ensures (ok <==> Fits(row)) && (ok <==> FirstMisfit(indexes, row, 0) == |indexes|)
      ensures forall i :: 0 <= i < |indexes| ==> Ready(indexes[i].index)
      ensures forall i :: 0 <= i < |indexes| ==>
        InAgreement(indexes[i], if i < FirstMisfit(indexes, row, 0) then rows + [row] else rows)
    {
      hide InAgreement, Ready, KeyOf, LacksOne, FirstMisfit;
      var i := 0;
      while i < |indexes|
        invariant i <= |indexes|
        invariant forall j :: 0 <= j < i ==> InAgreement(indexes[j], rows + [row])
        invariant forall j :: i <= j < |indexes| ==> InAgreement(indexes[j], rows)
        invariant forall j :: 0 <= j < i ==> |KeyOf(indexes[j].keyFn, row)| <= indexes[j].index.lay.keySize
      {
        ok := AppendEntry(indexes[i], row, n, rows);
        if !ok {
          AgreeingIsReady(indexes[i], rows);
          AllReady(i, rows + [row], rows);
          return;
        }
        i := i + 1;
      }
      AllReady(i, rows + [row], rows);
      ok := true;
    }

    /** Overwrites the current record and moves its entries to the new keys. */
    method Replace(row: Row) returns (ok: bool)
      requires Valid() && |row| == table.sh.size
      modifies table, Objects()
      ensures ok <==> recno > 0 && Fits(row)
      ensures Wired() && table.recordCount == old(table.recordCount)
      ensures table.Rows() == if recno > 0 then old(table.Rows())[recno - 1 := row] else old(table.Rows())
      ensures ok || recno == 0 ==> Valid()
      ensures recno > 0 ==> forall j :: 0 <= j < |indexes| ==>
        if j == FirstMisfit(indexes, row, 0) then LacksOne(indexes[j], old(table.Rows()), recno)
        else InAgreement(indexes[j], if j < FirstMisfit(indexes, row, 0) then table.Rows() else old(table.Rows()))
      ensures recno > 0 ==> (ok <==>
        forall j :: 0 <= j < |indexes| ==> |indexes[j].keyFn(row[1..])| <= indexes[j].index.lay.keySize)
      ensures ok ==> forall j :: 0 <= j < |indexes| ==>
        InBytes(indexes[j].index, indexes[j].keyFn, table.Rows())
    {
      hide Index.Valid, InAgreement, Ready, KeyOf, Table.Valid, RowsOf, LacksOne, FirstMisfit, InBytes, Fits;
      FitsInBytes(table, indexes, row);
      if recno == 0 {
        return false;
      }
      ghost var rows := table.Rows();
      var old_ := table.Get(recno);
      var put := table.Put(recno, row);
      ok := ReplaceKeys(old_.value, row, rows, table.Rows());
      if ok {
        AllListings(indexes, table);
      }
    }

    /** The entries of the current record moved in one attached index after the other. */
    method ReplaceKeys(old_: Row, row: Row, ghost rows: seq<Row>, ghost after: seq<Row>) returns (ok: bool)
      requires 1 <= recno <= |rows| && rows[recno - 1] == old_ && after == rows[recno - 1 := row]
      requires forall i, j :: 0 <= i < j < |indexes| ==> indexes[i].index != indexes[j].index
      requires forall i :: 0 <= i < |indexes| ==> InAgreement(indexes[i], rows)
      modifies Objects()
      ensures (ok <==> Fits(row)) && (ok <==> FirstMisfit(indexes, row, 0) == |indexes|)
      ensures forall i :: 0 <= i < |indexes| ==> Ready(indexes[i].index)
      ensures forall i :: 0 <= i < |indexes| ==>
        if i == FirstMisfit(indexes, row, 0) then LacksOne(indexes[i], rows, recno)
        else InAgreement(indexes[i], if i < FirstMisfit(indexes, row, 0) then after else rows)
    {
      hide InAgreement, Ready, KeyOf, LacksOne, FirstMisfit;
      var i := 0;
      while i < |indexes|
        invariant i <= |indexes|
        invariant forall j :: 0 <= j < i ==> InAgreement(indexes[j], after)
        invariant forall j :: i <= j < |indexes| ==> InAgreement(indexes[j], rows)
        invariant forall j :: 0 <= j < i ==> |KeyOf(indexes[j].keyFn, row)| <= indexes[j].index.lay.keySize
      {
        ok := UpdateEntry(indexes[i], old_, row, recno, rows, after);
        if !ok {
          LackingIsReady(indexes[i], rows, recno);
          AllReady(i, after, rows);
          return;
        }
        i := i + 1;
      }
      AllReady(i, after, rows);
      ok := true;
    }

    /** Sets or clears the deletion mark of the current record; indexes keep deleted records. */
    method Mark(marker: byte) returns (ok: bool)
      requires Valid()
      modifies table
      ensures Valid() && ok == (recno > 0) && table.recordCount == old(table.recordCount)
      ensures table.Rows()
        == if ok then old(table.Rows())[recno - 1 := Marked(old(table.Rows())[recno - 1], marker)]
          else old(table.Rows())
    {
      hide Index.Valid, Index.Contents, Index.Tight, Lists, EntrySet, Carries, Ready;
      if recno == 0 {
        return false;
      }
      ghost var rows := table.Rows();
      ok := table.SetDeletionMarker(recno, marker);
      forall i | 0 <= i < |indexes| ensures InAgreement(indexes[i], table.Rows()) {
        assert InAgreement(indexes[i], rows);
        SetSameKeys(indexes[i].index, indexes[i].keyFn, rows, table.Rows());
      }
    }

    /** INDEX ON: a new index over the whole table; the first one attached takes control. */
    method CreateIndex(keySize: nat, fn: KeyFn) returns (ok: bool)
      requires Valid() && 1 <= keySize <= 245
      modifies this`indexes, this`order
      ensures Valid()
      ensures if ok then |indexes| == |old(indexes)| + 1 && indexes[..|old(indexes)|] == old(indexes)
        && fresh(indexes[|old(indexes)|].index)
              else indexes == old(indexes) && order == old(order)
      ensures ok ==> order == if |indexes| == 1 then 1 else old(order)
      ensures ok <==> forall i :: 0 <= i < |table.Rows()| ==> |fn(table.Rows()[i][1..])| <= keySize
      ensures ok ==> InBytes(indexes[|indexes| - 1].index, fn, table.Rows())
    {
      hide Index.Valid, Index.Contents, Index.Tight, EntrySet, Table.Valid, InBytes, InAgreement, AllFit, KeyOf, Lists;
      var ix := new Index(keySize, false);
      NtxQuery.PageHoldsTwo(keySize);
      NothingListed(ix);
      ok := Build(ix, table, fn);
      KeysInBytes(ix, table, fn);
      if ok {
        indexes := indexes + [Attached(ix, fn)];
        if |indexes| == 1 {
          order := 1;
        }
        AgreeingIsReady(Attached(ix, fn), table.Rows());
        Listing(Attached(ix, fn), table.Rows());
      }
    }

    /** Packs the table and repairs every attached index, then goes to the top. */
    method Pack() returns (m: RecordMapping)
      requires Valid()
      modifies this`recno, this`atEOF, this`atBOF, table, Objects()
      ensures Valid() && Maps(m, old(table.Rows())) && table.Rows() == Surviving(old(table.Rows()))
      ensures !atBOF && atEOF == (table.recordCount == 0) && (table.recordCount > 0 ==> At(0))
      ensures forall k :: 0 <= k < |table.Rows()| ==> table.Rows()[k][0] != 0x2A
      ensures forall x: Row :: x != [] ==>
        multiset(table.Rows())[x] == if x[0] == 0x2A then 0 else multiset(old(table.Rows()))[x]
      ensures forall j :: 0 <= j < |indexes| ==> InBytes(indexes[j].index, indexes[j].keyFn, table.Rows())
    {
      hide Index.Valid, InAgreement, Ready, Maps, Surviving, At, Table.Valid, RowsOf, InBytes;
      ghost var rows := table.Rows();
      m := table.Pack();
      if m.Identity() {
        IdentityPack(m, rows);
        GoTop();
        AllListings(indexes, table);
        return;
      }
      var i := 0;
      while i < |indexes|
        invariant i <= |indexes|
        invariant table.Valid() && table.Rows() == Surviving(rows)
        invariant forall j :: 0 <= j < i ==> InAgreement(indexes[j], Surviving(rows))
        invariant forall j :: i <= j < |indexes| ==> InAgreement(indexes[j], rows)
      {
        Rebuild(indexes[i], table, m, rows);
        i := i + 1;
      }
      AllReady(i, Surviving(rows), rows);
      GoTop();
      AllListings(indexes, table);
    }

    /** Indexes that agree with some rows are ready, whichever rows these are. */
    lemma AllReady(i: nat, done: seq<Row>, left: seq<Row>)
      requires i <= |indexes|
      requires forall j :: 0 <= j < i ==> InAgreement(indexes[j], done)
      requires forall j :: i < j < |indexes| ==> InAgreement(indexes[j], left)
      ensures forall j :: 0 <= j < |indexes| && j != i ==> Ready(indexes[j].index)
    {
      forall j | 0 <= j < |indexes| && j != i ensures Ready(indexes[j].index) {
        if j < i {
          assert InAgreement(indexes[j], done);
        } else {
          assert InAgreement(indexes[j], left);
        }
      }
    }
  }

  lemma KeysInBytes(ix: Index, t: Table, fn: KeyFn)
    requires t.Valid()
    ensures forall i :: 0 <= i < |t.Rows()| ==> t.Rows()[i] != []
    ensures AllFit(ix, fn, t.Rows()) <==> forall i :: 0 <= i < |t.Rows()| ==> |fn(t.Rows()[i][1..])| <= ix.lay.keySize
  {
    assert forall i :: 0 <= i < |t.Rows()| ==> KeyOf(fn, t.Rows()[i]) == fn(t.Rows()[i][1..]);
  }

  lemma FitsInBytes(t: Table, indexes: seq<Attached>, row: Row)
    requires t.Valid() && |row| == t.sh.size
    ensures row != [] && forall j :: 0 <= j < |indexes| ==> KeyOf(indexes[j].keyFn, row) == indexes[j].keyFn(row[1..])
  {
  }

  lemma IdentityPack(m: RecordMapping, rows: seq<Row>)
    requires Maps(m, rows) && m.Identity()
    ensures Surviving(rows) == rows
  {
    IdentityMeans(rows);
  }

  lemma NothingListed(ix: Index)
    requires ix.Contents() == []
    ensures Lists(ix.Contents(), {})
  {
  }

  /** One new record's entry. */
  method AppendEntry(a: Attached, row: Row, recno: nat, ghost rows: seq<Row>) returns (ok: bool)
    requires InAgreement(a, rows) && recno == |rows| + 1
    modifies a.index
    ensures ok <==> |KeyOf(a.keyFn, row)| <= a.index.lay.keySize
    ensures InAgreement(a, if ok then rows + [row] else rows)
  {
    hide Carries, EntrySet;
    ghost var e := EntrySet(a.index, a.keyFn, rows);
    SetAppend(a.index, a.keyFn, rows, row);
    ok := AddEntry(a.index, KeyOf(a.keyFn, row), recno, e);
    CarriesReady(a.index, if ok then EntrySet(a.index, a.keyFn, rows + [row]) else e);
  }

  lemma ReversedOnce(all: seq<nat>, visited: seq<nat>, n: nat)
    requires EachOnce(all, n) && |visited| == |all| && forall k :: 0 <= k < |visited| ==>
      visited[k] == all[|all| - 1 - k]
    ensures EachOnce(visited, n)
  {
    forall recno | 1 <= recno <= n ensures recno in visited {
      assert recno in all;
      var k :| 0 <= k < |all| && all[k] == recno;
      assert visited[|all| - 1 - k] == recno;
    }
  }
}
