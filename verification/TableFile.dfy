/** A DBF table as a file of fixed-size records, and PACK, which compacts it in place. */
module TableFile {
  import opened Entries
  import opened Bytes

  const DELETED_MARKER: byte := 0x2A
  const TERMINATOR: byte := 0x1A
  const HEADER := 32

  type Row = seq<byte>

  /** Where the records start, and the size of each. */
  datatype Shape = Shape(start: nat, size: nat)

  // ---------------------------------------------------------------- rows in a file

  /** Where record slot i starts; slots count from 0, record numbers from 1. */
  function Offset(sh: Shape, i: nat): nat {
    sh.start + i * sh.size
  }

  lemma SlotsApart(sh: Shape, i: nat, j: nat)
    requires i < j
    ensures sh.start <= Offset(sh, i) && Offset(sh, i) + sh.size <= Offset(sh, j)
  {
    MulMonotone(i + 1, j, sh.size);
    assert (i + 1) * sh.size == i * sh.size + sh.size;
  }

  predicate Reaches(sh: Shape, file: seq<byte>, count: nat) {
    Offset(sh, count) <= |file|
  }

  function RowAt(sh: Shape, file: seq<byte>, count: nat, i: nat): (r: Row)
    requires Reaches(sh, file, count) && i < count
    ensures |r| == sh.size
  {
    SlotsApart(sh, i, count);
    file[Offset(sh, i)..Offset(sh, i) + sh.size]
  }

  function RowsOf(sh: Shape, file: seq<byte>, count: nat): (rows: seq<Row>)
    requires Reaches(sh, file, count)
    ensures |rows| == count && forall i :: 0 <= i < count ==>
      rows[i] == RowAt(sh, file, count, i) && |rows[i]| == sh.size
  {
    seq(count, i requires 0 <= i < count => RowAt(sh, file, count, i))
  }

  /** Writing inside one slot touches that record only, and nothing in front of the records. */
  lemma RowWritten(sh: Shape, file: seq<byte>, count: nat, i: nat, from: nat, b: seq<byte>)
    requires Reaches(sh, file, count) && i < count && from + |b| <= sh.size
    ensures Offset(sh, i) + from + |b| <= |file|
    ensures var now := Splice(file, Offset(sh, i) + from, b);
      && Reaches(sh, now, count) && now[..sh.start] == file[..sh.start]
      && RowsOf(sh, now, count) == RowsOf(sh, file, count)[i := Splice(RowsOf(sh, file, count)[i], from, b)]
  {
    hide Offset;
    SlotsApart(sh, i, count);
    var now := Splice(file, Offset(sh, i) + from, b);
    var rows, after := RowsOf(sh, file, count), RowsOf(sh, now, count);
    forall j | 0 <= j < count ensures after[j] == rows[i := Splice(rows[i], from, b)][j] {
      SlotsApart(sh, j, count);
      if j < i { SlotsApart(sh, j, i); }
      if i < j { SlotsApart(sh, i, j); }
      if j != i {
        SpliceApart(file, Offset(sh, i) + from, b, Offset(sh, j), sh.size);
      }
    }
  }

  /** Writing behind the last record leaves all records alone. */
  lemma WrittenBehind(sh: Shape, file: seq<byte>, count: nat, b: seq<byte>)
    requires Reaches(sh, file, count)
    ensures var now := Splice(file, Offset(sh, count), b);
      Reaches(sh, now, count) && RowsOf(sh, now, count) == RowsOf(sh, file, count)
        && now[..sh.start] == file[..sh.start]
  {
    hide Offset;
    var now := Splice(file, Offset(sh, count), b);
    if count > 0 { SlotsApart(sh, 0, count); }
    forall i | 0 <= i < count ensures RowAt(sh, now, count, i) == RowAt(sh, file, count, i) {
      SlotsApart(sh, i, count);
      SpliceApart(file, Offset(sh, count), b, Offset(sh, i), sh.size);
    }
    StartInside(sh, count);
  }

  lemma StartInside(sh: Shape, count: nat)
    ensures sh.start <= Offset(sh, count)
    ensures Offset(sh, count + 1) == Offset(sh, count) + sh.size
  {
    assert (count + 1) * sh.size == count * sh.size + sh.size;
  }

  /** One record more, written behind the last one. */
  lemma RowAppended(sh: Shape, file: seq<byte>, count: nat, row: Row, tail: seq<byte>)
    requires Reaches(sh, file, count) && |row| == sh.size
    ensures var now := Splice(file, Offset(sh, count), row + tail);
      Reaches(sh, now, count + 1) && RowsOf(sh, now, count + 1) == RowsOf(sh, file, count) + [row]
  {
    hide Offset;
    WrittenBehind(sh, file, count, row + tail);
    StartInside(sh, count);
    var now := Splice(file, Offset(sh, count), row + tail);
    var rows, after := RowsOf(sh, file, count), RowsOf(sh, now, count + 1);
    forall i | 0 <= i <= count ensures after[i] == (rows + [row])[i] {
      if i < count {
        assert RowsOf(sh, now, count)[i] == rows[i];
      } else {
        SpliceWithin(file, Offset(sh, count), row + tail, 0, sh.size);
        assert (row + tail)[0..sh.size] == row;
      }
    }
  }

  /** Fewer records: the first of them are the same. */
  lemma RowsShorter(sh: Shape, file: seq<byte>, count: nat, fewer: nat)
    requires Reaches(sh, file, count) && fewer <= count
    ensures Reaches(sh, file, fewer) && RowsOf(sh, file, fewer) == RowsOf(sh, file, count)[..fewer]
  {
    if fewer < count { SlotsApart(sh, fewer, count); }
  }

  /** Where a record lies in the file. */
  lemma RowLies(sh: Shape, file: seq<byte>, count: nat, i: nat, at: nat)
    requires Reaches(sh, file, count) && i < count && at == sh.start + i * sh.size
    ensures at + sh.size <= |file| && RowAt(sh, file, count, i) == file[at..at + sh.size]
  {
    SlotsApart(sh, i, count);
  }

  // ---------------------------------------------------------------- the file header

  /** What the header page says besides sizes and count: the date is the one every change is stamped with. */
  datatype Stamp = Stamp(version: byte, date: seq<byte>, flags: byte, codePage: byte)

  /** The header in front of the field descriptors. */
  function HeaderBytes(stamp: Stamp, sh: Shape, count: nat): (h: seq<byte>)
    requires |stamp.date| == 3
    ensures |h| == HEADER
  {
    [stamp.version] + stamp.date + LeBytes(count, 4) + LeBytes(sh.start, 2) + LeBytes(sh.size, 2) + Zeros(16)
      + [stamp.flags, stamp.codePage] + Zeros(2)
  }

  /** A reader of the header learns the date, the number of records, where they start and how long they
      are: numbers are stored low byte first, from bytes 4, 8 and 10 on. */
  lemma HeaderTells(stamp: Stamp, sh: Shape, count: nat)
    requires |stamp.date| == 3 && count < TWO_32 && sh.start < 65536 && sh.size < 65536
    ensures var h := HeaderBytes(stamp, sh, count);
      && h[0] == stamp.version && h[1..4] == stamp.date && h[28] == stamp.flags && h[29] == stamp.codePage
      && (forall k :: 12 <= k < 28 || 30 <= k < 32 ==> h[k] == 0)
    ensures var h := HeaderBytes(stamp, sh, count);
      && count == h[4] + 0x100 * (h[5] as int) + 0x1_0000 * (h[6] as int) + 0x100_0000 * (h[7] as int)
      && sh.start == h[8] + 0x100 * (h[9] as int) && sh.size == h[10] + 0x100 * (h[11] as int)
  {
    hide Le, LeBytes;
    var h := HeaderBytes(stamp, sh, count);
    assert h[4..8] == LeBytes(count, 4) && h[8..10] == LeBytes(sh.start, 2) && h[10..12] == LeBytes(sh.size, 2);
    LeFour(h[4..8]);
    LePair(h[8..10]);
    LePair(h[10..12]);
    Le4(count);
    Le2(sh.start);
    Le2(sh.size);
  }

  /** Rewriting the header leaves the records alone, and what lies between. */
  lemma HeaderWritten(sh: Shape, file: seq<byte>, count: nat, h: seq<byte>)
    requires Reaches(sh, file, count) && |h| == HEADER <= sh.start
    ensures HEADER <= |file| && sh.start <= |file|
    ensures var now := Splice(file, 0, h);
      && Reaches(sh, now, count) && RowsOf(sh, now, count) == RowsOf(sh, file, count)
      && |now| == |file| && now[..HEADER] == h && now[HEADER..] == file[HEADER..]
  {
    hide Offset;
    StartInside(sh, count);
    var now := Splice(file, 0, h);
    forall i | 0 <= i < count ensures RowAt(sh, now, count, i) == RowAt(sh, file, count, i) {
      SlotsApart(sh, i, count);
      SpliceApart(file, 0, h, Offset(sh, i), sh.size);
    }
  }

  // ---------------------------------------------------------------- which records survive

  predicate Deleted(row: Row) {
    row != [] && row[0] == DELETED_MARKER
  }

  function Marked(row: Row, marker: byte): Row
    requires row != []
  {
    row[0 := marker]
  }

  /** The records that are not marked deleted, in order. */
  function Surviving(rows: seq<Row>): (r: seq<Row>)
    ensures |r| <= |rows|
  {
    if rows == [] then []
    else
      var n := |rows| - 1;
      Surviving(rows[..n]) + if Deleted(rows[n]) then [] else [rows[n]]
  }

  lemma {:induction false} SurvivingJoin(a: seq<Row>, b: seq<Row>)
    ensures Surviving(a + b) == Surviving(a) + Surviving(b)
  {
    if b == [] {
      assert a + b == a;
    } else {
      var n := |b| - 1;
      assert (a + b)[..|a| + n] == a + b[..n];
      SurvivingJoin(a, b[..n]);
    }
  }

  /** In bytes: no survivor begins with an asterisk, and every other record survives as often as it was there. */
  lemma {:induction false} SurvivorBytes(rows: seq<Row>)
    requires forall i :: 0 <= i < |rows| ==> rows[i] != []
    ensures forall k :: 0 <= k < |Surviving(rows)| ==> Surviving(rows)[k] != [] && Surviving(rows)[k][0] != 0x2A
    ensures forall x: Row :: x != [] ==> multiset(Surviving(rows))[x] == if x[0] == 0x2A then 0 else multiset(rows)[x]
  {
    if rows != [] {
      var n := |rows| - 1;
      SurvivorBytes(rows[..n]);
      assert rows == rows[..n] + [rows[n]];
    }
  }

  /** A survivor is found at its new number through the mapping, a marked record is not found; the order stays. */
  lemma MappedBytes(rows: seq<Row>, m: RecordMapping, i: nat)
    requires Maps(m, rows) && i < |rows| && rows[i] != []
    ensures m.Lookup(i + 1).None? <==> rows[i][0] == 0x2A
    ensures m.Lookup(i + 1).Some? ==>
      1 <= m.Lookup(i + 1).value <= |Surviving(rows)| && Surviving(rows)[m.Lookup(i + 1).value - 1] == rows[i]
    ensures forall j :: 1 <= j <= i && m.Lookup(j).Some? && m.Lookup(i + 1).Some? ==>
      m.Lookup(j).value < m.Lookup(i + 1).value
  {
    assert m.oldToNew[i] == NewNumber(rows, i);
    if !Deleted(rows[i]) {
      SurvivorMoves(rows, i);
      forall j | 1 <= j <= i && m.Lookup(j).Some? ensures m.Lookup(j).value < m.Lookup(i + 1).value {
        assert m.oldToNew[j - 1] == NewNumber(rows, j - 1);
        OrderKept(rows, j - 1, i);
      }
    }
  }

  /** Where record i (from 0) goes: its rank among the survivors, or 0. */
  function NewNumber(rows: seq<Row>, i: nat): nat
    requires i < |rows|
  {
    if Deleted(rows[i]) then 0 else |Surviving(rows[..i + 1])|
  }

  /** How record numbers moved. A new number of 0 stands for a removed record. */
  datatype RecordMapping = RecordMapping(oldToNew: seq<nat>, removed: nat, kept: nat) {
    function Lookup(recno: nat): Option<nat> {
      if recno == 0 || recno > |oldToNew| || oldToNew[recno - 1] == 0 then None else Some(oldToNew[recno - 1])
    }

    function OldCount(): nat { |oldToNew| }

    predicate Identity() { removed == 0 }
  }

  ghost predicate Maps(m: RecordMapping, rows: seq<Row>) {
    && |m.oldToNew| == |rows| && m.kept == |Surviving(rows)| && m.kept + m.removed == |rows|
    && forall i :: 0 <= i < |rows| ==> m.oldToNew[i] == NewNumber(rows, i)
  }

  lemma NoneSurvive(rows: seq<Row>)
    ensures Surviving(rows[..0]) == []
  {
  }

  lemma NextRecord(rows: seq<Row>, i: nat)
    requires i < |rows|
    ensures Surviving(rows[..i + 1]) == Surviving(rows[..i]) + if Deleted(rows[i]) then [] else [rows[i]]
    ensures NewNumber(rows, i) == if Deleted(rows[i]) then 0 else |Surviving(rows[..i])| + 1
  {
    assert rows[..i + 1][..i] == rows[..i];
  }

  lemma {:induction false} SurvivingPrefix(rows: seq<Row>, i: nat, j: nat)
    requires i <= j <= |rows|
    ensures Surviving(rows[..i]) <= Surviving(rows[..j])
  {
    if i < j {
      SurvivingPrefix(rows, i, j - 1);
      assert rows[..j][..j - 1] == rows[..j - 1];
    }
  }

  /** A survivor keeps its record, at its new number. */
  lemma SurvivorMoves(rows: seq<Row>, i: nat)
    requires i < |rows| && !Deleted(rows[i])
    ensures 1 <= NewNumber(rows, i) <= |Surviving(rows)| && NewNumber(rows, i) <= i + 1
    ensures Surviving(rows)[NewNumber(rows, i) - 1] == rows[i]
  {
    assert rows[..i + 1][..i] == rows[..i] && rows[..|rows|] == rows;
    SurvivingPrefix(rows, i + 1, |rows|);
  }

  /** Survivors keep their order, so no two share a new number. */
  lemma OrderKept(rows: seq<Row>, i: nat, j: nat)
    requires i < j < |rows| && !Deleted(rows[i]) && !Deleted(rows[j])
    ensures NewNumber(rows, i) < NewNumber(rows, j)
  {
    SurvivingPrefix(rows, i + 1, j);
    assert rows[..j + 1][..j] == rows[..j];
  }

  /** Every new number is taken by some survivor. */
  lemma {:induction false} EveryNumberTaken(rows: seq<Row>, k: nat) returns (i: nat)
    requires 1 <= k <= |Surviving(rows)|
    ensures i < |rows| && !Deleted(rows[i]) && NewNumber(rows, i) == k
  {
    var n := |rows| - 1;
    if k <= |Surviving(rows[..n])| {
      i := EveryNumberTaken(rows[..n], k);
      assert rows[..n][..i + 1] == rows[..i + 1];
    } else {
      i := n;
      assert rows[..n + 1] == rows;
    }
  }

  /** Nothing is removed exactly when all records survive where they are. */
  lemma {:induction false} IdentityMeans(rows: seq<Row>)
    ensures |Surviving(rows)| == |rows| <==> Surviving(rows) == rows
    ensures |Surviving(rows)| == |rows| <==> forall i :: 0 <= i < |rows| ==> !Deleted(rows[i])
  {
    if rows != [] {
      var n := |rows| - 1;
      IdentityMeans(rows[..n]);
      assert rows == rows[..n] + [rows[n]];
    }
  }

  // ---------------------------------------------------------------- the table

  class Table {
    const sh: Shape
    const stamp: Stamp
    const canTruncate: bool
    var file: seq<byte>
    var recordCount: nat

    ghost predicate Valid()
      reads this
    {
      sh.size > 0 && sh.start >= HEADER && |stamp.date| == 3 && Reaches(sh, file, recordCount)
    }

    /** The header is up to date, and what follows it is as it was. */
    ghost predicate Flushed(before: seq<byte>)
      requires Valid()
      reads this
    {
      && sh.start <= |file| && sh.start <= |before|
      && file[..HEADER] == HeaderBytes(stamp, sh, recordCount) && file[HEADER..sh.start] == before[HEADER..sh.start]
    }

    method FlushHeader()
      requires Valid()
      modifies this`file
      ensures Valid() && Flushed(old(file)) && Rows() == old(Rows()) && |file| == |old(file)|
      ensures file[HEADER..] == old(file)[HEADER..]
    {
      hide Offset, RowsOf, HeaderBytes;
      StartInside(sh, recordCount);
      HeaderWritten(sh, file, recordCount, HeaderBytes(stamp, sh, recordCount));
      file := Splice(file, 0, HeaderBytes(stamp, sh, recordCount));
      assert file[HEADER..sh.start] == file[HEADER..][..sh.start - HEADER];
    }

    ghost function Rows(): (rows: seq<Row>)
      requires Valid()
      reads this
      ensures |rows| == recordCount && forall i :: 0 <= i < |rows| ==> |rows[i]| == sh.size
    {
      RowsOf(sh, file, recordCount)
    }

    constructor (sh: Shape, stamp: Stamp, canTruncate: bool, file: seq<byte>, recordCount: nat)
      requires sh.size > 0 && sh.start >= HEADER && |stamp.date| == 3 && Reaches(sh, file, recordCount)
      ensures Valid() && this.sh == sh && this.stamp == stamp && this.file == file && this.recordCount == recordCount
    {
      this.sh, this.stamp, this.canTruncate, this.file, this.recordCount := sh, stamp, canTruncate, file, recordCount;
    }

    /** Record numbers count from 1. */
    method Get(recno: nat) returns (row: Option<Row>)
      requires Valid()
      ensures row == if 1 <= recno <= recordCount then Some(Rows()[recno - 1]) else None
      ensures row.Some? ==> var at := sh.start + (recno - 1) * sh.size;
        at + sh.size <= |file| && row.value == file[at..at + sh.size]
    {
      hide Offset, Reaches, RowAt, RowsOf;
      if recno == 0 || recno > recordCount {
        return None;
      }
      row := Some(RowAt(sh, file, recordCount, recno - 1));
      RowLies(sh, file, recordCount, recno - 1, sh.start + (recno - 1) * sh.size);
    }

    method Put(recno: nat, row: Row) returns (ok: bool)
      requires Valid() && |row| == sh.size
      modifies this
      ensures Valid() && ok == (1 <= recno <= recordCount) && recordCount == old(recordCount)
      ensures Rows() == if ok then old(Rows())[recno - 1 := row] else old(Rows())
      ensures if ok then Flushed(old(file)) else file == old(file)
    {
      hide Offset, RowsOf, HeaderBytes;
      if recno == 0 || recno > recordCount {
        return false;
      }
      RowWritten(sh, file, recordCount, recno - 1, 0, row);
      StartInside(sh, recno - 1);
      file := Splice(file, Offset(sh, recno - 1), row);
      Between(old(file), file, sh.start);
      FlushHeader();
      ok := true;
    }

    method SetDeletionMarker(recno: nat, marker: byte) returns (ok: bool)
      requires Valid()
      modifies this
      ensures Valid() && ok == (1 <= recno <= recordCount) && recordCount == old(recordCount)
      ensures Rows() == if ok then old(Rows())[recno - 1 := Marked(old(Rows())[recno - 1], marker)] else old(Rows())
      ensures if ok then Flushed(old(file)) else file == old(file)
    {
      hide Offset, RowsOf, HeaderBytes;
      if recno == 0 || recno > recordCount {
        return false;
      }
      RowWritten(sh, file, recordCount, recno - 1, 0, [marker]);
      ghost var row: Row := Rows()[recno - 1];
      assert Splice(row, 0, [marker]) == Marked(row, marker);
      StartInside(sh, recno - 1);
      file := Splice(file, Offset(sh, recno - 1), [marker]);
      Between(old(file), file, sh.start);
      FlushHeader();
      ok := true;
    }

    /** Adds a record behind the last one and restores the end-of-file mark. */
    method Append(row: Row) returns (recno: nat)
      requires Valid() && |row| == sh.size
      modifies this
      ensures Valid() && recno == recordCount == old(recordCount) + 1
      ensures Rows() == old(Rows()) + [row] && Flushed(old(file))
      ensures Offset(sh, recordCount) < |file| && file[Offset(sh, recordCount)] == 0x1A
    {
      hide Offset, RowsOf, HeaderBytes;
      recno := recordCount + 1;
      RowAppended(sh, file, recordCount, row, [TERMINATOR]);
      StartInside(sh, recordCount);
      ghost var end := Offset(sh, recno);
      file := Splice(file, Offset(sh, recordCount), row + [TERMINATOR]);
      assert file[end] == TERMINATOR;
      recordCount := recno;
      Between(old(file), file, sh.start);
      FlushHeader();
      assert file[end] == file[HEADER..][end - HEADER];
    }

    /** Which records survive, and the number each gets. */
    method Survey() returns (m: RecordMapping, survivors: seq<nat>)
      requires Valid()
      ensures Maps(m, Rows()) && |survivors| == m.kept
      ensures forall k :: 0 <= k < |survivors| ==>
        1 <= survivors[k] <= recordCount && !Deleted(Rows()[survivors[k] - 1])
          && NewNumber(Rows(), survivors[k] - 1) == k + 1
      ensures forall k :: 0 <= k < |survivors| ==>
        k + 1 <= survivors[k] && Surviving(Rows())[k] == Rows()[survivors[k] - 1]
    {
      hide Reaches, RowsOf, Surviving, NewNumber;
      ghost var rows := Rows();
      var oldToNew: seq<nat>, removed, kept, recno := [], 0, 0, 1;
      survivors := [];
      NoneSurvive(rows);
      while recno <= recordCount
        invariant 1 <= recno <= recordCount + 1 && |oldToNew| == recno - 1 && |survivors| == kept
        invariant kept == |Surviving(rows[..recno - 1])| && kept + removed == recno - 1
        invariant forall i :: 0 <= i < recno - 1 ==> oldToNew[i] == NewNumber(rows, i)
        invariant forall k :: 0 <= k < kept ==>
          1 <= survivors[k] < recno && !Deleted(rows[survivors[k] - 1]) && NewNumber(rows, survivors[k] - 1) == k + 1
      {
        var row := Get(recno);
        NextRecord(rows, recno - 1);
        if Deleted(row.value) {
          removed := removed + 1;
          oldToNew := oldToNew + [0];
        } else {
          survivors := survivors + [recno];
          kept := kept + 1;
          oldToNew := oldToNew + [kept];
        }
        recno := recno + 1;
      }
      assert rows[..recordCount] == rows;
      m := RecordMapping(oldToNew, removed, kept);
      forall k | 0 <= k < |survivors|
        ensures k + 1 <= survivors[k] && Surviving(rows)[k] == rows[survivors[k] - 1]
      {
        SurvivorMoves(rows, survivors[k] - 1);
      }
    }

    /** Copies the survivors forward. A record only moves to a lower slot, so what is still to be
        read has not been overwritten. */
    method Compact(survivors: seq<nat>)
      requires Valid() && |survivors| <= recordCount
      requires forall k :: 0 <= k < |survivors| ==> k + 1 <= survivors[k] <= recordCount
      requires forall j, k :: 0 <= j < k < |survivors| ==> survivors[j] < survivors[k]
      modifies this`file
      ensures Valid() && file[..sh.start] == old(file)[..sh.start] && |file| == |old(file)|
      ensures forall k :: 0 <= k < |survivors| ==> Rows()[k] == old(Rows())[survivors[k] - 1]
    {
      hide RowsOf, Offset, RowAt, Splice;
      var next := 0;
      StartInside(sh, recordCount);
      while next < |survivors|
        invariant next <= |survivors| && Valid()
        invariant sh.start <= |file| == |old(file)| && file[..sh.start] == old(file)[..sh.start]
        invariant forall k :: 0 <= k < next ==> Rows()[k] == old(Rows())[survivors[k] - 1]
        invariant forall k :: next <= k < recordCount ==> Rows()[k] == old(Rows())[k]
      {
        if survivors[next] != next + 1 {
          var buf := RowAt(sh, file, recordCount, survivors[next] - 1);
          assert buf == Rows()[survivors[next] - 1];
          RowWritten(sh, file, recordCount, next, 0, buf);
          file := Splice(file, Offset(sh, next), buf);
        }
        next := next + 1;
      }
    }

    /** Removes the deleted records in place and says how the others were renumbered. */
    method Pack() returns (m: RecordMapping)
      requires Valid()
      modifies this
      ensures Valid() && Maps(m, old(Rows())) && Rows() == Surviving(old(Rows())) && recordCount == m.kept
      ensures if m.Identity() then file == old(file) else Flushed(old(file))
      ensures !m.Identity() ==> Offset(sh, m.kept) < |file| && file[Offset(sh, m.kept)] == 0x1A
      ensures !m.Identity() && canTruncate ==> |file| == Offset(sh, m.kept) + 1
      ensures forall k :: 0 <= k < |Rows()| ==> Rows()[k][0] != 0x2A
      ensures forall x: Row :: x != [] ==> multiset(Rows())[x] == if x[0] == 0x2A then 0 else multiset(old(Rows()))[x]
      ensures forall i :: 0 <= i < |old(Rows())| ==>
        if old(Rows())[i][0] == 0x2A then m.Lookup(i + 1) == None
        else m.Lookup(i + 1).Some? && 1 <= m.Lookup(i + 1).value <= |Rows()|
             && Rows()[m.Lookup(i + 1).value - 1] == old(Rows())[i]
    {
      hide RowsOf, Offset, RowAt, Surviving, NewNumber, Reaches, Splice, HeaderBytes;
      ghost var rows := Rows();
      var survivors;
      m, survivors := Survey();
      IdentityMeans(rows);
      if m.Identity() {
        PackedBytes(rows, m);
        return;
      }
      forall j, k | 0 <= j < k < |survivors| ensures survivors[j] < survivors[k] {
        if survivors[k] < survivors[j] {
          OrderKept(rows, survivors[k] - 1, survivors[j] - 1);
        }
      }
      Compact(survivors);
      RowsShorter(sh, file, recordCount, m.kept);
      assert Rows()[..m.kept] == Surviving(rows);
      recordCount := m.kept;
      var end := Offset(sh, m.kept);
      StartInside(sh, m.kept);
      WrittenBehind(sh, file, m.kept, [TERMINATOR]);
      ghost var before := file;
      file := Splice(file, end, [TERMINATOR]);
      if canTruncate {
        TruncatedRows(sh, file, m.kept, end + 1);
        file := file[..end + 1];
      }
      Between(old(file), file, sh.start);
      ghost var mark := file[end];
      FlushHeader();
      assert file[end] == file[HEADER..][end - HEADER] == mark;
      PackedBytes(rows, m);
    }
  }

  lemma PackedBytes(rows: seq<Row>, m: RecordMapping)
    requires Maps(m, rows) && forall i :: 0 <= i < |rows| ==> rows[i] != []
    ensures forall k :: 0 <= k < |Surviving(rows)| ==> Surviving(rows)[k] != [] && Surviving(rows)[k][0] != 0x2A
    ensures forall x: Row :: x != [] ==> multiset(Surviving(rows))[x] == if x[0] == 0x2A then 0 else multiset(rows)[x]
    ensures forall i :: 0 <= i < |rows| ==>
      if rows[i][0] == 0x2A then m.Lookup(i + 1) == None
      else m.Lookup(i + 1).Some? && 1 <= m.Lookup(i + 1).value <= |Surviving(rows)|
           && Surviving(rows)[m.Lookup(i + 1).value - 1] == rows[i]
  {
    hide Maps;
    SurvivorBytes(rows);
    forall i | 0 <= i < |rows| ensures
      if rows[i][0] == 0x2A then m.Lookup(i + 1) == None
      else m.Lookup(i + 1).Some? && 1 <= m.Lookup(i + 1).value <= |Surviving(rows)|
           && Surviving(rows)[m.Lookup(i + 1).value - 1] == rows[i]
    {
      MappedBytes(rows, m, i);
    }
  }

  lemma Between(before: seq<byte>, now: seq<byte>, start: nat)
    requires HEADER <= start <= |before| && start <= |now| && now[..start] == before[..start]
    ensures now[HEADER..start] == before[HEADER..start]
  {
    assert now[HEADER..start] == now[..start][HEADER..] && before[HEADER..start] == before[..start][HEADER..];
  }

  lemma TruncatedRows(sh: Shape, file: seq<byte>, count: nat, len: nat)
    requires Reaches(sh, file, count) && Offset(sh, count) <= len <= |file|
    ensures Reaches(sh, file[..len], count) && RowsOf(sh, file[..len], count) == RowsOf(sh, file, count)
  {
    hide Offset;
    forall i | 0 <= i < count ensures RowAt(sh, file[..len], count, i) == RowAt(sh, file, count, i) {
      SlotsApart(sh, i, count);
    }
  }
}
