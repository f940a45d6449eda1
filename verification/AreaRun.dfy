/** Whole runs over a work area: whatever script of record changes and PACKs ran, every index that
    was maintained along the way is the index a rebuild over the final table would give. */
module AreaRun {
  import opened Entries
  import opened TableFile
  import opened KeyedRows
  import opened NtxIndex
  import opened WorkArea
  import NtxQuery

  datatype Op =
    | Add(row: Row)
    | Change(recno: nat, row: Row)
    | Flag(recno: nat, marker: byte)
    | Squeeze
    | Move(distance: int)

  /** The records after one operation; a record number outside the table changes nothing. */
  ghost function Step(rows: seq<Row>, op: Op): seq<Row> {
    match op
    case Add(row) => rows + [row]
    case Change(n, row) => if 1 <= n <= |rows| then rows[n - 1 := row] else rows
    case Flag(n, marker) => if 1 <= n <= |rows| && rows[n - 1] != [] then rows[n - 1 := Marked(rows[n - 1], marker)]
      else rows
    case Squeeze => Surviving(rows)
    case Move(_) => rows
  }

  ghost function Replay(rows: seq<Row>, ops: seq<Op>): seq<Row> {
    if ops == [] then rows else Step(Replay(rows, ops[..|ops| - 1]), ops[|ops| - 1])
  }

  /** Marking a record with an asterisk and packing loses that record and no other; marking it with a space
      and packing keeps it, unmarked. */
  lemma MarkedIsLost(rows: seq<Row>, n: nat)
    requires 1 <= n <= |rows| && rows[n - 1] != []
    ensures Replay(rows, [Flag(n, 0x2A), Squeeze]) == Replay(rows[..n - 1], [Squeeze]) + Replay(rows[n..], [Squeeze])
    ensures var space: byte := 0x20;
      Replay(rows, [Flag(n, space), Squeeze])
      == Replay(rows[..n - 1], [Squeeze]) + [[space] + rows[n - 1][1..]] + Replay(rows[n..], [Squeeze])
  {
    hide Replay, Surviving;
    FlagThenSqueeze(rows, n, 0x2A);
    FlagThenSqueeze(rows, n, 0x20);
  }

  lemma FlagThenSqueeze(rows: seq<Row>, n: nat, marker: byte)
    requires 1 <= n <= |rows| && rows[n - 1] != []
    ensures Replay(rows, [Flag(n, marker), Squeeze])
      == Replay(rows[..n - 1], [Squeeze]) + (if marker == 0x2A then [] else [[marker] + rows[n - 1][1..]])
         + Replay(rows[n..], [Squeeze])
  {
    hide Replay, Surviving;
    var x: Row := [marker] + rows[n - 1][1..];
    TwoSteps(rows, Flag(n, marker), Squeeze);
    OneStep(rows[..n - 1], Squeeze);
    OneStep(rows[n..], Squeeze);
    assert Marked(rows[n - 1], marker) == x;
    assert rows[n - 1 := x] == rows[..n - 1] + ([x] + rows[n..]);
    SurvivingJoin(rows[..n - 1], [x] + rows[n..]);
    SurvivingJoin([x], rows[n..]);
    OneSurvives(x);
  }

  lemma OneSurvives(x: Row)
    requires x != []
    ensures Surviving([x]) == if x[0] == 0x2A then [] else [x]
  {
    assert [x][..0] == [];
  }

  lemma OneStep(rows: seq<Row>, op: Op)
    ensures Replay(rows, [op]) == Step(rows, op)
  {
    assert [op][..0] == [];
  }

  lemma TwoSteps(rows: seq<Row>, op: Op, next: Op)
    ensures Replay(rows, [op, next]) == Step(Step(rows, op), next)
  {
    assert [op, next][..1] == [op];
    OneStep(rows, op);
  }

  /** Rows have the record length, as the record encoder makes them. */
  ghost predicate Encoded(a: Area, op: Op)
    reads a
  {
    op.Add? || op.Change? ==> |op.row| == a.table.sh.size
  }

  /** No key of the operation is too long for its index. */
  ghost predicate Usable(indexes: seq<Attached>, op: Op, count: nat) {
    op.Add? || (op.Change? && 1 <= op.recno <= count) ==>
      forall i :: 0 <= i < |indexes| ==> |KeyOf(indexes[i].keyFn, op.row)| <= indexes[i].index.lay.keySize
  }

  /** What a key that is too long leaves behind: the record is written, the indexes before the first
      misfit know it, the others do not, and a replacement has also lost the record's old entry there. */
  ghost predicate HalfDone(a: Area, op: Op, before: seq<Row>)
    requires op.Add? || op.Change?
    reads a, a.Objects()
  {
    var k := FirstMisfit(a.indexes, op.row, 0);
    forall j :: 0 <= j < |a.indexes| ==>
      if op.Change? && j == k then LacksOne(a.indexes[j], before, op.recno)
      else InAgreement(a.indexes[j], if j < k then Step(before, op) else before)
  }

  /** One operation. A key that is too long stops it halfway. */
  method Do(a: Area, op: Op) returns (ok: bool)
    requires a.Valid() && Encoded(a, op)
    modifies a`recno, a`atEOF, a`atBOF, a.table, a.Objects()
    ensures ok <==> Usable(a.indexes, op, old(a.table.recordCount))
    ensures a.Wired() && a.table.Rows() == Step(old(a.table.Rows()), op)
    ensures if ok then a.Valid() else (op.Add? || op.Change?) && HalfDone(a, op, old(a.table.Rows()))
  {
    hide InAgreement, Ready, KeyOf, Surviving, RowsOf, LacksOne, FirstMisfit;
    ok := true;
    match op {
      case Add(row) =>
        var n;
        n, ok := a.Append(row);
      case Change(n, row) =>
        var there := a.GoTo(n);
        if there {
          ok := a.Replace(row);
        }
      case Flag(n, marker) =>
        var there := a.GoTo(n);
        if there {
          var marked := a.Mark(marker);
        }
      case Squeeze =>
        var m := a.Pack();
      case Move(n) =>
        Walk(a, n);
    }
  }

  /** Skip from wherever the pointer stands: it always stands somewhere. */
  method Walk(a: Area, n: int)
    requires a.Valid()
    modifies a`recno, a`atEOF, a`atBOF
    ensures a.Valid() && (n == 0 ==> a.recno == old(a.recno))
  {
    ghost var p := 0;
    if a.recno > 0 {
      p := a.Place();
    }
    a.Skip(n, p);
  }

  /** A script, up to the first key that is too long; done says how many operations went through. The
      records are those of the script so far, the one operation that stopped halfway included. */
  method Run(a: Area, ops: seq<Op>) returns (done: nat)
    requires a.Valid() && forall i :: 0 <= i < |ops| ==> Encoded(a, ops[i])
    modifies a`recno, a`atEOF, a`atBOF, a.table, a.Objects()
    ensures done <= |ops| && a.Wired()
    ensures done == |ops| ==> a.Valid() && a.table.Rows() == Replay(old(a.table.Rows()), ops)
    ensures done < |ops| ==>
      && a.table.Rows() == Replay(old(a.table.Rows()), ops[..done + 1]) && (ops[done].Add? || ops[done].Change?)
      && HalfDone(a, ops[done], Replay(old(a.table.Rows()), ops[..done]))
    ensures done == |ops| <==>
      forall i :: 0 <= i < |ops| ==> Usable(a.indexes, ops[i], |Replay(old(a.table.Rows()), ops[..i])|)
  {
    hide Step, Usable, HalfDone;
    ghost var rows := a.table.Rows();
    done := 0;
    while done < |ops|
      invariant done <= |ops| && a.Valid() && a.table.Rows() == Replay(rows, ops[..done])
      invariant forall i :: 0 <= i < done ==> Usable(a.indexes, ops[i], |Replay(rows, ops[..i])|)
    {
      assert ops[..done + 1][..done] == ops[..done];
      var ok := Do(a, ops[done]);
      if !ok {
        return;
      }
      done := done + 1;
    }
    assert ops[..done] == ops;
  }

  /** Building index i afresh over the table gives what the area already has. */
  method Rebuilt(a: Area, i: nat) returns (ix: Index)
    requires a.Valid() && i < |a.indexes| && 1 <= a.indexes[i].index.lay.keySize <= 245
    ensures fresh(ix) && ix.Contents() == a.indexes[i].index.Contents()
  {
    ghost var rows := a.table.Rows();
    ix := Blank(a.indexes[i].index.lay.keySize);
    var ok := Fill(ix, a, i);
    AgreementIsUnique(Attached(ix, a.indexes[i].keyFn), a.indexes[i], rows);
  }

  method Blank(keySize: nat) returns (ix: Index)
    requires 1 <= keySize <= 245
    ensures fresh(ix) && Carries(ix, {}) && ix.lay.keySize == keySize
  {
    hide Index.Valid, Index.Contents, Index.Tight;
    ix := new Index(keySize, false);
    NtxQuery.PageHoldsTwo(keySize);
    NothingListed(ix);
  }

  method Fill(ix: Index, a: Area, i: nat) returns (ok: bool)
    requires a.Valid() && i < |a.indexes| && ix !in a.Objects()
    requires Carries(ix, {}) && ix.lay.keySize == a.indexes[i].index.lay.keySize
    modifies ix
    ensures ok && a.Valid() && InAgreement(Attached(ix, a.indexes[i].keyFn), a.table.Rows())
  {
    hide Carries, Lists, EntrySet, Ready, KeyOf, Table.Valid, RowsOf;
    assert InAgreement(a.indexes[i], a.table.Rows());
    ok := Build(ix, a.table, a.indexes[i].keyFn);
  }
}
