/** How PACK changes what an index should hold: entries of removed records go, entries of moved
    records are renumbered, all others stay. */
module PackEntries {
  import opened Entries
  import opened TableFile
  import opened KeyedRows
  import opened NtxIndex

  /** A survivor that changes its number, with the key its record has. */
  datatype Move = Move(key: seq<byte>, oldNo: nat, newNo: nat)

  /** The moves among the first n records. */
  ghost function Moves(fn: KeyFn, rows: seq<Row>, n: nat): seq<Move>
    requires n <= |rows|
  {
    if n == 0 then []
    else Moves(fn, rows, n - 1) +
         if Deleted(rows[n - 1]) || NewNumber(rows, n - 1) == n then []
         else [Move(KeyOf(fn, rows[n - 1]), n, NewNumber(rows, n - 1))]
  }

  /** Whether record i survives under another number. */
  predicate Moved(rows: seq<Row>, i: nat)
    requires i < |rows|
  {
    !Deleted(rows[i]) && NewNumber(rows, i) != i + 1
  }

  ghost predicate IsMove(fn: KeyFn, rows: seq<Row>, m: Move) {
    && 1 <= m.oldNo <= |rows| && Moved(rows, m.oldNo - 1)
    && m.newNo == NewNumber(rows, m.oldNo - 1) && m.key == KeyOf(fn, rows[m.oldNo - 1])
  }

  lemma {:induction false} MoveIs(fn: KeyFn, rows: seq<Row>, n: nat, m: Move)
    requires n <= |rows| && m in Moves(fn, rows, n)
    ensures IsMove(fn, rows, m) && m.oldNo <= n
  {
    if m in Moves(fn, rows, n - 1) {
      MoveIs(fn, rows, n - 1, m);
    }
  }

  lemma {:induction false} MoveListed(fn: KeyFn, rows: seq<Row>, n: nat, i: nat) returns (k: nat)
    requires i < n <= |rows| && Moved(rows, i)
    ensures k < |Moves(fn, rows, n)| && Moves(fn, rows, n)[k] == Move(KeyOf(fn, rows[i]), i + 1, NewNumber(rows, i))
  {
    if i == n - 1 {
      k := |Moves(fn, rows, n - 1)|;
    } else {
      k := MoveListed(fn, rows, n - 1, i);
    }
  }

  lemma {:induction false} MovesInOrder(fn: KeyFn, rows: seq<Row>, n: nat, j: nat, k: nat)
    requires n <= |rows| && j < k < |Moves(fn, rows, n)|
    ensures Moves(fn, rows, n)[j].oldNo < Moves(fn, rows, n)[k].oldNo
  {
    if k < |Moves(fn, rows, n - 1)| {
      MovesInOrder(fn, rows, n - 1, j, k);
    } else {
      MoveIs(fn, rows, n - 1, Moves(fn, rows, n - 1)[j]);
    }
  }

  /** The entries whose record number has no successor, in the order they are met. */
  ghost function Stale(s: seq<Entry>, m: RecordMapping): seq<Entry> {
    if s == [] then []
    else (if m.Lookup(s[0].recno) == None then [s[0]] else []) + Stale(s[1..], m)
  }

  lemma {:induction false} StaleFacts(s: seq<Entry>, m: RecordMapping)
    requires StrictlySorted(s)
    ensures forall x :: x in Stale(s, m) <==> x in s && m.Lookup(x.recno) == None
    ensures forall j, k :: 0 <= j < k < |Stale(s, m)| ==> Stale(s, m)[j] != Stale(s, m)[k]
  {
    if s != [] {
      StaleFacts(s[1..], m);
      assert s == [s[0]] + s[1..];
      forall x | x in s[1..] ensures x != s[0] {
        LessTotal(x, x);
      }
    }
  }

  lemma LookupMeans(m: RecordMapping, rows: seq<Row>, recno: nat)
    requires Maps(m, rows) && 1 <= recno <= |rows|
    ensures m.Lookup(recno) == if Deleted(rows[recno - 1]) then None else Some(NewNumber(rows, recno - 1))
  {
    assert m.oldToNew[recno - 1] == NewNumber(rows, recno - 1);
    if !Deleted(rows[recno - 1]) {
      SurvivorMoves(rows, recno - 1);
    }
  }

  // ---------------------------------------------------------------- sets

  ghost function SetOf(xs: seq<Entry>): set<Entry> {
    set x | x in xs
  }

  ghost function OldEntries(ix: Index, ms: seq<Move>): (r: seq<Entry>)
    ensures |r| == |ms| && forall k :: 0 <= k < |ms| ==> r[k] == Entry(ix.Pad(ms[k].key), ms[k].oldNo)
  {
    seq(|ms|, k requires 0 <= k < |ms| => Entry(ix.Pad(ms[k].key), ms[k].oldNo))
  }

  ghost function NewEntries(ix: Index, ms: seq<Move>): (r: seq<Entry>)
    ensures |r| == |ms| && forall k :: 0 <= k < |ms| ==> r[k] == Entry(ix.Pad(ms[k].key), ms[k].newNo)
  {
    seq(|ms|, k requires 0 <= k < |ms| => Entry(ix.Pad(ms[k].key), ms[k].newNo))
  }

  /** The entries of removed records. */
  ghost function Dead(ix: Index, fn: KeyFn, rows: seq<Row>): set<Entry> {
    set i | 0 <= i < |rows| && Deleted(rows[i]) :: EntryOf(ix, fn, rows[i], i + 1)
  }

  /** The entries of records that stay where they are. */
  ghost function Fixed(ix: Index, fn: KeyFn, rows: seq<Row>): set<Entry> {
    set i | 0 <= i < |rows| && !Deleted(rows[i]) && NewNumber(rows, i) == i + 1 :: EntryOf(ix, fn, rows[i], i + 1)
  }

  /** What the scan finds stale are the entries of removed records. */
  lemma StaleIsDead(ix: Index, fn: KeyFn, rows: seq<Row>, m: RecordMapping, s: seq<Entry>)
    requires Maps(m, rows) && Lists(s, EntrySet(ix, fn, rows))
    ensures SetOf(Stale(s, m)) == Dead(ix, fn, rows) <= EntrySet(ix, fn, rows)
    ensures forall j, k :: 0 <= j < k < |Stale(s, m)| ==> Stale(s, m)[j] != Stale(s, m)[k]
  {
    ListsStrictly(s, EntrySet(ix, fn, rows));
    StaleFacts(s, m);
    forall x | x in EntrySet(ix, fn, rows) ensures x in SetOf(Stale(s, m)) <==> x in Dead(ix, fn, rows) {
      ListsMember(s, EntrySet(ix, fn, rows), x);
      LookupMeans(m, rows, x.recno);
    }
    forall x | x in SetOf(Stale(s, m)) ensures x in EntrySet(ix, fn, rows) {
      ListsMember(s, EntrySet(ix, fn, rows), x);
    }
  }

  /** Live entries are those of fixed records and the old entries of moves. */
  lemma DropMoves(ix: Index, fn: KeyFn, rows: seq<Row>)
    ensures var live, old_ := EntrySet(ix, fn, rows) - Dead(ix, fn, rows), OldEntries(ix, Moves(fn, rows, |rows|));
      && SetOf(old_) <= live && live - SetOf(old_) == Fixed(ix, fn, rows)
      && forall j, k :: 0 <= j < k < |old_| ==> old_[j] != old_[k]
  {
    hide EntrySet, Dead, Fixed, Moves;
    var live, old_ := EntrySet(ix, fn, rows) - Dead(ix, fn, rows), OldEntries(ix, Moves(fn, rows, |rows|));
    forall x | x in SetOf(old_) ensures x in live && x !in Fixed(ix, fn, rows) {
      var k :| 0 <= k < |old_| && old_[k] == x;
      OldIsLive(ix, fn, rows, k);
    }
    forall x | x in live ensures x in Fixed(ix, fn, rows) || x in SetOf(old_) {
      LiveEntry(ix, fn, rows, x);
    }
    forall x | x in Fixed(ix, fn, rows) ensures x in live {
      FixedIsLive(ix, fn, rows, x);
    }
    forall j, k | 0 <= j < k < |old_| ensures old_[j] != old_[k] {
      MovesInOrder(fn, rows, |rows|, j, k);
    }
  }

  lemma OldIsLive(ix: Index, fn: KeyFn, rows: seq<Row>, k: nat)
    requires k < |Moves(fn, rows, |rows|)|
    ensures var x := OldEntries(ix, Moves(fn, rows, |rows|))[k];
      x in EntrySet(ix, fn, rows) && x !in Dead(ix, fn, rows) && x !in Fixed(ix, fn, rows)
  {
    var m := Moves(fn, rows, |rows|)[k];
    MoveIs(fn, rows, |rows|, m);
    assert EntryOf(ix, fn, rows[m.oldNo - 1], m.oldNo - 1 + 1) in EntrySet(ix, fn, rows);
  }

  lemma LiveEntry(ix: Index, fn: KeyFn, rows: seq<Row>, x: Entry)
    requires x in EntrySet(ix, fn, rows) && x !in Dead(ix, fn, rows)
    ensures x in Fixed(ix, fn, rows) || x in SetOf(OldEntries(ix, Moves(fn, rows, |rows|)))
  {
    var i :| 0 <= i < |rows| && x == EntryOf(ix, fn, rows[i], i + 1);
    if Moved(rows, i) {
      var k := MoveListed(fn, rows, |rows|, i);
      assert OldEntries(ix, Moves(fn, rows, |rows|))[k] == x;
    }
  }

  lemma FixedIsLive(ix: Index, fn: KeyFn, rows: seq<Row>, x: Entry)
    requires x in Fixed(ix, fn, rows)
    ensures x in EntrySet(ix, fn, rows) && x !in Dead(ix, fn, rows)
    ensures x in EntrySet(ix, fn, Surviving(rows))
  {
    NewEntryFits(ix, fn, rows, x.recno - 1);
  }

  /** Fixed entries and the new entries of moves are exactly the entries of the packed table. */
  lemma AddMoves(ix: Index, fn: KeyFn, rows: seq<Row>)
    ensures var new_ := NewEntries(ix, Moves(fn, rows, |rows|));
      && SetOf(new_) !! Fixed(ix, fn, rows) && Fixed(ix, fn, rows) + SetOf(new_) == EntrySet(ix, fn, Surviving(rows))
      && forall j, k :: 0 <= j < k < |new_| ==> new_[j] != new_[k]
  {
    hide EntrySet, Fixed, Moves, Surviving;
    var new_, packed := NewEntries(ix, Moves(fn, rows, |rows|)), EntrySet(ix, fn, Surviving(rows));
    forall x | x in SetOf(new_) ensures x in packed && x !in Fixed(ix, fn, rows) {
      var k :| 0 <= k < |new_| && new_[k] == x;
      NewIsPacked(ix, fn, rows, k);
    }
    forall x | x in Fixed(ix, fn, rows) ensures x in packed {
      FixedIsLive(ix, fn, rows, x);
    }
    forall x | x in packed ensures x in Fixed(ix, fn, rows) || x in SetOf(new_) {
      PackedEntry(ix, fn, rows, x);
    }
    forall j, k | 0 <= j < k < |new_| ensures new_[j] != new_[k] {
      NewInOrder(fn, rows, j, k);
    }
  }

  lemma NewInOrder(fn: KeyFn, rows: seq<Row>, j: nat, k: nat)
    requires j < k < |Moves(fn, rows, |rows|)|
    ensures Moves(fn, rows, |rows|)[j].newNo < Moves(fn, rows, |rows|)[k].newNo
  {
    var ms := Moves(fn, rows, |rows|);
    MoveIs(fn, rows, |rows|, ms[j]);
    MoveIs(fn, rows, |rows|, ms[k]);
    MovesInOrder(fn, rows, |rows|, j, k);
    OrderKept(rows, ms[j].oldNo - 1, ms[k].oldNo - 1);
  }

  lemma NewIsPacked(ix: Index, fn: KeyFn, rows: seq<Row>, k: nat)
    requires k < |Moves(fn, rows, |rows|)|
    ensures var x := NewEntries(ix, Moves(fn, rows, |rows|))[k];
      x in EntrySet(ix, fn, Surviving(rows)) && x !in Fixed(ix, fn, rows)
  {
    hide Moves, NewNumber, Surviving, EntrySet;
    var m := Moves(fn, rows, |rows|)[k];
    MoveIs(fn, rows, |rows|, m);
    NewEntryFits(ix, fn, rows, m.oldNo - 1);
    forall j | 0 <= j < |rows| && !Deleted(rows[j]) && NewNumber(rows, j) == j + 1 ensures m.newNo != j + 1 {
      NotFixed(rows, m.oldNo - 1, j);
    }
  }

  lemma PackedEntry(ix: Index, fn: KeyFn, rows: seq<Row>, x: Entry)
    requires x in EntrySet(ix, fn, Surviving(rows))
    ensures x in Fixed(ix, fn, rows) || x in SetOf(NewEntries(ix, Moves(fn, rows, |rows|)))
  {
    hide *;
    EntryInSet(ix, fn, Surviving(rows), x);
    var i := EveryNumberTaken(rows, x.recno);
    SurvivorMoves(rows, i);
    assert Surviving(rows)[x.recno - 1] == rows[i];
    assert x == EntryOf(ix, fn, rows[i], NewNumber(rows, i));
    SurvivorListed(ix, fn, rows, i, x);
  }

  lemma SurvivorListed(ix: Index, fn: KeyFn, rows: seq<Row>, i: nat, x: Entry)
    requires i < |rows| && !Deleted(rows[i]) && x == EntryOf(ix, fn, rows[i], NewNumber(rows, i))
    ensures x in Fixed(ix, fn, rows) || x in SetOf(NewEntries(ix, Moves(fn, rows, |rows|)))
  {
    hide Moves, NewNumber;
    if Moved(rows, i) {
      var k := MoveListed(fn, rows, |rows|, i);
      assert NewEntries(ix, Moves(fn, rows, |rows|))[k] == EntryOf(ix, fn, rows[i], NewNumber(rows, i));
    }
  }

  lemma EntryInSet(ix: Index, fn: KeyFn, rows: seq<Row>, x: Entry)
    requires x in EntrySet(ix, fn, rows)
    ensures 1 <= x.recno <= |rows| && x == EntryOf(ix, fn, rows[x.recno - 1], x.recno)
  {
  }

  lemma NewEntryFits(ix: Index, fn: KeyFn, rows: seq<Row>, i: nat)
    requires i < |rows| && !Deleted(rows[i])
    ensures EntryOf(ix, fn, rows[i], NewNumber(rows, i)) in EntrySet(ix, fn, Surviving(rows))
  {
    SurvivorMoves(rows, i);
    var n := NewNumber(rows, i);
    assert EntryOf(ix, fn, Surviving(rows)[n - 1], n - 1 + 1) in EntrySet(ix, fn, Surviving(rows));
  }

  /** A moved record does not take the number of one that stays. */
  lemma NotFixed(rows: seq<Row>, i: nat, j: nat)
    requires i < |rows| && j < |rows| && !Deleted(rows[i]) && !Deleted(rows[j])
    requires NewNumber(rows, i) != i + 1 && NewNumber(rows, j) == j + 1
    ensures NewNumber(rows, i) != j + 1
  {
    if i < j {
      OrderKept(rows, i, j);
    } else if j < i {
      OrderKept(rows, j, i);
    }
  }

  lemma PackedFits(ix: Index, fn: KeyFn, rows: seq<Row>)
    requires AllFit(ix, fn, rows)
    ensures AllFit(ix, fn, Surviving(rows))
  {
    forall k | 0 <= k < |Surviving(rows)| ensures |KeyOf(fn, Surviving(rows)[k])| <= ix.lay.keySize {
      var i := EveryNumberTaken(rows, k + 1);
      SurvivorMoves(rows, i);
    }
  }
}
