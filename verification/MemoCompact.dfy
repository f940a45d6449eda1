/** Memo compaction: live memos are copied to a fresh file and the pointers in the table follow. */
module MemoCompact {
  import opened Entries
  import opened Bytes
  import opened MemoPointer
  import opened TableFile
  import opened MemoFields

  /** Where memo blocks went; a block that is not listed was not carried over. */
  datatype BlockMapping = BlockMapping(oldToNew: map<nat, nat>, kept: nat, dropped: nat) {
    function Lookup(old_: nat): Option<nat> {
      if old_ == 0 || old_ !in oldToNew then None else Some(oldToNew[old_])
    }

    predicate Identity() {
      dropped == 0 && forall b :: b in oldToNew ==> oldToNew[b] == b
    }

    ghost predicate Narrow() {
      forall b :: b in oldToNew ==> oldToNew[b] < TWO_32
    }
  }

  /** What becomes of a pointer. */
  function Moved(p: Pointer, m: BlockMapping): Pointer {
    match p
    case Present(b) => if m.Lookup(b).None? || m.Lookup(b).value == 0 then Absent else Present(m.Lookup(b).value)
    case _ => p
  }

  // ---------------------------------------------------------------- rewriting pointers

  function RepointField(row: Row, at: nat, m: BlockMapping): (r: Row)
    requires at + FIELD_WIDTH <= |row| && m.Narrow()
    ensures |r| == |row|
  {
    match PointerOf(row, at)
    case Present(b) =>
      if m.Lookup(b).None? then Splice(row, at, Field(0))
      else if m.Lookup(b).value != b then Splice(row, at, Field(m.Lookup(b).value))
      else row
    case _ => row
  }

  /** The record after its first n memo fields were rewritten. */
  function Repointed(row: Row, size: nat, fields: seq<nat>, n: nat, m: BlockMapping): (r: Row)
    requires |row| == size && FieldsOk(size, fields) && n <= |fields| && m.Narrow()
    ensures |r| == |row|
  {
    if n == 0 then row else RepointField(Repointed(row, size, fields, n - 1, m), fields[n - 1], m)
  }

  /** Some memo pointer of the record changes. */
  predicate Touched(row: Row, size: nat, fields: seq<nat>, m: BlockMapping)
    requires |row| == size && FieldsOk(size, fields)
  {
    exists f :: 0 <= f < |fields| && Moves(PointerOf(row, fields[f]), m)
  }

  predicate Moves(p: Pointer, m: BlockMapping) {
    p.Present? && m.Lookup(p.block) != Some(p.block)
  }

  /** The record after the rewriting: written back, with its pointers moved, if one of them changed. */
  ghost predicate IsRewritten(row: Row, row2: Row, size: nat, fields: seq<nat>, codec: Codec, m: BlockMapping)
    requires |row| == size && Respects(codec, size, fields) && m.Narrow()
  {
    if m.Identity() || !Touched(row, size, fields, m) then row2 == row
    else codec.recode(row).Some? && row2 == Repointed(codec.recode(row).value, size, fields, |fields|, m)
  }

  /** The record decodes, and encodes again if it has to be written. */
  ghost predicate Rewritable(row: Row, size: nat, fields: seq<nat>, codec: Codec, m: BlockMapping)
    requires |row| == size && FieldsOk(size, fields)
  {
    codec.decodes(row) && (Touched(row, size, fields, m) ==> codec.recode(row).Some?)
  }

  /** Nothing has to be read, or every record can be rewritten. */
  ghost predicate AllRewritable(rows: seq<Row>, size: nat, fields: seq<nat>, codec: Codec, m: BlockMapping)
    requires FieldsOk(size, fields) && forall r :: 0 <= r < |rows| ==> |rows[r]| == size
  {
    m.Identity() || fields == [] || forall r :: 0 <= r < |rows| ==> Rewritable(rows[r], size, fields, codec, m)
  }

  predicate InField(i: nat, fields: seq<nat>) {
    exists f :: 0 <= f < |fields| && fields[f] <= i < fields[f] + FIELD_WIDTH
  }

  lemma RepointFieldFacts(row: Row, at: nat, m: BlockMapping)
    requires at + FIELD_WIDTH <= |row| && m.Narrow()
    ensures PointerOf(RepointField(row, at, m), at) == Moved(PointerOf(row, at), m)
    ensures forall b: nat :: b + FIELD_WIDTH <= |row| && Clear(at, b) ==>
      FieldOf(RepointField(row, at, m), b) == FieldOf(row, b)
    ensures forall i :: 0 <= i < |row| && !(at <= i < at + FIELD_WIDTH) ==> RepointField(row, at, m)[i] == row[i]
  {
    hide Parse, Field;
    ParseRange(FieldOf(row, at));
    var p := PointerOf(row, at);
    if p.Present? {
      PointerRoundTrip(0);
      if m.Lookup(p.block).Some? {
        PointerRoundTrip(m.Lookup(p.block).value);
      }
    }
    var r := RepointField(row, at, m);
    forall b: nat | b + FIELD_WIDTH <= |row| && Clear(at, b) ensures FieldOf(r, b) == FieldOf(row, b) {
      assert forall i :: b <= i < b + FIELD_WIDTH ==> r[i] == row[i];
    }
  }

  /** Every rewritten field holds the moved pointer; nothing outside the memo fields changes. */
  lemma {:induction false} RepointedFacts(row: Row, size: nat, fields: seq<nat>, n: nat, m: BlockMapping)
    requires |row| == size && FieldsOk(size, fields) && n <= |fields| && m.Narrow()
    ensures forall f :: 0 <= f < n ==>
      PointerOf(Repointed(row, size, fields, n, m), fields[f]) == Moved(PointerOf(row, fields[f]), m)
    ensures forall f :: n <= f < |fields| ==>
      FieldOf(Repointed(row, size, fields, n, m), fields[f]) == FieldOf(row, fields[f])
    ensures forall i: nat :: i < |row| && !InField(i, fields) ==> Repointed(row, size, fields, n, m)[i] == row[i]
  {
    hide Parse, RepointField, Moved;
    if n > 0 {
      RepointedFacts(row, size, fields, n - 1, m);
      RepointFieldFacts(Repointed(row, size, fields, n - 1, m), fields[n - 1], m);
    }
  }

  /** Rewrites the memo fields of every record; records without a change are not written. It stops at
      the first record that does not decode, or has to be written and does not encode. */
  method RewriteMemoPointers(t: Table, fields: seq<nat>, codec: Codec, m: BlockMapping) returns (done: nat)
    requires t.Valid() && Respects(codec, t.sh.size, fields) && m.Narrow()
    modifies t
    ensures t.Valid() && done <= t.recordCount == old(t.recordCount)
    ensures done == t.recordCount <==> AllRewritable(old(t.Rows()), t.sh.size, fields, codec, m)
    ensures forall r :: 0 <= r < done ==> IsRewritten(old(t.Rows())[r], t.Rows()[r], t.sh.size, fields, codec, m)
    ensures forall r :: done <= r < |t.Rows()| ==> t.Rows()[r] == old(t.Rows())[r]
  {
    hide Repointed, Table.Valid, RowsOf, Respects, Touched;
    CodecFits(codec, t.sh.size, fields);
    ghost var rows := t.Rows();
    if m.Identity() || fields == [] {
      NothingTouched(rows, t.sh.size, fields, m);
      return t.recordCount;
    }
    done := 0;
    while done < t.recordCount
      invariant done <= t.recordCount == |rows| && t.Valid()
      invariant forall r :: 0 <= r < done ==> Rewritable(rows[r], t.sh.size, fields, codec, m)
      invariant forall r :: 0 <= r < done ==> IsRewritten(rows[r], t.Rows()[r], t.sh.size, fields, codec, m)
      invariant forall r :: done <= r < |rows| ==> t.Rows()[r] == rows[r]
    {
      var rec := t.Get(done + 1);
      if !codec.decodes(rec.value) {
        return;
      }
      var base := codec.recode(rec.value);
      SamePointers(codec, t.sh.size, fields, rec.value);
      var row, changed := RewriteRecord(rec.value, base.UnwrapOr(rec.value), t.sh.size, fields, m);
      if changed {
        if base.None? {
          return;
        }
        var ok := t.Put(done + 1, row);
      }
      done := done + 1;
    }
  }

  lemma CodecFits(codec: Codec, size: nat, fields: seq<nat>)
    requires Respects(codec, size, fields)
    ensures FieldsOk(size, fields)
  {
  }

  lemma SamePointers(codec: Codec, size: nat, fields: seq<nat>, row: Row)
    requires Respects(codec, size, fields) && |row| == size
    ensures var base := codec.recode(row).UnwrapOr(row);
      |base| == size && forall f :: 0 <= f < |fields| ==> PointerOf(base, fields[f]) == PointerOf(row, fields[f])
  {
  }

  lemma NothingTouched(rows: seq<Row>, size: nat, fields: seq<nat>, m: BlockMapping)
    requires FieldsOk(size, fields) && forall r :: 0 <= r < |rows| ==> |rows[r]| == size
    ensures fields == [] ==> forall r :: 0 <= r < |rows| ==> !Touched(rows[r], size, fields, m)
  {
  }

  /** Looks at the pointers of the record that was read, and puts the moved ones into what is written. */
  method RewriteRecord(rec: Row, base: Row, size: nat, fields: seq<nat>, m: BlockMapping)
    returns (row: Row, changed: bool)
    requires |rec| == |base| == size && FieldsOk(size, fields) && m.Narrow()
    requires forall f :: 0 <= f < |fields| ==> PointerOf(base, fields[f]) == PointerOf(rec, fields[f])
    ensures row == Repointed(base, size, fields, |fields|, m) && (changed <==> Touched(rec, size, fields, m))
  {
    hide Parse, Field, FieldOf;
    row, changed := base, false;
    var f := 0;
    while f < |fields|
      invariant f <= |fields| && row == Repointed(base, size, fields, f, m)
      invariant changed <==> exists g :: 0 <= g < f && Moves(PointerOf(rec, fields[g]), m)
    {
      var p := PointerOf(rec, fields[f]);
      ParseRange(FieldOf(rec, fields[f]));
      RepointedFacts(base, size, fields, f, m);
      assert PointerOf(row, fields[f]) == p;
      if p.Present? {
        var new_ := m.Lookup(p.block);
        if new_.None? {
          var blank := Format(0);
          row, changed := Splice(row, fields[f], blank[..]), true;
        } else if new_.value != p.block {
          var text := Format(new_.value);
          row, changed := Splice(row, fields[f], text[..]), true;
        }
      }
      f := f + 1;
    }
  }

  // ---------------------------------------------------------------- what a record's memo reads as

  datatype Reading<T> = NoMemo | BadPointer | Unreadable | Memo(content: T)

  ghost function Read<T>(row: Row, at: nat, get: nat -> Option<T>): Reading<T>
    requires at + FIELD_WIDTH <= |row|
  {
    match PointerOf(row, at)
    case Absent => NoMemo
    case Malformed => BadPointer
    case Present(b) => if get(b).None? then Unreadable else Memo(get(b).value)
  }

  /** Every memo field of every record reads the same on both sides. */
  ghost predicate SameReadings<T>(size: nat, fields: seq<nat>, rows: seq<Row>, get: nat -> Option<T>,
                                  rows2: seq<Row>, get2: nat -> Option<T>)
    requires FieldsOk(size, fields)
  {
    && |rows| == |rows2|
    && (forall r :: 0 <= r < |rows| ==> |rows[r]| == |rows2[r]| == size)
    && forall r, f :: 0 <= r < |rows| && 0 <= f < |fields| ==>
       Read(rows[r], fields[f], get) == Read(rows2[r], fields[f], get2)
  }

  /** Each live block was carried to a block that reads the same. */
  ghost predicate Carried<T>(size: nat, fields: seq<nat>, rows: seq<Row>, m: BlockMapping,
                             get: nat -> Option<T>, get2: nat -> Option<T>)
    requires FieldsOk(size, fields) && forall r :: 0 <= r < |rows| ==> |rows[r]| == size
  {
    forall b :: Live(rows, size, fields, b) ==>
      b in m.oldToNew && 0 < m.oldToNew[b] < TWO_32 && get2(m.oldToNew[b]) == get(b)
  }

  /** Moved pointers into the new file read what the old ones read in the old file. */
  lemma RewritePreserves<T>(size: nat, fields: seq<nat>, rows: seq<Row>, rows2: seq<Row>, codec: Codec,
                            m: BlockMapping, get: nat -> Option<T>, get2: nat -> Option<T>)
    requires Respects(codec, size, fields) && m.Narrow() && |rows2| == |rows|
    requires forall r :: 0 <= r < |rows| ==> |rows[r]| == size
    requires forall r :: 0 <= r < |rows| ==> IsRewritten(rows[r], rows2[r], size, fields, codec, m)
    requires Carried(size, fields, rows, m, get, get2)
    ensures SameReadings(size, fields, rows, get, rows2, get2)
  {
    hide Parse, Repointed;
    forall r, f | 0 <= r < |rows| && 0 <= f < |fields|
      ensures |rows2[r]| == size && Read(rows[r], fields[f], get) == Read(rows2[r], fields[f], get2)
    {
      ReadingKept(size, fields, rows, r, f, rows2[r], codec, m, get, get2);
    }
  }

  lemma ReadingKept<T>(size: nat, fields: seq<nat>, rows: seq<Row>, r: nat, f: nat, row2: Row, codec: Codec,
                       m: BlockMapping, get: nat -> Option<T>, get2: nat -> Option<T>)
    requires Respects(codec, size, fields) && m.Narrow() && r < |rows| && f < |fields|
    requires forall q :: 0 <= q < |rows| ==> |rows[q]| == size
    requires IsRewritten(rows[r], row2, size, fields, codec, m)
    requires Carried(size, fields, rows, m, get, get2)
    ensures |row2| == size && Read(rows[r], fields[f], get) == Read(row2, fields[f], get2)
  {
    hide Parse, Repointed, Respects, FieldOf;
    CodecFits(codec, size, fields);
    SamePointers(codec, size, fields, rows[r]);
    PointerMoved(rows[r], row2, size, fields, f, codec, m);
    var p := PointerOf(rows[r], fields[f]);
    ParseRange(FieldOf(rows[r], fields[f]));
    if p.Present? {
      assert Live(rows, size, fields, p.block);
    }
  }

  /** However a record was rewritten, each pointer is the moved one. */
  lemma PointerMoved(row: Row, row2: Row, size: nat, fields: seq<nat>, f: nat, codec: Codec, m: BlockMapping)
    requires |row| == size && Respects(codec, size, fields) && m.Narrow() && f < |fields|
    requires IsRewritten(row, row2, size, fields, codec, m)
    ensures |row2| == size
    ensures PointerOf(row2, fields[f]) == Moved(PointerOf(row, fields[f]), m)
            || (m.Identity() && PointerOf(row2, fields[f]) == PointerOf(row, fields[f]))
  {
    hide Parse, Repointed, FieldOf, Respects;
    CodecFits(codec, size, fields);
    SamePointers(codec, size, fields, row);
    ParseRange(FieldOf(row, fields[f]));
    if !m.Identity() {
      if Touched(row, size, fields, m) {
        RepointedFacts(codec.recode(row).value, size, fields, |fields|, m);
      } else {
        assert !Moves(PointerOf(row, fields[f]), m);
      }
    }
  }
}
