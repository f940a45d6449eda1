/** Memo pointers inside the records of a table: which blocks are live, and how pointers are rewritten. */
module MemoFields {
  import opened Entries
  import opened Bytes
  import opened Decimal
  import opened MemoPointer
  import opened TableFile

  /** The memo fields of a table, by their offset in a record: behind the deletion mark, inside the
      record, and not overlapping. */
  ghost predicate FieldsOk(size: nat, fields: seq<nat>) {
    && (forall f :: 0 <= f < |fields| ==> 1 <= fields[f] && fields[f] + FIELD_WIDTH <= size)
    && forall f, g :: 0 <= f < |fields| && 0 <= g < |fields| && f != g ==> Clear(fields[f], fields[g])
  }

  predicate Clear(a: nat, b: nat) {
    a + FIELD_WIDTH <= b || b + FIELD_WIDTH <= a
  }

  function FieldOf(row: Row, at: nat): seq<byte>
    requires at + FIELD_WIDTH <= |row|
  {
    row[at..at + FIELD_WIDTH]
  }

  function PointerOf(row: Row, at: nat): Pointer
    requires at + FIELD_WIDTH <= |row|
  {
    Parse(FieldOf(row, at))
  }

  // ---------------------------------------------------------------- reading and writing records

  /** Reading a record and writing it back: which records decode, and what the encoder makes of one. */
  datatype Codec = Codec(decodes: Row -> bool, recode: Row -> Option<Row>)

  /** A record comes back with its length and its memo pointers, whatever form its other fields had. */
  ghost predicate Respects(codec: Codec, size: nat, fields: seq<nat>) {
    && FieldsOk(size, fields)
    && forall row: Row :: |row| == size && codec.recode(row).Some? ==>
      && codec.decodes(row) && |codec.recode(row).value| == size
      && forall f :: 0 <= f < |fields| ==> PointerOf(codec.recode(row).value, fields[f]) == PointerOf(row, fields[f])
  }

  /** A record in the form the encoder itself would write. */
  predicate InEncodedForm(codec: Codec, row: Row) {
    codec.recode(row) == Some(row)
  }

  /** A table without memo fields is not looked through. */
  ghost predicate AllDecode(codec: Codec, fields: seq<nat>, rows: seq<Row>) {
    fields == [] || forall r :: 0 <= r < |rows| ==> codec.decodes(rows[r])
  }

  // ---------------------------------------------------------------- live blocks

  /** Some record points at the block. */
  ghost predicate Live(rows: seq<Row>, size: nat, fields: seq<nat>, block: nat)
    requires FieldsOk(size, fields) && forall r :: 0 <= r < |rows| ==> |rows[r]| == size
  {
    exists r, f :: 0 <= r < |rows| && 0 <= f < |fields| && PointerOf(rows[r], fields[f]) == Present(block)
  }

  /** In bytes: a block is live if and only if the ten bytes of some memo field are the digits of its number
      between blanks. */
  lemma FieldIsLive(rows: seq<Row>, size: nat, fields: seq<nat>, r: nat, f: nat, j: nat, d: seq<byte>, k: nat)
    requires FieldsOk(size, fields) && (forall q :: 0 <= q < |rows| ==> |rows[q]| == size)
    requires r < |rows| && f < |fields| && rows[r][fields[f]..fields[f] + 10] == Repeat(0x20, j) + d + Repeat(0x20, k)
    requires d != [] && (forall i :: 0 <= i < |d| ==> 0x30 <= d[i] <= 0x39) && 0 < ValueOf(d) < 0x1_0000_0000
    ensures Live(rows, size, fields, ValueOf(d))
  {
    hide Parse;
    ParseMeans(j, d, k);
    assert FieldOf(rows[r], fields[f]) == rows[r][fields[f]..fields[f] + 10];
  }

  lemma LiveIsField(rows: seq<Row>, size: nat, fields: seq<nat>, block: nat)
    returns (r: nat, f: nat, j: nat, d: seq<byte>, k: nat)
    requires FieldsOk(size, fields) && forall q :: 0 <= q < |rows| ==> |rows[q]| == size
    requires Live(rows, size, fields, block)
    ensures r < |rows| && f < |fields| && rows[r][fields[f]..fields[f] + 10] == Repeat(0x20, j) + d + Repeat(0x20, k)
    ensures d != [] && (forall i :: 0 <= i < |d| ==> 0x30 <= d[i] <= 0x39) && block == ValueOf(d)
    ensures 0 < block < 0x1_0000_0000
  {
    hide Parse, TrimSpaces;
    r, f :| r < |rows| && f < |fields| && PointerOf(rows[r], fields[f]) == Present(block);
    var raw := FieldOf(rows[r], fields[f]);
    d := TrimSpaces(raw);
    j, k := Trimmed(raw);
    ParseMeans(j, d, k);
  }

  /** One full scan of the table; a record that does not decode ends it. */
  method MemoPointers(t: Table, fields: seq<nat>, codec: Codec) returns (live: Option<set<nat>>)
    requires t.Valid() && FieldsOk(t.sh.size, fields)
    ensures live.Some? <==> AllDecode(codec, fields, t.Rows())
    ensures live.Some? ==> forall b :: b in live.value <==> Live(t.Rows(), t.sh.size, fields, b)
    ensures live.Some? ==> forall b :: b in live.value ==> 0 < b < TWO_32
  {
    hide Parse;
    if fields == [] {
      return Some({});
    }
    var found: set<nat> := {};
    ghost var rows := t.Rows();
    var recno := 1;
    while recno <= t.recordCount
      invariant 1 <= recno <= |rows| + 1 == t.recordCount + 1
      invariant forall r :: 0 <= r < recno - 1 ==> codec.decodes(rows[r])
      invariant forall b :: b in found <==> Live(rows[..recno - 1], t.sh.size, fields, b)
      invariant forall b :: b in found ==> 0 < b < TWO_32
    {
      var rec := t.Get(recno);
      if !codec.decodes(rec.value) {
        return None;
      }
      found := AddPointers(rec.value, fields, found, t.sh.size, rows[..recno - 1]);
      assert rows[..recno] == rows[..recno - 1] + [rec.value];
      recno := recno + 1;
    }
    assert rows[..recno - 1] == rows;
    live := Some(found);
  }

  /** The blocks one more record points at. */
  method AddPointers(row: Row, fields: seq<nat>, before: set<nat>, ghost size: nat, ghost rows: seq<Row>)
    returns (live: set<nat>)
    requires FieldsOk(size, fields) && |row| == size && forall r :: 0 <= r < |rows| ==> |rows[r]| == size
    requires forall b :: b in before <==> Live(rows, size, fields, b)
    requires forall b :: b in before ==> 0 < b < TWO_32
    ensures forall b :: b in live <==> Live(rows + [row], size, fields, b)
    ensures forall b :: b in live ==> 0 < b < TWO_32
  {
    hide Parse;
    live := before;
    var f := 0;
    while f < |fields|
      invariant f <= |fields|
      invariant forall b :: b in live <==>
        b in before || exists g :: 0 <= g < f && PointerOf(row, fields[g]) == Present(b)
      invariant forall b :: b in live ==> 0 < b < TWO_32
    {
      var p := PointerOf(row, fields[f]);
      ParseRange(FieldOf(row, fields[f]));
      if p.Present? {
        live := live + {p.block};
      }
      f := f + 1;
    }
    forall b ensures
      Live(rows + [row], size, fields, b) <==>
      Live(rows, size, fields, b) || exists g :: 0 <= g < |fields| && PointerOf(row, fields[g]) == Present(b)
    {
      LiveMore(rows, size, fields, row, b);
    }
  }

  lemma LiveMore(rows: seq<Row>, size: nat, fields: seq<nat>, row: Row, b: nat)
    requires FieldsOk(size, fields) && |row| == size && forall r :: 0 <= r < |rows| ==> |rows[r]| == size
    ensures Live(rows + [row], size, fields, b)
            <==> Live(rows, size, fields, b) || exists g :: 0 <= g < |fields| && PointerOf(row, fields[g]) == Present(b)
  {
    hide Parse;
    if Live(rows, size, fields, b) {
      var r, f :| 0 <= r < |rows| && 0 <= f < |fields| && PointerOf(rows[r], fields[f]) == Present(b);
      assert (rows + [row])[r] == rows[r];
    }
    if g :| 0 <= g < |fields| && PointerOf(row, fields[g]) == Present(b) {
      assert (rows + [row])[|rows|] == row;
    }
  }

  // ---------------------------------------------------------------- sorting

  ghost predicate Increasing(s: seq<nat>) {
    forall i, j :: 0 <= i < j < |s| ==> s[i] < s[j]
  }

  /** The blocks of a set in ascending order. */
  method SortedBlocks(blocks: set<nat>) returns (out: seq<nat>)
    ensures Increasing(out) && forall b :: b in out <==> b in blocks
  {
    hide NonDecreasing, Increasing;
    var a := Listing(blocks);
    InsertionSort(a);
    out := a[..];
    OnceEach(out, blocks);
  }

  /** The blocks of a set in any order. */
  method Listing(blocks: set<nat>) returns (a: array<nat>)
    ensures fresh(a) && multiset(a[..]) == multiset(blocks)
  {
    a := new nat[|blocks|];
    var left, n := blocks, 0;
    while left != {}
      invariant left <= blocks && n + |left| == |blocks| && fresh(a)
      invariant multiset(a[..n]) + multiset(left) == multiset(blocks)
      decreases left
    {
      var b :| b in left;
      a[n] := b;
      assert a[..n + 1] == a[..n] + [b];
      assert multiset(left) == multiset(left - {b}) + multiset{b};
      left, n := left - {b}, n + 1;
    }
    assert a[..n] == a[..];
  }

  ghost predicate NonDecreasing(s: seq<nat>) {
    forall i, j :: 0 <= i < j < |s| ==> s[i] <= s[j]
  }

  lemma OnceEach(s: seq<nat>, e: set<nat>)
    requires NonDecreasing(s) && multiset(s) == multiset(e)
    ensures Increasing(s) && forall b :: b in s <==> b in e
  {
    forall b ensures b in s <==> b in e {
      assert b in s <==> b in multiset(s);
      assert b in e <==> b in multiset(e);
    }
    forall i, j | 0 <= i < j < |s| ensures s[i] < s[j] {
      SeenTwice(s, i, j);
      assert multiset(e)[s[i]] <= 1;
    }
  }

  /** Sorted but for the element at j, which is below everything on its right up to i. */
  ghost predicate Sinking(s: seq<nat>, j: nat, i: nat)
    requires j <= i < |s|
  {
    && (forall p, q :: 0 <= p < q <= i && p != j && q != j ==> s[p] <= s[q])
    && forall q :: j < q <= i ==> s[j] <= s[q]
  }

  /** Each element in turn sinks past the larger ones before it. */
  method InsertionSort(a: array<nat>)
    modifies a
    ensures NonDecreasing(a[..]) && multiset(a[..]) == multiset(old(a[..]))
  {
    hide NonDecreasing;
    var i := 1;
    ShortIsSorted(a[..]);
    while i < a.Length
      invariant 1 <= i && (i < a.Length ==> NonDecreasing(a[..i])) && (i >= a.Length ==> NonDecreasing(a[..]))
      invariant multiset(a[..]) == multiset(old(a[..]))
    {
      Sink(a, i);
      assert a[..][..i + 1] == a[..i + 1];
      assert i + 1 == a.Length ==> a[..i + 1] == a[..];
      i := i + 1;
    }
  }

  /** Moves element i down to its place among those before it. */
  method Sink(a: array<nat>, i: nat)
    requires i < a.Length && NonDecreasing(a[..i])
    modifies a
    ensures NonDecreasing(a[..][..i + 1]) && multiset(a[..]) == multiset(old(a[..]))
  {
    hide Sinking, NonDecreasing;
    var j: nat := i;
    assert a[..][..i] == a[..i];
    StartSinking(a[..], i);
    while j > 0 && a[j] < a[j - 1]
      invariant 0 <= j <= i && Sinking(a[..], j, i) && multiset(a[..]) == multiset(old(a[..]))
    {
      ghost var s := a[..];
      SwapSinks(s, j, i);
      a[j], a[j - 1] := a[j - 1], a[j];
      assert a[..] == s[j := s[j - 1]][j - 1 := s[j]];
      j := j - 1;
    }
    StopSinking(a[..], j, i);
  }

  lemma ShortIsSorted(s: seq<nat>)
    ensures |s| <= 1 ==> NonDecreasing(s)
    ensures |s| >= 1 ==> NonDecreasing(s[..1])
  {
  }

  lemma StartSinking(s: seq<nat>, i: nat)
    requires i < |s| && NonDecreasing(s[..i])
    ensures Sinking(s, i, i)
  {
    assert forall p :: 0 <= p < i ==> s[..i][p] == s[p];
  }

  lemma StopSinking(s: seq<nat>, j: nat, i: nat)
    requires j <= i < |s| && Sinking(s, j, i) && (j == 0 || s[j - 1] <= s[j])
    ensures NonDecreasing(s[..i + 1])
  {
  }

  lemma SwapSinks(s: seq<nat>, j: nat, i: nat)
    requires 0 < j <= i < |s| && Sinking(s, j, i) && s[j] < s[j - 1]
    ensures var t := s[j := s[j - 1]][j - 1 := s[j]];
      Sinking(t, j - 1, i) && multiset(t) == multiset(s)
  {
  }
}
