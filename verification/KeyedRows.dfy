/** What an index over a table should hold: one entry for each record, the key of the record and its
    number. Contents are compared with sets of entries, because record numbers make entries distinct. */
module KeyedRows {
  import opened Entries
  import opened TableFile
  import opened NtxIndex

  /** Key functions see the fields of a record, not its deletion mark. */
  type KeyFn = seq<byte> -> seq<byte>

  function KeyOf(fn: KeyFn, row: Row): seq<byte> {
    fn(if row == [] then [] else row[1..])
  }

  function EntryOf(ix: Index, fn: KeyFn, row: Row, recno: nat): Entry {
    Entry(ix.Pad(KeyOf(fn, row)), recno)
  }

  ghost function EntrySet(ix: Index, fn: KeyFn, rows: seq<Row>): set<Entry> {
    set i | 0 <= i < |rows| :: EntryOf(ix, fn, rows[i], i + 1)
  }

  ghost predicate AllFit(ix: Index, fn: KeyFn, rows: seq<Row>) {
    forall i :: 0 <= i < |rows| ==> |KeyOf(fn, rows[i])| <= ix.lay.keySize
  }

  // ---------------------------------------------------------------- sequences and sets of entries

  /** s is the sorted listing of the set e. */
  ghost predicate Lists(s: seq<Entry>, e: set<Entry>) {
    Sorted(s) && multiset(s) == multiset(e)
  }

  lemma ListsMember(s: seq<Entry>, e: set<Entry>, x: Entry)
    requires Lists(s, e)
    ensures x in s <==> x in e
  {
    assert x in s <==> x in multiset(s);
    assert x in e <==> x in multiset(e);
  }

  lemma ListsInsert(s: seq<Entry>, e: set<Entry>, x: Entry)
    requires Lists(s, e) && x !in e
    ensures Lists(Inserted(s, x), e + {x})
  {
    InsertedFacts(s, x);
    assert multiset(e + {x}) == multiset(e) + multiset{x};
  }

  lemma ListsRemove(s: seq<Entry>, e: set<Entry>, x: Entry)
    requires Lists(s, e) && x in e
    ensures x in s && Lists(Removed(s, x), e - {x})
  {
    ListsMember(s, e, x);
    RemovedFacts(s, x);
    assert multiset(e - {x}) == multiset(e) - multiset{x};
  }

  /** A set has one sorted listing. */
  lemma ListsUnique(s: seq<Entry>, t: seq<Entry>, e: set<Entry>)
    requires Lists(s, e) && Lists(t, e)
    ensures s == t
  {
    SortedUnique(s, t);
  }

  lemma ListsStrictly(s: seq<Entry>, e: set<Entry>)
    requires Lists(s, e)
    ensures StrictlySorted(s)
  {
    forall i, j | 0 <= i < j < |s| ensures Less(s[i], s[j]) {
      LessTotal(s[i], s[j]);
      SeenTwice(s, i, j);
      assert multiset(e)[s[i]] <= 1;
    }
  }

  // ---------------------------------------------------------------- the table changes

  lemma SetAppend(ix: Index, fn: KeyFn, rows: seq<Row>, row: Row)
    ensures EntryOf(ix, fn, row, |rows| + 1) !in EntrySet(ix, fn, rows)
    ensures EntrySet(ix, fn, rows + [row]) == EntrySet(ix, fn, rows) + {EntryOf(ix, fn, row, |rows| + 1)}
  {
    var a, b := EntrySet(ix, fn, rows + [row]), EntrySet(ix, fn, rows) + {EntryOf(ix, fn, row, |rows| + 1)};
    forall x | x in b ensures x in a {
      if x in EntrySet(ix, fn, rows) {
        var i :| 0 <= i < |rows| && x == EntryOf(ix, fn, rows[i], i + 1);
        assert (rows + [row])[i] == rows[i];
      } else {
        assert (rows + [row])[|rows|] == row;
      }
    }
  }

  lemma SetReplace(ix: Index, fn: KeyFn, rows: seq<Row>, i: nat, row: Row)
    requires i < |rows|
    ensures var old_, new_ := EntryOf(ix, fn, rows[i], i + 1), EntryOf(ix, fn, row, i + 1);
      && old_ in EntrySet(ix, fn, rows) && new_ !in EntrySet(ix, fn, rows) - {old_}
      && EntrySet(ix, fn, rows[i := row]) == EntrySet(ix, fn, rows) - {old_} + {new_}
  {
    var old_, new_ := EntryOf(ix, fn, rows[i], i + 1), EntryOf(ix, fn, row, i + 1);
    var a, b := EntrySet(ix, fn, rows[i := row]), EntrySet(ix, fn, rows) - {old_} + {new_};
    forall x | x in b ensures x in a {
      if x != new_ {
        var j :| 0 <= j < |rows| && x == EntryOf(ix, fn, rows[j], j + 1);
        assert rows[i := row][j] == rows[j];
      } else {
        assert rows[i := row][i] == row;
      }
    }
    forall x | x in a ensures x in b {
      var j :| 0 <= j < |rows| && x == EntryOf(ix, fn, rows[i := row][j], j + 1);
      if j != i {
        assert x in EntrySet(ix, fn, rows) && x.recno == j + 1;
      }
    }
  }

  /** A change that leaves every record's key alone leaves the entries alone. */
  lemma SetSameKeys(ix: Index, fn: KeyFn, rows: seq<Row>, rows2: seq<Row>)
    requires |rows2| == |rows| && forall i :: 0 <= i < |rows| ==> KeyOf(fn, rows2[i]) == KeyOf(fn, rows[i])
    ensures EntrySet(ix, fn, rows2) == EntrySet(ix, fn, rows)
    ensures AllFit(ix, fn, rows2) == AllFit(ix, fn, rows)
  {
    var a, b := EntrySet(ix, fn, rows2), EntrySet(ix, fn, rows);
    forall x | x in a ensures x in b {
      var i :| 0 <= i < |rows| && x == EntryOf(ix, fn, rows2[i], i + 1);
      assert x == EntryOf(ix, fn, rows[i], i + 1);
    }
    forall x | x in b ensures x in a {
      var i :| 0 <= i < |rows| && x == EntryOf(ix, fn, rows[i], i + 1);
      assert x == EntryOf(ix, fn, rows2[i], i + 1);
    }
  }

  // ---------------------------------------------------------------- the order an index gives

  ghost function Recnos(s: seq<Entry>): (r: seq<nat>)
    ensures |r| == |s| && forall i :: 0 <= i < |s| ==> r[i] == s[i].recno
  {
    seq(|s|, i requires 0 <= i < |s| => s[i].recno)
  }

  /** Every record number from 1 to n stands in r exactly once. */
  ghost predicate EachOnce(r: seq<nat>, n: nat) {
    && |r| == n
    && (forall k :: 0 <= k < |r| ==> 1 <= r[k] <= n)
    && (forall j, k :: 0 <= j < k < |r| ==> r[j] != r[k])
    && (forall recno :: 1 <= recno <= n ==> recno in r)
  }

  /** The listing of a table's entries passes every record once. */
  lemma ListingIsPermutation(ix: Index, fn: KeyFn, rows: seq<Row>, s: seq<Entry>)
    requires Lists(s, EntrySet(ix, fn, rows))
    ensures EachOnce(Recnos(s), |rows|)
  {
    hide EntrySet, Lists, EntryOf;
    var e, r := EntrySet(ix, fn, rows), Recnos(s);
    ListingSize(ix, fn, rows, s);
    ListsStrictly(s, e);
    forall k | 0 <= k < |s| ensures 1 <= r[k] <= |rows| {
      ListedEntry(ix, fn, rows, s, k);
    }
    forall j, k | 0 <= j < k < |s| ensures r[j] != r[k] {
      ListedEntry(ix, fn, rows, s, j);
      ListedEntry(ix, fn, rows, s, k);
      LessTotal(s[j], s[k]);
    }
    forall recno | 1 <= recno <= |rows| ensures recno in r {
      var k := RecordListed(ix, fn, rows, s, recno);
      assert r[k] == recno;
    }
  }

  /** An entry of the listing is that of the record it names. */
  lemma ListedEntry(ix: Index, fn: KeyFn, rows: seq<Row>, s: seq<Entry>, k: nat)
    requires Lists(s, EntrySet(ix, fn, rows)) && k < |s|
    ensures 1 <= s[k].recno <= |rows| && s[k] == EntryOf(ix, fn, rows[s[k].recno - 1], s[k].recno)
  {
    ListsMember(s, EntrySet(ix, fn, rows), s[k]);
  }

  /** Every record has its entry in the listing. */
  lemma RecordListed(ix: Index, fn: KeyFn, rows: seq<Row>, s: seq<Entry>, recno: nat) returns (k: nat)
    requires Lists(s, EntrySet(ix, fn, rows)) && 1 <= recno <= |rows|
    ensures k < |s| && s[k] == EntryOf(ix, fn, rows[recno - 1], recno) && s[k].recno == recno
  {
    var x := EntryOf(ix, fn, rows[recno - 1], recno);
    assert x in EntrySet(ix, fn, rows);
    ListsMember(s, EntrySet(ix, fn, rows), x);
    k :| 0 <= k < |s| && s[k] == x;
  }

  lemma ListingSize(ix: Index, fn: KeyFn, rows: seq<Row>, s: seq<Entry>)
    requires Lists(s, EntrySet(ix, fn, rows))
    ensures |s| == |rows|
  {
    var e := EntrySet(ix, fn, rows);
    SetSize(ix, fn, rows);
    assert |s| == |multiset(s)| == |multiset(e)| == |e|;
  }

  lemma {:induction false} SetSize(ix: Index, fn: KeyFn, rows: seq<Row>)
    ensures |EntrySet(ix, fn, rows)| == |rows|
  {
    hide EntrySet, EntryOf;
    if rows == [] {
      NoEntries(ix, fn);
    } else {
      var n := |rows| - 1;
      SetSize(ix, fn, rows[..n]);
      SetAppend(ix, fn, rows[..n], rows[n]);
      assert rows[..n] + [rows[n]] == rows;
      OneMore(EntrySet(ix, fn, rows[..n]), EntryOf(ix, fn, rows[n], n + 1));
    }
  }

  lemma NoEntries(ix: Index, fn: KeyFn)
    ensures EntrySet(ix, fn, []) == {}
  {
  }

  lemma OneMore(e: set<Entry>, x: Entry)
    requires x !in e
    ensures |e + {x}| == |e| + 1
  {
  }
}
