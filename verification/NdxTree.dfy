/** An NDX index as a value: pages linked from below, whose separators repeat the highest key under them. */
module NdxTree {
  import opened Entries

  /** One key record of a page. Leaves point nowhere; separators carry no record number. */
  datatype KeyRecord = KeyRecord(lower: nat, recno: nat, key: seq<byte>)

  datatype Page = Page(number: nat, records: seq<KeyRecord>)

  type Pages = map<nat, seq<KeyRecord>>

  /** A page together with the pages under it. */
  datatype Tree = Tree(page: Page, kids: seq<Tree>)

  function EntryOf(r: KeyRecord): Entry { Entry(r.key, r.recno) }

  /** The leaf entries of a subtree in order. */
  ghost function All(t: Tree): seq<Entry>
    decreases t
  {
    if t.kids == [] then Records(t.page.records) else AllOf(t.kids)
  }

  ghost function AllOf(ts: seq<Tree>): seq<Entry>
    decreases ts
  {
    if ts == [] then [] else All(ts[0]) + AllOf(ts[1..])
  }

  ghost function Records(rs: seq<KeyRecord>): (r: seq<Entry>)
    ensures |r| == |rs| && forall i :: 0 <= i < |rs| ==> r[i] == EntryOf(rs[i])
  {
    seq(|rs|, i requires 0 <= i < |rs| => EntryOf(rs[i]))
  }

  /** The numbers of all pages of a subtree. */
  ghost function Numbers(t: Tree): multiset<nat>
    decreases t
  {
    multiset{t.page.number} + NumbersOf(t.kids)
  }

  ghost function NumbersOf(ts: seq<Tree>): multiset<nat>
    decreases ts
  {
    if ts == [] then multiset{} else Numbers(ts[0]) + NumbersOf(ts[1..])
  }

  ghost function TopKey(p: Page): seq<byte>
    requires p.records != []
  {
    p.records[|p.records| - 1].key
  }

  /** Leaves point nowhere; a branch has one separator for each child, with the child's highest key. */
  ghost predicate Wired(t: Tree)
    decreases t
  {
    && t.page.records != [] && t.page.number > 0
    && (t.kids == [] ==> forall i :: 0 <= i < |t.page.records| ==> t.page.records[i].lower == 0)
    && (t.kids != [] ==> |t.kids| == |t.page.records|)
    && (forall k :: k in t.kids ==> Wired(k))
    && (t.kids != [] ==> forall i :: 0 <= i < |t.kids| ==> t.page.records[i] == SeparatorFor(t.kids[i].page))
  }

  ghost function SeparatorFor(p: Page): KeyRecord {
    KeyRecord(p.number, 0, if p.records == [] then [] else TopKey(p))
  }

  /** The pages of a subtree are on file. */
  ghost predicate Stored(pages: Pages, t: Tree)
    decreases t
  {
    && t.page.number in pages && pages[t.page.number] == t.page.records
    && forall k :: k in t.kids ==> Stored(pages, k)
  }

  /** The pages of a subtree are all in a list. */
  ghost predicate Listed(list: seq<Page>, t: Tree)
    decreases t
  {
    t.page in list && forall k :: k in t.kids ==> Listed(list, k)
  }

  lemma {:induction false} ListedMore(list: seq<Page>, more: seq<Page>, t: Tree)
    requires Listed(list, t)
    ensures Listed(list + more, t)
    decreases t
  {
    forall k | k in t.kids ensures Listed(list + more, k) {
      ListedMore(list, more, k);
    }
  }

  lemma {:induction false} ListedStored(list: seq<Page>, pages: Pages, t: Tree)
    requires Listed(list, t) && forall p :: p in list ==> p.number in pages && pages[p.number] == p.records
    ensures Stored(pages, t)
    decreases t
  {
    forall k | k in t.kids ensures Stored(pages, k) {
      ListedStored(list, pages, k);
    }
  }

  /** All leaves lie d levels down, and no page has more records than it has room for. */
  ghost predicate Packed(t: Tree, perPage: nat, d: nat)
    decreases d
  {
    |t.page.records| <= perPage &&
    if d == 0 then t.kids == [] else t.kids != [] && forall k :: k in t.kids ==> Packed(k, perPage, d - 1)
  }

  // ---------------------------------------------------------------- sequences of subtrees

  lemma {:induction false} AllOfJoin(a: seq<Tree>, b: seq<Tree>)
    ensures AllOf(a + b) == AllOf(a) + AllOf(b)
    ensures NumbersOf(a + b) == NumbersOf(a) + NumbersOf(b)
  {
    if a == [] {
      assert a + b == b;
    } else {
      assert (a + b)[1..] == a[1..] + b;
      AllOfJoin(a[1..], b);
    }
  }

  lemma AllOfOne(t: Tree)
    ensures AllOf([t]) == All(t) && NumbersOf([t]) == Numbers(t)
  {
    assert [t][1..] == [];
  }

  /** Every separator is the highest key of what lies under it: the last, which in order is the highest. */
  lemma {:induction false} SeparatorIsLast(t: Tree)
    requires Wired(t)
    ensures All(t) != [] && All(t)[|All(t)| - 1].key == TopKey(t.page)
    decreases t
  {
    if t.kids != [] {
      var n := |t.kids| - 1;
      assert t.kids[n] in t.kids;
      SeparatorIsLast(t.kids[n]);
      LastOfAll(t.kids, n);
    }
  }

  /** In a tree whose entries are in order, each separator of a branch is the key of some entry under
      its child, and no key under that child is higher. */
  lemma {:induction false} SeparatorIsHighest(t: Tree, j: nat)
    requires Wired(t) && j < |t.kids| && Sorted(All(t))
    ensures j < |t.page.records| && (exists x :: x in All(t.kids[j]) && x.key == t.page.records[j].key)
    ensures forall x :: x in All(t.kids[j]) ==> CompareKeys(x.key, t.page.records[j].key) <= 0
  {
    var kid, key := t.kids[j], t.page.records[j].key;
    assert kid in t.kids;
    SeparatorIsLast(kid);
    KidInOrder(t, j);
    var s := All(kid);
    assert s[|s| - 1] in s;
    forall x | x in s ensures CompareKeys(x.key, key) <= 0 {
      var i :| 0 <= i < |s| && s[i] == x;
      LessTotal(x, x);
      assert !Less(s[|s| - 1], x);
      CompareKeysFlip(x.key, key);
    }
  }

  lemma {:induction false} KidInOrder(t: Tree, j: nat)
    requires j < |t.kids| && Sorted(All(t))
    ensures Sorted(All(t.kids[j]))
  {
    hide Sorted;
    var before, after := t.kids[..j], t.kids[j + 1..];
    assert t.kids == before + [t.kids[j]] + after;
    AllOfJoin(before + [t.kids[j]], after);
    AllOfJoin(before, [t.kids[j]]);
    AllOfOne(t.kids[j]);
    SortedSlice(AllOf(before), All(t.kids[j]), AllOf(after));
  }

  lemma {:induction false} LastOfAll(ts: seq<Tree>, n: nat)
    requires n == |ts| - 1
    ensures AllOf(ts) == AllOf(ts[..n]) + All(ts[n])
  {
    assert ts == ts[..n] + [ts[n]];
    AllOfJoin(ts[..n], [ts[n]]);
    AllOfOne(ts[n]);
  }

  // ---------------------------------------------------------------- what a walk gives

  /** Entries without a record number are not reported. */
  function Reported(s: seq<Entry>): seq<Entry> {
    if s == [] then []
    else (if s[0].recno != 0 then [s[0]] else []) + Reported(s[1..])
  }

  lemma {:induction false} ReportedJoin(a: seq<Entry>, b: seq<Entry>)
    ensures Reported(a + b) == Reported(a) + Reported(b)
  {
    if a == [] {
      assert a + b == b;
    } else {
      assert (a + b)[1..] == a[1..] + b;
      ReportedJoin(a[1..], b);
    }
  }

  lemma {:induction false} AllReported(s: seq<Entry>)
    requires forall x :: x in s ==> x.recno != 0
    ensures Reported(s) == s
  {
    if s != [] {
      AllReported(s[1..]);
      assert s == [s[0]] + s[1..];
    }
  }

  // ---------------------------------------------------------------- sorting and duplicates

  /** The entries in order of key and record number. */
  function Sort(s: seq<Entry>): seq<Entry> {
    if s == [] then [] else var t := Sort(s[1..]); With(t, LowerBound(t, s[0]), s[0])
  }

  lemma {:induction false} SortFacts(s: seq<Entry>)
    ensures Sorted(Sort(s)) && multiset(Sort(s)) == multiset(s)
  {
    if s != [] {
      SortFacts(s[1..]);
      InsertedFacts(Sort(s[1..]), s[0]);
      assert s == [s[0]] + s[1..];
    }
  }

  /** The first entry of each run of equal keys. */
  function FirstOfEach(s: seq<Entry>): (r: seq<Entry>)
    ensures |r| <= |s|
  {
    if s == [] then []
    else
      var n := |s| - 1;
      FirstOfEach(s[..n]) + if n > 0 && s[n - 1].key == s[n].key then [] else [s[n]]
  }

  /** What an index over these entries holds: all of them in order, or the first of each key. */
  function Indexed(list: seq<Entry>, unique: bool): seq<Entry> {
    if unique then FirstOfEach(Sort(list)) else Sort(list)
  }

  lemma {:induction false} FirstOfEachMembers(s: seq<Entry>)
    ensures forall x :: x in FirstOfEach(s) ==> x in s
    ensures s != [] ==> FirstOfEach(s) != [] && FirstOfEach(s)[|FirstOfEach(s)| - 1].key == s[|s| - 1].key
  {
    if s != [] {
      var n := |s| - 1;
      FirstOfEachMembers(s[..n]);
      assert s == s[..n] + [s[n]];
    }
  }

  /** On a sorted list that leaves each key once, */
  lemma {:induction false} FirstOfEachDistinct(s: seq<Entry>)
    requires Sorted(s)
    ensures DistinctKeys(FirstOfEach(s)) && Sorted(FirstOfEach(s))
  {
    if s != [] {
      var n := |s| - 1;
      FirstOfEachDistinct(s[..n]);
      if n == 0 || s[n - 1].key != s[n].key {
        FirstOfEachMembers(s[..n]);
        KeysBelow(s, n, FirstOfEach(s[..n]));
        OneMore(FirstOfEach(s[..n]), s[n]);
      }
    }
  }

  lemma OneMore(f: seq<Entry>, x: Entry)
    requires DistinctKeys(f) && Sorted(f) && forall y :: y in f ==> y.key != x.key && !Less(x, y)
    ensures DistinctKeys(f + [x]) && Sorted(f + [x])
  {
  }

  /** with its smallest record number. */
  lemma {:induction false} FirstOfEachCovers(s: seq<Entry>, x: Entry) returns (y: Entry)
    requires Sorted(s) && x in s
    ensures y in FirstOfEach(s) && y.key == x.key && y.recno <= x.recno
  {
    var n := |s| - 1;
    if x in s[..n] {
      y := FirstOfEachCovers(s[..n], x);
    } else {
      assert x == s[n];
      if n > 0 && s[n - 1].key == s[n].key {
        assert s[..n][n - 1] == s[n - 1] && !Less(s[n], s[n - 1]);
        y := FirstOfEachCovers(s[..n], s[n - 1]);
      } else {
        y := x;
      }
    }
  }

  /** A key that differs from its predecessor's is new. */
  lemma KeysBelow(s: seq<Entry>, n: nat, f: seq<Entry>)
    requires Sorted(s) && n == |s| - 1 && (n > 0 ==> s[n - 1].key != s[n].key)
    requires forall x :: x in f ==> x in s[..n]
    ensures forall x :: x in f ==> x.key != s[n].key && !Less(s[n], x)
  {
    forall x | x in f ensures x.key != s[n].key && !Less(s[n], x) {
      var i :| 0 <= i < n && s[i] == x;
      assert !Less(s[n - 1], s[i]) && !Less(s[n], s[n - 1]) && !Less(s[n], s[i]);
      SameKeyBetween(s[i], s[n - 1], s[n]);
    }
  }

  lemma SameKeyBetween(a: Entry, b: Entry, c: Entry)
    requires !Less(b, a) && !Less(c, b) && b.key != c.key
    ensures a.key != c.key
  {
    CompareKeysFlip(a.key, b.key);
    CompareKeysFlip(b.key, c.key);
    CompareKeysFlip(c.key, b.key);
    CompareKeysFlip(b.key, a.key);
  }

  // ---------------------------------------------------------------- looking up a key

  /** The record numbers of the entries with this key, in order. */
  function RecnosFor(s: seq<Entry>, key: seq<byte>): seq<nat> {
    if s == [] then []
    else
      var n := |s| - 1;
      RecnosFor(s[..n], key) + if s[n].key == key then [s[n].recno] else []
  }

  lemma {:induction false} RecnosForMeans(s: seq<Entry>, key: seq<byte>)
    ensures forall r :: r in RecnosFor(s, key) <==> Entry(key, r) in s
  {
    if s != [] {
      RecnosForMeans(s[..|s| - 1], key);
      assert s == s[..|s| - 1] + [s[|s| - 1]];
    }
  }

  lemma {:induction false} RecnosInOrder(s: seq<Entry>, key: seq<byte>)
    requires Sorted(s)
    ensures forall i, j :: 0 <= i < j < |RecnosFor(s, key)| ==> RecnosFor(s, key)[i] <= RecnosFor(s, key)[j]
  {
    if s != [] {
      var n := |s| - 1;
      var front := RecnosFor(s[..n], key);
      RecnosInOrder(s[..n], key);
      RecnosForMeans(s[..n], key);
      if s[n].key == key {
        forall i | 0 <= i < |front| ensures front[i] <= s[n].recno {
          assert front[i] in front;
          NotAboveLast(s, Entry(key, front[i]));
        }
      }
    }
  }

  lemma {:induction false} AtMostOneRecno(s: seq<Entry>, key: seq<byte>)
    requires DistinctKeys(s)
    ensures |RecnosFor(s, key)| <= 1
  {
    if s != [] {
      var n := |s| - 1;
      var front := RecnosFor(s[..n], key);
      AtMostOneRecno(s[..n], key);
      RecnosForMeans(s[..n], key);
      assert front != [] ==> front[0] in front;
      assert s[n].key == key ==> forall r :: Entry(key, r) !in s[..n];
    }
  }

  lemma NotAboveLast(s: seq<Entry>, e: Entry)
    requires s != [] && Sorted(s) && e in s[..|s| - 1] && e.key == s[|s| - 1].key
    ensures e.recno <= s[|s| - 1].recno
  {
    CompareKeysFlip(e.key, e.key);
  }

  /** What a lookup in an index over these entries gives: every record number the key was listed with,
      in ascending order. */
  lemma LookupFindsAll(list: seq<Entry>, key: seq<byte>)
    ensures var found := RecnosFor(Indexed(list, false), key);
      && (forall r :: r in found <==> Entry(key, r) in list)
      && forall i, j :: 0 <= i < j < |found| ==> found[i] <= found[j]
  {
    var s := Sort(list);
    SortFacts(list);
    RecnosForMeans(s, key);
    RecnosInOrder(s, key);
    assert forall x :: x in list <==> x in multiset(list);
    assert forall x :: x in s <==> x in multiset(s);
  }

  /** In a unique index it gives the lowest of them. */
  lemma LookupFindsLowest(list: seq<Entry>, key: seq<byte>, r: nat)
    ensures var found := RecnosFor(Indexed(list, true), key);
      && (found == [] <==> !HasKey(list, key))
      && |found| <= 1 && (forall x :: x in found ==> Entry(key, x) in list)
      && (found != [] && Entry(key, r) in list ==> found[0] <= r)
  {
    hide Sort, FirstOfEach, RecnosFor, Sorted, DistinctKeys;
    var s := Sort(list);
    SortFacts(list);
    FirstOfEachDistinct(s);
    FirstOfEachMembers(s);
    RecnosForMeans(FirstOfEach(s), key);
    AtMostOneRecno(FirstOfEach(s), key);
    var found := RecnosFor(FirstOfEach(s), key);
    assert forall x :: x in list <==> x in multiset(list);
    assert forall x :: x in s <==> x in multiset(s);
    if HasKey(list, key) {
      var x :| x in list && x.key == key;
      var y := FirstOfEachCovers(s, x);
      assert Entry(key, y.recno) == y;
    }
    if found != [] {
      assert found[0] in found;
      if Entry(key, r) in list {
        var y := FirstOfEachCovers(s, Entry(key, r));
        assert Entry(key, y.recno) == y;
      }
    }
  }

  /** Picks out the entries with this key. */
  method CollectRecnos(all: seq<Entry>, key: seq<byte>) returns (out: seq<nat>)
    ensures out == RecnosFor(all, key)
  {
    out := [];
    var i := 0;
    while i < |all|
      invariant i <= |all| && out == RecnosFor(all[..i], key)
    {
      assert all[..i + 1][..i] == all[..i];
      if all[i].key == key {
        out := out + [all[i].recno];
      }
      i := i + 1;
    }
    assert all[..i] == all;
  }
}
