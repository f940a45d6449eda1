/** Index entries and their order: key bytes first, record number as tiebreak.

    Everything the B-tree proofs need to know about the order is kept here, in lemmas about
    plain sequences. */
module Entries {

  type byte = x: int | 0 <= x < 256

  datatype Entry = Entry(key: seq<byte>, recno: nat)

  function Smaller(a: int, b: int): int { if a <= b then a else b }

  function Larger(a: int, b: int): int { if a <= b then b else a }

  lemma SeenTwice<T>(s: seq<T>, i: nat, j: nat)
    requires i < j < |s|
    ensures s[i] == s[j] ==> multiset(s)[s[i]] >= 2
  {
    assert s == s[..i] + [s[i]] + s[i + 1..j] + [s[j]] + s[j + 1..];
  }

  /** Lexicographic comparison of byte strings as unsigned bytes; a proper prefix is smaller. */
  function CompareKeys(a: seq<byte>, b: seq<byte>): (c: int)
    ensures c == 0 <==> a == b
  {
    if a == [] && b == [] then 0
    else if a == [] then -1
    else if b == [] then 1
    else if a[0] < b[0] then -1
    else if a[0] > b[0] then 1
    else
      var c := CompareKeys(a[1..], b[1..]);
      assert a == [a[0]] + a[1..] && b == [b[0]] + b[1..];
      c
  }

  function CompareEntries(a: Entry, b: Entry): (c: int)
    ensures c == 0 <==> a == b
  {
    var c := CompareKeys(a.key, b.key);
    if c != 0 then c
    else if a.recno < b.recno then -1
    else if a.recno > b.recno then 1
    else 0
  }

  predicate Less(a: Entry, b: Entry) {
    CompareEntries(a, b) < 0
  }

  /** The first byte in which two strings differ decides; without one, the shorter string is the smaller. */
  lemma {:induction false} FirstDifference(a: seq<byte>, b: seq<byte>)
    ensures CompareKeys(a, b) < 0 <==>
      exists i :: 0 <= i <= |a| && i <= |b| && a[..i] == b[..i] && (if i < |a| then i < |b| && a[i] < b[i] else i < |b|)
  {
    if a != [] && b != [] && a[0] == b[0] {
      var c, d := a[1..], b[1..];
      FirstDifference(c, d);
      assert a == [a[0]] + c && b == [b[0]] + d;
      if CompareKeys(a, b) < 0 {
        var i :| 0 <= i <= |c| && i <= |d| && c[..i] == d[..i] && (if i < |c| then i < |d| && c[i] < d[i] else i < |d|);
        assert a[..i + 1] == [a[0]] + c[..i] && b[..i + 1] == [b[0]] + d[..i];
      }
      if i :| 0 <= i <= |a| && i <= |b| && a[..i] == b[..i] && (if i < |a| then i < |b| && a[i] < b[i] else i < |b|) {
        assert i > 0 && c[..i - 1] == a[..i][1..] && d[..i - 1] == b[..i][1..];
      }
    } else {
      assert a[..0] == b[..0];
      if i :| 0 <= i <= |a| && i <= |b| && a[..i] == b[..i] && (if i < |a| then i < |b| && a[i] < b[i] else i < |b|) {
        assert i > 0 ==> a[..i][0] == b[..i][0];
      }
    }
  }

  /** Entries are in order if their keys are, and equal keys leave it to the record number. */
  lemma EntryOrder(a: Entry, b: Entry)
    ensures !Less(b, a) <==>
      || (a.key == b.key && a.recno <= b.recno)
      || exists i :: 0 <= i <= |a.key| && i <= |b.key| && a.key[..i] == b.key[..i]
           && (if i < |a.key| then i < |b.key| && a.key[i] < b.key[i] else i < |b.key|)
  {
    FirstDifference(a.key, b.key);
    CompareKeysFlip(a.key, b.key);
    CompareKeysFlip(b.key, a.key);
  }

  lemma {:induction false} CompareKeysFlip(a: seq<byte>, b: seq<byte>)
    ensures CompareKeys(a, b) < 0 <==> CompareKeys(b, a) > 0
  {
    if a != [] && b != [] && a[0] == b[0] {
      CompareKeysFlip(a[1..], b[1..]);
    }
  }

  lemma {:induction false} CompareKeysTransitive(a: seq<byte>, b: seq<byte>, c: seq<byte>)
    requires CompareKeys(a, b) < 0 && CompareKeys(b, c) < 0
    ensures CompareKeys(a, c) < 0
  {
    if a != [] && b != [] && c != [] && a[0] == b[0] == c[0] {
      CompareKeysTransitive(a[1..], b[1..], c[1..]);
    }
  }

  lemma LessTransitive(a: Entry, b: Entry, c: Entry)
    requires Less(a, b) && Less(b, c)
    ensures Less(a, c)
  {
    if a.key == b.key || b.key == c.key {
    } else {
      CompareKeysTransitive(a.key, b.key, c.key);
    }
  }

  lemma LessTotal(a: Entry, b: Entry)
    ensures Less(a, b) || a == b || Less(b, a)
    ensures !(Less(a, b) && Less(b, a)) && !Less(a, a)
  {
    CompareKeysFlip(a.key, b.key);
    CompareKeysFlip(b.key, a.key);
  }

  /** a < b and b <= c give a < c, in the two mixed forms used below. */
  lemma LessMixed(a: Entry, b: Entry, c: Entry)
    ensures Less(a, b) && !Less(c, b) ==> Less(a, c)
    ensures !Less(b, a) && Less(b, c) ==> Less(a, c)
    ensures !Less(b, a) && !Less(c, b) ==> !Less(c, a)
  {
    LessTotal(a, b);
    LessTotal(b, c);
    if Less(a, b) && Less(b, c) { LessTransitive(a, b, c); }
    LessTotal(a, c);
    if Less(c, a) && Less(a, b) { LessTransitive(c, a, b); }
  }

  // ---------------------------------------------------------------- sorted sequences

  /** A sorted list ascends byte by byte, and by record number under one key. */
  lemma Ascends(s: seq<Entry>, j: nat, k: nat)
    requires Sorted(s) && j < k < |s|
    ensures
      || (s[j].key == s[k].key && s[j].recno <= s[k].recno)
      || exists i :: 0 <= i <= |s[j].key| && i <= |s[k].key| && s[j].key[..i] == s[k].key[..i]
           && (if i < |s[j].key| then i < |s[k].key| && s[j].key[i] < s[k].key[i] else i < |s[k].key|)
  {
    EntryOrder(s[j], s[k]);
  }

  ghost predicate Sorted(s: seq<Entry>) {
    forall i, j :: 0 <= i < j < |s| ==> !Less(s[j], s[i])
  }

  /** No two entries equal: what an index over distinct record numbers holds. */
  ghost predicate StrictlySorted(s: seq<Entry>) {
    forall i, j :: 0 <= i < j < |s| ==> Less(s[i], s[j])
  }

  ghost predicate DistinctKeys(s: seq<Entry>) {
    forall i, j :: 0 <= i < j < |s| ==> s[i].key != s[j].key
  }

  /** p separates the entries below e from those at or above it. */
  ghost predicate IsCut(s: seq<Entry>, e: Entry, p: nat) {
    p <= |s| &&
    (forall j :: 0 <= j < p ==> Less(s[j], e)) &&
    (forall j :: p <= j < |s| ==> !Less(s[j], e))
  }

  /** The number of leading entries below e. */
  function LowerBound(s: seq<Entry>, e: Entry): (p: nat)
    ensures p <= |s|
    ensures forall j :: 0 <= j < p ==> Less(s[j], e)
    ensures p < |s| ==> !Less(s[p], e)
  {
    if s == [] || !Less(s[0], e) then 0 else 1 + LowerBound(s[1..], e)
  }

  lemma LowerBoundIsCut(s: seq<Entry>, e: Entry)
    requires Sorted(s)
    ensures IsCut(s, e, LowerBound(s, e))
  {
    var p := LowerBound(s, e);
    forall j | p <= j < |s| ensures !Less(s[j], e) {
      if j > p { LessMixed(e, s[p], s[j]); }
    }
  }

  lemma CutIsLowerBound(s: seq<Entry>, e: Entry, p: nat)
    requires IsCut(s, e, p)
    ensures p == LowerBound(s, e)
  {
    var q := LowerBound(s, e);
    assert p < |s| ==> !Less(s[p], e);
    assert q < |s| ==> !Less(s[q], e);
  }

  function With<T>(s: seq<T>, p: nat, x: T): seq<T>
    requires p <= |s|
  {
    s[..p] + [x] + s[p..]
  }

  function Without<T>(s: seq<T>, p: nat): seq<T>
    requires p < |s|
  {
    s[..p] + s[p + 1..]
  }

  /** e put in front of the first entry that is not below it. */
  ghost function Inserted(s: seq<Entry>, e: Entry): seq<Entry> {
    With(s, LowerBound(s, e), e)
  }

  /** Whether the first entry not below e is e itself. */
  predicate Holds(s: seq<Entry>, e: Entry) {
    var p := LowerBound(s, e);
    p < |s| && s[p] == e
  }

  /** s without one occurrence of e. */
  ghost function Removed(s: seq<Entry>, e: Entry): seq<Entry> {
    if Holds(s, e) then Without(s, LowerBound(s, e)) else s
  }

  lemma HoldsIsMembership(s: seq<Entry>, e: Entry)
    requires Sorted(s)
    ensures Holds(s, e) <==> e in s
  {
    LowerBoundIsCut(s, e);
    if e in s {
      var p, j :| p == LowerBound(s, e) && 0 <= j < |s| && s[j] == e;
      LessTotal(e, e);
      if j > p {
        LessTotal(s[p], e);
      }
    }
  }

  /** Insertion keeps the sequence sorted and adds exactly one e; with Sorted this fixes the result. */
  lemma InsertedFacts(s: seq<Entry>, e: Entry)
    requires Sorted(s)
    ensures Sorted(Inserted(s, e))
    ensures multiset(Inserted(s, e)) == multiset(s) + multiset{e}
  {
    var p := LowerBound(s, e);
    assert s == s[..p] + s[p..];
    LowerBoundIsCut(s, e);
    WithSorted(s, p, e);
  }

  lemma WithSorted(s: seq<Entry>, p: nat, e: Entry)
    requires Sorted(s) && IsCut(s, e, p)
    ensures Sorted(With(s, p, e))
  {
    var r := With(s, p, e);
    forall i, j | 0 <= i < j < |r| ensures !Less(r[j], r[i]) {
      if j == p { LessTotal(s[i], e); }
      if i < p < j { LessMixed(s[i], s[j - 1], s[i]); }
    }
  }

  /** Removal keeps the sequence sorted and takes away exactly one e when there is one. */
  lemma RemovedFacts(s: seq<Entry>, e: Entry)
    requires Sorted(s)
    ensures Sorted(Removed(s, e))
    ensures multiset(Removed(s, e)) == multiset(s) - multiset{e}
  {
    var p := LowerBound(s, e);
    if Holds(s, e) {
      assert s == s[..p] + [e] + s[p + 1..];
      WithoutSorted(s, p);
    } else {
      HoldsIsMembership(s, e);
      assert e !in multiset(s);
    }
  }

  lemma WithoutSorted(s: seq<Entry>, p: nat)
    requires Sorted(s) && p < |s|
    ensures Sorted(Without(s, p))
  {
    var r := Without(s, p);
    assert forall j :: 0 <= j < |r| ==> r[j] == if j < p then s[j] else s[j + 1];
  }

  lemma SortedSlice(a: seq<Entry>, b: seq<Entry>, c: seq<Entry>)
    requires Sorted(a + b + c)
    ensures Sorted(a) && Sorted(b) && Sorted(c)
    ensures forall x, y :: x in a && y in b ==> !Less(y, x)
    ensures forall x, y :: x in a && y in c ==> !Less(y, x)
    ensures forall x, y :: x in b && y in c ==> !Less(y, x)
  {
    var s := a + b + c;
    assert forall i :: 0 <= i < |a| ==> s[i] == a[i];
    assert forall i :: 0 <= i < |b| ==> s[|a| + i] == b[i];
    assert forall i :: 0 <= i < |c| ==> s[|a| + |b| + i] == c[i];
  }

  /** e lies inside the middle part k of b + k + a: everything left of it is below, right of it above. */
  ghost predicate Around(b: seq<Entry>, a: seq<Entry>, e: Entry) {
    (b != [] ==> Less(b[|b| - 1], e)) && (a != [] ==> !Less(a[0], e))
  }

  lemma CutInside(b: seq<Entry>, k: seq<Entry>, a: seq<Entry>, e: Entry)
    requires Sorted(b + k + a) && Around(b, a, e)
    ensures Sorted(k)
    ensures LowerBound(b + k + a, e) == |b| + LowerBound(k, e)
  {
    SortedSlice(b, k, a);
    var p := LowerBound(k, e);
    LowerBoundIsCut(k, e);
    var s := b + k + a;
    forall j | 0 <= j < |b| ensures Less(b[j], e) {
      LessMixed(b[j], b[|b| - 1], e);
    }
    forall j | 0 <= j < |a| ensures !Less(a[j], e) {
      LessMixed(e, a[0], a[j]);
    }
    assert IsCut(s, e, |b| + p);
    CutIsLowerBound(s, e, |b| + p);
  }

  lemma WithInside<T>(b: seq<T>, k: seq<T>, a: seq<T>, p: nat, x: T)
    requires p <= |k|
    ensures With(b + k + a, |b| + p, x) == b + With(k, p, x) + a
  {
    assert (b + k + a)[..|b| + p] == b + k[..p];
    assert (b + k + a)[|b| + p..] == k[p..] + a;
  }

  lemma WithoutInside<T>(b: seq<T>, k: seq<T>, a: seq<T>, p: nat)
    requires p < |k|
    ensures Without(b + k + a, |b| + p) == b + Without(k, p) + a
  {
    assert (b + k + a)[..|b| + p] == b + k[..p];
    assert (b + k + a)[|b| + p + 1..] == k[p + 1..] + a;
  }

  /** Inserting e into the middle part is inserting it into the whole. */
  lemma InsertInside(b: seq<Entry>, k: seq<Entry>, a: seq<Entry>, e: Entry)
    requires Sorted(b + k + a) && Around(b, a, e)
    ensures Inserted(b + k + a, e) == b + Inserted(k, e) + a
  {
    CutInside(b, k, a, e);
    var p := LowerBound(k, e);
    WithInside(b, k, a, p, e);
  }

  /** Removing e from the middle part is removing it from the whole, unless the next entry is e. */
  lemma RemoveInside(b: seq<Entry>, k: seq<Entry>, a: seq<Entry>, e: Entry)
    requires Sorted(b + k + a) && Around(b, a, e) && (a != [] ==> a[0] != e)
    ensures Holds(b + k + a, e) == Holds(k, e)
    ensures Removed(b + k + a, e) == b + Removed(k, e) + a
  {
    CutInside(b, k, a, e);
    var p := LowerBound(k, e);
    if p < |k| {
      assert (b + k + a)[|b| + p] == k[p];
      WithoutInside(b, k, a, p);
    } else if a != [] {
      assert (b + k + a)[|b| + p] == a[0];
    }
  }

  /** Whichever copy of e is taken out, the remaining sequence is the same. */
  lemma RemoveAny(b: seq<Entry>, e: Entry, a: seq<Entry>)
    requires Sorted(b + [e] + a)
    ensures Holds(b + [e] + a, e)
    ensures Removed(b + [e] + a, e) == b + a
  {
    var s := b + [e] + a;
    var p := LowerBound(s, e);
    LowerBoundIsCut(s, e);
    HoldsIsMembership(s, e);
    LessTotal(e, e);
    assert s[|b|] == e;
    assert p <= |b|;
    forall j | p <= j <= |b| ensures s[j] == e {
      if j < |b| { LessTotal(s[j], e); }
    }
    assert s[|b| + 1..] == a && s[..|b|] == b;
    DropEither(s, p, |b|);
  }

  /** Within a run of equal elements it does not matter which one is dropped. */
  lemma DropEither<T>(s: seq<T>, p: nat, q: nat)
    requires p <= q < |s| && forall j :: p <= j <= q ==> s[j] == s[q]
    ensures Without(s, p) == Without(s, q)
  {
    var l, r := Without(s, p), Without(s, q);
    assert forall j :: 0 <= j < |l| ==> l[j] == if j < p then s[j] else s[j + 1];
    assert forall j :: 0 <= j < |r| ==> r[j] == if j < q then s[j] else s[j + 1];
  }

  lemma InsertedKeepsDistinctKeys(s: seq<Entry>, e: Entry)
    requires DistinctKeys(s) && forall x :: x in s ==> x.key != e.key
    ensures DistinctKeys(Inserted(s, e))
  {
    var p := LowerBound(s, e);
    var r := Inserted(s, e);
    assert forall j :: 0 <= j < |r| ==> r[j] == if j < p then s[j] else if j == p then e else s[j - 1];
    assert forall j :: 0 <= j < |s| ==> s[j] in s;
  }

  lemma RemovedKeepsDistinctKeys(s: seq<Entry>, e: Entry)
    requires DistinctKeys(s)
    ensures DistinctKeys(Removed(s, e))
  {
    if Holds(s, e) {
      var p, r := LowerBound(s, e), Removed(s, e);
      assert forall j :: 0 <= j < |r| ==> r[j] == if j < p then s[j] else s[j + 1];
    }
  }

  /** What an insertion leaves of an index's content invariants. */
  lemma ContentsAfterInsert(s: seq<Entry>, e: Entry, unique: bool)
    requires Sorted(s) && (unique ==> DistinctKeys(s) && !HasKey(s, e.key))
    ensures Sorted(Inserted(s, e)) && (unique ==> DistinctKeys(Inserted(s, e)))
  {
    InsertedFacts(s, e);
    if unique {
      InsertedKeepsDistinctKeys(s, e);
    }
  }

  /** What a removal leaves of an index's content invariants. */
  lemma ContentsAfter(s: seq<Entry>, e: Entry, unique: bool)
    requires Sorted(s) && (unique ==> DistinctKeys(s))
    ensures Holds(s, e) <==> e in s
    ensures Sorted(Removed(s, e)) && (unique ==> DistinctKeys(Removed(s, e)))
  {
    HoldsIsMembership(s, e);
    RemovedFacts(s, e);
    if unique {
      RemovedKeepsDistinctKeys(s, e);
    }
  }

  /** A sorted sequence is determined by its multiset of entries. */
  lemma {:induction false} SortedUnique(s: seq<Entry>, t: seq<Entry>)
    requires Sorted(s) && Sorted(t) && multiset(s) == multiset(t)
    ensures s == t
  {
    assert |multiset(s)| == |s| && |multiset(t)| == |t|;
    if s != [] {
      FirstOfSorted(s, t);
      assert s == [s[0]] + s[1..] && t == [t[0]] + t[1..];
      assert multiset(s[1..]) == multiset(s) - multiset{s[0]};
      assert multiset(t[1..]) == multiset(t) - multiset{t[0]};
      SortedUnique(s[1..], t[1..]);
    }
  }

  lemma FirstOfSorted(s: seq<Entry>, t: seq<Entry>)
    requires Sorted(s) && Sorted(t) && multiset(s) == multiset(t) && s != [] && t != []
    ensures s[0] == t[0]
  {
    assert s[0] in multiset(t) && t[0] in multiset(s);
    var i :| 0 <= i < |s| && s[i] == t[0];
    var j :| 0 <= j < |t| && t[j] == s[0];
    LessTotal(s[0], t[0]);
  }

  // ---------------------------------------------------------------- neighbours

  datatype Option<+T> = None | Some(value: T) {
    /** This value if there is one, otherwise the other. */
    function Or(other: Option<T>): Option<T> {
      if Some? then this else other
    }

    function UnwrapOr(default_: T): T {
      if Some? then value else default_
    }
  }

  /** The first entry not below e. */
  function AtOrAbove(s: seq<Entry>, e: Entry): Option<Entry> {
    var p := LowerBound(s, e);
    if p < |s| then Some(s[p]) else None
  }

  /** The last entry below e. */
  function Below(s: seq<Entry>, e: Entry): Option<Entry> {
    var p := LowerBound(s, e);
    if p > 0 then Some(s[p - 1]) else None
  }

  ghost function HasKey(s: seq<Entry>, key: seq<byte>): bool {
    exists x :: x in s && x.key == key
  }

  /** Searching for (key, 0) finds an entry with that key exactly when there is one. */
  lemma FirstWithKey(s: seq<Entry>, key: seq<byte>)
    requires Sorted(s)
    ensures HasKey(s, key) <==> AtOrAbove(s, Entry(key, 0)).Some? && AtOrAbove(s, Entry(key, 0)).value.key == key
  {
    var e := Entry(key, 0);
    var p := LowerBound(s, e);
    LowerBoundIsCut(s, e);
    if HasKey(s, key) {
      var j :| 0 <= j < |s| && s[j].key == key;
      assert !Less(s[j], e);
      assert p <= j;
      var c := CompareKeys(s[p].key, key);
      CompareKeysFlip(s[p].key, key);
      CompareKeysFlip(key, s[p].key);
      if p < j { assert !Less(s[j], s[p]); }
    }
  }

  lemma AtOrAboveInside(b: seq<Entry>, k: seq<Entry>, a: seq<Entry>, e: Entry)
    requires Sorted(b + k + a) && Around(b, a, e)
    ensures AtOrAbove(b + k + a, e) == AtOrAbove(k, e).Or(if a == [] then None else Some(a[0]))
    ensures Below(b + k + a, e) == Below(k, e).Or(if b == [] then None else Some(b[|b| - 1]))
  {
    CutInside(b, k, a, e);
    var p := LowerBound(k, e);
    if p == |k| && a != [] { assert (b + k + a)[|b| + p] == a[0]; }
    if p == 0 && b != [] { assert (b + k + a)[|b| - 1] == b[|b| - 1]; }
  }
}
