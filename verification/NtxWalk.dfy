/** Walking a whole index by point queries: from the smallest entry by successors, from the largest
    by predecessors. An entry that is there more than once is visited once. */
module NtxWalk {
  import opened Entries
  import opened NtxTree
  import opened NtxIndex
  import opened NtxQuery

  // ---------------------------------------------------------------- entries without repetition

  /** Each entry of a sorted list once. */
  ghost function Once(s: seq<Entry>): (r: seq<Entry>)
    ensures |r| <= |s|
  {
    if s == [] then []
    else
      var n := |s| - 1;
      Once(s[..n]) + if n > 0 && s[n - 1] == s[n] then [] else [s[n]]
  }

  lemma {:induction false} OnceMembers(s: seq<Entry>)
    ensures forall x :: x in Once(s) <==> x in s
  {
    if s != [] {
      var n := |s| - 1;
      OnceMembers(s[..n]);
      assert s == s[..n] + [s[n]];
      assert n > 0 ==> s[n - 1] in s[..n];
    }
  }

  lemma {:induction false} OnceStrict(s: seq<Entry>)
    requires Sorted(s)
    ensures StrictlySorted(Once(s))
  {
    if s != [] {
      var n := |s| - 1;
      OnceStrict(s[..n]);
      OnceMembers(s[..n]);
      if n == 0 || s[n - 1] != s[n] {
        forall x | x in Once(s[..n]) ensures Less(x, s[n]) {
          var i :| 0 <= i < n && s[i] == x;
          LessTotal(s[n - 1], s[n]);
          LessMixed(s[i], s[n - 1], s[n]);
        }
      }
    }
  }

  /** Nothing is dropped exactly when no entry is there twice. */
  lemma {:induction false} OnceIsAll(s: seq<Entry>)
    requires Sorted(s)
    ensures Once(s) == s <==> StrictlySorted(s)
  {
    OnceStrict(s);
    if StrictlySorted(s) {
      OnceMembers(s);
      SameMembers(Once(s), s);
    }
  }

  /** A strictly sorted list is determined by its members. */
  lemma {:induction false} SameMembers(s: seq<Entry>, t: seq<Entry>)
    requires StrictlySorted(s) && StrictlySorted(t) && forall x :: x in s <==> x in t
    ensures s == t
  {
    assert t != [] ==> t[0] in t;
    if s != [] {
      var m, n := |s| - 1, |t| - 1;
      assert s[m] in t && t[0] in s;
      Highest(s, t[n]);
      Highest(t, s[m]);
      LessTotal(s[m], t[n]);
      forall x ensures x in s[..m] <==> x in t[..n] {
        BelowHighest(s, x);
        BelowHighest(t, x);
      }
      SameMembers(s[..m], t[..n]);
      assert s == s[..m] + [s[m]] && t == t[..n] + [t[n]];
    }
  }

  lemma Highest(s: seq<Entry>, x: Entry)
    requires StrictlySorted(s) && s != []
    ensures x in s ==> !Less(s[|s| - 1], x)
  {
    if x in s {
      var i :| 0 <= i < |s| && s[i] == x;
      LessTotal(x, s[|s| - 1]);
    }
  }

  lemma BelowHighest(s: seq<Entry>, x: Entry)
    requires StrictlySorted(s) && s != []
    ensures x in s[..|s| - 1] <==> x in s && x != s[|s| - 1]
  {
    assert s == s[..|s| - 1] + [s[|s| - 1]];
    LessTotal(s[|s| - 1], s[|s| - 1]);
  }

  // ---------------------------------------------------------------- one step of a walk

  /** a comes before b on the way. */
  predicate Ahead(up: bool, a: Entry, b: Entry) {
    if up then Less(a, b) else Less(b, a)
  }

  /** What was visited so far is all that lies before the entry to come. */
  ghost predicate Trail(up: bool, s: seq<Entry>, visited: seq<Entry>, next: Option<Entry>) {
    && (forall i, j :: 0 <= i < j < |visited| ==> Ahead(up, visited[i], visited[j]))
    && (forall y :: y in visited ==> y in s)
    && match next
       case None => forall y :: y in s ==> y in visited
       case Some(x) =>
         && x in s && (forall y :: y in visited ==> Ahead(up, y, x))
         && forall y :: y in s && Ahead(up, y, x) ==> y in visited
  }

  ghost predicate IsNext(up: bool, s: seq<Entry>, x: Entry, next: Option<Entry>) {
    if up then IsSuccessor(s, x, next) else IsPredecessor(s, x, next)
  }

  lemma TrailGoesOn(up: bool, s: seq<Entry>, visited: seq<Entry>, x: Entry, next: Option<Entry>)
    requires Trail(up, s, visited, Some(x)) && IsNext(up, s, x, next)
    ensures Trail(up, s, visited + [x], next)
    ensures Left(s, visited + [x]) == Left(s, visited) - {x} && x in Left(s, visited)
  {
    hide Less;
    forall y | y in s ensures y == x || Ahead(up, x, y) || (Ahead(up, y, x) && y in visited) {
      LessTotal(x, y);
    }
    LessTotal(x, x);
    if next.Some? {
      forall y | y in visited + [x] ensures Ahead(up, y, next.value) {
        if y in visited {
          Onward(up, y, x, next.value);
        }
      }
      forall y | y in s && Ahead(up, y, next.value) ensures y in visited + [x] {
        LessTotal(x, y);
      }
    }
  }

  lemma Onward(up: bool, a: Entry, b: Entry, c: Entry)
    requires Ahead(up, a, b) && Ahead(up, b, c)
    ensures Ahead(up, a, c)
  {
    if up {
      LessTransitive(a, b, c);
    } else {
      LessTransitive(c, b, a);
    }
  }

  ghost function Left(s: seq<Entry>, visited: seq<Entry>): set<Entry> {
    set y | y in s && y !in visited
  }

  lemma TrailStarts(up: bool, s: seq<Entry>, first: Option<Entry>)
    requires Sorted(s) && (first.Some? <==> s != [])
    requires first.Some? ==> first.value == if up then s[0] else s[|s| - 1]
    ensures Trail(up, s, [], first)
  {
    if first.Some? {
      forall y | y in s ensures !Ahead(up, y, first.value) {
        var i :| 0 <= i < |s| && s[i] == y;
        LessTotal(y, y);
      }
    }
  }

  ghost function Reversed(s: seq<Entry>): (r: seq<Entry>)
    ensures |r| == |s| && forall i :: 0 <= i < |r| ==> r[i] == s[|s| - 1 - i]
  {
    seq(|s|, i requires 0 <= i < |s| => s[|s| - 1 - i])
  }

  lemma TrailEnds(up: bool, s: seq<Entry>, visited: seq<Entry>)
    requires Sorted(s) && Trail(up, s, visited, None)
    ensures visited == if up then Once(s) else Reversed(Once(s))
  {
    OnceStrict(s);
    OnceMembers(s);
    if up {
      SameMembers(visited, Once(s));
    } else {
      var r := Reversed(visited);
      assert forall i :: 0 <= i < |visited| ==> visited[i] == r[|r| - 1 - i];
      forall x ensures x in r <==> x in visited {
        if x in visited {
          var i :| 0 <= i < |visited| && visited[i] == x;
          assert r[|r| - 1 - i] == x;
        }
      }
      SameMembers(r, Once(s));
    }
  }

  // ---------------------------------------------------------------- keys in the tree

  /** Every entry of an index has a key of the key size. */
  lemma {:induction false} KeysInTree(t: Tree, h: nat, lay: Layout, x: Entry)
    requires lay.maxItem >= 2 && Shape(t, h, lay) && x in Flat(t)
    ensures |x.key| == lay.keySize
    decreases h
  {
    if h > 0 {
      InWeave(t.items, t.kids, x);
      if k :| k in t.kids && x in Flat(k) {
        KeysInTree(k, h - 1, lay, x);
      }
    }
  }

  lemma {:induction false} InWeave(items: seq<Entry>, kids: seq<Tree>, x: Entry)
    requires |kids| == |items| + 1 && x in Weave(items, kids)
    ensures x in items || exists k :: k in kids && x in Flat(k)
  {
    assert kids[0] in kids;
    if items != [] && x !in Flat(kids[0]) && x != items[0] {
      InWeave(items[1..], kids[1..], x);
      assert items == [items[0]] + items[1..] && kids == [kids[0]] + kids[1..];
    }
  }

  // ---------------------------------------------------------------- the walks

  method NextOf(up: bool, ix: Index, x: Entry) returns (next: Option<Entry>)
    requires ix.Valid() && x in ix.Contents()
    ensures IsNext(up, ix.Contents(), x, next)
  {
    hide IsSuccessor, IsPredecessor, Flat;
    KeysInTree(ix.tree, ix.height, ix.lay, x);
    assert ix.Pad(x.key) == x.key && Entry(x.key, x.recno) == x;
    var st;
    if up {
      next, st := Successor(ix, x.key, x.recno);
    } else {
      next, st := Predecessor(ix, x.key, x.recno);
    }
  }

  /** Visits an index by Min and Successor, or by Max and Predecessor. Every entry is passed once, so the
      walk is complete exactly when no entry is in the index twice. */
  method Walk(ix: Index, up: bool) returns (visited: seq<Entry>)
    requires ix.Valid() && ix.lay.maxItem >= 3
    ensures visited == if up then Once(ix.Contents()) else Reversed(Once(ix.Contents()))
    ensures |visited| == |ix.Contents()| <==> StrictlySorted(ix.Contents())
    ensures StrictlySorted(ix.Contents()) ==> visited == if up then ix.Contents() else Reversed(ix.Contents())
  {
    hide Index.Valid, Index.Contents, Trail, IsNext, Once, Sorted, StrictlySorted;
    ghost var s := ix.Contents();
    ContentsInOrder(ix);
    visited := [];
    var next;
    if up {
      next := Min(ix);
    } else {
      next := Max(ix);
    }
    TrailStarts(up, s, next);
    while next.Some?
      invariant ix.Contents() == s && Trail(up, s, visited, next)
      decreases |Left(s, visited)|
    {
      var x := next.value;
      TrailMeets(up, s, visited, x);
      next := NextOf(up, ix, x);
      TrailGoesOn(up, s, visited, x, next);
      visited := visited + [x];
    }
    TrailEnds(up, s, visited);
    OnceIsAll(s);
    if |Once(s)| == |s| {
      OnceShorter(s);
    }
  }

  lemma TrailMeets(up: bool, s: seq<Entry>, visited: seq<Entry>, x: Entry)
    requires Trail(up, s, visited, Some(x))
    ensures x in s
  {
  }

  lemma ContentsInOrder(ix: Index)
    requires ix.Valid()
    ensures Sorted(ix.Contents())
  {
  }

  lemma {:induction false} OnceShorter(s: seq<Entry>)
    requires |Once(s)| == |s|
    ensures Once(s) == s
  {
    if s != [] {
      var n := |s| - 1;
      assert |Once(s[..n])| <= n;
      OnceShorter(s[..n]);
      assert Once(s) == s[..n] + [s[n]];
    }
  }

  /** The same key and record number inserted twice: two entries, of which the walks see one. */
  method DoubledEntry() returns (ix: Index, upward: seq<Entry>, downward: seq<Entry>)
    ensures ix.Valid() && |ix.Contents()| == 2 && |upward| == |downward| == 1
  {
    hide Index.Valid, Index.Contents, Once, Inserted;
    ix := new Index(10, false);
    PageHoldsTwo(10);
    var added, st := ix.Insert([65], 1);
    added, st := ix.Insert([65], 1);
    Doubled(Entry(ix.Pad([65]), 1));
    upward := Walk(ix, true);
    downward := Walk(ix, false);
  }

  lemma Doubled(e: Entry)
    ensures Inserted(Inserted([], e), e) == [e, e] && Once([e, e]) == [e]
  {
    assert Inserted([], e) == [e];
    assert Once([e]) == [e] by { assert Once([]) == []; }
    assert [e, e][..1] == [e];
  }
}
