/** Stateless point queries on an index: smallest, largest, first at or above, next and previous entry. */
module NtxQuery {
  import opened Entries
  import opened NtxTree
  import opened NtxMoves
  import opened NtxStore
  import opened NtxSteps
  import opened NtxImages
  import opened NtxIndex

  // ---------------------------------------------------------------- what the answers mean

  /** The smallest entry of s whose key is not below key. */
  ghost predicate IsFirstGE(s: seq<Entry>, key: seq<byte>, r: Option<Entry>) {
    match r
    case None => forall y :: y in s ==> CompareKeys(y.key, key) < 0
    case Some(x) => x in s && CompareKeys(x.key, key) >= 0 &&
                    forall y :: y in s && CompareKeys(y.key, key) >= 0 ==> !Less(y, x)
  }

  /** The smallest entry of s strictly above e. */
  ghost predicate IsSuccessor(s: seq<Entry>, e: Entry, r: Option<Entry>) {
    match r
    case None => forall y :: y in s ==> !Less(e, y)
    case Some(x) => x in s && Less(e, x) && forall y :: y in s && Less(e, y) ==> !Less(y, x)
  }

  /** The largest entry of s strictly below e. */
  ghost predicate IsPredecessor(s: seq<Entry>, e: Entry, r: Option<Entry>) {
    match r
    case None => forall y :: y in s ==> !Less(y, e)
    case Some(x) => x in s && Less(x, e) && forall y :: y in s && Less(y, e) ==> !Less(x, y)
  }

  function Next(e: Entry): Entry { Entry(e.key, e.recno + 1) }

  /** Record numbers are whole, so being above e is being at or above the next record number. */
  lemma AboveIsAtNext(x: Entry, e: Entry)
    ensures Less(e, x) <==> !Less(x, Next(e))
  {
    CompareKeysFlip(e.key, x.key);
    CompareKeysFlip(x.key, e.key);
  }

  lemma KeyAtOrAbove(x: Entry, key: seq<byte>)
    ensures CompareKeys(x.key, key) >= 0 <==> !Less(x, Entry(key, 0))
  {
  }

  lemma AtOrAboveMeans(s: seq<Entry>, e: Entry)
    requires Sorted(s)
    ensures match AtOrAbove(s, e)
            case None => forall y :: y in s ==> Less(y, e)
            case Some(x) => x in s && !Less(x, e) && forall y :: y in s && !Less(y, e) ==> !Less(y, x)
  {
    LowerBoundIsCut(s, e);
    var p := LowerBound(s, e);
    if p < |s| {
      forall y | y in s && !Less(y, e) ensures !Less(y, s[p]) {
        var j :| 0 <= j < |s| && s[j] == y;
        LessTotal(y, y);
        assert p <= j;
      }
    }
  }

  lemma BelowMeans(s: seq<Entry>, e: Entry)
    requires Sorted(s)
    ensures IsPredecessor(s, e, Below(s, e))
  {
    LowerBoundIsCut(s, e);
    var p := LowerBound(s, e);
    if p > 0 {
      forall y | y in s && Less(y, e) ensures !Less(s[p - 1], y) {
        var j :| 0 <= j < |s| && s[j] == y;
        LessTotal(y, y);
        assert j < p;
      }
    }
  }

  lemma FirstGEMeans(s: seq<Entry>, key: seq<byte>)
    requires Sorted(s)
    ensures IsFirstGE(s, key, AtOrAbove(s, Entry(key, 0)))
  {
    AtOrAboveMeans(s, Entry(key, 0));
    forall y: Entry ensures CompareKeys(y.key, key) >= 0 <==> !Less(y, Entry(key, 0)) {
      KeyAtOrAbove(y, key);
    }
  }

  lemma SuccessorMeans(s: seq<Entry>, e: Entry)
    requires Sorted(s)
    ensures IsSuccessor(s, e, AtOrAbove(s, Next(e)))
  {
    AtOrAboveMeans(s, Next(e));
    forall y: Entry ensures Less(e, y) <==> !Less(y, Next(e)) {
      AboveIsAtNext(y, e);
    }
  }

  lemma AlongStrictly(s: seq<Entry>, i: nat)
    requires StrictlySorted(s) && i < |s|
    ensures forall j :: 0 <= j < |s| ==> (Less(s[i], s[j]) <==> i < j) && (Less(s[j], s[i]) <==> j < i)
  {
    forall j | 0 <= j < |s| ensures (Less(s[i], s[j]) <==> i < j) && (Less(s[j], s[i]) <==> j < i) {
      LessTotal(s[i], s[j]);
    }
  }

  /** Over entries without repetition, following successors from the smallest entry visits the
      sequence in order, */
  lemma WalkForward(s: seq<Entry>, i: nat, next: Option<Entry>)
    requires StrictlySorted(s) && i < |s| && IsSuccessor(s, s[i], next)
    ensures next == if i + 1 < |s| then Some(s[i + 1]) else None
  {
    AlongStrictly(s, i);
    if i + 1 < |s| {
      assert s[i + 1] in s && Less(s[i], s[i + 1]);
      var j :| 0 <= j < |s| && s[j] == next.value;
      assert !Less(s[i + 1], s[j]);
    }
  }

  /** and following predecessors from the largest visits it in reverse. */
  lemma WalkBackward(s: seq<Entry>, i: nat, prev: Option<Entry>)
    requires StrictlySorted(s) && i < |s| && IsPredecessor(s, s[i], prev)
    ensures prev == if i > 0 then Some(s[i - 1]) else None
  {
    AlongStrictly(s, i);
    if i > 0 {
      assert s[i - 1] in s && Less(s[i - 1], s[i]);
      var j :| 0 <= j < |s| && s[j] == prev.value;
      assert !Less(s[j], s[i - 1]);
    }
  }

  // ---------------------------------------------------------------- queries

  /** The position of the first item strictly above e. */
  method FindAbove(items: seq<Item>, e: Entry) returns (i: nat)
    requires forall j, k :: 0 <= j < k < |items| ==> !Less(items[k].entry, items[j].entry)
    ensures i <= |items|
    ensures forall j :: 0 <= j < i ==> !Less(e, items[j].entry)
    ensures forall j :: i <= j < |items| ==> Less(e, items[j].entry)
  {
    var lo, hi := 0, |items|;
    while lo < hi
      invariant 0 <= lo <= hi <= |items|
      invariant forall j :: 0 <= j < lo ==> !Less(e, items[j].entry)
      invariant forall j :: hi <= j < |items| ==> Less(e, items[j].entry)
    {
      var mid := (lo + hi) / 2;
      LessTotal(e, items[mid].entry);
      AboveIsAtNext(items[mid].entry, e);
      CompareKeysFlip(e.key, items[mid].entry.key);
      CompareKeysFlip(items[mid].entry.key, e.key);
      if CompareEntries(items[mid].entry, e) <= 0 {
        forall j | 0 <= j < mid ensures !Less(e, items[j].entry) {
          LessMixed(e, items[j].entry, items[mid].entry);
        }
        lo := mid + 1;
      } else {
        forall j | mid < j < |items| ensures Less(e, items[j].entry) {
          LessMixed(e, items[mid].entry, items[j].entry);
        }
        hi := mid;
      }
    }
    i := lo;
  }

  ghost function FirstLeaf(t: Tree): Tree
    decreases t
  {
    if t.Wide() then FirstLeaf(t.kids[0]) else t
  }

  ghost function LastLeaf(t: Tree): Tree
    decreases t
  {
    if t.Wide() then LastLeaf(t.kids[|t.items|]) else t
  }

  /** The leaf reached leftmost starts the sequence, unless it is empty. */
  lemma {:induction false} FirstLeafStarts(t: Tree, h: nat, lay: Layout)
    requires lay.maxItem >= 2 && Shape(t, h, lay)
    ensures var f := FirstLeaf(t).items;
      f != [] ==> Flat(t) != [] && Flat(t)[0] == f[0]
    ensures lay.maxItem >= 3 && h > 0 ==> FirstLeaf(t).items != []
    ensures h == 0 ==> FirstLeaf(t) == t && Flat(t) == t.items
    decreases h
  {
    if h > 0 {
      KidsShape(t, 0, h, lay);
      FirstLeafStarts(t.kids[0], h - 1, lay);
      FlatAt(t, 0);
    }
  }

  lemma {:induction false} LastLeafEnds(t: Tree, h: nat, lay: Layout)
    requires lay.maxItem >= 2 && Shape(t, h, lay)
    ensures var l := LastLeaf(t).items;
      l != [] ==> Flat(t) != [] && Flat(t)[|Flat(t)| - 1] == l[|l| - 1]
    ensures lay.maxItem >= 3 && h > 0 ==> LastLeaf(t).items != []
    ensures h == 0 ==> LastLeaf(t) == t && Flat(t) == t.items
    decreases h
  {
    if h > 0 {
      var n := |t.items|;
      KidsShape(t, n, h, lay);
      LastLeafEnds(t.kids[n], h - 1, lay);
      FlatAt(t, n);
    }
  }

  /** A split leaves its right half empty exactly when a page holds only two entries, that is
      for keys of 246 bytes and more; this is when the rightmost leaf can be empty. */
  lemma SplitRightHalf(p: Tree, i: nat, off: nat, h: nat, lay: Layout)
    requires lay.maxItem >= 2 && h > 0 && Shape(p, h, lay) && i <= |p.items| < lay.maxItem
    requires |p.kids[i].items| == lay.maxItem
    ensures SplitKid(p, i, off).Wide()
    ensures SplitKid(p, i, off).kids[i + 1].items == [] <==> lay.maxItem == 2
    ensures SplitKid(p, i, off).kids[i].items != []
  {
    SplitSummary(p, i, off, h, lay);
  }

  lemma PageHoldsTwo(keySize: nat)
    requires 1 <= keySize <= MAX_KEY_SIZE
    ensures ComputeMaxItem(keySize + 8) >= 2
    ensures ComputeMaxItem(keySize + 8) == 2 <==> keySize >= 246
  {
  }

  /** An entry that none of a list is below precedes or equals each of them in bytes. */
  lemma LeastInBytes(s: seq<Entry>, x: Entry)
    requires forall y :: y in s ==> !Less(y, x)
    ensures forall y :: y in s ==>
      || (x.key == y.key && x.recno <= y.recno)
      || exists i :: 0 <= i <= |x.key| && i <= |y.key| && x.key[..i] == y.key[..i]
           && (if i < |x.key| then i < |y.key| && x.key[i] < y.key[i] else i < |y.key|)
  {
    forall y | y in s ensures
      || (x.key == y.key && x.recno <= y.recno)
      || exists i :: 0 <= i <= |x.key| && i <= |y.key| && x.key[..i] == y.key[..i]
           && (if i < |x.key| then i < |y.key| && x.key[i] < y.key[i] else i < |y.key|)
    {
      EntryOrder(x, y);
    }
  }

  /** An entry that is below none of a list follows or equals each of them in bytes. */
  lemma GreatestInBytes(s: seq<Entry>, x: Entry)
    requires forall y :: y in s ==> !Less(x, y)
    ensures forall y :: y in s ==>
      || (y.key == x.key && y.recno <= x.recno)
      || exists i :: 0 <= i <= |y.key| && i <= |x.key| && y.key[..i] == x.key[..i]
           && (if i < |y.key| then i < |x.key| && y.key[i] < x.key[i] else i < |x.key|)
  {
    forall y | y in s ensures
      || (y.key == x.key && y.recno <= x.recno)
      || exists i :: 0 <= i <= |y.key| && i <= |x.key| && y.key[..i] == x.key[..i]
           && (if i < |y.key| then i < |x.key| && y.key[i] < x.key[i] else i < |x.key|)
    {
      EntryOrder(y, x);
    }
  }

  method Min(ix: Index) returns (r: Option<Entry>)
    requires ix.Valid()
    ensures r.Some? <==> FirstLeaf(ix.tree).items != []
    ensures r.Some? ==> ix.Contents() != [] && r.value == ix.Contents()[0]
    ensures r.Some? ==> forall y :: y in ix.Contents() ==>
      || (r.value.key == y.key && r.value.recno <= y.recno)
      || exists i :: 0 <= i <= |r.value.key| && i <= |y.key| && r.value.key[..i] == y.key[..i]
           && (if i < |r.value.key| then i < |y.key| && r.value.key[i] < y.key[i] else i < |y.key|)
    ensures ix.lay.maxItem >= 3 ==> (r.Some? <==> ix.Contents() != [])
  {
    ghost var t, h := ix.tree, ix.height;
    FirstLeafStarts(t, h, ix.lay);
    var offset := ix.root;
    while true
      invariant Standing(ix.pages, ix.lay, t, h) && offset == t.off && FirstLeaf(t) == FirstLeaf(ix.tree)
      decreases h
    {
      var n := ix.Visit(offset, t, h);
      if n.leaf {
        if |n.items| == 0 {
          return None;
        }
        r := Some(n.items[0].entry);
        ghost var all := ix.Contents();
        forall y | y in all ensures !Less(y, all[0]) {
          LessTotal(y, y);
        }
        LeastInBytes(all, all[0]);
        return;
      }
      GoDown(ix.pages, ix.lay, t, h, 0);
      offset := n.ChildAt(0);
      t, h := t.kids[0], h - 1;
    }
  }

  method Max(ix: Index) returns (r: Option<Entry>)
    requires ix.Valid()
    ensures r.Some? <==> LastLeaf(ix.tree).items != []
    ensures r.Some? ==> ix.Contents() != [] && r.value == ix.Contents()[|ix.Contents()| - 1]
    ensures r.Some? ==> forall y :: y in ix.Contents() ==>
      || (y.key == r.value.key && y.recno <= r.value.recno)
      || exists i :: 0 <= i <= |y.key| && i <= |r.value.key| && y.key[..i] == r.value.key[..i]
           && (if i < |y.key| then i < |r.value.key| && y.key[i] < r.value.key[i] else i < |r.value.key|)
    ensures ix.lay.maxItem >= 3 ==> (r.Some? <==> ix.Contents() != [])
  {
    ghost var t, h := ix.tree, ix.height;
    LastLeafEnds(t, h, ix.lay);
    var offset := ix.root;
    while true
      invariant Standing(ix.pages, ix.lay, t, h) && offset == t.off && LastLeaf(t) == LastLeaf(ix.tree)
      decreases h
    {
      var n := ix.Visit(offset, t, h);
      if n.leaf {
        if |n.items| == 0 {
          return None;
        }
        r := Some(n.items[|n.items| - 1].entry);
        ghost var all := ix.Contents();
        forall y | y in all ensures !Less(all[|all| - 1], y) {
          LessTotal(y, y);
        }
        GreatestInBytes(all, all[|all| - 1]);
        return;
      }
      GoDown(ix.pages, ix.lay, t, h, |t.items|);
      offset := n.right;
      t, h := t.kids[|t.items|], h - 1;
    }
  }

  /** The smallest entry at or above e. */
  method DescendFirst(ix: Index, e: Entry) returns (best: Option<Entry>)
    requires ix.Valid()
    ensures best == AtOrAbove(ix.Contents(), e)
  {
    ghost var t, h := ix.tree, ix.height;
    best := None;
    var offset := ix.root;
    while true
      invariant Standing(ix.pages, ix.lay, t, h) && offset == t.off
      invariant AtOrAbove(ix.Contents(), e) == AtOrAbove(Flat(t), e).Or(best)
      decreases h
    {
      var n, i := ix.Search(offset, e, t, h);
      if i < |n.items| {
        best := Some(n.items[i].entry);
      }
      if n.leaf {
        return best;
      }
      offset := n.ChildAt(i);
      t, h := t.kids[i], h - 1;
    }
  }

  method FirstGE(ix: Index, key: seq<byte>) returns (r: Option<Entry>, status: Status)
    requires ix.Valid()
    ensures status == if |key| > ix.lay.keySize then KeyTooLong else Ok
    ensures status == Ok ==> IsFirstGE(ix.Contents(), ix.Pad(key), r)
  {
    if |key| > ix.lay.keySize {
      return None, KeyTooLong;
    }
    r := DescendFirst(ix, Entry(ix.Pad(key), 0));
    FirstGEMeans(ix.Contents(), ix.Pad(key));
    status := Ok;
  }

  method Predecessor(ix: Index, key: seq<byte>, recno: nat) returns (r: Option<Entry>, status: Status)
    requires ix.Valid()
    ensures status == if |key| > ix.lay.keySize then KeyTooLong else Ok
    ensures status == Ok ==> IsPredecessor(ix.Contents(), Entry(ix.Pad(key), recno), r)
  {
    if |key| > ix.lay.keySize {
      return None, KeyTooLong;
    }
    var e := Entry(ix.Pad(key), recno);
    ghost var t, h := ix.tree, ix.height;
    var best: Option<Entry> := None;
    var offset := ix.root;
    while true
      invariant Standing(ix.pages, ix.lay, t, h) && offset == t.off
      invariant Below(ix.Contents(), e) == Below(Flat(t), e).Or(best)
      decreases h
    {
      var n, i := ix.Search(offset, e, t, h);
      if i > 0 {
        best := Some(n.items[i - 1].entry);
      }
      if n.leaf {
        break;
      }
      offset := n.ChildAt(i);
      t, h := t.kids[i], h - 1;
    }
    BelowMeans(ix.Contents(), e);
    return best, Ok;
  }

  method Successor(ix: Index, key: seq<byte>, recno: nat) returns (r: Option<Entry>, status: Status)
    requires ix.Valid()
    ensures status == if |key| > ix.lay.keySize then KeyTooLong else Ok
    ensures status == Ok ==> IsSuccessor(ix.Contents(), Entry(ix.Pad(key), recno), r)
  {
    if |key| > ix.lay.keySize {
      return None, KeyTooLong;
    }
    var e := Entry(ix.Pad(key), recno);
    ghost var t, h := ix.tree, ix.height;
    var best: Option<Entry> := None;
    var offset := ix.root;
    while true
      invariant Standing(ix.pages, ix.lay, t, h) && offset == t.off
      invariant AtOrAbove(ix.Contents(), Next(e)) == AtOrAbove(Flat(t), Next(e)).Or(best)
      decreases h
    {
      var n, i := StepAbove(ix, offset, e, t, h);
      if i < |n.items| {
        best := Some(n.items[i].entry);
      }
      if n.leaf {
        break;
      }
      offset := n.ChildAt(i);
      t, h := t.kids[i], h - 1;
    }
    SuccessorMeans(ix.Contents(), e);
    return best, Ok;
  }

  method StepAbove(ix: Index, offset: nat, e: Entry, ghost t: Tree, ghost h: nat) returns (n: Node, i: nat)
    requires Standing(ix.pages, ix.lay, t, h) && offset == t.off
    ensures fresh(n) && n.Matches(t) && i <= |t.items| && (n.leaf <==> h == 0)
    ensures n.leaf ==> AtOrAbove(Flat(t), Next(e)) == ItemAt(t.items, i)
    ensures !n.leaf ==>
      && t.Wide() && Standing(ix.pages, ix.lay, t.kids[i], h - 1) && n.ChildAt(i) == t.kids[i].off
      && AtOrAbove(Flat(t), Next(e)) == AtOrAbove(Flat(t.kids[i]), Next(e)).Or(ItemAt(t.items, i))
  {
    n := ix.Visit(offset, t, h);
    i := FindAbove(n.items, e);
    forall j | 0 <= j < |t.items| ensures Less(e, t.items[j]) <==> !Less(t.items[j], Next(e)) {
      AboveIsAtNext(t.items[j], e);
    }
    SearchStep(ix.pages, ix.lay, t, h, i, Next(e));
  }
}
