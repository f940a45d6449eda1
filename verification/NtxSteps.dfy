/** One level of a descent: how the change in child i is the change in the whole node. */
module NtxSteps {
  import opened Entries
  import opened NtxTree
  import opened NtxMoves

  ghost predicate LeafOrWide(t: Tree) { t.IsLeaf() || t.Wide() }

  lemma {:induction false} ItemsInWeave(items: seq<Entry>, kids: seq<Tree>)
    requires kids == [] || |kids| == |items| + 1
    ensures forall x :: x in items ==> x in Weave(items, kids)
  {
    if kids != [] && items != [] {
      ItemsInWeave(items[1..], kids[1..]);
      assert items == [items[0]] + items[1..];
    }
  }

  lemma {:induction false} WeaveSorted(items: seq<Entry>, kids: seq<Tree>)
    requires (kids == [] || |kids| == |items| + 1) && Sorted(Weave(items, kids))
    ensures Sorted(items)
  {
    if kids != [] && items != [] {
      SortedSlice(Flat(kids[0]), [items[0]], Weave(items[1..], kids[1..]));
      WeaveSorted(items[1..], kids[1..]);
      ItemsInWeave(items[1..], kids[1..]);
      assert items == [items[0]] + items[1..];
      assert items[0] in [items[0]];
    }
  }

  /** The entries of one page are sorted when the whole subtree is. */
  lemma ItemsSorted(t: Tree)
    requires LeafOrWide(t) && Sorted(Flat(t))
    ensures Sorted(t.items)
  {
    WeaveSorted(t.items, t.kids);
  }

  /** e belongs under child i: the entry on the left is below e, the one on the right is not. */
  ghost predicate Under(p: Tree, i: nat, e: Entry)
    requires i <= |p.items|
  {
    (i > 0 ==> Less(p.items[i - 1], e)) && (i < |p.items| ==> !Less(p.items[i], e))
  }

  lemma KidSorted(p: Tree, i: nat)
    requires p.Wide() && i <= |p.items| && Sorted(Flat(p))
    ensures Sorted(Flat(p.kids[i]))
  {
    FlatAt(p, i);
    SortedSlice(Left(p, i), Flat(p.kids[i]), Right(p, i));
  }

  lemma AroundKid(p: Tree, i: nat, e: Entry)
    requires p.Wide() && i <= |p.items| && Sorted(Flat(p)) && Under(p, i, e)
    ensures Flat(p) == Left(p, i) + Flat(p.kids[i]) + Right(p, i)
    ensures Around(Left(p, i), Right(p, i), e)
  {
    FlatAt(p, i);
  }

  lemma InsertStep(p: Tree, i: nat, e: Entry, k: Tree)
    requires p.Wide() && i <= |p.items| && Sorted(Flat(p)) && Under(p, i, e)
    requires Flat(k) == Inserted(Flat(p.kids[i]), e)
    ensures Flat(WithKid(p, i, k)) == Inserted(Flat(p), e)
  {
    AroundKid(p, i, e);
    InsertInside(Left(p, i), Flat(p.kids[i]), Right(p, i), e);
    WithKidFacts(p, i, k);
  }

  lemma RemoveStep(p: Tree, i: nat, e: Entry, k: Tree)
    requires p.Wide() && i <= |p.items| && Sorted(Flat(p)) && Under(p, i, e)
    requires i < |p.items| ==> p.items[i] != e
    requires Flat(k) == Removed(Flat(p.kids[i]), e)
    ensures Flat(WithKid(p, i, k)) == Removed(Flat(p), e)
    ensures Holds(Flat(p), e) == Holds(Flat(p.kids[i]), e)
  {
    AroundKid(p, i, e);
    RemoveInside(Left(p, i), Flat(p.kids[i]), Right(p, i), e);
    WithKidFacts(p, i, k);
  }

  /** Replacing entry i by the largest entry of child i, taken out of that child. */
  function Promote(p: Tree, i: nat, k: Tree, pred: Entry): Tree
    requires p.Wide() && i < |p.items|
  {
    PairToPair(p, i, k, pred, p.kids[i + 1])
  }

  lemma PromoteStep(p: Tree, i: nat, e: Entry, k: Tree, pred: Entry)
    requires p.Wide() && i < |p.items| && Sorted(Flat(p)) && p.items[i] == e
    requires Flat(p.kids[i]) == Flat(k) + [pred]
    ensures Flat(Promote(p, i, k, pred)) == Removed(Flat(p), e)
    ensures Holds(Flat(p), e)
  {
    var q := Promote(p, i, k, pred);
    FlatAtPair(p, i);
    FlatAtPair(q, i);
    assert q.items[..i] == p.items[..i] && q.kids[..i] == p.kids[..i];
    assert q.items[i + 1..] == p.items[i + 1..] && q.kids[i + 2..] == p.kids[i + 2..];
    var b := Left(p, i) + Flat(k) + [pred];
    var a := Flat(p.kids[i + 1]) + Right(p, i + 1);
    assert Flat(p) == b + [e] + a;
    assert Flat(q) == b + a;
    RemoveAny(b, e, a);
  }

  /** Leaf insertion and removal at the position the search found. */
  lemma LeafInsert(t: Tree, i: nat, e: Entry)
    requires t.IsLeaf() && IsCut(t.items, e, i)
    ensures Flat(t.(items := With(t.items, i, e))) == Inserted(Flat(t), e)
  {
    CutIsLowerBound(t.items, e, i);
  }

  lemma LeafRemove(t: Tree, i: nat, e: Entry)
    requires t.IsLeaf() && IsCut(t.items, e, i)
    ensures Holds(Flat(t), e) <==> i < |t.items| && t.items[i] == e
    ensures i < |t.items| && t.items[i] == e ==> Flat(t.(items := Without(t.items, i))) == Removed(Flat(t), e)
  {
    CutIsLowerBound(t.items, e, i);
  }

  /** Where the descent goes on after splitting child i. */
  lemma UnderAfterSplit(p: Tree, i: nat, q: Tree, med: Entry, e: Entry)
    requires i <= |p.items| && Under(p, i, e) && q.items == With(p.items, i, med)
    ensures CompareEntries(e, med) > 0 ==> Under(q, i + 1, e)
    ensures CompareEntries(e, med) <= 0 ==> Under(q, i, e)
  {
    LessTotal(e, med);
    CompareKeysFlip(e.key, med.key);
    CompareKeysFlip(med.key, e.key);
  }

  function ItemAt(items: seq<Entry>, i: nat): Option<Entry> {
    if i < |items| then Some(items[i]) else None
  }

  function ItemBefore(items: seq<Entry>, i: nat): Option<Entry>
    requires i <= |items|
  {
    if i > 0 then Some(items[i - 1]) else None
  }

  /** The first entry at or above e, and the last one below it, are found on the way down. */
  lemma AboveStep(p: Tree, i: nat, e: Entry)
    requires p.Wide() && i <= |p.items| && Sorted(Flat(p)) && Under(p, i, e)
    ensures AtOrAbove(Flat(p), e) == AtOrAbove(Flat(p.kids[i]), e).Or(ItemAt(p.items, i))
    ensures Below(Flat(p), e) == Below(Flat(p.kids[i]), e).Or(ItemBefore(p.items, i))
  {
    AroundKid(p, i, e);
    FlatAt(p, i);
    AtOrAboveInside(Left(p, i), Flat(p.kids[i]), Right(p, i), e);
  }

  /** The old root under an empty branch, before that branch gets its first entry. */
  lemma GrowFacts(t: Tree, off: nat, h: nat, lay: Layout)
    requires lay.maxItem >= 2 && Shape(t, h, lay) && |t.items| == lay.maxItem
    ensures var p := Tree(off, [], [t]);
      p.Wide() && Shape(p, h + 1, lay) && Flat(p) == Flat(t) && Foot(p) + multiset{} == Foot(t) + multiset{off}
  {
    assert Feet([t]) == Foot(t) + Feet([]);
  }

  /** What a root split leaves: one entry over two half-full children, and the same contents. */
  lemma GrowSummary(t: Tree, off: nat, half: nat, h: nat, lay: Layout)
    requires lay.maxItem >= 2 && Shape(t, h, lay) && |t.items| == lay.maxItem
    ensures var q := SplitKid(Tree(off, [], [t]), 0, half);
      q.off == off && Shape(q, h + 1, lay) && |q.items| == 1 && Flat(q) == Flat(t)
  {
    GrowFacts(t, off, h, lay);
    SplitSummary(Tree(off, [], [t]), 0, half, h + 1, lay);
  }
}
