/** What becomes of a deletion, page by page: whether it fails on the way, how many entries each page on
    its path is left with, and whether the page above will have to refill it.

    The two failures need an empty leaf or a branch without entries. With room for two items a page, a
    split leaves an empty right half. With more, only the root can be without entries: an even capacity
    lets a deletion that finds nothing merge the last two children of the root, which it then leaves
    as it is. */
module NtxFate {
  import opened Entries
  import opened NtxTree
  import opened NtxMoves

  /** An empty leaf has no largest entry; an only child has no sibling to be refilled from. */
  datatype Fate = EmptyLeaf | NoSibling | Leaves(count: nat, under: bool) {
    predicate RunsLow() { Leaves? && under }
  }

  /** What refilling child i, when it ran low, makes of the node above it. */
  ghost function Above(t: Tree, i: nat, below: Fate, lay: Layout): Fate {
    if !below.Leaves? then below
    else if !below.under then Leaves(|t.items|, |t.items| < lay.Half())
    else if t.items == [] then NoSibling
    else
      var n := if t.Wide() && i <= |t.items| && CanLend(t, i, lay) then |t.items| else |t.items| - 1;
      Leaves(n, n < lay.Half())
  }

  /** Taking the largest entry out of a subtree. */
  ghost function MaxFate(t: Tree, lay: Layout): Fate
    decreases t
  {
    if t.Wide() then Above(t, |t.items|, MaxFate(t.kids[|t.items|], lay), lay)
    else if t.items == [] then EmptyLeaf
    else Leaves(|t.items| - 1, |t.items| - 1 < lay.Half())
  }

  /** Taking e out of a subtree, if it is there. */
  ghost function DeletionFate(t: Tree, e: Entry, lay: Layout): Fate
    decreases t
  {
    var i := LowerBound(t.items, e);
    var here := i < |t.items| && t.items[i] == e;
    if t.Wide() then Above(t, i, if here then MaxFate(t.kids[i], lay) else DeletionFate(t.kids[i], e, lay), lay)
    else if here then Leaves(|t.items| - 1, |t.items| - 1 < lay.Half())
    else Leaves(|t.items|, false)
  }

  /** The tree such a deletion leaves. */
  ghost function WithoutLargest(t: Tree, lay: Layout): Tree
    decreases t
  {
    var i := |t.items|;
    if t.Wide() then Raised(t, i, WithoutLargest(t.kids[i], lay), MaxFate(t.kids[i], lay).RunsLow(), lay)
    else if t.items == [] then t
    else t.(items := t.items[..i - 1])
  }

  ghost function Largest(t: Tree): Entry {
    var s := Flat(t);
    if s == [] then Entry([], 0) else s[|s| - 1]
  }

  /** Deleting e; in a branch, the largest entry of the child on its left takes its place. */
  ghost function Deleted(t: Tree, e: Entry, lay: Layout): Tree
    decreases t
  {
    var i := LowerBound(t.items, e);
    var here := i < |t.items| && t.items[i] == e;
    if !t.Wide() then if here then t.(items := Without(t.items, i)) else t
    else if here then
      Raised(t.(items := t.items[i := Largest(t.kids[i])]), i, WithoutLargest(t.kids[i], lay),
        MaxFate(t.kids[i], lay).RunsLow(), lay)
    else Raised(t, i, Deleted(t.kids[i], e, lay), DeletionFate(t.kids[i], e, lay).RunsLow(), lay)
  }

  lemma MaxFateDown(t: Tree, lay: Layout)
    requires t.Wide()
    ensures MaxFate(t, lay) == Above(t, |t.items|, MaxFate(t.kids[|t.items|], lay), lay)
    ensures WithoutLargest(t, lay) ==
      Raised(t, |t.items|, WithoutLargest(t.kids[|t.items|], lay), MaxFate(t.kids[|t.items|], lay).RunsLow(), lay)
  {
  }

  lemma FateDown(t: Tree, e: Entry, i: nat, lay: Layout)
    requires t.Wide() && i == LowerBound(t.items, e) <= |t.items|
    ensures DeletionFate(t, e, lay) ==
      Above(t, i, if i < |t.items| && t.items[i] == e then MaxFate(t.kids[i], lay)
        else DeletionFate(t.kids[i], e, lay), lay)
    ensures Deleted(t, e, lay) ==
      if i < |t.items| && t.items[i] == e then
        Raised(t.(items := t.items[i := Largest(t.kids[i])]), i, WithoutLargest(t.kids[i], lay),
          MaxFate(t.kids[i], lay).RunsLow(), lay)
      else Raised(t, i, Deleted(t.kids[i], e, lay), DeletionFate(t.kids[i], e, lay).RunsLow(), lay)
  {
  }

  lemma FateHere(t: Tree, e: Entry, i: nat, lay: Layout)
    requires t.IsLeaf() && i == LowerBound(t.items, e)
    ensures DeletionFate(t, e, lay) ==
      if i < |t.items| && t.items[i] == e then Leaves(|t.items| - 1, |t.items| - 1 < lay.Half())
        else Leaves(|t.items|, false)
    ensures Deleted(t, e, lay) == if i < |t.items| && t.items[i] == e then t.(items := Without(t.items, i)) else t
  {
  }

  /** A failure below is the failure of the whole deletion. */
  lemma FateFails(t: Tree, i: nat, below: Fate, lay: Layout)
    requires !below.Leaves?
    ensures Above(t, i, below, lay) == below
  {
  }

  /** An exchanged entry makes no difference. */
  lemma FateOfPromoted(t: Tree, u: Tree, i: nat, below: Fate, lay: Layout)
    requires u.kids == t.kids && |u.items| == |t.items|
    ensures Above(u, i, below, lay) == Above(t, i, below, lay)
  {
  }

  /** Child i became k and was refilled if it ran low, which made q of the node. */
  lemma FateRaised(t: Tree, i: nat, k: Tree, q: Tree, under: bool, refilled: bool, lay: Layout)
    requires t.Wide() && i <= |t.items| && (refilled <==> !(under && t.items == []))
    requires refilled ==> |q.items| == |t.items| - (if under && !CanLend(WithKid(t, i, k), i, lay) then 1 else 0)
    ensures Above(t, i, Leaves(|k.items|, under), lay)
      == if refilled then Leaves(|q.items|, |q.items| < lay.Half()) else NoSibling
  {
    assert CanLend(WithKid(t, i, k), i, lay) == CanLend(t, i, lay);
  }

  /** The fate tells how full the page is afterwards. */
  lemma DeletedCount(t: Tree, e: Entry, lay: Layout)
    ensures DeletionFate(t, e, lay).Leaves? ==> DeletionFate(t, e, lay).count == |Deleted(t, e, lay).items|
  {
    if t.Wide() {
      var i := LowerBound(t.items, e);
      if i < |t.items| && t.items[i] == e {
        RaisedCount(t.(items := t.items[i := Largest(t.kids[i])]), i, WithoutLargest(t.kids[i], lay),
          MaxFate(t.kids[i], lay).RunsLow(), lay);
      } else {
        RaisedCount(t, i, Deleted(t.kids[i], e, lay), DeletionFate(t.kids[i], e, lay).RunsLow(), lay);
      }
    }
  }

  lemma RaisedCount(t: Tree, i: nat, k: Tree, low: bool, lay: Layout)
    requires t.Wide() && i <= |t.items|
    ensures |Raised(t, i, k, low, lay).items|
      == |t.items| - if low && t.items != [] && !CanLend(t, i, lay) then 1 else 0
  {
    assert CanLend(WithKid(t, i, k), i, lay) == CanLend(t, i, lay);
  }

  // ---------------------------------------------------------------- where three items fit a page

  /** Every page below the root then holds an entry, and taking the largest out of one goes through. */
  lemma {:induction false} MaxIsTaken(t: Tree, h: nat, lay: Layout)
    requires lay.maxItem >= 3 && Shape(t, h, lay) && t.items != []
    ensures MaxFate(t, lay).Leaves?
    decreases h
  {
    if h > 0 {
      KidsShape(t, |t.items|, h, lay);
      MaxIsTaken(t.kids[|t.items|], h - 1, lay);
    }
  }

  /** With entries in the root, or a leaf for a root, every deletion goes through. */
  lemma {:induction false} DeletionGoesThrough(t: Tree, e: Entry, h: nat, lay: Layout)
    requires lay.maxItem >= 3 && Shape(t, h, lay) && (t.IsLeaf() || t.items != [])
    ensures DeletionFate(t, e, lay).Leaves?
    decreases h
  {
    if h > 0 {
      var i := LowerBound(t.items, e);
      KidsShape(t, i, h, lay);
      DeletionGoesThrough(t.kids[i], e, h - 1, lay);
      MaxIsTaken(t.kids[i], h - 1, lay);
    }
  }

  /** A branch root without entries, whose only child this deletion leaves less than half full. */
  ghost predicate Stranded(t: Tree, e: Entry, lay: Layout) {
    t.Wide() && t.items == [] && DeletionFate(t.kids[0], e, lay).RunsLow()
  }

  /** A deletion fails if and only if it is stranded. */
  lemma FailsIfStranded(t: Tree, e: Entry, h: nat, lay: Layout)
    requires lay.maxItem >= 3 && Shape(t, h, lay)
    ensures DeletionFate(t, e, lay) == NoSibling <==> Stranded(t, e, lay)
    ensures DeletionFate(t, e, lay) != EmptyLeaf
  {
    if t.IsLeaf() || t.items != [] {
      DeletionGoesThrough(t, e, h, lay);
    } else {
      KidsShape(t, 0, h, lay);
      DeletionGoesThrough(t.kids[0], e, h - 1, lay);
      FateDown(t, e, 0, lay);
    }
  }

  /** The deletion merges two children of the branch c, as neither neighbour of the one it goes
      through can lend. */
  ghost predicate Merges(c: Tree, e: Entry, lay: Layout) {
    var i := LowerBound(c.items, e);
    && c.Wide() && !CanLend(c, i, lay)
    && (if i < |c.items| && c.items[i] == e then MaxFate(c.kids[i], lay) else DeletionFate(c.kids[i], e, lay)).RunsLow()
  }

  /** What decides it is how full that child is: above half it never runs low; below, a branch always
      does; in between it depends on what happens under it. */
  lemma StrandedWhen(t: Tree, e: Entry, h: nat, lay: Layout)
    requires lay.maxItem >= 3 && h > 0 && Shape(t, h, lay) && t.items == [] && Sorted(t.kids[0].items)
    ensures var c := t.kids[0];
      && (h == 1 ==> (Stranded(t, e, lay) <==> e in c.items && |c.items| <= lay.Half()))
      && (h > 1 ==> (Stranded(t, e, lay) <==> |c.items| < lay.Half() || (|c.items| == lay.Half() && Merges(c, e, lay))))
  {
    var c := t.kids[0];
    KidsShape(t, 0, h, lay);
    DeletionGoesThrough(c, e, h - 1, lay);
    if h == 1 {
      HoldsIsMembership(c.items, e);
      FateHere(c, e, LowerBound(c.items, e), lay);
    } else {
      FateDown(c, e, LowerBound(c.items, e), lay);
    }
  }
}
