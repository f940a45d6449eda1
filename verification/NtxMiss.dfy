/** What a deletion does to an index that does not hold the entry.

    A page is refilled on the way back up whenever it holds less than half a page, whether or not
    anything was removed below it. A split leaves (maxItem - 1) / 2 entries in the right half,
    which for even capacities is one less than half: such a branch page on the search path is
    rebalanced by a deletion that finds nothing. */
module NtxMiss {
  import opened Entries
  import opened NtxTree
  import opened NtxMoves

  /** The child the search for e continues in. */
  function PathKid(t: Tree, e: Entry): Tree
    requires t.Wide()
  {
    t.kids[LowerBound(t.items, e)]
  }

  /** No branch page below t on the search path of e is less than half full. */
  ghost predicate Quiet(t: Tree, e: Entry, lay: Layout)
    decreases t
  {
    t.Wide() ==>
      var c := PathKid(t, e);
      c.IsLeaf() || (|c.items| >= lay.Half() && Quiet(c, e, lay))
  }

  /** With odd capacity the minimum fill is half a page, so every search path is quiet. */
  lemma {:induction false} OddIsQuiet(t: Tree, e: Entry, h: nat, lay: Layout)
    requires lay.maxItem >= 2 && lay.maxItem % 2 == 1 && Shape(t, h, lay)
    ensures Quiet(t, e, lay)
    decreases h
  {
    if h > 0 {
      KidsShape(t, LowerBound(t.items, e), h, lay);
      OddIsQuiet(PathKid(t, e), e, h - 1, lay);
    }
  }
}
