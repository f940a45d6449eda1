/** With even capacity, deletions that find nothing wear an index down until one of them fails.

    The file is opened in good order. Its pages below the root hold one entry less than half a page,
    the least a split leaves; so each deletion that passes a branch of leaves merges it with its
    neighbour. The first one merges the two children of the root, and the root keeps none of its
    entries. Every further one takes an entry from its only child, until that has too few. */
module NtxWorn {
  import opened Entries
  import opened NtxTree
  import opened NtxMoves
  import opened NtxSteps
  import opened NtxStore
  import opened NtxFate
  import opened NtxIndex
  import opened NtxWitness
  import NtxQuery
  import NtxRun

  // ---------------------------------------------------------------- lean trees

  /** Entries with m consecutive even record numbers, so that there is room for an absent one between any two. */
  function Range(n: nat, r: nat, m: nat): (s: seq<Entry>)
    ensures |s| == m && forall i :: 0 <= i < m ==> s[i] == Row(n, 2 * (r + i))
  {
    seq(m, i requires 0 <= i < m => Row(n, 2 * (r + i)))
  }

  lemma RangeJoin(n: nat, r: nat, a: nat, b: nat)
    ensures Range(n, r, a) + [Row(n, 2 * (r + a))] + Range(n, r + a + 1, b) == Range(n, r, a + 1 + b)
  {
  }

  /** The pages from number k on. */
  ghost function Span(k: nat, c: nat): multiset<nat> {
    if c == 0 then multiset{} else Span(k, c - 1) + multiset{(k + c - 1) * PAGE_SIZE}
  }

  lemma SpanNext(k: nat, c: nat, last: nat)
    requires last == k + c
    ensures Span(k, c + 1) == Span(k, c) + multiset{last * PAGE_SIZE}
  {
  }

  lemma {:induction false} SpanJoin(k: nat, a: nat, b: nat)
    ensures Span(k, a) + Span(k + a, b) == Span(k, a + b)
    decreases b
  {
    hide Span;
    if b == 0 {
      SpanNone(k + a);
    } else {
      var c, last := b - 1, k + a + b - 1;
      SpanJoin(k, a, c);
      SpanNext(k + a, c, last);
      SpanNext(k, a + c, last);
      assert Span(k, a) + Span(k + a, b) == Span(k, a) + Span(k + a, c) + multiset{last * PAGE_SIZE};
      assert a + c + 1 == a + b;
    }
  }

  lemma SpanNone(k: nat)
    ensures Span(k, 0) == multiset{}
  {
  }

  lemma {:induction false} SpanIsUpto(c: nat)
    ensures Span(1, c) == Upto(c)
  {
    if c > 0 {
      SpanIsUpto(c - 1);
    }
  }

  /** How many pages and entries a tree of height h has, with g entries on every page, and how many m
      of them side by side, with the separators. */
  function LeanPages(g: nat, h: nat): nat
    decreases h, 0
  {
    if h == 0 then 1 else 1 + KidPages(g, h - 1, g + 1)
  }

  function KidPages(g: nat, h: nat, m: nat): nat
    decreases h, m + 1
  {
    if m == 0 then 0 else LeanPages(g, h) + KidPages(g, h, m - 1)
  }

  function LeanRows(g: nat, h: nat): nat
    decreases h, 0
  {
    if h == 0 then g else KidRows(g, h - 1, g)
  }

  function KidRows(g: nat, h: nat, m: nat): nat
    decreases h, m + 1
  {
    if m == 0 then LeanRows(g, h) else LeanRows(g, h) + 1 + KidRows(g, h, m - 1)
  }

  /** The tree with g entries on every page, with its pages numbered from k and its entries from r. */
  function Lean(n: nat, g: nat, h: nat, k: nat, r: nat): Tree
    decreases h, 0, 0
  {
    if h == 0 then Tree(k * PAGE_SIZE, Range(n, r, g), []) else Branch(n, g, h - 1, k, r, g)
  }

  /** A page with m entries over such trees. */
  function Branch(n: nat, g: nat, h: nat, k: nat, r: nat, m: nat): Tree
    decreases h, 2, m
  {
    Tree(k * PAGE_SIZE, Seps(n, g, h, r, m), Kids(n, g, h, k + 1, r, m + 1))
  }

  function Seps(n: nat, g: nat, h: nat, r: nat, m: nat): seq<Entry>
    decreases m
  {
    if m == 0 then [] else [Row(n, 2 * (r + LeanRows(g, h)))] + Seps(n, g, h, r + LeanRows(g, h) + 1, m - 1)
  }

  function Kids(n: nat, g: nat, h: nat, k: nat, r: nat, m: nat): seq<Tree>
    decreases h, 1, m
  {
    if m == 0 then []
    else [Lean(n, g, h, k, r)] + Kids(n, g, h, k + LeanPages(g, h), r + LeanRows(g, h) + 1, m - 1)
  }

  ghost predicate Even(lay: Layout, g: nat) {
    g >= 1 && lay.maxItem == 2 * (g + 1)
  }

  lemma {:induction false} LeanFacts(lay: Layout, g: nat, h: nat, k: nat, r: nat)
    requires Even(lay, g) && k > 0
    ensures var t := Lean(lay.keySize, g, h, k, r);
      && KidOk(t, h, lay) && Sized(t) && |t.items| == g
      && Flat(t) == Range(lay.keySize, r, LeanRows(g, h)) && Foot(t) == Span(k, LeanPages(g, h))
    decreases h, 0, 0
  {
    if h > 0 {
      BranchFacts(lay, g, h - 1, k, r, g);
    } else {
      assert Span(k, 1) == Span(k, 0) + multiset{k * PAGE_SIZE};
    }
  }

  lemma {:induction false} BranchFacts(lay: Layout, g: nat, h: nat, k: nat, r: nat, m: nat)
    requires Even(lay, g) && k > 0 && m <= lay.maxItem
    ensures var t := Branch(lay.keySize, g, h, k, r, m);
      && Shape(t, h + 1, lay) && Sized(t) && |t.items| == m
      && Flat(t) == Range(lay.keySize, r, KidRows(g, h, m)) && Foot(t) == Span(k, 1 + KidPages(g, h, m + 1))
    decreases h, 2, m
  {
    hide Range, Lean, Seps, Kids, KidOk, Sized, Weave, Feet, Span;
    var t := Branch(lay.keySize, g, h, k, r, m);
    KidsFacts(lay, g, h, k + 1, r, m);
    assert Sized(t) by { BranchSized(t.off, t.items, t.kids); }
    SpanJoin(k, 1, KidPages(g, h, m + 1));
    SpanOne(k);
  }

  lemma SpanOne(k: nat)
    ensures Span(k, 1) == multiset{k * PAGE_SIZE}
  {
    assert Span(k, 1) == Span(k, 0) + multiset{k * PAGE_SIZE};
  }

  lemma WeaveMore(a: Tree, s: Entry, items: seq<Entry>, kids: seq<Tree>)
    requires |kids| == |items| + 1
    ensures Weave([s] + items, [a] + kids) == Flat(a) + [s] + Weave(items, kids)
    ensures Feet([a] + kids) == Foot(a) + Feet(kids)
  {
    assert ([s] + items)[1..] == items && ([a] + kids)[1..] == kids;
  }

  lemma {:induction false} KidsFacts(lay: Layout, g: nat, h: nat, k: nat, r: nat, m: nat)
    requires Even(lay, g) && k > 0
    ensures var items, kids := Seps(lay.keySize, g, h, r, m), Kids(lay.keySize, g, h, k, r, m + 1);
      && |items| == m && |kids| == m + 1
      && (forall e :: e in items ==> |e.key| == lay.keySize)
      && (forall j :: 0 <= j < |kids| ==> KidOk(kids[j], h, lay) && Sized(kids[j]) && |kids[j].items| == g)
      && Weave(items, kids) == Range(lay.keySize, r, KidRows(g, h, m))
      && Feet(kids) == Span(k, KidPages(g, h, m + 1))
    decreases h, 1, m
  {
    hide Range, Lean, Sized, KidOk, Flat, Foot, Span, Weave, Feet;
    var n := lay.keySize;
    var a := Lean(n, g, h, k, r);
    LeanFacts(lay, g, h, k, r);
    if m == 0 {
      assert Kids(n, g, h, k, r, 1) == [a];
      WeaveOne(a);
    } else {
      var k2, r2 := k + LeanPages(g, h), r + LeanRows(g, h) + 1;
      KidsFacts(lay, g, h, k2, r2, m - 1);
      var items, kids := Seps(n, g, h, r2, m - 1), Kids(n, g, h, k2, r2, m);
      assert Seps(n, g, h, r, m) == [Row(n, 2 * (r2 - 1))] + items && Kids(n, g, h, k, r, m + 1) == [a] + kids;
      WeaveMore(a, Row(n, 2 * (r2 - 1)), items, kids);
      RangeJoin(n, r, LeanRows(g, h), KidRows(g, h, m - 1));
      SpanJoin(k, LeanPages(g, h), KidPages(g, h, m));
    }
  }

  // ---------------------------------------------------------------- deletions that find nothing

  /** A branch with g entries over leaves. */
  ghost predicate Twig(t: Tree, g: nat) {
    t.Wide() && |t.items| == g && forall j :: 0 <= j < |t.kids| ==> t.kids[j].IsLeaf()
  }

  lemma MissTwig(x: Tree, e: Entry, g: nat, lay: Layout)
    requires Twig(x, g) && g < lay.Half() && e !in Flat(x)
    ensures Deleted(x, e, lay) == x && DeletionFate(x, e, lay) == Leaves(g, true)
  {
    var i := LowerBound(x.items, e);
    FlatAt(x, i);
    var leaf := x.kids[i];
    assert Flat(leaf) == leaf.items;
    FateHere(leaf, e, LowerBound(leaf.items, e), lay);
    FateDown(x, e, i, lay);
    assert WithKid(x, i, leaf) == x;
  }

  /** It merges such a child with its right neighbour, unless a neighbour can lend. */
  lemma MissPair(c: Tree, e: Entry, i: nat, g: nat, lay: Layout)
    requires c.Wide() && i == LowerBound(c.items, e) < |c.items| && e !in Flat(c)
    requires Twig(c.kids[i], g) && g < lay.Half() && !CanLend(c, i, lay)
    ensures Deleted(c, e, lay) == MergeKids(c, i)
    ensures DeletionFate(c, e, lay) == Leaves(|c.items| - 1, |c.items| - 1 < lay.Half())
  {
    hide Flat, Twig, Deleted, DeletionFate, MergeKids;
    FlatAt(c, i);
    MissTwig(c.kids[i], e, g, lay);
    FateDown(c, e, i, lay);
    assert WithKid(c, i, c.kids[i]) == c;
  }

  /** The only child of the root, with g + j entries, and g of them on each of its first 2 * j children. */
  ghost predicate Wearing(c: Tree, g: nat, j: nat) {
    && c.Wide() && |c.items| == g + j && j <= g
    && forall x :: 0 <= x < 2 * j ==> Twig(c.kids[x], g)
  }

  lemma NextMiss(t: Tree, e: Entry, g: nat, j: nat, lay: Layout)
    requires Even(lay, g) && t.items == [] && |t.kids| == 1 && Wearing(t.kids[0], g, j) && j > 0
    requires LowerBound(t.kids[0].items, e) == 2 * j - 2 && e !in Flat(t)
    ensures j == 1 ==> DeletionFate(t, e, lay) == NoSibling
    ensures j > 1 ==> DeletionFate(t, e, lay).Leaves?
    ensures j > 1 ==> var q := Deleted(t, e, lay); q.items == [] && |q.kids| == 1 && Wearing(q.kids[0], g, j - 1)
  {
    hide Flat, Deleted, DeletionFate, Twig;
    var c, i := t.kids[0], 2 * j - 2;
    assert Flat(t) == Flat(c) by { WeaveOne(c); OnlyKid(t); }
    TwigFill(c.kids[i], g);
    TwigFill(c.kids[i + 1], g);
    if i > 0 { TwigFill(c.kids[i - 1], g); }
    MissPair(c, e, i, g, lay);
    FateDown(t, e, 0, lay);
    assert t.kids[0 := Deleted(c, e, lay)] == [Deleted(c, e, lay)];
  }

  lemma OnlyKid(t: Tree)
    requires t.items == [] && |t.kids| == 1
    ensures Flat(t) == Weave([], [t.kids[0]]) && t == Tree(t.off, [], [t.kids[0]])
  {
    assert t.kids == [t.kids[0]];
  }

  lemma TwigFill(t: Tree, g: nat)
    requires Twig(t, g)
    ensures |t.items| == g
  {
  }

  /** The first one, on the right of a root with two children. */
  lemma FirstMiss(t: Tree, e: Entry, g: nat, lay: Layout)
    requires Even(lay, g) && |t.items| == 1 && t.Wide() && LowerBound(t.items, e) == 1 && e !in Flat(t)
    requires t.kids[0].Wide() && |t.kids[0].items| == g && forall x :: 0 <= x <= g ==> Twig(t.kids[0].kids[x], g)
    requires t.kids[1].Wide() && |t.kids[1].items| == g && forall x :: 0 <= x <= g ==> Twig(t.kids[1].kids[x], g)
    requires LowerBound(t.kids[1].items, e) == g - 1
    ensures DeletionFate(t, e, lay).Leaves?
    ensures var q := Deleted(t, e, lay); q.items == [] && |q.kids| == 1 && Wearing(q.kids[0], g, g)
  {
    hide Flat, Deleted, DeletionFate, Twig;
    var a, b := t.kids[0], t.kids[1];
    FlatAt(t, 1);
    TwigFill(b.kids[g - 1], g);
    TwigFill(b.kids[g], g);
    if g > 1 { TwigFill(b.kids[g - 2], g); }
    MissPair(b, e, g - 1, g, lay);
    FateDown(t, e, 1, lay);
    assert Deleted(t, e, lay) == MergeKids(WithKid(t, 1, MergeKids(b, g - 1)), 0);
  }

  /** An absent entry just below item i. */
  lemma JustBelow(t: Tree, i: nat, n: nat, r: nat) returns (s: nat)
    requires t.Wide() && i < |t.items| && r > 0 && Flat(t) == Range(n, r, |Flat(t)|)
    ensures s >= r && t.items[i] == Row(n, 2 * s) && LowerBound(t.items, Row(n, 2 * s - 1)) == i
  {
    hide Flat, Left, Right;
    var all := Flat(t);
    FlatAt(t, i);
    var l, p := |Left(t, i)|, |Left(t, i)| + |Flat(t.kids[i])|;
    s := r + p;
    assert t.items[i] == all[p];
    assert i > 0 ==> t.items[i - 1] == all[l - 1];
    RangeSorted(n, r, |all|);
    ItemsSorted(t);
    var e := Row(n, 2 * s - 1);
    forall x | 0 <= x < i ensures Less(t.items[x], e) {
      if x < i - 1 { LessMixed(t.items[x], t.items[i - 1], e); }
    }
    forall x | i <= x < |t.items| ensures !Less(t.items[x], e) {
      if x > i { LessMixed(e, t.items[i], t.items[x]); }
    }
    CutIsLowerBound(t.items, e, i);
  }

  lemma RangeSorted(n: nat, r: nat, m: nat)
    ensures Sorted(Range(n, r, m))
  {
    forall i, j | 0 <= i < j < m ensures !Less(Range(n, r, m)[j], Range(n, r, m)[i]) {
      RowOrder(n, 2 * (r + j), 2 * (r + i));
    }
  }

  lemma OddAbsent(n: nat, r: nat, m: nat, s: nat)
    requires s > 0
    ensures Row(n, 2 * s - 1) !in Range(n, r, m)
  {
  }

  // ---------------------------------------------------------------- the file

  /** All pages below the root hold g entries; the root holds one. */
  function LeanTree(n: nat, g: nat): Tree {
    Branch(n, g, 2, 1, 1, 1)
  }

  ghost predicate OverTwigs(t: Tree, g: nat) {
    t.Wide() && |t.items| == g && forall x :: 0 <= x <= g ==> Twig(t.kids[x], g)
  }

  lemma LeanOverTwigs(lay: Layout, g: nat, k: nat, r: nat)
    requires Even(lay, g) && k > 0
    ensures OverTwigs(Lean(lay.keySize, g, 2, k, r), g)
  {
    var t := Lean(lay.keySize, g, 2, k, r);
    KidsFacts(lay, g, 1, k + 1, r, g);
    forall x | 0 <= x <= g ensures Twig(t.kids[x], g) {
      TwigShape(t.kids[x], g, lay);
    }
  }

  lemma TwigShape(t: Tree, g: nat, lay: Layout)
    requires Even(lay, g) && Shape(t, 1, lay) && |t.items| == g
    ensures Twig(t, g)
  {
    forall j | 0 <= j < |t.kids| ensures t.kids[j].IsLeaf() {
      KidsShape(t, j, 1, lay);
    }
  }

  /** The children of its root, and where the entries of the right one begin. */
  lemma LeanTreeKids(lay: Layout, g: nat) returns (r: nat)
    requires Even(lay, g)
    ensures var t := LeanTree(lay.keySize, g);
      && t.Wide() && |t.items| == 1 && OverTwigs(t.kids[0], g) && OverTwigs(t.kids[1], g)
      && r > 1 && t.items[0] == Row(lay.keySize, 2 * (r - 1))
      && Flat(t.kids[1]) == Range(lay.keySize, r, |Flat(t.kids[1])|)
  {
    hide Range, Lean, Flat, OverTwigs;
    var n := lay.keySize;
    r := 1 + LeanRows(g, 2) + 1;
    var k := 2 + LeanPages(g, 2);
    var a, b := Lean(n, g, 2, 2, 1), Lean(n, g, 2, k, r);
    assert Kids(n, g, 2, k, r, 1) == [b];
    assert LeanTree(n, g).kids == [a, b];
    assert Seps(n, g, 2, r, 0) == [];
    LeanOverTwigs(lay, g, 2, 1);
    LeanOverTwigs(lay, g, k, r);
    LeanFacts(lay, g, 2, k, r);
  }

  method LeanFile(n: nat) returns (ix: Index, g: nat)
    requires 1 <= n <= 245 && !NtxRun.OddCapacity(n)
    ensures fresh(ix) && ix.Valid() && ix.Tight() && ix.Synced() && !ix.unique
    ensures ix.lay == Layout(n, ComputeMaxItem(n + 8)) && Even(ix.lay, g) && ix.tree == LeanTree(n, g)
    ensures ix.Contents() == Range(n, 1, |ix.Contents()|)
  {
    hide Shape, Sized, Flat, Foot, Sorted, Upto, Span, Branch, Range;
    NtxQuery.PageHoldsTwo(n);
    var lay := Layout(n, ComputeMaxItem(n + 8));
    g := lay.maxItem / 2 - 1;
    ghost var pages := 1 + KidPages(g, 2, 2);
    BranchFacts(lay, g, 2, 1, 1, 1);
    SpanIsUpto(pages);
    RangeSorted(n, 1, KidRows(g, 2, 1));
    ghost var r := LeanTreeKids(lay, g);
    ix := OpenTree(lay, LeanTree(n, g), 3, 1 + KidPages(g, 2, 2));
  }

  // ---------------------------------------------------------------- the run

  /** The deletion of an absent entry. */
  method Miss(ix: Index, n: nat, recno: nat) returns (status: Status)
    requires ix.Valid() && ix.lay.keySize == n && Row(n, recno) !in ix.Contents()
    modifies ix
    ensures status == Outcome(DeletionFate(old(ix.tree), Row(n, recno), ix.lay))
    ensures status == Ok ==>
      ix.Valid() && ix.Contents() == old(ix.Contents()) && ix.tree == Deleted(old(ix.tree), Row(n, recno), ix.lay)
  {
    hide Index.Valid, Index.Contents, DeletionFate, Deleted, Sorted;
    var e := Row(n, recno);
    assert ix.Pad(e.key) == e.key;
    NtxRun.ContentsSorted(ix);
    HoldsIsMembership(ix.Contents(), e);
    var found;
    found, status := ix.Delete(e.key, recno);
  }

  /** Deletes below the last entry of the right child of the root. */
  method MissFirst(ix: Index, n: nat, ghost g: nat) returns (recno: nat, status: Status)
    requires ix.Valid() && ix.lay.keySize == n && Even(ix.lay, g) && ix.tree == LeanTree(n, g)
    requires ix.Contents() == Range(n, 1, |ix.Contents()|)
    modifies ix
    ensures Row(n, recno) !in old(ix.Contents()) && status == Ok
    ensures ix.Valid() && ix.Contents() == old(ix.Contents())
    ensures ix.tree.items == [] && |ix.tree.kids| == 1 && Wearing(ix.tree.kids[0], g, g)
  {
    hide Flat, Foot, Shape, Stores, Twig, DeletionFate, Deleted, LeanTree, Range, Wearing;
    ghost var t := ix.tree;
    ghost var r := LeanTreeKids(ix.lay, g);
    var rootNode := ix.ReadNode(ix.root, t);
    assert forall k :: k in t.kids ==> Stores(ix.pages, k) by { StoresKids(ix.pages, t); }
    var right := ix.ReadKid(rootNode, 1, t);
    ghost var s := JustBelowRight(t, n, g, r);
    recno := right.items[|right.items| - 1].entry.recno - 1;
    OddAbsent(n, 1, |ix.Contents()|, s);
    FirstMiss(t, Row(n, recno), g, ix.lay);
    status := Miss(ix, n, recno);
  }

  lemma StoresKids(pages: Pages, t: Tree)
    requires Stores(pages, t)
    ensures forall k :: k in t.kids ==> Stores(pages, k)
  {
  }

  lemma JustBelowRight(t: Tree, n: nat, g: nat, r: nat) returns (s: nat)
    requires g > 0 && t.Wide() && |t.items| == 1 && r > 1 && t.items[0] == Row(n, 2 * (r - 1))
    requires OverTwigs(t.kids[1], g) && Flat(t.kids[1]) == Range(n, r, |Flat(t.kids[1])|)
    ensures s > 0 && t.kids[1].items[g - 1] == Row(n, 2 * s)
    ensures LowerBound(t.items, Row(n, 2 * s - 1)) == 1 && LowerBound(t.kids[1].items, Row(n, 2 * s - 1)) == g - 1
  {
    s := JustBelow(t.kids[1], g - 1, n, r);
    RowOrder(n, 2 * (r - 1), 2 * s - 1);
    CutIsLowerBound(t.items, Row(n, 2 * s - 1), 1);
  }

  /** Deletes below entry 2 * j - 2 of the only child of the root. */
  method MissNext(ix: Index, n: nat, ghost g: nat, j: nat) returns (recno: nat, status: Status)
    requires ix.Valid() && ix.lay.keySize == n && Even(ix.lay, g) && ix.Contents() == Range(n, 1, |ix.Contents()|)
    requires ix.tree.items == [] && |ix.tree.kids| == 1 && Wearing(ix.tree.kids[0], g, j) && j > 0
    modifies ix
    ensures Row(n, recno) !in old(ix.Contents()) && status == if j == 1 then Panic else Ok
    ensures j > 1 ==> ix.Valid() && ix.Contents() == old(ix.Contents())
    ensures j > 1 ==> ix.tree.items == [] && |ix.tree.kids| == 1 && Wearing(ix.tree.kids[0], g, j - 1)
  {
    hide Flat, Foot, Shape, Stores, Twig, DeletionFate, Deleted, Range;
    ghost var t := ix.tree;
    var rootNode := ix.ReadNode(ix.root, t);
    assert forall k :: k in t.kids ==> Stores(ix.pages, k) by { StoresKids(ix.pages, t); }
    var child := ix.ReadKid(rootNode, 0, t);
    OnlyKid(t);
    WeaveOne(t.kids[0]);
    FlatIsWeave(t);
    ghost var s := JustBelow(t.kids[0], 2 * j - 2, n, 1);
    recno := child.items[2 * j - 2].entry.recno - 1;
    OddAbsent(n, 1, |ix.Contents()|, s);
    NextMiss(t, Row(n, recno), g, j, ix.lay);
    status := Miss(ix, n, recno);
  }

  lemma FlatIsWeave(t: Tree)
    ensures Flat(t) == Weave(t.items, t.kids)
  {
  }

  /** With any even capacity for three items or more: an index in good order, and as many deletions of absent
      entries as fill half a page, all of which go through but the last. */
  method WearOut(n: nat) returns (ix: Index, missed: seq<nat>, status: Status, ghost start: seq<Entry>)
    requires 1 <= n <= 245 && !NtxRun.OddCapacity(n)
    ensures ix.lay == Layout(n, ComputeMaxItem(n + 8)) && |missed| == ix.lay.maxItem / 2
    ensures start == Range(n, 1, |start|) && forall i :: 0 <= i < |missed| ==> Row(n, missed[i]) !in start
    ensures status == Panic
  {
    hide Index.Valid, Index.Contents, Wearing, LeanTree, Range;
    var j;
    ix, j := LeanFile(n);
    start := ix.Contents();
    ghost var g := j;
    var recno;
    recno, status := MissFirst(ix, n, g);
    missed := [recno];
    while j > 0
      invariant ix.lay == Layout(n, ComputeMaxItem(n + 8)) && Even(ix.lay, g) && |missed| == g - j + 1
      invariant forall i :: 0 <= i < |missed| ==> Row(n, missed[i]) !in start
      invariant j > 0 ==> ix.Valid() && ix.Contents() == start
      invariant j > 0 ==> ix.tree.items == [] && |ix.tree.kids| == 1 && Wearing(ix.tree.kids[0], g, j)
      invariant j == 0 ==> status == Panic
    {
      recno, status := MissNext(ix, n, g, j);
      missed := missed + [recno];
      j := j - 1;
    }
  }
}
