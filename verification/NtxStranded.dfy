/** A small file of capacity 4 that insertions alone make, and four deletions of which the last fails,
    although its entry is there.

    The tree is that of 23 insertions with the record numbers 46, 44, ..., 2 and two more with 1 and 15. */
module NtxStranded {
  import opened Entries
  import opened NtxTree
  import opened NtxMoves
  import opened NtxStore
  import opened NtxFate
  import opened NtxIndex
  import opened NtxWitness
  import NtxWorn

  function Leaf(k: nat, rs: seq<nat>): Tree { PageOf(180, k, rs, []) }

  function Twig(k: nat, s: nat, a: Tree, b: Tree): Tree { PageOf(180, k, [s], [a, b]) }

  // ---------------------------------------------------------------- the tree

  function FarLeft(): Tree {
    PageOf(180, 2, [8, 12], [Leaf(1, [1, 2, 4, 6]), Leaf(16, [10]), Leaf(15, [14, 15])])
  }

  function LeftPart(): Tree {
    PageOf(180, 7, [16, 24],
           [FarLeft(), Twig(17, 20, Leaf(13, [18]), Leaf(12, [22])), Twig(14, 28, Leaf(10, [26]), Leaf(9, [30]))])
  }

  function RightPart(): Tree {
    PageOf(180, 19, [40], [Twig(11, 36, Leaf(6, [34]), Leaf(5, [38])), Twig(8, 44, Leaf(4, [42]), Leaf(3, [46]))])
  }

  function Grown(): Tree {
    PageOf(180, 18, [32], [LeftPart(), RightPart()])
  }

  /** How often page k is counted at offset o; footprints are compared offset by offset. */
  function One(k: nat, o: nat): nat { if o == k * PAGE_SIZE then 1 else 0 }

  lemma OneIs(k: nat)
    ensures forall o :: multiset{k * PAGE_SIZE}[o] == One(k, o)
  {
  }

  lemma TwigFacts(k: nat, s: nat, ka: nat, a: nat, kb: nat, b: nat)
    requires k > 0 && ka > 0 && kb > 0
    ensures var t := Twig(k, s, Leaf(ka, [a]), Leaf(kb, [b]));
      && KidOk(t, 1, EVEN) && Sized(t) && Flat(t) == Rows(180, [a, s, b])
      && forall o :: Foot(t)[o] == One(k, o) + One(ka, o) + One(kb, o)
  {
    hide KidOk, Sized, Flat, Foot, Rows, PageOf, One;
    OneIs(k);
    OneIs(ka);
    OneIs(kb);
    LeafFacts(EVEN, ka, [a]);
    LeafFacts(EVEN, kb, [b]);
    TwoFacts(EVEN, 0, k, s, Leaf(ka, [a]), Leaf(kb, [b]));
    RowsJoin(180, [a], s, [b]);
  }

  lemma FarLeftFacts()
    ensures KidOk(FarLeft(), 1, EVEN) && Sized(FarLeft())
    ensures Flat(FarLeft()) == Rows(180, [1, 2, 4, 6, 8, 10, 12, 14, 15])
    ensures forall o :: Foot(FarLeft())[o] == One(2, o) + One(1, o) + One(16, o) + One(15, o)
  {
    hide KidOk, Sized, Flat, Foot, Rows, PageOf, One;
    OneIs(2);
    OneIs(1);
    OneIs(16);
    OneIs(15);
    LeafFacts(EVEN, 1, [1, 2, 4, 6]);
    LeafFacts(EVEN, 16, [10]);
    LeafFacts(EVEN, 15, [14, 15]);
    ThreeFacts(EVEN, 0, 2, 8, 12, Leaf(1, [1, 2, 4, 6]), Leaf(16, [10]), Leaf(15, [14, 15]));
    RowsJoin(180, [10], 12, [14, 15]);
    RowsJoin(180, [1, 2, 4, 6], 8, [10, 12, 14, 15]);
  }

  lemma LeftPartFacts()
    ensures KidOk(LeftPart(), 2, EVEN) && Sized(LeftPart())
    ensures Flat(LeftPart()) == Rows(180, [1, 2, 4, 6, 8, 10, 12, 14, 15, 16, 18, 20, 22, 24, 26, 28, 30])
    ensures forall o ::
      Foot(LeftPart())[o] == One(7, o) + One(2, o) + One(1, o) + One(16, o) + One(15, o) + One(17, o) + One(13, o)
                             + One(12, o) + One(14, o) + One(10, o) + One(9, o)
  {
    hide KidOk, Sized, Flat, Foot, Rows, PageOf, FarLeft, Twig, One;
    OneIs(7);
    FarLeftFacts();
    TwigFacts(17, 20, 13, 18, 12, 22);
    TwigFacts(14, 28, 10, 26, 9, 30);
    ThreeFacts(EVEN, 1, 7, 16, 24, FarLeft(), Twig(17, 20, Leaf(13, [18]), Leaf(12, [22])),
      Twig(14, 28, Leaf(10, [26]), Leaf(9, [30])));
    RowsJoin(180, [18, 20, 22], 24, [26, 28, 30]);
    RowsJoin(180, [1, 2, 4, 6, 8, 10, 12, 14, 15], 16, [18, 20, 22, 24, 26, 28, 30]);
  }

  lemma RightPartFacts()
    ensures KidOk(RightPart(), 2, EVEN) && Sized(RightPart())
    ensures Flat(RightPart()) == Rows(180, [34, 36, 38, 40, 42, 44, 46])
    ensures forall o ::
      Foot(RightPart())[o] == One(19, o) + One(11, o) + One(6, o) + One(5, o) + One(8, o) + One(4, o) + One(3, o)
  {
    hide KidOk, Sized, Flat, Foot, Rows, PageOf, Twig, One;
    OneIs(19);
    TwigFacts(11, 36, 6, 34, 5, 38);
    TwigFacts(8, 44, 4, 42, 3, 46);
    TwoFacts(EVEN, 1, 19, 40, Twig(11, 36, Leaf(6, [34]), Leaf(5, [38])), Twig(8, 44, Leaf(4, [42]), Leaf(3, [46])));
    RowsJoin(180, [34, 36, 38], 40, [42, 44, 46]);
  }

  const ALL := [1, 2, 4, 6, 8, 10, 12, 14, 15, 16, 18, 20, 22, 24, 26, 28, 30, 32, 34, 36, 38, 40, 42, 44, 46]

  /** What it takes to open the file that holds t. */
  ghost predicate Holding(t: Tree, h: nat, n: nat, rs: seq<nat>) {
    KidOk(t, h, EVEN) && Sized(t) && Foot(t) == Upto(n) && Flat(t) == Rows(180, rs)
  }

  lemma GrownFacts(t: Tree, n: nat)
    requires t == Grown() && n == 19
    ensures Holding(t, 3, n, ALL)
  {
    hide KidOk, Sized, Flat, Foot, Rows, PageOf, Upto, LeftPart, RightPart, One;
    OneIs(18);
    LeftPartFacts();
    RightPartFacts();
    TwoFacts(EVEN, 2, 18, 32, LeftPart(), RightPart());
    RowsJoin(180, [1, 2, 4, 6, 8, 10, 12, 14, 15, 16, 18, 20, 22, 24, 26, 28, 30], 32, [34, 36, 38, 40, 42, 44, 46]);
    forall o ensures Foot(Grown())[o] == Upto(19)[o] {
      NineteenPages(o);
    }
  }

  /** The pages up to n, counted one by one. */
  function Ones(n: nat, o: nat): nat {
    if n == 0 then 0 else Ones(n - 1, o) + One(n, o)
  }

  lemma {:induction false} UptoOnes(n: nat, o: nat)
    ensures Upto(n)[o] == Ones(n, o)
  {
    if n > 0 {
      UptoOnes(n - 1, o);
    }
  }

  lemma FiveOnes(n: nat, o: nat)
    ensures Ones(n + 5, o) == Ones(n, o) + One(n + 1, o) + One(n + 2, o) + One(n + 3, o) + One(n + 4, o) + One(n + 5, o)
  {
    hide One;
    assert Ones(n + 2, o) == Ones(n, o) + One(n + 1, o) + One(n + 2, o);
    assert Ones(n + 4, o) == Ones(n + 2, o) + One(n + 3, o) + One(n + 4, o);
  }

  lemma NineteenPages(o: nat)
    ensures Upto(19)[o] == One(1, o) + One(2, o) + One(3, o) + One(4, o) + One(5, o) + One(6, o) + One(7, o)
      + One(8, o) + One(9, o)
      + One(10, o) + One(11, o) + One(12, o) + One(13, o) + One(14, o) + One(15, o) + One(16, o) + One(17, o)
        + One(18, o) + One(19, o)
  {
    hide Upto, One;
    UptoOnes(19, o);
    FiveOnes(14, o);
    FiveOnes(9, o);
    FiveOnes(4, o);
    assert Ones(1, o) == One(1, o);
    assert Ones(2, o) == Ones(1, o) + One(2, o);
  }

  // ---------------------------------------------------------------- the deletions

  /** A deletion that passes a branch of leaves and finds nothing reports it as low. */
  lemma TwigMiss(x: Tree, e: Entry, i: nat)
    requires x.Wide() && |x.items| == 1 && i == LowerBound(x.items, e) <= 1 && (i == 0 ==> x.items[0] != e)
    requires x.kids[i].IsLeaf() && e !in x.kids[i].items
    ensures Deleted(x, e, EVEN) == x && DeletionFate(x, e, EVEN) == Leaves(1, true)
  {
    var leaf := x.kids[i];
    FateHere(leaf, e, LowerBound(leaf.items, e), EVEN);
    FateDown(x, e, i, EVEN);
    assert WithKid(x, i, leaf) == x;
  }

  /** The twig takes an entry from a neighbour that can lend one, or is merged with one. */
  lemma Through(c: Tree, e: Entry, i: nat)
    requires c.Wide() && i == LowerBound(c.items, e) <= |c.items| && c.items != []
    requires i < |c.items| ==> c.items[i] != e
    requires Deleted(c.kids[i], e, EVEN) == c.kids[i] && DeletionFate(c.kids[i], e, EVEN) == Leaves(1, true)
    ensures Deleted(c, e, EVEN) == Mend(c, i, EVEN)
    ensures var m := if CanLend(c, i, EVEN) then |c.items| else |c.items| - 1;
      DeletionFate(c, e, EVEN) == Leaves(m, m < 2)
  {
    hide Deleted, DeletionFate, Mend;
    FateDown(c, e, i, EVEN);
    assert WithKid(c, i, c.kids[i]) == c;
  }

  /** The only child of the root, after the first deletion, the second and the third. */
  function Child(step: nat): Tree
    requires 1 <= step <= 3
  {
    var twig := Twig(8, 44, Leaf(4, [42]), Leaf(3, [46]));
    if step == 1 then
      PageOf(180, 7, [16, 32, 40],
             [FarLeft(), PageOf(180, 17, [20, 24, 28], [Leaf(13, [18]), Leaf(12, [22]), Leaf(10, [26]), Leaf(9, [30])]),
              Twig(11, 36, Leaf(6, [34]), Leaf(5, [38])), twig])
    else if step == 2 then
      PageOf(180, 7, [16, 28, 40],
             [FarLeft(), PageOf(180, 17, [20, 24], [Leaf(13, [18]), Leaf(12, [22]), Leaf(10, [26])]),
              PageOf(180, 11, [32, 36], [Leaf(9, [30]), Leaf(6, [34]), Leaf(5, [38])]), twig])
    else
      PageOf(180, 7, [16, 28],
             [FarLeft(), PageOf(180, 17, [20, 24], [Leaf(13, [18]), Leaf(12, [22]), Leaf(10, [26])]),
              PageOf(180, 11, [32, 36, 40, 44],
                [Leaf(9, [30]), Leaf(6, [34]), Leaf(5, [38]), Leaf(4, [42]), Leaf(3, [46])])])
  }

  function Root(step: nat): Tree
    requires 1 <= step <= 3
  {
    PageOf(180, 18, [], [Child(step)])
  }

  lemma Borrowed(c: Tree)
    requires c == Child(1)
    ensures Mend(c, 2, EVEN) == Child(2)
  {
    hide FarLeft;
    var q, want := Mend(c, 2, EVEN), Child(2);
    assert q == NtxMoves.RotateRight(c, 2);
    assert q.kids[0] == want.kids[0] && q.kids[3] == want.kids[3];
    assert q.kids[1] == want.kids[1];
    assert q.kids[2].items == want.kids[2].items;
    assert q.kids[2].kids == want.kids[2].kids;
    assert q.items == want.items;
    assert q == want;
  }

  lemma SecondMiss()
    ensures Deleted(Root(1), Row(180, 33), EVEN) == Root(2) && DeletionFate(Root(1), Row(180, 33), EVEN).Leaves?
  {
    var c, e := Child(1), Row(180, 33);
    RowPlace(180, [16, 32, 40], 33, 2);
    RowPlace(180, [36], 33, 0);
    TwigMiss(c.kids[2], e, 0);
    Through(c, e, 2);
    Borrowed(c);
    FateDown(Root(1), e, 0, EVEN);
    assert Root(1).kids[0 := Child(2)] == [Child(2)];
  }

  lemma Joined(c: Tree)
    requires c == Child(2)
    ensures Mend(c, 3, EVEN) == Child(3)
  {
    hide FarLeft;
    var q, want := Mend(c, 3, EVEN), Child(3);
    assert q == MergeKids(c, 2);
    assert q.kids[0] == want.kids[0] && q.kids[1] == want.kids[1];
    assert q.kids[2].items == want.kids[2].items;
    assert q.kids[2].kids == want.kids[2].kids;
    assert q.kids == want.kids;
    assert q.items == want.items;
  }

  lemma ThirdMiss()
    ensures Deleted(Root(2), Row(180, 41), EVEN) == Root(3) && DeletionFate(Root(2), Row(180, 41), EVEN).Leaves?
  {
    var c, e := Child(2), Row(180, 41);
    RowPlace(180, [16, 28, 40], 41, 3);
    RowPlace(180, [44], 41, 0);
    TwigMiss(c.kids[3], e, 0);
    Through(c, e, 3);
    Joined(c);
    FateDown(Root(2), e, 0, EVEN);
    assert Root(2).kids[0 := Child(3)] == [Child(3)];
  }

  /** The first deletion merges two children on the left, and then the two children of the root. */
  lemma FirstMiss()
    ensures Deleted(Grown(), Row(180, 17), EVEN) == Root(1) && DeletionFate(Grown(), Row(180, 17), EVEN).Leaves?
  {
    var t, a, e := Grown(), LeftPart(), Row(180, 17);
    RowPlace(180, [32], 17, 0);
    RowPlace(180, [16, 24], 17, 1);
    RowPlace(180, [20], 17, 0);
    TwigMiss(a.kids[1], e, 0);
    Through(a, e, 1);
    FateDown(t, e, 0, EVEN);
    MergedTwice(t, a);
  }

  lemma MergedTwice(t: Tree, a: Tree)
    requires t == Grown() && a == LeftPart()
    ensures Mend(WithKid(t, 0, Mend(a, 1, EVEN)), 0, EVEN) == Root(1)
  {
    assert |a.kids[0].items| == 2;
    hide FarLeft;
    var b := Mend(a, 1, EVEN);
    assert b == MergeKids(a, 1);
    var p, want := WithKid(t, 0, b), Child(1);
    assert p.items == t.items && |p.kids[0].items| == 1 && |p.kids[1].items| == 1;
    var q := Mend(p, 0, EVEN);
    assert q == MergeKids(p, 0);
    var c := q.kids[0];
    assert c.kids[0] == want.kids[0];
    assert c.kids[1].items == want.kids[1].items;
    assert c.kids[1].kids == want.kids[1].kids;
    assert c.kids[2] == want.kids[2] && c.kids[3] == want.kids[3];
    assert c.items == want.items && c.kids == want.kids;
    assert q.kids == [want] && q.items == [];
  }

  /** The entry 15 is there, in a leaf of two; without it, three pages run low one above the other. */
  lemma LastFate()
    ensures DeletionFate(Root(3), Row(180, 15), EVEN) == NoSibling
  {
    var t, c, x, e := Root(3), Child(3), FarLeft(), Row(180, 15);
    RowPlace(180, [14, 15], 15, 1);
    RowPlace(180, [8, 12], 15, 2);
    RowPlace(180, [16, 28], 15, 0);
    FateHere(x.kids[2], e, 1, EVEN);
    FateDown(x, e, 2, EVEN);
    FateDown(c, e, 0, EVEN);
    FateDown(t, e, 0, EVEN);
  }

  // ---------------------------------------------------------------- the run

  /** Three deletions that find nothing go through; the fourth, of an entry that is there, does not. */
  method Strand() returns (ix: Index, missed: seq<nat>, status: Status, ghost start: seq<Entry>)
    ensures ix.lay == EVEN && start == Rows(180, ALL) && Row(180, 15) in start
    ensures missed == [17, 33, 41] && forall r :: r in missed ==> Row(180, r) !in start
    ensures status == Panic
  {
    hide Index.Valid, Index.Contents, Rows, Grown, Root, DeletionFate, Deleted;
    ix := OpenGrown();
    start := ix.Contents();
    missed := [17, 33, 41];
    forall r | r in missed ensures Row(180, r) !in start {
      Absent(r);
    }
    FirstMiss();
    status := NtxWorn.Miss(ix, 180, missed[0]);
    SecondMiss();
    status := NtxWorn.Miss(ix, 180, missed[1]);
    ThirdMiss();
    status := NtxWorn.Miss(ix, 180, missed[2]);
    LastFate();
    Present();
    var key := Row(180, 15).key;
    assert ix.Pad(key) == key;
    var found;
    found, status := ix.Delete(key, 15);
  }

  ghost predicate Opened(ix: Index, t: Tree)
    reads ix
  {
    ix.Valid() && ix.Tight() && ix.Synced() && ix.lay == EVEN && ix.tree == t && ix.Contents() == Rows(180, ALL)
  }

  method OpenGrown() returns (ix: Index)
    ensures fresh(ix) && Opened(ix, Grown())
  {
    hide Index.Valid, Shape, Sized, Flat, Foot, Sorted, Upto, Rows, LeftPart, RightPart;
    var t, n := Grown(), 19;
    GrownFacts(t, n);
    RowsSorted(180, ALL);
    ix := OpenTree(EVEN, t, 3, n);
  }

  lemma Present()
    ensures Row(180, 15) in Rows(180, ALL)
  {
    assert ALL[8] == 15;
    assert Rows(180, ALL)[8] == Row(180, 15);
  }

  lemma Absent(r: nat)
    requires r == 17 || r == 33 || r == 41
    ensures Row(180, r) !in Rows(180, ALL)
  {
    hide Rows;
    RowAbsent(180, ALL, r);
  }
}
