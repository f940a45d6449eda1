/** The B-tree moves of the NTX index as functions on trees: split, rotate right, rotate left, merge. */
module NtxMoves {
  import opened Entries
  import opened NtxTree

  /** The part of a node below position m, and the part above it. */
  function Lower(c: Tree, m: nat): Tree
    requires m <= |c.items|
  {
    Tree(c.off, c.items[..m], if c.Wide() then c.kids[..m + 1] else [])
  }

  function Upper(c: Tree, m: nat, off: nat): Tree
    requires m < |c.items|
  {
    Tree(off, c.items[m + 1..], if c.Wide() then c.kids[m + 1..] else [])
  }

  lemma LowerUpper(c: Tree, m: nat, off: nat)
    requires m < |c.items| && (c.IsLeaf() || c.Wide())
    ensures Flat(c) == Flat(Lower(c, m)) + [c.items[m]] + Flat(Upper(c, m, off))
    ensures Foot(Lower(c, m)) + Foot(Upper(c, m, off)) == Foot(c) + multiset{off}
  {
    var l, u := Lower(c, m), Upper(c, m, off);
    assert c.items == l.items + [c.items[m]] + u.items && c.kids == l.kids + u.kids;
    WeaveJoin(l.items, l.kids, c.items[m], u.items, u.kids);
    FeetJoin(l.kids, u.kids);
  }

  function SplitKid(p: Tree, i: nat, off: nat): Tree
    requires p.Wide() && i <= |p.items| && p.kids[i].items != []
  {
    var c := p.kids[i];
    var m := |c.items| / 2;
    OneToPair(p, i, Lower(c, m), c.items[m], Upper(c, m, off))
  }

  /** Splitting a child changes no entry and takes one new page. */
  lemma SplitKidFacts(p: Tree, i: nat, off: nat)
    requires p.Wide() && i <= |p.items| && p.kids[i].items != [] && (p.kids[i].IsLeaf() || p.kids[i].Wide())
    ensures Flat(SplitKid(p, i, off)) == Flat(p)
    ensures Foot(SplitKid(p, i, off)) == Foot(p) + multiset{off}
  {
    var c := p.kids[i];
    var m := |c.items| / 2;
    LowerUpper(c, m, off);
    FlatAt(p, i);
    OneToPairFacts(p, i, Lower(c, m), c.items[m], Upper(c, m, off));
  }

  lemma KidsShape(p: Tree, i: nat, h: nat, lay: Layout)
    requires lay.maxItem >= 2 && h > 0 && Shape(p, h, lay) && i <= |p.items|
    ensures p.Wide() && KidOk(p.kids[i], h - 1, lay) && Shape(p.kids[i], h - 1, lay)
    ensures if h == 1 then p.kids[i].IsLeaf() else p.kids[i].Wide()
  {
    assert p.kids[i] in p.kids;
    assert KidOk(p.kids[i], h - 1, lay);
  }

  lemma WithKidShape(p: Tree, i: nat, k: Tree, h: nat, lay: Layout)
    requires lay.maxItem >= 2 && h > 0 && Shape(p, h, lay) && i <= |p.items| && KidOk(k, h - 1, lay)
    ensures Shape(WithKid(p, i, k), h, lay)
  {
    forall x | x in WithKid(p, i, k).kids ensures KidOk(x, h - 1, lay) {
      assert x in p.kids || x == k;
    }
  }

  lemma HalvesOk(c: Tree, m: nat, off: nat, h: nat, lay: Layout)
    requires lay.maxItem >= 2 && Shape(c, h, lay) && |c.items| == lay.maxItem && m == |c.items| / 2
    ensures KidOk(Lower(c, m), h, lay) && KidOk(Upper(c, m, off), h, lay)
    ensures |c.items[m].key| == lay.keySize
  {
    assert c.items[m] in c.items;
    var a, b := Lower(c, m), Upper(c, m, off);
    forall k | k in a.kids || k in b.kids ensures h > 0 && KidOk(k, h - 1, lay) {
      assert k in c.kids;
    }
  }

  /** Splitting a full child of a node with room keeps the shape, and neither half is full. */
  lemma SplitKidShape(p: Tree, i: nat, off: nat, h: nat, lay: Layout)
    requires lay.maxItem >= 2 && h > 0 && Shape(p, h, lay) && i <= |p.items| < lay.maxItem
    requires |p.kids[i].items| == lay.maxItem
    ensures Shape(SplitKid(p, i, off), h, lay)
    ensures var q := SplitKid(p, i, off);
      |q.kids[i].items| < lay.maxItem && |q.kids[i + 1].items| < lay.maxItem
  {
    KidsShape(p, i, h, lay);
    var c := p.kids[i];
    var m := |c.items| / 2;
    HalvesOk(c, m, off, h - 1, lay);
    var q := SplitKid(p, i, off);
    forall k | k in q.kids ensures KidOk(k, h - 1, lay) {
      assert k in p.kids || k == Lower(c, m) || k == Upper(c, m, off);
    }
    forall e | e in q.items ensures |e.key| == lay.keySize {
      assert e in p.items || e == c.items[m];
    }
  }

  lemma SplitSummary(p: Tree, i: nat, off: nat, h: nat, lay: Layout)
    requires lay.maxItem >= 2 && h > 0 && Shape(p, h, lay) && i <= |p.items| < lay.maxItem
    requires |p.kids[i].items| == lay.maxItem
    ensures var q := SplitKid(p, i, off);
      && q.off == p.off && q.Wide() && Shape(q, h, lay) && Flat(q) == Flat(p)
      && q.items == With(p.items, i, p.kids[i].items[lay.maxItem / 2])
      && |q.kids[i].items| < lay.maxItem && |q.kids[i + 1].items| < lay.maxItem
  {
    KidsShape(p, i, h, lay);
    SplitKidFacts(p, i, off);
    SplitKidShape(p, i, off, h, lay);
  }

  // ---------------------------------------------------------------- refilling a child

  /** Child i has dropped below half; its siblings are still filled. */
  ghost predicate Lacking(p: Tree, i: nat, h: nat, lay: Layout)
    requires lay.maxItem >= 2
  {
    h > 0 && p.Wide() && i <= |p.items| && NodeOk(p, lay) &&
    (forall k :: k in p.kids ==> Shape(k, h - 1, lay)) &&
    (forall j :: 0 <= j < |p.kids| && j != i ==> |p.kids[j].items| >= lay.MinFill()) &&
    lay.MinFill() - 1 <= |p.kids[i].items| < lay.Half()
  }

  /** Some neighbour of child i holds more than half a page. */
  predicate CanLend(p: Tree, i: nat, lay: Layout)
    requires p.Wide() && i <= |p.items|
  {
    (i > 0 && |p.kids[i - 1].items| > lay.Half()) || (i < |p.items| && |p.kids[i + 1].items| > lay.Half())
  }

  /** Prepending and appending an entry with the child it brings along. */
  function Prepend(x: seq<Tree>, s: Entry, c: Tree): Tree {
    Tree(c.off, [s] + c.items, x + c.kids)
  }

  function Append(c: Tree, s: Entry, x: seq<Tree>): Tree {
    Tree(c.off, c.items + [s], c.kids + x)
  }

  function DropLast(c: Tree): Tree
    requires c.items != []
  {
    Lower(c, |c.items| - 1)
  }

  function DropFirst(c: Tree): Tree
    requires c.items != []
  {
    Upper(c, 0, c.off)
  }

  function LastKid(c: Tree): seq<Tree> {
    if c.Wide() then [c.kids[|c.items|]] else []
  }

  function FirstKid(c: Tree): seq<Tree> {
    if c.Wide() then [c.kids[0]] else []
  }

  function RotateRight(p: Tree, i: nat): Tree
    requires p.Wide() && 0 < i <= |p.items|
    requires p.kids[i - 1].items != []
  {
    var l, c := p.kids[i - 1], p.kids[i];
    PairToPair(p, i - 1, DropLast(l), l.items[|l.items| - 1], Prepend(LastKid(l), p.items[i - 1], c))
  }

  function RotateLeft(p: Tree, i: nat): Tree
    requires p.Wide() && i < |p.items|
    requires p.kids[i + 1].items != []
  {
    var c, r := p.kids[i], p.kids[i + 1];
    PairToPair(p, i, Append(c, p.items[i], FirstKid(r)), r.items[0], DropFirst(r))
  }

  function Merged(l: Tree, s: Entry, r: Tree): Tree {
    Tree(l.off, l.items + [s] + r.items, l.kids + r.kids)
  }

  function MergeKids(p: Tree, j: nat): Tree
    requires p.Wide() && j < |p.items|
  {
    PairToOne(p, j, Merged(p.kids[j], p.items[j], p.kids[j + 1]))
  }

  /** The move that refills child i: the left neighbour is asked first, then the right one, and if
      neither can lend, the child is merged, with its right neighbour if it has one. */
  function Mend(p: Tree, i: nat, lay: Layout): Tree
    requires p.Wide() && i <= |p.items| && p.items != []
  {
    if i > 0 && |p.kids[i - 1].items| > lay.Half() then RotateRight(p, i)
    else if i == |p.items| then MergeKids(p, i - 1)
    else if |p.kids[i + 1].items| > lay.Half() then RotateLeft(p, i)
    else MergeKids(p, i)
  }

  /** Child i became k, and was refilled if it ran low. */
  function Raised(t: Tree, i: nat, k: Tree, low: bool, lay: Layout): Tree
    requires t.Wide() && i <= |t.items|
  {
    if low && t.items != [] then Mend(WithKid(t, i, k), i, lay) else WithKid(t, i, k)
  }

  ghost predicate Alike(a: Tree, b: Tree) {
    (a.IsLeaf() && b.IsLeaf()) || (a.Wide() && b.Wide())
  }

  lemma PrependKeeps(x: Tree, s: Entry, c: Tree)
    requires Alike(x, c) && x.items == []
    ensures Flat(Prepend(x.kids, s, c)) == Flat(x) + [s] + Flat(c)
    ensures Foot(Prepend(x.kids, s, c)) + multiset{x.off} == Foot(x) + Foot(c)
  {
    hide Weave, Feet;
    assert [s] + c.items == [] + [s] + c.items;
    WeaveJoin([], x.kids, s, c.items, c.kids);
    FeetJoin(x.kids, c.kids);
  }

  lemma AppendKeeps(c: Tree, s: Entry, x: Tree)
    requires Alike(c, x) && x.items == []
    ensures Flat(Append(c, s, x.kids)) == Flat(c) + [s] + Flat(x)
    ensures Foot(Append(c, s, x.kids)) + multiset{x.off} == Foot(c) + Foot(x)
  {
    hide Weave, Feet;
    assert c.items + [s] == c.items + [s] + [];
    WeaveJoin(c.items, c.kids, s, [], x.kids);
    FeetJoin(c.kids, x.kids);
  }

  /** Carrying an entry across the separator: content x moves from one side of it to the other. */
  lemma CarryRight<T>(a: seq<T>, t: T, x: seq<T>, s: T, c: seq<T>, l: seq<T>, b: seq<T>)
    requires l == a + [t] + x && b == x + [s] + c
    ensures a + [t] + b == l + [s] + c
  {
  }

  lemma CarryLeft<T>(c: seq<T>, s: T, x: seq<T>, t: T, b: seq<T>, a: seq<T>, r: seq<T>)
    requires a == c + [s] + x && r == x + [t] + b
    ensures a + [t] + b == c + [s] + r
  {
  }

  lemma Cancel<T>(a: multiset<T>, b: multiset<T>, x: multiset<T>, l: multiset<T>, c: multiset<T>, o: multiset<T>)
    requires a + x == l + o && b + o == x + c
    ensures a + b == l + c
  {
    forall e ensures (a + b)[e] == (l + c)[e] {
      assert (a + x)[e] == (l + o)[e] && (b + o)[e] == (x + c)[e];
    }
  }

  lemma CancelLeft<T>(a: multiset<T>, b: multiset<T>, x: multiset<T>, r: multiset<T>, c: multiset<T>, o: multiset<T>)
    requires x + b == r + o && a + o == c + x
    ensures a + b == c + r
  {
    forall e ensures (a + b)[e] == (c + r)[e] {
      assert (x + b)[e] == (r + o)[e] && (a + o)[e] == (c + x)[e];
    }
  }

  lemma RotateRightKeeps(l: Tree, s: Entry, c: Tree)
    requires Alike(l, c) && l.items != []
    ensures Flat(DropLast(l)) + [l.items[|l.items| - 1]] + Flat(Prepend(LastKid(l), s, c)) == Flat(l) + [s] + Flat(c)
    ensures Foot(DropLast(l)) + Foot(Prepend(LastKid(l), s, c)) == Foot(l) + Foot(c)
  {
    var n := |l.items| - 1;
    var x := Upper(l, n, l.off);
    assert x.items == [] && x.kids == LastKid(l);
    var a, b := DropLast(l), Prepend(x.kids, s, c);
    LowerUpper(l, n, l.off);
    PrependKeeps(x, s, c);
    CarryRight(Flat(a), l.items[n], Flat(x), s, Flat(c), Flat(l), Flat(b));
    Cancel(Foot(a), Foot(b), Foot(x), Foot(l), Foot(c), multiset{l.off});
  }

  lemma RotateLeftKeeps(c: Tree, s: Entry, r: Tree)
    requires Alike(c, r) && r.items != []
    ensures Flat(Append(c, s, FirstKid(r))) + [r.items[0]] + Flat(DropFirst(r)) == Flat(c) + [s] + Flat(r)
    ensures Foot(Append(c, s, FirstKid(r))) + Foot(DropFirst(r)) == Foot(c) + Foot(r)
  {
    var x := Lower(r, 0);
    assert x.items == [] && x.kids == FirstKid(r);
    var a, b := Append(c, s, x.kids), DropFirst(r);
    LowerUpper(r, 0, r.off);
    AppendKeeps(c, s, x);
    CarryLeft(Flat(c), s, Flat(x), r.items[0], Flat(b), Flat(a), Flat(r));
    CancelLeft(Foot(a), Foot(b), Foot(x), Foot(r), Foot(c), multiset{r.off});
  }

  lemma MergedKeeps(l: Tree, s: Entry, r: Tree)
    requires Alike(l, r)
    ensures Flat(Merged(l, s, r)) == Flat(l) + [s] + Flat(r)
    ensures Foot(Merged(l, s, r)) + multiset{r.off} == Foot(l) + Foot(r)
  {
    WeaveJoin(l.items, l.kids, s, r.items, r.kids);
    FeetJoin(l.kids, r.kids);
  }

  lemma LackingKids(p: Tree, i: nat, j: nat, h: nat, lay: Layout)
    requires lay.maxItem >= 2 && Lacking(p, i, h, lay) && j < |p.items|
    ensures Shape(p.kids[j], h - 1, lay) && Shape(p.kids[j + 1], h - 1, lay)
    ensures Alike(p.kids[j], p.kids[j + 1])
    ensures |p.items[j].key| == lay.keySize
  {
    assert p.kids[j] in p.kids && p.kids[j + 1] in p.kids && p.items[j] in p.items;
  }

  /** Replacing the pair that contains the lacking child by two good children mends the node. */
  lemma PairMends(p: Tree, i: nat, j: nat, a: Tree, s: Entry, b: Tree, h: nat, lay: Layout)
    requires lay.maxItem >= 2 && Lacking(p, i, h, lay) && j < |p.items| && (i == j || i == j + 1)
    requires KidOk(a, h - 1, lay) && KidOk(b, h - 1, lay) && |s.key| == lay.keySize
    ensures Shape(PairToPair(p, j, a, s, b), h, lay)
  {
    var q := PairToPair(p, j, a, s, b);
    forall k | k in q.kids ensures KidOk(k, h - 1, lay) {
      var x :| 0 <= x < |q.kids| && q.kids[x] == k;
      if x != j && x != j + 1 {
        assert k == p.kids[x] && k in p.kids;
      }
    }
    forall e | e in q.items ensures |e.key| == lay.keySize {
      assert e in p.items || e == s;
    }
  }

  lemma KidKids(c: Tree, h: nat, lay: Layout)
    requires lay.maxItem >= 2 && Shape(c, h, lay)
    ensures NodeOk(c, lay) && (if h == 0 then c.IsLeaf() else c.Wide())
    ensures forall k :: k in c.kids ==> h > 0 && KidOk(k, h - 1, lay)
  {
  }

  lemma KidsOk(t: Tree, h: nat, lay: Layout)
    requires lay.maxItem >= 2 && NodeOk(t, lay) && (if h == 0 then t.IsLeaf() else t.Wide())
    requires forall k :: k in t.kids ==> h > 0 && KidOk(k, h - 1, lay)
    ensures Shape(t, h, lay)
  {
  }

  /** A node that lends an end entry stays sound, and so does the node that receives one. */
  lemma LendsRight(l: Tree, s: Entry, c: Tree, h: nat, lay: Layout)
    requires lay.maxItem >= 2 && Shape(l, h, lay) && Shape(c, h, lay) && |s.key| == lay.keySize
    requires |l.items| > lay.Half() && lay.MinFill() - 1 <= |c.items| < lay.Half()
    ensures KidOk(DropLast(l), h, lay) && KidOk(Prepend(LastKid(l), s, c), h, lay)
    ensures |l.items[|l.items| - 1].key| == lay.keySize
  {
    KidKids(l, h, lay);
    KidKids(c, h, lay);
    assert l.items[|l.items| - 1] in l.items;
    var a, b := DropLast(l), Prepend(LastKid(l), s, c);
    forall k | k in a.kids || k in b.kids ensures k in l.kids || k in c.kids {
    }
    KidsOk(a, h, lay);
    KidsOk(b, h, lay);
  }

  lemma LendsLeft(c: Tree, s: Entry, r: Tree, h: nat, lay: Layout)
    requires lay.maxItem >= 2 && Shape(c, h, lay) && Shape(r, h, lay) && |s.key| == lay.keySize
    requires |r.items| > lay.Half() && lay.MinFill() - 1 <= |c.items| < lay.Half()
    ensures KidOk(Append(c, s, FirstKid(r)), h, lay) && KidOk(DropFirst(r), h, lay)
    ensures |r.items[0].key| == lay.keySize
  {
    KidKids(c, h, lay);
    KidKids(r, h, lay);
    assert r.items[0] in r.items;
    var a, b := Append(c, s, FirstKid(r)), DropFirst(r);
    forall k | k in a.kids || k in b.kids ensures k in c.kids || k in r.kids {
    }
    KidsOk(a, h, lay);
    KidsOk(b, h, lay);
  }

  lemma RotateRightFacts(p: Tree, i: nat, h: nat, lay: Layout)
    requires lay.maxItem >= 2 && Lacking(p, i, h, lay) && i > 0 && |p.kids[i - 1].items| > lay.Half()
    ensures Shape(RotateRight(p, i), h, lay)
    ensures Flat(RotateRight(p, i)) == Flat(p) && Foot(RotateRight(p, i)) == Foot(p)
  {
    hide Flat, Foot, Shape;
    LackingKids(p, i, i - 1, h, lay);
    var l, c, s := p.kids[i - 1], p.kids[i], p.items[i - 1];
    var a, b, t := DropLast(l), Prepend(LastKid(l), s, c), l.items[|l.items| - 1];
    RotateRightKeeps(l, s, c);
    PairToPairFacts(p, i - 1, a, t, b);
    LendsRight(l, s, c, h - 1, lay);
    PairMends(p, i, i - 1, a, t, b, h, lay);
  }

  lemma RotateLeftFacts(p: Tree, i: nat, h: nat, lay: Layout)
    requires lay.maxItem >= 2 && Lacking(p, i, h, lay) && i < |p.items| && |p.kids[i + 1].items| > lay.Half()
    ensures Shape(RotateLeft(p, i), h, lay)
    ensures Flat(RotateLeft(p, i)) == Flat(p) && Foot(RotateLeft(p, i)) == Foot(p)
  {
    hide Flat, Foot, Shape;
    LackingKids(p, i, i, h, lay);
    var c, r, s := p.kids[i], p.kids[i + 1], p.items[i];
    var a, b, t := Append(c, s, FirstKid(r)), DropFirst(r), r.items[0];
    RotateLeftKeeps(c, s, r);
    PairToPairFacts(p, i, a, t, b);
    LendsLeft(c, s, r, h - 1, lay);
    PairMends(p, i, i, a, t, b, h, lay);
  }

  /** When neither neighbour can lend, the merged child fits one page. */
  lemma MergeKidsFacts(p: Tree, i: nat, j: nat, h: nat, lay: Layout)
    requires lay.maxItem >= 2 && Lacking(p, i, h, lay) && j < |p.items| && (i == j || i == j + 1)
    requires |p.kids[j].items| <= lay.Half() && |p.kids[j + 1].items| <= lay.Half()
    ensures Shape(MergeKids(p, j), h, lay)
    ensures Flat(MergeKids(p, j)) == Flat(p)
    ensures Foot(MergeKids(p, j)) + multiset{p.kids[j + 1].off} == Foot(p)
  {
    LackingKids(p, i, j, h, lay);
    var l, r, s := p.kids[j], p.kids[j + 1], p.items[j];
    var m := Merged(l, s, r);
    MergedKeeps(l, s, r);
    PairToOneFacts(p, j, m, multiset{r.off});
    var q := MergeKids(p, j);
    assert KidOk(m, h - 1, lay) by {
      forall k | k in m.kids ensures h > 1 && KidOk(k, h - 2, lay) {
        assert k in l.kids || k in r.kids;
      }
    }
    forall k | k in q.kids ensures KidOk(k, h - 1, lay) {
      var x :| 0 <= x < |q.kids| && q.kids[x] == k;
      if x < j {
        assert k == p.kids[x] && k in p.kids;
      } else if x > j {
        assert k == p.kids[x + 1] && k in p.kids;
      }
    }
    forall e | e in q.items ensures |e.key| == lay.keySize {
      assert e in p.items;
    }
  }

  /** The children a rotation writes are well-formed and bring no new grandchildren. */
  lemma RotateRightKids(p: Tree, i: nat, h: nat, lay: Layout)
    requires lay.maxItem >= 2 && Lacking(p, i, h, lay) && i > 0 && |p.kids[i - 1].items| > lay.Half()
    ensures var q := RotateRight(p, i);
      && q.Wide() && NodeOk(q, lay) && NodeOk(q.kids[i - 1], lay) && NodeOk(q.kids[i], lay)
      && forall k :: k in q.kids[i - 1].kids || k in q.kids[i].kids ==> k in p.kids[i - 1].kids || k in p.kids[i].kids
  {
    var q := RotateRight(p, i);
    RotateRightFacts(p, i, h, lay);
    KidsShape(q, i - 1, h, lay);
    KidsShape(q, i, h, lay);
  }

  lemma RotateLeftKids(p: Tree, i: nat, h: nat, lay: Layout)
    requires lay.maxItem >= 2 && Lacking(p, i, h, lay) && i < |p.items| && |p.kids[i + 1].items| > lay.Half()
    ensures var q := RotateLeft(p, i);
      && q.Wide() && NodeOk(q, lay) && NodeOk(q.kids[i], lay) && NodeOk(q.kids[i + 1], lay)
      && forall k :: k in q.kids[i].kids || k in q.kids[i + 1].kids ==> k in p.kids[i].kids || k in p.kids[i + 1].kids
  {
    var q := RotateLeft(p, i);
    RotateLeftFacts(p, i, h, lay);
    KidsShape(q, i, h, lay);
    KidsShape(q, i + 1, h, lay);
  }
}
