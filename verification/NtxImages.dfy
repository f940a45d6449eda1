/** What the in-place edits of a node's item list and right pointer mean for the tree it holds,
    and when a page map written by a move stores the moved tree. */
module NtxImages {
  import opened Entries
  import opened NtxTree
  import opened NtxMoves
  import opened NtxStore
  import opened NtxSteps

  // ---------------------------------------------------------------- split

  lemma LowerImage(items: seq<Item>, right: nat, c: Tree, m: nat)
    requires Image(items, right, c) && m < |items| && LeafOrWide(c)
    ensures Image(items[..m], items[m].child, Lower(c, m))
  {
  }

  lemma UpperImage(items: seq<Item>, right: nat, c: Tree, m: nat, off: nat)
    requires Image(items, right, c) && m < |items| && LeafOrWide(c)
    ensures Image(items[m + 1..], right, Upper(c, m, off))
  {
  }

  /** The parent after the median has entered at position i and child pointer i+1 was redirected. */
  ghost predicate SplitParent(items: seq<Item>, right: nat, items': seq<Item>, right': nat, i: nat, coff: nat,
                              med: Entry, off: nat)
    requires i <= |items|
  {
    var g := With(items, i, Item(coff, med));
    if i + 1 == |g| then items' == g && right' == off
    else items' == g[i + 1 := Item(off, g[i + 1].entry)] && right' == right
  }

  lemma SplitParentImage(items: seq<Item>, right: nat, items': seq<Item>, right': nat, p: Tree, i: nat, a: Tree,
                         med: Entry, b: Tree)
    requires Image(items, right, p) && p.Wide() && i <= |items|
    requires SplitParent(items, right, items', right', i, a.off, med, b.off) && a.off != 0 && b.off != 0
    ensures Image(items', right', OneToPair(p, i, a, med, b))
  {
    var q := OneToPair(p, i, a, med, b);
    assert |items'| == |items| + 1;
    forall j | 0 <= j < |items'|
      ensures items'[j].entry == q.items[j] && items'[j].child == q.kids[j].off
    {
      if j < i {
        assert items'[j] == items[j] && q.kids[j] == p.kids[j];
      } else if j > i + 1 {
        assert items'[j] == items[j - 1] && q.kids[j] == p.kids[j - 1];
      }
    }
    assert q.kids[|items'|] == if i == |items| then b else p.kids[|items|];
  }

  // ---------------------------------------------------------------- rotations and merges

  lemma PrependImage(items: seq<Item>, right: nat, c: Tree, litems: seq<Item>, lright: nat, l: Tree, s: Entry)
    requires Image(items, right, c) && Image(litems, lright, l) && Alike(l, c)
    ensures Image([Item(lright, s)] + items, right, Prepend(LastKid(l), s, c))
  {
  }

  lemma AppendImage(items: seq<Item>, right: nat, c: Tree, ritems: seq<Item>, rright: nat, r: Tree, s: Entry)
    requires Image(items, right, c) && Image(ritems, rright, r) && Alike(c, r) && r.items != []
    ensures Image(items + [Item(right, s)], ritems[0].child, Append(c, s, FirstKid(r)))
  {
  }

  lemma MergedImage(litems: seq<Item>, lright: nat, l: Tree, ritems: seq<Item>, rright: nat, r: Tree, s: Entry)
    requires Image(litems, lright, l) && Image(ritems, rright, r) && Alike(l, r)
    ensures Image(litems + [Item(lright, s)] + ritems, rright, Merged(l, s, r))
  {
    var items := litems + [Item(lright, s)] + ritems;
    var m := Merged(l, s, r);
    if !l.IsLeaf() {
      forall j | 0 <= j < |items|
        ensures items[j].entry == m.items[j] && items[j].child == m.kids[j].off
      {
      }
    }
  }

  lemma PairToPairImage(items: seq<Item>, right: nat, p: Tree, j: nat, a: Tree, s: Entry, b: Tree)
    requires Image(items, right, p) && p.Wide() && j < |p.items|
    requires a.off == p.kids[j].off && b.off == p.kids[j + 1].off
    ensures Image(items[j := items[j].(entry := s)], right, PairToPair(p, j, a, s, b))
  {
  }

  /** The parent after item j is gone and child pointer j was redirected. */
  ghost predicate MergeParent(items: seq<Item>, right: nat, items': seq<Item>, right': nat, j: nat, off: nat)
    requires j < |items|
  {
    var g := Without(items, j);
    if j == |g| then items' == g && right' == off
    else items' == g[j := Item(off, g[j].entry)] && right' == right
  }

  lemma MergeParentImage(items: seq<Item>, right: nat, items': seq<Item>, right': nat, p: Tree, j: nat, m: Tree)
    requires Image(items, right, p) && p.Wide() && j < |p.items| && m.off != 0
    requires MergeParent(items, right, items', right', j, m.off)
    ensures Image(items', right', PairToOne(p, j, m))
  {
    var q := PairToOne(p, j, m);
    assert |items'| == |items| - 1;
    forall x | 0 <= x < |items'|
      ensures items'[x].entry == q.items[x] && items'[x].child == q.kids[x].off
    {
      if x < j {
        assert items'[x] == items[x] && q.kids[x] == p.kids[x];
      } else if x > j {
        assert items'[x] == items[x + 1] && q.kids[x] == p.kids[x + 1];
      }
    }
    assert q.kids[|items'|] == if j + 1 == |items| then m else p.kids[|items|];
  }

  // ---------------------------------------------------------------- who is where

  /** The pages of p other than those of child i. */
  ghost function Beside(p: Tree, i: nat): multiset<nat>
    requires p.Wide() && i <= |p.items|
  {
    multiset{p.off} + Feet(p.kids[..i]) + Feet(p.kids[i + 1..])
  }

  lemma KidShare(p: Tree, i: nat, rest: multiset<nat>)
    requires p.Wide() && i <= |p.items|
    ensures Foot(p) + rest == Foot(p.kids[i]) + (Beside(p, i) + rest)
    ensures forall k :: Beside(WithKid(p, i, k), i) == Beside(p, i)
  {
    FeetAt(p.kids, i);
    forall k ensures Beside(WithKid(p, i, k), i) == Beside(p, i) {
      var q := WithKid(p, i, k);
      assert q.kids[..i] == p.kids[..i] && q.kids[i + 1..] == p.kids[i + 1..];
    }
  }

  lemma KidInFoot(p: Tree, i: nat)
    requires p.Wide() && i <= |p.items|
    ensures p.kids[i] in p.kids && Foot(p.kids[i]) <= Foot(p)
  {
    FeetContain(p.kids, p.kids[i]);
  }

  lemma Apart(ws: multiset<nat>, others: multiset<nat>, used: multiset<nat>, free: seq<nat>, size: nat)
    requires Accounts(used, free, size) && used == ws + others
    ensures forall w :: w in ws ==> w !in others && w !in free
    ensures forall w :: ws[w] <= 1
  {
    forall w ensures w in ws ==> w !in others && w !in free && ws[w] <= 1 {
      AtMostOnce(used, free, size, w);
    }
  }

  /** All pages outside ws are as before. */
  ghost predicate OnlyChanged(p1: Pages, p2: Pages, ws: multiset<nat>) {
    forall o :: o in p1 && o !in ws ==> o in p2 && p2[o] == p1[o]
  }

  ghost predicate Written(pages: Pages, t: Tree) {
    t.off in pages && pages[t.off].NodePage? && Image(pages[t.off].items, pages[t.off].right, t)
  }

  lemma SplitFoot(p: Tree, i: nat, off: nat, rest: multiset<nat>)
    requires p.Wide() && i <= |p.items|
    ensures Foot(p) + rest + multiset{off} ==
      multiset{p.off, p.kids[i].off, off} + (Feet(p.kids[..i]) + Feet(p.kids[i].kids) + Feet(p.kids[i + 1..]) + rest)
  {
    FeetAt(p.kids, i);
  }

  lemma AgreeOutside(p1: Pages, p2: Pages, ws: multiset<nat>,
                     a: multiset<nat>, b: multiset<nat>, c: multiset<nat>, d: multiset<nat>, free: seq<nat>, size: nat)
    requires OnlyChanged(p1, p2, ws) && Accounts(ws + (a + b + c + d), free, size)
    ensures Agree(p1, p2, a) && Agree(p1, p2, b) && Agree(p1, p2, c) && Agree(p1, p2, d)
  {
    Apart(ws, a + b + c + d, ws + (a + b + c + d), free, size);
  }

  lemma HalvesStored(p: Pages, c: Tree, m: nat, off: nat)
    requires m < |c.items| && Written(p, Lower(c, m)) && Written(p, Upper(c, m, off))
    requires forall k :: k in c.kids ==> Stores(p, k)
    ensures Stores(p, Lower(c, m)) && Stores(p, Upper(c, m, off))
  {
  }

  lemma OneToPairStored(pages: Pages, p: Tree, i: nat, a: Tree, s: Entry, b: Tree)
    requires p.Wide() && i <= |p.items| && Written(pages, OneToPair(p, i, a, s, b))
    requires Stores(pages, a) && Stores(pages, b)
    requires forall k :: k in p.kids[..i] || k in p.kids[i + 1..] ==> Stores(pages, k)
    ensures Stores(pages, OneToPair(p, i, a, s, b))
  {
    var q := OneToPair(p, i, a, s, b);
    forall k | k in q.kids ensures Stores(pages, k) {
      assert k in p.kids[..i] || k == a || k == b || k in p.kids[i + 1..];
    }
  }

  lemma SplitApart(p: Tree, i: nat, off: nat, rest: multiset<nat>, free: seq<nat>, size: nat)
    requires p.Wide() && i <= |p.items|
    requires Accounts(Foot(p) + rest + multiset{off}, free, size)
    ensures p.off != p.kids[i].off && p.kids[i].off != off && p.off != off
    ensures var used := Foot(p) + rest + multiset{off};
      p.off in used && p.kids[i].off in used && off in used
  {
    var ws := multiset{p.off, p.kids[i].off, off};
    SplitFoot(p, i, off, rest);
    Apart(ws, Feet(p.kids[..i]) + Feet(p.kids[i].kids) + Feet(p.kids[i + 1..]) + rest, Foot(p) + rest + multiset{off},
      free, size);
    assert ws[p.off] <= 1 && ws[p.kids[i].off] <= 1;
  }

  /** The three nodes a split writes are well-formed. */
  lemma SplitNodesOk(p: Tree, i: nat, off: nat, h: nat, lay: Layout)
    requires lay.maxItem >= 2 && h > 0 && Shape(p, h, lay) && i <= |p.items| < lay.maxItem
    requires |p.kids[i].items| == lay.maxItem
    ensures var c := p.kids[i];
      var m := |c.items| / 2;
      LeafOrWide(c) && NodeOk(Lower(c, m), lay) && NodeOk(Upper(c, m, off), lay) && NodeOk(SplitKid(p, i, off), lay)
    ensures Foot(SplitKid(p, i, off)) == Foot(p) + multiset{off}
  {
    KidsShape(p, i, h, lay);
    SplitKidFacts(p, i, off);
    SplitKidShape(p, i, off, h, lay);
    HalvesOk(p.kids[i], |p.kids[i].items| / 2, off, h - 1, lay);
  }

  lemma SplitStored(p1: Pages, p2: Pages, p: Tree, i: nat, off: nat, rest: multiset<nat>, free: seq<nat>, size: nat)
    requires p.Wide() && i <= |p.items| && p.kids[i].items != []
    requires forall k :: k in p.kids ==> Stores(p1, k)
    requires Accounts(Foot(p) + rest + multiset{off}, free, size)
    requires OnlyChanged(p1, p2, multiset{p.off, p.kids[i].off, off})
    requires var m := |p.kids[i].items| / 2;
      Written(p2, Lower(p.kids[i], m)) && Written(p2, Upper(p.kids[i], m, off)) && Written(p2, SplitKid(p, i, off))
    ensures Stores(p2, SplitKid(p, i, off))
    ensures Agree(p1, p2, rest)
  {
    var c := p.kids[i];
    assert c in p.kids;
    var m := |c.items| / 2;
    var l, r := p.kids[..i], p.kids[i + 1..];
    SplitFoot(p, i, off, rest);
    AgreeOutside(p1, p2, multiset{p.off, c.off, off}, Feet(l), Feet(c.kids), Feet(r), rest, free, size);
    StoresAllFrame(p1, p2, l);
    StoresAllFrame(p1, p2, r);
    StoresAllFrame(p1, p2, c.kids);
    HalvesStored(p2, c, m, off);
    OneToPairStored(p2, p, i, Lower(c, m), c.items[m], Upper(c, m, off));
  }

  lemma PairFoot(p: Tree, j: nat, rest: multiset<nat>)
    requires p.Wide() && j < |p.items|
    ensures Foot(p) + rest ==
      multiset{p.off, p.kids[j].off, p.kids[j + 1].off} +
      (Feet(p.kids[..j]) + (Feet(p.kids[j].kids) + Feet(p.kids[j + 1].kids)) + Feet(p.kids[j + 2..]) + rest)
  {
    var l, r := p.kids[j], p.kids[j + 1];
    FeetAtPair(p.kids, j);
    Spread(p.off, l.off, r.off, Feet(p.kids[..j]), Feet(l.kids), Feet(r.kids), Feet(p.kids[j + 2..]), rest);
  }

  lemma Spread(p: nat, l: nat, r: nat, a: multiset<nat>, b: multiset<nat>, c: multiset<nat>, d: multiset<nat>,
               rest: multiset<nat>)
    ensures multiset{p} + (a + ((multiset{l} + b) + (multiset{r} + c)) + d) + rest
      == multiset{p, l, r} + (a + (b + c) + d + rest)
  {
  }

  lemma PairApart(p: Tree, j: nat, rest: multiset<nat>, free: seq<nat>, size: nat)
    requires p.Wide() && j < |p.items| && Accounts(Foot(p) + rest, free, size)
    ensures p.off != p.kids[j].off && p.kids[j].off != p.kids[j + 1].off && p.off != p.kids[j + 1].off
    ensures var used := Foot(p) + rest;
      p.off in used && p.kids[j].off in used && p.kids[j + 1].off in used
  {
    var l, r := p.kids[j], p.kids[j + 1];
    var ws := multiset{p.off, l.off, r.off};
    PairFoot(p, j, rest);
    Apart(ws, Feet(p.kids[..j]) + (Feet(l.kids) + Feet(r.kids)) + Feet(p.kids[j + 2..]) + rest, Foot(p) + rest, free,
      size);
    assert ws[p.off] <= 1 && ws[l.off] <= 1;
  }

  /** What lies outside the three pages of a pair move is still stored. */
  lemma PairSurroundings(p1: Pages, p2: Pages, p: Tree, j: nat, rest: multiset<nat>, free: seq<nat>, size: nat)
    requires p.Wide() && j < |p.items| && Accounts(Foot(p) + rest, free, size)
    requires forall k :: k in p.kids ==> Stores(p1, k)
    requires OnlyChanged(p1, p2, multiset{p.off, p.kids[j].off, p.kids[j + 1].off})
    ensures Agree(p1, p2, rest)
    ensures forall k :: k in p.kids[..j] || k in p.kids[j + 2..] ==> Stores(p2, k)
    ensures forall k :: k in p.kids[j].kids || k in p.kids[j + 1].kids ==> Stores(p2, k)
  {
    var l, r := p.kids[j], p.kids[j + 1];
    assert l in p.kids && r in p.kids;
    PairFoot(p, j, rest);
    FeetJoin(l.kids, r.kids);
    AgreeOutside(p1, p2, multiset{p.off, l.off, r.off},
                 Feet(p.kids[..j]), Feet(l.kids + r.kids), Feet(p.kids[j + 2..]), rest, free, size);
    StoresAllFrame(p1, p2, p.kids[..j]);
    StoresAllFrame(p1, p2, p.kids[j + 2..]);
    StoresAllFrame(p1, p2, l.kids + r.kids);
  }

  ghost function Heads(kids: seq<Tree>): multiset<nat> {
    if kids == [] then multiset{} else multiset{kids[0].off} + Heads(kids[1..])
  }

  /** The pages of a node and of its children. */
  ghost function Tops(p: Tree): multiset<nat> {
    multiset{p.off} + Heads(p.kids)
  }

  lemma {:induction false} HeadsContain(kids: seq<Tree>, j: nat)
    requires j < |kids|
    ensures kids[j].off in Heads(kids)
  {
    if j > 0 {
      HeadsContain(kids[1..], j - 1);
    }
  }

  lemma {:induction false} HeadsJoin(a: seq<Tree>, b: seq<Tree>)
    ensures Heads(a + b) == Heads(a) + Heads(b)
  {
    if a == [] {
      assert a + b == b;
    } else {
      assert (a + b)[1..] == a[1..] + b;
      HeadsJoin(a[1..], b);
    }
  }

  /** The pages of the children and those below one of them are all different pages. */
  lemma HeadsApart(kids: seq<Tree>, j: nat)
    requires j < |kids|
    ensures Heads(kids) + Feet(kids[j].kids) <= Feet(kids)
  {
    var l, c, r := kids[..j], kids[j], kids[j + 1..];
    assert kids == l + ([c] + r);
    HeadsJoin(l, [c] + r);
    assert ([c] + r)[1..] == r;
    FeetAt(kids, j);
    HeadsWithin(l);
    HeadsWithin(r);
    forall o ensures (Heads(kids) + Feet(c.kids))[o] <= Feet(kids)[o] {
      assert Heads(l)[o] <= Feet(l)[o] && Heads(r)[o] <= Feet(r)[o];
      assert Heads(kids)[o] == Heads(l)[o] + multiset{c.off}[o] + Heads(r)[o];
      assert Foot(c)[o] == multiset{c.off}[o] + Feet(c.kids)[o];
    }
  }

  lemma {:induction false} HeadsWithin(kids: seq<Tree>)
    ensures Heads(kids) <= Feet(kids)
  {
    if kids != [] {
      HeadsWithin(kids[1..]);
    }
  }

  lemma {:induction false} HeadsSame(a: seq<Tree>, b: seq<Tree>)
    requires |a| == |b| && forall j :: 0 <= j < |a| ==> a[j].off == b[j].off
    ensures Heads(a) == Heads(b)
  {
    if a != [] {
      HeadsSame(a[1..], b[1..]);
    }
  }

  lemma PairOutside(p1: Pages, p2: Pages, p: Tree, j: nat, rest: multiset<nat>, free: seq<nat>, size: nat)
    requires p.Wide() && j < |p.items| && Accounts(Foot(p) + rest, free, size)
    requires forall k :: k in p.kids ==> Stores(p1, k)
    requires OnlyChanged(p1, p2, multiset{p.off, p.kids[j].off, p.kids[j + 1].off})
    ensures Agree(p1, p2, rest) && OnlyChanged(p1, p2, Tops(p))
    ensures forall k :: k in p.kids[..j] || k in p.kids[j + 2..] ==> Stores(p2, k)
    ensures forall k :: k in p.kids[j].kids || k in p.kids[j + 1].kids ==> Stores(p2, k)
  {
    PairSurroundings(p1, p2, p, j, rest, free, size);
    HeadsContain(p.kids, j);
    HeadsContain(p.kids, j + 1);
  }

  lemma PairToPairStored(pages: Pages, p: Tree, j: nat, a: Tree, s: Entry, b: Tree)
    requires p.Wide() && j < |p.items|
    requires Written(pages, a) && Written(pages, b) && Written(pages, PairToPair(p, j, a, s, b))
    requires forall k :: k in a.kids || k in b.kids ==> k in p.kids[j].kids || k in p.kids[j + 1].kids
    requires forall k :: k in p.kids[..j] || k in p.kids[j + 2..] ==> Stores(pages, k)
    requires forall k :: k in p.kids[j].kids || k in p.kids[j + 1].kids ==> Stores(pages, k)
    ensures Stores(pages, PairToPair(p, j, a, s, b))
  {
    var q := PairToPair(p, j, a, s, b);
    assert Stores(pages, a) && Stores(pages, b);
    forall k | k in q.kids ensures Stores(pages, k) {
      assert k in p.kids[..j] || k == a || k == b || k in p.kids[j + 2..];
    }
  }

  lemma MergeReady(p: Tree, i: nat, j: nat, h: nat, lay: Layout, rest: multiset<nat>)
    requires lay.maxItem >= 2 && Lacking(p, i, h, lay) && j < |p.items| && (i == j || i == j + 1)
    requires |p.kids[j].items| <= lay.Half() && |p.kids[j + 1].items| <= lay.Half()
    ensures Alike(p.kids[j], p.kids[j + 1])
    ensures NodeOk(MergeKids(p, j), lay) && NodeOk(Merged(p.kids[j], p.items[j], p.kids[j + 1]), lay)
    ensures Foot(p) + rest == (Foot(MergeKids(p, j)) + rest) + multiset{p.kids[j + 1].off}
    ensures p.kids[j].off in Foot(MergeKids(p, j))
  {
    MergeKidsFacts(p, i, j, h, lay);
    LackingKids(p, i, j, h, lay);
    KidsShape(MergeKids(p, j), j, h, lay);
    KidInFoot(MergeKids(p, j), j);
  }

  lemma PairToOneStored(pages: Pages, p: Tree, j: nat, m: Tree)
    requires p.Wide() && j < |p.items| && Written(pages, m) && Written(pages, PairToOne(p, j, m))
    requires forall k :: k in m.kids ==> k in p.kids[j].kids || k in p.kids[j + 1].kids
    requires forall k :: k in p.kids[..j] || k in p.kids[j + 2..] ==> Stores(pages, k)
    requires forall k :: k in p.kids[j].kids || k in p.kids[j + 1].kids ==> Stores(pages, k)
    ensures Stores(pages, PairToOne(p, j, m))
  {
    var q := PairToOne(p, j, m);
    assert Stores(pages, m);
    forall k | k in q.kids ensures Stores(pages, k) {
      assert k in p.kids[..j] || k == m || k in p.kids[j + 2..];
    }
  }

  // ---------------------------------------------------------------- going down and coming back

  /** What a descent into child i may rely on; everything else counts as the child's surroundings. */
  lemma EnterKid(pages: Pages, p: Tree, i: nat, h: nat, lay: Layout, rest: multiset<nat>)
    requires lay.maxItem >= 2 && h > 0 && Shape(p, h, lay) && i <= |p.items|
    requires Stores(pages, p) && Sorted(Flat(p))
    ensures p.Wide() && KidOk(p.kids[i], h - 1, lay) && Sorted(Flat(p.kids[i])) && Stores(pages, p.kids[i])
    ensures Foot(p) + rest == Foot(p.kids[i]) + (Beside(p, i) + rest)
  {
    KidsShape(p, i, h, lay);
    KidShare(p, i, rest);
    KidSorted(p, i);
    assert p.kids[i] in p.kids;
  }

  lemma EnterAny(pages: Pages, p: Tree, i: nat, h: nat, lay: Layout, rest: multiset<nat>)
    requires lay.maxItem >= 2 && h > 0 && Shape(p, h, lay) && i <= |p.items| && Stores(pages, p)
    ensures p.Wide() && KidOk(p.kids[i], h - 1, lay) && Stores(pages, p.kids[i])
    ensures Foot(p) + rest == Foot(p.kids[i]) + (Beside(p, i) + rest)
  {
    KidsShape(p, i, h, lay);
    KidShare(p, i, rest);
    assert p.kids[i] in p.kids;
  }

  /** Coming back with a child that may have dropped one entry below the minimum. */
  ghost predicate KidLess(k: Tree, c: Tree, h: nat, lay: Layout)
    requires lay.maxItem >= 2 && h > 0
  {
    Shape(k, h - 1, lay) && k.off == c.off && |k.items| + 1 >= |c.items|
  }

  /** The pages of the children beside child i. */
  ghost function Aside(p: Tree, i: nat): multiset<nat>
    requires p.Wide() && i <= |p.items|
  {
    Feet(p.kids[..i]) + Feet(p.kids[i + 1..])
  }

  lemma AgreeTrans(p1: Pages, p2: Pages, p3: Pages, a: multiset<nat>, b: multiset<nat>)
    requires Agree(p1, p2, a + b) && Agree(p2, p3, b)
    ensures Agree(p1, p3, b)
  {
  }

  lemma WithKidImage(items: seq<Item>, right: nat, p: Tree, i: nat, k: Tree)
    requires Image(items, right, p) && p.Wide() && i <= |p.items| && k.off == p.kids[i].off
    ensures Image(items, right, WithKid(p, i, k))
  {
  }

  lemma WithKidStored(p1: Pages, p2: Pages, p: Tree, i: nat, k: Tree)
    requires p.Wide() && i <= |p.items| && k.off == p.kids[i].off
    requires (forall x :: x in p.kids ==> Stores(p1, x)) && Written(p2, p) && Stores(p2, k)
    requires Agree(p1, p2, Feet(p.kids[..i])) && Agree(p1, p2, Feet(p.kids[i + 1..]))
    ensures Stores(p2, WithKid(p, i, k))
  {
    StoresAllFrame(p1, p2, p.kids[..i]);
    StoresAllFrame(p1, p2, p.kids[i + 1..]);
    WithKidImage(p2[p.off].items, p2[p.off].right, p, i, k);
    forall x | x in WithKid(p, i, k).kids ensures Stores(p2, x) {
      assert x in p.kids[..i] || x == k || x in p.kids[i + 1..];
    }
  }

  lemma LackingOrOk(p: Tree, i: nat, k: Tree, under: bool, h: nat, lay: Layout)
    requires lay.maxItem >= 2 && h > 0 && Shape(p, h, lay) && i <= |p.items| && KidLess(k, p.kids[i], h, lay)
    requires if under then |k.items| < lay.Half() else |k.items| >= lay.Half() || k == p.kids[i]
    ensures if under then Lacking(WithKid(p, i, k), i, h, lay) else Shape(WithKid(p, i, k), h, lay)
  {
    var q := WithKid(p, i, k);
    KidsShape(p, i, h, lay);
    if under {
      forall j | 0 <= j < |q.kids| ensures Shape(q.kids[j], h - 1, lay)
        && (j != i ==> |q.kids[j].items| >= lay.MinFill()) {
        KidsShape(p, j, h, lay);
      }
    } else {
      WithKidShape(p, i, k, h, lay);
    }
  }

  lemma LeaveLess(p1: Pages, p2: Pages, p: Tree, i: nat, k: Tree, under: bool, h: nat, lay: Layout, rest: multiset<nat>)
    requires lay.maxItem >= 2 && h > 0 && Shape(p, h, lay) && i <= |p.items| && KidLess(k, p.kids[i], h, lay)
    requires if under then |k.items| < lay.Half() else |k.items| >= lay.Half() || k == p.kids[i]
    requires (forall x :: x in p.kids ==> Stores(p1, x)) && Written(p2, p) && Stores(p2, k)
    requires Agree(p1, p2, Aside(p, i) + rest)
    ensures var q := WithKid(p, i, k);
      && Stores(p2, q) && Agree(p1, p2, rest)
      && Foot(q) + rest == Foot(k) + (Beside(p, i) + rest)
      && if under then Lacking(q, i, h, lay) else Shape(q, h, lay)
  {
    LackingOrOk(p, i, k, under, h, lay);
    WithKidStored(p1, p2, p, i, k);
    KidShare(WithKid(p, i, k), i, rest);
    KidShare(p, i, rest);
  }

  lemma BesideKept(p1: Pages, p2: Pages, p: Tree, i: nat, rest: multiset<nat>)
    requires p.Wide() && i <= |p.items| && Stores(p1, p) && Agree(p1, p2, Beside(p, i) + rest)
    ensures (forall x :: x in p.kids ==> Stores(p1, x)) && Written(p2, p) && Agree(p1, p2, Aside(p, i) + rest)
  {
    assert p.off in Beside(p, i) + rest;
    forall o | o in Aside(p, i) + rest ensures o in Beside(p, i) + rest {
    }
  }

  lemma LeafAlone(t: Tree, q: Tree, rest: multiset<nat>, free: seq<nat>, size: nat)
    requires t.IsLeaf() && q.IsLeaf() && q.off == t.off && Accounts(Foot(t) + rest, free, size)
    ensures Foot(q) == Foot(t) && t.off in Foot(t) + rest && t.off !in rest
  {
    assert Foot(t) == multiset{t.off} && Foot(q) == multiset{t.off};
    Apart(multiset{t.off}, rest, Foot(t) + rest, free, size);
  }

  /** A leaf with e put in at position i: its entries and its image. */
  lemma LeafWith(items: seq<Item>, right: nat, t: Tree, i: nat, e: Entry, lay: Layout)
    requires t.IsLeaf() && NodeOk(t, lay) && IsCut(t.items, e, i) && |t.items| < lay.maxItem && |e.key| == lay.keySize
    requires Image(items, right, t)
    ensures var q := t.(items := With(t.items, i, e));
      NodeOk(q, lay) && Image(With(items, i, Item(0, e)), right, q) && Flat(q) == Inserted(Flat(t), e)
  {
    hide Flat, Inserted, LowerBound, Less;
    LeafInsert(t, i, e);
    WithKeySize(t.items, i, e, lay.keySize);
  }

  lemma WithKeySize(items: seq<Entry>, i: nat, e: Entry, size: nat)
    requires i <= |items| && |e.key| == size && forall x :: x in items ==> |x.key| == size
    ensures forall x :: x in With(items, i, e) ==> |x.key| == size
  {
    forall x | x in With(items, i, e) ensures |x.key| == size {
      assert x in items || x == e;
    }
  }

  lemma SetEntryImage(items: seq<Item>, right: nat, p: Tree, i: nat, e: Entry)
    requires Image(items, right, p) && i < |p.items|
    ensures Image(items[i := items[i].(entry := e)], right, p.(items := p.items[i := e]))
  {
  }

  lemma MaxStep(p: Tree, k: Tree, pred: Entry)
    requires p.Wide() && Flat(p.kids[|p.items|]) == Flat(k) + [pred]
    ensures Flat(p) == Flat(WithKid(p, |p.items|, k)) + [pred]
  {
    var n := |p.items|;
    assert Flat(p) == Left(p, n) + Flat(p.kids[n]) + [] by { FlatAt(p, n); }
    assert Flat(WithKid(p, n, k)) == Left(p, n) + Flat(k) + [] by {
      FlatAt(p, n);
      WithKidFacts(p, n, k);
    }
    LastMoves(Left(p, n), Flat(k), pred);
  }

  lemma LastMoves<T>(a: seq<T>, b: seq<T>, x: T)
    ensures a + (b + [x]) + [] == a + b + [] + [x]
  {
  }

  /** t is a sound subtree of depth h that the page map stores. */
  ghost predicate Standing(pages: Pages, lay: Layout, t: Tree, h: nat) {
    lay.maxItem >= 2 && Shape(t, h, lay) && Stores(pages, t) && Sorted(Flat(t))
  }

  lemma GoDown(pages: Pages, lay: Layout, t: Tree, h: nat, i: nat)
    requires Standing(pages, lay, t, h) && h > 0 && i <= |t.items|
    ensures t.Wide() && Standing(pages, lay, t.kids[i], h - 1)
  {
    EnterKid(pages, t, i, h, lay, multiset{});
  }

  /** What a search for e at position i of a page leaves to be found below it. */
  lemma SearchStep(pages: Pages, lay: Layout, t: Tree, h: nat, i: nat, e: Entry)
    requires Standing(pages, lay, t, h) && i <= |t.items| && IsCut(t.items, e, i)
    ensures h == 0 ==> AtOrAbove(Flat(t), e) == ItemAt(t.items, i) && Below(Flat(t), e) == ItemBefore(t.items, i)
    ensures h > 0 ==>
      && t.Wide() && Standing(pages, lay, t.kids[i], h - 1)
      && AtOrAbove(Flat(t), e) == AtOrAbove(Flat(t.kids[i]), e).Or(ItemAt(t.items, i))
      && Below(Flat(t), e) == Below(Flat(t.kids[i]), e).Or(ItemBefore(t.items, i))
  {
    if h == 0 {
      CutIsLowerBound(t.items, e, i);
    } else {
      GoDown(pages, lay, t, h, i);
      AboveStep(t, i, e);
    }
  }

  /** A page entry with the key sought settles the search. */
  lemma KeyHit(t: Tree, i: nat, key: seq<byte>)
    requires LeafOrWide(t) && Sorted(Flat(t)) && i < |t.items| && t.items[i].key == key
    ensures AtOrAbove(Flat(t), Entry(key, 0)).Some? && AtOrAbove(Flat(t), Entry(key, 0)).value.key == key
  {
    ItemsInWeave(t.items, t.kids);
    assert t.items[i] in t.items;
    FirstWithKey(Flat(t), key);
  }

  lemma LeaveKid(p1: Pages, p2: Pages, p: Tree, i: nat, k: Tree, h: nat, lay: Layout, rest: multiset<nat>)
    requires lay.maxItem >= 2 && h > 0 && Shape(p, h, lay) && i <= |p.items| && KidOk(k, h - 1, lay)
    requires Stores(p1, p) && Stores(p2, k) && k.off == p.kids[i].off && Agree(p1, p2, Beside(p, i) + rest)
    ensures Shape(WithKid(p, i, k), h, lay) && Stores(p2, WithKid(p, i, k)) && Agree(p1, p2, rest)
    ensures Foot(WithKid(p, i, k)) + rest == Foot(k) + (Beside(p, i) + rest)
  {
    WithKidShape(p, i, k, h, lay);
    BesideKept(p1, p2, p, i, rest);
    WithKidStored(p1, p2, p, i, k);
    KidShare(WithKid(p, i, k), i, rest);
    KidShare(p, i, rest);
  }

  /** Rewriting the top page leaves everything beside it as it was. */
  lemma WrittenApart(p1: Pages, p2: Pages, p3: Pages, p: Tree, i: nat, k: Tree, rest: multiset<nat>, free: seq<nat>,
                     size: nat)
    requires p.Wide() && i <= |p.items|
    requires Agree(p1, p2, Beside(p, i) + rest) && Stores(p2, k) && OnlyChanged(p2, p3, multiset{p.off})
    requires Accounts(Foot(k) + (Beside(p, i) + rest), free, size)
    ensures Agree(p1, p3, Aside(p, i) + rest) && Stores(p3, k)
  {
    var others := Foot(k) + (Aside(p, i) + rest);
    assert Foot(k) + (Beside(p, i) + rest) == multiset{p.off} + others;
    Apart(multiset{p.off}, others, Foot(k) + (Beside(p, i) + rest), free, size);
    StoresFrame(p2, p3, k);
  }

  /** Some page of b differs. */
  ghost predicate Disturbed(p1: Pages, p2: Pages, b: multiset<nat>) {
    exists o :: o in b && o in p1 && o in p2 && p2[o] != p1[o]
  }

  /** Entry i replaced by pred, then child i by k. */
  lemma PromoteReady(p: Tree, i: nat, k: Tree, pred: Entry, e: Entry, h: nat, lay: Layout, rest: multiset<nat>)
    requires lay.maxItem >= 2 && h > 0 && Shape(p, h, lay) && i < |p.items| && |pred.key| == lay.keySize
    requires Sorted(Flat(p)) && p.items[i] == e && Flat(p.kids[i]) == Flat(k) + [pred]
    ensures var u := p.(items := p.items[i := pred]);
      && u.Wide() && Shape(u, h, lay) && Beside(u, i) == Beside(p, i) && Aside(u, i) == Aside(p, i)
      && Holds(Flat(p), e) && Flat(WithKid(u, i, k)) == Removed(Flat(p), e)
  {
    var u := p.(items := p.items[i := pred]);
    PromoteStep(p, i, e, k, pred);
    assert WithKid(u, i, k) == Promote(p, i, k, pred) by {
      assert p.kids[i := k][i + 1 := p.kids[i + 1]] == p.kids[i := k];
    }
    forall x | x in u.items ensures |x.key| == lay.keySize {
      assert x in p.items || x == pred;
    }
  }

  /** A branch without entries holds exactly what its only child holds. */
  lemma CollapseFacts(t: Tree, h: nat, lay: Layout)
    requires lay.maxItem >= 2 && Shape(t, h, lay) && t.items == [] && !t.IsLeaf()
    ensures h > 0 && |t.kids| == 1 && KidOk(t.kids[0], h - 1, lay)
    ensures Flat(t.kids[0]) == Flat(t)
    ensures Foot(t) == Foot(t.kids[0]) + multiset{t.off}
  {
    KidsShape(t, 0, h, lay);
    assert t.kids == [t.kids[0]];
    assert Feet(t.kids[1..]) == multiset{};
  }

  lemma FreedApart(p1: Pages, p2: Pages, t: Tree, off: nat, free: seq<nat>, size: nat)
    requires Stores(p1, t) && OnlyChanged(p1, p2, multiset{off})
    requires Accounts(Foot(t), free, size) && off in free
    ensures Stores(p2, t)
  {
    AtMostOnce(Foot(t), free, size, off);
    StoresFrame(p1, p2, t);
  }
}
