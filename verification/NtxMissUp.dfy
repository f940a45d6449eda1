/** One level of a deletion that finds nothing: whether pages were touched is decided on the search path. */
module NtxMissUp {
  import opened Entries
  import opened NtxTree
  import opened NtxMoves
  import opened NtxStore
  import opened NtxImages
  import opened NtxMiss

  /** The state of the file as far as deletion changes it. */
  datatype State = State(pages: Pages, next: nat, free: seq<nat>)

  /** A deletion below t that found nothing: nothing happened exactly when the path is quiet. */
  ghost predicate Missed(t: Tree, q: Tree, e: Entry, lay: Layout, s1: State, s2: State) {
    if Quiet(t, e, lay) then q == t && s2 == s1
    else |s2.free| > |s1.free| || (|s2.free| == |s1.free| && Disturbed(s1.pages, s2.pages, Feet(t.kids)))
  }

  /** What the refill of child i did, as Rebalance reports it. */
  ghost predicate Refill(p: Tree, i: nat, q: Tree, lay: Layout, s2: State, s3: State)
    requires p.Wide() && i <= |p.items|
  {
    && OnlyChanged(s2.pages, s3.pages, Tops(p))
    && |q.items| == |p.items| - (if CanLend(p, i, lay) then 0 else 1)
    && |s3.free| == |s2.free| + (if CanLend(p, i, lay) then 0 else 1)
    && (CanLend(p, i, lay) ==> HasFill(s3.pages, p.kids[i].off, |p.kids[i].items| + 1))
  }

  ghost predicate HasFill(pages: Pages, off: nat, count: nat) {
    off in pages && pages[off].NodePage? && |pages[off].items| == count
  }

  lemma MissUp(t: Tree, i: nat, k: Tree, q: Tree, e: Entry, under: bool, lay: Layout,
               s1: State, s2: State, s3: State, rest: multiset<nat>, size: nat)
    requires t.Wide() && i == LowerBound(t.items, e) && k.off == t.kids[i].off
    requires Stores(s1.pages, t) && Accounts(Foot(t) + rest, s1.free, size)
    requires Missed(t.kids[i], k, e, lay, s1, s2)
    requires under <==> !t.kids[i].IsLeaf() && |k.items| < lay.Half()
    requires !under ==> q == WithKid(t, i, k) && s3 == s2
    requires under ==> t.items != [] && Refill(WithKid(t, i, k), i, q, lay, s2, s3)
    ensures Missed(t, q, e, lay, s1, s3)
  {
    var c, p := t.kids[i], WithKid(t, i, k);
    assert c in t.kids;
    assert CanLend(p, i, lay) == CanLend(t, i, lay);
    if Quiet(c, e, lay) {
      assert p == t;
      if under && CanLend(t, i, lay) {
        FeetContain(t.kids, c);
        assert c.off in Feet(t.kids);
        assert s3.pages[c.off] != s1.pages[c.off];
      }
    } else if |s2.free| == |s1.free| {
      var o :| o in Feet(c.kids) && o in s1.pages && o in s2.pages && s2.pages[o] != s1.pages[o];
      BelowIsNoTop(t, i, k, o, rest, s1.free, size);
      assert s3.pages[o] != s1.pages[o] || (under && !CanLend(t, i, lay));
    }
  }

  /** A page below child i is neither the page of the node nor of one of its children. */
  lemma BelowIsNoTop(t: Tree, i: nat, k: Tree, o: nat, rest: multiset<nat>, free: seq<nat>, size: nat)
    requires t.Wide() && i <= |t.items| && k.off == t.kids[i].off && o in Feet(t.kids[i].kids)
    requires Accounts(Foot(t) + rest, free, size)
    ensures o !in Tops(WithKid(t, i, k)) && o in Feet(t.kids)
  {
    HeadsApart(t.kids, i);
    HeadsSame(t.kids, WithKid(t, i, k).kids);
    AtMostOnce(Foot(t) + rest, free, size, o);
    assert (Heads(t.kids) + Feet(t.kids[i].kids))[o] <= Feet(t.kids)[o];
  }

  /** Seen from the top: the page map is the same exactly when the path was quiet. */
  lemma MissedPages(t: Tree, q: Tree, e: Entry, lay: Layout, s1: State, s2: State, used: multiset<nat>, size: nat)
    requires Missed(t, q, e, lay, s1, s2)
    requires FreeChain(s1.pages, s1.next, s1.free) && FreeChain(s2.pages, s2.next, s2.free)
    requires Stores(s1.pages, t) && Foot(t) + multiset(s1.free) == Foot(q) + multiset(s2.free)
    ensures s2.pages == s1.pages <==> Quiet(t, e, lay)
    ensures s2.pages == s1.pages ==> s2 == s1 && q == t
  {
    if !Quiet(t, e, lay) && s2.pages == s1.pages {
      var o := OneMore(multiset(s2.free), multiset(s1.free));
      FreePageIsFree(s2.pages, s2.next, s2.free, o);
      assert (Foot(t) + multiset(s1.free))[o] == (Foot(q) + multiset(s2.free))[o];
      StoredPageIsNode(s1.pages, t, o);
    }
  }

  lemma OneMore<T>(a: multiset<T>, b: multiset<T>) returns (o: T)
    requires |a| > |b|
    ensures a[o] > b[o]
  {
    if a <= b {
      SmallerCount(a, b);
      assert false;
    }
    o :| a[o] > b[o];
  }

  lemma SmallerCount<T>(a: multiset<T>, b: multiset<T>)
    requires a <= b
    ensures |a| <= |b|
  {
    assert b == a + (b - a);
  }

  lemma {:induction false} FreePageIsFree(pages: Pages, head: nat, free: seq<nat>, o: nat)
    requires FreeChain(pages, head, free) && o in free
    ensures o in pages && pages[o].FreePage?
    decreases |free|
  {
    if o != free[0] {
      FreePageIsFree(pages, pages[head].next, free[1..], o);
    }
  }

  lemma {:induction false} StoredPageIsNode(pages: Pages, t: Tree, o: nat)
    requires Stores(pages, t) && o in Foot(t)
    ensures o in pages && pages[o].NodePage?
    decreases t
  {
    if o != t.off {
      assert o in Feet(t.kids);
      var k := InFeet(t.kids, o);
      StoredPageIsNode(pages, k, o);
    }
  }

  lemma {:induction false} InFeet(kids: seq<Tree>, o: nat) returns (k: Tree)
    requires o in Feet(kids)
    ensures k in kids && o in Foot(k)
  {
    if o in Foot(kids[0]) {
      k := kids[0];
    } else {
      k := InFeet(kids[1..], o);
    }
  }
}
