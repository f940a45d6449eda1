/** Pages of an NTX file: which page map stores which tree, and who owns which page. */
module NtxStore {
  import opened Entries
  import opened NtxTree

  const PAGE_SIZE := 1024

  datatype Item = Item(child: nat, entry: Entry)

  datatype Page = NodePage(items: seq<Item>, right: nat) | FreePage(next: nat)

  type Pages = map<nat, Page>

  // ---------------------------------------------------------------- storage

  /** The page image of the top of t: child offsets beside the entries, all zero in a leaf. */
  ghost predicate Image(items: seq<Item>, right: nat, t: Tree) {
    |items| == |t.items| &&
    (forall j :: 0 <= j < |items| ==> items[j].entry == t.items[j]) &&
    if t.IsLeaf() then
      right == 0 && forall j :: 0 <= j < |items| ==> items[j].child == 0
    else
      t.Wide() && right == t.kids[|items|].off && (forall j :: 0 <= j < |t.kids| ==> t.kids[j].off != 0) &&
      forall j :: 0 <= j < |items| ==> items[j].child == t.kids[j].off
  }

  ghost predicate Stores(pages: Pages, t: Tree)
    decreases t
  {
    t.off in pages && pages[t.off].NodePage? && Image(pages[t.off].items, pages[t.off].right, t) &&
    forall k :: k in t.kids ==> Stores(pages, k)
  }

  /** Every page of b in p1 is unchanged in p2. */
  ghost predicate Agree(p1: Pages, p2: Pages, b: multiset<nat>) {
    forall o :: o in b && o in p1 ==> o in p2 && p2[o] == p1[o]
  }

  lemma {:induction false} StoresFrame(p1: Pages, p2: Pages, t: Tree)
    requires Stores(p1, t) && Agree(p1, p2, Foot(t))
    ensures Stores(p2, t)
    decreases t
  {
    forall k | k in t.kids ensures Stores(p2, k) {
      FeetContain(t.kids, k);
      StoresFrame(p1, p2, k);
    }
  }

  lemma StoresAllFrame(p1: Pages, p2: Pages, kids: seq<Tree>)
    requires (forall k :: k in kids ==> Stores(p1, k)) && Agree(p1, p2, Feet(kids))
    ensures forall k :: k in kids ==> Stores(p2, k)
  {
    forall k | k in kids ensures Stores(p2, k) {
      FeetContain(kids, k);
      StoresFrame(p1, p2, k);
    }
  }

  // ---------------------------------------------------------------- ownership

  /** The page offsets of a file of the given size; the header page is not one of them. */
  ghost function PageSet(size: nat): set<nat> {
    set o: nat | PAGE_SIZE <= o < size && o % PAGE_SIZE == 0
  }

  ghost predicate FreeChain(pages: Pages, head: nat, free: seq<nat>)
    decreases |free|
  {
    if free == [] then head == 0
    else head == free[0] && head in pages && pages[head].FreePage? && FreeChain(pages, pages[head].next, free[1..])
  }

  lemma {:induction false} FreeChainFrame(p1: Pages, p2: Pages, head: nat, free: seq<nat>)
    requires FreeChain(p1, head, free) && Agree(p1, p2, multiset(free))
    ensures FreeChain(p2, head, free)
    decreases |free|
  {
    if free != [] {
      assert free == [free[0]] + free[1..];
      assert free[0] in multiset(free);
      FreeChainFrame(p1, p2, p1[head].next, free[1..]);
    }
  }

  /** Each page of the file is used exactly once, or on the free list exactly once. */
  ghost predicate Accounts(used: multiset<nat>, free: seq<nat>, size: nat) {
    size >= PAGE_SIZE && size % PAGE_SIZE == 0 &&
    used + multiset(free) == multiset(PageSet(size))
  }

  lemma AtMostOnce(used: multiset<nat>, free: seq<nat>, size: nat, o: nat)
    requires Accounts(used, free, size)
    ensures used[o] + multiset(free)[o] <= 1
    ensures o in used || o in free ==> o != 0
  {
    assert (used + multiset(free))[o] == multiset(PageSet(size))[o];
  }

  lemma PageSetGrows(size: nat)
    requires size >= PAGE_SIZE && size % PAGE_SIZE == 0
    ensures multiset(PageSet(size + PAGE_SIZE)) == multiset(PageSet(size)) + multiset{size}
  {
    assert PageSet(size + PAGE_SIZE) == PageSet(size) + {size};
  }

  /** The child offsets tell leaves from branches. */
  lemma LeafByImage(items: seq<Item>, right: nat, t: Tree)
    requires Image(items, right, t)
    ensures t.IsLeaf() <==> right == 0 && forall j :: 0 <= j < |items| ==> items[j].child == 0
  {
  }
}
