/** The mutable NTX index: page reads and writes, the free list, insertion and deletion. */
module NtxIndex {
  import opened Entries
  import opened NtxTree
  import opened NtxMoves
  import opened NtxStore
  import opened NtxSteps
  import opened NtxImages
  import opened NtxMiss
  import opened NtxMissUp
  import opened NtxFate

  const MAX_KEY_SIZE := 250
  const SPACE: byte := 32

  /** The largest entry count for which count field, slot array and items fit one page. */
  function ComputeMaxItem(itemSize: nat): int {
    (PAGE_SIZE - 2) / (itemSize + 2) - 1
  }

  datatype Status = Ok | KeyTooLong | Corrupt | Panic

  ghost function Outcome(f: Fate): Status {
    match f
    case EmptyLeaf => Corrupt
    case NoSibling => Panic
    case Leaves(_, _) => Ok
  }

  /** The part of the header page that changes over time. */
  datatype Header = Header(root: nat, nextFree: nat)

  /** The pages of a file hold this tree and this free list, and nothing else. */
  ghost predicate OnFile(lay: Layout, unique: bool, header: Header, pages: Pages, size: nat, tree: Tree, height: nat,
                         free: seq<nat>) {
    && lay.maxItem >= 2 && header.root == tree.off && Shape(tree, height, lay) && Stores(pages, tree)
    && Accounts(Foot(tree), free, size) && FreeChain(pages, header.nextFree, free)
    && Sorted(Flat(tree)) && (unique ==> DistinctKeys(Flat(tree)))
  }

  /** The in-memory form of one page. */
  class Node {
    const offset: nat
    const leaf: bool
    var items: seq<Item>
    var right: nat

    constructor (offset: nat, leaf: bool, items: seq<Item>, right: nat)
      ensures this.offset == offset && this.leaf == leaf && this.items == items && this.right == right
    {
      this.offset, this.leaf, this.items, this.right := offset, leaf, items, right;
    }

    ghost predicate Matches(t: Tree)
      reads this
    {
      offset == t.off && leaf == t.IsLeaf() && Image(items, right, t)
    }

    /** Child pointer i; the rightmost pointer counts as position |items|. */
    function ChildAt(i: nat): nat
      requires i <= |items|
      reads this
    {
      if i == |items| then right else items[i].child
    }

    method SetChildAt(i: nat, off: nat)
      requires i <= |items|
      modifies this
      ensures if i == |old(items)| then items == old(items) && right == off
              else items == old(items)[i := Item(off, old(items)[i].entry)] && right == old(right)
    {
      if i == |items| {
        right := off;
      } else {
        items := items[i := items[i].(child := off)];
      }
    }
  }

  /** The position of the first item not below e, by binary search. */
  method FindInNode(items: seq<Item>, e: Entry) returns (i: nat)
    requires forall j, k :: 0 <= j < k < |items| ==> !Less(items[k].entry, items[j].entry)
    ensures i <= |items|
    ensures forall j :: 0 <= j < i ==> Less(items[j].entry, e)
    ensures forall j :: i <= j < |items| ==> !Less(items[j].entry, e)
  {
    var lo, hi := 0, |items|;
    while lo < hi
      invariant 0 <= lo <= hi <= |items|
      invariant forall j :: 0 <= j < lo ==> Less(items[j].entry, e)
      invariant forall j :: hi <= j < |items| ==> !Less(items[j].entry, e)
    {
      var mid := (lo + hi) / 2;
      if CompareEntries(items[mid].entry, e) < 0 {
        forall j | 0 <= j < mid ensures Less(items[j].entry, e) {
          LessMixed(items[j].entry, items[mid].entry, e);
        }
        lo := mid + 1;
      } else {
        forall j | mid < j < |items| ensures !Less(items[j].entry, e) {
          LessMixed(e, items[mid].entry, items[j].entry);
        }
        hi := mid;
      }
    }
    i := lo;
  }

  /** The search position in a page that holds the top of t. */
  method Locate(n: Node, e: Entry, ghost t: Tree) returns (i: nat)
    requires n.Matches(t) && Sorted(t.items)
    ensures i <= |t.items| && IsCut(t.items, e, i) && i == LowerBound(t.items, e)
  {
    i := FindInNode(n.items, e);
    assert IsCut(t.items, e, i);
    CutIsLowerBound(t.items, e, i);
  }

  class Index {
    const lay: Layout
    const unique: bool
    var root: nat
    var nextFree: nat
    var fileSize: nat
    var pages: Pages
    var header: Header
    ghost var tree: Tree
    ghost var height: nat
    ghost var free: seq<nat>

    /** The free list is sound, and the pages in use and the free pages make up the file. */
    ghost predicate Space(used: multiset<nat>)
      reads this
    {
      Accounts(used, free, fileSize) && FreeChain(pages, nextFree, free)
    }

    ghost predicate Valid()
      reads this
    {
      lay.maxItem >= 2 &&
      root == tree.off && Shape(tree, height, lay) && Stores(pages, tree) && Space(Foot(tree)) &&
      Sorted(Flat(tree)) && (unique ==> DistinctKeys(Flat(tree)))
    }

    ghost function Contents(): seq<Entry>
      reads this
    {
      Flat(tree)
    }

    /** A short key is extended with spaces to the key size. */
    function Pad(key: seq<byte>): (r: seq<byte>)
      ensures |key| <= lay.keySize ==> |r| == lay.keySize && key <= r && forall j :: |key| <= j < |r| ==> r[j] == 0x20
    {
      if |key| >= lay.keySize then key
      else key + seq(lay.keySize - |key|, _ => SPACE)
    }

    /** Writes an empty index: one leaf page after the header page. */
    constructor (keySize: nat, unique: bool)
      requires 1 <= keySize <= MAX_KEY_SIZE
      ensures Valid() && Contents() == [] && Synced() && Tight()
      ensures lay == Layout(keySize, ComputeMaxItem(keySize + 8)) && this.unique == unique
    {
      lay := Layout(keySize, ComputeMaxItem(keySize + 8));
      this.unique := unique;
      root, nextFree, fileSize := PAGE_SIZE, 0, 2 * PAGE_SIZE;
      pages := map[PAGE_SIZE := NodePage([], 0)];
      tree, height, free := Tree(PAGE_SIZE, [], []), 0, [];
      header := Header(PAGE_SIZE, 0);
      new;
      assert PageSet(2 * PAGE_SIZE) == {PAGE_SIZE};
      assert Foot(tree) == multiset{PAGE_SIZE};
    }

    /** Opens a file whose header and pages stand for a tree and a free list. Only what is on disk is
        looked at: a file whose header was not written since its free list changed is not one of these. */
    constructor Open(lay: Layout, unique: bool, header: Header, pages: Pages, size: nat,
                     ghost tree: Tree, ghost height: nat, ghost free: seq<nat>)
      requires OnFile(lay, unique, header, pages, size, tree, height, free)
      ensures this.lay == lay && this.unique == unique && this.pages == pages && this.tree == tree
      ensures Valid() && Contents() == Flat(tree) && Synced() && (Tight() <==> tree.IsLeaf() || tree.items != [])
    {
      this.lay, this.unique, this.header, this.pages := lay, unique, header, pages;
      root, nextFree, fileSize := header.root, header.nextFree, size;
      this.tree, this.height, this.free := tree, height, free;
    }

    /** The header page names the current root and free list. */
    ghost predicate Synced()
      reads this
    {
      header == Header(root, nextFree)
    }

    method WriteHeader()
      modifies this`header
      ensures Synced()
    {
      header := Header(root, nextFree);
    }

    /** Whether some entry has exactly this key after padding. */
    method ContainsKey(key: seq<byte>) returns (found: bool, status: Status)
      requires Valid()
      ensures status == if |key| > lay.keySize then KeyTooLong else Ok
      ensures found <==> status == Ok && HasKey(Contents(), Pad(key))
    {
      if |key| > lay.keySize {
        return false, KeyTooLong;
      }
      status := Ok;
      var e := Entry(Pad(key), 0);
      ghost var t, h, best := tree, height, Option<Entry>.None;
      var offset := root;
      while true
        invariant Standing(pages, lay, t, h) && offset == t.off
        invariant AtOrAbove(Contents(), e) == AtOrAbove(Flat(t), e).Or(best)
        invariant best.Some? ==> best.value.key != e.key
        decreases h
      {
        var n, i := Search(offset, e, t, h);
        if i < |n.items| && n.items[i].entry.key == e.key {
          KeyHit(t, i, e.key);
          found := true;
          break;
        }
        best := ItemAt(t.items, i).Or(best);
        if n.leaf {
          found := false;
          break;
        }
        offset := n.ChildAt(i);
        t, h := t.kids[i], h - 1;
      }
      FirstWithKey(Contents(), e.key);
    }

    // -------------------------------------------------------------- descending

    method Visit(offset: nat, ghost t: Tree, ghost h: nat) returns (n: Node)
      requires Standing(pages, lay, t, h) && offset == t.off
      ensures fresh(n) && n.Matches(t) && LeafOrWide(t) && Sorted(t.items) && (n.leaf <==> h == 0)
    {
      n := ReadNode(offset, t);
      ItemsSorted(t);
    }

    /** One step of a descent towards e: the page, the position, and what is left to find below it. */
    method Search(offset: nat, e: Entry, ghost t: Tree, ghost h: nat) returns (n: Node, i: nat)
      requires Standing(pages, lay, t, h) && offset == t.off
      ensures fresh(n) && n.Matches(t) && LeafOrWide(t) && i <= |t.items| && (n.leaf <==> h == 0)
      ensures n.leaf ==> AtOrAbove(Flat(t), e) == ItemAt(t.items, i) && Below(Flat(t), e) == ItemBefore(t.items, i)
      ensures !n.leaf ==>
        && t.Wide() && Standing(pages, lay, t.kids[i], h - 1) && n.ChildAt(i) == t.kids[i].off
        && AtOrAbove(Flat(t), e) == AtOrAbove(Flat(t.kids[i]), e).Or(ItemAt(t.items, i))
        && Below(Flat(t), e) == Below(Flat(t.kids[i]), e).Or(ItemBefore(t.items, i))
    {
      n := Visit(offset, t, h);
      i := Locate(n, e, t);
      SearchStep(pages, lay, t, h, i, e);
    }

    // -------------------------------------------------------------- pages

    method ReadNode(off: nat, ghost t: Tree) returns (n: Node)
      requires off == t.off && Stores(pages, t)
      ensures fresh(n) && n.Matches(t)
    {
      var page := pages[off];
      LeafByImage(page.items, page.right, t);
      var leaf := page.right == 0 && forall j :: 0 <= j < |page.items| ==> page.items[j].child == 0;
      n := new Node(off, leaf, page.items, page.right);
    }

    method ReadKid(n: Node, i: nat, ghost t: Tree) returns (child: Node)
      requires t.Wide() && i <= |t.items| && n.Matches(t) && forall k :: k in t.kids ==> Stores(pages, k)
      ensures fresh(child) && child.Matches(t.kids[i])
    {
      assert t.kids[i] in t.kids;
      child := ReadNode(n.ChildAt(i), t.kids[i]);
    }

    method WriteNode(n: Node, ghost t: Tree, ghost used: multiset<nat>)
      requires n.Matches(t) && NodeOk(t, lay) && Space(used) && t.off in used
      modifies this`pages
      ensures pages == old(pages)[n.offset := NodePage(n.items, n.right)]
      ensures Space(used)
    {
      AtMostOnce(used, free, fileSize, t.off);
      pages := pages[n.offset := NodePage(n.items, n.right)];
      FreeChainFrame(old(pages), pages, nextFree, free);
    }

    /** Pops the free list, or extends the file. */
    method AllocPage(ghost used: multiset<nat>) returns (off: nat)
      requires Space(used)
      modifies this`nextFree, this`fileSize, this`free
      ensures Space(used + multiset{off})
      ensures off !in used && off != 0
    {
      if nextFree != 0 {
        off := nextFree;
        nextFree := pages[off].next;
        AtMostOnce(used, free, fileSize, off);
        assert free == [free[0]] + free[1..];
        free := free[1..];
      } else {
        off := fileSize;
        AtMostOnce(used, free, fileSize, off);
        PageSetGrows(fileSize);
        assert free == [] by {
          if free != [] { AtMostOnce(used, free, fileSize, free[0]); }
        }
        assert (used + multiset(free))[off] == multiset(PageSet(fileSize))[off];
        fileSize := fileSize + PAGE_SIZE;
      }
    }

    method FreePage(off: nat, ghost used: multiset<nat>)
      requires Space(used + multiset{off})
      modifies this`pages, this`nextFree, this`free
      ensures pages == old(pages)[off := NtxStore.FreePage(old(nextFree))]
      ensures Space(used) && free == [off] + old(free) && nextFree == off
    {
      AtMostOnce(used + multiset{off}, free, fileSize, off);
      pages := pages[off := NtxStore.FreePage(nextFree)];
      FreeChainFrame(old(pages), pages, nextFree, free);
      nextFree := off;
      free := [off] + free;
      assert free[1..] == old(free);
    }

    // -------------------------------------------------------------- insertion

    /** Splits the full child i of parent around its median. */
    method SplitChild(parent: Node, i: nat, child: Node, ghost p: Tree, ghost h: nat, ghost rest: multiset<nat>)
      returns (off: nat)
      requires lay.maxItem >= 2 && h > 0 && Shape(p, h, lay) && i <= |p.items| < lay.maxItem
      requires |p.kids[i].items| == lay.maxItem
      requires parent != child && parent.Matches(p) && child.Matches(p.kids[i])
      requires (forall k :: k in p.kids ==> Stores(pages, k)) && Space(Foot(p) + rest)
      modifies this`pages, this`nextFree, this`fileSize, this`free, parent, child
      ensures parent.Matches(SplitKid(p, i, off))
      ensures Stores(pages, SplitKid(p, i, off))
      ensures Space(Foot(SplitKid(p, i, off)) + rest)
      ensures Agree(old(pages), pages, rest)
    {
      off := AllocPage(Foot(p) + rest);
      ghost var c, m := p.kids[i], |p.kids[i].items| / 2;
      ghost var used := Foot(p) + rest + multiset{off};
      SplitNodesOk(p, i, off, h, lay);
      SplitApart(p, i, off, rest, free, fileSize);
      assert used == Foot(SplitKid(p, i, off)) + rest;
      var rightNode := MoveUpperHalf(parent, i, child, off, p);
      WriteNode(child, Lower(c, m), used);
      WriteNode(rightNode, Upper(c, m, off), used);
      WriteNode(parent, SplitKid(p, i, off), used);
      SplitStored(old(pages), pages, p, i, off, rest, free, fileSize);
    }

    /** Reads the child e belongs under, splitting it first when it is full. */
    method ChildWithRoom(n: Node, e: Entry, ghost t: Tree, ghost h: nat, ghost rest: multiset<nat>)
      returns (i: nat, child: Node, ghost p: Tree)
      requires lay.maxItem >= 2 && h > 0 && Shape(t, h, lay) && |t.items| < lay.maxItem && Sorted(Flat(t))
      requires n.Matches(t) && Stores(pages, t) && Space(Foot(t) + rest)
      modifies this`pages, this`nextFree, this`fileSize, this`free, n
      ensures p.off == t.off && Shape(p, h, lay) && |p.items| >= |t.items| && Flat(p) == Flat(t)
      ensures Stores(pages, p) && Space(Foot(p) + rest) && Agree(old(pages), pages, rest)
      ensures i <= |p.items| && p.Wide() && Under(p, i, e)
      ensures fresh(child) && child.Matches(p.kids[i]) && |p.kids[i].items| < lay.maxItem
    {
      hide Sorted, Flat, Foot, Accounts, FreeChain;
      ItemsSorted(t);
      i := Locate(n, e, t);
      KidsShape(t, i, h, lay);
      child := ReadKid(n, i, t);
      if |child.items| == lay.maxItem {
        i, child, p := SplitTowards(n, i, child, e, t, h, rest);
      } else {
        p := t;
      }
    }

    /** Splits the full child i, and picks the half e belongs under. */
    method SplitTowards(n: Node, i: nat, full: Node, e: Entry, ghost t: Tree, ghost h: nat, ghost rest: multiset<nat>)
      returns (j: nat, child: Node, ghost p: Tree)
      requires lay.maxItem >= 2 && h > 0 && Shape(t, h, lay) && i <= |t.items| < lay.maxItem && t.Wide()
      requires Under(t, i, e)
      requires n != full && n.Matches(t) && full.Matches(t.kids[i]) && |t.kids[i].items| == lay.maxItem
      requires Stores(pages, t) && Space(Foot(t) + rest)
      modifies this`pages, this`nextFree, this`fileSize, this`free, n, full
      ensures p.off == t.off && Shape(p, h, lay) && |p.items| >= |t.items| && Flat(p) == Flat(t)
      ensures Stores(pages, p) && Space(Foot(p) + rest) && Agree(old(pages), pages, rest)
      ensures j <= |p.items| && p.Wide() && Under(p, j, e)
      ensures fresh(child) && child.Matches(p.kids[j]) && |p.kids[j].items| < lay.maxItem
    {
      hide Flat, Foot, Accounts, FreeChain, Under, Less, Agree;
      var off := SplitChild(n, i, full, t, h, rest);
      p := SplitKid(t, i, off);
      SplitSummary(t, i, off, h, lay);
      var median := n.items[i];
      UnderAfterSplit(t, i, p, median.entry, e);
      j := i;
      if CompareEntries(e, median.entry) > 0 {
        j := i + 1;
      }
      child := ReadKid(n, j, p);
    }

    /** Inserts e below n, which has room; full children are split on the way down. */
    method InsertNonFull(n: Node, e: Entry, ghost t: Tree, ghost h: nat, ghost rest: multiset<nat>)
      returns (ghost q: Tree)
      requires lay.maxItem >= 2 && |e.key| == lay.keySize
      requires Shape(t, h, lay) && |t.items| < lay.maxItem && Sorted(Flat(t))
      requires n.Matches(t) && Stores(pages, t) && Space(Foot(t) + rest)
      modifies this`pages, this`nextFree, this`fileSize, this`free, n
      ensures q.off == t.off && Shape(q, h, lay) && |q.items| >= |t.items|
      ensures Flat(q) == Inserted(Flat(t), e)
      ensures Stores(pages, q) && Space(Foot(q) + rest) && Agree(old(pages), pages, rest)
      decreases h
    {
      hide Sorted, Flat, Foot, Accounts, FreeChain;
      if n.leaf {
        q := InsertInLeaf(n, e, t, rest);
      } else {
        var i, child, p := ChildWithRoom(n, e, t, h, rest);
        EnterKid(pages, p, i, h, lay, rest);
        ghost var before, around := pages, Beside(p, i) + rest;
        ghost var kid := InsertNonFull(child, e, p.kids[i], h - 1, around);
        q := WithKid(p, i, kid);
        InsertStep(p, i, e, kid);
        LeaveKid(before, pages, p, i, kid, h, lay, rest);
      }
    }

    method InsertInLeaf(n: Node, e: Entry, ghost t: Tree, ghost rest: multiset<nat>) returns (ghost q: Tree)
      requires |e.key| == lay.keySize && t.IsLeaf() && NodeOk(t, lay) && |t.items| < lay.maxItem && Sorted(Flat(t))
      requires n.Matches(t) && Space(Foot(t) + rest)
      modifies this`pages, n
      ensures q.off == t.off && q.IsLeaf() && NodeOk(q, lay) && |q.items| > |t.items|
      ensures Flat(q) == Inserted(Flat(t), e)
      ensures Stores(pages, q) && Space(Foot(q) + rest) && Agree(old(pages), pages, rest)
    {
      assert Sorted(t.items);
      var i := Locate(n, e, t);
      LeafWith(n.items, n.right, t, i, e, lay);
      q := t.(items := With(t.items, i, e));
      n.items := With(n.items, i, Item(0, e));
      LeafAlone(t, q, rest, free, fileSize);
      WriteNode(n, q, Foot(q) + rest);
    }

    /** A full root is split under a fresh root, growing the tree by one level. */
    method GrowRoot(rootNode: Node) returns (newRoot: Node, ghost t: Tree)
      requires lay.maxItem >= 2 && Shape(tree, height, lay) && |tree.items| == lay.maxItem
      requires rootNode.Matches(tree) && Stores(pages, tree) && Space(Foot(tree))
      modifies this`pages, this`nextFree, this`fileSize, this`free, this`root, rootNode
      ensures fresh(newRoot) && newRoot.Matches(t) && root == t.off
      ensures Shape(t, height + 1, lay) && 0 < |t.items| < lay.maxItem && Flat(t) == Flat(tree)
      ensures Stores(pages, t) && Space(Foot(t) + multiset{})
    {
      hide Sorted, FreeChain, Accounts, Flat, Shape;
      AtMostOnce(Foot(tree), free, fileSize, tree.off);
      var newOffset := AllocPage(Foot(tree));
      newRoot := new Node(newOffset, false, [], rootNode.offset);
      ghost var p := Tree(newOffset, [], [tree]);
      GrowFacts(tree, newOffset, height, lay);
      var off := SplitChild(newRoot, 0, rootNode, p, height + 1, multiset{});
      root := newOffset;
      t := SplitKid(p, 0, off);
      GrowSummary(tree, newOffset, off, height, lay);
    }

    method RootWithRoom() returns (rootNode: Node, ghost t: Tree, ghost h: nat)
      requires Valid()
      modifies this`pages, this`nextFree, this`fileSize, this`free, this`root
      ensures fresh(rootNode) && rootNode.Matches(t) && root == t.off
      ensures Shape(t, h, lay) && |t.items| < lay.maxItem && Flat(t) == Flat(tree)
      ensures Tight() ==> h == 0 || t.items != []
      ensures Stores(pages, t) && Space(Foot(t) + multiset{})
    {
      rootNode := ReadNode(root, tree);
      t, h := tree, height;
      assert Foot(t) + multiset{} == Foot(t);
      if |rootNode.items| == lay.maxItem {
        rootNode, t := GrowRoot(rootNode);
        h := height + 1;
      }
    }

    /** Adds (key, recno); a unique index silently skips a key it already has. */
    method Insert(key: seq<byte>, recno: nat) returns (added: bool, status: Status)
      requires Valid()
      modifies this
      ensures Valid()
      ensures status == if |key| > lay.keySize then KeyTooLong else Ok
      ensures added <==> status == Ok && !(unique && HasKey(old(Contents()), Pad(key)))
      ensures Contents() == if added then Inserted(old(Contents()), Entry(Pad(key), recno)) else old(Contents())
      ensures !added ==> Now() == old(Now()) && root == old(root) && fileSize == old(fileSize) && header == old(header)
      ensures added ==> Synced()
      ensures old(Tight()) ==> Tight()
    {
      hide Flat, Foot, Accounts, FreeChain, Image, Inserted;
      if |key| > lay.keySize {
        return false, KeyTooLong;
      }
      var e := Entry(Pad(key), recno);
      if unique {
        var exists_, st := ContainsKey(key);
        if exists_ {
          return false, Ok;
        }
      }
      var rootNode, t, h := RootWithRoom();
      ghost var q := InsertNonFull(rootNode, e, t, h, multiset{});
      assert Foot(q) + multiset{} == Foot(q);
      tree, height := q, h;
      ContentsAfterInsert(old(Contents()), e, unique);
      WriteHeader();
      return true, Ok;
    }

    // -------------------------------------------------------------- refilling a child

    /** Writes the two rotated children and their parent. */
    method WritePair(first: Node, second: Node, parent: Node, ghost p: Tree, ghost j: nat,
                     ghost a: Tree, ghost s: Entry, ghost b: Tree, ghost rest: multiset<nat>)
      requires p.Wide() && j < |p.items| && a.off == p.kids[j].off && b.off == p.kids[j + 1].off
      requires parent.Matches(PairToPair(p, j, a, s, b)) && NodeOk(PairToPair(p, j, a, s, b), lay)
      requires (first.Matches(a) && second.Matches(b)) || (first.Matches(b) && second.Matches(a))
      requires NodeOk(a, lay) && NodeOk(b, lay)
      requires forall k :: k in a.kids || k in b.kids ==> k in p.kids[j].kids || k in p.kids[j + 1].kids
      requires (forall k :: k in p.kids ==> Stores(pages, k)) && Space(Foot(p) + rest)
      modifies this`pages
      ensures Stores(pages, PairToPair(p, j, a, s, b)) && Space(Foot(p) + rest)
      ensures Agree(old(pages), pages, rest) && OnlyChanged(old(pages), pages, Tops(p))
      ensures second.offset in pages && pages[second.offset] == NodePage(second.items, second.right)
    {
      PairApart(p, j, rest, free, fileSize);
      ghost var x := if first.Matches(a) && second.Matches(b) then a else b;
      ghost var y := if first.Matches(a) && second.Matches(b) then b else a;
      WriteNode(first, x, Foot(p) + rest);
      WriteNode(second, y, Foot(p) + rest);
      WriteNode(parent, PairToPair(p, j, a, s, b), Foot(p) + rest);
      PairOutside(old(pages), pages, p, j, rest, free, fileSize);
      PairToPairStored(pages, p, j, a, s, b);
    }

    method RotateRight(parent: Node, i: nat, left: Node, child: Node, ghost p: Tree, ghost h: nat,
                       ghost rest: multiset<nat>)
      requires lay.maxItem >= 2 && Lacking(p, i, h, lay) && i > 0 && |p.kids[i - 1].items| > lay.Half()
      requires parent.Matches(p) && left.Matches(p.kids[i - 1]) && child.Matches(p.kids[i])
      requires parent != left && parent != child && left != child
      requires (forall k :: k in p.kids ==> Stores(pages, k)) && Space(Foot(p) + rest)
      modifies this`pages, parent, left, child
      ensures Refilled(old(pages), parent, NtxMoves.RotateRight(p, i), p, rest)
      ensures Same(p, NtxMoves.RotateRight(p, i), h)
      ensures nextFree == old(nextFree) && free == old(free)
      ensures p.kids[i].off in pages && pages[p.kids[i].off] == NodePage(child.items, child.right)
      ensures |child.items| == |p.kids[i].items| + 1
    {
      RotateRightFacts(p, i, h, lay);
      RotateRightKids(p, i, h, lay);
      LackingKids(p, i, i - 1, h, lay);
      ghost var q := NtxMoves.RotateRight(p, i);
      ShiftRight(parent, i, left, child, p);
      WritePair(left, child, parent, p, i - 1, q.kids[i - 1], q.items[i - 1], q.kids[i], rest);
    }

    method RotateLeft(parent: Node, i: nat, child: Node, right: Node, ghost p: Tree, ghost h: nat,
                      ghost rest: multiset<nat>)
      requires lay.maxItem >= 2 && Lacking(p, i, h, lay) && i < |p.items| && |p.kids[i + 1].items| > lay.Half()
      requires parent.Matches(p) && child.Matches(p.kids[i]) && right.Matches(p.kids[i + 1])
      requires parent != child && parent != right && child != right
      requires (forall k :: k in p.kids ==> Stores(pages, k)) && Space(Foot(p) + rest)
      modifies this`pages, parent, child, right
      ensures Refilled(old(pages), parent, NtxMoves.RotateLeft(p, i), p, rest) && Same(p, NtxMoves.RotateLeft(p, i), h)
      ensures nextFree == old(nextFree) && free == old(free)
      ensures p.kids[i].off in pages && pages[p.kids[i].off] == NodePage(child.items, child.right)
      ensures |child.items| == |p.kids[i].items| + 1
    {
      RotateLeftFacts(p, i, h, lay);
      RotateLeftKids(p, i, h, lay);
      LackingKids(p, i, i, h, lay);
      ghost var q := NtxMoves.RotateLeft(p, i);
      ShiftLeft(parent, i, child, right, p);
      WritePair(right, child, parent, p, i, q.kids[i], q.items[i], q.kids[i + 1], rest);
    }

    /** Merges children j and j+1, one of which is lacking while neither holds more than half a page. */
    method MergeChildren(parent: Node, j: nat, left: Node, right: Node, ghost i: nat, ghost p: Tree, ghost h: nat,
                         ghost rest: multiset<nat>)
      requires lay.maxItem >= 2 && Lacking(p, i, h, lay) && j < |p.items| && (i == j || i == j + 1)
      requires |p.kids[j].items| <= lay.Half() && |p.kids[j + 1].items| <= lay.Half()
      requires parent.Matches(p) && left.Matches(p.kids[j]) && right.Matches(p.kids[j + 1])
      requires parent != left && parent != right && left != right
      requires (forall k :: k in p.kids ==> Stores(pages, k)) && Space(Foot(p) + rest)
      modifies this`pages, this`nextFree, this`free, parent, left
      ensures Refilled(old(pages), parent, MergeKids(p, j), p, rest) && Same(p, MergeKids(p, j), h)
      ensures free == [p.kids[j + 1].off] + old(free)
    {
      hide Sorted, Flat, Foot, Accounts, FreeChain;
      MergeReady(p, i, j, h, lay, rest);
      MergeKidsFacts(p, i, j, h, lay);
      PairApart(p, j, rest, free, fileSize);
      ghost var m, q := Merged(p.kids[j], p.items[j], p.kids[j + 1]), MergeKids(p, j);
      Absorb(parent, j, left, right, p);
      FreePage(right.offset, Foot(q) + rest);
      WriteNode(left, m, Foot(q) + rest);
      WriteNode(parent, q, Foot(q) + rest);
      PairOutside(old(pages), pages, p, j, rest, old(free), fileSize);
      PairToOneStored(pages, p, j, m);
    }

    /** Refills child i by borrowing from a neighbour, or merges it with one. A parent without
        entries has no neighbour to offer: the pointer lookup left of position 0 is out of range. */
    method FixChild(parent: Node, i: nat, child: Node, ghost p: Tree, ghost h: nat, ghost rest: multiset<nat>)
      returns (status: Status, ghost q: Tree)
      requires lay.maxItem >= 2 && Lacking(p, i, h, lay)
      requires parent != child && parent.Matches(p) && child.Matches(p.kids[i])
      requires (forall k :: k in p.kids ==> Stores(pages, k)) && Space(Foot(p) + rest)
      modifies this`pages, this`nextFree, this`free, parent, child
      ensures status == if p.items == [] then Panic else Ok
      ensures status == Ok ==> q == Mend(p, i, lay) && Refilled(old(pages), parent, q, p, rest)
      ensures status == Ok ==> Same(p, q, h)
      ensures status == Ok && CanLend(p, i, lay) ==>
        |q.items| == |p.items| && HasFill(pages, p.kids[i].off, |p.kids[i].items| + 1)
      ensures status == Ok && !CanLend(p, i, lay) ==>
        |q.items| == |p.items| - 1
      ensures status == Ok ==> |free| == |old(free)| + if CanLend(p, i, lay) then 0 else 1
    {
      hide Flat, Foot, Accounts, FreeChain, Sorted, Agree, OnlyChanged;
      q := p;
      if i > 0 {
        var left := ReadKid(parent, i - 1, p);
        if |left.items| > lay.maxItem / 2 {
          RotateRight(parent, i, left, child, p, h, rest);
          q := NtxMoves.RotateRight(p, i);
          return Ok, q;
        }
      }
      if i < |parent.items| {
        var right := ReadKid(parent, i + 1, p);
        if |right.items| > lay.maxItem / 2 {
          RotateLeft(parent, i, child, right, p, h, rest);
          q := NtxMoves.RotateLeft(p, i);
          return Ok, q;
        }
        MergeChildren(parent, i, child, right, i, p, h, rest);
        q := MergeKids(p, i);
        return Ok, q;
      }
      if i == 0 {
        return Panic, q;
      }
      var left := ReadKid(parent, i - 1, p);
      MergeChildren(parent, i - 1, left, child, i, p, h, rest);
      q := MergeKids(p, i - 1);
      return Ok, q;
    }

    ghost function Now(): State
      reads this
    {
      State(pages, nextFree, free)
    }

    // -------------------------------------------------------------- deletion

    /** Removes and returns the largest entry below n. */
    method DeleteMax(n: Node, ghost t: Tree, ghost h: nat, ghost rest: multiset<nat>)
      returns (pred: Entry, under: bool, status: Status, ghost q: Tree)
      requires lay.maxItem >= 2 && Shape(t, h, lay)
      requires n.Matches(t) && Stores(pages, t) && Space(Foot(t) + rest)
      modifies this`pages, this`nextFree, this`free, n
      ensures status == Ok ==> Flat(t) == Flat(q) + [pred] && |pred.key| == lay.keySize
      ensures status == Ok ==> Shrunk(n, t, q, h, rest, old(pages))
      ensures status == Ok ==> (under <==> |q.items| < lay.Half())
      ensures status == Corrupt ==> Now() == old(Now())
      ensures status == Outcome(MaxFate(t, lay)) && (status == Ok ==> MaxFate(t, lay) == Leaves(|q.items|, under))
      ensures status == Ok ==> q == WithoutLargest(t, lay)
      decreases h, 1
    {
      if n.leaf {
        if |n.items| == 0 {
          return Entry([], 0), false, Corrupt, t;
        }
        pred, q := DropLastItem(n, t, rest);
        under, status := |n.items| < lay.maxItem / 2, Ok;
      } else {
        pred, under, status, q := DeleteMaxBelow(n, t, h, rest);
      }
    }

    method DeleteMaxBelow(n: Node, ghost t: Tree, ghost h: nat, ghost rest: multiset<nat>)
      returns (pred: Entry, under: bool, status: Status, ghost q: Tree)
      requires lay.maxItem >= 2 && h > 0 && Shape(t, h, lay)
      requires n.Matches(t) && Stores(pages, t) && Space(Foot(t) + rest)
      modifies this`pages, this`nextFree, this`free, n
      ensures status == Ok ==> Flat(t) == Flat(q) + [pred] && |pred.key| == lay.keySize
      ensures status == Ok ==> Shrunk(n, t, q, h, rest, old(pages))
      ensures status == Ok ==> (under <==> |q.items| < lay.Half())
      ensures status == Corrupt ==> Now() == old(Now())
      ensures status == Outcome(MaxFate(t, lay)) && (status == Ok ==> MaxFate(t, lay) == Leaves(|q.items|, under))
      ensures status == Ok ==> q == WithoutLargest(t, lay)
      decreases h, 0
    {
      hide Sorted, Flat, Foot, Accounts, FreeChain, MaxFate, WithoutLargest, Deleted, Raised, Above, CanLend;
      MaxFateDown(t, lay);
      ghost var i := |t.items|;
      EnterAny(pages, t, i, h, lay, rest);
      var child := ReadNode(n.right, t.kids[i]);
      var childUnder;
      ghost var k;
      pred, childUnder, status, k := DeleteMax(child, t.kids[i], h - 1, Beside(t, i) + rest);
      under, q := false, t;
      if status == Ok {
        MaxStep(t, k, pred);
        BesideKept(old(pages), pages, t, i, rest);
        status, q := Rebalance(n, |n.items|, child, childUnder, t, k, old(pages), h, rest);
        FateRaised(t, i, k, q, childUnder, status == Ok, lay);
        under := |n.items| < lay.maxItem / 2;
      } else {
        FateFails(t, i, MaxFate(t.kids[i], lay), lay);
      }
    }

    /** The tail of every step up: child i has become k; it is refilled if it ran low. */
    method Rebalance(n: Node, i: nat, child: Node, childUnder: bool,
                     ghost t: Tree, ghost k: Tree, ghost before: Pages, ghost h: nat, ghost rest: multiset<nat>)
      returns (status: Status, ghost q: Tree)
      requires lay.maxItem >= 2 && h > 0 && Shape(t, h, lay) && i <= |t.items| && KidLess(k, t.kids[i], h, lay)
      requires if childUnder then |k.items| < lay.Half() else |k.items| >= lay.Half() || k == t.kids[i]
      requires n != child && n.Matches(t) && child.Matches(k)
      requires (forall x :: x in t.kids ==> Stores(before, x)) && Written(pages, t) && Stores(pages, k)
      requires Agree(before, pages, Aside(t, i) + rest) && Space(Foot(k) + (Beside(t, i) + rest))
      modifies this`pages, this`nextFree, this`free, n, child
      ensures status == if childUnder && t.items == [] then Panic else Ok
      ensures status == Ok ==> Flat(q) == Flat(WithKid(t, i, k)) && Shrunk(n, t, q, h, rest, before)
      ensures status == Ok ==> q == Raised(t, i, k, childUnder, lay)
      ensures status == Ok && !childUnder ==> q == WithKid(t, i, k) && Now() == old(Now())
      ensures status == Ok && childUnder ==> Refill(WithKid(t, i, k), i, q, lay, old(Now()), Now())
      ensures status == Ok ==>
        |q.items| == |t.items| - (if childUnder && !CanLend(WithKid(t, i, k), i, lay) then 1 else 0)
    {
      hide Sorted, Flat, Foot, Accounts, FreeChain, CanLend, OnlyChanged, HasFill, KidOk, Image;
      status, q := Ok, WithKid(t, i, k);
      LeaveLess(before, pages, t, i, k, childUnder, h, lay, rest);
      WithKidImage(n.items, n.right, t, i, k);
      if childUnder {
        ghost var middle := pages;
        status, q := FixChild(n, i, child, q, h, rest);
        if status == Ok {
          AgreeTrans(before, middle, pages, Aside(t, i), rest);
        }
      }
    }

    /** Removes (key, recno) from the subtree of n; under reports a page below half. */
    method DeleteRec(n: Node, e: Entry, ghost t: Tree, ghost h: nat, ghost rest: multiset<nat>)
      returns (found: bool, under: bool, status: Status, ghost q: Tree)
      requires lay.maxItem >= 2 && Shape(t, h, lay) && Sorted(Flat(t))
      requires n.Matches(t) && Stores(pages, t) && Space(Foot(t) + rest)
      modifies this`pages, this`nextFree, this`free, n
      ensures status == Ok ==> (found <==> Holds(Flat(t), e)) && Flat(q) == Removed(Flat(t), e)
      ensures status == Ok ==> Shrunk(n, t, q, h, rest, old(pages))
      ensures status == Ok ==> if n.leaf && !found then !under && q == t else under <==> |q.items| < lay.Half()
      ensures status == Corrupt ==> Now() == old(Now())
      ensures status == Outcome(DeletionFate(t, e, lay))
      ensures (status == Ok ==> DeletionFate(t, e, lay) == Leaves(|q.items|, under))
      ensures status == Ok ==> q == Deleted(t, e, lay)
      ensures status == Ok && !found ==> Missed(t, q, e, lay, old(Now()), Now())
      decreases h, 1
    {
      hide DeletionFate, MaxFate, Deleted, Above, Missed, Removed, Flat, Foot, Sorted, Accounts, FreeChain, Agree;
      ItemsSorted(t);
      var i := Locate(n, e, t);
      if n.leaf {
        found, under, q := DeleteFromLeaf(n, i, e, t, rest);
        status := Ok;
      } else if i < |n.items| && CompareEntries(n.items[i].entry, e) == 0 {
        FateDown(t, e, i, lay);
        status, q := DeleteInner(n, i, e, t, h, rest);
        found, under := true, |n.items| < lay.maxItem / 2;
      } else {
        found, under, status, q := DeleteBelow(n, i, e, t, h, rest);
      }
    }

    method DeleteFromLeaf(n: Node, i: nat, e: Entry, ghost t: Tree, ghost rest: multiset<nat>)
      returns (found: bool, under: bool, ghost q: Tree)
      requires lay.maxItem >= 2 && Shape(t, 0, lay) && Sorted(Flat(t)) && n.leaf
      requires i == LowerBound(t.items, e) <= |t.items|
      requires n.Matches(t) && Stores(pages, t) && Space(Foot(t) + rest)
      modifies this`pages, n
      ensures (found <==> Holds(Flat(t), e)) && Flat(q) == Removed(Flat(t), e)
      ensures Shrunk(n, t, q, 0, rest, old(pages))
      ensures if found then under <==> |q.items| < lay.Half() else !under && q == t
      ensures DeletionFate(t, e, lay) == Leaves(|q.items|, under) && q == Deleted(t, e, lay)
      ensures !found ==> Missed(t, q, e, lay, old(Now()), Now())
    {
      hide DeletionFate, Accounts, FreeChain;
      FateHere(t, e, i, lay);
      LowerBoundIsCut(t.items, e);
      LeafRemove(t, i, e);
      if i < |n.items| && CompareEntries(n.items[i].entry, e) == 0 {
        q := RemoveFromLeaf(n, i, t, rest);
        found, under := true, |n.items| < lay.maxItem / 2;
      } else {
        found, under, q := false, false, t;
      }
    }

    /** Removes e from child i, which it belongs under. */
    method DeleteBelow(n: Node, i: nat, e: Entry, ghost t: Tree, ghost h: nat, ghost rest: multiset<nat>)
      returns (found: bool, under: bool, status: Status, ghost q: Tree)
      requires lay.maxItem >= 2 && h > 0 && Shape(t, h, lay) && Sorted(Flat(t))
      requires i == LowerBound(t.items, e) && Under(t, i, e) && (i < |t.items| ==> t.items[i] != e)
      requires n.Matches(t) && Stores(pages, t) && Space(Foot(t) + rest)
      modifies this`pages, this`nextFree, this`free, n
      ensures status == Ok ==> (found <==> Holds(Flat(t), e)) && Flat(q) == Removed(Flat(t), e)
      ensures status == Ok ==> Shrunk(n, t, q, h, rest, old(pages))
      ensures status == Ok ==> (under <==> |q.items| < lay.Half())
      ensures status == Corrupt ==> Now() == old(Now())
      ensures status == Outcome(DeletionFate(t, e, lay))
      ensures (status == Ok ==> DeletionFate(t, e, lay) == Leaves(|q.items|, under))
      ensures status == Ok ==> q == Deleted(t, e, lay)
      ensures status == Ok && !found ==> Missed(t, q, e, lay, old(Now()), Now())
      decreases h, 0
    {
      hide Sorted, Flat, Foot, Accounts, FreeChain, Missed, Refill, Removed, Holds, Under, LowerBound, Less, Agree,
           WithKid, DeletionFate, MaxFate, Deleted, WithoutLargest, Raised, Above, CanLend, OnlyChanged, HasFill, KidOk;
      FateDown(t, e, i, lay);
      EnterKid(pages, t, i, h, lay, rest);
      var child := ReadNode(n.ChildAt(i), t.kids[i]);
      var childUnder;
      ghost var k;
      found, childUnder, status, k := DeleteRec(child, e, t.kids[i], h - 1, Beside(t, i) + rest);
      under, q := false, t;
      if status == Ok {
        RemoveStep(t, i, e, k);
        BesideKept(old(pages), pages, t, i, rest);
        ghost var middle := Now();
        status, q := Rebalance(n, i, child, childUnder, t, k, old(pages), h, rest);
        FateRaised(t, i, k, q, childUnder, status == Ok, lay);
        under := |n.items| < lay.maxItem / 2;
        if status == Ok && !found {
          MissUp(t, i, k, q, e, childUnder, lay, old(Now()), middle, Now(), rest, fileSize);
        }
      } else {
        FateFails(t, i, DeletionFate(t.kids[i], e, lay), lay);
      }
    }

    method RemoveFromLeaf(n: Node, i: nat, ghost t: Tree, ghost rest: multiset<nat>) returns (ghost q: Tree)
      requires lay.maxItem >= 2 && Shape(t, 0, lay) && i < |t.items|
      requires n.Matches(t) && Space(Foot(t) + rest)
      modifies this`pages, n
      ensures q == t.(items := Without(t.items, i))
      ensures Shrunk(n, t, q, 0, rest, old(pages))
    {
      n.items := Without(n.items, i);
      q := t.(items := Without(t.items, i));
      LeafAlone(t, q, rest, free, fileSize);
      WriteNode(n, q, Foot(q) + rest);
    }

    /** Replaces entry i of a branch by the largest entry of child i. */
    method DeleteInner(n: Node, i: nat, e: Entry, ghost t: Tree, ghost h: nat, ghost rest: multiset<nat>)
      returns (status: Status, ghost q: Tree)
      requires lay.maxItem >= 2 && h > 0 && Shape(t, h, lay) && Sorted(Flat(t)) && i < |t.items| && t.items[i] == e
      requires n.Matches(t) && Stores(pages, t) && Space(Foot(t) + rest)
      modifies this`pages, this`nextFree, this`free, n
      ensures status == Ok ==> Holds(Flat(t), e) && Flat(q) == Removed(Flat(t), e)
      ensures status == Ok ==> Shrunk(n, t, q, h, rest, old(pages))
      ensures status == Corrupt ==> Now() == old(Now())
      ensures var f := Above(t, i, MaxFate(t.kids[i], lay), lay);
        status == Outcome(f) && (status == Ok ==> f == Leaves(|q.items|, |q.items| < lay.Half()))
      ensures status == Ok ==>
        q == Raised(t.(items := t.items[i := Largest(t.kids[i])]), i, WithoutLargest(t.kids[i], lay),
          MaxFate(t.kids[i], lay).RunsLow(), lay)
    {
      hide Sorted, Flat, Foot, Accounts, FreeChain, MaxFate, WithoutLargest, Deleted, Raised, Above, CanLend;
      EnterAny(pages, t, i, h, lay, rest);
      var child := ReadNode(n.items[i].child, t.kids[i]);
      var pred, childUnder;
      ghost var k;
      pred, childUnder, status, k := DeleteMax(child, t.kids[i], h - 1, Beside(t, i) + rest);
      q := t;
      if status == Ok {
        ghost var u := t.(items := t.items[i := pred]);
        PromoteReady(t, i, k, pred, e, h, lay, rest);
        SetEntryImage(n.items, n.right, t, i, pred);
        n.items := n.items[i := n.items[i].(entry := pred)];
        ghost var middle := pages;
        WriteNode(n, u, Foot(k) + (Beside(u, i) + rest));
        WrittenApart(old(pages), middle, pages, u, i, k, rest, free, fileSize);
        status, q := Rebalance(n, i, child, childUnder, u, k, old(pages), h, rest);
        FateRaised(u, i, k, q, childUnder, status == Ok, lay);
        FateOfPromoted(t, u, i, MaxFate(t.kids[i], lay), lay);
      } else {
        FateFails(t, i, MaxFate(t.kids[i], lay), lay);
      }
    }

    /** The root branch, if there is one, holds at least one entry. */
    ghost predicate Tight()
      reads this
    {
      tree.IsLeaf() || tree.items != []
    }

    /** Removes the entry with exactly this key and record number.

        A branch root left without entries is replaced by its only child, but only after a
        deletion that found its entry. */
    method Delete(key: seq<byte>, recno: nat) returns (found: bool, status: Status)
      requires Valid()
      modifies this
      ensures status == if |key| > lay.keySize then KeyTooLong
                        else Outcome(DeletionFate(old(tree), Entry(Pad(key), recno), lay))
      ensures status != Ok ==> !found
      ensures status == KeyTooLong || status == Corrupt ==> root == old(root) && Now() == old(Now())
      ensures status == KeyTooLong || status == Corrupt ==>
        Valid() && Contents() == old(Contents()) && tree == old(tree)
      ensures status == Ok ==> Valid() && (found <==> Entry(Pad(key), recno) in old(Contents()))
      ensures status == Ok ==> Contents() == Removed(old(Contents()), Entry(Pad(key), recno))
      ensures status == Ok && !found ==> root == old(root) && tree == Deleted(old(tree), Entry(Pad(key), recno), lay)
      ensures status == Ok && !found ==> (tree.IsLeaf() <==> old(tree.IsLeaf()))
      ensures status == Ok && !found ==>
        (pages == old(pages) <==> old(Quiet(tree, Entry(Pad(key), recno), lay)))
      ensures status == Ok && !found && pages == old(pages) ==> Now() == old(Now()) && tree == old(tree)
      ensures lay.maxItem >= 3 && |key| <= lay.keySize ==>
        status == if Stranded(old(tree), Entry(Pad(key), recno), lay) then Panic else Ok
      ensures lay.maxItem >= 3 && old(Tight()) && |key| <= lay.keySize ==> status == Ok
      ensures lay.maxItem >= 3 && found ==> Tight()
      ensures fileSize == old(fileSize)
      ensures if status == Ok && found then Synced() else header == old(header)
    {
      hide Flat, Foot, Accounts, FreeChain, Removed;
      if |key| > lay.keySize {
        return false, KeyTooLong;
      }
      var rootNode;
      found, status, rootNode := RemoveEntry(Entry(Pad(key), recno));
      if status == Ok && found && !rootNode.leaf && |rootNode.items| == 0 {
        CollapseRoot(rootNode);
      }
      if status == Ok && found {
        WriteHeader();
      }
    }

    /** The deletion proper, before the root is looked at. */
    method RemoveEntry(e: Entry) returns (found: bool, status: Status, rootNode: Node)
      requires Valid()
      modifies this`pages, this`nextFree, this`free, this`tree
      ensures status == Outcome(DeletionFate(old(tree), e, lay)) && (status != Ok ==> !found)
      ensures status == Corrupt ==> Now() == old(Now()) && tree == old(tree)
      ensures lay.maxItem >= 3 ==> status == if Stranded(old(tree), e, lay) then Panic else Ok
      ensures status == Ok ==> Valid() && rootNode.Matches(tree) && (tree.IsLeaf() <==> old(tree.IsLeaf()))
      ensures status == Ok ==> (found <==> e in old(Contents())) && Contents() == Removed(old(Contents()), e)
      ensures status == Ok ==> tree == Deleted(old(tree), e, lay)
      ensures status == Ok && !found ==> (pages == old(pages) <==> old(Quiet(tree, e, lay)))
      ensures status == Ok && !found && pages == old(pages) ==> Now() == old(Now()) && tree == old(tree)
    {
      hide Sorted, Flat, Foot, FreeChain, DeletionFate, Deleted, Quiet, Missed, Shape, Stores, Removed, Agree,
           DistinctKeys, Holds;
      if lay.maxItem >= 3 {
        FailsIfStranded(tree, e, height, lay);
      }
      rootNode := ReadNode(root, tree);
      assert Foot(tree) + multiset{} == Foot(tree);
      var under;
      ghost var q;
      found, under, status, q := DeleteRec(rootNode, e, tree, height, multiset{});
      if status != Ok {
        return false, status, rootNode;
      }
      assert Foot(q) + multiset{} == Foot(q);
      ContentsAfter(Flat(tree), e, unique);
      if !found {
        MissedPages(tree, q, e, lay, old(Now()), Now(), Foot(q), fileSize);
      }
      tree := q;
    }

    /** A branch root left with no keys has a single child, which becomes the new root. */
    method CollapseRoot(rootNode: Node)
      requires Valid() && rootNode.Matches(tree) && !tree.IsLeaf() && tree.items == []
      modifies this`root, this`tree, this`height, this`pages, this`nextFree, this`free
      ensures Valid() && Contents() == old(Contents())
      ensures tree.IsLeaf() || |tree.items| >= lay.MinFill()
    {
      CollapseFacts(tree, height, lay);
      assert tree.kids[0] in tree.kids;
      ghost var before := pages;
      root := rootNode.right;
      tree, height := tree.kids[0], height - 1;
      FreePage(rootNode.offset, Foot(tree));
      FreedApart(before, pages, tree, rootNode.offset, free, fileSize);
    }

    /** The outcome of a removal below n: the remaining tree, in memory and stored. */
    ghost predicate Shrunk(n: Node, t: Tree, q: Tree, h: nat, rest: multiset<nat>, before: Pages)
      requires lay.maxItem >= 2
      reads this, n
    {
      && q.off == t.off && Shape(q, h, lay) && |q.items| + 1 >= |t.items|
      && n.Matches(q) && Stores(pages, q) && Space(Foot(q) + rest) && Agree(before, pages, rest)
    }

    method DropLastItem(n: Node, ghost t: Tree, ghost rest: multiset<nat>) returns (pred: Entry, ghost q: Tree)
      requires lay.maxItem >= 2 && Shape(t, 0, lay) && t.items != []
      requires n.Matches(t) && Space(Foot(t) + rest)
      modifies this`pages, n
      ensures Flat(t) == Flat(q) + [pred] && |pred.key| == lay.keySize
      ensures Shrunk(n, t, q, 0, rest, old(pages)) && q == t.(items := t.items[..|t.items| - 1])
    {
      var last := |n.items| - 1;
      pred := n.items[last].entry;
      assert t.items[last] in t.items;
      n.items := n.items[..last];
      q := t.(items := t.items[..last]);
      LeafAlone(t, q, rest, free, fileSize);
      WriteNode(n, q, Foot(q) + rest);
    }

    /** q holds what p holds, and has no lacking child. */
    ghost predicate Same(p: Tree, q: Tree, h: nat)
      requires lay.maxItem >= 2
    {
      q.off == p.off && Shape(q, h, lay) && Flat(q) == Flat(p)
    }

    /** The rearranged node q is in memory and written, with everything below it; the rest is as before. */
    ghost predicate Refilled(before: Pages, parent: Node, q: Tree, p: Tree, rest: multiset<nat>)
      reads this, parent
    {
      && parent.Matches(q)
      && Stores(pages, q) && Space(Foot(q) + rest)
      && Agree(before, pages, rest) && OnlyChanged(before, pages, Tops(p))
    }
  }

  /** In memory, the largest entry of the left sibling goes up and the separator comes down. */
  method ShiftRight(parent: Node, i: nat, left: Node, child: Node, ghost p: Tree)
    requires p.Wide() && 0 < i <= |p.items| && Alike(p.kids[i - 1], p.kids[i]) && p.kids[i - 1].items != []
    requires parent.Matches(p) && left.Matches(p.kids[i - 1]) && child.Matches(p.kids[i])
    requires parent != left && parent != child && left != child
    modifies parent, left, child
    ensures var q := NtxMoves.RotateRight(p, i);
      parent.Matches(q) && left.Matches(q.kids[i - 1]) && child.Matches(q.kids[i])
    ensures |child.items| == |old(child.items)| + 1
  {
    ghost var l, c := p.kids[i - 1], p.kids[i];
    var sep := parent.items[i - 1];
    var last := left.items[|left.items| - 1];
    PrependImage(child.items, child.right, c, left.items, left.right, l, sep.entry);
    LowerImage(left.items, left.right, l, |left.items| - 1);
    PairToPairImage(parent.items, parent.right, p, i - 1, DropLast(l), last.entry, Prepend(LastKid(l), sep.entry, c));
    child.items := [Item(left.right, sep.entry)] + child.items;
    left.items := left.items[..|left.items| - 1];
    left.right := last.child;
    parent.items := parent.items[i - 1 := sep.(entry := last.entry)];
  }

  method ShiftLeft(parent: Node, i: nat, child: Node, right: Node, ghost p: Tree)
    requires p.Wide() && i < |p.items| && Alike(p.kids[i], p.kids[i + 1]) && p.kids[i + 1].items != []
    requires parent.Matches(p) && child.Matches(p.kids[i]) && right.Matches(p.kids[i + 1])
    requires parent != child && parent != right && child != right
    modifies parent, child, right
    ensures var q := NtxMoves.RotateLeft(p, i);
      parent.Matches(q) && child.Matches(q.kids[i]) && right.Matches(q.kids[i + 1])
    ensures |child.items| == |old(child.items)| + 1
  {
    ghost var c, r := p.kids[i], p.kids[i + 1];
    var sep := parent.items[i];
    var first := right.items[0];
    AppendImage(child.items, child.right, c, right.items, right.right, r, sep.entry);
    UpperImage(right.items, right.right, r, 0, r.off);
    PairToPairImage(parent.items, parent.right, p, i, Append(c, sep.entry, FirstKid(r)), first.entry, DropFirst(r));
    child.items := child.items + [Item(child.right, sep.entry)];
    right.items := right.items[1..];
    child.right := first.child;
    parent.items := parent.items[i := sep.(entry := first.entry)];
  }

  method Absorb(parent: Node, j: nat, left: Node, right: Node, ghost p: Tree)
    requires p.Wide() && j < |p.items| && Alike(p.kids[j], p.kids[j + 1])
    requires parent.Matches(p) && left.Matches(p.kids[j]) && right.Matches(p.kids[j + 1])
    requires parent != left && parent != right && left != right
    modifies parent, left
    ensures parent.Matches(MergeKids(p, j)) && left.Matches(Merged(p.kids[j], p.items[j], p.kids[j + 1]))
  {
    ghost var l, r := p.kids[j], p.kids[j + 1];
    var sep := parent.items[j];
    MergedImage(left.items, left.right, l, right.items, right.right, r, sep.entry);
    left.items := left.items + [Item(left.right, sep.entry)] + right.items;
    left.right := right.right;
    ghost var items, right0 := parent.items, parent.right;
    parent.items := Without(parent.items, j);
    parent.SetChildAt(j, left.offset);
    MergeParentImage(items, right0, parent.items, parent.right, p, j, Merged(l, sep.entry, r));
  }

  /** The in-memory half of a split: the upper half moves to a new node, the median to the parent. */
  method MoveUpperHalf(parent: Node, i: nat, child: Node, off: nat, ghost p: Tree) returns (rightNode: Node)
    requires p.Wide() && i <= |p.items| && p.kids[i].items != [] && LeafOrWide(p.kids[i])
    requires parent != child && parent.Matches(p) && child.Matches(p.kids[i]) && off != 0
    modifies parent, child
    ensures fresh(rightNode)
    ensures var m := |p.kids[i].items| / 2;
      && child.Matches(Lower(p.kids[i], m))
      && rightNode.Matches(Upper(p.kids[i], m, off))
    ensures parent.Matches(SplitKid(p, i, off))
  {
    ghost var c := p.kids[i];
    var m := |child.items| / 2;
    var median := child.items[m];
    LowerImage(child.items, child.right, c, m);
    UpperImage(child.items, child.right, c, m, off);
    rightNode := new Node(off, child.leaf, child.items[m + 1..], child.right);
    child.items := child.items[..m];
    child.right := median.child;

    ghost var items, right := parent.items, parent.right;
    parent.items := With(parent.items, i, Item(child.offset, median.entry));
    parent.SetChildAt(i + 1, off);
    SplitParentImage(items, right, parent.items, parent.right, p, i, Lower(c, m), c.items[m], Upper(c, m, off));
  }
}
