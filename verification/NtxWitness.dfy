/** Files on which the code does not do what one would expect of it, each given as its tree, and what
    happens when they are opened and used.

    Pages are numbered as the offsets divided by the page size; the key is the same throughout, so
    that entries are named by their record numbers. */
module NtxWitness {
  import opened Entries
  import opened NtxTree
  import opened NtxSteps
  import opened NtxStore
  import opened NtxMiss
  import opened NtxFate
  import opened NtxIndex
  import NtxQuery

  // ---------------------------------------------------------------- entries by record number

  function Row(keySize: nat, r: nat): Entry { Entry(seq(keySize, _ => 0), r) }

  function Rows(keySize: nat, rs: seq<nat>): (s: seq<Entry>)
    ensures |s| == |rs| && forall i :: 0 <= i < |s| ==> s[i] == Row(keySize, rs[i])
  {
    seq(|rs|, i requires 0 <= i < |rs| => Row(keySize, rs[i]))
  }

  lemma RowOrder(keySize: nat, a: nat, b: nat)
    ensures Less(Row(keySize, a), Row(keySize, b)) <==> a < b
  {
  }

  lemma RowsSorted(keySize: nat, rs: seq<nat>)
    requires forall i, j :: 0 <= i < j < |rs| ==> rs[i] <= rs[j]
    ensures Sorted(Rows(keySize, rs))
  {
    forall i, j | 0 <= i < j < |rs| ensures !Less(Rows(keySize, rs)[j], Rows(keySize, rs)[i]) {
      RowOrder(keySize, rs[j], rs[i]);
    }
  }

  /** Where a record number is looked for. */
  lemma RowPlace(keySize: nat, rs: seq<nat>, r: nat, p: nat)
    requires p <= |rs| && (forall i :: 0 <= i < p ==> rs[i] < r) && (forall i :: p <= i < |rs| ==> rs[i] >= r)
    ensures LowerBound(Rows(keySize, rs), Row(keySize, r)) == p
  {
    var s, e := Rows(keySize, rs), Row(keySize, r);
    forall i | 0 <= i < |s| ensures Less(s[i], e) <==> i < p {
      RowOrder(keySize, rs[i], r);
    }
    CutIsLowerBound(s, e, p);
  }

  lemma RowAbsent(keySize: nat, rs: seq<nat>, r: nat)
    requires r !in rs
    ensures Row(keySize, r) !in Rows(keySize, rs)
  {
    forall i | 0 <= i < |rs| ensures Rows(keySize, rs)[i] != Row(keySize, r) {
      assert rs[i] in rs;
    }
  }

  // ---------------------------------------------------------------- trees and the files that hold them

  function PageOf(keySize: nat, k: nat, rs: seq<nat>, kids: seq<Tree>): Tree {
    Tree(k * PAGE_SIZE, Rows(keySize, rs), kids)
  }

  lemma WeaveOne(a: Tree)
    ensures Weave([], [a]) == Flat(a) && Feet([a]) == Foot(a)
  {
    assert Feet([a][1..]) == multiset{};
  }

  lemma WeaveTwo(s: Entry, a: Tree, b: Tree)
    ensures Weave([s], [a, b]) == Flat(a) + [s] + Flat(b) && Feet([a, b]) == Foot(a) + Foot(b)
  {
    assert [s][1..] == [] && [a, b][1..] == [b];
    WeaveOne(b);
  }

  lemma WeaveThree(s: Entry, u: Entry, a: Tree, b: Tree, c: Tree)
    ensures Weave([s, u], [a, b, c]) == Flat(a) + [s] + (Flat(b) + [u] + Flat(c))
    ensures Feet([a, b, c]) == Foot(a) + (Foot(b) + Foot(c))
  {
    assert [s, u][1..] == [u] && [a, b, c][1..] == [b, c];
    WeaveTwo(u, b, c);
  }

  function ImageOf(t: Tree): Page
    requires LeafOrWide(t)
  {
    NodePage(seq(|t.items|, i requires 0 <= i < |t.items| => Item(if t.IsLeaf() then 0 else t.kids[i].off, t.items[i])),
             if t.IsLeaf() then 0 else t.kids[|t.items|].off)
  }

  ghost predicate Sized(t: Tree)
    decreases t
  {
    t.off > 0 && LeafOrWide(t) && forall k :: k in t.kids ==> Sized(k)
  }

  function File(t: Tree): Pages
    requires Sized(t)
    decreases t
  {
    Files(t.kids)[t.off := ImageOf(t)]
  }

  function Files(kids: seq<Tree>): Pages
    requires forall k :: k in kids ==> Sized(k)
    decreases kids
  {
    if kids == [] then map[] else Files(kids[1..]) + File(kids[0])
  }

  ghost predicate NoneTwice(b: multiset<nat>) {
    forall o :: b[o] <= 1
  }

  lemma {:induction false} FileStores(t: Tree)
    requires Sized(t) && NoneTwice(Foot(t))
    ensures Stores(File(t), t) && forall o :: o in File(t) <==> o in Foot(t)
    decreases t
  {
    hide ImageOf, Image;
    assert forall o :: Feet(t.kids)[o] <= Foot(t)[o];
    FilesStore(t.kids);
    assert t.off !in Feet(t.kids);
    StoresAllFrame(Files(t.kids), File(t), t.kids);
    ImageStands(t);
  }

  lemma ImageStands(t: Tree)
    requires Sized(t)
    ensures ImageOf(t).NodePage? && Image(ImageOf(t).items, ImageOf(t).right, t)
  {
    forall j | 0 <= j < |t.kids| ensures t.kids[j].off != 0 {
      assert t.kids[j] in t.kids;
    }
  }

  lemma {:induction false} FilesStore(kids: seq<Tree>)
    requires (forall k :: k in kids ==> Sized(k)) && NoneTwice(Feet(kids))
    ensures forall k :: k in kids ==> Stores(Files(kids), k)
    ensures forall o :: o in Files(kids) <==> o in Feet(kids)
    decreases kids
  {
    if kids != [] {
      hide Stores, File, Foot, Sized;
      var a, rest := kids[0], kids[1..];
      assert a in kids && forall k :: k in rest ==> k in kids;
      FeetApart(kids);
      FileStores(a);
      FilesStore(rest);
      assert Files(kids) == Files(rest) + File(a);
      StoresFrame(File(a), Files(kids), a);
      StoresAllFrame(Files(rest), Files(kids), rest);
      assert kids == [a] + rest;
    }
  }

  lemma FeetApart(kids: seq<Tree>)
    requires kids != [] && NoneTwice(Feet(kids))
    ensures NoneTwice(Foot(kids[0])) && NoneTwice(Feet(kids[1..])) && forall o ::
      !(o in Foot(kids[0]) && o in Feet(kids[1..]))
    ensures Feet(kids) == Foot(kids[0]) + Feet(kids[1..])
  {
    hide Foot;
    assert forall o :: Feet(kids)[o] == Foot(kids[0])[o] + Feet(kids[1..])[o];
  }

  /** The first n pages behind the header. */
  ghost function Upto(n: nat): multiset<nat> {
    if n == 0 then multiset{} else Upto(n - 1) + multiset{n * PAGE_SIZE}
  }

  lemma {:induction false} UptoIsPages(n: nat)
    ensures multiset(PageSet((n + 1) * PAGE_SIZE)) == Upto(n) && NoneTwice(Upto(n))
  {
    if n > 0 {
      UptoIsPages(n - 1);
      PageSetGrows(n * PAGE_SIZE);
    } else {
      assert PageSet(PAGE_SIZE) == {};
    }
  }

  /** Opens the file that holds a given tree and has no free pages. */
  method OpenTree(lay: Layout, t: Tree, ghost h: nat, n: nat) returns (ix: Index)
    requires lay.maxItem >= 2 && Shape(t, h, lay) && Sized(t) && Foot(t) == Upto(n) && Sorted(Flat(t))
    ensures fresh(ix) && ix.Valid() && ix.Contents() == Flat(t) && ix.tree == t && ix.lay == lay && !ix.unique
    ensures ix.Synced() && (ix.Tight() <==> t.IsLeaf() || t.items != [])
  {
    hide Shape, Sized, Upto, Sorted, Flat, Foot, File;
    UptoIsPages(n);
    FileStores(t);
    assert Foot(t) + multiset([]) == Foot(t);
    ix := new Index.Open(lay, false, Header(t.off, 0), File(t), (n + 1) * PAGE_SIZE, t, h, []);
  }

  lemma RowsJoin(keySize: nat, a: seq<nat>, r: nat, b: seq<nat>)
    ensures Rows(keySize, a) + [Row(keySize, r)] + Rows(keySize, b) == Rows(keySize, a + [r] + b)
  {
  }

  lemma LeafFacts(lay: Layout, k: nat, rs: seq<nat>)
    requires lay.maxItem >= 2 && lay.MinFill() <= |rs| <= lay.maxItem && k > 0
    ensures var t := PageOf(lay.keySize, k, rs, []);
      KidOk(t, 0, lay) && Sized(t) && Flat(t) == Rows(lay.keySize, rs) && Foot(t) == multiset{k * PAGE_SIZE}
  {
  }

  /** A branch without entries over one child. */
  lemma OneFacts(lay: Layout, h: nat, k: nat, a: Tree)
    requires lay.maxItem >= 2 && lay.MinFill() == 0 && KidOk(a, h, lay) && Sized(a) && k > 0
    ensures var t := PageOf(lay.keySize, k, [], [a]);
      KidOk(t, h + 1, lay) && Sized(t) && Flat(t) == Flat(a) && Foot(t) == multiset{k * PAGE_SIZE} + Foot(a)
  {
    hide Sized;
    WeaveOne(a);
    BranchSized(k * PAGE_SIZE, [], [a]);
  }

  lemma TwoFacts(lay: Layout, h: nat, k: nat, s: nat, a: Tree, b: Tree)
    requires 2 <= lay.maxItem && lay.MinFill() <= 1 && KidOk(a, h, lay) && KidOk(b, h, lay) && Sized(a) && Sized(b)
    requires k > 0
    ensures var t := PageOf(lay.keySize, k, [s], [a, b]);
      && KidOk(t, h + 1, lay) && Sized(t) && Flat(t) == Flat(a) + [Row(lay.keySize, s)] + Flat(b)
      && Foot(t) == multiset{k * PAGE_SIZE} + (Foot(a) + Foot(b))
  {
    hide Sized;
    assert Rows(lay.keySize, [s]) == [Row(lay.keySize, s)];
    WeaveTwo(Row(lay.keySize, s), a, b);
    BranchSized(k * PAGE_SIZE, Rows(lay.keySize, [s]), [a, b]);
  }

  lemma ThreeFacts(lay: Layout, h: nat, k: nat, s: nat, u: nat, a: Tree, b: Tree, c: Tree)
    requires 2 <= lay.maxItem && lay.MinFill() <= 2 && k > 0
    requires KidOk(a, h, lay) && KidOk(b, h, lay) && KidOk(c, h, lay) && Sized(a) && Sized(b) && Sized(c)
    ensures var t := PageOf(lay.keySize, k, [s, u], [a, b, c]);
      && KidOk(t, h + 1, lay) && Sized(t)
      && Flat(t) == Flat(a) + [Row(lay.keySize, s)] + (Flat(b) + [Row(lay.keySize, u)] + Flat(c))
      && Foot(t) == multiset{k * PAGE_SIZE} + (Foot(a) + (Foot(b) + Foot(c)))
  {
    hide Sized;
    assert Rows(lay.keySize, [s, u]) == [Row(lay.keySize, s), Row(lay.keySize, u)];
    WeaveThree(Row(lay.keySize, s), Row(lay.keySize, u), a, b, c);
    BranchSized(k * PAGE_SIZE, Rows(lay.keySize, [s, u]), [a, b, c]);
  }

  lemma BranchSized(off: nat, items: seq<Entry>, kids: seq<Tree>)
    requires off > 0 && |kids| == |items| + 1 && forall j :: 0 <= j < |kids| ==> Sized(kids[j])
    ensures Sized(Tree(off, items, kids))
  {
  }

  // ---------------------------------------------------------------- even capacity

  /** Key size 180 gives page capacity 4. This is the tree twelve entries inserted in descending order make. */
  const EVEN := Layout(180, 4)

  function LeftTwig(): Tree {
    PageOf(180, 2, [5, 7], [PageOf(180, 1, [1, 2, 3, 4], []), PageOf(180, 6, [6], []), PageOf(180, 5, [8], [])])
  }

  function RightTwig(): Tree {
    PageOf(180, 8, [11], [PageOf(180, 4, [10], []), PageOf(180, 3, [12], [])])
  }

  function EvenTree(): Tree {
    PageOf(180, 7, [9], [LeftTwig(), RightTwig()])
  }

  lemma LeftTwigFacts()
    ensures KidOk(LeftTwig(), 1, EVEN) && Sized(LeftTwig())
    ensures Flat(LeftTwig()) == Rows(180, [1, 2, 3, 4, 5, 6, 7, 8])
    ensures Foot(LeftTwig()) == multiset{2 * PAGE_SIZE, 1 * PAGE_SIZE, 6 * PAGE_SIZE, 5 * PAGE_SIZE}
  {
    hide KidOk, Sized, Flat, Foot, PageOf, Rows;
    LeafFacts(EVEN, 1, [1, 2, 3, 4]);
    LeafFacts(EVEN, 6, [6]);
    LeafFacts(EVEN, 5, [8]);
    ThreeFacts(EVEN, 0, 2, 5, 7, PageOf(180, 1, [1, 2, 3, 4], []), PageOf(180, 6, [6], []), PageOf(180, 5, [8], []));
    RowsJoin(180, [6], 7, [8]);
    RowsJoin(180, [1, 2, 3, 4], 5, [6, 7, 8]);
  }

  lemma RightTwigFacts()
    ensures KidOk(RightTwig(), 1, EVEN) && Sized(RightTwig())
    ensures Flat(RightTwig()) == Rows(180, [10, 11, 12])
    ensures Foot(RightTwig()) == multiset{8 * PAGE_SIZE, 4 * PAGE_SIZE, 3 * PAGE_SIZE}
  {
    hide KidOk, Sized, Flat, Foot, PageOf, Rows;
    LeafFacts(EVEN, 4, [10]);
    LeafFacts(EVEN, 3, [12]);
    TwoFacts(EVEN, 0, 8, 11, PageOf(180, 4, [10], []), PageOf(180, 3, [12], []));
    RowsJoin(180, [10], 11, [12]);
  }

  lemma EvenTreeFacts()
    ensures KidOk(EvenTree(), 2, EVEN) && Sized(EvenTree()) && Foot(EvenTree()) == Upto(8)
    ensures Flat(EvenTree()) == Rows(180, [1, 2, 3, 4, 5, 6, 7, 8, 9, 10, 11, 12])
  {
    hide KidOk, Sized, Flat, Foot, Rows, LeftTwig, RightTwig, Shape, PageOf, Upto;
    LeftTwigFacts();
    RightTwigFacts();
    TwoFacts(EVEN, 1, 7, 9, LeftTwig(), RightTwig());
    RowsJoin(180, [1, 2, 3, 4, 5, 6, 7, 8], 9, [10, 11, 12]);
    EightPages();
  }

  lemma EightPages()
    ensures Upto(8) == multiset{1024, 2048, 3072, 4096, 5120, 6144, 7168, 8192}
  {
    hide PageSet;
  }

  /** What a deletion of record number 13 does to it. */
  lemma EvenIsNotQuiet()
    ensures !Quiet(EvenTree(), Row(180, 13), EVEN) && EvenTree().Wide() && EvenTree().items != []
    ensures DeletionFate(EvenTree(), Row(180, 13), EVEN) == Leaves(0, true)
    ensures Deleted(EvenTree(), Row(180, 13), EVEN).items == []
  {
    var e, t, r := Row(180, 13), EvenTree(), RightTwig();
    RowPlace(180, [9], 13, 1);
    RowPlace(180, [11], 13, 1);
    RowPlace(180, [12], 13, 1);
    assert PathKid(t, e) == r && PathKid(r, e) == PageOf(180, 3, [12], []);
    FateDown(r, e, 1, EVEN);
    FateDown(t, e, 1, EVEN);
    DeletedCount(t, e, EVEN);
  }

  /** Deleting an entry that is not there rebalances pages and leaves the root without entries. */
  method EvenMiss() returns (ix: Index, found: bool, status: Status, ghost before: Pages)
    ensures ix.Valid() && ix.lay == EVEN && ix.Contents() == Rows(180, [1, 2, 3, 4, 5, 6, 7, 8, 9, 10, 11, 12])
    ensures !found && status == Ok && ix.pages != before && !ix.Tight()
  {
    hide Index.Valid, Index.Contents, Shape, Sized, Flat, Foot, Quiet, Deleted, Sorted, Rows, EvenTree, DeletionFate;
    var all := [1, 2, 3, 4, 5, 6, 7, 8, 9, 10, 11, 12];
    EvenTreeFacts();
    EvenIsNotQuiet();
    RowsSorted(180, all);
    RowAbsent(180, all, 13);
    var e := Row(180, 13);
    HoldsIsMembership(Rows(180, all), e);
    ix := OpenTree(EVEN, EvenTree(), 2, 8);
    before := ix.pages;
    assert ix.Pad(e.key) == e.key;
    found, status := ix.Delete(e.key, 13);
  }

  // ---------------------------------------------------------------- room for two items

  /** A key size that leaves room for only two items a page. */
  predicate Narrow(keySize: nat) { 246 <= keySize <= MAX_KEY_SIZE }

  function Two(keySize: nat): (lay: Layout)
    requires Narrow(keySize)
    ensures lay == Layout(keySize, 2)
  {
    NtxQuery.PageHoldsTwo(keySize);
    Layout(keySize, ComputeMaxItem(keySize + 8))
  }

  /** The tree four entries inserted in descending order make: the splits left two empty leaves. */
  function FourTree(n: nat): Tree {
    PageOf(n, 2, [3, 4], [PageOf(n, 1, [1, 2], []), PageOf(n, 4, [], []), PageOf(n, 3, [], [])])
  }

  lemma FourTreeFacts(n: nat)
    requires Narrow(n)
    ensures KidOk(FourTree(n), 1, Two(n)) && Sized(FourTree(n)) && Foot(FourTree(n)) == Upto(4)
    ensures Flat(FourTree(n)) == Rows(n, [1, 2, 3, 4])
  {
    hide KidOk, Sized, Flat, Foot, Rows, PageOf, Upto;
    LeafFacts(Two(n), 1, [1, 2]);
    LeafFacts(Two(n), 4, []);
    LeafFacts(Two(n), 3, []);
    ThreeFacts(Two(n), 0, 2, 3, 4, PageOf(n, 1, [1, 2], []), PageOf(n, 4, [], []), PageOf(n, 3, [], []));
    RowsJoin(n, [], 4, []);
    RowsJoin(n, [1, 2], 3, [4]);
    FourPages();
  }

  lemma FourPages()
    ensures Upto(4) == multiset{1024, 2048, 3072, 4096}
  {
  }

  lemma FourTreeFate(n: nat)
    requires Narrow(n)
    ensures NtxQuery.LastLeaf(FourTree(n)).items == []
    ensures DeletionFate(FourTree(n), Row(n, 4), Two(n)) == EmptyLeaf
  {
    var t, e := FourTree(n), Row(n, 4);
    RowPlace(n, [3, 4], 4, 1);
    FateDown(t, e, 1, Two(n));
    assert MaxFate(t.kids[1], Two(n)) == EmptyLeaf;
    assert NtxQuery.LastLeaf(t) == NtxQuery.LastLeaf(t.kids[2]) == t.kids[2];
  }

  /** With any key size of more than 245 bytes: an index of four entries whose largest cannot be found
      from above, nor deleted. */
  method LargestLost(n: nat) returns (ix: Index, largest: Option<Entry>, found: bool, status: Status)
    requires Narrow(n)
    ensures ix.Valid() && ix.lay.keySize == n && ix.Contents() == Rows(n, [1, 2, 3, 4])
    ensures largest == None && !found && status == Corrupt
  {
    hide Index.Valid, Index.Contents, Shape, Sized, Flat, Foot, Sorted, Rows, FourTree, DeletionFate;
    FourTreeFacts(n);
    FourTreeFate(n);
    RowsSorted(n, [1, 2, 3, 4]);
    ix := OpenTree(Two(n), FourTree(n), 1, 4);
    largest := NtxQuery.Max(ix);
    var key := Row(n, 4).key;
    assert ix.Pad(key) == key;
    found, status := ix.Delete(key, 4);
  }

  /** The tree seven entries inserted in descending order make: on the right a branch without entries
      over another one. */
  function BareTwig(n: nat): Tree {
    PageOf(n, 11, [], [PageOf(n, 6, [], [PageOf(n, 3, [], [])])])
  }

  function FullTwig(n: nat): Tree {
    PageOf(n, 5, [5, 6],
           [PageOf(n, 2, [3, 4], [PageOf(n, 1, [1, 2], []), PageOf(n, 13, [], []), PageOf(n, 9, [], [])]),
            PageOf(n, 12, [], [PageOf(n, 7, [], [])]),
            PageOf(n, 8, [], [PageOf(n, 4, [], [])])])
  }

  function SevenTree(n: nat): Tree {
    PageOf(n, 10, [7], [FullTwig(n), BareTwig(n)])
  }

  lemma BareTwigFacts(n: nat)
    requires Narrow(n)
    ensures KidOk(BareTwig(n), 2, Two(n)) && Sized(BareTwig(n)) && Flat(BareTwig(n)) == Rows(n, [])
    ensures Foot(BareTwig(n)) == multiset{11 * PAGE_SIZE, 6 * PAGE_SIZE, 3 * PAGE_SIZE}
  {
    hide KidOk, Sized, Flat, Foot, Rows, PageOf;
    LeafFacts(Two(n), 3, []);
    OneFacts(Two(n), 0, 6, PageOf(n, 3, [], []));
    OneFacts(Two(n), 1, 11, PageOf(n, 6, [], [PageOf(n, 3, [], [])]));
  }

  /** A branch without entries over an empty leaf. */
  lemma HollowFacts(n: nat, k: nat, l: nat)
    requires Narrow(n) && k > 0 && l > 0
    ensures var t := PageOf(n, k, [], [PageOf(n, l, [], [])]);
      KidOk(t, 1, Two(n)) && Sized(t) && Flat(t) == Rows(n, []) && Foot(t) == multiset{k * PAGE_SIZE, l * PAGE_SIZE}
  {
    hide KidOk, Sized, Flat, Foot, Rows, PageOf;
    LeafFacts(Two(n), l, []);
    OneFacts(Two(n), 0, k, PageOf(n, l, [], []));
  }

  lemma FullTwigFacts(n: nat)
    requires Narrow(n)
    ensures KidOk(FullTwig(n), 2, Two(n)) && Sized(FullTwig(n)) && Flat(FullTwig(n)) == Rows(n, [1, 2, 3, 4, 5, 6])
    ensures Foot(FullTwig(n)) == multiset{5 * PAGE_SIZE, 2 * PAGE_SIZE, 1 * PAGE_SIZE, 13 * PAGE_SIZE, 9 * PAGE_SIZE,
                                          12 * PAGE_SIZE, 7 * PAGE_SIZE, 8 * PAGE_SIZE, 4 * PAGE_SIZE}
  {
    hide KidOk, Sized, Flat, Foot, Rows, PageOf;
    LeafFacts(Two(n), 1, [1, 2]);
    LeafFacts(Two(n), 13, []);
    LeafFacts(Two(n), 9, []);
    var a := PageOf(n, 2, [3, 4], [PageOf(n, 1, [1, 2], []), PageOf(n, 13, [], []), PageOf(n, 9, [], [])]);
    ThreeFacts(Two(n), 0, 2, 3, 4, PageOf(n, 1, [1, 2], []), PageOf(n, 13, [], []), PageOf(n, 9, [], []));
    RowsJoin(n, [], 4, []);
    RowsJoin(n, [1, 2], 3, [4]);
    HollowFacts(n, 12, 7);
    HollowFacts(n, 8, 4);
    ThreeFacts(Two(n), 1, 5, 5, 6, a, PageOf(n, 12, [], [PageOf(n, 7, [], [])]),
      PageOf(n, 8, [], [PageOf(n, 4, [], [])]));
    RowsJoin(n, [], 6, []);
    RowsJoin(n, [1, 2, 3, 4], 5, [6]);
  }

  lemma SevenTreeFacts(n: nat)
    requires Narrow(n)
    ensures KidOk(SevenTree(n), 3, Two(n)) && Sized(SevenTree(n)) && Foot(SevenTree(n)) == Upto(13)
    ensures Flat(SevenTree(n)) == Rows(n, [1, 2, 3, 4, 5, 6, 7])
  {
    hide KidOk, Sized, Flat, Foot, Rows, PageOf, Upto, FullTwig, BareTwig;
    FullTwigFacts(n);
    BareTwigFacts(n);
    TwoFacts(Two(n), 2, 10, 7, FullTwig(n), BareTwig(n));
    RowsJoin(n, [1, 2, 3, 4, 5, 6], 7, []);
    ThirteenPages();
  }

  lemma ThirteenPages()
    ensures Upto(13) == multiset{1024, 2048, 3072, 4096, 5120, 6144, 7168, 8192, 9216, 10240, 11264, 12288, 13312}
  {
    hide Upto;
    EightPages();
    assert Upto(13) == Upto(8)
      + (multiset{9216} + multiset{10240} + multiset{11264} + multiset{12288} + multiset{13312}) by {
      FiveMore(8);
    }
  }

  lemma FiveMore(n: nat)
    ensures Upto(n + 5) == Upto(n)
      + (multiset{(n + 1) * PAGE_SIZE} + multiset{(n + 2) * PAGE_SIZE} + multiset{(n + 3) * PAGE_SIZE}
                                      + multiset{(n + 4) * PAGE_SIZE} + multiset{(n + 5) * PAGE_SIZE})
  {
    assert Upto(n + 1) == Upto(n) + multiset{(n + 1) * PAGE_SIZE};
    assert Upto(n + 2) == Upto(n + 1) + multiset{(n + 2) * PAGE_SIZE};
    assert Upto(n + 3) == Upto(n + 2) + multiset{(n + 3) * PAGE_SIZE};
    assert Upto(n + 4) == Upto(n + 3) + multiset{(n + 4) * PAGE_SIZE};
  }

  lemma SevenTreeFate(n: nat)
    requires Narrow(n)
    ensures DeletionFate(SevenTree(n), Row(n, 8), Two(n)) == NoSibling
  {
    hide FullTwig;
    var t, e, b := SevenTree(n), Row(n, 8), BareTwig(n);
    RowPlace(n, [7], 8, 1);
    RowPlace(n, [], 8, 0);
    FateDown(t, e, 1, Two(n));
    FateDown(b, e, 0, Two(n));
    FateDown(b.kids[0], e, 0, Two(n));
    assert DeletionFate(b.kids[0].kids[0], e, Two(n)) == Leaves(0, false);
  }

  /** And an index of seven entries on which the deletion of an absent entry asks for the child left of
      the first. */
  method NoSiblingToAsk(n: nat) returns (ix: Index, found: bool, status: Status)
    requires Narrow(n)
    ensures ix.lay.keySize == n && !found && status == Panic
  {
    hide Index.Valid, Index.Contents, Shape, Sized, Flat, Foot, Sorted, Rows, SevenTree, DeletionFate, Deleted;
    SevenTreeFacts(n);
    SevenTreeFate(n);
    RowsSorted(n, [1, 2, 3, 4, 5, 6, 7]);
    ix := OpenTree(Two(n), SevenTree(n), 3, 13);
    var key := Row(n, 8).key;
    assert ix.Pad(key) == key;
    found, status := ix.Delete(key, 8);
  }
}
