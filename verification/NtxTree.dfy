/** The NTX B-tree as a value: what a set of linked pages means.

    A tree node carries the file offset of its page, its entries, and its children (none in a
    leaf, one more than the entries in a branch). The page map of NtxIndex stores such a tree;
    this module holds the meaning (Flat), the footprint (Foot), the shape, and the five ways
    the index rearranges neighbouring children. */
module NtxTree {
  import opened Entries

  /** Key size and page capacity; minFill is the fill a split leaves behind at worst. */
  datatype Layout = Layout(keySize: nat, maxItem: nat) {
    function Half(): nat { maxItem / 2 }
    function MinFill(): nat requires maxItem >= 2 { (maxItem - 1) / 2 }
  }

  datatype Tree = Tree(off: nat, items: seq<Entry>, kids: seq<Tree>) {
    predicate Wide() { |kids| == |items| + 1 }
    predicate IsLeaf() { kids == [] }
  }

  // ---------------------------------------------------------------- meaning

  /** The entries of a subtree in order. */
  ghost function Flat(t: Tree): seq<Entry>
    decreases t
  {
    Weave(t.items, t.kids)
  }

  ghost function Weave(items: seq<Entry>, kids: seq<Tree>): seq<Entry>
    decreases kids
  {
    if kids == [] then items
    else if items == [] then Flat(kids[0])
    else Flat(kids[0]) + [items[0]] + Weave(items[1..], kids[1..])
  }

  /** Children each followed by the entry on their right. */
  ghost function Lead(items: seq<Entry>, kids: seq<Tree>): seq<Entry>
    requires |items| == |kids|
  {
    if items == [] then [] else Flat(kids[0]) + [items[0]] + Lead(items[1..], kids[1..])
  }

  /** Entries each followed by the child on their right. */
  ghost function Trail(items: seq<Entry>, kids: seq<Tree>): seq<Entry>
    requires |items| == |kids|
  {
    if items == [] then [] else [items[0]] + Flat(kids[0]) + Trail(items[1..], kids[1..])
  }

  lemma {:induction false} WeaveTrail(items: seq<Entry>, kids: seq<Tree>)
    requires |kids| == |items| + 1
    ensures Weave(items, kids) == Flat(kids[0]) + Trail(items, kids[1..])
  {
    if items != [] {
      WeaveTrail(items[1..], kids[1..]);
      assert kids[1..][0] == kids[1];
    }
  }

  lemma {:induction false} WeaveLead(i1: seq<Entry>, k1: seq<Tree>, i2: seq<Entry>, k2: seq<Tree>)
    requires |i1| == |k1| && |k2| == |i2| + 1
    ensures Weave(i1 + i2, k1 + k2) == Lead(i1, k1) + Weave(i2, k2)
  {
    if i1 == [] {
      assert i1 + i2 == i2 && k1 + k2 == k2;
    } else {
      assert (i1 + i2)[1..] == i1[1..] + i2 && (k1 + k2)[1..] == k1[1..] + k2;
      WeaveLead(i1[1..], k1[1..], i2, k2);
    }
  }

  /** Two runs of a node's content meet at an entry; leaves have no children on either side. */
  lemma {:induction false} WeaveJoin(i1: seq<Entry>, k1: seq<Tree>, e: Entry, i2: seq<Entry>, k2: seq<Tree>)
    requires (k1 == [] && k2 == []) || (|k1| == |i1| + 1 && |k2| == |i2| + 1)
    ensures Weave(i1 + [e] + i2, k1 + k2) == Weave(i1, k1) + [e] + Weave(i2, k2)
  {
    if k1 == [] {
      assert k1 + k2 == [];
    } else if i1 == [] {
      assert (i1 + [e] + i2)[1..] == i2 && (k1 + k2)[1..] == k2;
    } else {
      assert (i1 + [e] + i2)[1..] == i1[1..] + [e] + i2 && (k1 + k2)[1..] == k1[1..] + k2;
      WeaveJoin(i1[1..], k1[1..], e, i2, k2);
    }
  }

  /** What lies left and right of child i. */
  ghost function Left(p: Tree, i: nat): seq<Entry>
    requires p.Wide() && i <= |p.items|
  {
    Lead(p.items[..i], p.kids[..i])
  }

  ghost function Right(p: Tree, i: nat): seq<Entry>
    requires p.Wide() && i <= |p.items|
  {
    Trail(p.items[i..], p.kids[i + 1..])
  }

  lemma {:induction false} LeadEndsWith(items: seq<Entry>, kids: seq<Tree>)
    requires |items| == |kids|
    ensures items == [] ==> Lead(items, kids) == []
    ensures items != [] ==> Lead(items, kids) != [] && Lead(items, kids)[|Lead(items, kids)| - 1] == items[|items| - 1]
  {
    if items != [] {
      LeadEndsWith(items[1..], kids[1..]);
    }
  }

  lemma FlatAt(p: Tree, i: nat)
    requires p.Wide() && i <= |p.items|
    ensures Flat(p) == Left(p, i) + Flat(p.kids[i]) + Right(p, i)
    ensures Left(p, i) == [] <==> i == 0
    ensures i > 0 ==> Left(p, i)[|Left(p, i)| - 1] == p.items[i - 1]
    ensures Right(p, i) == [] <==> i == |p.items|
    ensures i < |p.items| ==> Right(p, i)[0] == p.items[i]
  {
    assert p.items == p.items[..i] + p.items[i..] && p.kids == p.kids[..i] + p.kids[i..];
    WeaveLead(p.items[..i], p.kids[..i], p.items[i..], p.kids[i..]);
    WeaveTrail(p.items[i..], p.kids[i..]);
    assert p.kids[i..][1..] == p.kids[i + 1..];
    LeadEndsWith(p.items[..i], p.kids[..i]);
  }

  lemma FlatAtPair(p: Tree, j: nat)
    requires p.Wide() && j < |p.items|
    ensures Flat(p) == Left(p, j) + (Flat(p.kids[j]) + [p.items[j]] + Flat(p.kids[j + 1])) + Right(p, j + 1)
  {
    FlatAt(p, j);
    assert p.items[j..][1..] == p.items[j + 1..] && p.kids[j + 1..][1..] == p.kids[j + 2..];
    assert Right(p, j) == [p.items[j]] + Flat(p.kids[j + 1]) + Right(p, j + 1);
  }

  // ---------------------------------------------------------------- footprint

  /** The pages of a subtree, with multiplicity: sharing would show as a count above one. */
  ghost function Foot(t: Tree): multiset<nat>
    decreases t
  {
    multiset{t.off} + Feet(t.kids)
  }

  ghost function Feet(kids: seq<Tree>): multiset<nat>
    decreases kids
  {
    if kids == [] then multiset{} else Foot(kids[0]) + Feet(kids[1..])
  }

  lemma {:induction false} FeetJoin(a: seq<Tree>, b: seq<Tree>)
    ensures Feet(a + b) == Feet(a) + Feet(b)
  {
    if a == [] {
      assert a + b == b;
    } else {
      assert (a + b)[1..] == a[1..] + b;
      FeetJoin(a[1..], b);
    }
  }

  lemma FeetAt(kids: seq<Tree>, i: nat)
    requires i < |kids|
    ensures Feet(kids) == Feet(kids[..i]) + Foot(kids[i]) + Feet(kids[i + 1..])
  {
    assert kids == kids[..i] + kids[i..];
    FeetJoin(kids[..i], kids[i..]);
    assert kids[i..][1..] == kids[i + 1..];
  }

  lemma FeetContain(kids: seq<Tree>, k: Tree)
    requires k in kids
    ensures Foot(k) <= Feet(kids)
  {
    var i :| 0 <= i < |kids| && kids[i] == k;
    FeetAt(kids, i);
  }

  // ---------------------------------------------------------------- shape

  ghost predicate NodeOk(t: Tree, lay: Layout) {
    |t.items| <= lay.maxItem && forall e :: e in t.items ==> |e.key| == lay.keySize
  }

  /** Uniform depth h, no page over capacity, every page below the top at least minimally filled. */
  ghost predicate Shape(t: Tree, h: nat, lay: Layout)
    requires lay.maxItem >= 2
    decreases h, 0
  {
    NodeOk(t, lay) &&
    if h == 0 then t.IsLeaf()
    else t.Wide() && forall k :: k in t.kids ==> KidOk(k, h - 1, lay)
  }

  ghost predicate KidOk(k: Tree, h: nat, lay: Layout)
    requires lay.maxItem >= 2
    decreases h, 1
  {
    Shape(k, h, lay) && |k.items| >= lay.MinFill()
  }

  // ---------------------------------------------------------------- rearrangements

  function WithKid(p: Tree, i: nat, k: Tree): Tree
    requires p.Wide() && i <= |p.items|
  {
    p.(kids := p.kids[i := k])
  }

  lemma WithKidFacts(p: Tree, i: nat, k: Tree)
    requires p.Wide() && i <= |p.items|
    ensures var q := WithKid(p, i, k);
      q.Wide() && Left(q, i) == Left(p, i) && Right(q, i) == Right(p, i)
    ensures Flat(WithKid(p, i, k)) == Left(p, i) + Flat(k) + Right(p, i)
    ensures Foot(p) == multiset{p.off} + Feet(p.kids[..i]) + Foot(p.kids[i]) + Feet(p.kids[i + 1..])
    ensures Foot(WithKid(p, i, k)) == multiset{p.off} + Feet(p.kids[..i]) + Foot(k) + Feet(p.kids[i + 1..])
  {
    hide Lead, Trail, Weave, Feet, Flat;
    var q := WithKid(p, i, k);
    assert q.kids[..i] == p.kids[..i] && q.kids[i + 1..] == p.kids[i + 1..];
    assert Flat(q) == Left(q, i) + Flat(k) + Right(q, i) by { FlatAt(q, i); }
    FeetAt(p.kids, i);
    FeetAt(q.kids, i);
  }

  /** Child i becomes two children around a new entry. */
  function OneToPair(p: Tree, i: nat, a: Tree, s: Entry, b: Tree): Tree
    requires p.Wide() && i <= |p.items|
  {
    p.(items := With(p.items, i, s), kids := p.kids[..i] + [a, b] + p.kids[i + 1..])
  }

  lemma FeetAtPair(kids: seq<Tree>, j: nat)
    requires j + 1 < |kids|
    ensures Feet(kids) == Feet(kids[..j]) + (Foot(kids[j]) + Foot(kids[j + 1])) + Feet(kids[j + 2..])
  {
    FeetAt(kids, j);
    FeetAt(kids[j + 1..], 0);
    assert kids[j + 1..][1..] == kids[j + 2..];
  }

  lemma OneToPairSlices(p: Tree, i: nat, a: Tree, s: Entry, b: Tree)
    requires p.Wide() && i <= |p.items|
    ensures var q := OneToPair(p, i, a, s, b);
      q.Wide() && q.items[..i] == p.items[..i] && q.items[i] == s && q.items[i + 1..] == p.items[i..]
      && q.kids[..i] == p.kids[..i] && q.kids[i] == a && q.kids[i + 1] == b && q.kids[i + 2..] == p.kids[i + 1..]
  {
  }

  lemma OneToPairFacts(p: Tree, i: nat, a: Tree, s: Entry, b: Tree)
    requires p.Wide() && i <= |p.items|
    ensures OneToPair(p, i, a, s, b).Wide()
    ensures Flat(OneToPair(p, i, a, s, b)) == Left(p, i) + (Flat(a) + [s] + Flat(b)) + Right(p, i)
    ensures Foot(p) == multiset{p.off} + Feet(p.kids[..i]) + Foot(p.kids[i]) + Feet(p.kids[i + 1..])
    ensures Foot(OneToPair(p, i, a, s, b))
      == multiset{p.off} + Feet(p.kids[..i]) + (Foot(a) + Foot(b)) + Feet(p.kids[i + 1..])
  {
    OneToPairSlices(p, i, a, s, b);
    FlatAtPair(OneToPair(p, i, a, s, b), i);
    FeetAt(p.kids, i);
    FeetAtPair(OneToPair(p, i, a, s, b).kids, i);
  }

  /** Children j and j+1 and the entry between them are replaced. */
  function PairToPair(p: Tree, j: nat, a: Tree, s: Entry, b: Tree): Tree
    requires p.Wide() && j < |p.items|
  {
    p.(items := p.items[j := s], kids := p.kids[j := a][j + 1 := b])
  }

  lemma PairToPairFacts(p: Tree, j: nat, a: Tree, s: Entry, b: Tree)
    requires p.Wide() && j < |p.items|
    requires Flat(a) + [s] + Flat(b) == Flat(p.kids[j]) + [p.items[j]] + Flat(p.kids[j + 1])
    requires Foot(a) + Foot(b) == Foot(p.kids[j]) + Foot(p.kids[j + 1])
    ensures PairToPair(p, j, a, s, b).Wide()
    ensures Flat(PairToPair(p, j, a, s, b)) == Flat(p)
    ensures Foot(PairToPair(p, j, a, s, b)) == Foot(p)
  {
    var q := PairToPair(p, j, a, s, b);
    FlatAtPair(p, j);
    FlatAtPair(q, j);
    assert q.kids[..j] == p.kids[..j] && q.items[..j] == p.items[..j];
    assert q.kids[j + 2..] == p.kids[j + 2..] && q.items[j + 1..] == p.items[j + 1..];
    FeetAtPair(p.kids, j);
    FeetAtPair(q.kids, j);
  }

  /** Children j and j+1 and the entry between them become one child. */
  function PairToOne(p: Tree, j: nat, m: Tree): Tree
    requires p.Wide() && j < |p.items|
  {
    p.(items := Without(p.items, j), kids := p.kids[..j] + [m] + p.kids[j + 2..])
  }

  lemma PairToOneFacts(p: Tree, j: nat, m: Tree, gone: multiset<nat>)
    requires p.Wide() && j < |p.items|
    requires Flat(m) == Flat(p.kids[j]) + [p.items[j]] + Flat(p.kids[j + 1])
    requires Foot(m) + gone == Foot(p.kids[j]) + Foot(p.kids[j + 1])
    ensures PairToOne(p, j, m).Wide()
    ensures Flat(PairToOne(p, j, m)) == Flat(p)
    ensures Foot(PairToOne(p, j, m)) + gone == Foot(p)
  {
    var q := PairToOne(p, j, m);
    FlatAtPair(p, j);
    FlatAt(q, j);
    assert q.kids[..j] == p.kids[..j] && q.items[..j] == p.items[..j];
    assert q.kids[j + 1..] == p.kids[j + 2..] && q.items[j..] == p.items[j + 1..];
    FeetAtPair(p.kids, j);
    FeetAt(q.kids, j);
  }
}
