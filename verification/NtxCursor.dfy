/** The explicit-stack cursor over an index. */
module NtxCursor {
  import opened Entries
  import opened NtxTree
  import opened NtxMoves
  import opened NtxStore
  import opened NtxSteps
  import opened NtxImages
  import opened NtxIndex

  /** One level of a descent: whether the child left of items[index] has been visited. */
  datatype Frame = Frame(offset: nat, index: nat, entered: bool)

  /** The subtree a frame stands in. */
  datatype Spot = Spot(tree: Tree, height: nat)

  ghost predicate FrameOk(f: Frame, s: Spot) {
    f.offset == s.tree.off && f.index <= |s.tree.items| && (s.height > 0 ==> s.tree.Wide())
  }

  /** What one frame has still to give. */
  ghost function FramePending(f: Frame, s: Spot): seq<Entry> {
    if !FrameOk(f, s) then []
    else if s.height == 0 then s.tree.items[f.index..]
    else if f.entered then Right(s.tree, f.index)
    else Flat(s.tree.kids[f.index]) + Right(s.tree, f.index)
  }

  /** Every frame stands in a subtree that the page map stores. */
  ghost predicate StackOk(pages: Pages, lay: Layout, stack: seq<Frame>, path: seq<Spot>) {
    |stack| == |path| &&
    (stack == [] ||
     var n := |stack| - 1;
     FrameOk(stack[n], path[n]) && Placed(pages, lay, path[n]) && StackOk(pages, lay, stack[..n], path[..n]))
  }

  ghost predicate Placed(pages: Pages, lay: Layout, s: Spot) {
    lay.maxItem >= 2 && Shape(s.tree, s.height, lay) && Stores(pages, s.tree)
  }

  lemma PlacedKid(pages: Pages, lay: Layout, s: Spot, i: nat)
    requires Placed(pages, lay, s) && s.height > 0 && i <= |s.tree.items|
    ensures s.tree.Wide() && Placed(pages, lay, Spot(s.tree.kids[i], s.height - 1))
  {
    KidsShape(s.tree, i, s.height, lay);
    assert s.tree.kids[i] in s.tree.kids;
  }

  /** What the whole stack has still to give, top frame first. */
  ghost function Pending(stack: seq<Frame>, path: seq<Spot>): seq<Entry>
    requires |stack| == |path|
  {
    if stack == [] then []
    else
      var n := |stack| - 1;
      FramePending(stack[n], path[n]) + Pending(stack[..n], path[..n])
  }

  /** Steps left before the next entry must come: frames to pop and children to push. */
  ghost function Work(stack: seq<Frame>, path: seq<Spot>): nat
    requires |stack| == |path|
  {
    if stack == [] then 0
    else
      var n := |stack| - 1;
      Cost(stack[n], path[n]) + Work(stack[..n], path[..n])
  }

  ghost function Cost(f: Frame, s: Spot): nat {
    if f.entered || s.height == 0 then 1 else 2 * s.height + 1
  }

  lemma PendingTop(pages: Pages, lay: Layout, stack: seq<Frame>, path: seq<Spot>, f: Frame, s: Spot)
    requires StackOk(pages, lay, stack, path) && FrameOk(f, s) && Placed(pages, lay, s)
    ensures StackOk(pages, lay, stack + [f], path + [s])
    ensures Pending(stack + [f], path + [s]) == FramePending(f, s) + Pending(stack, path)
    ensures Work(stack + [f], path + [s]) == Cost(f, s) + Work(stack, path)
  {
    var n := |stack|;
    assert (stack + [f])[..n] == stack && (path + [s])[..n] == path;
  }

  lemma HeadTail<T>(x: T, f: seq<T>, b: seq<T>)
    ensures ([x] + f + b)[0] == x && ([x] + f + b)[1..] == f + b
  {
  }

  lemma EmitStep(top: Frame, f: Frame, s: Spot)
    requires FrameOk(top, s) && top.index < |s.tree.items| && (s.height > 0 ==> top.entered)
    requires f == if s.height == 0 then top.(index := top.index + 1) else top.(index := top.index + 1, entered := false)
    ensures FrameOk(f, s) && FramePending(top, s) == [s.tree.items[top.index]] + FramePending(f, s)
  {
    if s.height > 0 {
      RightStep(s.tree, top.index);
    }
  }

  lemma Exhausted(top: Frame, s: Spot)
    requires FrameOk(top, s) && top.index == |s.tree.items| && (s.height > 0 ==> top.entered)
    ensures FramePending(top, s) == []
  {
  }

  /** A branch frame emits the entry right of the child just visited. */
  lemma RightStep(t: Tree, i: nat)
    requires t.Wide() && i < |t.items|
    ensures Right(t, i) == [t.items[i]] + (Flat(t.kids[i + 1]) + Right(t, i + 1))
  {
    assert t.items[i..][1..] == t.items[i + 1..] && t.kids[i + 1..][1..] == t.kids[i + 2..];
  }

  /** The entries from the first one at or above e on. */
  ghost function Suffix(s: seq<Entry>, e: Entry): seq<Entry> {
    s[LowerBound(s, e)..]
  }

  /** The entries at or above e are those of child i at or above e, and all that follow it. */
  lemma SuffixStep(t: Tree, i: nat, e: Entry)
    requires t.Wide() && i <= |t.items| && Sorted(Flat(t)) && Under(t, i, e)
    ensures Suffix(Flat(t), e) == Suffix(Flat(t.kids[i]), e) + Right(t, i)
  {
    AroundKid(t, i, e);
    CutInside(Left(t, i), Flat(t.kids[i]), Right(t, i), e);
    DropInside(Left(t, i), Flat(t.kids[i]), Right(t, i), LowerBound(Flat(t.kids[i]), e));
  }

  lemma SeekStep(t: Tree, h: nat, i: nat, e: Entry, lay: Layout)
    requires lay.maxItem >= 2 && Shape(t, h, lay) && Sorted(Flat(t)) && i <= |t.items| && IsCut(t.items, e, i)
    ensures var f := Frame(t.off, i, h > 0);
      && FrameOk(f, Spot(t, h))
      && Suffix(Flat(t), e) ==
         if h == 0 then FramePending(f, Spot(t, h)) else Suffix(Flat(t.kids[i]), e) + FramePending(f, Spot(t, h))
  {
    if h == 0 {
      CutIsLowerBound(t.items, e, i);
    } else {
      SuffixStep(t, i, e);
    }
  }

  lemma DropInside<T>(b: seq<T>, k: seq<T>, a: seq<T>, p: nat)
    requires p <= |k|
    ensures (b + k + a)[|b| + p..] == k[p..] + a
  {
  }

  /** The entries a seek leaves are exactly those with a key at or above the one sought. */
  lemma SuffixMeans(s: seq<Entry>, key: seq<byte>)
    requires Sorted(s)
    ensures forall x :: x in s && CompareKeys(x.key, key) >= 0 <==> x in Suffix(s, Entry(key, 0))
  {
    LowerBoundIsCut(s, Entry(key, 0));
  }

  class Cursor {
    const ix: Index
    var stack: seq<Frame>
    var current: Entry
    var err: Status
    ghost var path: seq<Spot>

    constructor (ix: Index)
      ensures this.ix == ix && stack == [] && path == [] && err == Ok
    {
      this.ix := ix;
      stack, path, current, err := [], [], Entry([], 0), Ok;
    }

    /** Every frame stands in a subtree the index stores now. */
    ghost predicate Valid()
      reads this, ix
    {
      StackOk(ix.pages, ix.lay, stack, path)
    }

    /** What Next has still to deliver. */
    ghost function Remaining(): seq<Entry>
      requires Valid()
      reads this, ix
    {
      Pending(stack, path)
    }

    method Push(offset: nat, index: nat, entered: bool, ghost s: Spot)
      requires Valid() && FrameOk(Frame(offset, index, entered), s) && Placed(ix.pages, ix.lay, s)
      modifies this
      ensures Valid() && stack == old(stack) + [Frame(offset, index, entered)] && path == old(path) + [s]
      ensures Remaining() == FramePending(Frame(offset, index, entered), s) + old(Remaining())
      ensures err == old(err) && current == old(current)
      ensures Work(stack, path) == Cost(Frame(offset, index, entered), s) + old(Work(stack, path))
    {
      PendingTop(ix.pages, ix.lay, stack, path, Frame(offset, index, entered), s);
      stack := stack + [Frame(offset, index, entered)];
      path := path + [s];
    }

    /** What is left once the top frame is exhausted. */
    ghost function Beneath(): seq<Entry>
      requires Valid() && stack != []
      reads this, ix
    {
      Pending(stack[..|stack| - 1], path[..|path| - 1])
    }

    ghost function TopSpot(): Spot
      requires Valid() && stack != []
      reads this, ix
    {
      path[|path| - 1]
    }

    method SetTop(f: Frame)
      requires Valid() && stack != [] && FrameOk(f, TopSpot())
      modifies this`stack
      ensures Valid() && stack != [] && TopSpot() == old(TopSpot())
      ensures Remaining() == FramePending(f, TopSpot()) + old(Beneath()) && Beneath() == old(Beneath())
      ensures Work(stack, path) + old(Cost(stack[|stack| - 1], TopSpot()))
        == old(Work(stack, path)) + Cost(f, TopSpot())
    {
      var n := |stack| - 1;
      assert stack[n := f][..n] == stack[..n];
      stack := stack[n := f];
    }

    method Drop()
      requires Valid() && stack != []
      modifies this`stack, this`path
      ensures Valid() && Remaining() == old(Beneath()) && Work(stack, path) < old(Work(stack, path))
    {
      stack, path := stack[..|stack| - 1], path[..|path| - 1];
    }

    /** Positions the cursor before the smallest entry. */
    method First()
      requires ix.Valid()
      modifies this
      ensures Valid() && err == Ok && Remaining() == ix.Contents()
    {
      err, stack, path := Ok, [], [];
      FirstFrame(ix.tree, ix.height, ix.lay);
      Push(ix.root, 0, false, Spot(ix.tree, ix.height));
    }

    /** Positions the cursor before the first entry whose key is at or above the given one. */
    method Seek(key: seq<byte>)
      requires ix.Valid()
      modifies this
      ensures Valid()
      ensures err == if |key| > ix.lay.keySize then KeyTooLong else Ok
      ensures err == KeyTooLong ==> Remaining() == []
      ensures err == Ok ==> Remaining() == Suffix(ix.Contents(), Entry(ix.Pad(key), 0))
    {
      hide Stores, Shape, Sorted;
      err, stack, path := Ok, [], [];
      if |key| > ix.lay.keySize {
        err := KeyTooLong;
        return;
      }
      var e := Entry(ix.Pad(key), 0);
      ghost var all := ix.Contents();
      ghost var pages, t, h := ix.pages, ix.tree, ix.height;
      var offset := ix.root;
      while true
        invariant ix.pages == pages && Standing(pages, ix.lay, t, h) && offset == t.off
        invariant Valid() && err == Ok
        invariant Suffix(Flat(t), e) + Remaining() == Suffix(all, e)
        decreases h
      {
        var leaf;
        leaf, offset, t := SeekLevel(offset, e, t, h);
        if leaf {
          return;
        }
        h := h - 1;
      }
    }

    /** One level of Seek: the page is pushed at the position found; the child, if any, is still to come. */
    method SeekLevel(offset: nat, e: Entry, ghost t: Tree, ghost h: nat) returns (leaf: bool, below: nat, ghost k: Tree)
      requires Valid() && Standing(ix.pages, ix.lay, t, h) && offset == t.off
      modifies this
      ensures Valid() && err == old(err) && (leaf <==> h == 0)
      ensures leaf ==> Remaining() == Suffix(Flat(t), e) + old(Remaining())
      ensures !leaf ==> below == k.off && Standing(ix.pages, ix.lay, k, h - 1)
      ensures !leaf ==> Suffix(Flat(k), e) + Remaining() == Suffix(Flat(t), e) + old(Remaining())
    {
      var n := ix.Visit(offset, t, h);
      var i := Locate(n, e, t);
      SeekStep(t, h, i, e, ix.lay);
      leaf, below, k := n.leaf, n.ChildAt(i), t;
      if h > 0 {
        k := t.kids[i];
        GoDown(ix.pages, ix.lay, t, h, i);
        Regroup(Suffix(Flat(t.kids[i]), e), FramePending(Frame(offset, i, true), Spot(t, h)), Remaining());
      }
      Push(offset, i, !n.leaf, Spot(t, h));
    }

    /** Delivers the next entry in key order, or reports that there is none. */
    method Next() returns (more: bool)
      requires Valid()
      modifies this
      ensures Valid() && err == old(err)
      ensures more <==> err == Ok && old(Remaining()) != []
      ensures more ==> current == old(Remaining())[0] && Remaining() == old(Remaining())[1..]
      ensures !more && err == Ok ==> Remaining() == []
    {
      if err != Ok {
        return false;
      }
      while |stack| > 0
        invariant Valid() && err == Ok && Remaining() == old(Remaining())
        decreases Work(stack, path)
      {
        var done := Step();
        if done {
          return true;
        }
      }
      return false;
    }

    /** One round of Next: emits an entry, pushes a child, or drops an exhausted frame. */
    method Step() returns (done: bool)
      requires Valid() && |stack| > 0
      modifies this
      ensures Valid() && err == old(err)
      ensures done ==> old(Remaining()) != [] && current == old(Remaining())[0] && Remaining() == old(Remaining())[1..]
      ensures !done ==> Remaining() == old(Remaining()) && Work(stack, path) < old(Work(stack, path))
    {
      var top := stack[|stack| - 1];
      ghost var s := TopSpot();
      var n := ix.ReadNode(top.offset, s.tree);
      if !n.leaf && !top.entered {
        EnterChild(n, top);
        done := false;
      } else if top.index < |n.items| {
        var f := if n.leaf then top.(index := top.index + 1) else top.(index := top.index + 1, entered := false);
        EmitStep(top, f, s);
        Emit(f, n.items[top.index].entry);
        done := true;
      } else {
        Exhausted(top, s);
        Drop();
        done := false;
      }
    }

    /** Moves the top frame past the entry e and makes e current. */
    method Emit(f: Frame, e: Entry)
      requires Valid() && stack != [] && FrameOk(f, TopSpot())
      requires FramePending(stack[|stack| - 1], TopSpot()) == [e] + FramePending(f, TopSpot())
      modifies this
      ensures Valid() && err == old(err) && current == e
      ensures old(Remaining()) != [] && old(Remaining())[0] == e && Remaining() == old(Remaining())[1..]
    {
      HeadTail(e, FramePending(f, TopSpot()), Beneath());
      SetTop(f);
      current := e;
    }

    method EnterChild(n: Node, top: Frame)
      requires Valid() && stack != [] && top == stack[|stack| - 1] && !top.entered
      requires n.Matches(TopSpot().tree) && TopSpot().height > 0
      modifies this
      ensures Valid() && err == old(err) && Remaining() == old(Remaining())
      ensures Work(stack, path) < old(Work(stack, path))
    {
      ghost var s := TopSpot();
      ghost var k := Spot(s.tree.kids[top.index], s.height - 1);
      var offset := n.ChildAt(top.index);
      PlacedKid(ix.pages, ix.lay, s, top.index);
      EnterStep(top, s, offset, ix.lay);
      Regroup(FramePending(Frame(offset, 0, false), k), FramePending(top.(entered := true), s), Beneath());
      SetTop(top.(entered := true));
      Push(offset, 0, false, k);
    }
  }

  lemma Regroup<T>(a: seq<T>, b: seq<T>, c: seq<T>)
    ensures (a + b) + c == a + (b + c)
  {
  }

  /** Entering the child splits what the frame has to give between the child and the rest. */
  lemma EnterStep(top: Frame, s: Spot, offset: nat, lay: Layout)
    requires lay.maxItem >= 2 && Shape(s.tree, s.height, lay)
    requires FrameOk(top, s) && s.height > 0 && !top.entered && offset == s.tree.kids[top.index].off
    ensures var k := Spot(s.tree.kids[top.index], s.height - 1);
      && FrameOk(Frame(offset, 0, false), k) && FrameOk(top.(entered := true), s)
      && FramePending(top, s) == FramePending(Frame(offset, 0, false), k) + FramePending(top.(entered := true), s)
      && Cost(Frame(offset, 0, false), k) + Cost(top.(entered := true), s) < Cost(top, s)
  {
    KidsShape(s.tree, top.index, s.height, lay);
    FirstFrame(s.tree.kids[top.index], s.height - 1, lay);
  }

  /** A fresh frame at a node has everything below the node still to give. */
  lemma FirstFrame(t: Tree, h: nat, lay: Layout)
    requires lay.maxItem >= 2 && Shape(t, h, lay)
    ensures FrameOk(Frame(t.off, 0, false), Spot(t, h))
    ensures FramePending(Frame(t.off, 0, false), Spot(t, h)) == Flat(t)
  {
    if h > 0 {
      FlatAt(t, 0);
    }
  }
}
