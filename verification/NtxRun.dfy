/** Whole runs over one index file: any sequence of insertions, deletions and re-openings behaves
    as the same sequence on a bag of entries. */
module NtxRun {
  import opened Entries
  import opened NtxTree
  import opened NtxStore
  import opened NtxMiss
  import opened NtxFate
  import opened NtxIndex
  import opened NtxQuery

  datatype Op = Put(key: seq<byte>, recno: nat) | Drop(key: seq<byte>, recno: nat) | Reopen

  /** Whether an operation changed anything, or was refused for its key. */
  datatype Answer = Refused | Did(changed: bool)

  /** What an index is to its user: a key size, possibly a uniqueness rule, and a bag of entries. */
  datatype Bag = Bag(keySize: nat, unique: bool, entries: multiset<Entry>) {
    function Named(key: seq<byte>, recno: nat): Entry {
      Entry(key + seq(if |key| < keySize then keySize - |key| else 0, _ => SPACE), recno)
    }

    ghost predicate HasKey(key: seq<byte>) {
      exists e :: e in entries && e.key == key
    }

    ghost function Respond(op: Op): Answer {
      match op
      case Reopen => Did(false)
      case Put(key, recno) => if |key| > keySize then Refused else Did(!(unique && HasKey(Named(key, recno).key)))
      case Drop(key, recno) => if |key| > keySize then Refused else Did(Named(key, recno) in entries)
    }

    ghost function After(op: Op): (r: Bag)
      ensures r.keySize == keySize && r.unique == unique
    {
      if Respond(op) != Did(true) then this
      else match op
        case Put(key, recno) => this.(entries := entries + multiset{Named(key, recno)})
        case Drop(key, recno) => this.(entries := entries - multiset{Named(key, recno)})
    }
  }

  ghost function Replay(start: Bag, ops: seq<Op>): Bag {
    if ops == [] then start else Replay(start, ops[..|ops| - 1]).After(ops[|ops| - 1])
  }

  /** Every deletion of the run that gets past the key check finds its entry. */
  ghost predicate NoMisses(start: Bag, ops: seq<Op>) {
    forall i :: 0 <= i < |ops| && ops[i].Drop? ==> Replay(start, ops[..i]).Respond(ops[i]) != Did(false)
  }

  ghost predicate OddCapacity(keySize: nat) {
    ComputeMaxItem(keySize + 8) % 2 == 1
  }

  /** The index stands for the bag. */
  ghost predicate Stands(ix: Index, bag: Bag)
    reads ix
  {
    && 1 <= bag.keySize <= MAX_KEY_SIZE && ix.Valid()
    && ix.lay == Layout(bag.keySize, ComputeMaxItem(bag.keySize + 8)) && ix.unique == bag.unique
    && multiset(ix.Contents()) == bag.entries
  }

  /** And its file for the index, and its root has what a deletion needs. */
  ghost predicate Models(ix: Index, bag: Bag)
    reads ix
  {
    Stands(ix, bag) && ix.Tight() && ix.Synced()
  }

  /** Where every operation goes through: three items fit a page, and a deletion finds its entry unless
      the capacity is odd. */
  ghost predicate Safe(bag: Bag, op: Op) {
    bag.keySize <= 245 && (OddCapacity(bag.keySize) || (op.Drop? ==> bag.Respond(op) != Did(false)))
  }

  /** Where one does not: the deletion would fail, or the header page is not up to date. */
  ghost predicate Halts(tree: Tree, lay: Layout, synced: bool, op: Op) {
    match op
    case Put(_, _) => false
    case Drop(key, recno) => |key| <= lay.keySize
      && !DeletionFate(tree, Bag(lay.keySize, false, multiset{}).Named(key, recno), lay).Leaves?
    case Reopen => !synced
  }

  ghost predicate Stuck(ix: Index, op: Op)
    reads ix
  {
    Halts(ix.tree, ix.lay, ix.Synced(), op)
  }

  /** What stopped a run: the operation fails on a tree that stands for the bag. */
  ghost predicate Blocked(tree: Tree, height: nat, synced: bool, bag: Bag, op: Op) {
    ComputeMaxItem(bag.keySize + 8) >= 2 &&
    var lay := Layout(bag.keySize, ComputeMaxItem(bag.keySize + 8));
    && Shape(tree, height, lay) && Sorted(Flat(tree)) && multiset(Flat(tree)) == bag.entries
    && Halts(tree, lay, synced, op)
  }

  lemma StuckIsBlocked(ix: Index, bag: Bag, op: Op)
    requires Stands(ix, bag) && Stuck(ix, op)
    ensures Blocked(ix.tree, ix.height, ix.Synced(), bag, op)
  {
  }

  /** With room for three items, a deletion stops a run if and only if the root is a branch without entries
      and the deletion leaves its only child less than half full. */
  lemma BlockedDeletion(tree: Tree, height: nat, lay: Layout, synced: bool, key: seq<byte>, recno: nat)
    requires lay.maxItem >= 3 && Shape(tree, height, lay) && |key| <= lay.keySize
    ensures Halts(tree, lay, synced, Drop(key, recno)) <==>
      Stranded(tree, Bag(lay.keySize, false, multiset{}).Named(key, recno), lay)
  {
    FailsIfStranded(tree, Bag(lay.keySize, false, multiset{}).Named(key, recno), height, lay);
  }

  /** What Insert will do, in terms of the bag. */
  lemma InsertionExpected(ix: Index, bag: Bag, key: seq<byte>, recno: nat)
    requires Stands(ix, bag)
    ensures var op, s, e := Put(key, recno), ix.Contents(), Entry(ix.Pad(key), recno);
      if |key| > bag.keySize then bag.Respond(op) == Refused && bag.After(op) == bag
      else
        && bag.Respond(op) == Did(!(bag.unique && HasKey(s, e.key)))
        && bag.After(op) == if bag.unique && HasKey(s, e.key) then bag else bag.(entries := multiset(Inserted(s, e)))
  {
    hide Index.Valid, Index.Contents, Index.Tight, Sorted, Inserted;
    if |key| <= bag.keySize {
      var s, e := ix.Contents(), bag.Named(key, recno);
      assert ix.Pad(key) == e.key;
      ContentsSorted(ix);
      InsertedFacts(s, e);
      assert forall x :: x in s <==> x in multiset(s);
    }
  }

  lemma ContentsSorted(ix: Index)
    requires ix.Valid()
    ensures Sorted(ix.Contents())
  {
  }

  /** The bag fixes the contents: the order leaves nothing open. */
  lemma ContentsDetermined(ix: Index, other: Index, bag: Bag)
    requires Stands(ix, bag) && Stands(other, bag)
    ensures ix.Contents() == other.Contents()
  {
    SortedUnique(ix.Contents(), other.Contents());
  }

  /** The pages behind the header are those of the tree and those of the free list: none is
      lost, shared, or in use while free. */
  lemma PagesPartitioned(ix: Index, o: nat)
    requires ix.Valid()
    ensures PAGE_SIZE <= o < ix.fileSize && o % PAGE_SIZE == 0 <==> o in Foot(ix.tree) || o in ix.free
    ensures Foot(ix.tree)[o] + multiset(ix.free)[o] <= 1
    ensures !(o in Foot(ix.tree) && o in ix.free)
  {
    assert o in PageSet(ix.fileSize) <==> o in Foot(ix.tree) + multiset(ix.free);
    AtMostOnce(Foot(ix.tree), ix.free, ix.fileSize, o);
  }

  lemma QuietWhenOdd(ix: Index, e: Entry)
    requires ix.Valid() && ix.Tight() && ix.lay.maxItem % 2 == 1
    ensures Quiet(ix.tree, e, ix.lay)
  {
    OddIsQuiet(ix.tree, e, ix.height, ix.lay);
  }

  method DoPut(ix: Index, key: seq<byte>, recno: nat, ghost bag: Bag) returns (answer: Answer)
    requires Stands(ix, bag)
    modifies ix
    ensures answer == bag.Respond(Put(key, recno)) && Stands(ix, bag.After(Put(key, recno)))
    ensures old(ix.Tight()) ==> ix.Tight()
    ensures old(ix.Synced()) ==> ix.Synced()
  {
    hide Index.Valid, Index.Contents, Inserted, HasKey, Bag.Respond, Bag.After, Bag.Named, Sorted, Index.Tight;
    InsertionExpected(ix, bag, key, recno);
    var added, status := ix.Insert(key, recno);
    answer := if status == KeyTooLong then Refused else Did(added);
  }

  /** What Delete will find, in terms of the bag. */
  lemma DeletionExpected(ix: Index, bag: Bag, key: seq<byte>, recno: nat)
    requires Stands(ix, bag)
    ensures var op, s, e := Drop(key, recno), ix.Contents(), Entry(ix.Pad(key), recno);
      if |key| > bag.keySize then bag.Respond(op) == Refused && bag.After(op) == bag
      else bag.Respond(op) == Did(e in s) && bag.After(op) == bag.(entries := multiset(Removed(s, e)))
  {
    hide Index.Valid, Index.Contents, Index.Tight, Sorted, Removed;
    if |key| <= bag.keySize {
      var s, e := ix.Contents(), bag.Named(key, recno);
      assert ix.Pad(key) == e.key;
      ContentsSorted(ix);
      RemovedFacts(s, e);
      assert e in s <==> e in multiset(s);
    }
  }

  /** Where it is safe, a miss happens only where it changes nothing. */
  lemma SafeMiss(ix: Index, bag: Bag, key: seq<byte>, recno: nat)
    requires Models(ix, bag) && Safe(bag, Drop(key, recno)) && |key| <= bag.keySize
    ensures var e := Entry(ix.Pad(key), recno);
      e in ix.Contents() || Quiet(ix.tree, e, ix.lay)
  {
    hide Index.Valid, Index.Contents, Removed, Quiet, Deleted, Bag.Respond, Bag.After, Bag.Named;
    DeletionExpected(ix, bag, key, recno);
    if bag.Respond(Drop(key, recno)) == Did(false) {
      QuietWhenOdd(ix, Entry(ix.Pad(key), recno));
    }
  }

  method DoDrop(ix: Index, key: seq<byte>, recno: nat, ghost bag: Bag) returns (answer: Option<Answer>)
    requires Stands(ix, bag)
    modifies ix
    ensures answer.None? <==> old(Stuck(ix, Drop(key, recno)))
    ensures answer.Some? ==> answer.value == bag.Respond(Drop(key, recno)) && Stands(ix, bag.After(Drop(key, recno)))
    ensures old(Models(ix, bag)) && Safe(bag, Drop(key, recno)) ==> answer.Some? && ix.Tight() && ix.Synced()
  {
    hide Index.Valid, Index.Contents, Removed, Quiet, Deleted, Bag.Respond, Bag.After, Bag.Named, DeletionFate, Safe;
    DeletionExpected(ix, bag, key, recno);
    ghost var safe := Models(ix, bag) && Safe(bag, Drop(key, recno));
    if safe && |key| <= bag.keySize {
      SafeMiss(ix, bag, key, recno);
    }
    NamedIsPadded(ix, key, recno);
    SafeSize(bag, Drop(key, recno));
    var found, status := ix.Delete(key, recno);
    answer := match status
      case Ok => Some(Did(found))
      case KeyTooLong => Some(Refused)
      case _ => None;
  }

  lemma NamedIsPadded(ix: Index, key: seq<byte>, recno: nat)
    ensures |key| <= ix.lay.keySize ==>
      Bag(ix.lay.keySize, false, multiset{}).Named(key, recno) == Entry(ix.Pad(key), recno)
  {
    assert |key| <= ix.lay.keySize ==> Bag(ix.lay.keySize, false, multiset{}).Named(key, recno).key == ix.Pad(key);
  }

  lemma SafeSize(bag: Bag, op: Op)
    requires 1 <= bag.keySize <= MAX_KEY_SIZE
    ensures Safe(bag, op) ==> ComputeMaxItem(bag.keySize + 8) >= 3
  {
    PageHoldsTwo(bag.keySize);
  }

  method DoReopen(ix: Index, ghost bag: Bag) returns (r: Index, answer: Option<Answer>)
    requires Stands(ix, bag)
    ensures (answer.None? <==> !ix.Synced()) && (answer.None? ==> r == ix)
    ensures answer.Some? ==>
      fresh(r) && answer.value == bag.Respond(Reopen) && Stands(r, bag.After(Reopen)) && r.Synced()
    ensures answer.Some? && ix.Tight() ==> r.Tight()
  {
    if ix.header != Header(ix.root, ix.nextFree) {
      return ix, None;
    }
    r := new Index.Open(ix.lay, ix.unique, ix.header, ix.pages, ix.fileSize, ix.tree, ix.height, ix.free);
    answer := Some(Did(false));
  }

  /** One operation. It stops exactly where the index is stuck, and nowhere where it is safe. */
  method Step(ix: Index, op: Op, ghost bag: Bag) returns (r: Index, answer: Option<Answer>)
    requires Stands(ix, bag)
    modifies ix
    ensures r == ix || fresh(r)
    ensures answer.None? <==> old(Stuck(ix, op))
    ensures answer.Some? ==> answer.value == bag.Respond(op) && Stands(r, bag.After(op))
    ensures old(Models(ix, bag)) && Safe(bag, op) ==> answer.Some? && Models(r, bag.After(op))
  {
    hide Index.Valid, Index.Contents, Index.Tight, Bag.After, Bag.Respond, Bag.Named, Safe, DeletionFate, Index.Now;
    r := ix;
    if op.Put? {
      var done := DoPut(ix, op.key, op.recno, bag);
      answer := Some(done);
    } else if op.Drop? {
      answer := DoDrop(ix, op.key, op.recno, bag);
    } else {
      r, answer := DoReopen(ix, bag);
    }
  }

  method Fresh(keySize: nat, unique: bool) returns (ix: Index)
    requires 1 <= keySize <= MAX_KEY_SIZE
    ensures fresh(ix) && Models(ix, Bag(keySize, unique, multiset{}))
  {
    ix := new Index(keySize, unique);
  }

  /** Creates an index and carries out a script on it, up to the first operation at which it is stuck.
      With key sizes up to 245 bytes, and odd capacity or no deletion that misses, it is never stuck. */
  method Run(keySize: nat, unique: bool, ops: seq<Op>)
    returns (ix: Index, answers: seq<Answer>, ghost tree: Tree, ghost height: nat, ghost synced: bool)
    requires 1 <= keySize <= MAX_KEY_SIZE
    ensures |answers| <= |ops|
    ensures |answers| < |ops| ==>
      Blocked(tree, height, synced, Replay(Bag(keySize, unique, multiset{}), ops[..|answers|]), ops[|answers|])
    ensures var start := Bag(keySize, unique, multiset{});
      && (|answers| == |ops| ==> Stands(ix, Replay(start, ops)))
      && (keySize <= 245 && (OddCapacity(keySize) || NoMisses(start, ops)) ==>
         |answers| == |ops| && Models(ix, Replay(start, ops)))
      && forall i :: 0 <= i < |answers| ==> answers[i] == Replay(start, ops[..i]).Respond(ops[i])
    ensures fresh(ix)
  {
    hide Stands, Models, Safe, Stuck, Blocked, Bag.Respond, Bag.After, Bag.Named, NoMisses, OddCapacity, Index.Valid,
         Index.Contents;
    ix := Fresh(keySize, unique);
    ghost var bag := Bag(keySize, unique, multiset{});
    ModelsStands(ix, bag);
    tree, height, synced := ix.tree, ix.height, true;
    ghost var good := keySize <= 245 && (OddCapacity(keySize) || NoMisses(bag, ops));
    answers := [];
    for n := 0 to |ops|
      invariant fresh(ix) && |answers| == n
      invariant bag == Replay(Bag(keySize, unique, multiset{}), ops[..n]) && Stands(ix, bag) && bag.keySize == keySize
      invariant good ==> Models(ix, bag)
      invariant forall i :: 0 <= i < n ==>
        answers[i] == Replay(Bag(keySize, unique, multiset{}), ops[..i]).Respond(ops[i])
    {
      assert ops[..n + 1][..n] == ops[..n];
      SafeAt(Bag(keySize, unique, multiset{}), ops, n, bag);
      if Stuck(ix, ops[n]) {
        StuckIsBlocked(ix, bag, ops[n]);
      }
      tree, height, synced := ix.tree, ix.height, ix.Synced();
      var answer;
      ix, answer := Step(ix, ops[n], bag);
      if answer.None? {
        return;
      }
      bag := bag.After(ops[n]);
      answers := answers + [answer.value];
    }
    assert ops[..|ops|] == ops;
  }

  lemma ModelsStands(ix: Index, bag: Bag)
    requires Models(ix, bag)
    ensures Stands(ix, bag)
  {
  }

  lemma SafeAt(start: Bag, ops: seq<Op>, n: nat, bag: Bag)
    requires n < |ops| && bag == Replay(start, ops[..n]) && bag.keySize == start.keySize
    ensures start.keySize <= 245 && (OddCapacity(start.keySize) || NoMisses(start, ops)) ==> Safe(bag, ops[n])
  {
  }
}
