/** The byte form of an NTX page: a count, a table of slot offsets, and fixed-size items. */
module NtxPage {
  import opened Entries
  import opened Bytes
  import opened NtxTree
  import opened NtxStore
  import opened NtxIndex

  function ItemSize(lay: Layout): nat { lay.keySize + 8 }

  /** Where item position i starts; the slot table before it has one slot more than there are keys. */
  function Pos(lay: Layout, i: nat): nat {
    2 + 2 * (lay.maxItem + 1) + i * ItemSize(lay)
  }

  /** Count field, slot table and all item positions lie inside one page. */
  predicate Fits(lay: Layout) {
    4 + 2 * lay.maxItem <= Pos(lay, lay.maxItem + 1) <= PAGE_SIZE
  }

  /** The capacity the header computes is the largest that fits. */
  lemma LayoutFits(keySize: nat, maxItem: nat)
    requires 1 <= keySize <= MAX_KEY_SIZE
    ensures Fits(Layout(keySize, maxItem)) <==> maxItem <= ComputeMaxItem(keySize + 8)
  {
    var d, n := keySize + 10, maxItem + 1;
    assert Pos(Layout(keySize, maxItem), n) == 2 + n * d by {
      assert n * (keySize + 8) + 2 * n == n * d;
    }
    assert 2 * n <= n * d by {
      assert n * (d - 2) >= 0;
    }
    assert n * d <= PAGE_SIZE - 2 <==> n <= (PAGE_SIZE - 2) / d by {
      AtMostQuotient(n, d, PAGE_SIZE - 2);
    }
  }

  /** Item positions follow one another without overlap, all inside the page. */
  lemma PosApart(lay: Layout, i: nat, j: nat)
    requires Fits(lay) && i < j <= lay.maxItem + 1
    ensures 4 + 2 * lay.maxItem <= Pos(lay, i) && Pos(lay, i) + ItemSize(lay) <= Pos(lay, j) <= PAGE_SIZE
  {
    MulMonotone(i + 1, j, ItemSize(lay));
    MulMonotone(j, lay.maxItem + 1, ItemSize(lay));
    assert (i + 1) * ItemSize(lay) == i * ItemSize(lay) + ItemSize(lay);
  }

  // ---------------------------------------------------------------- decoding

  datatype Decoded = Decoded(items: seq<Item>, right: nat, leaf: bool)

  function Count(raw: seq<byte>): nat
    requires |raw| == PAGE_SIZE
  {
    Le(raw[0..2])
  }

  function SlotOffset(raw: seq<byte>, slot: nat): nat
    requires |raw| == PAGE_SIZE && 4 + 2 * slot <= PAGE_SIZE
  {
    Le(raw[2 + 2 * slot..4 + 2 * slot])
  }

  /** The bytes a slot points at, when it points inside the page. */
  function SlotBytes(raw: seq<byte>, slot: nat, lay: Layout): (r: Option<seq<byte>>)
    requires |raw| == PAGE_SIZE && 4 + 2 * slot <= PAGE_SIZE
    ensures r.Some? ==> |r.value| == ItemSize(lay)
  {
    var off := SlotOffset(raw, slot);
    if off < 2 || off + ItemSize(lay) > PAGE_SIZE then None else Some(raw[off..off + ItemSize(lay)])
  }

  function ItemOf(b: seq<byte>): Item
    requires |b| >= 8
  {
    Item(Le(b[0..4]), Entry(b[8..], Le(b[4..8])))
  }

  function ItemBytes(x: Item): seq<byte> {
    LeBytes(x.child, 4) + LeBytes(x.entry.recno, 4) + x.entry.key
  }

  /** raw is an image of these items and this right pointer, wherever its slots point. */
  ghost predicate PageHolds(raw: seq<byte>, lay: Layout, items: seq<Item>, right: nat) {
    && |raw| == PAGE_SIZE && Fits(lay) && Count(raw) == |items| <= lay.maxItem
    && (forall s :: 0 <= s <= |items| ==> SlotBytes(raw, s, lay).Some?)
    && (forall s :: 0 <= s < |items| ==> items[s] == ItemOf(SlotBytes(raw, s, lay).value))
    && right == ItemOf(SlotBytes(raw, |items|, lay).value).child
  }

  predicate ChildFree(items: seq<Item>, right: nat) {
    right == 0 && forall j :: 0 <= j < |items| ==> items[j].child == 0
  }

  /** What a slot leads to, in bytes: numbers are stored low byte first, the offset of the item in two bytes
      from 2 + 2 * slot on; an item is a child pointer and a record number of four bytes each and the key. */
  lemma SlotMeans(raw: seq<byte>, slot: nat, lay: Layout, off: nat)
    requires |raw| == 1024 && 4 + 2 * slot <= 1024
    requires off == raw[2 + 2 * slot] + 0x100 * (raw[3 + 2 * slot] as int)
    ensures SlotBytes(raw, slot, lay).None? <==> off < 2 || off + lay.keySize + 8 > 1024
    ensures 2 <= off && off + lay.keySize + 8 <= 1024 ==> SlotBytes(raw, slot, lay).Some?
    ensures 2 <= off && off + lay.keySize + 8 <= 1024 ==>
      var x := ItemOf(SlotBytes(raw, slot, lay).value);
      && x.child == raw[off] + 0x100 * (raw[off + 1] as int) + 0x1_0000 * (raw[off + 2] as int)
                    + 0x100_0000 * (raw[off + 3] as int)
      && x.entry.recno == raw[off + 4] + 0x100 * (raw[off + 5] as int) + 0x1_0000 * (raw[off + 6] as int)
                          + 0x100_0000 * (raw[off + 7] as int)
      && x.entry.key == raw[off + 8..off + 8 + lay.keySize]
  {
    hide Le;
    LePair(raw[2 + 2 * slot..4 + 2 * slot]);
    assert SlotOffset(raw, slot) == off;
    if 2 <= off && off + lay.keySize + 8 <= 1024 {
      var b := raw[off..off + lay.keySize + 8];
      LeFour(b[0..4]);
      LeFour(b[4..8]);
    }
  }

  /** A page holds a node if and only if bytes 0 and 1 count its entries and the slots lead, in this order, to
      these entries and to the right pointer. */
  lemma HoldsMeans(raw: seq<byte>, lay: Layout, items: seq<Item>, right: nat)
    requires |raw| == 1024 && Fits(lay)
    ensures PageHolds(raw, lay, items, right) <==>
      && |items| == raw[0] + 0x100 * (raw[1] as int) && |items| <= lay.maxItem
      && (forall s :: 0 <= s <= |items| ==> SlotBytes(raw, s, lay).Some?)
      && (forall s :: 0 <= s < |items| ==> items[s] == ItemOf(SlotBytes(raw, s, lay).value))
      && right == ItemOf(SlotBytes(raw, |items|, lay).value).child
  {
    hide Le, SlotBytes, ItemOf;
    LePair(raw[0..2]);
  }

  /** The slots of a page as it is written, whatever it holds. */
  lemma CanonicalSlots(raw: seq<byte>, lay: Layout, s: nat)
    requires |raw| == 1024 && Fits(lay) && s <= lay.maxItem && SlotsSet(raw, lay, lay.maxItem + 1)
    ensures raw[2 + 2 * s] + 0x100 * (raw[3 + 2 * s] as int) == 2 + 2 * (lay.maxItem + 1) + s * (lay.keySize + 8)
  {
    hide Le;
    LePair(raw[2 + 2 * s..4 + 2 * s]);
    assert SlotOffset(raw, s) == Pos(lay, s);
  }

  /** Reads a page by following its slots; None stands for the errors of a damaged page. */
  method ReadPage(raw: seq<byte>, lay: Layout) returns (d: Option<Decoded>)
    requires |raw| == PAGE_SIZE && Fits(lay)
    ensures d.Some? ==> PageHolds(raw, lay, d.value.items, d.value.right)
    ensures d.Some? ==> d.value.leaf == ChildFree(d.value.items, d.value.right)
    ensures d.None? ==> forall items, right :: !PageHolds(raw, lay, items, right)
  {
    hide Pos, Le, LeBytes, SlotBytes, ItemOf;
    var count := Count(raw);
    if count > lay.maxItem {
      return None;
    }
    var items: seq<Item>, leaf, i := [], true, 0;
    while i < count
      invariant i <= count && |items| == i
      invariant forall s :: 0 <= s < i ==>
        SlotBytes(raw, s, lay).Some? && items[s] == ItemOf(SlotBytes(raw, s, lay).value)
      invariant leaf == ChildFree(items, 0)
    {
      var b := SlotBytes(raw, i, lay);
      if b.None? {
        return None;
      }
      var x := ItemOf(b.value);
      items := items + [x];
      if x.child != 0 {
        leaf := false;
      }
      i := i + 1;
    }
    var b := SlotBytes(raw, count, lay);
    if b.None? {
      return None;
    }
    var right := ItemOf(b.value).child;
    if right != 0 {
      leaf := false;
    }
    d := Some(Decoded(items, right, leaf));
  }

  /** A page image stands for one node only. */
  lemma DecodingIsUnique(raw: seq<byte>, lay: Layout, items: seq<Item>, right: nat, items2: seq<Item>, right2: nat)
    requires PageHolds(raw, lay, items, right) && PageHolds(raw, lay, items2, right2)
    ensures items == items2 && right == right2
  {
  }

  // ---------------------------------------------------------------- encoding

  /** An item as far as four-byte fields can hold it. */
  function Stored(x: Item): Item {
    Item(x.child % TWO_32, Entry(x.entry.key, x.entry.recno % TWO_32))
  }

  function AllStored(items: seq<Item>): (r: seq<Item>)
    ensures |r| == |items| && forall j :: 0 <= j < |items| ==> r[j] == Stored(items[j])
  {
    seq(|items|, j requires 0 <= j < |items| => Stored(items[j]))
  }

  predicate Small(items: seq<Item>, right: nat) {
    right < TWO_32 && forall j :: 0 <= j < |items| ==> items[j].child < TWO_32 && items[j].entry.recno < TWO_32
  }

  /** A node survives storage exactly when its numbers fit their fields. */
  lemma StoredIsSame(items: seq<Item>, right: nat)
    ensures AllStored(items) == items && right % TWO_32 == right <==> Small(items, right)
  {
    if AllStored(items) == items {
      forall j | 0 <= j < |items| ensures items[j].child < TWO_32 && items[j].entry.recno < TWO_32 {
        assert AllStored(items)[j] == items[j];
      }
    }
  }

  lemma ItemRoundTrip(x: Item)
    ensures ItemOf(ItemBytes(x)) == Stored(x)
  {
    var b := ItemBytes(x);
    assert b[0..4] == LeBytes(x.child, 4) && b[4..8] == LeBytes(x.entry.recno, 4) && b[8..] == x.entry.key;
    Le4(x.child);
    Le4(x.entry.recno);
  }

  /** The first n slots point at the first n item positions. */
  ghost predicate SlotsSet(raw: seq<byte>, lay: Layout, n: nat)
    requires |raw| == PAGE_SIZE && Fits(lay) && n <= lay.maxItem + 1
  {
    forall s :: 0 <= s < n ==> SlotOffset(raw, s) == Pos(lay, s)
  }

  /** The first n item positions hold the first n items. */
  ghost predicate ItemsSet(raw: seq<byte>, lay: Layout, items: seq<Item>, n: nat)
    requires |raw| == PAGE_SIZE && Fits(lay) && n <= |items| <= lay.maxItem
  {
    forall s :: 0 <= s < n ==>
      Pos(lay, s) + ItemSize(lay) <= PAGE_SIZE && raw[Pos(lay, s)..Pos(lay, s) + ItemSize(lay)] == ItemBytes(items[s])
  }

  lemma SlotStep(raw: seq<byte>, raw2: seq<byte>, lay: Layout, n: nat)
    requires |raw| == PAGE_SIZE && Fits(lay) && n <= lay.maxItem && SlotsSet(raw, lay, n)
    requires raw2 == Splice(raw, 2 + 2 * n, LeBytes(Pos(lay, n), 2))
    ensures |raw2| == PAGE_SIZE && SlotsSet(raw2, lay, n + 1) && Count(raw2) == Count(raw)
  {
    hide Pos, Le, LeBytes;
    PosApart(lay, n, lay.maxItem + 1);
    Le2(Pos(lay, n));
    forall s | 0 <= s < n ensures SlotOffset(raw2, s) == Pos(lay, s) {
      SpliceApart(raw, 2 + 2 * n, LeBytes(Pos(lay, n), 2), 2 + 2 * s, 2);
    }
    SpliceApart(raw, 2 + 2 * n, LeBytes(Pos(lay, n), 2), 0, 2);
  }

  /** Writing inside one item position touches neither count nor slots nor the items before. */
  lemma ItemPut(raw: seq<byte>, raw2: seq<byte>, lay: Layout, items: seq<Item>, n: nat, b: seq<byte>)
    requires |raw| == PAGE_SIZE && Fits(lay) && n <= |items| <= lay.maxItem && |b| <= ItemSize(lay)
    requires SlotsSet(raw, lay, lay.maxItem + 1) && ItemsSet(raw, lay, items, n) && Pos(lay, n) <= PAGE_SIZE
    requires raw2 == Splice(raw, Pos(lay, n), b)
    ensures |raw2| == PAGE_SIZE && Count(raw2) == Count(raw)
    ensures SlotsSet(raw2, lay, lay.maxItem + 1) && ItemsSet(raw2, lay, items, n)
  {
    hide Pos, Le, LeBytes;
    PosApart(lay, n, lay.maxItem + 1);
    assert Pos(lay, n) >= 4 + 2 * lay.maxItem;
    SpliceApart(raw, Pos(lay, n), b, 0, 2);
    forall s | 0 <= s <= lay.maxItem ensures SlotOffset(raw2, s) == Pos(lay, s) {
      SpliceApart(raw, Pos(lay, n), b, 2 + 2 * s, 2);
    }
    forall s | 0 <= s < n ensures Pos(lay, s) + ItemSize(lay) <= PAGE_SIZE
                                  && raw2[Pos(lay, s)..Pos(lay, s) + ItemSize(lay)] == ItemBytes(items[s]) {
      PosApart(lay, s, n);
      SpliceApart(raw, Pos(lay, n), b, Pos(lay, s), ItemSize(lay));
    }
  }

  /** Slot s points at item position places[s]. */
  ghost predicate SlotsAt(raw: seq<byte>, lay: Layout, places: seq<nat>)
    requires |raw| == PAGE_SIZE && Fits(lay)
  {
    |places| <= lay.maxItem + 1 &&
    forall s :: 0 <= s < |places| ==> places[s] <= lay.maxItem && SlotOffset(raw, s) == Pos(lay, places[s])
  }

  /** The bytes of item s lie at position places[s], the right pointer at the last of the places. */
  ghost predicate ItemsAt(raw: seq<byte>, lay: Layout, places: seq<nat>, items: seq<Item>, right: nat)
    requires |raw| == PAGE_SIZE && Fits(lay)
  {
    && |places| == |items| + 1
    && (forall s :: 0 <= s < |items| ==>
       BytesAt(raw, Pos(lay, places[s]), ItemBytes(items[s])) && |ItemBytes(items[s])| == ItemSize(lay))
    && BytesAt(raw, Pos(lay, places[|items|]), LeBytes(right, 4))
  }

  ghost predicate BytesAt(raw: seq<byte>, off: nat, b: seq<byte>) {
    off + |b| <= |raw| && raw[off..off + |b|] == b
  }

  /** Where the items lie does not matter: a page whose slots lead, in order, to positions that hold
      the items holds the node, whichever positions these are. */
  lemma SlotsMayBePermuted(raw: seq<byte>, lay: Layout, places: seq<nat>, items: seq<Item>, right: nat)
    requires |raw| == PAGE_SIZE && Fits(lay) && |items| <= lay.maxItem && Count(raw) == |items|
    requires SlotsAt(raw, lay, places) && ItemsAt(raw, lay, places, items, right)
    ensures PageHolds(raw, lay, AllStored(items), right % TWO_32)
  {
    hide Pos, Le, LeBytes;
    forall s | 0 <= s <= |items| ensures SlotBytes(raw, s, lay).Some? {
      SlotLeads(raw, lay, places, s);
    }
    forall s | 0 <= s < |items| ensures AllStored(items)[s] == ItemOf(SlotBytes(raw, s, lay).value) {
      SlotLeads(raw, lay, places, s);
      ItemRoundTrip(items[s]);
    }
    SlotLeads(raw, lay, places, |items|);
    var last := SlotBytes(raw, |items|, lay).value;
    var off := Pos(lay, places[|items|]);
    assert last[0..4] == raw[off..off + 4];
    Le4(right);
  }

  lemma SlotLeads(raw: seq<byte>, lay: Layout, places: seq<nat>, s: nat)
    requires |raw| == PAGE_SIZE && Fits(lay) && SlotsAt(raw, lay, places) && s < |places|
    ensures Pos(lay, places[s]) + ItemSize(lay) <= PAGE_SIZE
    ensures SlotBytes(raw, s, lay) == Some(raw[Pos(lay, places[s])..Pos(lay, places[s]) + ItemSize(lay)])
  {
    hide Pos, Le;
    PosApart(lay, places[s], lay.maxItem + 1);
  }

  /** Two pages with the same items at permuted positions hold the same node. */
  lemma Rearranged(raw: seq<byte>, raw2: seq<byte>, lay: Layout, places: seq<nat>, places2: seq<nat>,
                   items: seq<Item>, right: nat, d: Decoded)
    requires |raw| == |raw2| == PAGE_SIZE && Fits(lay) && |items| <= lay.maxItem && Count(raw) == Count(raw2) == |items|
    requires SlotsAt(raw, lay, places) && ItemsAt(raw, lay, places, items, right)
    requires SlotsAt(raw2, lay, places2) && ItemsAt(raw2, lay, places2, items, right)
    ensures PageHolds(raw, lay, d.items, d.right) <==> PageHolds(raw2, lay, d.items, d.right)
  {
    hide SlotsAt, ItemsAt, PageHolds, Pos, Le;
    SlotsMayBePermuted(raw, lay, places, items, right);
    SlotsMayBePermuted(raw2, lay, places2, items, right);
    if PageHolds(raw, lay, d.items, d.right) {
      DecodingIsUnique(raw, lay, d.items, d.right, AllStored(items), right % TWO_32);
    }
    if PageHolds(raw2, lay, d.items, d.right) {
      DecodingIsUnique(raw2, lay, d.items, d.right, AllStored(items), right % TWO_32);
    }
  }

  /** A finished page holds the node; its slots point at the positions in order. */
  lemma Finished(raw: seq<byte>, lay: Layout, items: seq<Item>, right: nat)
    requires |raw| == PAGE_SIZE && Fits(lay) && |items| <= lay.maxItem && Count(raw) == |items|
    requires SlotsSet(raw, lay, lay.maxItem + 1) && ItemsSet(raw, lay, items, |items|)
    requires Pos(lay, |items|) + 4 <= PAGE_SIZE && raw[Pos(lay, |items|)..Pos(lay, |items|) + 4] == LeBytes(right, 4)
    ensures PageHolds(raw, lay, AllStored(items), right % TWO_32)
  {
    hide Pos, Le, LeBytes, ItemBytes;
    var places := seq(|items| + 1, s requires 0 <= s <= |items| => s);
    forall s | 0 <= s < |items|
      ensures BytesAt(raw, Pos(lay, places[s]), ItemBytes(items[s])) && |ItemBytes(items[s])| == ItemSize(lay)
    {
      PosApart(lay, s, lay.maxItem + 1);
    }
    SlotsMayBePermuted(raw, lay, places, items, right);
  }

  /** Writes the count and the whole slot table. */
  method WriteSlots(buf: array<byte>, count: nat, lay: Layout)
    requires Fits(lay) && buf.Length == PAGE_SIZE && count <= lay.maxItem
    modifies buf
    ensures SlotsSet(buf[..], lay, lay.maxItem + 1) && Count(buf[..]) == count
  {
    hide Pos, Le, LeBytes, Count;
    Put(buf, 0, LeBytes(count, 2));
    CountSet(buf[..], lay, count);
    var slot := 0;
    while slot <= lay.maxItem
      invariant slot <= lay.maxItem + 1
      invariant SlotsSet(buf[..], lay, slot) && Count(buf[..]) == count
    {
      ghost var before := buf[..];
      PosApart(lay, slot, lay.maxItem + 1);
      Put(buf, 2 + 2 * slot, LeBytes(Pos(lay, slot), 2));
      SlotStep(before, buf[..], lay, slot);
      slot := slot + 1;
    }
  }

  /** Writes a node in canonical slot order. Too many items or a key of the wrong width is an error. */
  method WritePage(items: seq<Item>, right: nat, lay: Layout) returns (ok: bool, buf: array<byte>)
    requires Fits(lay)
    ensures fresh(buf)
    ensures ok <==> |items| <= lay.maxItem && forall j :: 0 <= j < |items| ==> |items[j].entry.key| == lay.keySize
    ensures ok ==> PageHolds(buf[..], lay, AllStored(items), right % TWO_32)
    ensures ok ==> SlotsSet(buf[..], lay, lay.maxItem + 1)
  {
    hide Pos, Le, LeBytes, SlotsSet, Count, PageHolds;
    buf := new byte[PAGE_SIZE](_ => 0);
    if |items| > lay.maxItem {
      return false, buf;
    }
    WriteSlots(buf, |items|, lay);
    assert ItemsSet(buf[..], lay, items, 0);
    var i := 0;
    while i < |items|
      invariant i <= |items|
      invariant SlotsSet(buf[..], lay, lay.maxItem + 1) && Count(buf[..]) == |items|
      invariant ItemsSet(buf[..], lay, items, i)
      invariant forall j :: 0 <= j < i ==> |items[j].entry.key| == lay.keySize
    {
      ok := PutItem(buf, items, i, lay);
      if !ok {
        return;
      }
      i := i + 1;
    }
    ghost var before := buf[..];
    PosApart(lay, i, lay.maxItem + 1);
    Put(buf, Pos(lay, i), LeBytes(right, 4));
    ItemPut(before, buf[..], lay, items, i, LeBytes(right, 4));
    Finished(buf[..], lay, items, right);
    ok := true;
  }

  lemma CountSet(raw: seq<byte>, lay: Layout, n: nat)
    requires |raw| == PAGE_SIZE && Fits(lay) && n <= lay.maxItem && raw[0..2] == LeBytes(n, 2)
    ensures Count(raw) == n
  {
    Le2(n);
  }

  /** One item, field by field; the key is only looked at after the numbers are written. */
  method PutItem(buf: array<byte>, items: seq<Item>, i: nat, lay: Layout) returns (ok: bool)
    requires Fits(lay) && buf.Length == PAGE_SIZE && i < |items| <= lay.maxItem
    requires SlotsSet(buf[..], lay, lay.maxItem + 1) && ItemsSet(buf[..], lay, items, i)
    modifies buf
    ensures ok <==> |items[i].entry.key| == lay.keySize
    ensures Count(buf[..]) == old(Count(buf[..]))
    ensures SlotsSet(buf[..], lay, lay.maxItem + 1)
    ensures ItemsSet(buf[..], lay, items, if ok then i + 1 else i)
  {
    hide Pos, Le, LeBytes, SlotsSet, ItemsSet;
    ghost var before := buf[..];
    PosApart(lay, i, lay.maxItem + 1);
    var p, x := Pos(lay, i), items[i];
    Put(buf, p, LeBytes(x.child, 4));
    Put(buf, p + 4, LeBytes(x.entry.recno, 4));
    SpliceTwice(before, p, LeBytes(x.child, 4), LeBytes(x.entry.recno, 4));
    ok := |x.entry.key| == lay.keySize;
    ghost var written := LeBytes(x.child, 4) + LeBytes(x.entry.recno, 4);
    if ok {
      Put(buf, p + 8, x.entry.key);
      SpliceTwice(before, p, written, x.entry.key);
      written := written + x.entry.key;
    }
    ItemPut(before, buf[..], lay, items, i, written);
    if ok {
      ItemIn(before, buf[..], lay, items, i);
    }
  }

  lemma ItemIn(raw: seq<byte>, raw2: seq<byte>, lay: Layout, items: seq<Item>, i: nat)
    requires |raw| == PAGE_SIZE && Fits(lay) && i < |items| <= lay.maxItem && |ItemBytes(items[i])| == ItemSize(lay)
    requires Pos(lay, i) <= PAGE_SIZE && raw2 == Splice(raw, Pos(lay, i), ItemBytes(items[i])) && |raw2| == PAGE_SIZE
    requires ItemsSet(raw2, lay, items, i)
    ensures ItemsSet(raw2, lay, items, i + 1)
  {
    hide Pos, LeBytes, ItemBytes;
    PosApart(lay, i, lay.maxItem + 1);
    SpliceWithin(raw, Pos(lay, i), ItemBytes(items[i]), 0, ItemSize(lay));
  }

  // ---------------------------------------------------------------- the two together

  /** Reading back what was written gives the same node, exactly when its numbers fit their fields. */
  method RoundTrip(items: seq<Item>, right: nat, lay: Layout) returns (d: Option<Decoded>)
    requires Fits(lay) && |items| <= lay.maxItem
    requires forall j :: 0 <= j < |items| ==> |items[j].entry.key| == lay.keySize
    ensures d.Some? && (d.value.items == items && d.value.right == right <==> Small(items, right))
    ensures Small(items, right) ==> d.value.leaf == ChildFree(items, right)
  {
    hide Pos, Le, LeBytes;
    var ok, buf := WritePage(items, right, lay);
    d := ReadPage(buf[..], lay);
    StoredIsSame(items, right);
    if d.Some? {
      DecodingIsUnique(buf[..], lay, AllStored(items), right % TWO_32, d.value.items, d.value.right);
    }
  }

  /** A stored page of an index tells, from its child pointers alone, whether it is a leaf. */
  lemma LeafStatus(raw: seq<byte>, lay: Layout, t: Tree, items: seq<Item>, right: nat, d: Decoded)
    requires Image(items, right, t) && Small(items, right) && PageHolds(raw, lay, AllStored(items), right % TWO_32)
    requires PageHolds(raw, lay, d.items, d.right) && d.leaf == ChildFree(d.items, d.right)
    ensures d.items == items && d.right == right && (d.leaf <==> t.IsLeaf())
  {
    StoredIsSame(items, right);
    DecodingIsUnique(raw, lay, items, right, d.items, d.right);
    LeafByImage(items, right, t);
  }

  /** A free page keeps the offset of the next one in its first four bytes. */
  method WriteFree(next: nat) returns (buf: array<byte>)
    ensures fresh(buf) && buf.Length == PAGE_SIZE && Le(buf[..4]) == next % TWO_32
    ensures next % 0x1_0000_0000
      == buf[0] + 0x100 * (buf[1] as int) + 0x1_0000 * (buf[2] as int) + 0x100_0000 * (buf[3] as int)
  {
    buf := new byte[PAGE_SIZE](_ => 0);
    Put(buf, 0, LeBytes(next, 4));
    assert buf[..4] == buf[..][0..4] == LeBytes(next, 4);
    Le4(next);
    LeFour(buf[..4]);
  }
}
