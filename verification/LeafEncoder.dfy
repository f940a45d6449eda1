/** The leaf encoder, and the round trip through both decoders. */
module LeafEncoder {
  import opened Entries
  import opened Bytes
  import opened CompactLeaf

  const WIDTH := 3

  // ---------------------------------------------------------------- compression of one key

  /** The number of leading bytes two keys share. */
  function Shared(a: seq<byte>, b: seq<byte>): (n: nat)
    ensures n <= |a| && n <= |b| && a[..n] == b[..n]
    ensures n < |a| && n < |b| ==> a[n] != b[n]
  {
    if a == [] || b == [] || a[0] != b[0] then 0 else 1 + Shared(a[1..], b[1..])
  }

  method SharedPrefix(a: seq<byte>, b: seq<byte>) returns (n: nat)
    ensures n == Shared(a, b)
  {
    n := 0;
    var m := if |b| < |a| then |b| else |a|;
    while n < m
      invariant n <= m && a[..n] == b[..n]
    {
      if a[n] != b[n] {
        SharedIs(a, b, n);
        return;
      }
      n := n + 1;
    }
    SharedIs(a, b, n);
  }

  lemma SharedIs(a: seq<byte>, b: seq<byte>, n: nat)
    requires n <= |a| && n <= |b| && a[..n] == b[..n] && (n < |a| && n < |b| ==> a[n] != b[n])
    ensures n == Shared(a, b)
  {
    var s := Shared(a, b);
    assert forall k :: 0 <= k < n ==> a[..n][k] == b[..n][k] && a[k] == b[k];
    assert forall k :: 0 <= k < s ==> a[..s][k] == b[..s][k] && a[k] == b[k];
  }

  /** The number of trailing blanks. */
  function Trailing(k: seq<byte>): (n: nat)
    ensures n <= |k| && k[|k| - n..] == Blanks(n)
  {
    if k == [] || k[|k| - 1] != BLANK then 0
    else
      var n := 1 + Trailing(k[..|k| - 1]);
      assert k[|k| - n..] == k[..|k| - 1][|k| - n..] + [BLANK];
      n
  }

  /** They are blanks, and in front of them is none. */
  lemma {:induction false} TrailingIsAll(k: seq<byte>)
    ensures forall i :: |k| - Trailing(k) <= i < |k| ==> k[i] == 0x20
    ensures Trailing(k) < |k| ==> k[|k| - Trailing(k) - 1] != 0x20
  {
    if k != [] && k[|k| - 1] == BLANK {
      TrailingIsAll(k[..|k| - 1]);
    }
  }

  method TrailingSpaces(k: seq<byte>) returns (n: nat)
    ensures n == Trailing(k)
  {
    n := 0;
    var i := |k|;
    assert k[..i] == k;
    while i > 0 && k[i - 1] == BLANK
      invariant 0 <= i <= |k| && n + i == |k| && n + Trailing(k[..i]) == Trailing(k)
    {
      assert k[..i][..i - 1] == k[..i - 1];
      i := i - 1;
      n := n + 1;
    }
  }

  /** The key before entry i; before the first there is none. */
  function Before(entries: seq<Entry>, i: nat): seq<byte>
    requires i <= |entries|
  {
    if i == 0 then [] else entries[i - 1].key
  }

  function Dup(entries: seq<Entry>, i: nat): nat
    requires i < |entries|
  {
    Shared(Before(entries, i), entries[i].key)
  }

  /** Trailing blanks, clipped to what the shared prefix leaves. */
  function Trail(entries: seq<Entry>, i: nat): (n: nat)
    requires i < |entries|
    ensures Dup(entries, i) + n <= |entries[i].key|
  {
    var key := entries[i].key;
    if Dup(entries, i) + Trailing(key) > |key| then |key| - Dup(entries, i) else Trailing(key)
  }

  /** The bytes of key i that are stored. */
  function Chunk(entries: seq<Entry>, i: nat): (c: seq<byte>)
    requires i < |entries|
    ensures |c| == |entries[i].key| - Dup(entries, i) - Trail(entries, i)
  {
    var key := entries[i].key;
    key[Dup(entries, i)..|key| - Trail(entries, i)]
  }

  /** A key is its shared prefix, its chunk and its blanks. */
  lemma KeyRebuilt(entries: seq<Entry>, i: nat, prev: seq<byte>)
    requires i < |entries| && |prev| >= Dup(entries, i) && (i > 0 ==> prev == Before(entries, i))
    ensures prev[..Dup(entries, i)] + Chunk(entries, i) + Blanks(Trail(entries, i)) == entries[i].key
  {
    hide Shared, Trailing;
    var key, d, t := entries[i].key, Dup(entries, i), Trail(entries, i);
    assert key == key[..d] + key[d..|key| - t] + key[|key| - t..];
    var all := Trailing(key);
    assert key[|key| - t..] == key[|key| - all..][all - t..];
    assert Blanks(all)[all - t..] == Blanks(t);
  }

  function Packed(entries: seq<Entry>, i: nat): nat
    requires i < |entries|
  {
    entries[i].recno + Dup(entries, i) * 0x1_0000 + Trail(entries, i) * 0x10_0000
  }

  // ---------------------------------------------------------------- layout

  /** Where the text of entry i ends, counted back from the end of the page. */
  function TextEnd(entries: seq<Entry>, i: nat): int
    requires i <= |entries|
  {
    if i == 0 then BLOCK_SIZE else TextEnd(entries, i - 1) - |Chunk(entries, i - 1)|
  }

  lemma {:induction false} TextShrinks(entries: seq<Entry>, i: nat, j: nat)
    requires i <= j <= |entries|
    ensures TextEnd(entries, j) <= TextEnd(entries, i)
  {
    hide Dup, Trail, Chunk;
    if i < j {
      TextShrinks(entries, i, j - 1);
    }
  }

  ghost predicate KeysOf(entries: seq<Entry>, keyLen: nat) {
    forall i :: 0 <= i < |entries| ==> |entries[i].key| == keyLen
  }

  /** What one leaf can hold: short keys, small record numbers, and text that stays clear of the entries. */
  ghost predicate FitsLeaf(entries: seq<Entry>, keyLen: nat) {
    && 1 <= keyLen <= MAX_KEY && START + WIDTH * |entries| <= BLOCK_SIZE
    && (forall i :: 0 <= i < |entries| ==> entries[i].recno <= MAX_RECNO)
    && TextEnd(entries, |entries|) >= START + WIDTH * |entries|
  }

  /** A list fits a leaf if its keys have 1 to 15 bytes, its record numbers 16 bits, and the text of the keys and
      three bytes for each entry leave the header alone. */
  lemma FitsMeans(entries: seq<Entry>, keyLen: nat)
    ensures FitsLeaf(entries, keyLen) <==>
      && 1 <= keyLen <= 15 && (forall i :: 0 <= i < |entries| ==> entries[i].recno <= 0xFFFF)
      && 24 + 3 * |entries| + TextSize(entries, |entries|) <= 512
  {
    TextSizeIs(entries, |entries|);
  }

  /** The bytes of n keys that neither repeat the key before nor are blanks at the end. */
  function TextSize(entries: seq<Entry>, n: nat): nat
    requires n <= |entries|
  {
    if n == 0 then 0 else TextSize(entries, n - 1) + |Chunk(entries, n - 1)|
  }

  lemma TextBegins(entries: seq<Entry>)
    ensures TextEnd(entries, 0) == 512 && TextSize(entries, 0) == 0
  {
  }

  lemma TextGrows(entries: seq<Entry>, n: nat)
    requires 0 < n <= |entries|
    ensures TextEnd(entries, n) == TextEnd(entries, n - 1) - |Chunk(entries, n - 1)|
    ensures TextSize(entries, n) == TextSize(entries, n - 1) + |Chunk(entries, n - 1)|
  {
  }

  lemma {:induction false} TextSizeIs(entries: seq<Entry>, n: nat)
    requires n <= |entries|
    ensures TextEnd(entries, n) + TextSize(entries, n) == 512
  {
    hide *;
    if n == 0 {
      TextBegins(entries);
    } else {
      TextSizeIs(entries, n - 1);
      TextGrows(entries, n);
    }
  }

  /** The fixed header for n keys. */
  ghost predicate HeaderSet(raw: seq<byte>, n: nat) {
    && |raw| == BLOCK_SIZE && KeyCount(raw) == n
    && PackingOf(raw) == Packing(0xFFFF, 0xF, 0xF, 16, 4, 4, WIDTH)
  }

  /** The first n entries stand in the page, packed triple and text. */
  ghost predicate Placed(raw: seq<byte>, entries: seq<Entry>, n: nat) {
    && |raw| == BLOCK_SIZE && n <= |entries| && START + WIDTH * |entries| <= BLOCK_SIZE
    && forall i :: 0 <= i < n ==> IsPlaced(raw, entries, i)
  }

  ghost predicate IsPlaced(raw: seq<byte>, entries: seq<Entry>, i: nat)
    requires |raw| == BLOCK_SIZE && i < |entries| && START + WIDTH * |entries| <= BLOCK_SIZE
  {
    && START + WIDTH * |entries| <= TextEnd(entries, i + 1) <= TextEnd(entries, i) <= BLOCK_SIZE
    && raw[START + WIDTH * i..START + WIDTH * i + WIDTH] == LeBytes(Packed(entries, i), WIDTH)
    && raw[TextEnd(entries, i + 1)..TextEnd(entries, i)] == Chunk(entries, i)
  }

  // ---------------------------------------------------------------- reading back

  lemma UnpackPacked(recno: nat, dup: nat, trail: nat)
    requires recno <= MAX_RECNO && dup <= 15 && trail <= 15
    ensures var packed := recno + dup * 0x1_0000 + trail * 0x10_0000;
      && packed < 0x100_0000
      && Unpack(Packing(0xFFFF, 0xF, 0xF, 16, 4, 4, WIDTH), packed) == Triple(recno, dup, trail)
  {
    hide And, Shift, Pow2;
    var packed := recno + dup * 0x1_0000 + trail * 0x10_0000;
    PackedParts(recno, dup, trail);
    Powers();
    AndOnes(packed, 16);
    ShiftDivides(packed, 16);
    ShiftDivides(packed, 20);
    AndOnes(packed / 0x1_0000, 4);
    AndOnes(packed / 0x10_0000, 4);
  }

  lemma PackedParts(recno: nat, dup: nat, trail: nat)
    requires recno <= MAX_RECNO && dup <= 15 && trail <= 15
    ensures var packed := recno + dup * 0x1_0000 + trail * 0x10_0000;
      && packed % 0x1_0000 == recno && packed / 0x1_0000 % 16 == dup && packed / 0x10_0000 % 16 == trail
  {
    var packed := recno + dup * 0x1_0000 + trail * 0x10_0000;
    DivModUnique(packed, 0x1_0000, dup + 16 * trail, recno);
    DivModUnique(packed, 0x10_0000, trail, recno + dup * 0x1_0000);
    DivModUnique(dup + 16 * trail, 16, trail, dup);
  }

  lemma Powers()
    ensures Pow2(4) == 16 && Pow2(16) == 0x1_0000 && Pow2(20) == 0x10_0000
  {
    assert Pow2(8) == 16 * Pow2(4);
    assert Pow2(12) == 16 * Pow2(8);
    assert Pow2(16) == 16 * Pow2(12);
    assert Pow2(20) == 16 * Pow2(16);
  }

  lemma TripleBack(raw: seq<byte>, entries: seq<Entry>, keyLen: nat, i: nat)
    requires HeaderSet(raw, |entries|) && FitsLeaf(entries, keyLen) && KeysOf(entries, keyLen)
    requires i < |entries| && IsPlaced(raw, entries, i)
    ensures HasRoom(raw, PackingOf(raw), |entries|)
    ensures TripleAt(raw, PackingOf(raw), i, |entries|) == Triple(entries[i].recno, Dup(entries, i), Trail(entries, i))
  {
    hide Unpack, Le, LeBytes, Dup, Trail, Chunk, TextEnd;
    UnpackPacked(entries[i].recno, Dup(entries, i), Trail(entries, i));
    LeRoundTrip(Packed(entries, i), WIDTH);
    SpanFacts();
    SmallMod(Packed(entries, i), 0x100_0000);
  }

  lemma SmallMod(v: nat, m: nat)
    requires v < m
    ensures v % m == v
  {
    DivModUnique(v, m, 0, v);
  }

  /** What EntriesFrom reads for one placed entry. */
  lemma OneBack(raw: seq<byte>, entries: seq<Entry>, keyLen: nat, i: nat, prev: seq<byte>, floor: nat)
    requires HeaderSet(raw, |entries|) && FitsLeaf(entries, keyLen) && KeysOf(entries, keyLen) && i < |entries|
    requires IsPlaced(raw, entries, i) && floor <= START + WIDTH * |entries|
    requires |prev| == keyLen && (i > 0 ==> prev == Before(entries, i))
    ensures HasRoom(raw, PackingOf(raw), |entries|)
    ensures 0 <= TextEnd(entries, i + 1) <= BLOCK_SIZE && 0 <= TextEnd(entries, i) <= BLOCK_SIZE
    ensures |entries[i].key| == keyLen
    ensures var rest := EntriesFrom(raw, PackingOf(raw), keyLen, |entries|, i + 1, TextEnd(entries, i + 1),
      entries[i].key, floor);
      EntriesFrom(raw, PackingOf(raw), keyLen, |entries|, i, TextEnd(entries, i), prev, floor)
        == if rest.None? then None else Some([entries[i]] + rest.value)
  {
    hide TripleAt, Le, LeBytes, Dup, Trail, Chunk, HeaderSet, KeysOf, Before, Packed;
    KeyAt(entries, keyLen, i);
    TripleBack(raw, entries, keyLen, i);
    KeyRebuilt(entries, i, prev);
    assert TextEnd(entries, i) - (keyLen - Dup(entries, i) - Trail(entries, i)) == TextEnd(entries, i + 1);
  }

  lemma KeyAt(entries: seq<Entry>, keyLen: nat, i: nat)
    requires KeysOf(entries, keyLen) && i < |entries|
    ensures |entries[i].key| == keyLen
  {
  }

  lemma {:induction false} EntriesBack(raw: seq<byte>, entries: seq<Entry>, keyLen: nat, i: nat, prev: seq<byte>,
                                       floor: nat)
    requires HeaderSet(raw, |entries|) && FitsLeaf(entries, keyLen) && KeysOf(entries, keyLen) && i <= |entries|
    requires Placed(raw, entries, |entries|) && floor <= START + WIDTH * |entries|
    requires |prev| == keyLen && (i > 0 ==> prev == Before(entries, i))
    ensures HasRoom(raw, PackingOf(raw), |entries|) && 0 <= TextEnd(entries, i) <= BLOCK_SIZE
    ensures EntriesFrom(raw, PackingOf(raw), keyLen, |entries|, i, TextEnd(entries, i), prev, floor)
      == Some(entries[i..])
    decreases |entries| - i
  {
    hide IsPlaced, TripleAt, KeysOf, TextEnd;
    if i < |entries| {
      OneBack(raw, entries, keyLen, i, prev, floor);
      EntriesBack(raw, entries, keyLen, i + 1, entries[i].key, floor);
      assert entries[i..] == [entries[i]] + entries[i + 1..];
    } else {
      TextShrinks(entries, 0, i);
      TextStart(entries);
      assert entries[i..] == [];
    }
  }

  lemma TextStart(entries: seq<Entry>)
    ensures TextEnd(entries, 0) == BLOCK_SIZE
  {
  }

  /** Both decoders give back what was encoded. */
  lemma LeafRoundTrip(raw: seq<byte>, entries: seq<Entry>, keyLen: nat, strict: bool)
    requires HeaderSet(raw, |entries|) && FitsLeaf(entries, keyLen) && KeysOf(entries, keyLen)
    requires Placed(raw, entries, |entries|)
    ensures LeafEntries(raw, keyLen, strict) == Some(entries)
  {
    hide IsPlaced, TripleAt, KeysOf, EntriesFrom, TextEnd, Le;
    TextStart(entries);
    EntriesBack(raw, entries, keyLen, 0, Zeros(keyLen), if strict then START + WIDTH * |entries| else 0);
    assert entries[0..] == entries;
  }

  // ---------------------------------------------------------------- writing

  /** The part of the header the decoders look at. */
  lemma HeaderKept(raw: seq<byte>, raw2: seq<byte>, n: nat)
    requires HeaderSet(raw, n) && |raw2| == BLOCK_SIZE
    requires raw2[2..4] == raw[2..4] && raw2[14..24] == raw[14..24]
    ensures HeaderSet(raw2, n)
  {
    assert raw2[14..18] == raw2[14..24][..4] && raw[14..18] == raw[14..24][..4];
    assert forall k :: 0 <= k < 10 ==> raw2[14..24][k] == raw[14..24][k] && raw2[14 + k] == raw[14 + k];
  }

  /** Writing behind the header keeps it. */
  lemma HeaderApart(raw: seq<byte>, n: nat, at: nat, b: seq<byte>)
    requires HeaderSet(raw, n) && START <= at && at + |b| <= BLOCK_SIZE
    ensures HeaderSet(Splice(raw, at, b), n)
  {
    SpliceApart(raw, at, b, 2, 2);
    SpliceApart(raw, at, b, 14, 10);
    HeaderKept(raw, Splice(raw, at, b), n);
  }

  /** The page after entry i was written: first its text, then its triple. */
  ghost predicate EntryWritten(raw: seq<byte>, text: seq<byte>, now: seq<byte>, entries: seq<Entry>, i: nat)
  {
    && |raw| == BLOCK_SIZE && i < |entries| && START + WIDTH * |entries| <= TextEnd(entries, i + 1) <= BLOCK_SIZE
    && text == Splice(raw, TextEnd(entries, i + 1), Chunk(entries, i)) && |text| == BLOCK_SIZE
    && now == Splice(text, START + WIDTH * i, LeBytes(Packed(entries, i), WIDTH)) && |now| == BLOCK_SIZE
  }

  lemma PlaceNew(raw: seq<byte>, text: seq<byte>, now: seq<byte>, entries: seq<Entry>, i: nat)
    requires EntryWritten(raw, text, now, entries, i) && TextEnd(entries, i) <= BLOCK_SIZE
    ensures IsPlaced(now, entries, i)
  {
    hide Chunk, LeBytes, Packed;
    ChunkEnds(entries, i);
    SpliceApart(text, START + WIDTH * i, LeBytes(Packed(entries, i), WIDTH), TextEnd(entries, i + 1),
      |Chunk(entries, i)|);
  }

  lemma PlaceOld(raw: seq<byte>, text: seq<byte>, now: seq<byte>, entries: seq<Entry>, i: nat, k: nat)
    requires EntryWritten(raw, text, now, entries, i) && k < i && IsPlaced(raw, entries, k)
    ensures IsPlaced(now, entries, k)
  {
    hide Chunk, LeBytes, Packed, Splice, IsPlaced, TextEnd;
    TextShrinks(entries, k + 1, i);
    ChunkEnds(entries, i);
    PlacedKept(raw, text, entries, k, TextEnd(entries, i + 1), Chunk(entries, i));
    PlacedKept(text, now, entries, k, START + WIDTH * i, LeBytes(Packed(entries, i), WIDTH));
  }

  /** Entries placed before stay when the next one is written. */
  lemma PlaceNext(raw: seq<byte>, text: seq<byte>, now: seq<byte>, entries: seq<Entry>, i: nat)
    requires EntryWritten(raw, text, now, entries, i) && Placed(raw, entries, i) && HeaderSet(raw, |entries|)
    ensures Placed(now, entries, i + 1) && HeaderSet(now, |entries|)
  {
    hide Chunk, Packed, LeBytes, IsPlaced, HeaderSet, TextEnd;
    TextShrinks(entries, 0, i);
    TextStart(entries);
    ChunkEnds(entries, i);
    HeaderApart(raw, |entries|, TextEnd(entries, i + 1), Chunk(entries, i));
    HeaderApart(text, |entries|, START + WIDTH * i, LeBytes(Packed(entries, i), WIDTH));
    forall k | 0 <= k < i ensures IsPlaced(now, entries, k) {
      PlaceOld(raw, text, now, entries, i, k);
    }
    PlaceNew(raw, text, now, entries, i);
  }

  lemma ChunkEnds(entries: seq<Entry>, i: nat)
    requires i < |entries|
    ensures TextEnd(entries, i + 1) + |Chunk(entries, i)| == TextEnd(entries, i)
  {
  }

  lemma PlacedKept(raw: seq<byte>, raw2: seq<byte>, entries: seq<Entry>, k: nat, at: nat, b: seq<byte>)
    requires |raw| == BLOCK_SIZE && k < |entries| && START + WIDTH * |entries| <= BLOCK_SIZE
    requires IsPlaced(raw, entries, k)
    requires at + |b| <= BLOCK_SIZE && raw2 == Splice(raw, at, b)
    requires at >= START + WIDTH * k + WIDTH && at + |b| <= TextEnd(entries, k + 1)
    ensures |raw2| == BLOCK_SIZE && IsPlaced(raw2, entries, k)
  {
    hide Chunk, LeBytes, Packed, TextEnd;
    SpliceApart(raw, at, b, START + WIDTH * k, WIDTH);
    SpliceApart(raw, at, b, TextEnd(entries, k + 1), TextEnd(entries, k) - TextEnd(entries, k + 1));
  }

  method WriteHeader(block: array<byte>, n: nat)
    requires block.Length == BLOCK_SIZE
    modifies block
    ensures n < 65536 ==> HeaderSet(block[..], n)
  {
    hide LeBytes;
    Put(block, 0, LeBytes(0x03, 2) + LeBytes(n, 2) + LeBytes(0xFFFF_FFFF, 4) + LeBytes(0xFFFF_FFFF, 4));
    ghost var first := block[..];
    Put(block, 14, LeBytes(0xFFFF, 4) + [0xF, 0xF, 16, 4, 4, WIDTH]);
    if n < 65536 {
      HeaderBytes(first, block[..], n);
    }
  }

  lemma HeaderBytes(first: seq<byte>, raw: seq<byte>, n: nat)
    requires |first| == BLOCK_SIZE && n < 65536
    requires first[0..12] == LeBytes(0x03, 2) + LeBytes(n, 2) + LeBytes(0xFFFF_FFFF, 4) + LeBytes(0xFFFF_FFFF, 4)
    requires raw == Splice(first, 14, LeBytes(0xFFFF, 4) + [0xF, 0xF, 16, 4, 4, WIDTH])
    ensures HeaderSet(raw, n)
  {
    hide LeBytes, Le;
    Le2(n);
    Le4(0xFFFF);
    var h := first[0..12];
    SpliceApart(first, 14, LeBytes(0xFFFF, 4) + [0xF, 0xF, 16, 4, 4, WIDTH], 2, 2);
    assert raw[2..4] == first[2..4] == h[2..4] == LeBytes(n, 2);
    var t := raw[14..24];
    assert t == LeBytes(0xFFFF, 4) + [0xF, 0xF, 16, 4, 4, WIDTH];
    assert raw[14..18] == t[..4] == LeBytes(0xFFFF, 4);
    assert raw[18] == t[4] && raw[19] == t[5] && raw[20] == t[6] && raw[21] == t[7] && raw[22] == t[8]
      && raw[23] == t[9];
  }

  /** Encodes entries into one page, in place. Exactly the lists that fit a leaf are accepted, and
      both decoders give them back. */
  method WriteLeaf(block: array<byte>, entries: seq<Entry>, keyLen: nat) returns (ok: bool)
    requires KeysOf(entries, keyLen)
    modifies block
    ensures ok <==> block.Length == BLOCK_SIZE && FitsLeaf(entries, keyLen)
    ensures ok ==>
      LeafEntries(block[..], keyLen, true) == Some(entries) && LeafEntries(block[..], keyLen, false) == Some(entries)
    ensures ok ==> Le(block[..][12..14]) == TextEnd(entries, |entries|) - (START + WIDTH * |entries|)
    ensures !(1 <= keyLen <= MAX_KEY) ==> block[..] == old(block[..])
  {
    hide HeaderSet, Placed, LeafEntries, Chunk, Packed, KeysOf, Dup, Trail, Le, LeBytes, TextEnd, Shared, Trailing;
    if block.Length != BLOCK_SIZE || keyLen == 0 || keyLen > MAX_KEY {
      return false;
    }
    Put(block, 0, Zeros(BLOCK_SIZE));
    WriteHeader(block, |entries|);
    var entriesEnd := START + |entries| * WIDTH;
    if entriesEnd > BLOCK_SIZE {
      return false;
    }
    var keyEnd: int, prev: seq<byte>, i := BLOCK_SIZE, [], 0;
    TextStart(entries);
    NothingPlaced(block[..], entries);
    while i < |entries|
      invariant i <= |entries| && keyEnd == TextEnd(entries, i) && prev == Before(entries, i)
      invariant entriesEnd <= keyEnd <= BLOCK_SIZE
      invariant forall k :: 0 <= k < i ==> entries[k].recno <= MAX_RECNO
      invariant HeaderSet(block[..], |entries|) && Placed(block[..], entries, i)
    {
      TextShrinks(entries, i + 1, |entries|);
      KeyAt(entries, keyLen, i);
      ok, keyEnd := PutEntry(block, entries, keyLen, i, prev, keyEnd);
      if !ok {
        return;
      }
      prev, i := entries[i].key, i + 1;
    }
    var free := keyEnd - entriesEnd;
    ghost var raw := block[..];
    Put(block, 12, LeBytes(free, 2));
    FreeSet(raw, block[..], entries, free);
    LeafRoundTrip(block[..], entries, keyLen, true);
    LeafRoundTrip(block[..], entries, keyLen, false);
    ok := true;
  }

  /** Writes one entry: its text in front of the text before it, its triple in the entry area. */
  method PutEntry(block: array<byte>, entries: seq<Entry>, keyLen: nat, i: nat, prev: seq<byte>, keyEnd: nat)
    returns (ok: bool, chunkStart: int)
    requires block.Length == BLOCK_SIZE && i < |entries| && |entries[i].key| == keyLen
    requires START + WIDTH * |entries| <= keyEnd <= BLOCK_SIZE
    requires keyEnd == TextEnd(entries, i) && prev == Before(entries, i)
    requires HeaderSet(block[..], |entries|) && Placed(block[..], entries, i)
    modifies block
    ensures ok <==> entries[i].recno <= MAX_RECNO && TextEnd(entries, i + 1) >= START + WIDTH * |entries|
    ensures ok ==> chunkStart == TextEnd(entries, i + 1) <= keyEnd
    ensures ok ==> HeaderSet(block[..], |entries|) && Placed(block[..], entries, i + 1)
  {
    hide HeaderSet, Placed, Chunk, Packed, Dup, Trail, Le, LeBytes, TextEnd, Shared, Trailing, Before, Splice;
    var e := entries[i];
    chunkStart := keyEnd;
    if e.recno > MAX_RECNO {
      return false, chunkStart;
    }
    var dup := SharedPrefix(prev, e.key);
    var trail := TrailingSpaces(e.key);
    if dup + trail > keyLen {
      trail := keyLen - dup;
    }
    CompressionOf(entries, i, dup, trail);
    ChunkEnds(entries, i);
    var chunkLen := keyLen - dup - trail;
    chunkStart := keyEnd - chunkLen;
    if chunkStart < START + |entries| * WIDTH {
      return false, chunkStart;
    }
    ghost var raw := block[..];
    var chunk := e.key[dup..dup + chunkLen];
    assert chunk == Chunk(entries, i) && chunkStart == TextEnd(entries, i + 1);
    Put(block, chunkStart, chunk);
    ghost var text := block[..];
    var packed := e.recno + dup * 0x1_0000 + trail * 0x10_0000;
    Put(block, START + i * WIDTH, LeBytes(packed, WIDTH));
    PlaceNext(raw, text, block[..], entries, i);
    ok := true;
  }

  /** What the encoder computes for one key is what the layout says. */
  lemma CompressionOf(entries: seq<Entry>, i: nat, dup: nat, trail: nat)
    requires i < |entries| && dup == Shared(Before(entries, i), entries[i].key)
    requires var t := Trailing(entries[i].key);
      trail == if dup + t > |entries[i].key| then |entries[i].key| - dup else t
    ensures dup == Dup(entries, i) && trail == Trail(entries, i)
    ensures Chunk(entries, i) == entries[i].key[dup..dup + (|entries[i].key| - dup - trail)]
    ensures |Chunk(entries, i)| == |entries[i].key| - dup - trail
    ensures Packed(entries, i) == entries[i].recno + dup * 0x1_0000 + trail * 0x10_0000
  {
  }

  lemma NothingPlaced(raw: seq<byte>, entries: seq<Entry>)
    requires |raw| == BLOCK_SIZE && START + WIDTH * |entries| <= BLOCK_SIZE
    ensures Placed(raw, entries, 0)
  {
  }

  lemma FreeSet(raw: seq<byte>, raw2: seq<byte>, entries: seq<Entry>, free: nat)
    requires HeaderSet(raw, |entries|) && Placed(raw, entries, |entries|) && free < 65536
    requires raw2 == Splice(raw, 12, LeBytes(free, 2))
    ensures HeaderSet(raw2, |entries|) && Placed(raw2, entries, |entries|) && Le(raw2[12..14]) == free
  {
    hide Chunk, Packed, TextEnd, LeBytes, Le;
    var b := LeBytes(free, 2);
    Le2(free);
    SpliceApart(raw, 12, b, 2, 2);
    SpliceApart(raw, 12, b, 14, 10);
    HeaderKept(raw, raw2, |entries|);
    forall k | 0 <= k < |entries| ensures IsPlaced(raw2, entries, k) {
      assert IsPlaced(raw, entries, k);
      SpliceApart(raw, 12, b, START + WIDTH * k, WIDTH);
      SpliceApart(raw, 12, b, TextEnd(entries, k + 1), TextEnd(entries, k) - TextEnd(entries, k + 1));
    }
  }
}
