/** The compact leaf page that CDX and IDX files share: bit-packed triples growing forward, key text
    growing backward, keys compressed against their predecessor and against trailing blanks. */
module CompactLeaf {
  import opened Entries
  import opened Bytes

  const BLOCK_SIZE := 512
  const START := 24
  const MAX_RECNO := 0xFFFF
  const MAX_KEY := 15
  const BLANK: byte := 0x20

  // ---------------------------------------------------------------- bit fields of natural numbers

  function Pow2(k: nat): (r: nat)
    ensures r >= 1
  {
    if k == 0 then 1 else 2 * Pow2(k - 1)
  }

  /** Bitwise and. */
  function And(x: nat, mask: nat): nat
    decreases x
  {
    if x == 0 || mask == 0 then 0 else 2 * And(x / 2, mask / 2) + (x % 2) * (mask % 2)
  }

  /** Masking with k ones takes the remainder. */
  lemma {:induction false} AndOnes(x: nat, k: nat)
    ensures And(x, Pow2(k) - 1) == x % Pow2(k)
    decreases k
  {
    hide *;
    if k == 0 {
      AndNothing(x);
    } else {
      var p := Pow2(k - 1);
      PowStep(k);
      AndOnes(x / 2, k - 1);
      OddHalf(p);
      AndHalves(x, 2 * p - 1);
      HalfMod(x, p);
    }
  }

  lemma AndNothing(x: nat)
    ensures And(x, Pow2(0) - 1) == x % Pow2(0)
  {
  }

  lemma PowStep(k: nat)
    requires k > 0
    ensures Pow2(k) == 2 * Pow2(k - 1)
  {
  }

  lemma OddHalf(p: nat)
    requires p > 0
    ensures (2 * p - 1) / 2 == p - 1 && (2 * p - 1) % 2 == 1
  {
  }

  lemma AndHalves(x: nat, mask: nat)
    ensures And(x, mask) == 2 * And(x / 2, mask / 2) + (x % 2) * (mask % 2)
  {
  }

  /** Bit k of the result is set if it is set in both. */
  lemma {:induction false} AndBit(x: nat, mask: nat, k: nat)
    ensures And(x, mask) / Pow2(k) % 2 == (x / Pow2(k) % 2) * (mask / Pow2(k) % 2)
    decreases k
  {
    var a := And(x, mask);
    if x == 0 || mask == 0 {
      assert a == 0;
      ZeroDiv(Pow2(k));
    } else {
      assert a / 2 == And(x / 2, mask / 2) && a % 2 == (x % 2) * (mask % 2);
      if k > 0 {
        HalfMod(x, Pow2(k - 1));
        HalfMod(mask, Pow2(k - 1));
        HalfMod(a, Pow2(k - 1));
        AndBit(x / 2, mask / 2, k - 1);
      }
    }
  }

  lemma ZeroDiv(m: nat)
    requires m > 0
    ensures 0 / m == 0
  {
    DivModUnique(0, m, 0, 0);
  }

  lemma HalfMod(x: nat, p: nat)
    requires p > 0
    ensures x % (2 * p) == 2 * (x / 2 % p) + x % 2
    ensures x / (2 * p) == x / 2 / p
  {
    var q, r := x / 2 / p, x / 2 % p;
    assert x / 2 == q * p + r;
    assert x == q * (2 * p) + (2 * r + x % 2);
    DivModUnique(x, 2 * p, q, 2 * r + x % 2);
  }

  /** Bits shifted out to the right. */
  function Shift(x: nat, k: nat): nat {
    if k == 0 then x else Shift(x / 2, k - 1)
  }

  /** Shifting is dividing. */
  lemma {:induction false} ShiftDivides(x: nat, k: nat)
    ensures Shift(x, k) == x / Pow2(k)
    decreases k
  {
    if k > 0 {
      ShiftDivides(x / 2, k - 1);
      HalfMod(x, Pow2(k - 1));
    }
  }

  // ---------------------------------------------------------------- the fields of a page

  /** How entries are packed, as the page header declares it. */
  datatype Packing = Packing(recMask: nat, dupMask: nat, trailMask: nat, recBits: nat, dupBits: nat, trailBits: nat,
                             width: nat)

  function PackingOf(raw: seq<byte>): Packing
    requires |raw| == BLOCK_SIZE
  {
    Packing(Le(raw[14..18]), raw[18], raw[19], raw[20], raw[21], raw[22], raw[23])
  }

  predicate Usable(p: Packing) {
    0 < p.width <= 8 && p.recBits + p.dupBits + p.trailBits <= p.width * 8
  }

  function KeyCount(raw: seq<byte>): nat
    requires |raw| == BLOCK_SIZE
  {
    Le(raw[2..4])
  }

  datatype Triple = Triple(recno: nat, dup: nat, trail: nat)

  function Unpack(p: Packing, packed: nat): Triple {
    Triple(And(packed, p.recMask), And(Shift(packed, p.recBits), p.dupMask),
      And(Shift(packed, p.recBits + p.dupBits), p.trailMask))
  }

  /** Where the entry area of n entries ends. */
  function EntriesEnd(p: Packing, n: nat): nat {
    START + n * p.width
  }

  predicate HasRoom(raw: seq<byte>, p: Packing, n: nat) {
    |raw| == BLOCK_SIZE && EntriesEnd(p, n) <= BLOCK_SIZE
  }

  lemma EntryInside(p: Packing, i: nat, n: nat)
    requires i < n
    ensures EntriesEnd(p, i) + p.width <= EntriesEnd(p, n)
  {
    MulMonotone(i + 1, n, p.width);
    assert (i + 1) * p.width == i * p.width + p.width;
  }

  function TripleAt(raw: seq<byte>, p: Packing, i: nat, n: nat): Triple
    requires HasRoom(raw, p, n) && i < n
  {
    EntryInside(p, i, n);
    Unpack(p, Le(raw[EntriesEnd(p, i)..EntriesEnd(p, i) + p.width]))
  }

  // ---------------------------------------------------------------- what a page means

  /** Where a page says what: the number of entries in bytes 2 and 3, the mask of record numbers in bytes 14 to
      17, low byte first, those of repeated bytes and of blanks in 18 and 19, the widths of the three fields in
      20 to 22, and that of an entry in 23. */
  lemma HeaderMeans(raw: seq<byte>)
    requires |raw| == 512
    ensures KeyCount(raw) == raw[2] + 0x100 * (raw[3] as int)
    ensures PackingOf(raw) == Packing(
      raw[14] + 0x100 * (raw[15] as int) + 0x1_0000 * (raw[16] as int) + 0x100_0000 * (raw[17] as int),
      raw[18], raw[19], raw[20], raw[21], raw[22], raw[23])
    ensures Usable(PackingOf(raw)) <==> 0 < raw[23] <= 8 && (raw[20] as int) + raw[21] + raw[22] <= (raw[23] as int) * 8
  {
    hide Le;
    LeFour(raw[14..18]);
    LePair(raw[2..4]);
  }

  /** The entries follow one another from byte 24 on, each as long as the header says. */
  lemma EntriesFollow(raw: seq<byte>, p: Packing, i: nat, n: nat)
    requires HasRoom(raw, p, n) && i < n
    ensures EntriesEnd(p, i) == 24 + i * p.width && EntriesEnd(p, i) + p.width <= 512
    ensures TripleAt(raw, p, i, n) == Unpack(p, Le(raw[EntriesEnd(p, i)..EntriesEnd(p, i) + p.width]))
  {
    EntryInside(p, i, n);
  }

  /** The fields of an entry are cut out from its low end on. */
  lemma UnpackMeans(p: Packing, packed: nat, a: nat, b: nat)
    requires a == packed / Pow2(p.recBits) && b == packed / Pow2(p.recBits + p.dupBits)
    ensures Unpack(p, packed) == Triple(And(packed, p.recMask), And(a, p.dupMask), And(b, p.trailMask))
  {
    hide And, Shift;
    ShiftDivides(packed, p.recBits);
    ShiftDivides(packed, p.recBits + p.dupBits);
  }

  function Blanks(n: nat): (b: seq<byte>)
    ensures |b| == n && forall i :: 0 <= i < n ==> b[i] == BLANK
  {
    seq(n, _ => BLANK)
  }

  /** Entries i to n of a page, when the text of entry i ends at textEnd and the key before it is prev.
      Key text must not reach below floor. */
  function EntriesFrom(raw: seq<byte>, p: Packing, keyLen: nat, n: nat, i: nat, textEnd: nat, prev: seq<byte>,
                       floor: nat): Option<seq<Entry>>
    requires HasRoom(raw, p, n) && i <= n && textEnd <= BLOCK_SIZE && |prev| == keyLen
    decreases n - i
  {
    if i == n then Some([])
    else
      var t := TripleAt(raw, p, i, n);
      if t.dup + t.trail > keyLen || textEnd < floor + (keyLen - t.dup - t.trail) then None
      else
        var start := textEnd - (keyLen - t.dup - t.trail);
        var key := prev[..t.dup] + raw[start..textEnd] + Blanks(t.trail);
        match EntriesFrom(raw, p, keyLen, n, i + 1, start, key, floor)
        case None => None
        case Some(rest) => Some([Entry(key, t.recno)] + rest)
  }

  /** The entries of a leaf page, or None for a malformed one. The strict reading wants the key text
      clear of the entry area; the lax one only wants it inside the page. */
  function LeafEntries(raw: seq<byte>, keyLen: nat, strict: bool): Option<seq<Entry>>
    requires |raw| == BLOCK_SIZE
  {
    var p, n := PackingOf(raw), KeyCount(raw);
    if !Usable(p) || EntriesEnd(p, n) > BLOCK_SIZE then None
    else EntriesFrom(raw, p, keyLen, n, 0, BLOCK_SIZE, Zeros(keyLen), if strict then EntriesEnd(p, n) else 0)
  }

  /** The first key repeats bytes of a key of zeros, and the text of the keys ends where the page does. */
  lemma LeafMeans(raw: seq<byte>, keyLen: nat, strict: bool, zeros: seq<byte>)
    requires |raw| == 512 && |zeros| == keyLen && forall k :: 0 <= k < keyLen ==> zeros[k] == 0
    ensures var p, n := PackingOf(raw), KeyCount(raw);
      LeafEntries(raw, keyLen, strict) ==
      if !Usable(p) || EntriesEnd(p, n) > 512 then None
      else EntriesFrom(raw, p, keyLen, n, 0, 512, zeros, if strict then EntriesEnd(p, n) else 0)
  {
    assert zeros == Zeros(keyLen);
  }

  /** A key is the bytes repeated from the one before, its own text, which lies in front of the text before,
      and blanks; the entry is refused exactly when these are too many or the text meets the floor. */
  lemma KeyMeans(raw: seq<byte>, p: Packing, keyLen: nat, n: nat, i: nat, textEnd: nat, prev: seq<byte>, floor: nat)
    requires HasRoom(raw, p, n) && i < n && textEnd <= 512 && |prev| == keyLen
    ensures var t, r := TripleAt(raw, p, i, n), EntriesFrom(raw, p, keyLen, n, i, textEnd, prev, floor);
      && (r.Some? ==> t.dup + t.trail <= keyLen && floor + (keyLen - t.dup - t.trail) <= textEnd)
      && (r.Some? ==>
            var from, e := textEnd - (keyLen - t.dup - t.trail), r.value[0];
            && e.recno == t.recno && |e.key| == keyLen && e.key[..t.dup] == prev[..t.dup]
            && e.key[t.dup..keyLen - t.trail] == raw[from..textEnd]
            && (forall k :: keyLen - t.trail <= k < keyLen ==> e.key[k] == 0x20)
            && EntriesFrom(raw, p, keyLen, n, i + 1, from, e.key, floor) == Some(r.value[1..]))
  {
    hide TripleAt;
  }

  lemma {:induction false} LaxFollows(raw: seq<byte>, p: Packing, keyLen: nat, n: nat, i: nat, textEnd: nat,
                                      prev: seq<byte>, floor: nat)
    requires HasRoom(raw, p, n) && i <= n && textEnd <= BLOCK_SIZE && |prev| == keyLen
    requires EntriesFrom(raw, p, keyLen, n, i, textEnd, prev, floor).Some?
    ensures EntriesFrom(raw, p, keyLen, n, i, textEnd, prev, 0)
      == EntriesFrom(raw, p, keyLen, n, i, textEnd, prev, floor)
    decreases n - i
  {
    if i < n {
      var t := TripleAt(raw, p, i, n);
      var start := textEnd - (keyLen - t.dup - t.trail);
      LaxFollows(raw, p, keyLen, n, i + 1, start, prev[..t.dup] + raw[start..textEnd] + Blanks(t.trail), floor);
    }
  }

  /** How much key text the entries from i on announce. */
  function TextTaken(raw: seq<byte>, p: Packing, keyLen: nat, n: nat, i: nat): nat
    requires HasRoom(raw, p, n) && i <= n
    decreases n - i
  {
    if i == n then 0
    else
      var t := TripleAt(raw, p, i, n);
      (if t.dup + t.trail <= keyLen then keyLen - t.dup - t.trail else 0) + TextTaken(raw, p, keyLen, n, i + 1)
  }

  lemma {:induction false} StrictWhenClear(raw: seq<byte>, p: Packing, keyLen: nat, n: nat, i: nat, textEnd: nat,
                                           prev: seq<byte>, floor: nat)
    requires HasRoom(raw, p, n) && i <= n && floor <= textEnd <= BLOCK_SIZE && |prev| == keyLen
    requires EntriesFrom(raw, p, keyLen, n, i, textEnd, prev, 0).Some?
    ensures EntriesFrom(raw, p, keyLen, n, i, textEnd, prev, floor).Some? <==>
      floor + TextTaken(raw, p, keyLen, n, i) <= textEnd
    decreases n - i
  {
    if i < n {
      var t := TripleAt(raw, p, i, n);
      var start := textEnd - (keyLen - t.dup - t.trail);
      if floor <= start {
        StrictWhenClear(raw, p, keyLen, n, i + 1, start, prev[..t.dup] + raw[start..textEnd] + Blanks(t.trail), floor);
      }
    }
  }

  /** The announced text ends before it meets the entry area. */
  predicate TextClear(raw: seq<byte>, keyLen: nat)
    requires |raw| == BLOCK_SIZE
  {
    var p, n := PackingOf(raw), KeyCount(raw);
    EntriesEnd(p, n) <= BLOCK_SIZE ==> EntriesEnd(p, n) + TextTaken(raw, p, keyLen, n, 0) <= BLOCK_SIZE
  }

  /** The decoders read the same out of a page whose text is clear of its entries; any other page the
      strict one refuses, whatever the lax one makes of it. */
  lemma DecodersAgree(raw: seq<byte>, keyLen: nat)
    requires |raw| == BLOCK_SIZE
    ensures LeafEntries(raw, keyLen, true) == if TextClear(raw, keyLen) then LeafEntries(raw, keyLen, false) else None
  {
    var p, n := PackingOf(raw), KeyCount(raw);
    if LeafEntries(raw, keyLen, true).Some? {
      LaxFollows(raw, p, keyLen, n, 0, BLOCK_SIZE, Zeros(keyLen), EntriesEnd(p, n));
    }
    if LeafEntries(raw, keyLen, false).Some? {
      StrictWhenClear(raw, p, keyLen, n, 0, BLOCK_SIZE, Zeros(keyLen), EntriesEnd(p, n));
    }
  }

  // ---------------------------------------------------------------- the two decoders

  /** A page of three keys of 165 bytes, without prefixes or trailing blanks, and zero throughout: its
      text runs into its entries. The lax decoder reads three entries, the strict one refuses it. */
  function Crowded(): (raw: seq<byte>)
    ensures |raw| == BLOCK_SIZE
  {
    Zeros(2) + [3] + Zeros(20) + [3] + Zeros(BLOCK_SIZE - 24)
  }

  lemma CrowdedTriple(i: nat)
    requires i < 3
    ensures PackingOf(Crowded()) == Packing(0, 0, 0, 0, 0, 0, 3) && KeyCount(Crowded()) == 3
    ensures HasRoom(Crowded(), PackingOf(Crowded()), 3)
    ensures TripleAt(Crowded(), PackingOf(Crowded()), i, 3) == Triple(0, 0, 0)
  {
    var raw := Crowded();
    assert raw[2..4] == [3, 0] && raw[14..18] == [0, 0, 0, 0];
    assert raw[18] == raw[19] == raw[20] == raw[21] == raw[22] == 0 && raw[23] == 3;
    assert Le([3, 0]) == 3 by { assert Le([3, 0][1..]) == 0; }
    ZeroLe(4);
    assert raw[14..18] == Zeros(4);
    assert raw[24 + 3 * i..24 + 3 * i + 3] == Zeros(3);
    ZeroLe(3);
  }

  lemma {:induction false} ZeroLe(n: nat)
    ensures Le(Zeros(n)) == 0
  {
    if n > 0 {
      assert Zeros(n)[1..] == Zeros(n - 1);
      ZeroLe(n - 1);
    }
  }

  lemma {:induction false} CrowdedFrom(i: nat, prev: seq<byte>)
    requires i <= 3 && |prev| == 165 && HasRoom(Crowded(), PackingOf(Crowded()), 3)
    ensures TextTaken(Crowded(), PackingOf(Crowded()), 165, 3, i) == 165 * (3 - i)
    ensures EntriesFrom(Crowded(), PackingOf(Crowded()), 165, 3, i, 512 - 165 * i, prev, 0).Some?
    decreases 3 - i
  {
    hide Crowded, TripleAt, PackingOf;
    if i < 3 {
      CrowdedTriple(i);
      var start, end := 512 - 165 * i - 165, 512 - 165 * i;
      CrowdedFrom(i + 1, prev[..0] + Crowded()[start..end] + Blanks(0));
    }
  }

  lemma DecodersDiffer()
    ensures LeafEntries(Crowded(), 165, true) == None && LeafEntries(Crowded(), 165, false).Some?
  {
    hide Crowded, TripleAt, PackingOf, TextTaken, EntriesFrom;
    CrowdedTriple(0);
    CrowdedFrom(0, Zeros(165));
    DecodersAgree(Crowded(), 165);
  }

  function Joined(out: seq<Entry>, rest: Option<seq<Entry>>): Option<seq<Entry>> {
    if rest.None? then None else Some(out + rest.value)
  }

  /** The CDX decoder: the text must stay clear of the entries. A page without keys is not looked into. */
  method DecodeExterior(raw: seq<byte>, keyLen: nat) returns (r: Option<seq<Entry>>)
    requires |raw| == BLOCK_SIZE
    ensures r == if KeyCount(raw) == 0 then Some([]) else LeafEntries(raw, keyLen, true)
  {
    hide And, Shift, Le, EntriesEnd;
    var n, p := KeyCount(raw), PackingOf(raw);
    if n == 0 {
      return Some([]);
    }
    if !Usable(p) || EntriesEnd(p, n) > BLOCK_SIZE {
      return None;
    }
    var entriesEnd, keyEnd: nat, prevKey := EntriesEnd(p, n), BLOCK_SIZE, Zeros(keyLen);
    var out: seq<Entry>, i := [], 0;
    JoinEnds(LeafEntries(raw, keyLen, true), out);
    while i < n
      invariant i <= n && keyEnd <= BLOCK_SIZE && |prevKey| == keyLen
      invariant LeafEntries(raw, keyLen, true)
        == Joined(out, EntriesFrom(raw, p, keyLen, n, i, keyEnd, prevKey, entriesEnd))
    {
      var t := TripleAt(raw, p, i, n);
      if t.dup > keyLen || t.trail > keyLen || keyLen < t.dup + t.trail {
        return None;
      }
      var nChars := keyLen - t.dup - t.trail;
      if keyEnd < entriesEnd + nChars {
        return None;
      }
      var chunkStart := keyEnd - nChars;
      var key := prevKey[..t.dup] + raw[chunkStart..keyEnd] + Blanks(t.trail);
      JoinStep(out, Entry(key, t.recno), EntriesFrom(raw, p, keyLen, n, i + 1, chunkStart, key, entriesEnd));
      out := out + [Entry(key, t.recno)];
      prevKey, keyEnd, i := key, chunkStart, i + 1;
    }
    JoinEnds(None, out);
    r := Some(out);
  }

  /** The IDX decoder: the text must only stay inside the page. */
  method DecodeLeaf(raw: seq<byte>, keyLen: nat) returns (r: Option<seq<Entry>>)
    requires |raw| == BLOCK_SIZE
    ensures r == LeafEntries(raw, keyLen, false)
  {
    hide And, Shift, Le, EntriesEnd;
    var n, p := KeyCount(raw), PackingOf(raw);
    if !Usable(p) || EntriesEnd(p, n) > BLOCK_SIZE {
      return None;
    }
    var keyEnd: nat, prev := BLOCK_SIZE, Zeros(keyLen);
    var out: seq<Entry>, i := [], 0;
    JoinEnds(LeafEntries(raw, keyLen, false), out);
    while i < n
      invariant i <= n && keyEnd <= BLOCK_SIZE && |prev| == keyLen
      invariant LeafEntries(raw, keyLen, false) == Joined(out, EntriesFrom(raw, p, keyLen, n, i, keyEnd, prev, 0))
    {
      var t := TripleAt(raw, p, i, n);
      if t.dup > keyLen || t.trail > keyLen || keyLen < t.dup + t.trail {
        return None;
      }
      var nChars := keyLen - t.dup - t.trail;
      if keyEnd < nChars {
        return None;
      }
      var textEnd := keyEnd;
      keyEnd := keyEnd - nChars;
      var key := prev[..t.dup] + raw[keyEnd..textEnd] + Blanks(t.trail);
      JoinStep(out, Entry(key, t.recno), EntriesFrom(raw, p, keyLen, n, i + 1, keyEnd, key, 0));
      out := out + [Entry(key, t.recno)];
      prev, i := key, i + 1;
    }
    JoinEnds(None, out);
    r := Some(out);
  }

  lemma JoinEnds(rest: Option<seq<Entry>>, out: seq<Entry>)
    ensures Joined([], rest) == rest && Joined(out, Some([])) == Some(out)
  {
    assert out + [] == out;
    if rest.Some? {
      assert [] + rest.value == rest.value;
    }
  }

  lemma JoinStep(out: seq<Entry>, x: Entry, rest: Option<seq<Entry>>)
    ensures Joined(out + [x], rest) == Joined(out, if rest.None? then None else Some([x] + rest.value))
  {
    if rest.Some? {
      assert out + [x] + rest.value == out + ([x] + rest.value);
    }
  }
}
