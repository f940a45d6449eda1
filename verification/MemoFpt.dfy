/** FoxPro memo files: a 512-byte header, then entries that carry their type and exact length. */
module MemoFpt {
  import opened Entries
  import opened Bytes

  const HEADER := 512
  const MIN_BLOCK := 32
  const MAX_BLOCK := 1024
  const DEFAULT_BLOCK := 64

  /** A memo and its content type. */
  datatype Memo = Memo(kind: nat, bytes: seq<byte>)

  predicate GoodBlockSize(bs: nat) {
    MIN_BLOCK <= bs <= MAX_BLOCK && bs % 32 == 0
  }

  /** Asking for block size 0 is asking for the usual one. */
  function OrDefault(blockSize: nat): nat {
    if blockSize == 0 then DEFAULT_BLOCK else blockSize
  }

  /** The entry at a byte offset, read from the file as a whole. */
  function EntryAt(file: seq<byte>, at: nat): Option<Memo> {
    if at + 8 > |file| then None
    else
      var kind, len := Be(file[at..at + 4]), Be(file[at + 4..at + 8]);
      if at + 8 + len > |file| then None else Some(Memo(kind, file[at + 8..at + 8 + len]))
  }

  /** The entry at a block number; block 0 is the header. */
  function Content(file: seq<byte>, bs: nat, block: nat): Option<Memo> {
    if block == 0 then None else EntryAt(file, block * bs)
  }

  function Encoded(m: Memo): seq<byte> {
    BeBytes(m.kind, 4) + BeBytes(|m.bytes|, 4) + m.bytes
  }

  predicate Fits(m: Memo) {
    m.kind < TWO_32 && |m.bytes| < TWO_32
  }

  /** What a block number reads as, in bytes: kind and length in four bytes each, high byte first, then the
      content. */
  lemma ContentMeans(file: seq<byte>, bs: nat, block: nat, at: nat)
    requires at == block * bs
    ensures block == 0 || at + 8 > |file| ==> Content(file, bs, block).None?
    ensures block > 0 && at + 8 <= |file| ==>
      var kind := 0x100_0000 * (file[at] as int) + 0x1_0000 * (file[at + 1] as int) + 0x100 * (file[at + 2] as int)
                  + file[at + 3];
      var len := 0x100_0000 * (file[at + 4] as int) + 0x1_0000 * (file[at + 5] as int)
                 + 0x100 * (file[at + 6] as int) + file[at + 7];
      Content(file, bs, block) == if at + 8 + len > |file| then None else Some(Memo(kind, file[at + 8..at + 8 + len]))
  {
    hide Be;
    if block > 0 && at + 8 <= |file| {
      BeFour(file[at..at + 4]);
      BeFour(file[at + 4..at + 8]);
    }
  }

  /** And how a memo is stored. */
  lemma EncodedMeans(m: Memo)
    ensures var k, n := m.kind, |m.bytes|;
      Encoded(m) == [k / 0x100_0000 % 256, k / 0x1_0000 % 256, k / 0x100 % 256, k % 256]
                    + [n / 0x100_0000 % 256, n / 0x1_0000 % 256, n / 0x100 % 256, n % 256] + m.bytes
  {
    hide BeBytes;
    BeBytesAre(m.kind);
    BeBytesAre(|m.bytes|);
  }

  /** A stored entry, complete, below the next free block. */
  ghost predicate Settled(file: seq<byte>, bs: nat, nextFree: nat, block: nat, m: Memo) {
    var at := block * bs;
    && 8 <= at && block >= 1 && Fits(m) && at + |Encoded(m)| <= nextFree * bs
    && at + |Encoded(m)| <= |file| && file[at..at + |Encoded(m)|] == Encoded(m)
  }

  lemma SettledContent(file: seq<byte>, bs: nat, nextFree: nat, block: nat, m: Memo)
    requires Settled(file, bs, nextFree, block, m)
    ensures Content(file, bs, block) == Some(m)
  {
    EncodedReads(file, block * bs, m);
  }

  lemma EncodedReads(file: seq<byte>, at: nat, m: Memo)
    requires Fits(m) && at + |Encoded(m)| <= |file| && file[at..at + |Encoded(m)|] == Encoded(m)
    ensures EntryAt(file, at) == Some(m)
  {
    hide Be, BeBytes;
    ThreePieces(file, at, BeBytes(m.kind, 4), BeBytes(|m.bytes|, 4), m.bytes);
    BeRoundTrip(m.kind, 4);
    BeRoundTrip(|m.bytes|, 4);
    SpanFacts();
  }

  lemma SettledKept(before: seq<byte>, after: seq<byte>, bs: nat, block: nat, nextFree: nat, b: nat, m: Memo,
                    buf: seq<byte>, head: seq<byte>)
    requires |head| == 8 && Added(before, after, block * bs, buf, head) && Settled(before, bs, block, b, m)
    requires nextFree >= block
    ensures Settled(after, bs, nextFree, b, m)
  {
    MulMonotone(block, nextFree, bs);
    AddedRegions(before, after, block * bs, buf, head, b * bs, b * bs + |Encoded(m)|);
  }

  lemma SettledNew(before: seq<byte>, after: seq<byte>, bs: nat, block: nat, nextFree: nat, m: Memo, buf: seq<byte>,
                   head: seq<byte>)
    requires block >= 1 && |head| == 8 && Added(before, after, block * bs, buf, head) && Fits(m)
    requires Encoded(m) <= buf && block * bs + |buf| <= nextFree * bs
    ensures Settled(after, bs, nextFree, block, m)
  {
    var at := block * bs;
    AddedRegions(before, after, at, buf, head, at, at);
    assert after[at..at + |buf|][..|Encoded(m)|] == after[at..at + |Encoded(m)|];
  }

  function HeaderBytes(nextFree: nat, bs: nat): (h: seq<byte>)
    ensures |h| == 8
  {
    BeBytes(nextFree, 4) + [0, 0] + BeBytes(bs, 2)
  }

  /** The header: the next free block in bytes 0 to 3, the block size in bytes 6 and 7, high byte first. */
  lemma HeaderMeans(nextFree: nat, bs: nat)
    ensures HeaderBytes(nextFree, bs)
      == [nextFree / 0x100_0000 % 256, nextFree / 0x1_0000 % 256, nextFree / 0x100 % 256, nextFree % 256]
         + [0, 0] + [bs / 0x100 % 256, bs % 256]
  {
    hide BeBytes;
    BeBytesAre(nextFree);
    BeBytesAre(bs);
  }

  lemma HeaderReads(file: seq<byte>, nextFree: nat, bs: nat)
    requires |file| >= 8 && file[..8] == HeaderBytes(nextFree, bs) && bs < 65536
    ensures Be(file[..4]) == nextFree % TWO_32 && Be(file[6..8]) == bs
  {
    BeRoundTrip(nextFree, 4);
    BeRoundTrip(bs, 2);
    SpanFacts();
    assert file[..4] == file[..8][..4] == BeBytes(nextFree, 4);
    assert file[6..8] == file[..8][6..8] == BeBytes(bs, 2);
  }

  class FptFile {
    const blockSize: nat
    var file: seq<byte>
    var nextFree: nat
    /** The memos appended or known to be stored, by block. */
    ghost var memos: map<nat, Memo>

    ghost predicate Valid()
      reads this
    {
      && GoodBlockSize(blockSize) && |file| >= HEADER && nextFree >= HEADER / blockSize
      && Be(file[..4]) == nextFree % TWO_32 && Be(file[6..8]) == blockSize
      && forall b :: b in memos ==> Settled(file, blockSize, nextFree, b, memos[b])
    }

    /** An empty file. The first free block is the one the header page ends in front of. */
    constructor Create(blockSize: nat)
      requires GoodBlockSize(OrDefault(blockSize))
      ensures Valid() && this.blockSize == (if blockSize == 0 then 64 else blockSize) && memos == map[]
      ensures nextFree == 512 / this.blockSize && |file| == 512
    {
      var size := OrDefault(blockSize);
      this.blockSize, nextFree, memos := size, HEADER / size, map[];
      file := Splice(Zeros(HEADER), 0, HeaderBytes(HEADER / size, size));
      new;
      assert file[..8] == file[0..8] == HeaderBytes(nextFree, this.blockSize);
      HeaderReads(file, nextFree, this.blockSize);
    }

    /** An existing file whose header is sound; known are memos it is known to store. */
    constructor Open(file: seq<byte>, ghost known: map<nat, Memo>)
      requires |file| >= HEADER && GoodBlockSize(Be(file[6..8])) && Be(file[..4]) >= HEADER / Be(file[6..8])
      requires Be(file[..4]) < TWO_32
      requires forall b :: b in known ==> Settled(file, Be(file[6..8]), Be(file[..4]), b, known[b])
      ensures Valid() && this.file == file && memos == known
    {
      this.file, blockSize, nextFree, memos := file, Be(file[6..8]), Be(file[..4]), known;
    }

    method Get(block: nat) returns (r: Option<Memo>)
      requires GoodBlockSize(blockSize)
      ensures r == Content(file, blockSize, block)
      ensures Valid() && block in memos ==> r == Some(memos[block])
    {
      hide Be, GoodBlockSize;
      if Valid() && block in memos {
        SettledContent(file, blockSize, nextFree, block, memos[block]);
      }
      if block == 0 {
        return None;
      }
      var at := block * blockSize;
      if at + 8 > |file| {
        return None;
      }
      var kind, len := Be(file[at..at + 4]), Be(file[at + 4..at + 8]);
      if len == 0 {
        assert file[at + 8..at + 8 + len] == [];
        return Some(Memo(kind, []));
      }
      if at + 8 + len > |file| {
        return None;
      }
      r := Some(Memo(kind, file[at + 8..at + 8 + len]));
    }

    /** Writes a memo at the next free block and leaves earlier ones alone. It can be read back
        exactly when that block is not 0, as it is for the first memo of a file whose blocks are
        larger than the header page. */
    method Append(content: seq<byte>, kind: nat) returns (block: nat)
      requires Valid() && Fits(Memo(kind, content))
      modifies this
      ensures Valid() && block == old(nextFree) && block !in old(memos) && nextFree > block
      ensures memos == if block > 0 then old(memos)[block := Memo(kind, content)] else old(memos)
      ensures Content(file, blockSize, block) == Some(Memo(kind, content)) <==> block > 0
      ensures nextFree == block + (8 + |content| + blockSize - 1) / blockSize
    {
      hide Content, BeBytes, Be, Splice, Overwritten;
      ghost var m := Memo(kind, content);
      var entryLen := 8 + |content|;
      var needed := (entryLen + blockSize - 1) / blockSize;
      BlocksCover(entryLen, blockSize, nextFree);
      block := nextFree;
      var at := block * blockSize;
      var buf := BeBytes(kind, 4) + BeBytes(|content|, 4) + content + Zeros(needed * blockSize - entryLen);
      ghost var before := file;
      file := Overwritten(file, at, buf);
      nextFree := nextFree + needed;
      ghost var head := HeaderBytes(nextFree, blockSize);
      file := Splice(file, 0, HeaderBytes(nextFree, blockSize));
      HeaderKept(before, file, at, buf, head);
      HeaderReads(file, nextFree, blockSize);
      NotAtZero(file, blockSize);
      if block > 0 {
        AtLeastOneBlock(block, blockSize);
        forall b | b in memos ensures Settled(file, blockSize, nextFree, b, memos[b]) {
          SettledKept(before, file, blockSize, block, nextFree, b, memos[b], buf, head);
        }
        SettledNew(before, file, blockSize, block, nextFree, m, buf, head);
        SettledContent(file, blockSize, nextFree, block, m);
        memos := memos[block := m];
      } else {
        NothingSettled(before, blockSize, memos);
      }
    }

    /** Only block sizes beyond the header page lose a memo, and only the first one. */
    lemma FirstBlock()
      requires Valid()
      ensures blockSize <= HEADER ==> nextFree > 0
      ensures blockSize > HEADER ==> HEADER / blockSize == 0
    {
      AtMostQuotient(1, blockSize, HEADER);
    }
  }

  lemma NotAtZero(file: seq<byte>, bs: nat)
    ensures Content(file, bs, 0) == None
  {
  }

  lemma NothingSettled(file: seq<byte>, bs: nat, memos: map<nat, Memo>)
    requires forall b :: b in memos ==> Settled(file, bs, 0, b, memos[b])
    ensures memos == map[]
  {
    forall b: nat ensures b !in memos {
      NotBelowZero(file, bs, b, if b in memos then memos[b] else Memo(0, []));
    }
  }

  lemma NotBelowZero(file: seq<byte>, bs: nat, b: nat, m: Memo)
    ensures !Settled(file, bs, 0, b, m)
  {
  }

  lemma AtLeastOneBlock(block: nat, bs: nat)
    requires block >= 1 && bs >= 8
    ensures block * bs >= 8
  {
    MulMonotone(1, block, bs);
  }

  lemma HeaderKept(before: seq<byte>, after: seq<byte>, at: nat, buf: seq<byte>, head: seq<byte>)
    requires |before| >= HEADER && |head| == 8 && after == Splice(Overwritten(before, at, buf), 0, head)
    ensures |after| >= HEADER && after[..8] == head
  {
    assert after[0..8] == head;
  }
}
