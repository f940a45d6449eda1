/** dBASE IV memo files: blocks that open with a constant marker and a length counting its own header. */
module MemoDbaseIV {
  import opened Entries
  import opened Bytes

  const MARKER: seq<byte> := [0xFF, 0xFF, 0x08, 0x00]
  const BLOCK_HEADER := 8
  const HEADER_PREFIX := 22

  /** The header page needs room for its last field; smaller sizes cannot be written at all. */
  predicate Creatable(bs: nat) {
    bs % 8 == 0 && HEADER_PREFIX <= bs < 65536
  }

  function TextAt(file: seq<byte>, at: nat): Option<seq<byte>> {
    if at + 8 > |file| || file[at..at + 4] != MARKER then None
    else
      var total := Le(file[at + 4..at + 8]);
      if total < BLOCK_HEADER || at + total > |file| then None else Some(file[at + 8..at + total])
  }

  /** The memo at a block number; block 0 is the header. */
  function Content(file: seq<byte>, bs: nat, block: nat): Option<seq<byte>> {
    if block == 0 then None else TextAt(file, block * bs)
  }

  function Encoded(text: seq<byte>): seq<byte> {
    MARKER + LeBytes(BLOCK_HEADER + |text|, 4) + text
  }

  predicate Fits(text: seq<byte>) {
    BLOCK_HEADER + |text| < TWO_32
  }

  /** What a block number reads as, in bytes: the four marker bytes, then the length in four bytes, low byte
      first, with these eight counted in, then the text. */
  lemma ContentMeans(file: seq<byte>, bs: nat, block: nat, at: nat)
    requires at == block * bs
    ensures block == 0 || at + 8 > |file| ==> Content(file, bs, block).None?
    ensures block > 0 && at + 8 <= |file| ==>
      var total := file[at + 4] + 0x100 * (file[at + 5] as int) + 0x1_0000 * (file[at + 6] as int)
                   + 0x100_0000 * (file[at + 7] as int);
      var marked := file[at] == 0xFF && file[at + 1] == 0xFF && file[at + 2] == 0x08 && file[at + 3] == 0x00;
      Content(file, bs, block)
        == if !marked || total < 8 || at + total > |file| then None else Some(file[at + 8..at + total])
  {
    hide Le;
    if block > 0 && at + 8 <= |file| {
      LeFour(file[at + 4..at + 8]);
    }
  }

  lemma EncodedMeans(text: seq<byte>)
    ensures var n := 8 + |text|;
      Encoded(text)
      == [0xFF, 0xFF, 0x08, 0x00] + [n % 256, n / 0x100 % 256, n / 0x1_0000 % 256, n / 0x100_0000 % 256] + text
  {
    hide LeBytes;
    LeBytesAre(8 + |text|);
  }

  ghost predicate Settled(file: seq<byte>, bs: nat, nextFree: nat, block: nat, text: seq<byte>) {
    var at := block * bs;
    && 8 <= at && block >= 1 && Fits(text) && at + |Encoded(text)| <= nextFree * bs
    && at + |Encoded(text)| <= |file| && file[at..at + |Encoded(text)|] == Encoded(text)
  }

  lemma SettledContent(file: seq<byte>, bs: nat, nextFree: nat, block: nat, text: seq<byte>)
    requires Settled(file, bs, nextFree, block, text)
    ensures Content(file, bs, block) == Some(text)
  {
    EncodedReads(file, block * bs, text);
  }

  lemma EncodedReads(file: seq<byte>, at: nat, text: seq<byte>)
    requires Fits(text) && at + |Encoded(text)| <= |file| && file[at..at + |Encoded(text)|] == Encoded(text)
    ensures TextAt(file, at) == Some(text)
  {
    hide Le, LeBytes;
    ThreePieces(file, at, MARKER, LeBytes(BLOCK_HEADER + |text|, 4), text);
    Le4(BLOCK_HEADER + |text|);
  }

  lemma SettledKept(before: seq<byte>, after: seq<byte>, bs: nat, block: nat, nextFree: nat, b: nat, text: seq<byte>,
                    buf: seq<byte>, head: seq<byte>)
    requires |head| == 4 && Added(before, after, block * bs, buf, head) && Settled(before, bs, block, b, text)
    requires nextFree >= block
    ensures Settled(after, bs, nextFree, b, text)
  {
    MulMonotone(block, nextFree, bs);
    AddedRegions(before, after, block * bs, buf, head, b * bs, b * bs + |Encoded(text)|);
  }

  lemma SettledNew(before: seq<byte>, after: seq<byte>, bs: nat, block: nat, nextFree: nat, text: seq<byte>,
                   buf: seq<byte>, head: seq<byte>)
    requires block >= 1 && block * bs >= 8 && |head| == 4 && Added(before, after, block * bs, buf, head) && Fits(text)
    requires Encoded(text) <= buf && block * bs + |buf| <= nextFree * bs
    ensures Settled(after, bs, nextFree, block, text)
  {
    var at := block * bs;
    AddedRegions(before, after, at, buf, head, at, at);
    assert after[at..at + |buf|][..|Encoded(text)|] == after[at..at + |Encoded(text)|];
  }

  class MemoFile {
    const blockSize: nat
    var file: seq<byte>
    var nextFree: nat
    /** The memos appended or known to be stored, by block. */
    ghost var memos: map<nat, seq<byte>>

    ghost predicate Valid()
      reads this
    {
      && blockSize >= HEADER_PREFIX && |file| >= HEADER_PREFIX && nextFree >= 1
      && Le(file[..4]) == nextFree % TWO_32 && Le(file[20..22]) == blockSize
      && forall b :: b in memos ==> Settled(file, blockSize, nextFree, b, memos[b])
    }

    /** An empty file; name is the table's own name, cut or padded to eight bytes. */
    constructor Create(blockSize: nat, name: seq<byte>)
      requires Creatable(blockSize)
      ensures Valid() && this.blockSize == blockSize && memos == map[] && nextFree == 1
      ensures file[16..20] == [0x00, 0x00, 0x02, 0x01]
      ensures |file| == blockSize && file[8..16] == if |name| > 8 then name[..8] else name + Zeros(8 - |name|)
    {
      this.blockSize, nextFree, memos := blockSize, 1, map[];
      var short := if |name| > 8 then name[..8] else name;
      file := LeBytes(1, 4) + Zeros(4) + short + Zeros(8 - |short|) + [0x00, 0x00, 0x02, 0x01] + LeBytes(blockSize, 2)
              + Zeros(blockSize - HEADER_PREFIX);
      new;
      Le4(1);
      Le2(blockSize);
      assert file[..4] == LeBytes(1, 4) && file[20..22] == LeBytes(blockSize, 2);
    }

    /** An existing file; known are memos it is known to store. */
    constructor Open(file: seq<byte>, ghost known: map<nat, seq<byte>>)
      requires |file| >= HEADER_PREFIX && Le(file[..4]) != 0 && Le(file[20..22]) >= HEADER_PREFIX
      requires forall b :: b in known ==> Settled(file, Le(file[20..22]), Le(file[..4]), b, known[b])
      ensures Valid() && this.file == file && memos == known
    {
      SpanFacts();
      this.file, blockSize, nextFree, memos := file, Le(file[20..22]), Le(file[..4]), known;
    }

    method Get(block: nat) returns (r: Option<seq<byte>>)
      ensures r == Content(file, blockSize, block)
      ensures Valid() && block in memos ==> r == Some(memos[block])
    {
      if Valid() && block in memos {
        SettledContent(file, blockSize, nextFree, block, memos[block]);
      }
      if block == 0 {
        return None;
      }
      var at := block * blockSize;
      if at + 8 > |file| || file[at..at + 4] != MARKER {
        return None;
      }
      var total := Le(file[at + 4..at + 8]);
      if total < BLOCK_HEADER || at + total > |file| {
        return None;
      }
      r := Some(file[at + 8..at + total]);
    }

    /** Writes a memo at the next free block and leaves earlier ones, and the rest of the header, alone. */
    method Append(text: seq<byte>) returns (block: nat)
      requires Valid() && Fits(text)
      modifies this
      ensures Valid() && block == old(nextFree) && block !in old(memos) && nextFree > block
      ensures memos == old(memos)[block := text] && Content(file, blockSize, block) == Some(text)
      ensures file[4..HEADER_PREFIX] == old(file)[4..HEADER_PREFIX]
      ensures nextFree == block + (8 + |text| + blockSize - 1) / blockSize
    {
      hide Content, Le, LeBytes, Splice, Overwritten;
      var total := BLOCK_HEADER + |text|;
      var blocks := (total + blockSize - 1) / blockSize;
      BlocksCover(total, blockSize, nextFree);
      block := nextFree;
      var at := block * blockSize;
      var buf := MARKER + LeBytes(total, 4) + text + Zeros(blocks * blockSize - total);
      ghost var before := file;
      file := Overwritten(file, at, buf);
      nextFree := block + blocks;
      ghost var head := LeBytes(nextFree, 4);
      file := Splice(file, 0, LeBytes(nextFree, 4));
      MulMonotone(1, block, blockSize);
      Le4(nextFree);
      AddedRegions(before, file, at, buf, head, 4, HEADER_PREFIX);
      HeaderKept(before, file, at, buf, head, blockSize);
      forall b | b in memos ensures Settled(file, blockSize, nextFree, b, memos[b]) {
        SettledKept(before, file, blockSize, block, nextFree, b, memos[b], buf, head);
      }
      SettledNew(before, file, blockSize, block, nextFree, text, buf, head);
      SettledContent(file, blockSize, nextFree, block, text);
      memos := memos[block := text];
    }
  }

  lemma HeaderKept(before: seq<byte>, after: seq<byte>, at: nat, buf: seq<byte>, head: seq<byte>, bs: nat)
    requires |before| >= HEADER_PREFIX && |head| == 4 && Added(before, after, at, buf, head)
    requires at >= HEADER_PREFIX
    ensures |after| >= HEADER_PREFIX && after[20..22] == before[20..22]
  {
    AddedRegions(before, after, at, buf, head, 20, 22);
  }
}
