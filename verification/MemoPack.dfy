/** Packing a table together with its memo file. */
module MemoPack {
  import opened Entries
  import opened Bytes
  import opened MemoPointer
  import opened TableFile
  import opened MemoFields
  import opened MemoCompact
  import opened KeyedRows
  import opened WorkArea
  import MemoDbt
  import MemoFpt

  /** The first n of these blocks were carried to the numbered places, which hold what they held. */
  ghost predicate Copied<T>(blocks: seq<nat>, n: nat, m: map<nat, nat>, places: seq<nat>,
                            get: nat -> Option<T>, memos: map<nat, T>, nextFree: nat)
  {
    && n <= |blocks| && |places| == n
    && (forall b :: b in m <==> b in blocks[..n])
    && forall k :: 0 <= k < n ==> IsCopied(blocks[k], m, places[k], get, memos, nextFree)
  }

  ghost predicate IsCopied<T>(b: nat, m: map<nat, nat>, place: nat, get: nat -> Option<T>, memos: map<nat, T>,
                              nextFree: nat) {
    && b in m && m[b] == place % TWO_32 && 0 < place < nextFree
    && place in memos && get(b) == Some(memos[place])
  }

  lemma CopyOneMore<T>(blocks: seq<nat>, n: nat, m: map<nat, nat>, places: seq<nat>, get: nat -> Option<T>,
                       memos: map<nat, T>, nextFree: nat, place: nat, t: T, nextFree2: nat)
    requires Copied(blocks, n, m, places, get, memos, nextFree) && Increasing(blocks) && n < |blocks|
    requires nextFree <= place < nextFree2 && place > 0 && place !in memos && get(blocks[n]) == Some(t)
    ensures Copied(blocks, n + 1, m[blocks[n] := place % TWO_32], places + [place], get, memos[place := t], nextFree2)
  {
    var m2, places2, memos2 := m[blocks[n] := place % TWO_32], places + [place], memos[place := t];
    forall b ensures b in m2 <==> b in blocks[..n + 1] {
      assert blocks[..n + 1] == blocks[..n] + [blocks[n]];
    }
    forall k | 0 <= k < n + 1 ensures IsCopied(blocks[k], m2, places2[k], get, memos2, nextFree2) {
      if k < n {
        assert IsCopied(blocks[k], m, places[k], get, memos, nextFree);
      }
    }
  }

  lemma CopiedIsCarried<T>(size: nat, fields: seq<nat>, rows: seq<Row>, blocks: seq<nat>, m: BlockMapping,
                           places: seq<nat>, get: nat -> Option<T>, memos: map<nat, T>, nextFree: nat,
                             get2: nat -> Option<T>)
    requires FieldsOk(size, fields) && forall r :: 0 <= r < |rows| ==> |rows[r]| == size
    requires forall b :: b in blocks <==> Live(rows, size, fields, b)
    requires Copied(blocks, |blocks|, m.oldToNew, places, get, memos, nextFree)
    requires forall b :: b in memos ==> get2(b) == Some(memos[b])
    ensures m.Narrow()
    ensures nextFree <= TWO_32 ==> Carried(size, fields, rows, m, get, get2)
  {
    hide Live, FieldsOk;
    assert blocks[..|blocks|] == blocks;
    forall b | b in m.oldToNew ensures m.oldToNew[b] < TWO_32 {
      var k :| 0 <= k < |blocks| && blocks[k] == b;
      assert IsCopied(blocks[k], m.oldToNew, places[k], get, memos, nextFree);
    }
    if nextFree <= TWO_32 {
      forall b | Live(rows, size, fields, b)
        ensures b in m.oldToNew && 0 < m.oldToNew[b] < TWO_32 && get2(m.oldToNew[b]) == get(b)
      {
        assert b in blocks;
        var k :| 0 <= k < |blocks| && blocks[k] == b;
        assert IsCopied(blocks[k], m.oldToNew, places[k], get, memos, nextFree);
      }
    }
  }

  ghost function DbtReader(file: seq<byte>): nat -> Option<seq<byte>> {
    (b: nat) => MemoDbt.Content(file, b)
  }

  /** Copies every live memo to a new DBT file, in block order. Fails if a live pointer cannot be read. */
  method CompactDbt(t: Table, fields: seq<nat>, codec: Codec, src: MemoDbt.MemoFile)
    returns (dst: MemoDbt.MemoFile?, m: BlockMapping)
    requires t.Valid() && FieldsOk(t.sh.size, fields)
    ensures dst != null <==>
      (AllDecode(codec, fields, t.Rows())
       && forall b: nat :: Live(t.Rows(), t.sh.size, fields, b) ==> DbtReader(src.file)(b).Some?)
    ensures dst != null ==> fresh(dst) && dst.Valid() && m.Narrow()
    ensures dst != null && dst.nextFree <= TWO_32 ==>
      Carried(t.sh.size, fields, t.Rows(), m, DbtReader(src.file), DbtReader(dst.file))
  {
    hide Live, FieldsOk, Table.Valid, Table.Rows, Copied, Carried, Increasing, MemoDbt.MemoFile.Valid, DbtReader;
    var live := MemoPointers(t, fields, codec);
    if live.None? {
      return null, BlockMapping(map[], 0, 0);
    }
    var blocks := SortedBlocks(live.value);
    ghost var places;
    dst, m, places := CopyDbt(blocks, src);
    if dst != null {
      DbtMemosRead(dst);
      CopiedIsCarried(t.sh.size, fields, t.Rows(), blocks, m, places, DbtReader(src.file), dst.memos, dst.nextFree,
        DbtReader(dst.file));
      AllReadable(blocks, m.oldToNew, places, DbtReader(src.file), dst.memos, dst.nextFree);
      CarriedDropped(t.sh.size, fields, t.Rows(), m, (src.nextFree - 1 - m.kept) % TWO_32, DbtReader(src.file),
        DbtReader(dst.file));
      m := m.(dropped := (src.nextFree - 1 - m.kept) % TWO_32);
    }
  }

  method CopyDbt(blocks: seq<nat>, src: MemoDbt.MemoFile)
    returns (dst: MemoDbt.MemoFile?, m: BlockMapping, ghost places: seq<nat>)
    requires Increasing(blocks)
    ensures dst == null ==> exists b: nat :: b in blocks && DbtReader(src.file)(b).None?
    ensures dst != null ==> fresh(dst) && dst.Valid()
    ensures dst != null ==> Copied(blocks, |blocks|, m.oldToNew, places, DbtReader(src.file), dst.memos, dst.nextFree)
  {
    hide Copied, Increasing, MemoDbt.Content, MemoDbt.InDomain, MemoDbt.Kept, MemoDbt.MemoFile.Valid;
    var file := new MemoDbt.MemoFile.Create();
    m, places := BlockMapping(map[], 0, 0), [];
    ghost var get := DbtReader(src.file);
    NothingCopied(blocks, get, file.memos, file.nextFree);
    var i := 0;
    while i < |blocks|
      invariant i <= |blocks| && file.Valid() && fresh(file) && file != src
      invariant Copied(blocks, i, m.oldToNew, places, get, file.memos, file.nextFree)
    {
      var content := src.Get(blocks[i]);
      assert get(blocks[i]) == content;
      if content.None? {
        assert blocks[i] in blocks;
        return null, m, places;
      }
      DbtReadsAreStorable(src.file, blocks[i]);
      ghost var before, count := file.memos, file.nextFree;
      var place := file.Append(content.value);
      DbtPositive(file, place);
      CopyOneMore(blocks, i, m.oldToNew, places, get, before, count, place, content.value, file.nextFree);
      places := places + [place];
      m := BlockMapping(m.oldToNew[blocks[i] := place % TWO_32], m.kept + 1, 0);
      i := i + 1;
    }
    dst := file;
  }

  lemma NothingCopied<T>(blocks: seq<nat>, get: nat -> Option<T>, memos: map<nat, T>, nextFree: nat)
    ensures Copied(blocks, 0, map[], [], get, memos, nextFree)
  {
  }

  lemma CarriedDropped<T>(size: nat, fields: seq<nat>, rows: seq<Row>, m: BlockMapping, dropped: nat,
                          get: nat -> Option<T>, get2: nat -> Option<T>)
    requires FieldsOk(size, fields) && forall r :: 0 <= r < |rows| ==> |rows[r]| == size
    ensures Carried(size, fields, rows, m.(dropped := dropped), get, get2) == Carried(size, fields, rows, m, get, get2)
  {
  }

  lemma AllReadable<T>(blocks: seq<nat>, m: map<nat, nat>, places: seq<nat>, get: nat -> Option<T>,
                       memos: map<nat, T>, nextFree: nat)
    requires Copied(blocks, |blocks|, m, places, get, memos, nextFree)
    ensures forall b :: b in blocks ==> get(b).Some?
  {
    forall b | b in blocks ensures get(b).Some? {
      var k :| 0 <= k < |blocks| && blocks[k] == b;
      assert IsCopied(blocks[k], m, places[k], get, memos, nextFree);
    }
  }

  lemma DbtReadsAreStorable(file: seq<byte>, block: nat)
    requires MemoDbt.Content(file, block).Some?
    ensures MemoDbt.InDomain(MemoDbt.Content(file, block).value)
  {
    MemoDbt.TextInDomain(file[block * MemoDbt.BLOCK..]);
  }

  lemma DbtPositive(f: MemoDbt.MemoFile, place: nat)
    requires f.Valid() && place in f.memos
    ensures place > 0
  {
  }

  lemma DbtMemosRead(f: MemoDbt.MemoFile)
    requires f.Valid()
    ensures forall b :: b in f.memos ==> DbtReader(f.file)(b) == Some(f.memos[b])
  {
    forall b | b in f.memos ensures DbtReader(f.file)(b) == Some(f.memos[b]) {
      MemoDbt.SettledContent(f.file, f.nextFree, b, f.memos[b]);
    }
  }

  ghost function FptReader(file: seq<byte>, bs: nat): nat -> Option<MemoFpt.Memo> {
    (b: nat) => MemoFpt.Content(file, bs, b)
  }

  /** The same for FPT files; the block size carries over. With a block size beyond the header page the
      first memo of the new file gets block 0, and the pointers to it no longer find it. */
  method CompactFpt(t: Table, fields: seq<nat>, codec: Codec, src: MemoFpt.FptFile)
    returns (dst: MemoFpt.FptFile?, m: BlockMapping)
    requires t.Valid() && FieldsOk(t.sh.size, fields) && MemoFpt.GoodBlockSize(src.blockSize)
    ensures dst != null <==>
      (AllDecode(codec, fields, t.Rows())
       && forall b: nat :: Live(t.Rows(), t.sh.size, fields, b) ==> FptReader(src.file, src.blockSize)(b).Some?)
    ensures dst != null ==> fresh(dst) && dst.Valid() && dst.blockSize == src.blockSize && m.Narrow()
    ensures dst != null && src.blockSize <= MemoFpt.HEADER && dst.nextFree <= TWO_32 ==>
      Carried(t.sh.size, fields, t.Rows(), m, FptReader(src.file, src.blockSize), FptReader(dst.file, dst.blockSize))
    ensures dst != null && src.blockSize > MemoFpt.HEADER ==> LosesOne(t.sh.size, fields, t.Rows(), m)
  {
    hide Live, FieldsOk, Table.Valid, Table.Rows, Copied, Carried, Increasing, MemoFpt.FptFile.Valid, FptReader;
    var live := MemoPointers(t, fields, codec);
    if live.None? {
      return null, BlockMapping(map[], 0, 0);
    }
    var blocks := SortedBlocks(live.value);
    ghost var places;
    dst, m, places := CopyFpt(blocks, src);
    if dst != null && src.blockSize <= MemoFpt.HEADER {
      FptMemosRead(dst);
      CopiedIsCarried(t.sh.size, fields, t.Rows(), blocks, m, places, FptReader(src.file, src.blockSize),
                      dst.memos, dst.nextFree, FptReader(dst.file, dst.blockSize));
    }
  }

  /** Some block is pointed to, if any is, whose pointers will read as no memo. */
  ghost predicate LosesOne(size: nat, fields: seq<nat>, rows: seq<Row>, m: BlockMapping)
    requires FieldsOk(size, fields) && forall r :: 0 <= r < |rows| ==> |rows[r]| == size
  {
    (exists b :: Live(rows, size, fields, b)) ==>
      exists b :: Live(rows, size, fields, b) && b in m.oldToNew && m.oldToNew[b] == 0
  }

  method CopyFpt(blocks: seq<nat>, src: MemoFpt.FptFile)
    returns (dst: MemoFpt.FptFile?, m: BlockMapping, ghost places: seq<nat>)
    requires Increasing(blocks) && MemoFpt.GoodBlockSize(src.blockSize)
    ensures dst == null ==> exists b: nat :: b in blocks && FptReader(src.file, src.blockSize)(b).None?
    ensures dst != null ==> forall b :: b in blocks ==> FptReader(src.file, src.blockSize)(b).Some?
    ensures dst != null ==> fresh(dst) && dst.Valid() && dst.blockSize == src.blockSize && m.Narrow()
    ensures dst != null && src.blockSize <= MemoFpt.HEADER ==>
      Copied(blocks, |blocks|, m.oldToNew, places, FptReader(src.file, src.blockSize), dst.memos, dst.nextFree)
    ensures dst != null && src.blockSize > MemoFpt.HEADER && blocks != [] ==>
      blocks[0] in m.oldToNew && m.oldToNew[blocks[0]] == 0
  {
    hide Copied, Increasing, MemoFpt.Content, MemoFpt.FptFile.Valid;
    var file := new MemoFpt.FptFile.Create(src.blockSize);
    m, places := BlockMapping(map[], 0, 0), [];
    ghost var get, small := FptReader(src.file, src.blockSize), src.blockSize <= MemoFpt.HEADER;
    NothingCopied(blocks, get, file.memos, file.nextFree);
    var i := 0;
    while i < |blocks|
      invariant i <= |blocks| && file.Valid() && fresh(file) && file != src && file.blockSize == src.blockSize
      invariant m.Narrow()
      invariant forall k :: 0 <= k < i ==> get(blocks[k]).Some?
      invariant small ==> Copied(blocks, i, m.oldToNew, places, get, file.memos, file.nextFree)
      invariant !small && i == 0 ==> file.nextFree == 0
      invariant !small && i > 0 ==> blocks[0] in m.oldToNew && m.oldToNew[blocks[0]] == 0
    {
      var content := src.Get(blocks[i]);
      assert get(blocks[i]) == content;
      if content.None? {
        assert blocks[i] in blocks;
        return null, m, places;
      }
      FptReadsAreStorable(src.file, src.blockSize, blocks[i]);
      file.FirstBlock();
      ghost var before, count := file.memos, file.nextFree;
      var place := file.Append(content.value.bytes, content.value.kind);
      if small {
        CopyOneMore(blocks, i, m.oldToNew, places, get, before, count, place, content.value, file.nextFree);
        places := places + [place];
      }
      FirstIsLeast(blocks, i);
      m := BlockMapping(m.oldToNew[blocks[i] := place % TWO_32], m.kept + 1, 0);
      i := i + 1;
    }
    dst := file;
  }

  lemma FirstIsLeast(blocks: seq<nat>, i: nat)
    requires Increasing(blocks) && i < |blocks|
    ensures i > 0 ==> blocks[0] != blocks[i]
  {
  }

  lemma FptReadsAreStorable(file: seq<byte>, bs: nat, block: nat)
    requires MemoFpt.Content(file, bs, block).Some?
    ensures MemoFpt.Fits(MemoFpt.Content(file, bs, block).value)
  {
    hide Be;
    var at := block * bs;
    BeBound(file[at..at + 4]);
    BeBound(file[at + 4..at + 8]);
    SpanFacts();
  }

  lemma BeBound(b: seq<byte>)
    ensures Be(b) < Span(|b|)
  {
  }

  lemma FptMemosRead(f: MemoFpt.FptFile)
    requires f.Valid()
    ensures forall b :: b in f.memos ==> FptReader(f.file, f.blockSize)(b) == Some(f.memos[b])
  {
    forall b | b in f.memos ensures FptReader(f.file, f.blockSize)(b) == Some(f.memos[b]) {
      MemoFpt.SettledContent(f.file, f.blockSize, f.nextFree, b, f.memos[b]);
    }
  }

  // ---------------------------------------------------------------- pack, compact, rewrite

  /** The key does not depend on the memo fields, nor on the form the record is stored in. */
  ghost predicate Blind(fn: KeyFn, size: nat, fields: seq<nat>, codec: Codec) {
    && (forall row: Row, row2: Row ::
          |row| == |row2| == size && SameOutside(row, row2, fields) ==> KeyOf(fn, row) == KeyOf(fn, row2))
    && forall row: Row :: |row| == size && codec.recode(row).Some? ==>
       KeyOf(fn, codec.recode(row).value) == KeyOf(fn, row)
  }

  ghost predicate SameOutside(row: Row, row2: Row, fields: seq<nat>)
    requires |row| == |row2|
  {
    forall i: nat :: i < |row| && !InField(i, fields) ==> row2[i] == row[i]
  }

  /** Outside the memo fields a record is as it was, or as the encoder writes it. */
  ghost predicate OnlyRecoded(row: Row, row2: Row, fields: seq<nat>, codec: Codec)
    requires |row| == |row2|
  {
    row2 == row || (codec.recode(row).Some? && |codec.recode(row).value| == |row|
                    && SameOutside(codec.recode(row).value, row2, fields))
  }

  /** A record changes outside its memo fields exactly when it is written and the encoder gives it
      another form there; one in the encoder's own form does not. */
  lemma RewrittenOutside(row: Row, row2: Row, size: nat, fields: seq<nat>, codec: Codec, m: BlockMapping)
    requires |row| == size && Respects(codec, size, fields) && m.Narrow()
    requires IsRewritten(row, row2, size, fields, codec, m)
    ensures |row2| == size && OnlyRecoded(row, row2, fields, codec)
    ensures InEncodedForm(codec, row) ==> SameOutside(row, row2, fields)
    ensures SameOutside(row, row2, fields) <==>
      row2 == row || (codec.recode(row).Some? && |codec.recode(row).value| == size
                      && SameOutside(row, codec.recode(row).value, fields))
  {
    hide Repointed, Respects;
    CodecFits(codec, size, fields);
    SamePointers(codec, size, fields, row);
    if !m.Identity() && Touched(row, size, fields, m) {
      RepointedFacts(codec.recode(row).value, size, fields, |fields|, m);
    }
  }

  lemma SameKey(fn: KeyFn, row: Row, row2: Row, size: nat, fields: seq<nat>, codec: Codec)
    requires |row| == |row2| == size && Blind(fn, size, fields, codec) && OnlyRecoded(row, row2, fields, codec)
    ensures KeyOf(fn, row2) == KeyOf(fn, row)
  {
    hide KeyOf, SameOutside;
  }

  /** The area's indexes stay in agreement when records are rewritten. */
  lemma StillAgrees(a: Attached, size: nat, fields: seq<nat>, rows: seq<Row>, rows2: seq<Row>, codec: Codec)
    requires InAgreement(a, rows) && Blind(a.keyFn, size, fields, codec) && |rows2| == |rows|
    requires forall r :: 0 <= r < |rows| ==>
      |rows[r]| == |rows2[r]| == size && OnlyRecoded(rows[r], rows2[r], fields, codec)
    ensures InAgreement(a, rows2)
  {
    hide InAgreement, KeyOf, Blind, OnlyRecoded;
    forall r | 0 <= r < |rows| ensures KeyOf(a.keyFn, rows2[r]) == KeyOf(a.keyFn, rows[r]) {
      SameKey(a.keyFn, rows[r], rows2[r], size, fields, codec);
    }
    SetSameKeys(a.index, a.keyFn, rows, rows2);
    AgreementMoves(a, rows, rows2);
  }

  lemma AgreementMoves(a: Attached, rows: seq<Row>, rows2: seq<Row>)
    requires InAgreement(a, rows) && EntrySet(a.index, a.keyFn, rows2) == EntrySet(a.index, a.keyFn, rows)
    requires AllFit(a.index, a.keyFn, rows2) == AllFit(a.index, a.keyFn, rows)
    ensures InAgreement(a, rows2)
  {
  }

  /** How far the rewriting came: everything before record done follows the mapping, the rest is as it was. */
  ghost predicate RewrittenUpTo(rows: seq<Row>, rows2: seq<Row>, done: nat, size: nat, fields: seq<nat>, codec: Codec,
                                m: BlockMapping)
    requires Respects(codec, size, fields) && m.Narrow()
  {
    && done <= |rows| == |rows2| && (forall r :: 0 <= r < |rows| ==> |rows[r]| == size)
    && (forall r :: 0 <= r < done ==> IsRewritten(rows[r], rows2[r], size, fields, codec, m))
    && forall r :: done <= r < |rows| ==> rows2[r] == rows[r]
  }

  /** Pack, then compact the memo file, then rewrite the pointers, for a table with a DBT memo file.

      The compaction goes through exactly when every surviving record decodes and every memo one of them
      points to can be read; otherwise the table is packed and nothing else happened. The rewriting goes
      through when the records it has to write also encode; otherwise it stops at the first that does
      not, which leaves the records before it pointing into the new file and the others into the old.
      After a complete run every memo field of every surviving record reads in the new file what it read
      in the old one. Records change outside their memo fields only as far as the encoder writes them
      in another form, and the attached indexes agree with the table throughout. */
  method PackAllDbt(a: Area, fields: seq<nat>, codec: Codec, src: MemoDbt.MemoFile)
    returns (recMap: RecordMapping, dst: MemoDbt.MemoFile?, m: BlockMapping, done: nat)
    requires a.Valid() && Respects(codec, a.table.sh.size, fields)
    requires forall i :: 0 <= i < |a.indexes| ==> Blind(a.indexes[i].keyFn, a.table.sh.size, fields, codec)
    modifies a`recno, a`atEOF, a`atBOF, a.table, a.Objects()
    ensures a.Valid() && Maps(recMap, old(a.table.Rows()))
    ensures var rows := Surviving(old(a.table.Rows()));
      |a.table.Rows()| == |rows| && forall r :: 0 <= r < |rows| ==> |rows[r]| == a.table.sh.size
    ensures dst != null <==>
      (AllDecode(codec, fields, Surviving(old(a.table.Rows())))
       && forall b: nat ::
            Live(Surviving(old(a.table.Rows())), a.table.sh.size, fields, b) ==> DbtReader(src.file)(b).Some?)
    ensures dst == null ==> a.table.Rows() == Surviving(old(a.table.Rows()))
    ensures dst != null ==> fresh(dst) && dst.Valid() && m.Narrow()
    ensures dst != null ==>
      && RewrittenUpTo(Surviving(old(a.table.Rows())), a.table.Rows(), done, a.table.sh.size, fields, codec, m)
      && (done == |a.table.Rows()| <==>
         AllRewritable(Surviving(old(a.table.Rows())), a.table.sh.size, fields, codec, m))
    ensures forall r :: 0 <= r < |a.table.Rows()| ==>
      OnlyRecoded(Surviving(old(a.table.Rows()))[r], a.table.Rows()[r], fields, codec)
    ensures dst != null && done == |a.table.Rows()| && dst.nextFree <= TWO_32 ==>
      SameReadings(a.table.sh.size, fields, Surviving(old(a.table.Rows())), DbtReader(src.file),
                   a.table.Rows(), DbtReader(dst.file))
  {
    hide InAgreement, Ready, Surviving, Maps, Live, Carried, Repointed, IsRewritten, SameReadings, Blind, RowsOf,
         DbtReader, OnlyRecoded, Respects, AllDecode, AllRewritable;
    recMap := a.Pack();
    ghost var rows := a.table.Rows();
    CodecFits(codec, a.table.sh.size, fields);
    Untouched(rows, fields, codec);
    done := 0;
    dst, m := CompactDbt(a.table, fields, codec, src);
    if dst != null {
      done := Repoint(a, fields, codec, m);
      if done == a.table.recordCount && dst.nextFree <= TWO_32 {
        RewritePreserves(a.table.sh.size, fields, rows, a.table.Rows(), codec, m, DbtReader(src.file),
          DbtReader(dst.file));
      }
    }
  }

  /** The same with an FPT memo file. With a block size beyond the header page some memo is lost,
      unless there is none at all. */
  method PackAllFpt(a: Area, fields: seq<nat>, codec: Codec, src: MemoFpt.FptFile)
    returns (recMap: RecordMapping, dst: MemoFpt.FptFile?, m: BlockMapping, done: nat)
    requires a.Valid() && Respects(codec, a.table.sh.size, fields)
    requires forall i :: 0 <= i < |a.indexes| ==> Blind(a.indexes[i].keyFn, a.table.sh.size, fields, codec)
    requires MemoFpt.GoodBlockSize(src.blockSize)
    modifies a`recno, a`atEOF, a`atBOF, a.table, a.Objects()
    ensures a.Valid() && Maps(recMap, old(a.table.Rows()))
    ensures var rows := Surviving(old(a.table.Rows()));
      |a.table.Rows()| == |rows| && forall r :: 0 <= r < |rows| ==> |rows[r]| == a.table.sh.size
    ensures dst != null <==>
      (AllDecode(codec, fields, Surviving(old(a.table.Rows())))
       && forall b: nat ::
            Live(Surviving(old(a.table.Rows())), a.table.sh.size, fields, b) ==>
              FptReader(src.file, src.blockSize)(b).Some?)
    ensures dst == null ==> a.table.Rows() == Surviving(old(a.table.Rows()))
    ensures dst != null ==> fresh(dst) && dst.Valid() && dst.blockSize == src.blockSize && m.Narrow()
    ensures dst != null ==>
      && RewrittenUpTo(Surviving(old(a.table.Rows())), a.table.Rows(), done, a.table.sh.size, fields, codec, m)
      && (done == |a.table.Rows()| <==>
         AllRewritable(Surviving(old(a.table.Rows())), a.table.sh.size, fields, codec, m))
    ensures forall r :: 0 <= r < |a.table.Rows()| ==>
      OnlyRecoded(Surviving(old(a.table.Rows()))[r], a.table.Rows()[r], fields, codec)
    ensures dst != null && done == |a.table.Rows()| && dst.nextFree <= TWO_32 ==>
      (SameReadings(a.table.sh.size, fields, Surviving(old(a.table.Rows())), FptReader(src.file, src.blockSize),
                    a.table.Rows(), FptReader(dst.file, dst.blockSize))
       <==> src.blockSize <= MemoFpt.HEADER
            || forall b :: !Live(Surviving(old(a.table.Rows())), a.table.sh.size, fields, b))
  {
    hide InAgreement, Ready, Surviving, Maps, Live, Carried, Repointed, IsRewritten, SameReadings, Blind, RowsOf,
         FptReader, OnlyRecoded, Respects, AllDecode, AllRewritable, LosesOne;
    recMap := a.Pack();
    ghost var rows := a.table.Rows();
    CodecFits(codec, a.table.sh.size, fields);
    Untouched(rows, fields, codec);
    done := 0;
    dst, m := CompactFpt(a.table, fields, codec, src);
    if dst != null {
      ghost var get, get2 := FptReader(src.file, src.blockSize), FptReader(dst.file, dst.blockSize);
      done := Repoint(a, fields, codec, m);
      if done == a.table.recordCount {
        if src.blockSize > MemoFpt.HEADER {
          ReadingsLost(a.table.sh.size, fields, rows, a.table.Rows(), codec, m, get, get2);
        } else if dst.nextFree <= TWO_32 {
          RewritePreserves(a.table.sh.size, fields, rows, a.table.Rows(), codec, m, get, get2);
        }
      }
    }
  }

  lemma Untouched(rows: seq<Row>, fields: seq<nat>, codec: Codec)
    ensures forall r :: 0 <= r < |rows| ==> OnlyRecoded(rows[r], rows[r], fields, codec)
  {
  }

  /** A pointer to the lost block reads as no memo now; without live pointers every reading stays. */
  lemma ReadingsLost<T>(size: nat, fields: seq<nat>, rows: seq<Row>, rows2: seq<Row>, codec: Codec, m: BlockMapping,
                        get: nat -> Option<T>, get2: nat -> Option<T>)
    requires Respects(codec, size, fields) && m.Narrow() && |rows2| == |rows|
    requires forall r :: 0 <= r < |rows| ==> |rows[r]| == |rows2[r]| == size
    requires forall r :: 0 <= r < |rows| ==> IsRewritten(rows[r], rows2[r], size, fields, codec, m)
    requires LosesOne(size, fields, rows, m)
    ensures SameReadings(size, fields, rows, get, rows2, get2) <==> forall b :: !Live(rows, size, fields, b)
  {
    hide IsRewritten, PointerOf, Read, Respects;
    CodecFits(codec, size, fields);
    if b :| Live(rows, size, fields, b) {
      var c :| Live(rows, size, fields, c) && c in m.oldToNew && m.oldToNew[c] == 0;
      var r, f :| 0 <= r < |rows| && 0 <= f < |fields| && PointerOf(rows[r], fields[f]) == Present(c);
      ReadingLost(size, fields, rows[r], rows2[r], f, c, codec, m, get, get2);
    } else {
      RewritePreserves(size, fields, rows, rows2, codec, m, get, get2);
    }
  }

  lemma ReadingLost<T>(size: nat, fields: seq<nat>, row: Row, row2: Row, f: nat, c: nat, codec: Codec, m: BlockMapping,
                       get: nat -> Option<T>, get2: nat -> Option<T>)
    requires Respects(codec, size, fields) && m.Narrow() && |row| == |row2| == size && f < |fields|
    requires IsRewritten(row, row2, size, fields, codec, m)
    requires PointerOf(row, fields[f]) == Present(c) && c in m.oldToNew && m.oldToNew[c] == 0
    ensures Read(row, fields[f], get) != Read(row2, fields[f], get2)
  {
    hide Repointed, Parse, FieldOf, Respects, IsRewritten;
    CodecFits(codec, size, fields);
    PointerMoved(row, row2, size, fields, f, codec, m);
    ParseRange(FieldOf(row, fields[f]));
    assert m.oldToNew[c] != c;
  }

  /** Rewriting the pointers of an area's table. */
  method Repoint(a: Area, fields: seq<nat>, codec: Codec, m: BlockMapping) returns (done: nat)
    requires a.Valid() && Respects(codec, a.table.sh.size, fields) && m.Narrow()
    requires forall i :: 0 <= i < |a.indexes| ==> Blind(a.indexes[i].keyFn, a.table.sh.size, fields, codec)
    modifies a.table
    ensures a.Valid() && a.table.recordCount == old(a.table.recordCount)
    ensures RewrittenUpTo(old(a.table.Rows()), a.table.Rows(), done, a.table.sh.size, fields, codec, m)
    ensures done == a.table.recordCount <==> AllRewritable(old(a.table.Rows()), a.table.sh.size, fields, codec, m)
    ensures forall r :: 0 <= r < |a.table.Rows()| ==>
      OnlyRecoded(old(a.table.Rows())[r], a.table.Rows()[r], fields, codec)
  {
    hide InAgreement, IsRewritten, Blind, FieldsOk, Ready, Respects, OnlyRecoded;
    ghost var rows := a.table.Rows();
    CodecFits(codec, a.table.sh.size, fields);
    done := RewriteMemoPointers(a.table, fields, codec, m);
    Untouched(rows, fields, codec);
    forall r | 0 <= r < |rows| ensures OnlyRecoded(rows[r], a.table.Rows()[r], fields, codec) {
      if r < done {
        RewrittenOutside(rows[r], a.table.Rows()[r], a.table.sh.size, fields, codec, m);
      }
    }
    forall i | 0 <= i < |a.indexes| ensures InAgreement(a.indexes[i], a.table.Rows()) {
      assert InAgreement(a.indexes[i], rows);
      StillAgrees(a.indexes[i], a.table.sh.size, fields, rows, a.table.Rows(), codec);
    }
  }
}
