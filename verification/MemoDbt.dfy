/** dBASE III+ memo files: headerless 512-byte blocks, texts ended by a pair of 0x1A bytes. */
module MemoDbt {
  import opened Entries
  import opened Bytes

  const BLOCK := 512
  const MARK: byte := 0x1A
  const END: seq<byte> := [MARK, MARK]

  predicate PairAt(s: seq<byte>, i: nat) {
    i + 1 < |s| && s[i] == MARK && s[i + 1] == MARK
  }

  /** The memo that starts where s does: up to the first pair of marks, or all of s less a lone mark
      at its end. */
  function Text(s: seq<byte>): (t: seq<byte>)
    ensures t <= s
  {
    if s == [] || PairAt(s, 0) || s == [MARK] then []
    else [s[0]] + Text(s[1..])
  }

  /** Texts that survive storage: no pair of marks inside, no mark at the end. */
  ghost predicate InDomain(t: seq<byte>) {
    (forall i :: 0 <= i < |t| ==> !PairAt(t, i)) && (t != [] ==> t[|t| - 1] != MARK)
  }

  lemma {:induction false} TextAtPair(s: seq<byte>, i: nat)
    requires PairAt(s, i) && forall j :: 0 <= j < i ==> !PairAt(s, j)
    ensures Text(s) == s[..i]
  {
    if i > 0 {
      assert PairAt(s[1..], i - 1);
      forall j | 0 <= j < i - 1 ensures !PairAt(s[1..], j) {
        assert !PairAt(s, j + 1);
      }
      TextAtPair(s[1..], i - 1);
      assert s[..i] == [s[0]] + s[1..][..i - 1];
    }
  }

  lemma {:induction false} TextWithoutPair(s: seq<byte>)
    requires forall j :: 0 <= j < |s| ==> !PairAt(s, j)
    ensures Text(s) == if s != [] && s[|s| - 1] == MARK then s[..|s| - 1] else s
  {
    if s != [] && s != [MARK] {
      assert !PairAt(s, 0);
      forall j | 0 <= j < |s| - 1 ensures !PairAt(s[1..], j) {
        assert !PairAt(s, j + 1);
      }
      TextWithoutPair(s[1..]);
      assert s == [s[0]] + s[1..];
    }
  }

  /** Whatever is read from a memo file can be stored again without loss. */
  lemma {:induction false} TextInDomain(s: seq<byte>)
    ensures InDomain(Text(s))
  {
    if s != [] && !PairAt(s, 0) && s != [MARK] {
      TextInDomain(s[1..]);
      var t := Text(s[1..]);
      forall i | 0 <= i < |[s[0]] + t| ensures !PairAt([s[0]] + t, i) {
        if i > 0 { assert !PairAt(t, i - 1); }
      }
    }
  }

  /** A text is read back exactly when it is in the domain, whatever follows its terminator. */
  lemma TextRoundTrip(t: seq<byte>, rest: seq<byte>)
    ensures Text(t + END + rest) == t <==> InDomain(t)
  {
    var s := t + END + rest;
    if InDomain(t) {
      forall j | 0 <= j < |t| ensures !PairAt(s, j) {
        assert !PairAt(t, j);
      }
      assert PairAt(s, |t|);
      TextAtPair(s, |t|);
      assert s[..|t|] == t;
    }
    TextInDomain(s);
  }

  /** What of an appended text can be read back. */
  function Kept(t: seq<byte>): (k: seq<byte>)
  {
    Text(t + END)
  }

  lemma {:induction false} TextIgnoresRest(s: seq<byte>, rest: seq<byte>, t: seq<byte>)
    requires s == t + END
    ensures Text(s + rest) == Text(s) && |Text(s)| + 2 <= |s| && s[..|Text(s)| + 2] == Text(s) + END
  {
    if t == [] {
      assert PairAt(s, 0) && PairAt(s + rest, 0);
      assert s[..2] == END;
    } else {
      assert s[1..] == t[1..] + END;
      assert (s + rest)[1..] == s[1..] + rest;
      TextIgnoresRest(s[1..], rest, t[1..]);
      if PairAt(s, 0) {
        assert s[..2] == END;
      } else {
        assert s[..|Text(s)| + 2] == [s[0]] + s[1..][..|Text(s[1..])| + 2];
      }
    }
  }

  method FindTerminator(text: seq<byte>) returns (r: Option<nat>)
    ensures r.Some? ==> PairAt(text, r.value) && forall j :: 0 <= j < r.value ==> !PairAt(text, j)
    ensures r.None? ==> forall j :: 0 <= j < |text| ==> !PairAt(text, j)
  {
    var i := 0;
    while i + 1 < |text|
      invariant forall j :: 0 <= j < i ==> !PairAt(text, j)
    {
      if text[i] == MARK && text[i + 1] == MARK {
        return Some(i);
      }
      i := i + 1;
    }
    return None;
  }

  method TrimTerminator(text: seq<byte>) returns (t: seq<byte>)
    ensures t == Text(text)
  {
    var end := FindTerminator(text);
    if end.Some? {
      TextAtPair(text, end.value);
      return text[..end.value];
    }
    TextWithoutPair(text);
    if |text| > 0 && text[|text| - 1] == MARK {
      return text[..|text| - 1];
    }
    return text;
  }

  /** The memo at a block number, read from the file as a whole. */
  function Content(file: seq<byte>, block: nat): Option<seq<byte>> {
    if block == 0 || block * BLOCK >= |file| then None else Some(Text(file[block * BLOCK..]))
  }

  /** What a block number reads as, in bytes: the text at 512 times the number, up to the first pair of 0x1A
      bytes, or else to the end of the file, less one 0x1A that stands there. */
  lemma ContentMeans(file: seq<byte>, block: nat)
    ensures Content(file, block).None? <==> block == 0 || 512 * block >= |file|
    ensures Content(file, block).Some? ==> var rest, t := file[512 * block..], Content(file, block).value;
      && |t| <= |rest| && t == rest[..|t|]
      && (forall i :: 0 <= i < |t| && i + 1 < |rest| ==> !(rest[i] == 0x1A && rest[i + 1] == 0x1A))
      && (|| (|t| + 1 < |rest| && rest[|t|] == 0x1A && rest[|t| + 1] == 0x1A)
          || (|t| + 1 == |rest| && rest[|t|] == 0x1A)
          || (|t| == |rest| && rest[|rest| - 1] != 0x1A))
  {
    if block != 0 && 512 * block < |file| {
      var rest := file[512 * block..];
      TextMeans(rest);
      assert rest == file[block * BLOCK..];
      assert Content(file, block) == Some(Text(rest));
      hide Text;
      forall i | 0 <= i < |rest| ensures PairAt(rest, i) <==> i + 1 < |rest| && rest[i] == 0x1A && rest[i + 1] == 0x1A {
      }
    }
  }

  lemma {:induction false} TextMeans(s: seq<byte>)
    ensures forall i :: 0 <= i < |Text(s)| && i + 1 < |s| ==> !PairAt(s, i)
    ensures || PairAt(s, |Text(s)|)
            || (|Text(s)| + 1 == |s| && s[|Text(s)|] == MARK)
            || (|Text(s)| == |s| && (s == [] || s[|s| - 1] != MARK))
  {
    if s != [] && !PairAt(s, 0) && s != [MARK] {
      var t, r := Text(s), s[1..];
      TextMeans(r);
      assert |t| == |Text(r)| + 1;
      forall i | 0 <= i < |t| && i + 1 < |s| ensures !PairAt(s, i) {
        assert i > 0 ==> !PairAt(r, i - 1);
      }
    }
  }

  /** A stored memo, complete with its terminator, below the next free block. */
  ghost predicate Settled(file: seq<byte>, nextFree: nat, block: nat, t: seq<byte>) {
    && block >= 1 && InDomain(t) && block * BLOCK + |t| + 2 <= nextFree * BLOCK
    && block * BLOCK + |t| + 2 <= |file| && file[block * BLOCK..block * BLOCK + |t| + 2] == t + END
  }

  lemma SettledContent(file: seq<byte>, nextFree: nat, block: nat, t: seq<byte>)
    requires Settled(file, nextFree, block, t)
    ensures Content(file, block) == Some(t)
  {
    var at := block * BLOCK;
    var rest := file[at + |t| + 2..];
    assert file[at..] == t + END + rest by {
      assert file[at..] == file[at..at + |t| + 2] + rest;
    }
    TextRoundTrip(t, rest);
  }

  class MemoFile {
    var file: seq<byte>
    var nextFree: nat
    /** The memos appended or known to be stored, by block. */
    ghost var memos: map<nat, seq<byte>>

    ghost predicate Valid()
      reads this
    {
      && |file| >= 4 && nextFree >= 1 && Le(file[..4]) == nextFree % TWO_32
      && forall b :: b in memos ==> Settled(file, nextFree, b, memos[b])
    }

    /** An empty memo file: one header block. */
    constructor Create()
      ensures Valid() && memos == map[] && nextFree == 1
    {
      file := Splice(Zeros(BLOCK), 0, LeBytes(1, 4));
      nextFree, memos := 1, map[];
      new;
      Le4(1);
      assert file[..4] == file[0..4] == LeBytes(1, 4);
    }

    /** An existing file; known are memos it is known to store. */
    constructor Open(file: seq<byte>, ghost known: map<nat, seq<byte>>)
      requires |file| >= 4 && Le(file[..4]) != 0
      requires forall b :: b in known ==> Settled(file, Le(file[..4]), b, known[b])
      ensures Valid() && this.file == file && memos == known
    {
      SpanFacts();
      this.file, nextFree, memos := file, Le(file[..4]), known;
    }

    /** Reads block by block until a terminator turns up or the file ends. */
    method Get(block: nat) returns (r: Option<seq<byte>>)
      ensures r == Content(file, block)
      ensures Valid() && block in memos ==> r == Some(memos[block])
    {
      if Valid() && block in memos {
        SettledContent(file, nextFree, block, memos[block]);
      }
      if block == 0 {
        return None;
      }
      var at := block * BLOCK;
      var text: seq<byte> := [];
      while true
        invariant |text| > 0 ==> at + |text| <= |file|
        invariant text == if |text| > 0 then file[at..at + |text|] else []
        decreases |file| - at - |text|
      {
        if at + |text| + BLOCK > |file| {
          if at + |text| >= |file| && |text| == 0 {
            return None;
          }
          text := text + file[at + |text|..];
          assert text == file[at..];
          var t := TrimTerminator(text);
          return Some(t);
        }
        text := text + file[at + |text|..at + |text| + BLOCK];
        var end := FindTerminator(text);
        if end.Some? {
          var whole := file[at..];
          assert text == whole[..|text|];
          FirstPairOfPrefix(whole, |text|, end.value);
          TextAtPair(whole, end.value);
          return Some(text[..end.value]);
        }
      }
    }

    /** Writes a memo at the next free block. Earlier memos are not touched. */
    method Append(text: seq<byte>) returns (block: nat)
      requires Valid()
      modifies this
      ensures Valid() && block == old(nextFree) && block !in old(memos) && nextFree > block
      ensures memos == old(memos)[block := Kept(text)]
      ensures Kept(text) == text <==> InDomain(text)
      ensures Content(file, block) == Some(Kept(text))
      ensures 512 * block + |text| + 2 <= |file|
      ensures file[512 * block..512 * block + |text| + 2] == text + [0x1A, 0x1A]
      ensures nextFree == block + (|text| + 2 + 511) / 512
      ensures nextFree % 0x1_0000_0000
        == file[0] + 0x100 * (file[1] as int) + 0x1_0000 * (file[2] as int) + 0x100_0000 * (file[3] as int)
    {
      block := nextFree;
      var blocks := (|text| + 2 + BLOCK - 1) / BLOCK;
      var buf := text + END + Zeros(blocks * BLOCK - |text| - 2);
      ghost var before := file;
      file := Overwritten(file, block * BLOCK, buf);
      nextFree := block + blocks;
      file := Splice(file, 0, LeBytes(nextFree, 4));
      Le4(nextFree);
      assert file[..4] == file[0..4] == LeBytes(nextFree, 4);
      forall b | b in memos ensures Settled(file, nextFree, b, memos[b]) {
        SettledKept(before, file, block, nextFree, b, memos[b], buf, LeBytes(nextFree, 4));
      }
      SettledNew(before, file, block, nextFree, text, buf, LeBytes(nextFree, 4));
      SettledContent(file, nextFree, block, Kept(text));
      memos := memos[block := Kept(text)];
      TextRoundTrip(text, []);
      assert text + END + [] == text + END;
      Landed(before, file, block, text, buf, LeBytes(nextFree, 4));
      LeFour(file[..4]);
    }
  }

  lemma FirstPairOfPrefix(s: seq<byte>, n: nat, i: nat)
    requires n <= |s| && PairAt(s[..n], i) && forall j :: 0 <= j < i ==> !PairAt(s[..n], j)
    ensures PairAt(s, i) && (forall j :: 0 <= j < i ==> !PairAt(s, j)) && s[..n][..i] == s[..i]
  {
    forall j | 0 <= j < i ensures !PairAt(s, j) {
      assert !PairAt(s[..n], j);
    }
  }

  lemma SettledKept(before: seq<byte>, after: seq<byte>, block: nat, nextFree: nat, b: nat, t: seq<byte>,
                    buf: seq<byte>, head: seq<byte>)
    requires |head| == 4 && Added(before, after, block * BLOCK, buf, head) && Settled(before, block, b, t)
    requires nextFree >= block
    ensures Settled(after, nextFree, b, t)
  {
    AddedRegions(before, after, block * BLOCK, buf, head, b * BLOCK, b * BLOCK + |t| + 2);
  }

  lemma Landed(before: seq<byte>, after: seq<byte>, block: nat, text: seq<byte>, buf: seq<byte>, head: seq<byte>)
    requires block >= 1 && |head| == 4 && Added(before, after, block * BLOCK, buf, head) && text + END <= buf
    ensures 512 * block + |text| + 2 <= |after|
    ensures after[512 * block..512 * block + |text| + 2] == text + [0x1A, 0x1A]
  {
    var at := block * BLOCK;
    AddedRegions(before, after, at, buf, head, at, at);
    SliceStart(after, at, |buf|, |text| + 2);
    assert buf[..|text| + 2] == text + END;
  }

  lemma SettledNew(before: seq<byte>, after: seq<byte>, block: nat, nextFree: nat, text: seq<byte>, buf: seq<byte>,
                   head: seq<byte>)
    requires block >= 1 && |head| == 4 && Added(before, after, block * BLOCK, buf, head)
    requires text + END <= buf && |buf| <= (nextFree - block) * BLOCK && nextFree >= block
    ensures Settled(after, nextFree, block, Kept(text))
  {
    var t, at := Kept(text), block * BLOCK;
    TextInDomain(text + END);
    TextIgnoresRest(text + END, [], text);
    AddedRegions(before, after, at, buf, head, at, at);
    assert buf[..|t| + 2] == (text + END)[..|t| + 2] == t + END;
    SliceStart(after, at, |buf|, |t| + 2);
  }

  lemma SliceStart(s: seq<byte>, at: nat, n: nat, k: nat)
    requires at + n <= |s| && k <= n
    ensures s[at..at + n][..k] == s[at..at + k]
  {
  }
}
