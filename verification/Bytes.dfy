/** Byte strings as files and page buffers see them: fixed-width integers, slices and overwriting. */
module Bytes {
  import opened Entries

  const TWO_32 := 0x1_0000_0000

  /** 256 to the n. */
  function Span(n: nat): (r: nat)
    ensures r > 0
  {
    if n == 0 then 1 else 256 * Span(n - 1)
  }

  lemma SpanFacts()
    ensures Span(1) == 256 && Span(2) == 65536 && Span(3) == 0x100_0000 && Span(4) == TWO_32
  {
    assert Span(2) == 256 * Span(1);
    assert Span(3) == 256 * Span(2);
    assert Span(4) == 256 * Span(3);
  }

  // ---------------------------------------------------------------- integers

  /** What two and four bytes stand for, low byte first and high byte first. */
  lemma LePair(b: seq<byte>)
    requires |b| == 2
    ensures Le(b) == b[0] + 0x100 * (b[1] as int)
  {
    assert Le(b[1..]) == b[1] + 256 * Le(b[2..]);
  }

  lemma LeFour(b: seq<byte>)
    requires |b| == 4
    ensures Le(b) == b[0] + 0x100 * (b[1] as int) + 0x1_0000 * (b[2] as int) + 0x100_0000 * (b[3] as int)
  {
    LePair(b[2..]);
    assert b[1..][1..] == b[2..];
    assert Le(b[1..]) == b[1] + 256 * Le(b[2..]);
  }

  lemma BePair(b: seq<byte>)
    requires |b| == 2
    ensures Be(b) == 0x100 * (b[0] as int) + b[1]
  {
    LePair(Backwards(b));
  }

  lemma BeFour(b: seq<byte>)
    requires |b| == 4
    ensures Be(b) == 0x100_0000 * (b[0] as int) + 0x1_0000 * (b[1] as int) + 0x100 * (b[2] as int) + b[3]
  {
    LeFour(Backwards(b));
  }

  /** And the bytes a number is written as. */
  lemma LeBytesAre(v: nat)
    ensures LeBytes(v, 2) == [v % 256, v / 0x100 % 256]
    ensures LeBytes(v, 3) == [v % 256, v / 0x100 % 256, v / 0x1_0000 % 256]
    ensures LeBytes(v, 4) == [v % 256, v / 0x100 % 256, v / 0x1_0000 % 256, v / 0x100_0000 % 256]
  {
    forall w: nat, n: nat | n > 0 ensures LeBytes(w, n) == [w % 256] + LeBytes(w / 256, n - 1) {
    }
    assert v / 0x100 / 256 == v / 0x1_0000 && v / 0x1_0000 / 256 == v / 0x100_0000;
    assert LeBytes(v / 0x100_0000, 1) == [v / 0x100_0000 % 256];
    assert LeBytes(v / 0x1_0000, 1) == [v / 0x1_0000 % 256];
    assert LeBytes(v / 0x100, 1) == [v / 0x100 % 256];
  }

  lemma BeBytesAre(v: nat)
    ensures BeBytes(v, 2) == [v / 0x100 % 256, v % 256]
    ensures BeBytes(v, 4) == [v / 0x100_0000 % 256, v / 0x1_0000 % 256, v / 0x100 % 256, v % 256]
  {
    LeBytesAre(v);
  }

  /** Little-endian value. */
  function Le(b: seq<byte>): (v: nat)
    ensures v < Span(|b|)
  {
    if b == [] then 0 else b[0] + 256 * Le(b[1..])
  }

  /** The n low bytes of v, least significant first. */
  function LeBytes(v: nat, n: nat): (b: seq<byte>)
    ensures |b| == n
  {
    if n == 0 then [] else [v % 256] + LeBytes(v / 256, n - 1)
  }

  lemma ModStep(v: nat, m: nat)
    requires m > 0
    ensures v % (256 * m) == v % 256 + 256 * (v / 256 % m)
  {
    var q, r := v / 256 / m, v / 256 % m;
    assert v == 256 * (q * m + r) + v % 256;
    assert 256 * (q * m) == q * (256 * m);
    assert 0 <= 256 * r + v % 256 < 256 * m;
    DivModUnique(v, 256 * m, q, 256 * r + v % 256);
  }

  lemma DivModUnique(v: nat, d: nat, q: nat, r: nat)
    requires d > 0 && r < d && v == q * d + r
    ensures v / d == q && v % d == r
  {
    var k: int := v / d - q;
    assert v == (v / d) * d + v % d;
    assert k * d == (v / d) * d - q * d;
    MultipleIsFar(k, d);
  }

  lemma MultipleIsFar(k: int, d: nat)
    ensures k >= 1 ==> k * d >= d
    ensures k <= -1 ==> k * d + d <= 0
  {
    assert k >= 1 ==> (k - 1) * d >= 0;
    assert k <= -1 ==> (-1 - k) * d >= 0;
  }

  /** Writing a number in n bytes and reading it back truncates it to n bytes. */
  lemma {:induction false} LeRoundTrip(v: nat, n: nat)
    ensures Le(LeBytes(v, n)) == v % Span(n)
  {
    if n > 0 {
      var b := LeBytes(v, n);
      assert b[1..] == LeBytes(v / 256, n - 1);
      LeRoundTrip(v / 256, n - 1);
      ModStep(v, Span(n - 1));
    }
  }

  /** A number that fits four bytes survives them. */
  lemma Le4(v: nat)
    ensures Le(LeBytes(v, 4)) == v % TWO_32
    ensures v < TWO_32 ==> Le(LeBytes(v, 4)) == v
  {
    LeRoundTrip(v, 4);
    SpanFacts();
  }

  lemma Le2(v: nat)
    ensures Le(LeBytes(v, 2)) == v % 65536
    ensures v < 65536 ==> Le(LeBytes(v, 2)) == v
  {
    LeRoundTrip(v, 2);
    SpanFacts();
  }

  /** Big-endian value. */
  function Be(b: seq<byte>): nat {
    Le(Backwards(b))
  }

  function BeBytes(v: nat, n: nat): (b: seq<byte>)
    ensures |b| == n
  {
    Backwards(LeBytes(v, n))
  }

  function Backwards(b: seq<byte>): (r: seq<byte>)
    ensures |r| == |b| && forall i :: 0 <= i < |b| ==> r[i] == b[|b| - 1 - i]
  {
    if b == [] then [] else Backwards(b[1..]) + [b[0]]
  }

  lemma BeRoundTrip(v: nat, n: nat)
    ensures Be(BeBytes(v, n)) == v % Span(n)
  {
    var b := LeBytes(v, n);
    assert Backwards(Backwards(b)) == b;
    LeRoundTrip(v, n);
  }

  lemma MulMonotone(a: nat, b: nat, d: nat)
    requires a <= b
    ensures a * d <= b * d
  {
    assert (b - a) * d >= 0;
  }

  lemma AtMostQuotient(n: nat, d: nat, v: nat)
    requires d > 0
    ensures n * d <= v <==> n <= v / d
  {
    var q := v / d;
    assert v == q * d + v % d;
    if n <= q {
      MulMonotone(n, q, d);
    } else {
      MulMonotone(q + 1, n, d);
      assert (q + 1) * d == q * d + d;
    }
  }

  /** Rounding up to whole blocks covers the data, with at least one block. */
  lemma BlocksCover(len: nat, bs: nat, block: nat)
    requires bs > 0 && len > 0
    ensures var needed := (len + bs - 1) / bs;
      needed >= 1 && needed * bs >= len && block * bs + needed * bs == (block + needed) * bs
  {
    var needed := (len + bs - 1) / bs;
    assert len + bs - 1 == needed * bs + (len + bs - 1) % bs;
    AtMostQuotient(1, bs, len + bs - 1);
  }

  // ---------------------------------------------------------------- overwriting

  /** s with b written over it from position p on; the result grows when b reaches past the end. */
  function Splice<T>(s: seq<T>, p: nat, b: seq<T>): (r: seq<T>)
    requires p <= |s|
    ensures |r| == if p + |b| <= |s| then |s| else p + |b|
    ensures r[p..p + |b|] == b
    ensures forall i :: 0 <= i < |r| ==> r[i] == if p <= i < p + |b| then b[i - p] else s[i]
  {
    s[..p] + b + if p + |b| <= |s| then s[p + |b|..] else []
  }

  /** A slice clear of the written range is unchanged. */
  lemma SpliceApart<T>(s: seq<T>, p: nat, b: seq<T>, q: nat, n: nat)
    requires p <= |s| && q + n <= |s| && (q + n <= p || p + |b| <= q)
    ensures Splice(s, p, b)[q..q + n] == s[q..q + n]
  {
  }

  /** Part of what was just written. */
  lemma SpliceWithin<T>(s: seq<T>, p: nat, b: seq<T>, q: nat, n: nat)
    requires p <= |s| && q + n <= |b|
    ensures Splice(s, p, b)[p + q..p + q + n] == b[q..q + n]
  {
  }

  /** Writing two adjacent pieces is writing them at once. */
  lemma SpliceTwice<T>(s: seq<T>, p: nat, a: seq<T>, b: seq<T>)
    requires p <= |s|
    ensures Splice(Splice(s, p, a), p + |a|, b) == Splice(s, p, a + b)
  {
  }

  lemma SliceOfSlice(s: seq<byte>, at: nat, n: nat, from: nat, k: nat)
    requires at + n <= |s| && from + k <= n
    ensures s[at..at + n][from..from + k] == s[at + from..at + from + k]
  {
    var l, r := s[at..at + n][from..from + k], s[at + from..at + from + k];
    assert forall i :: 0 <= i < k ==> l[i] == r[i];
  }

  /** Three pieces in a row, read back from the place they stand. */
  lemma ThreePieces(s: seq<byte>, at: nat, a: seq<byte>, b: seq<byte>, c: seq<byte>)
    requires at + |a| + |b| + |c| <= |s| && s[at..at + |a| + |b| + |c|] == a + b + c
    ensures s[at..at + |a|] == a && s[at + |a|..at + |a| + |b|] == b && s[at + |a| + |b|..at + |a| + |b| + |c|] == c
  {
    var n := |a| + |b| + |c|;
    var w := s[at..at + n];
    SliceOfSlice(s, at, n, 0, |a|);
    SliceOfSlice(s, at, n, |a|, |b|);
    SliceOfSlice(s, at, n, |a| + |b|, |c|);
    assert w[0..|a|] == a && w[|a|..|a| + |b|] == b && w[|a| + |b|..n] == c;
  }

  /** Copies b into the buffer from position p on. */
  method Put(buf: array<byte>, p: nat, b: seq<byte>)
    requires p + |b| <= buf.Length
    modifies buf
    ensures buf[..] == Splice(old(buf[..]), p, b)
  {
    var i := 0;
    while i < |b|
      invariant i <= |b|
      invariant forall k :: 0 <= k < buf.Length ==> buf[k] == if p <= k < p + i then b[k - p] else old(buf[k])
    {
      buf[p + i] := b[i];
      i := i + 1;
    }
  }

  function Zeros(n: nat): (z: seq<byte>)
    ensures |z| == n && forall i :: 0 <= i < n ==> z[i] == 0
  {
    seq(n, _ => 0)
  }

  /** A flat byte array written at pos: a gap behind the old end is filled with zeros. */
  function Overwritten(s: seq<byte>, pos: nat, p: seq<byte>): (r: seq<byte>)
    ensures |r| == if pos + |p| > |s| then pos + |p| else |s|
  {
    if pos <= |s| then Splice(s, pos, p) else s + Zeros(pos - |s|) + p
  }

  lemma OverwrittenAt(s: seq<byte>, pos: nat, p: seq<byte>, i: nat)
    requires i < |Overwritten(s, pos, p)|
    ensures Overwritten(s, pos, p)[i] == if pos <= i < pos + |p| then p[i - pos] else if i < |s| then s[i] else 0
  {
  }

  /** A file after a piece was added at some offset and the header at its start rewritten. */
  ghost predicate Added(before: seq<byte>, after: seq<byte>, at: nat, buf: seq<byte>, head: seq<byte>) {
    |head| <= |before| && |head| <= at && after == Splice(Overwritten(before, at, buf), 0, head)
  }

  lemma AddedRegions(before: seq<byte>, after: seq<byte>, at: nat, buf: seq<byte>, head: seq<byte>, lo: nat, hi: nat)
    requires Added(before, after, at, buf, head)
    ensures at + |buf| <= |after| && after[at..at + |buf|] == buf && |after| >= |before|
    ensures after[..|head|] == head
    ensures |head| <= lo <= hi <= at && hi <= |before| ==> hi <= |after| && after[lo..hi] == before[lo..hi]
  {
    var mid := Overwritten(before, at, buf);
    assert mid[at..at + |buf|] == buf;
    SpliceApart(mid, 0, head, at, |buf|);
    assert after[0..|head|] == head;
    if |head| <= lo <= hi <= at && hi <= |before| {
      assert mid[lo..hi] == before[lo..hi];
      SpliceApart(mid, 0, head, lo, hi - lo);
    }
  }
}
