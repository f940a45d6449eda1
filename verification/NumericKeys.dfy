/** Numeric index keys: fixed-width digits that compare as bytes the way the numbers compare.
    Numbers are taken as integers scaled by ten to the number of decimals. */
module NumericKeys {
  import opened Entries
  import opened Bytes
  import opened Decimal

  const POINT: byte := 0x2E
  const MAX_KEY := 250

  // ---------------------------------------------------------------- fixed-width digits

  /** The last k decimal digits of n, with leading zeros. */
  function Fixed(n: nat, k: nat): (d: seq<byte>)
    ensures |d| == k && AllDigits(d)
  {
    if k == 0 then [] else Fixed(n / 10, k - 1) + [ZERO + n % 10]
  }

  /** Digits filled up with zeros are fixed-width digits. */
  lemma {:induction false} FilledDigits(n: nat, k: nat)
    requires |DigitsOf(n)| <= k
    ensures Repeat(ZERO, k - |DigitsOf(n)|) + DigitsOf(n) == Fixed(n, k)
  {
    var fill := k - |DigitsOf(n)|;
    if n < 10 {
      FixedZero(k - 1);
      assert Fixed(n, k) == Fixed(0, k - 1) + [ZERO + n];
    } else {
      FilledDigits(n / 10, k - 1);
      assert Repeat(ZERO, fill) + DigitsOf(n) == (Repeat(ZERO, fill) + DigitsOf(n / 10)) + [ZERO + n % 10];
    }
  }

  lemma {:induction false} FixedZero(k: nat)
    ensures Fixed(0, k) == Repeat(ZERO, k)
  {
    if k > 0 {
      FixedZero(k - 1);
      assert Repeat(ZERO, k) == Repeat(ZERO, k - 1) + [ZERO];
    }
  }

  /** Of two strings of one length, the first difference decides. */
  lemma {:induction false} CompareJoined(a: seq<byte>, b: seq<byte>, x: seq<byte>, y: seq<byte>)
    requires |a| == |b|
    ensures CompareKeys(a, b) < 0 ==> CompareKeys(a + x, b + y) < 0
    ensures a == b ==> CompareKeys(a + x, b + y) == CompareKeys(x, y)
  {
    if a == [] {
      assert a + x == x && b + y == y;
    } else {
      assert (a + x)[1..] == a[1..] + x && (b + y)[1..] == b[1..] + y;
      CompareJoined(a[1..], b[1..], x, y);
    }
  }

  /** n without its last k digits. */
  function Whole(n: nat, k: nat): nat {
    if k == 0 then n else Whole(n / 10, k - 1)
  }

  /** Of two numbers the larger has the larger front part, or an equal one and larger last digits. */
  lemma {:induction false} SplitOrder(m: nat, n: nat, k: nat)
    requires m < n
    ensures Whole(m, k) < Whole(n, k) || (Whole(m, k) == Whole(n, k) && CompareKeys(Fixed(m, k), Fixed(n, k)) < 0)
  {
    if k > 0 {
      CompareJoined(Fixed(m / 10, k - 1), Fixed(n / 10, k - 1), [ZERO + m % 10], [ZERO + n % 10]);
      if m / 10 < n / 10 {
        SplitOrder(m / 10, n / 10, k - 1);
      }
    }
  }

  lemma {:induction false} WholeOfSmall(n: nat, k: nat)
    requires n < Ten(k)
    ensures Whole(n, k) == 0
  {
    if k > 0 {
      WholeOfSmall(n / 10, k - 1);
    }
  }

  /** Fixed-width digits are ordered like the numbers that fit them. */
  lemma FixedOrder(m: nat, n: nat, k: nat)
    requires m < n < Ten(k)
    ensures CompareKeys(Fixed(m, k), Fixed(n, k)) < 0
  {
    SplitOrder(m, n, k);
    WholeOfSmall(m, k);
    WholeOfSmall(n, k);
  }

  // ---------------------------------------------------------------- rendering

  /** A non-negative number with its decimals, as short as it gets. */
  function Rendered(n: nat, decimals: nat): seq<byte> {
    if decimals == 0 then DigitsOf(n)
    else DigitsOf(Whole(n, decimals)) + [POINT] + Fixed(n, decimals)
  }

  /** The same in a field of the given width, zero filled. */
  function Field(n: nat, width: nat, decimals: nat): seq<byte>
    requires decimals > 0 ==> decimals + 2 <= width
  {
    if decimals == 0 then Fixed(n, width)
    else Fixed(Whole(n, decimals), width - decimals - 1) + [POINT] + Fixed(n, decimals)
  }

  /** What a field of this width can show. */
  predicate FitsField(n: nat, width: nat, decimals: nat) {
    width > 0 && (decimals > 0 ==> decimals + 2 <= width) && |Rendered(n, decimals)| <= width
  }

  lemma FieldIsFilled(n: nat, width: nat, decimals: nat)
    requires FitsField(n, width, decimals)
    ensures Repeat(ZERO, width - |Rendered(n, decimals)|) + Rendered(n, decimals) == Field(n, width, decimals)
    ensures |Field(n, width, decimals)| == width
  {
    hide Fixed, Whole, DigitsOf, Repeat;
    if decimals == 0 {
      FilledDigits(n, width);
    } else {
      var w := Whole(n, decimals);
      FilledDigits(w, width - decimals - 1);
      var fill := width - |Rendered(n, decimals)|;
      assert Repeat(ZERO, fill) + (DigitsOf(w) + [POINT] + Fixed(n, decimals))
          == (Repeat(ZERO, fill) + DigitsOf(w)) + [POINT] + Fixed(n, decimals);
    }
  }

  lemma {:induction false} FixedValue(n: nat, k: nat)
    requires n < Ten(k)
    ensures ValueOf(Fixed(n, k)) == n
  {
    if k > 0 {
      FixedValue(n / 10, k - 1);
      assert Fixed(n, k)[..k - 1] == Fixed(n / 10, k - 1);
    }
  }

  lemma {:induction false} FixedJoin(n: nat, k: nat, d: nat)
    ensures Fixed(Whole(n, d), k) + Fixed(n, d) == Fixed(n, k + d)
    ensures Whole(n, d) < Ten(k) <==> n < Ten(k + d)
  {
    if d > 0 {
      FixedJoin(n / 10, k, d - 1);
      assert Fixed(Whole(n, d), k) + Fixed(n, d)
        == Fixed(Whole(n / 10, d - 1), k) + Fixed(n / 10, d - 1) + [ZERO + n % 10];
      assert n / 10 < Ten(k + d - 1) <==> n < Ten(k + d);
    } else {
      assert Fixed(n, k) + [] == Fixed(n, k);
    }
  }

  /** A number fits if it has no more digits than there are places, the point taking one of them. */
  lemma FitsWhen(n: nat, width: nat, decimals: nat)
    ensures FitsField(n, width, decimals) <==>
      width > 0 && (decimals > 0 ==> decimals + 2 <= width) && n < Ten(if decimals > 0 then width - 1 else width)
  {
    hide Ten;
    if width > 0 && decimals == 0 {
      DigitsWidth(n, width);
    } else if width > 0 && decimals + 2 <= width {
      var k := width - decimals - 1;
      FixedJoin(n, k, decimals);
      DigitsWidth(Whole(n, decimals), k);
    }
  }

  /** What a field shows: digits, with a point in front of the decimals, that make up the number. */
  lemma FieldMeans(n: nat, width: nat, decimals: nat)
    requires FitsField(n, width, decimals)
    ensures |Field(n, width, decimals)| == width
    ensures decimals == 0 ==>
      AllDigits(Field(n, width, 0)) && ValueOf(Field(n, width, 0)) == n
    ensures decimals > 0 ==>
      var f, point := Field(n, width, decimals), width - decimals - 1;
      f[point] == 0x2E && AllDigits(f[..point] + f[point + 1..]) && ValueOf(f[..point] + f[point + 1..]) == n
  {
    FitsWhen(n, width, decimals);
    FieldIsFilled(n, width, decimals);
    hide Ten, Rendered, Fixed, Whole, FitsField, ValueOf;
    if decimals == 0 {
      FixedValue(n, width);
    } else {
      var k := width - decimals - 1;
      FixedJoin(n, k, decimals);
      FixedValue(n, k + decimals);
      Pointed(Fixed(Whole(n, decimals), k), Fixed(n, decimals));
    }
  }

  lemma Pointed(a: seq<byte>, b: seq<byte>)
    ensures var f := a + [POINT] + b; f[|a|] == 0x2E && f[..|a|] + f[|a| + 1..] == a + b
  {
  }

  /** Renders a number zero padded; None stands for the errors of a width too small. */
  method FormatNumeric(n: nat, width: int, decimals: int) returns (out: array<byte>, ok: bool)
    ensures fresh(out) && (ok <==> width >= 0 && decimals >= 0 && FitsField(n, width, decimals))
    ensures ok ==> out[..] == Field(n, width, decimals)
  {
    hide Rendered, Field;
    out, ok := new byte[0], false;
    if width <= 0 || decimals < 0 || (decimals > 0 && decimals + 2 > width) {
      return;
    }
    var text := Rendered(n, decimals);
    if |text| > width {
      return;
    }
    out := ZeroFilled(text, width);
    FieldIsFilled(n, width, decimals);
    ok := true;
  }

  /** The text right-aligned in a field of zeros. */
  method ZeroFilled(text: seq<byte>, width: nat) returns (out: array<byte>)
    requires |text| <= width
    ensures fresh(out) && out[..] == Repeat(ZERO, width - |text|) + text
  {
    out := new byte[width];
    var fill := width - |text|;
    var i := 0;
    while i < fill
      invariant 0 <= i <= fill && forall k :: 0 <= k < i ==> out[k] == ZERO
    {
      out[i] := ZERO;
      i := i + 1;
    }
    Put(out, fill, text);
    assert out[..] == Repeat(ZERO, fill) + text;
  }

  /** Field order is number order. */
  lemma FieldOrder(m: nat, n: nat, width: nat, decimals: nat)
    requires FitsField(m, width, decimals) && FitsField(n, width, decimals) && m < n
    ensures CompareKeys(Field(m, width, decimals), Field(n, width, decimals)) < 0
  {
    if decimals == 0 {
      DigitsWidth(n, width);
      FixedOrder(m, n, width);
    } else {
      var k := width - decimals - 1;
      var p, q, r, s := Whole(m, decimals), Whole(n, decimals), Fixed(m, decimals), Fixed(n, decimals);
      DigitsWidth(q, k);
      SplitOrder(m, n, decimals);
      hide Fixed, Whole, Ten, Rendered;
      CompareJoined(Fixed(p, k), Fixed(q, k), [POINT] + r, [POINT] + s);
      assert Fixed(p, k) + [POINT] + r == Fixed(p, k) + ([POINT] + r);
      assert Fixed(q, k) + [POINT] + s == Fixed(q, k) + ([POINT] + s);
      CompareJoined([POINT], [POINT], r, s);
      if p < q {
        FixedOrder(p, q, k);
      }
    }
  }

  // ---------------------------------------------------------------- negative keys

  function NegativeKeyDigit(c: byte): byte {
    if c == POINT then c else (0x5C - c as int) % 256
  }

  /** The digits 0 to 9 become the bytes 0x2C down to 0x23, the point stays. */
  lemma NegatedDigits(x: nat)
    requires x <= 9
    ensures NegativeKeyDigit(0x30 + x) == 0x2C - x && NegativeKeyDigit(0x2E) == 0x2E
  {
  }

  predicate Keyable(s: seq<byte>) {
    forall i :: 0 <= i < |s| ==> s[i] == POINT || IsDigit(s[i])
  }

  function Negated(s: seq<byte>): (r: seq<byte>)
    ensures |r| == |s| && forall i :: 0 <= i < |s| ==> r[i] == NegativeKeyDigit(s[i])
  {
    seq(|s|, i requires 0 <= i < |s| => NegativeKeyDigit(s[i]))
  }

  method ApplyNegativeKeyTransform(key: array<byte>)
    modifies key
    ensures key[..] == Negated(old(key[..]))
  {
    ghost var before := key[..];
    var i := 0;
    while i < key.Length
      invariant i <= key.Length
      invariant forall k :: 0 <= k < i ==> key[k] == NegativeKeyDigit(before[k])
      invariant forall k :: i <= k < key.Length ==> key[k] == before[k]
    {
      key[i] := NegativeKeyDigit(key[i]);
      i := i + 1;
    }
    assert key[..] == Negated(before);
  }

  /** Points in the same places. */
  ghost predicate Aligned(a: seq<byte>, b: seq<byte>) {
    |a| == |b| && Keyable(a) && Keyable(b) && forall i :: 0 <= i < |a| ==> (a[i] == POINT <==> b[i] == POINT)
  }

  /** The transform turns the order around. */
  lemma {:induction false} NegatedOrder(a: seq<byte>, b: seq<byte>)
    requires Aligned(a, b) && CompareKeys(a, b) < 0
    ensures CompareKeys(Negated(b), Negated(a)) < 0
  {
    if a != [] && a[0] == b[0] {
      assert Negated(a)[1..] == Negated(a[1..]) && Negated(b)[1..] == Negated(b[1..]);
      NegatedOrder(a[1..], b[1..]);
    }
  }

  /** Every negated key is below every plain one. */
  lemma NegativeBelow(a: seq<byte>, b: seq<byte>)
    requires Keyable(a) && a != [] && b != [] && IsDigit(a[0]) && IsDigit(b[0])
    ensures CompareKeys(Negated(a), b) < 0
  {
  }

  lemma FieldShape(m: nat, n: nat, width: nat, decimals: nat)
    requires FitsField(m, width, decimals) && FitsField(n, width, decimals)
    ensures Aligned(Field(m, width, decimals), Field(n, width, decimals))
    ensures Field(m, width, decimals) != [] && IsDigit(Field(m, width, decimals)[0])
  {
    FieldIsFilled(m, width, decimals);
    FieldIsFilled(n, width, decimals);
  }

  // ---------------------------------------------------------------- keys

  function Magnitude(v: int): nat { if v < 0 then -v else v }

  predicate HasKey(v: int, length: int, decimals: int) {
    0 < length <= MAX_KEY && decimals >= 0 && FitsField(Magnitude(v), length, decimals)
  }

  /** A number has a key if the length is one from 1 to 250 and the number fits. */
  lemma HasKeyWhen(v: int, length: int, decimals: int)
    ensures HasKey(v, length, decimals) <==>
      && 1 <= length <= 250 && decimals >= 0 && (decimals > 0 ==> decimals + 2 <= length)
      && (if v < 0 then -v else v) < Ten(if decimals > 0 then length - 1 else length)
  {
    if 1 <= length && decimals >= 0 {
      FitsWhen(Magnitude(v), length, decimals);
    }
  }

  function KeyFor(v: int, length: int, decimals: int): seq<byte>
    requires HasKey(v, length, decimals)
  {
    FieldShape(Magnitude(v), Magnitude(v), length, decimals);
    if v < 0 then Negated(Field(-v, length, decimals)) else Field(v, length, decimals)
  }

  /** The index key of a number. */
  method NumericKey(v: int, length: int, decimals: int) returns (key: Option<seq<byte>>)
    ensures key == if HasKey(v, length, decimals) then Some(KeyFor(v, length, decimals)) else None
  {
    if length <= 0 || length > MAX_KEY {
      return None;
    }
    var out, ok := FormatNumeric(Magnitude(v), length, decimals);
    if !ok {
      return None;
    }
    FieldShape(Magnitude(v), Magnitude(v), length, decimals);
    if v < 0 {
      ApplyNegativeKeyTransform(out);
    }
    key := Some(out[..]);
  }

  /** The key of a number in bytes: the key of a negative number is that of its magnitude, with each digit x
      turned into the byte 0x2C - x. */
  lemma KeyMeans(n: int, length: int, decimals: int)
    requires n >= 0 && HasKey(n, length, decimals)
    ensures HasKey(-n, length, decimals) && KeyFor(n, length, decimals) == Field(n, length, decimals)
    ensures n > 0 ==> |KeyFor(-n, length, decimals)| == length
    ensures n > 0 ==> forall i :: 0 <= i < length ==>
      KeyFor(-n, length, decimals)[i]
      == if KeyFor(n, length, decimals)[i] == 0x2E then 0x2E else 0x5C - (KeyFor(n, length, decimals)[i] as int)
  {
    FieldShape(n, n, length, decimals);
    hide Field, FitsField;
    NegatedMeans(Field(n, length, decimals));
  }

  lemma NegatedMeans(s: seq<byte>)
    requires Keyable(s)
    ensures forall i :: 0 <= i < |s| ==> Negated(s)[i] == if s[i] == 0x2E then 0x2E else 0x5C - (s[i] as int)
  {
  }

  /** Keys of one length compare as bytes exactly as their numbers compare, whatever the signs. */
  lemma KeyOrder(u: int, v: int, length: int, decimals: int)
    requires HasKey(u, length, decimals) && HasKey(v, length, decimals)
    ensures u < v <==> CompareKeys(KeyFor(u, length, decimals), KeyFor(v, length, decimals)) < 0
    ensures u == v <==> KeyFor(u, length, decimals) == KeyFor(v, length, decimals)
  {
    if u < v {
      KeyBelow(u, v, length, decimals);
    } else if v < u {
      KeyBelow(v, u, length, decimals);
      CompareKeysFlip(KeyFor(v, length, decimals), KeyFor(u, length, decimals));
    }
  }

  lemma KeyBelow(u: int, v: int, length: int, decimals: int)
    requires HasKey(u, length, decimals) && HasKey(v, length, decimals) && u < v
    ensures CompareKeys(KeyFor(u, length, decimals), KeyFor(v, length, decimals)) < 0
  {
    FieldShape(Magnitude(u), Magnitude(v), length, decimals);
    FieldShape(Magnitude(v), Magnitude(u), length, decimals);
    if v < 0 {
      FieldOrder(-v, -u, length, decimals);
      NegatedOrder(Field(-v, length, decimals), Field(-u, length, decimals));
    } else if u < 0 {
      NegativeBelow(Field(-u, length, decimals), Field(v, length, decimals));
    } else {
      FieldOrder(u, v, length, decimals);
    }
  }
}
