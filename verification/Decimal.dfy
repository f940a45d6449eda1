/** Decimal digits as bytes. */
module Decimal {
  import opened Entries

  const ZERO: byte := 0x30
  const BLANK: byte := 0x20

  predicate IsDigit(b: byte) { 0x30 <= b <= 0x39 }

  predicate AllDigits(d: seq<byte>) {
    forall i :: 0 <= i < |d| ==> IsDigit(d[i])
  }

  /** Digits are the bytes 0x30 to 0x39. */
  lemma DigitBytes(d: seq<byte>)
    ensures AllDigits(d) <==> forall i :: 0 <= i < |d| ==> 0x30 <= d[i] <= 0x39
  {
  }

  function Ten(k: nat): (r: nat)
    ensures r >= 1
  {
    if k == 0 then 1 else 10 * Ten(k - 1)
  }

  /** The shortest decimal form of n. */
  function DigitsOf(n: nat): (d: seq<byte>)
    ensures |d| >= 1 && AllDigits(d)
  {
    if n < 10 then [ZERO + n] else DigitsOf(n / 10) + [ZERO + n % 10]
  }

  function ValueOf(d: seq<byte>): nat
    requires AllDigits(d)
  {
    if d == [] then 0 else ValueOf(d[..|d| - 1]) * 10 + (d[|d| - 1] - ZERO)
  }

  lemma {:induction false} DigitsValue(n: nat)
    ensures ValueOf(DigitsOf(n)) == n
  {
    if n >= 10 {
      DigitsValue(n / 10);
      assert DigitsOf(n)[..|DigitsOf(n)| - 1] == DigitsOf(n / 10);
    }
  }

  /** The first digit counts as many tens as digits follow. */
  lemma {:induction false} LeadDigit(x: nat, d: seq<byte>)
    requires x < 10 && AllDigits(d)
    ensures AllDigits([0x30 + x] + d) && ValueOf([0x30 + x] + d) == x * Ten(|d|) + ValueOf(d)
  {
    var all: seq<byte> := [0x30 + x] + d;
    if d == [] {
      assert all[..0] == [];
    } else {
      var n := |d| - 1;
      LeadDigit(x, d[..n]);
      assert all[..|all| - 1] == [0x30 + x] + d[..n];
      assert x * Ten(n) * 10 == x * (10 * Ten(n));
    }
  }

  /** A number below ten to the k needs at most k digits. */
  lemma {:induction false} DigitsWidth(n: nat, k: nat)
    requires k >= 1
    ensures n < Ten(k) <==> |DigitsOf(n)| <= k
  {
    if n >= 10 {
      if k == 1 {
        assert Ten(1) == 10;
      } else {
        DigitsWidth(n / 10, k - 1);
      }
    } else {
      assert Ten(k) == 10 * Ten(k - 1);
    }
  }

  function Repeat(b: byte, n: nat): (r: seq<byte>)
    ensures |r| == n && forall i :: 0 <= i < n ==> r[i] == b
  {
    seq(n, _ => b)
  }
}
