/** The ten-byte ASCII block number that a record's memo field holds. */
module MemoPointer {
  import opened Entries
  import opened Bytes
  import opened Decimal

  const FIELD_WIDTH := 10

  datatype Pointer = Absent | Present(block: nat) | Malformed

  /** raw without blanks at either end. */
  function TrimSpaces(raw: seq<byte>): (r: seq<byte>)
    ensures r != [] ==> r[0] != BLANK && r[|r| - 1] != BLANK
    decreases |raw|
  {
    if raw == [] then []
    else if raw[0] == BLANK then TrimSpaces(raw[1..])
    else if raw[|raw| - 1] == BLANK then TrimSpaces(raw[..|raw| - 1])
    else raw
  }

  /** A block number of at most 32 bits; blanks and zero both stand for no memo. */
  function Parse(raw: seq<byte>): Pointer {
    var text := TrimSpaces(raw);
    if text == [] then Absent
    else if !AllDigits(text) || ValueOf(text) >= TWO_32 then Malformed
    else if ValueOf(text) == 0 then Absent
    else Present(ValueOf(text))
  }

  /** The stored form of a block number. */
  function Field(block: nat): (f: seq<byte>)
    requires block < TWO_32
    ensures |f| == FIELD_WIDTH
  {
    if block == 0 then Repeat(BLANK, FIELD_WIDTH)
    else
      FitsField(block);
      Repeat(BLANK, FIELD_WIDTH - |DigitsOf(block)|) + DigitsOf(block)
  }

  lemma FitsField(block: nat)
    requires block < TWO_32
    ensures |DigitsOf(block)| <= FIELD_WIDTH
  {
    DigitsWidth(block, FIELD_WIDTH);
    assert Ten(5) == 100000 && Ten(10) >= 10000000000;
  }

  /** Right-aligned digits after blanks. */
  method Format(block: nat) returns (out: array<byte>)
    requires block < TWO_32
    ensures fresh(out) && out[..] == Field(block)
  {
    out := new byte[FIELD_WIDTH];
    var i := 0;
    while i < out.Length
      invariant i <= out.Length && forall k :: 0 <= k < i ==> out[k] == BLANK
    {
      out[i] := BLANK;
      i := i + 1;
    }
    assert out[..] == Repeat(BLANK, FIELD_WIDTH);
    if block == 0 {
      return;
    }
    var text := DigitsOf(block);
    FitsField(block);
    Put(out, FIELD_WIDTH - |text|, text);
    assert out[..] == Field(block);
  }

  lemma {:induction false} TrimPadded(j: nat, text: seq<byte>, k: nat)
    requires text != [] && text[0] != BLANK && text[|text| - 1] != BLANK
    ensures TrimSpaces(Repeat(BLANK, j) + text + Repeat(BLANK, k)) == text
    decreases j + k
  {
    var raw := Repeat(BLANK, j) + text + Repeat(BLANK, k);
    if j > 0 {
      assert raw[1..] == Repeat(BLANK, j - 1) + text + Repeat(BLANK, k);
      TrimPadded(j - 1, text, k);
    } else if k > 0 {
      assert raw[..|raw| - 1] == Repeat(BLANK, 0) + text + Repeat(BLANK, k - 1);
      assert raw[0] == text[0] && raw[|raw| - 1] == BLANK;
      TrimPadded(0, text, k - 1);
    } else {
      assert raw == text;
    }
  }

  /** Every field is some text between blanks, or nothing but blanks. */
  lemma {:induction false} Trimmed(raw: seq<byte>) returns (j: nat, k: nat)
    ensures raw == Repeat(0x20, j) + TrimSpaces(raw) + Repeat(0x20, k)
    decreases |raw|
  {
    if raw == [] {
      return 0, 0;
    } else if raw[0] == BLANK {
      j, k := Trimmed(raw[1..]);
      assert raw == [raw[0]] + raw[1..];
      assert Repeat(0x20, j + 1) == [0x20] + Repeat(0x20, j);
      j := j + 1;
    } else if raw[|raw| - 1] == BLANK {
      j, k := Trimmed(raw[..|raw| - 1]);
      assert raw == raw[..|raw| - 1] + [raw[|raw| - 1]];
      assert Repeat(0x20, k + 1) == Repeat(0x20, k) + [0x20];
      k := k + 1;
    } else {
      return 0, 0;
    }
  }

  /** What a field stands for: digits between blanks, leading zeros or not, are a block number if their value
      is neither 0 nor too large for 32 bits; anything else but blanks is malformed. */
  lemma ParseMeans(j: nat, text: seq<byte>, k: nat)
    requires text != [] ==> text[0] != 0x20 && text[|text| - 1] != 0x20
    ensures var p := Parse(Repeat(0x20, j) + text + Repeat(0x20, k));
      if text == [] then p == Absent
      else if exists i :: 0 <= i < |text| && !(0x30 <= text[i] <= 0x39) then p == Malformed
      else p == if ValueOf(text) == 0 then Absent
                else if ValueOf(text) < 0x1_0000_0000 then Present(ValueOf(text)) else Malformed
  {
    if text == [] {
      assert Repeat(0x20, j) + text + Repeat(0x20, k) == Repeat(0x20, j + k);
      TrimBlank(j + k);
    } else {
      TrimPadded(j, text, k);
    }
  }

  lemma {:induction false} TrimBlank(n: nat)
    ensures TrimSpaces(Repeat(BLANK, n)) == []
  {
    if n > 0 {
      assert Repeat(BLANK, n)[1..] == Repeat(BLANK, n - 1);
      TrimBlank(n - 1);
    }
  }

  /** What is formatted is parsed back; block 0 comes back as no memo. */
  lemma PointerRoundTrip(block: nat)
    requires block < TWO_32
    ensures Parse(Field(block)) == if block == 0 then Absent else Present(block)
  {
    if block == 0 {
      TrimBlank(FIELD_WIDTH);
    } else {
      DigitsValue(block);
      FitsField(block);
      var d, n := DigitsOf(block), FIELD_WIDTH - |DigitsOf(block)|;
      assert Repeat(BLANK, n) + d + Repeat(BLANK, 0) == Repeat(BLANK, n) + d;
      TrimPadded(n, d, 0);
    }
  }

  /** The stored form: the digits of the number, without leading zeros, at the end of ten bytes of blanks. */
  lemma FieldMeans(block: nat)
    requires 0 < block < TWO_32
    ensures Field(0) == Repeat(0x20, 10)
    ensures var d := DigitsOf(block);
      && d != [] && d[0] != 0x30 && (forall i :: 0 <= i < |d| ==> 0x30 <= d[i] <= 0x39) && ValueOf(d) == block
      && |d| <= 10 && Field(block) == Repeat(0x20, 10 - |d|) + d
  {
    DigitsValue(block);
    NoLeadingZero(block);
    FitsField(block);
  }

  lemma {:induction false} NoLeadingZero(n: nat)
    requires n > 0
    ensures DigitsOf(n)[0] != 0x30
  {
    if n >= 10 {
      NoLeadingZero(n / 10);
    }
  }

  lemma ParseRange(raw: seq<byte>)
    ensures Parse(raw).Present? ==> 0 < Parse(raw).block < TWO_32
  {
  }
}
