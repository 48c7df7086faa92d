/** Little-endian integers as byte strings. */
module Bytes {
  import opened VmTypes

  function Range(width: nat): (r: nat)
    ensures r > 0
  {
    if width == 0 then 1 else 256 * Range(width - 1)
  }

  function ToLittle(value: nat, width: nat): (bytes: seq<byte>)
    ensures |bytes| == width
  {
    if width == 0 then [] else [(value % 256) as byte] + ToLittle(value / 256, width - 1)
  }

  function FromLittle(bytes: seq<byte>): (value: nat)
    ensures value < Range(|bytes|)
  {
    if bytes == [] then 0 else bytes[0] as nat + 256 * FromLittle(bytes[1..])
  }

  /** Reading back gives the value modulo the width, hence the value itself when it fits. */
  lemma {:induction false} LittleRoundTrip(value: nat, width: nat)
    ensures FromLittle(ToLittle(value, width)) == value % Range(width)
    ensures value < Range(width) ==> FromLittle(ToLittle(value, width)) == value
  {
    if width > 0 {
      LittleRoundTrip(value / 256, width - 1);
      assert ToLittle(value, width)[1..] == ToLittle(value / 256, width - 1);
      SplitModulo(value, Range(width - 1));
    }
  }

  lemma SplitModulo(value: nat, range: nat)
    requires range > 0
    ensures value % (256 * range) == value % 256 + 256 * (value / 256 % range)
    ensures value < 256 * range ==> value % (256 * range) == value
  {
    var q, r := value / 256 / range, value / 256 % range;
    assert value == 256 * (value / 256) + value % 256;
    assert value / 256 == range * q + r;
    assert value == (256 * range) * q + (256 * r + value % 256) by {
      assert 256 * (range * q) == (256 * range) * q;
    }
    assert 0 <= 256 * r + value % 256 < 256 * range;
    QuotientUnique(value, 256 * range, q, 256 * r + value % 256);
    if value < 256 * range {
      QuotientUnique(value, 256 * range, 0, value);
    }
  }

  lemma QuotientUnique(value: nat, d: nat, q: nat, r: nat)
    requires d > 0 && value == d * q + r && r < d
    ensures value / d == q && value % d == r
  {
    var q2, r2 := value / d, value % d;
    assert value == d * q2 + r2;
    if q > q2 {
      NextMultiple(d, q2, q);
    } else if q < q2 {
      NextMultiple(d, q, q2);
    }
  }

  lemma {:induction false} NextMultiple(d: nat, a: nat, b: nat)
    requires a < b
    ensures d * a + d <= d * b
    decreases b
  {
    assert d * b == d * (b - 1) + d;
    if a < b - 1 {
      NextMultiple(d, a, b - 1);
    }
  }

  lemma WidthRanges()
    ensures Range(1) == 0x100 && Range(2) == 0x1_0000 && Range(4) == 0x1_0000_0000
    ensures Range(8) == 0x1_0000_0000_0000_0000
  {
    assert Range(3) == 0x100_0000;
    assert Range(4) == 0x1_0000_0000;
    assert Range(5) == 0x100_0000_0000;
    assert Range(6) == 0x1_0000_0000_0000;
    assert Range(7) == 0x100_0000_0000_0000;
  }

  /** The string before the first NUL. */
  function CString(bytes: seq<byte>): (text: seq<byte>)
    ensures 0 !in text && text <= bytes
    ensures 0 !in bytes ==> text == bytes
  {
    if bytes == [] || bytes[0] == 0 then [] else [bytes[0]] + CString(bytes[1..])
  }

  /** A NUL-padded field. */
  function Padded(text: seq<byte>, width: nat): (field: seq<byte>)
    requires |text| <= width
    ensures |field| == width
  {
    text + seq(width - |text|, _ => 0)
  }

  lemma {:induction false} PaddedRoundTrip(text: seq<byte>, width: nat)
    requires |text| <= width && 0 !in text
    ensures CString(Padded(text, width)) == text
  {
    if text == [] {
    } else {
      PaddedRoundTrip(text[1..], width - 1);
      assert Padded(text, width)[1..] == Padded(text[1..], width - 1);
    }
  }
}
