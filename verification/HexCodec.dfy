/** `CommonUtils`: strings, bytes and hexadecimal. A Java string is a sequence of 16-bit code units. */
module HexCodec {
  import opened Wrappers
  import opened Words

  type CodeUnit = x: int | 0 <= x < 0x1_0000
  type Text = seq<CodeUnit>
  type Bytes = seq<SByte>

  type AsciiText = s: Text | IsAscii(s)

  predicate IsAscii(s: Text) { forall i | 0 <= i < |s| :: s[i] < 128 }

  /** The lower-case hex digit of a value below 16. */
  function HexDigit(d: int): (c: CodeUnit)
    requires 0 <= d < 16
  {
    if d < 10 then 48 + d else 87 + d
  }

  /** `Character.digit(c, 16)` on ASCII: -1 for what is no hex digit. */
  function DigitOf(c: CodeUnit): (d: int)
    requires c < 128
    ensures -1 <= d < 16
  {
    if 48 <= c <= 57 then c - 48
    else if 97 <= c <= 102 then c - 87
    else if 65 <= c <= 70 then c - 55
    else -1
  }

  predicate IsHex(s: Text) { forall i | 0 <= i < |s| :: s[i] < 128 && DigitOf(s[i]) >= 0 }

  function LowerUnit(c: CodeUnit): CodeUnit { if 65 <= c <= 90 then c + 32 else c }

  function Lower(s: Text): Text { seq(|s|, i requires 0 <= i < |s| => LowerUnit(s[i])) }

  /** The byte with its sign bit read as a value bit. */
  function Unsigned(b: SByte): (u: int)
    ensures 0 <= u < 256
  {
    if b < 0 then b + 256 else b
  }

  /** `Integer.toHexString`: lower case, without leading zeros. */
  function ToHexString(n: nat): Text {
    if n < 16 then [HexDigit(n)] else ToHexString(n / 16) + [HexDigit(n % 16)]
  }

  /** The unpadded hex of every code unit, one after the other. */
  function HexOf(value: Text): Text {
    if value == [] then [] else HexOf(value[..|value| - 1]) + ToHexString(value[|value| - 1])
  }

  /** Two digits to a byte. */
  function Decoded(hex: Text): (data: Bytes)
    requires IsAscii(hex)
    ensures |data| == |hex| / 2
  {
    seq(|hex| / 2, k requires 0 <= k < |hex| / 2 => WrapByte(16 * DigitOf(hex[2 * k]) + DigitOf(hex[2 * k + 1])))
  }

  /** `%02x` of every byte. */
  function Encoded(bytes: Bytes): (hex: Text)
    ensures |hex| == 2 * |bytes|
  {
    seq(2 * |bytes|, j requires 0 <= j < 2 * |bytes| =>
      var u := Unsigned(bytes[j / 2]); HexDigit(if j % 2 == 0 then u / 16 else u % 16))
  }

  /** What `hexStringToByteArray` answers; `None` is the exception of an odd number of digits. */
  function BytesOfHex(hex: AsciiText): Option<Bytes> {
    if |hex| % 2 == 0 then Some(Decoded(hex)) else None
  }

  method StringToHex(value: Text) returns (hex: Text)
    ensures hex == HexOf(value)
  {
    hex := [];
    for i := 0 to |value|
      invariant hex == HexOf(value[..i])
    {
      hex := hex + ToHexString(value[i]);
      assert value[..i + 1][..i] == value[..i];
    }
    assert value[..|value|] == value;
  }

  /** Fails (`StringIndexOutOfBoundsException`) exactly on an odd number of digits. */
  method HexStringToByteArray(hex: Text) returns (r: Option<array<SByte>>)
    requires IsAscii(hex)
    ensures r.Some? <==> |hex| % 2 == 0
    ensures r.Some? <==> BytesOfHex(hex).Some?
    ensures r.Some? ==> fresh(r.value) && r.value[..] == Decoded(hex)
  {
    var len := |hex|;
    var data := new SByte[len / 2];
    var i := 0;
    while i < len
      invariant 0 <= i <= len && i % 2 == 0
      invariant forall k | 0 <= k < i / 2 :: data[k] == Decoded(hex)[k]
    {
      if i + 1 == len {
        return None;
      }
      data[i / 2] := WrapByte(16 * DigitOf(hex[i]) + DigitOf(hex[i + 1]));
      i := i + 2;
    }
    return Some(data);
  }

  method ByteArrayToHex(bytes: array<SByte>) returns (hex: Text)
    ensures hex == Encoded(bytes[..])
  {
    hex := [];
    for i := 0 to bytes.Length
      invariant hex == Encoded(bytes[..i])
    {
      var u := Unsigned(bytes[i]);
      hex := hex + [HexDigit(u / 16), HexDigit(u % 16)];
    }
    assert bytes[..bytes.Length] == bytes[..];
  }

  /** What `stringToByteArray` answers. */
  function ByteArrayOf(value: Text, isHex: bool): Option<Bytes>
    requires isHex ==> IsAscii(value)
  {
    HexOfIsHex(value);
    var hex := if isHex then value else HexOf(value);
    if value == [] then Some([]) else BytesOfHex(hex)
  }

  method StringToByteArray(value: Text, isHex: bool) returns (r: Option<array<SByte>>)
    requires isHex ==> IsAscii(value)
    ensures r.Some? <==> ByteArrayOf(value, isHex).Some?
    ensures r.Some? ==> fresh(r.value) && r.value[..] == ByteArrayOf(value, isHex).value
    ensures isHex ==> (r.Some? <==> |value| % 2 == 0)
    ensures isHex && IsHex(value) && r.Some? ==> Encoded(r.value[..]) == Lower(value)
    ensures !isHex && TwoDigitUnits(value) ==> r.Some? && AreCodeUnitsOf(r.value[..], value)
  {
    if isHex { HexStringExactly(value); } else { PlainStringExactly(value); }
    if |value| == 0 {
      var empty := new SByte[0];
      return Some(empty);
    }
    if !isHex {
      var hex := StringToHex(value);
      HexOfIsHex(value);
      r := HexStringToByteArray(hex);
    } else {
      r := HexStringToByteArray(value);
    }
  }

  // ---- The codec is an inverse pair ----

  lemma DigitRoundTrip(d: int)
    requires 0 <= d < 16
    ensures HexDigit(d) < 128 && DigitOf(HexDigit(d)) == d
  {
  }

  lemma EncodedIsHex(bytes: Bytes)
    ensures IsHex(Encoded(bytes)) && Lower(Encoded(bytes)) == Encoded(bytes)
  {
  }

  lemma WrapUnsigned(u: int)
    requires 0 <= u < 256
    ensures Unsigned(WrapByte(16 * (u / 16) + u % 16)) == u
  {
    assert 16 * (u / 16) + u % 16 == u;
  }

  lemma DecodedPair(hex: Text, k: nat, u: int)
    requires IsAscii(hex) && 2 * k + 1 < |hex| && 0 <= u < 256
    requires hex[2 * k] == HexDigit(u / 16) && hex[2 * k + 1] == HexDigit(u % 16)
    ensures Unsigned(Decoded(hex)[k]) == u
  {
    DigitRoundTrip(u / 16);
    DigitRoundTrip(u % 16);
    WrapUnsigned(u);
    assert Decoded(hex)[k] == WrapByte(16 * DigitOf(hex[2 * k]) + DigitOf(hex[2 * k + 1]));
  }

  /** Decoding what was encoded gives back the bytes, for all signed bytes. */
  lemma DecodeEncode(bytes: Bytes)
    ensures IsAscii(Encoded(bytes)) && Decoded(Encoded(bytes)) == bytes
  {
    EncodedIsHex(bytes);
    var hex := Encoded(bytes);
    forall k | 0 <= k < |bytes| ensures Decoded(hex)[k] == bytes[k] {
      DecodedPair(hex, k, Unsigned(bytes[k]));
    }
  }

  /** Encoding a decoded text of even length gives its lower-case form exactly when it is all hex digits. */
  lemma EncodeDecode(hex: Text)
    requires IsAscii(hex) && |hex| % 2 == 0
    ensures Encoded(Decoded(hex)) == Lower(hex) <==> IsHex(hex)
  {
    var back := Encoded(Decoded(hex));
    EncodedIsHex(Decoded(hex));
    if IsHex(hex) {
      forall j | 0 <= j < |hex| ensures back[j] == Lower(hex)[j] {
        PairRoundTrip(hex[2 * (j / 2)], hex[2 * (j / 2) + 1]);
        assert Decoded(hex)[j / 2] == WrapByte(16 * DigitOf(hex[2 * (j / 2)]) + DigitOf(hex[2 * (j / 2) + 1]));
        assert j == 2 * (j / 2) || j == 2 * (j / 2) + 1;
      }
    } else if back == Lower(hex) {
      forall j | 0 <= j < |hex| ensures DigitOf(hex[j]) >= 0 {
        assert LowerUnit(hex[j]) == back[j];
      }
    }
  }

  lemma PairRoundTrip(a: CodeUnit, b: CodeUnit)
    requires a < 128 && b < 128 && DigitOf(a) >= 0 && DigitOf(b) >= 0
    ensures var u := Unsigned(WrapByte(16 * DigitOf(a) + DigitOf(b)));
      HexDigit(u / 16) == LowerUnit(a) && HexDigit(u % 16) == LowerUnit(b)
  {
    WrapPair(DigitOf(a), DigitOf(b));
  }

  lemma WrapPair(x: int, y: int)
    requires 0 <= x < 16 && 0 <= y < 16
    ensures var u := Unsigned(WrapByte(16 * x + y)); u / 16 == x && u % 16 == y
  {
    assert Unsigned(WrapByte(16 * x + y)) == 16 * x + y;
  }

  // ---- Unpadded hex ----

  lemma {:induction false} ToHexStringIsHex(n: nat)
    ensures IsHex(ToHexString(n)) && IsAscii(ToHexString(n))
    ensures n < 16 ==> |ToHexString(n)| == 1
    ensures 16 <= n < 256 ==> ToHexString(n) == [HexDigit(n / 16), HexDigit(n % 16)]
    ensures n >= 256 ==> |ToHexString(n)| > 2
  {
    if n >= 16 {
      ToHexStringIsHex(n / 16);
    }
  }

  lemma {:induction false} HexOfIsHex(value: Text)
    ensures IsHex(HexOf(value)) && IsAscii(HexOf(value))
  {
    if value != [] {
      HexOfIsHex(value[..|value| - 1]);
      ToHexStringIsHex(value[|value| - 1]);
    }
  }

  predicate TwoDigitUnits(value: Text) { forall i | 0 <= i < |value| :: 0x10 <= value[i] <= 0xFF }

  predicate AreCodeUnitsOf(data: Bytes, value: Text) {
    |data| == |value| && forall i | 0 <= i < |value| :: Unsigned(data[i]) == value[i]
  }

  lemma {:induction false} HexOfTwoDigitUnits(value: Text)
    requires TwoDigitUnits(value)
    ensures IsAscii(HexOf(value)) && |HexOf(value)| == 2 * |value| && AreCodeUnitsOf(Decoded(HexOf(value)), value)
  {
    HexOfIsHex(value);
    if value != [] {
      var init, n := value[..|value| - 1], value[|value| - 1];
      HexOfTwoDigitUnits(init);
      ToHexStringIsHex(n);
      DecodedPair(HexOf(value), |init|, n);
      DecodedPrefix(HexOf(init), ToHexString(n));
      assert forall i | 0 <= i < |init| :: Decoded(HexOf(value))[i] == Decoded(HexOf(init))[i];
    }
  }

  lemma DecodedPrefix(a: Text, b: Text)
    requires IsAscii(a) && IsAscii(b) && |a| % 2 == 0
    ensures IsAscii(a + b) && forall i | 0 <= i < |a| / 2 :: Decoded(a + b)[i] == Decoded(a)[i]
  {
  }

  lemma {:induction false} HexOfLength(value: Text)
    requires forall i | 0 <= i < |value| :: value[i] <= 0xFF
    ensures |HexOf(value)| <= 2 * |value|
    ensures |HexOf(value)| == 2 * |value| ==> TwoDigitUnits(value)
  {
    if value != [] {
      HexOfLength(value[..|value| - 1]);
      ToHexStringIsHex(value[|value| - 1]);
    }
  }

  /** A plain string becomes its code units, one byte each, exactly when all of them are in 0x10..0xFF. */
  lemma PlainStringExactly(value: Text)
    ensures (ByteArrayOf(value, false).Some? && AreCodeUnitsOf(ByteArrayOf(value, false).value, value))
            <==> TwoDigitUnits(value)
  {
    HexOfIsHex(value);
    if TwoDigitUnits(value) {
      HexOfTwoDigitUnits(value);
    }
    var r := ByteArrayOf(value, false);
    if value != [] && r.Some? && AreCodeUnitsOf(r.value, value) {
      forall i | 0 <= i < |value| ensures value[i] <= 0xFF {
        assert value[i] == Unsigned(r.value[i]);
      }
      HexOfLength(value);
    }
  }

  // ---- Digit by digit ----

  /** The sixteen digits: printed in lower case, read in either, and nothing else is read. */
  lemma DigitsSpelledOut(c: CodeUnit)
    requires c < 128
    ensures forall d | 0 <= d < 16 :: HexDigit(d) == "0123456789abcdef"[d] as int
    ensures forall d | 0 <= d < 16 ::
      DigitOf(c) == d <==> c == "0123456789abcdef"[d] as int || c == "0123456789ABCDEF"[d] as int
  {
  }

  /** The number that hex digits denote, most significant first. */
  function HexNumber(s: Text): nat
    requires IsHex(s)
  {
    if s == [] then 0 else 16 * HexNumber(s[..|s| - 1]) + DigitOf(s[|s| - 1])
  }

  /** `toHexString` denotes the number, in lower case and without a leading zero. */
  lemma {:induction false} ToHexStringIsExact(n: nat)
    ensures var s := ToHexString(n);
      && s != [] && IsHex(s) && Lower(s) == s && HexNumber(s) == n && (n > 0 ==> s[0] != '0' as int)
  {
    var s := ToHexString(n);
    DigitRoundTrip(n % 16);
    if n < 16 {
      assert s[..0] == [] && HexNumber([]) == 0;
    } else {
      ToHexStringIsExact(n / 16);
      assert s[..|s| - 1] == ToHexString(n / 16);
    }
  }

  /** A field given in hex: its bytes are the digits' own, and it fails exactly on an odd number of them. */
  lemma HexStringExactly(value: Text)
    requires IsAscii(value)
    ensures ByteArrayOf(value, true).Some? <==> |value| % 2 == 0
    ensures ByteArrayOf(value, true).Some? ==> |ByteArrayOf(value, true).value| == |value| / 2
    ensures ByteArrayOf(value, true).Some? ==>
      (Encoded(ByteArrayOf(value, true).value) == Lower(value) <==> IsHex(value))
  {
    if |value| % 2 == 0 {
      EncodeDecode(value);
      assert value == [] ==> Decoded(value) == [];
    }
  }
}
