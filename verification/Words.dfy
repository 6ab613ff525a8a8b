/** Java's fixed-width integers: a value is kept as an integer in its type's range. */
module Words {
  const TWO_8: int := 0x100
  const TWO_31: int := 0x8000_0000
  const TWO_32: int := 0x1_0000_0000
  const TWO_63: int := 0x8000_0000_0000_0000
  const TWO_64: int := 0x1_0000_0000_0000_0000

  type Uint32 = x: int | 0 <= x < TWO_32
  type Int32 = x: int | -TWO_31 <= x < TWO_31
  type Int64 = x: int | -TWO_63 <= x < TWO_63
  type SByte = x: int | -0x80 <= x < 0x80

  /** The value a Java `int` computation leaves after wrap-around. */
  function WrapInt32(x: int): (r: Int32)
    ensures (r - x) % TWO_32 == 0
  {
    (x + TWO_31) % TWO_32 - TWO_31
  }

  /** The low eight bits of `x` as a Java `byte`. */
  function WrapByte(x: int): (r: SByte)
    ensures (r - x) % TWO_8 == 0
  {
    (x + 0x80) % TWO_8 - 0x80
  }

  /** `BigInteger.longValue`: the low 64 bits, read as a signed number. */
  function LongValue(x: int): (r: Int64)
  {
    (x + TWO_63) % TWO_64 - TWO_63
  }

  /** How Java reads a protobuf `uint32`: the same 32 bits, as a signed `int`. */
  function AsInt32(u: Uint32): (r: Int32)
    ensures r >= 0 <==> u < TWO_31
    ensures r == 0 <==> u == 0
    ensures (r - u) % TWO_32 == 0
  {
    if u < TWO_31 then u else u - TWO_32
  }

  /** How a Java `int` is stored in a protobuf `uint32`. */
  function AsUint32(i: Int32): (u: Uint32)
    ensures AsInt32(u) == i
  {
    if i >= 0 then i else i + TWO_32
  }

  /**
   * `longValue` gives the one signed 64-bit number congruent to `x` modulo 2^64, so it is the
   * identity exactly on the range of `long`.
   */
  lemma LongValueIsTheCongruentLong(x: int, y: Int64)
    ensures LongValue(x) == y <==> (x - y) % TWO_64 == 0
    ensures LongValue(x) == x <==> -TWO_63 <= x < TWO_63
  {
    var r := LongValue(x);
    var q := (x + TWO_63) / TWO_64;
    assert x - r == q * TWO_64;
    if (x - y) % TWO_64 == 0 {
      var p := (x - y) / TWO_64;
      assert x - y == p * TWO_64;
      assert r - y == (p - q) * TWO_64;
      assert p == q;
    }
  }
}
