/** Machine integers used by the driver: bytes on the wire and the signed
    16-bit sample the sensor reports. */
module Bytes {

  /** An unsigned byte (Rust `u8`); a bit-vector so that `&`, `|` and `>>`
      behave exactly as on the target. */
  type u8 = bv8

  /** A signed 16-bit integer (Rust `i16`). */
  newtype i16 = x: int | -0x8000 <= x < 0x8000

  /** The unsigned value `lo + 256 * hi` of two little-endian bytes. */
  function Unsigned(b: seq<u8>): (u: int)
    requires |b| == 2
    ensures 0 <= u < 0x10000
  {
    b[0] as int + 0x100 * b[1] as int
  }

  /** `i16::from_le_bytes`: the two's-complement reading of `lo + 256 * hi`.
      The sample is negative exactly when the top bit of the high byte is set. */
  function FromLeBytes(b: seq<u8>): (n: i16)
    requires |b| == 2
    ensures n < 0 <==> b[1] & 0x80 != 0
  {
    var u := Unsigned(b);
    assert b[1] & 0x80 != 0 <==> b[1] as int >= 0x80;
    if u < 0x8000 then u as i16 else (u - 0x10000) as i16
  }

  /** The decoded value is the one i16 congruent to `lo + 256 * hi` modulo 2^16. */
  lemma FromLeBytesCongruent(b: seq<u8>)
    requires |b| == 2
    ensures (FromLeBytes(b) as int - Unsigned(b)) % 0x10000 == 0
  {
    var u := Unsigned(b);
    if u >= 0x8000 {
      assert FromLeBytes(b) as int - u == -0x10000;
    }
  }

  /** The byte whose unsigned value is `x` has that value. */
  lemma CastValue(x: int)
    requires 0 <= x < 0x100
    ensures (x as u8) as int == x
  {
    assert x % 0x100 == x;
  }

  /** The unsigned 16-bit pattern of an i16 (`n as u16`). */
  function Pattern(n: i16): (u: int)
    ensures 0 <= u < 0x10000
    ensures n < 0 <==> u >= 0x8000
  {
    if n < 0 then n as int + 0x10000 else n as int
  }

  /** `i16::to_le_bytes`: low byte first. */
  function ToLeBytes(n: i16): (b: seq<u8>)
    ensures |b| == 2
    ensures Unsigned(b) == Pattern(n)
  {
    var u := Pattern(n);
    CastValue(u % 0x100);
    CastValue(u / 0x100);
    [(u % 0x100) as u8, (u / 0x100) as u8]
  }

  /** Decoding the little-endian bytes of any i16 gives that i16 back. */
  lemma DecodeEncode(n: i16)
    ensures FromLeBytes(ToLeBytes(n)) == n
  {
    var u := Pattern(n);
    assert Unsigned(ToLeBytes(n)) == u;
    if n < 0 {
      assert u >= 0x8000 && u - 0x10000 == n as int;
    } else {
      assert u < 0x8000 && u == n as int;
    }
  }

  /** Encoding the decoded value of any two bytes gives those bytes back:
      together with DecodeEncode, the decoding is a bijection. */
  lemma EncodeDecode(b: seq<u8>)
    requires |b| == 2
    ensures ToLeBytes(FromLeBytes(b)) == b
  {
    var n := FromLeBytes(b);
    var u := Unsigned(b);
    assert Pattern(n) == u;
    var c := ToLeBytes(n);
    UnsignedDigits(b);
    UnsignedDigits(c);
    assert c[0] as int == b[0] as int && c[1] as int == b[1] as int;
  }

  /** The two bytes are the base-256 digits of their unsigned reading. */
  lemma UnsignedDigits(b: seq<u8>)
    requires |b| == 2
    ensures b[0] as int == Unsigned(b) % 0x100
    ensures b[1] as int == Unsigned(b) / 0x100
  {
    var lo, hi := b[0] as int, b[1] as int;
    assert Unsigned(b) == lo + 0x100 * hi;
    Digits(lo, hi);
  }

  lemma Digits(lo: int, hi: int)
    requires 0 <= lo < 0x100 && 0 <= hi
    ensures (lo + 0x100 * hi) % 0x100 == lo
    ensures (lo + 0x100 * hi) / 0x100 == hi
  {
    var x := lo + 0x100 * hi;
    var q, r := x / 0x100, x % 0x100;
    assert x == 0x100 * q + r;
    assert 0x100 * (q - hi) == lo - r;
  }
}
