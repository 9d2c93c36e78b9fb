/** Bytes and other unsigned integers as numbers, with the two bitwise operations that flash and images need, and
    colours of three bytes. */
module Octets {

  type Byte = x: int | 0 <= x < 256
  type Bytes = seq<Byte>
  type Word16 = x: int | 0 <= x < 0x1_0000
  type Millis = x: int | 0 <= x < 0x1_0000_0000   // the result of millis()

  /** CRGB of FastLED. */
  datatype Color = Color(r: Byte, g: Byte, b: Byte)

  const UINT32 := 0x1_0000_0000

  /** uint32_t arithmetic. */
  function Wrap32(x: nat): (w: nat)
    ensures w < 0x1_0000_0000
    ensures x < 0x1_0000_0000 ==> w == x
  {
    x % 0x1_0000_0000
  }

  function And(a: Byte, b: Byte): Byte { ((a as bv8) & (b as bv8)) as int }

  function Xor(a: Byte, b: Byte): Byte { ((a as bv8) ^ (b as bv8)) as int }

  lemma {:induction false} AndOnes(b: Byte)
    ensures And(0xff, b) == b
  {
  }

  /** The masks of the single bits. */
  predicate IsBit(m: bv8) {
    m == 0x01 || m == 0x02 || m == 0x04 || m == 0x08 || m == 0x10 || m == 0x20 || m == 0x40 || m == 0x80
  }

  predicate Bit(b: Byte, m: bv8) { (b as bv8) & m != 0 }

  lemma {:induction false} BitwiseOf(x: bv8, y: bv8, m: bv8)
    requires IsBit(m)
    ensures (x & y) & m != 0 <==> x & m != 0 && y & m != 0
    ensures (x ^ y) & m != 0 <==> (x & m != 0) != (y & m != 0)
  {
  }

  lemma {:induction false} SameByte(x: bv8)
    ensures (x as int) as bv8 == x
  {
  }

  lemma {:induction false} AndAsBits(a: Byte, b: Byte)
    ensures And(a, b) as bv8 == (a as bv8) & (b as bv8)
  {
    SameByte((a as bv8) & (b as bv8));
  }

  lemma {:induction false} XorAsBits(a: Byte, b: Byte)
    ensures Xor(a, b) as bv8 == (a as bv8) ^ (b as bv8)
  {
    SameByte((a as bv8) ^ (b as bv8));
  }

  /** The two operations work bit by bit. */
  lemma {:induction false} Bitwise(a: Byte, b: Byte, m: bv8)
    requires IsBit(m)
    ensures Bit(And(a, b), m) <==> Bit(a, m) && Bit(b, m)
    ensures Bit(Xor(a, b), m) <==> Bit(a, m) != Bit(b, m)
  {
    AndAsBits(a, b);
    XorAsBits(a, b);
    BitwiseOf(a as bv8, b as bv8, m);
  }
}
