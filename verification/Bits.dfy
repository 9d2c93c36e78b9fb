/** Unsigned machine integers as their bits, most significant bit first. */
module Bits {
  import opened Arithmetic

  type Bits = seq<bool>

  type Word = w: Bits | |w| == 32 witness seq(32, _ => false)

  /** The low n bits of x: the value of (uintn_t) x. */
  function FromNat(x: nat, n: nat): (bits: Bits)
    ensures |bits| == n
    decreases n
  {
    if n == 0 then [] else FromNat(x / 2, n - 1) + [x % 2 == 1]
  }

  function ToNat(bits: Bits): nat {
    if bits == [] then 0 else 2 * ToNat(bits[..|bits| - 1]) + (if bits[|bits| - 1] then 1 else 0)
  }

  function Word32(x: nat): Word { FromNat(x, 32) }

  function Falses(n: nat): Bits { seq(n, _ => false) }

  function Xor(a: Bits, b: Bits): (c: Bits)
    requires |a| == |b|
    ensures |c| == |a|
  {
    seq(|a|, i requires 0 <= i < |a| => a[i] != b[i])
  }

  function And(a: Bits, b: Bits): (c: Bits)
    requires |a| == |b|
    ensures |c| == |a|
  {
    seq(|a|, i requires 0 <= i < |a| => a[i] && b[i])
  }

  lemma {:induction false} FromNatZero(n: nat)
    ensures FromNat(0, n) == Falses(n)
    decreases n
  {
    if n > 0 {
      FromNatZero(n - 1);
    }
  }

  lemma {:induction false} FromNatLow(x: nat, n: nat)
    requires n > 0
    ensures FromNat(x, n)[n - 1] == (x % 2 == 1)
  {
  }

  lemma {:induction false} FromNatShifted(x: nat, n: nat, k: nat)
    ensures FromNat(x * Power2(k), n + k) == FromNat(x, n) + Falses(k)
    decreases k
  {
    if k > 0 {
      var y := x * Power2(k - 1);
      assert x * Power2(k) == 2 * y;
      FromNatShifted(x, n, k - 1);
      assert Falses(k) == Falses(k - 1) + [false];
    }
  }

  lemma {:induction false} FromNatOnes(n: nat)
    ensures FromNat(Power2(n) - 1, n) == seq(n, _ => true)
    decreases n
  {
    if n > 0 {
      FromNatOnes(n - 1);
      assert (Power2(n) - 1) / 2 == Power2(n - 1) - 1;
    }
  }

  type Digit = d: nat | d < 16

  function Hex(d: Digit): Bits { [d / 8 % 2 == 1, d / 4 % 2 == 1, d / 2 % 2 == 1, d % 2 == 1] }

  /** The number that hexadecimal digits stand for, and its bits. */
  function HexValue(digits: seq<Digit>): nat {
    if digits == [] then 0 else 16 * HexValue(digits[..|digits| - 1]) + digits[|digits| - 1]
  }

  function HexBits(digits: seq<Digit>): (bits: Bits)
    ensures |bits| == 4 * |digits|
  {
    if digits == [] then [] else HexBits(digits[..|digits| - 1]) + Hex(digits[|digits| - 1])
  }

  lemma {:induction false} HexBitAt(digits: seq<Digit>, i: nat, k: nat)
    requires i < |digits| && k < 4
    ensures HexBits(digits)[4 * i + k] == Hex(digits[i])[k]
  {
    if i < |digits| - 1 {
      HexBitAt(digits[..|digits| - 1], i, k);
    }
  }

  lemma {:induction false} HexValueStep(digits: seq<Digit>, n: nat)
    requires n < |digits|
    ensures HexValue(digits[..n + 1]) == 16 * HexValue(digits[..n]) + digits[n]
  {
    assert digits[..n + 1][..n] == digits[..n];
  }

  lemma {:induction false} FromNatDigit(x: nat, d: Digit, n: nat)
    ensures FromNat(16 * x + d, n + 4) == FromNat(x, n) + Hex(d)
  {
    var y := 16 * x + d;
    assert y / 2 == 8 * x + d / 2 && y / 2 / 2 == 4 * x + d / 4 && y / 2 / 2 / 2 == 2 * x + d / 8;
    assert FromNat(y, n + 4) == FromNat(y / 2, n + 3) + [d % 2 == 1];
    assert FromNat(y / 2, n + 3) == FromNat(y / 2 / 2, n + 2) + [d / 2 % 2 == 1];
    assert FromNat(y / 2 / 2, n + 2) == FromNat(y / 2 / 2 / 2, n + 1) + [d / 4 % 2 == 1];
    assert FromNat(y / 2 / 2 / 2, n + 1) == FromNat(x, n) + [d / 8 % 2 == 1];
  }

  lemma {:induction false} FromNatHex(digits: seq<Digit>)
    ensures FromNat(HexValue(digits), 4 * |digits|) == HexBits(digits)
  {
    if digits != [] {
      var rest, d := digits[..|digits| - 1], digits[|digits| - 1];
      FromNatHex(rest);
      FromNatDigit(HexValue(rest), d, 4 * |rest|);
    }
  }

  lemma {:induction false} FromNatToNat(bits: Bits)
    ensures FromNat(ToNat(bits), |bits|) == bits
  {
    if bits != [] {
      var high := bits[..|bits| - 1];
      FromNatToNat(high);
      assert ToNat(bits) / 2 == ToNat(high);
    }
  }

  lemma {:induction false} ToNatBound(bits: Bits)
    ensures ToNat(bits) < Power2(|bits|)
  {
    if bits != [] {
      ToNatBound(bits[..|bits| - 1]);
    }
  }

  lemma {:induction false} Power2Next4(n: nat)
    ensures Power2(n + 4) == 16 * Power2(n)
  {
    assert Power2(n + 4) == 2 * Power2(n + 3);
    assert Power2(n + 2) == 2 * Power2(n + 1);
  }

  lemma {:induction false} Power2Of32()
    ensures Power2(32) == 0x1_0000_0000
  {
    Power2Next4(0);
    Power2Next4(4);
    Power2Next4(8);
    Power2Next4(12);
    Power2Next4(16);
    Power2Next4(20);
    Power2Next4(24);
    Power2Next4(28);
  }

  /** The number that a word stands for. */
  function Value(w: Word): (x: nat)
    ensures x < 0x1_0000_0000
  {
    ToNatBound(w);
    Power2Of32();
    ToNat(w)
  }

  lemma {:induction false} ToNatFromNat(x: nat, n: nat)
    ensures ToNat(FromNat(x, n)) == x % Power2(n)
    ensures ToNat(FromNat(x, n)) < Power2(n)
    decreases n
  {
    if n > 0 {
      ToNatFromNat(x / 2, n - 1);
      var high := FromNat(x / 2, n - 1);
      assert FromNat(x, n)[..n - 1] == high;
      assert ToNat(FromNat(x, n)) == 2 * ToNat(high) + x % 2;
      RemainderOfDouble(x, Power2(n - 1));
    }
  }
}
