/**
 Bytes and 32-bit words, their little-endian wire form, and the bits they are made of.

 A machine word is modelled as the sequence of its bits, least significant first, wherever the
 program uses bitwise operators on it, and as a bounded integer wherever it does arithmetic.
 */
module Bytes {
  type byte = x: int | 0 <= x < 0x100
  type u32 = x: int | 0 <= x < 0x1_0000_0000
  type Bits = seq<bool>

  function Pow2(n: nat): (r: nat)
    ensures r > 0
  {
    if n == 0 then 1 else 2 * Pow2(n - 1)
  }

  /** The `n` low bits of `x`, least significant first. */
  function Digits(n: nat, x: nat): (bits: Bits)
    ensures |bits| == n
  {
    if n == 0 then [] else [x % 2 == 1] + Digits(n - 1, x / 2)
  }

  function Number(bits: Bits): nat {
    if bits == [] then 0 else 2 * Number(bits[1..]) + (if bits[0] then 1 else 0)
  }

  lemma {:induction false} NumberBound(bits: Bits)
    ensures Number(bits) < Pow2(|bits|)
  {
    if bits != [] {
      NumberBound(bits[1..]);
    }
  }

  lemma {:induction false} NumberOfDigits(n: nat, x: nat)
    requires x < Pow2(n)
    ensures Number(Digits(n, x)) == x
  {
    if n > 0 {
      NumberOfDigits(n - 1, x / 2);
    }
  }

  lemma {:induction false} DigitsOfNumber(bits: Bits)
    ensures Digits(|bits|, Number(bits)) == bits
  {
    if bits != [] {
      DigitsOfNumber(bits[1..]);
    }
  }

  lemma Associate(p: nat, x: nat)
    ensures (2 * p) * x == 2 * (p * x)
  {
  }

  lemma {:induction false} NumberConcat(a: Bits, b: Bits)
    ensures Number(a + b) == Number(a) + Pow2(|a|) * Number(b)
  {
    if a == [] {
      assert a + b == b;
    } else {
      assert (a + b)[1..] == a[1..] + b;
      NumberConcat(a[1..], b);
      Associate(Pow2(|a| - 1), Number(b));
    }
  }

  lemma NumberOfByte(b: Bits)
    requires |b| == 8
    ensures Number(b) == (if b[0] then 1 else 0) + (if b[1] then 2 else 0)
                       + (if b[2] then 4 else 0) + (if b[3] then 8 else 0)
                       + 16 * Number(b[4..])
    ensures Number(b[4..]) == (if b[4] then 1 else 0) + (if b[5] then 2 else 0)
                            + (if b[6] then 4 else 0) + (if b[7] then 8 else 0)
  {
    NumberOfNibble(b[4..]);
    NumberOfNibble(b[..4]);
    assert b == b[..4] + b[4..];
    NumberConcat(b[..4], b[4..]);
  }

  lemma NumberOfNibble(b: Bits)
    requires |b| == 4
    ensures Number(b) == (if b[0] then 1 else 0) + (if b[1] then 2 else 0)
                       + (if b[2] then 4 else 0) + (if b[3] then 8 else 0)
  {
    assert b[1..][1..] == b[2..];
    assert b[2..][1..] == b[3..];
    assert b[3..][1..] == [];
    assert Number(b[2..]) == 2 * Number(b[3..]) + (if b[2] then 1 else 0);
    assert Number(b[1..]) == 2 * Number(b[2..]) + (if b[1] then 1 else 0);
  }

  lemma ByteLimits()
    ensures Pow2(8) == 0x100
    ensures Pow2(32) == 0x1_0000_0000
  {
    assert Pow2(8) == 0x100;
    assert Pow2(16) == 0x1_0000;
    assert Pow2(24) == 0x100_0000;
  }

  /** `struct.pack("<I", x)` on the host, `write_u32` on the device. */
  function Pack(x: u32): (bs: seq<byte>)
    ensures |bs| == 4
  {
    var y := x / 0x100;
    var z := y / 0x100;
    [x % 0x100, y % 0x100, z % 0x100, z / 0x100]
  }

  /** The shifts and ors with which `read_u32` puts a word back together. */
  function Unpack(bs: seq<byte>): u32
    requires |bs| == 4
  {
    var b0: int, b1: int, b2: int, b3: int := bs[0], bs[1], bs[2], bs[3];
    b0 + 0x100 * (b1 + 0x100 * (b2 + 0x100 * b3))
  }

  lemma UnpackPack(x: u32)
    ensures Unpack(Pack(x)) == x
  {
  }

  lemma PackUnpack(bs: seq<byte>)
    requires |bs| == 4
    ensures Pack(Unpack(bs)) == bs
  {
    var y := bs[1] as int + 0x100 * (bs[2] as int + 0x100 * bs[3] as int);
    assert Unpack(bs) % 0x100 == bs[0] && Unpack(bs) / 0x100 == y;
    var z := bs[2] as int + 0x100 * bs[3] as int;
    assert y % 0x100 == bs[1] && y / 0x100 == z;
    assert z % 0x100 == bs[2] && z / 0x100 == bs[3];
  }

  /** Little-endian: the bits of the four bytes, first byte first, are the bits of the word. */
  lemma PackBits(x: u32)
    ensures var p := Pack(x);
            Digits(32, x) == Digits(8, p[0]) + (Digits(8, p[1]) + (Digits(8, p[2]) + Digits(8, p[3])))
  {
    ByteLimits();
    BytewiseDigits(8, x);
  }

  lemma BytewiseDigits(n: nat, x: u32)
    requires Pow2(n) == 0x100
    ensures var p := Pack(x);
            Digits(n + (n + (n + n)), x) == Digits(n, p[0]) + (Digits(n, p[1]) + (Digits(n, p[2]) + Digits(n, p[3])))
  {
    var p := Pack(x);
    var y, z := x / 0x100, x / 0x100 / 0x100;
    DigitsSplit(n, n + (n + n), x, 0x100, y, p[0]);
    DigitsSplit(n, n + n, y, 0x100, z, p[1]);
    DigitsSplit(n, n, z, 0x100, p[3], p[2]);
  }

  /** The low digits of `p * q + r` are those of `r`, the others those of `q`. */
  lemma {:induction false} DigitsSplit(n: nat, k: nat, x: nat, p: nat, q: nat, r: nat)
    requires p == Pow2(n) && x == p * q + r && r < p
    ensures Digits(n + k, x) == Digits(n, r) + Digits(k, q)
  {
    if n > 0 {
      var h := Pow2(n - 1);
      Associate(h, q);
      DigitsSplit(n - 1, k, x / 2, h, q, r / 2);
    }
  }

  function Xor(a: Bits, b: Bits): (c: Bits)
    requires |a| == |b|
    ensures |c| == |a|
  {
    seq(|a|, i requires 0 <= i < |a| => a[i] != b[i])
  }

  function And(a: Bits, b: Bits): (c: Bits)
    requires |a| == |b|
    ensures |c| == |a|
  {
    seq(|a|, i requires 0 <= i < |a| => a[i] && b[i])
  }

  function Fill(n: nat, b: bool): (c: Bits)
    ensures |c| == n
  {
    seq(n, _ => b)
  }

  lemma {:induction false} NumberOfZeros(n: nat)
    ensures Number(Fill(n, false)) == 0
  {
    if n > 0 {
      assert Fill(n, false)[1..] == Fill(n - 1, false);
      NumberOfZeros(n - 1);
    }
  }
}
