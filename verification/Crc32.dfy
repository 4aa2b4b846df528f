/**
 The bitwise CRC-32 of `ota_crc32`, its table-driven form, and its power to detect bursts.
 */
module Crc32 {
  import opened Bytes

  type Word = bits: Bits | |bits| == 32 witness Fill(32, false)

  /**
   The generator x^32 + x^26 + ... + x + 1 without its leading term, reflected: bit i of the word
   is the coefficient of x^(31-i).  PolyIsConstant shows it is the constant in the code.
   */
  function Poly(): Word {
    seq(32, i => 31 - i in {26, 23, 22, 16, 12, 11, 10, 8, 7, 5, 4, 2, 1, 0})
  }

  lemma PolyIsConstant()
    ensures Number(Poly()) == 0xEDB8_8320
  {
    var b0 := [false, false, false, false, false, true, false, false];
    var b1 := [true, true, false, false, false, false, false, true];
    var b2 := [false, false, false, true, true, true, false, true];
    var b3 := [true, false, true, true, false, true, true, true];
    NumberOfByte(b0);
    NumberOfByte(b1);
    NumberOfByte(b2);
    NumberOfByte(b3);
    assert Poly() == b0 + (b1 + (b2 + b3));
    NumberConcat(b2, b3);
    NumberConcat(b1, b2 + b3);
    NumberConcat(b0, b1 + (b2 + b3));
    ByteLimits();
  }

  /** `(crc >> 1) ^ (0xEDB88320 & -(crc & 1))` */
  function BitStep(c: Word): Word {
    Xor(c[1..] + [false], And(Poly(), Fill(32, c[0])))
  }

  function Steps(n: nat, c: Word): Word {
    if n == 0 then c else Steps(n - 1, BitStep(c))
  }

  /** A byte widened to 32 bits. */
  function Widen(b: byte): Word { Digits(8, b) + Fill(24, false) }

  function Absorb(c: Word, data: seq<byte>): Word
    decreases |data|
  {
    if data == [] then c else Absorb(Steps(8, Xor(c, Widen(data[0]))), data[1..])
  }

  function Ones(): Word { Fill(32, true) }

  /** The value `ota_crc32` computes, as specified by its loops. */
  function Crc(data: seq<byte>): u32 {
    var bits := Xor(Absorb(Ones(), data), Ones());
    NumberBound(bits);
    ByteLimits();
    Number(bits)
  }

  method OtaCrc32(data: seq<byte>) returns (r: u32)
    ensures r == Crc(data)
  {
    var crc: Word := Ones();
    for i := 0 to |data|
      invariant Absorb(crc, data[i..]) == Absorb(Ones(), data)
    {
      crc := Xor(crc, Widen(data[i]));
      ghost var mixed := crc;
      for k := 0 to 8
        invariant Steps(8 - k, crc) == Steps(8, mixed)
      {
        crc := BitStep(crc);
      }
    }
    crc := Xor(crc, Ones());
    NumberBound(crc);
    ByteLimits();
    r := Number(crc);
  }

  // ---- linearity of the register ----

  lemma BitStepXor(a: Word, b: Word)
    ensures BitStep(Xor(a, b)) == Xor(BitStep(a), BitStep(b))
  {
  }

  lemma {:induction false} StepsXor(n: nat, a: Word, b: Word, c: Word)
    requires c == Xor(a, b)
    ensures Steps(n, c) == Xor(Steps(n, a), Steps(n, b))
  {
    if n > 0 {
      BitStepXor(a, b);
      StepsXor(n - 1, BitStep(a), BitStep(b), BitStep(c));
    }
  }

  lemma BitStepShift(t: Bits)
    requires |t| == 31
    ensures BitStep([false] + t) == t + [false]
  {
    assert ([false] + t)[1..] == t;
  }

  lemma {:induction false} StepsShift(n: nat, h: Bits, c: Word)
    requires n + |h| == 32
    requires c == Fill(n, false) + h
    ensures Steps(n, c) == h + Fill(n, false)
  {
    if n == 0 {
      assert c == h == h + Fill(0, false);
    } else {
      var t := Fill(n - 1, false) + h;
      assert c == [false] + t;
      BitStepShift(t);
      var d := t + [false];
      assert d == Fill(n - 1, false) + (h + [false]);
      StepsShift(n - 1, h + [false], d);
      assert h + [false] + Fill(n - 1, false) == h + Fill(n, false);
    }
  }

  // ---- the table-driven form of section 8 of RFC 1952 ----

  /** One round of `make_crc_table`. */
  function TableRound(c: Word): Word {
    if c[0] then Xor(Poly(), c[1..] + [false]) else c[1..] + [false]
  }

  function TableRounds(n: nat, c: Word): Word {
    if n == 0 then c else TableRounds(n - 1, TableRound(c))
  }

  function LowByte(c: Word): byte {
    NumberBound(c[..8]);
    ByteLimits();
    Number(c[..8])
  }

  /** The loop of `update_crc`, with `crc_table[n]` written as the rounds that fill it. */
  function UpdateCrc(c: Word, data: seq<byte>): Word
    decreases |data|
  {
    if data == [] then c
    else
      var index := LowByte(Xor(c, Widen(data[0])));
      UpdateCrc(Xor(TableRounds(8, Widen(index)), c[8..] + Fill(8, false)), data[1..])
  }

  lemma TableRoundIsBitStep(c: Word)
    ensures TableRound(c) == BitStep(c)
  {
  }

  lemma {:induction false} TableRoundsAreSteps(n: nat, c: Word)
    ensures TableRounds(n, c) == Steps(n, c)
  {
    if n > 0 {
      TableRoundIsBitStep(c);
      TableRoundsAreSteps(n - 1, BitStep(c));
    }
  }

  lemma SplitByte(x: Word)
    ensures Steps(8, x) == Xor(Steps(8, x[..8] + Fill(24, false)), x[8..] + Fill(8, false))
  {
    var low := x[..8] + Fill(24, false);
    var high := Fill(8, false) + x[8..];
    StepsXor(8, low, high, x);
    StepsShift(8, x[8..], high);
  }

  lemma TableLookup(c: Word, b: byte)
    ensures Steps(8, Xor(c, Widen(b)))
         == Xor(TableRounds(8, Widen(LowByte(Xor(c, Widen(b))))), c[8..] + Fill(8, false))
  {
    var x := Xor(c, Widen(b));
    SplitByte(x);
    DigitsOfNumber(x[..8]);
    TableRoundsAreSteps(8, Widen(LowByte(x)));
    assert x[8..] == c[8..];
  }

  /** The register the bitwise loop reaches is the one the table-driven loop reaches. */
  lemma {:induction false} AbsorbIsUpdateCrc(c: Word, data: seq<byte>)
    ensures Absorb(c, data) == UpdateCrc(c, data)
    decreases |data|
  {
    if data != [] {
      TableLookup(c, data[0]);
      AbsorbIsUpdateCrc(Steps(8, Xor(c, Widen(data[0]))), data[1..]);
    }
  }

  // ---- burst detection ----

  lemma BitStepInjective(a: Word, b: Word)
    requires BitStep(a) == BitStep(b)
    ensures a == b
  {
    assert Poly()[31];
    assert BitStep(a)[31] == a[0] && BitStep(b)[31] == b[0];
    forall i | 1 <= i < 32
      ensures a[i] == b[i]
    {
      assert BitStep(a)[i - 1] == BitStep(b)[i - 1];
    }
  }

  lemma {:induction false} StepsInjective(n: nat, a: Word, b: Word)
    requires Steps(n, a) == Steps(n, b)
    ensures a == b
  {
    if n > 0 {
      StepsInjective(n - 1, BitStep(a), BitStep(b));
      BitStepInjective(a, b);
    }
  }

  /** The bits of a message in the order in which the register meets them. */
  function MessageBits(data: seq<byte>): (bits: Bits)
    ensures |bits| == 8 * |data|
  {
    if data == [] then [] else Digits(8, data[0]) + MessageBits(data[1..])
  }

  /** The register fed one message bit at a time. */
  function Serial(c: Word, m: Bits): Word
    decreases |m|
  {
    if m == [] then c else Serial(BitStep([c[0] != m[0]] + c[1..]), m[1..])
  }

  lemma {:induction false} SerialConcat(c: Word, m: Bits, n: Bits)
    ensures Serial(c, m + n) == Serial(Serial(c, m), n)
    decreases |m|
  {
    if m == [] {
      assert m + n == n;
    } else {
      assert (m + n)[1..] == m[1..] + n;
      SerialConcat(BitStep([c[0] != m[0]] + c[1..]), m[1..], n);
    }
  }

  /** Up to 32 message bits may be mixed in at once, before the steps that consume them. */
  lemma {:induction false} SerialIsSteps(c: Word, m: Bits)
    requires |m| <= 32
    ensures Serial(c, m) == Steps(|m|, Xor(c, m + Fill(32 - |m|, false)))
    decreases |m|
  {
    if m == [] {
      assert Xor(c, m + Fill(32, false)) == c;
    } else {
      var first := [c[0] != m[0]] + c[1..];
      var rest := m[1..] + Fill(32 - |m|, false);
      var late := Fill(1, false) + rest;
      var whole := Xor(c, m + Fill(32 - |m|, false));
      assert whole == Xor(first, late);
      BitStepXor(first, late);
      assert late == [false] + rest;
      BitStepShift(rest);
      SerialIsSteps(BitStep(first), m[1..]);
      assert m[1..] + Fill(32 - |m[1..]|, false) == rest + [false];
    }
  }

  lemma {:induction false} AbsorbIsSerial(c: Word, data: seq<byte>)
    ensures Absorb(c, data) == Serial(c, MessageBits(data))
    decreases |data|
  {
    if data != [] {
      SerialIsSteps(c, Digits(8, data[0]));
      SerialConcat(c, Digits(8, data[0]), MessageBits(data[1..]));
      AbsorbIsSerial(Steps(8, Xor(c, Widen(data[0]))), data[1..]);
    }
  }

  lemma {:induction false} MessageBitsInjective(a: seq<byte>, b: seq<byte>)
    requires |a| == |b| && MessageBits(a) == MessageBits(b)
    ensures a == b
  {
    if a != [] {
      assert |MessageBits(a)| == |MessageBits(b)|;
      assert Digits(8, a[0]) == MessageBits(a)[..8] == MessageBits(b)[..8] == Digits(8, b[0]);
      ByteLimits();
      NumberOfDigits(8, a[0]);
      NumberOfDigits(8, b[0]);
      assert MessageBits(a[1..]) == MessageBits(a)[8..] == MessageBits(b)[8..] == MessageBits(b[1..]);
      MessageBitsInjective(a[1..], b[1..]);
    }
  }

  lemma {:induction false} AbsorbConcat(c: Word, a: seq<byte>, b: seq<byte>)
    ensures Absorb(c, a + b) == Absorb(Absorb(c, a), b)
    decreases |a|
  {
    if a == [] {
      assert a + b == b;
    } else {
      assert (a + b)[1..] == a[1..] + b;
      AbsorbConcat(Steps(8, Xor(c, Widen(a[0]))), a[1..], b);
    }
  }

  lemma {:induction false} AbsorbInjective(c: Word, d: Word, data: seq<byte>)
    requires Absorb(c, data) == Absorb(d, data)
    ensures c == d
    decreases |data|
  {
    if data != [] {
      var w := Widen(data[0]);
      AbsorbInjective(Steps(8, Xor(c, w)), Steps(8, Xor(d, w)), data[1..]);
      StepsInjective(8, Xor(c, w), Xor(d, w));
      XorCancel(c, d, w);
    }
  }

  lemma XorCancel(a: Bits, b: Bits, c: Bits)
    requires |a| == |b| == |c| && Xor(a, c) == Xor(b, c)
    ensures a == b
  {
    forall i | 0 <= i < |a|
      ensures a[i] == b[i]
    {
      assert Xor(a, c)[i] == Xor(b, c)[i];
    }
  }

  lemma XorCommutes(a: Bits, b: Bits)
    requires |a| == |b|
    ensures Xor(a, b) == Xor(b, a)
  {
  }

  lemma AbsorbSeparates(c: Word, a: seq<byte>, b: seq<byte>)
    requires |a| == |b| <= 4 && a != b
    ensures Absorb(c, a) != Absorb(c, b)
  {
    if Absorb(c, a) == Absorb(c, b) {
      var k := 8 * |a|;
      var x, y := MessageBits(a) + Fill(32 - k, false), MessageBits(b) + Fill(32 - k, false);
      AbsorbIsSerial(c, a);
      AbsorbIsSerial(c, b);
      SerialIsSteps(c, MessageBits(a));
      SerialIsSteps(c, MessageBits(b));
      StepsInjective(k, Xor(c, x), Xor(c, y));
      assert x == y by {
        XorCommutes(c, x);
        XorCommutes(c, y);
        XorCancel(x, y, c);
      }
      assert MessageBits(a) == x[..k] == y[..k] == MessageBits(b);
      MessageBitsInjective(a, b);
    }
  }

  /** Two messages that differ, and only inside a window of four bytes, have different CRCs. */
  lemma BurstDetected(before: seq<byte>, a: seq<byte>, b: seq<byte>, after: seq<byte>)
    requires |a| == |b| <= 4 && a != b
    ensures Crc(before + a + after) != Crc(before + b + after)
  {
    AbsorbConcat(Ones(), before + a, after);
    AbsorbConcat(Ones(), before + b, after);
    AbsorbConcat(Ones(), before, a);
    AbsorbConcat(Ones(), before, b);
    AbsorbSeparates(Absorb(Ones(), before), a, b);
    var x, y := Absorb(Ones(), before + a + after), Absorb(Ones(), before + b + after);
    if Crc(before + a + after) == Crc(before + b + after) {
      DigitsOfNumber(Xor(x, Ones()));
      DigitsOfNumber(Xor(y, Ones()));
      XorCancel(x, y, Ones());
      AbsorbInjective(Absorb(Ones(), before + a), Absorb(Ones(), before + b), after);
    }
  }
}
