/**
 The CRC register is the remainder of a division of polynomials over GF(2).

 A polynomial is written as the sequence of its coefficients, highest power first.
 */
module Gf2Division {
  import opened Bytes
  import opened Crc32

  /** The 33 coefficients of the generator, x^32 first. */
  function Divisor(): Bits { [true] + Poly() }

  /** The generator times `b`, with `n` lower coefficients to come. */
  function Front(b: bool, n: nat): (p: Bits)
    ensures |p| == n + 33
  {
    (if b then Divisor() else Fill(33, false)) + Fill(n, false)
  }

  /** Carry-less product of `q` and the generator. */
  function Product(q: Bits): (p: Bits)
    ensures |p| == |q| + 32
  {
    if q == [] then Fill(32, false)
    else Xor(Front(q[0], |q| - 1), [false] + Product(q[1..]))
  }

  /** `d` is `q` times the generator plus `r`, and `r` has degree below 32. */
  ghost predicate Divides(d: Bits, q: Bits, r: Bits) {
    |d| == |q| + 32 && |r| == 32 && d == Xor(Product(q), Fill(|q|, false) + r)
  }

  ghost predicate IsRemainder(d: Bits, r: Bits) {
    exists q: Bits :: Divides(d, q, r)
  }

  lemma {:induction false} DivisionUnique(d: Bits, q: Bits, r: Bits, q': Bits, r': Bits)
    requires Divides(d, q, r) && Divides(d, q', r')
    ensures q == q' && r == r'
    decreases |q|
  {
    if q == [] {
      forall i | 0 <= i < 32
        ensures r[i] == r'[i]
      {
        assert d[i] == r[i] && d[i] == r'[i];
      }
    } else {
      assert d[0] == q[0] && d[0] == q'[0];
      var front := (if q[0] then Divisor() else Fill(33, false)) + Fill(|q| - 1, false);
      var e := Xor(d, front)[1..];
      TailDivides(d, q, r);
      TailDivides(d, q', r');
      DivisionUnique(e, q[1..], r, q'[1..], r');
    }
  }

  lemma TailDivides(d: Bits, q: Bits, r: Bits)
    requires Divides(d, q, r) && q != []
    ensures Divides(Xor(d, Front(q[0], |q| - 1))[1..], q[1..], r)
  {
    var front := (if q[0] then Divisor() else Fill(33, false)) + Fill(|q| - 1, false);
    var e := Xor(d, front)[1..];
    var f := Xor(Product(q[1..]), Fill(|q| - 1, false) + r);
    forall i | 0 <= i < |e|
      ensures e[i] == f[i]
    {
      assert d[i + 1] == (Product(q)[i + 1] != (Fill(|q|, false) + r)[i + 1]);
      assert Product(q)[i + 1] == (front[i + 1] != Product(q[1..])[i]);
    }
  }

  /** A remainder modulo the generator is unique. */
  lemma RemainderUnique(d: Bits, r: Bits, r': Bits)
    requires IsRemainder(d, r) && IsRemainder(d, r')
    ensures r == r'
  {
    var q :| Divides(d, q, r);
    var q' :| Divides(d, q', r');
    DivisionUnique(d, q, r, q', r');
  }

  /** The quotient bits, one for each step of the register. */
  function Quotient(c: Word, m: Bits): (q: Bits)
    ensures |q| == |m|
    decreases |m|
  {
    if m == [] then [] else [c[0] != m[0]] + Quotient(BitStep([c[0] != m[0]] + c[1..]), m[1..])
  }

  /** The message times x^32, with the register's contents added to its leading 32 coefficients. */
  function Dividend(c: Word, m: Bits): Bits {
    Xor(m + Fill(32, false), c + Fill(|m|, false))
  }

  lemma {:induction false} SerialDivides(c: Word, m: Bits)
    ensures Divides(Dividend(c, m), Quotient(c, m), Serial(c, m))
    decreases |m|
  {
    if m == [] {
    } else {
      var c' := BitStep([c[0] != m[0]] + c[1..]);
      SerialDivides(c', m[1..]);
      DividendStep(c, m, Serial(c', m[1..]), Quotient(c', m[1..]));
    }
  }

  lemma ProductCell(b: bool, q: Bits, i: nat)
    requires i < |q| + 33
    ensures Product([b] + q)[i] == if i == 0 then b else Front(b, |q|)[i] != Product(q)[i - 1]
  {
    assert ([b] + q)[1..] == q;
  }

  lemma DividendHead(c: Word, m: Bits)
    requires m != []
    ensures Dividend(c, m)[0] == (c[0] != m[0])
  {
  }

  /** Behind its first coefficient the dividend is the next one, with the generator taken away. */
  lemma DividendCell(c: Word, m: Bits, b: bool, i: nat)
    requires m != [] && b == (c[0] != m[0]) && 0 < i < |m| + 32
    ensures Dividend(c, m)[i] == (Dividend(BitStep([b] + c[1..]), m[1..])[i - 1] != Front(b, |m| - 1)[i])
  {
    StepCell(c, b, i);
    assert (m + Fill(32, false))[i] == (m[1..] + Fill(32, false))[i - 1];
  }

  lemma StepCell(c: Word, b: bool, i: nat)
    requires i > 0
    ensures i < 33 ==> BitStep([b] + c[1..])[i - 1] == ((if i < 32 then c[i] else false) != Front(b, 0)[i])
  {
  }

  lemma DividendStep(c: Word, m: Bits, r: Word, q: Bits)
    requires m != [] && |q| == |m| - 1
    requires Divides(Dividend(BitStep([c[0] != m[0]] + c[1..]), m[1..]), q, r)
    ensures Divides(Dividend(c, m), [c[0] != m[0]] + q, r)
  {
    var b := c[0] != m[0];
    var d, f := Dividend(c, m), Xor(Product([b] + q), Fill(|m|, false) + r);
    forall i | 0 <= i < |d|
      ensures d[i] == f[i]
    {
      ProductCell(b, q, i);
      if i == 0 {
        DividendHead(c, m);
      } else {
        DividendCell(c, m, b, i);
        assert (Fill(|m|, false) + r)[i] == (Fill(|q|, false) + r)[i - 1];
      }
    }
  }

  /**
   `ota_crc32` is the standard CRC-32: with the first 32 coefficients of the message complemented,
   its result, complemented again, is the remainder modulo the generator.
   */
  lemma CrcIsRemainder(data: seq<byte>)
    ensures IsRemainder(Dividend(Ones(), MessageBits(data)), Xor(Digits(32, Crc(data)), Ones()))
  {
    var c := Absorb(Ones(), data);
    AbsorbIsSerial(Ones(), data);
    SerialDivides(Ones(), MessageBits(data));
    assert Divides(Dividend(Ones(), MessageBits(data)), Quotient(Ones(), MessageBits(data)), c);
    DigitsOfNumber(Xor(c, Ones()));
    assert Xor(Xor(c, Ones()), Ones()) == c;
  }
}
