/**
 NOR flash: erasing sets every bit of a sector, programming can only clear bits.
 Cells past the end of the chip do not exist, so ranges that leave it lose their tail.
 */
module Flash {
  import opened Bytes

  const ERASED: byte := 0xFF

  /** What a cell holds after `bits` is programmed over `cell`. */
  function Nor(cell: byte, bits: byte): byte {
    NumberBound(And(Digits(8, cell), Digits(8, bits)));
    ByteLimits();
    Number(And(Digits(8, cell), Digits(8, bits)))
  }

  /** Bit by bit: programming clears the bits that are clear in what is programmed, and sets none. */
  lemma NorBits(cell: byte, bits: byte, i: nat)
    requires i < 8
    ensures Digits(8, Nor(cell, bits))[i] <==> Digits(8, cell)[i] && Digits(8, bits)[i]
  {
    DigitsOfNumber(And(Digits(8, cell), Digits(8, bits)));
  }

  lemma DigitsOfErased()
    ensures Digits(8, ERASED) == Fill(8, true)
  {
  }

  lemma NorErased(b: byte)
    ensures Nor(ERASED, b) == b
    ensures Nor(b, ERASED) == b
  {
    DigitsOfErased();
    ByteLimits();
    NumberOfDigits(8, b);
    assert And(Fill(8, true), Digits(8, b)) == Digits(8, b);
    assert And(Digits(8, b), Fill(8, true)) == Digits(8, b);
  }

  lemma NorSame(b: byte)
    ensures Nor(b, b) == b
  {
    ByteLimits();
    NumberOfDigits(8, b);
    assert And(Digits(8, b), Digits(8, b)) == Digits(8, b);
  }

  lemma NorZero(cell: byte)
    ensures Nor(cell, 0) == 0
  {
    assert Digits(8, 0) == Fill(8, false);
    assert And(Digits(8, cell), Fill(8, false)) == Fill(8, false);
    NumberOfZeros(8);
  }

  /** Programming the same byte a second time changes nothing, whatever the cell held before. */
  lemma NorAgain(cell: byte, b: byte)
    ensures Nor(Nor(cell, b), b) == Nor(cell, b)
  {
    var once := And(Digits(8, cell), Digits(8, b));
    DigitsOfNumber(once);
    assert And(once, Digits(8, b)) == once;
  }

  function Erase(f: seq<byte>, off: nat, n: nat): (g: seq<byte>)
    ensures |g| == |f|
  {
    seq(|f|, i requires 0 <= i < |f| => if off <= i < off + n then ERASED else f[i])
  }

  function Program(f: seq<byte>, off: nat, data: seq<byte>): (g: seq<byte>)
    ensures |g| == |f|
  {
    seq(|f|, i requires 0 <= i < |f| => if off <= i < off + |data| then Nor(f[i], data[i - off]) else f[i])
  }

  /** Both contents agree outside `[lo, hi)`. */
  ghost predicate SameOutside(f: seq<byte>, g: seq<byte>, lo: nat, hi: nat) {
    |f| == |g| && forall i :: 0 <= i < |f| && !(lo <= i < hi) ==> f[i] == g[i]
  }

  /** A freshly erased range takes exactly the bytes programmed into it. */
  lemma ProgramErased(f: seq<byte>, off: nat, n: nat, data: seq<byte>)
    requires |data| <= n && off + n <= |f|
    ensures Program(Erase(f, off, n), off, data)[off..off + |data|] == data
    ensures SameOutside(f, Program(Erase(f, off, n), off, data), off, off + n)
  {
    var g := Program(Erase(f, off, n), off, data);
    forall i | 0 <= i < |data|
      ensures g[off + i] == data[i]
    {
      NorErased(data[i]);
    }
  }

  /** The chip. */
  class Chip {
    const cells: array<byte>

    constructor (contents: seq<byte>)
      ensures cells[..] == contents && fresh(cells)
    {
      cells := new byte[|contents|](i requires 0 <= i < |contents| => contents[i]);
    }

    method RangeErase(off: nat, n: nat)
      requires off + n <= cells.Length
      modifies cells
      ensures cells[..] == Erase(old(cells[..]), off, n)
    {
      for i := 0 to n
        invariant forall k :: 0 <= k < cells.Length ==>
          cells[k] == if off <= k < off + i then ERASED else old(cells[k])
      {
        cells[off + i] := ERASED;
      }
    }

    method RangeProgram(off: nat, data: seq<byte>)
      modifies cells
      ensures cells[..] == Program(old(cells[..]), off, data)
    {
      for i := 0 to |data|
        invariant forall k :: 0 <= k < cells.Length ==>
          cells[k] == if off <= k < off + i then Nor(old(cells[k]), data[k - off]) else old(cells[k])
      {
        if off + i < cells.Length {
          cells[off + i] := Nor(cells[off + i], data[i]);
        }
      }
    }
  }
}
