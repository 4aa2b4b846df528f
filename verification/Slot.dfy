/** The application slot: erasing it for an image and programming the image into it. */
module Slot {
  import opened Bytes
  import opened Layout
  import opened Flash

  function Sectors(len: nat): nat { (len + FLASH_SECTOR - 1) / FLASH_SECTOR }

  /** How much of the slot an erase for `len` bytes blanks. */
  function Blanked(len: nat): (n: nat)
    ensures len <= n < len + FLASH_SECTOR && n % FLASH_SECTOR == 0
    ensures len <= APP_MAX_SIZE ==> n <= APP_MAX_SIZE
    ensures n == Sectors(len) * FLASH_SECTOR
  {
    Sectors(len) * FLASH_SECTOR
  }

  function EraseSlot(f: seq<byte>, len: nat): (g: seq<byte>)
    ensures |g| == |f|
  {
    Erase(f, APP_OFFSET, Sectors(len) * FLASH_SECTOR)
  }

  function PadLen(len: nat): nat { (len + (FLASH_PAGE - 1)) / FLASH_PAGE * FLASH_PAGE }

  /** The page tail is filled with 0xFF. */
  function Padded(chunk: seq<byte>): seq<byte> {
    chunk + seq(PadLen(|chunk|) - |chunk|, _ => ERASED)
  }

  /** Where a chunk lands; the address arithmetic is 32 bits wide. */
  function Address(off: u32): u32 { (APP_OFFSET + off) % 0x1_0000_0000 }

  function ProgramChunk(f: seq<byte>, off: u32, chunk: seq<byte>): (g: seq<byte>)
    ensures |g| == |f|
  {
    Program(f, Address(off), Padded(chunk))
  }

  /** The first `len` bytes of the slot, as far as the chip goes. */
  function SlotBytes(f: seq<byte>, len: nat): seq<byte>
    requires |f| == FLASH_TOTAL
  {
    if APP_OFFSET + len <= FLASH_TOTAL then f[APP_OFFSET..APP_OFFSET + len] else f[APP_OFFSET..]
  }

  method EraseSlotSectors(chip: Chip, len: u32)
    requires APP_OFFSET + Sectors(len) * FLASH_SECTOR <= chip.cells.Length
    modifies chip.cells
    ensures chip.cells[..] == EraseSlot(old(chip.cells[..]), len)
  {
    var nsec := Sectors(len);
    for i := 0 to nsec
      invariant chip.cells[..] == Erase(old(chip.cells[..]), APP_OFFSET, i * FLASH_SECTOR)
    {
      chip.RangeErase(APP_OFFSET + i * FLASH_SECTOR, FLASH_SECTOR);
    }
  }

  /** A piece of an image: an offset and the bytes found there. */
  datatype Piece = Piece(off: u32, bytes: seq<byte>)

  ghost predicate PieceOf(p: Piece, image: seq<byte>) {
    p.off + |p.bytes| <= |image| && p.bytes == image[p.off..p.off + |p.bytes|]
  }

  predicate Covers(p: Piece, i: nat) { p.off <= i < p.off + |p.bytes| }

  ghost predicate CoveredBy(ps: seq<Piece>, i: nat) {
    exists k :: 0 <= k < |ps| && Covers(ps[k], i)
  }

  function ProgramAll(f: seq<byte>, ps: seq<Piece>): (g: seq<byte>)
    ensures |g| == |f|
    decreases |ps|
  {
    if ps == [] then f else ProgramAll(ProgramChunk(f, ps[0].off, ps[0].bytes), ps[1..])
  }

  lemma PadLenBound(len: nat)
    ensures len <= PadLen(len) < len + FLASH_PAGE
    ensures PadLen(len) % FLASH_PAGE == 0
  {
  }

  /** A chunk changes only the cells its own bytes fall on: the padding changes nothing. */
  lemma ChunkCell(f: seq<byte>, off: u32, chunk: seq<byte>, i: nat)
    requires off + |chunk| <= APP_MAX_SIZE && i < |f|
    ensures ProgramChunk(f, off, chunk)[i] ==
      if APP_OFFSET + off <= i < APP_OFFSET + off + |chunk| then Nor(f[i], chunk[i - APP_OFFSET - off]) else f[i]
  {
    var data, at := Padded(chunk), APP_OFFSET + off;
    AddressInSlot(off);
    ProgramCell(f, at, data, i);
    NorErased(f[i]);
    if at <= i < at + |data| {
      PaddedByte(chunk, i - at);
    }
    PadLenBound(|chunk|);
  }

  lemma PaddedByte(chunk: seq<byte>, k: nat)
    requires k < |Padded(chunk)|
    ensures Padded(chunk)[k] == if k < |chunk| then chunk[k] else ERASED
  {
  }

  lemma ProgramCell(f: seq<byte>, at: nat, data: seq<byte>, i: nat)
    requires i < |f|
    ensures Program(f, at, data)[i] == if at <= i < at + |data| then Nor(f[i], data[i - at]) else f[i]
  {
  }

  lemma AddressInSlot(off: u32)
    requires off <= APP_MAX_SIZE
    ensures Address(off) == APP_OFFSET + off
  {
  }

  /** Programming a chunk a second time changes nothing. */
  lemma ChunkIdempotent(f: seq<byte>, off: u32, chunk: seq<byte>)
    requires off + |chunk| <= APP_MAX_SIZE
    ensures ProgramChunk(ProgramChunk(f, off, chunk), off, chunk) == ProgramChunk(f, off, chunk)
  {
    var g := ProgramChunk(f, off, chunk);
    forall i | 0 <= i < |f|
      ensures ProgramChunk(g, off, chunk)[i] == g[i]
    {
      ChunkCell(f, off, chunk, i);
      ChunkCell(g, off, chunk, i);
      if APP_OFFSET + off <= i < APP_OFFSET + off + |chunk| {
        NorAgain(f[i], chunk[i - APP_OFFSET - off]);
      }
    }
  }

  /** A cell of the slot is programmed by the pieces that cover it, and by no other. */
  lemma {:induction false} CellAfterAll(f: seq<byte>, ps: seq<Piece>, image: seq<byte>, i: nat)
    requires |image| <= APP_MAX_SIZE && APP_OFFSET + |image| <= |f| && i < |image|
    requires forall k :: 0 <= k < |ps| ==> PieceOf(ps[k], image)
    requires f[APP_OFFSET + i] == ERASED || f[APP_OFFSET + i] == image[i]
    ensures ProgramAll(f, ps)[APP_OFFSET + i] == if CoveredBy(ps, i) then image[i] else f[APP_OFFSET + i]
    decreases |ps|
  {
    if ps != [] {
      var p := ps[0];
      assert PieceOf(p, image);
      PieceCell(f, p, image, i);
      OtherPieces(ps, image);
      CellAfterAll(ProgramChunk(f, p.off, p.bytes), ps[1..], image, i);
      CoveredStep(ps, i);
    }
  }

  lemma PieceCell(f: seq<byte>, p: Piece, image: seq<byte>, i: nat)
    requires |image| <= APP_MAX_SIZE && APP_OFFSET + |image| <= |f| && i < |image| && PieceOf(p, image)
    requires f[APP_OFFSET + i] == ERASED || f[APP_OFFSET + i] == image[i]
    ensures ProgramChunk(f, p.off, p.bytes)[APP_OFFSET + i] == if Covers(p, i) then image[i] else f[APP_OFFSET + i]
  {
    ChunkCell(f, p.off, p.bytes, APP_OFFSET + i);
    if Covers(p, i) {
      assert p.bytes[i - p.off] == image[i];
      if f[APP_OFFSET + i] == ERASED {
        NorErased(image[i]);
      } else {
        NorSame(image[i]);
      }
    }
  }

  lemma OtherPieces(ps: seq<Piece>, image: seq<byte>)
    requires ps != [] && forall k :: 0 <= k < |ps| ==> PieceOf(ps[k], image)
    ensures forall k :: 0 <= k < |ps[1..]| ==> PieceOf(ps[1..][k], image)
  {
  }

  lemma CoveredStep(ps: seq<Piece>, i: nat)
    requires ps != []
    ensures CoveredBy(ps, i) <==> Covers(ps[0], i) || CoveredBy(ps[1..], i)
  {
    if CoveredBy(ps[1..], i) {
      var k :| 0 <= k < |ps[1..]| && Covers(ps[1..][k], i);
      assert Covers(ps[k + 1], i);
    }
    if CoveredBy(ps, i) && !Covers(ps[0], i) {
      var k :| 0 <= k < |ps| && Covers(ps[k], i);
      assert ps[1..][k - 1] == ps[k];
    }
  }

  /**
   After the slot is erased, the pieces of an image may be programmed in any order and any number
   of times: the slot holds the image exactly when they cover it (or it is blank elsewhere).
   */
  lemma AnyOrder(f: seq<byte>, ps: seq<Piece>, image: seq<byte>)
    requires |image| <= APP_MAX_SIZE && |f| == FLASH_TOTAL
    requires forall k :: 0 <= k < |ps| ==> PieceOf(ps[k], image)
    ensures SlotBytes(ProgramAll(EraseSlot(f, |image|), ps), |image|) == image
       <==> forall i :: 0 <= i < |image| ==> CoveredBy(ps, i) || image[i] == ERASED
  {
    var s := SlotBytes(ProgramAll(EraseSlot(f, |image|), ps), |image|);
    forall i | 0 <= i < |image|
      ensures s[i] == if CoveredBy(ps, i) then image[i] else ERASED
    {
      CellAfterErase(f, ps, image, i);
    }
    SameWhereCovered(s, ps, image);
  }

  lemma SameWhereCovered(s: seq<byte>, ps: seq<Piece>, image: seq<byte>)
    requires |s| == |image|
    requires forall i :: 0 <= i < |image| ==> s[i] == if CoveredBy(ps, i) then image[i] else ERASED
    ensures s == image <==> forall i :: 0 <= i < |image| ==> CoveredBy(ps, i) || image[i] == ERASED
  {
    if s == image {
      forall i | 0 <= i < |image|
        ensures CoveredBy(ps, i) || image[i] == ERASED
      {
        assert s[i] == image[i];
      }
    }
  }

  lemma CellAfterErase(f: seq<byte>, ps: seq<Piece>, image: seq<byte>, i: nat)
    requires |image| <= APP_MAX_SIZE && |f| == FLASH_TOTAL && i < |image|
    requires forall k :: 0 <= k < |ps| ==> PieceOf(ps[k], image)
    ensures ProgramAll(EraseSlot(f, |image|), ps)[APP_OFFSET + i] == if CoveredBy(ps, i) then image[i] else ERASED
  {
    CellAfterAll(EraseSlot(f, |image|), ps, image, i);
  }

  /** The sectors erased for an image cover every page that a piece of it touches. */
  lemma ErasedCoversPages(image: seq<byte>, p: Piece)
    requires PieceOf(p, image) && p.off % FLASH_PAGE == 0
    ensures p.off + PadLen(|p.bytes|) <= Sectors(|image|) * FLASH_SECTOR
  {
    PadLenBound(|p.bytes|);
    var pages := Sectors(|image|) * 16;
    assert Sectors(|image|) * FLASH_SECTOR == pages * FLASH_PAGE;
    assert p.off + PadLen(|p.bytes|) < |image| + FLASH_PAGE;
    assert |image| <= pages * FLASH_PAGE;
    assert p.off == p.off / FLASH_PAGE * FLASH_PAGE;
    assert PadLen(|p.bytes|) == PadLen(|p.bytes|) / FLASH_PAGE * FLASH_PAGE;
  }
}
