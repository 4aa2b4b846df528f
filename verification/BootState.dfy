/** The boot-state record and its two ping-pong sectors. */
module BootState {
  import opened Bytes
  import opened Crc32
  import opened Flash
  import opened Layout
  import opened Wrappers

  type Contents = f: seq<byte> | |f| == FLASH_TOTAL witness seq(FLASH_TOTAL, _ => ERASED)

  datatype Record = Record(
    magic: u32, seqNo: u32, appLen: u32, appCrc: u32,
    valid: byte, confirmed: byte, attempts: byte, pad: byte, crc: u32)

  const RECORD_SIZE := 24
  const CRC_FIELD := 20

  datatype Sector = A | B {
    function Offset(): nat { if A? then BOOTSTATE_A else BOOTSTATE_B }

    function Other(): Sector { if A? then B else A }
  }

  function Encode(r: Record): (bs: seq<byte>)
    ensures |bs| == RECORD_SIZE
  {
    Pack(r.magic) + Pack(r.seqNo) + Pack(r.appLen) + Pack(r.appCrc)
    + [r.valid, r.confirmed, r.attempts, r.pad] + Pack(r.crc)
  }

  function Decode(bs: seq<byte>): Record
    requires |bs| == RECORD_SIZE
  {
    Record(Unpack(bs[0..4]), Unpack(bs[4..8]), Unpack(bs[8..12]), Unpack(bs[12..16]),
           bs[16], bs[17], bs[18], bs[19], Unpack(bs[20..24]))
  }

  lemma DecodeEncode(r: Record)
    ensures Decode(Encode(r)) == r
  {
    UnpackPack(r.magic);
    UnpackPack(r.seqNo);
    UnpackPack(r.appLen);
    UnpackPack(r.appCrc);
    UnpackPack(r.crc);
    var bs := Encode(r);
    assert bs[0..4] == Pack(r.magic);
    assert bs[4..8] == Pack(r.seqNo);
    assert bs[8..12] == Pack(r.appLen);
    assert bs[12..16] == Pack(r.appCrc);
    assert bs[20..24] == Pack(r.crc);
  }

  lemma EncodeDecode(bs: seq<byte>)
    requires |bs| == RECORD_SIZE
    ensures Encode(Decode(bs)) == bs
  {
    PackUnpack(bs[0..4]);
    PackUnpack(bs[4..8]);
    PackUnpack(bs[8..12]);
    PackUnpack(bs[12..16]);
    PackUnpack(bs[20..24]);
    assert bs == bs[0..4] + bs[4..8] + bs[8..12] + bs[12..16] + [bs[16], bs[17], bs[18], bs[19]] + bs[20..24];
  }

  /** Where `boot_state_t` keeps its fields. */
  lemma RecordLayout(r: Record)
    ensures var bs := Encode(r);
            && bs[0..4] == Pack(r.magic) && bs[4..8] == Pack(r.seqNo) && bs[8..12] == Pack(r.appLen)
            && bs[12..16] == Pack(r.appCrc) && bs[16] == r.valid && bs[17] == r.confirmed
            && bs[18] == r.attempts && bs[20..24] == Pack(r.crc)
  {
  }

  function RecordAt(f: Contents, s: Sector): Record {
    Decode(f[s.Offset()..s.Offset() + RECORD_SIZE])
  }

  predicate RecValid(r: Record) {
    r.magic == BOOT_STATE_MAGIC && Crc(Encode(r)[..CRC_FIELD]) == r.crc
  }

  /** The sector `boot_state_read` answers from: the valid one, or the newer if both are. */
  function NewestSector(f: Contents): Option<Sector> {
    var a, b := RecordAt(f, A), RecordAt(f, B);
    if RecValid(a) && (RecValid(b) ==> a.seqNo >= b.seqNo) then Some(A)
    else if RecValid(b) then Some(B)
    else None
  }

  function Newest(f: Contents): Option<Record> {
    match NewestSector(f)
    case Some(s) => Some(RecordAt(f, s))
    case None => None
  }

  /** The sector the next write erases. */
  function Target(f: Contents): Sector {
    match NewestSector(f)
    case Some(s) => s.Other()
    case None => A
  }

  function MaxSeq(f: Contents): u32 {
    match Newest(f)
    case Some(r) => r.seqNo
    case None => 0
  }

  /** `r` with its magic, sequence number and CRC filled in. */
  function Seal(r: Record, seqNo: u32): Record {
    var q := r.(magic := BOOT_STATE_MAGIC, seqNo := seqNo);
    q.(crc := Crc(Encode(q)[..CRC_FIELD]))
  }

  function Successor(n: u32): u32 { (n + 1) % 0x1_0000_0000 }

  function Next(f: Contents, r: Record): Record {
    Seal(r, Successor(MaxSeq(f)))
  }

  /** The record an accepted image of `len` bytes is committed with. */
  function FreshRecord(len: u32, crc: u32): Record {
    Record(0, 0, len, crc, 1, 0, 0, 0, 0)
  }

  function Page(r: Record): (page: seq<byte>)
    ensures |page| == FLASH_PAGE
  {
    Encode(r) + seq(FLASH_PAGE - RECORD_SIZE, _ => ERASED)
  }

  function Write(f: Contents, r: Record): Contents {
    var at := Target(f).Offset();
    Program(Erase(f, at, FLASH_SECTOR), at, Page(Next(f, r)))
  }

  method BootStateRead(chip: Chip) returns (out: Option<Record>)
    requires chip.cells.Length == FLASH_TOTAL
    ensures out == Newest(chip.cells[..])
  {
    var a := Decode(chip.cells[BOOTSTATE_A..BOOTSTATE_A + RECORD_SIZE]);
    var b := Decode(chip.cells[BOOTSTATE_B..BOOTSTATE_B + RECORD_SIZE]);
    SlicesAgree(chip);
    var av, bv := RecValid(a), RecValid(b);
    if av && bv {
      return Some(if a.seqNo >= b.seqNo then a else b);
    }
    if av {
      return Some(a);
    }
    if bv {
      return Some(b);
    }
    return None;
  }

  lemma SlicesAgree(chip: Chip)
    requires chip.cells.Length == FLASH_TOTAL
    ensures Decode(chip.cells[BOOTSTATE_A..BOOTSTATE_A + RECORD_SIZE]) == RecordAt(chip.cells[..], A)
    ensures Decode(chip.cells[BOOTSTATE_B..BOOTSTATE_B + RECORD_SIZE]) == RecordAt(chip.cells[..], B)
  {
    assert chip.cells[BOOTSTATE_A..BOOTSTATE_A + RECORD_SIZE] == chip.cells[..][BOOTSTATE_A..BOOTSTATE_A + RECORD_SIZE];
    assert chip.cells[BOOTSTATE_B..BOOTSTATE_B + RECORD_SIZE] == chip.cells[..][BOOTSTATE_B..BOOTSTATE_B + RECORD_SIZE];
  }

  lemma TargetCases(f: Contents, a: Record, b: Record)
    requires a == RecordAt(f, A) && b == RecordAt(f, B)
    ensures RecValid(a) && (RecValid(b) ==> a.seqNo >= b.seqNo) ==> Target(f) == B && MaxSeq(f) == a.seqNo
    ensures RecValid(b) && (RecValid(a) ==> a.seqNo < b.seqNo) ==> Target(f) == A && MaxSeq(f) == b.seqNo
    ensures !RecValid(a) && !RecValid(b) ==> Target(f) == A && MaxSeq(f) == 0
  {
  }

  /** Persists `r` and hands it back as written. */
  method BootStateWrite(chip: Chip, r: Record) returns (written: Record)
    requires chip.cells.Length == FLASH_TOTAL
    modifies chip.cells
    ensures written == Next(old(chip.cells[..]), r)
    ensures chip.cells[..] == Write(old(chip.cells[..]), r)
  {
    var a := Decode(chip.cells[BOOTSTATE_A..BOOTSTATE_A + RECORD_SIZE]);
    var b := Decode(chip.cells[BOOTSTATE_B..BOOTSTATE_B + RECORD_SIZE]);
    SlicesAgree(chip);
    var av, bv := RecValid(a), RecValid(b);
    var maxseq: u32 := 0;
    var target := BOOTSTATE_A;
    if av && bv {
      var aNewer := a.seqNo >= b.seqNo;
      maxseq := if aNewer then a.seqNo else b.seqNo;
      target := if aNewer then BOOTSTATE_B else BOOTSTATE_A;
    } else if av {
      maxseq, target := a.seqNo, BOOTSTATE_B;
    } else if bv {
      maxseq, target := b.seqNo, BOOTSTATE_A;
    }
    ghost var f: Contents := chip.cells[..];
    TargetCases(f, RecordAt(f, A), RecordAt(f, B));
    written := Seal(r, Successor(maxseq));
    var page := Page(written);
    chip.RangeErase(target, FLASH_SECTOR);
    chip.RangeProgram(target, page);
  }

  /** The fields the caller of a write decides. */
  function Payload(r: Record): Record {
    r.(magic := 0, seqNo := 0, crc := 0)
  }

  lemma SealCarries(r: Record, seqNo: u32)
    ensures Payload(Seal(r, seqNo)) == Payload(r) && Seal(r, seqNo).seqNo == seqNo
  {
  }

  lemma NextCarries(f: Contents, r: Record)
    requires MaxSeq(f) < 0xFFFF_FFFF
    ensures Payload(Next(f, r)) == Payload(r) && Next(f, r).seqNo == MaxSeq(f) + 1
  {
    var n := Successor(MaxSeq(f));
    SealedNext(f, r, n, Seal(r, n));
    SuccessorStep(MaxSeq(f));
  }

  lemma SuccessorStep(n: u32)
    ensures if n < 0xFFFF_FFFF then Successor(n) == n + 1 else Successor(n) == 0
  {
  }

  lemma SealedNext(f: Contents, r: Record, n: u32, q: Record)
    requires n == Successor(MaxSeq(f)) && q == Seal(r, n)
    ensures Next(f, r) == q && Payload(q) == Payload(r) && q.seqNo == n
  {
    SealCarries(r, n);
  }

  lemma PayloadFields(r: Record, q: Record)
    requires Payload(r) == Payload(q)
    ensures r.appLen == q.appLen && r.appCrc == q.appCrc && r.valid == q.valid
    ensures r.confirmed == q.confirmed && r.attempts == q.attempts
  {
    assert Payload(r).appLen == r.appLen && Payload(r).appCrc == r.appCrc && Payload(r).valid == r.valid;
    assert Payload(r).confirmed == r.confirmed && Payload(r).attempts == r.attempts;
  }

  // ---- what a completed write does ----

  lemma SealedIsValid(r: Record, seqNo: u32)
    ensures RecValid(Seal(r, seqNo))
  {
    var q := r.(magic := BOOT_STATE_MAGIC, seqNo := seqNo);
    assert Encode(Seal(r, seqNo))[..CRC_FIELD] == Encode(q)[..CRC_FIELD];
  }

  /** A record that is altered inside four of its covered bytes is not taken for one. */
  lemma DamagedIsInvalid(r: Record, seqNo: u32, bs: seq<byte>,
                         before: seq<byte>, a: seq<byte>, b: seq<byte>, after: seq<byte>)
    requires |bs| == 24 && |a| == |b| <= 4 && a != b
    requires Encode(Seal(r, seqNo))[..20] == before + a + after && bs[..20] == before + b + after
    requires Encode(Seal(r, seqNo))[20..] == bs[20..]
    ensures !RecValid(Decode(bs))
  {
    var good := Encode(Seal(r, seqNo));
    BurstDetected(before, a, b, after);
    EncodeDecode(bs);
    SealedIsValid(r, seqNo);
    DecodeEncode(Seal(r, seqNo));
    assert bs[20..24] == bs[20..] == good[20..] == good[20..24];
  }

  /** Nor is anything without the magic, such as a blank sector. */
  lemma NoMagicIsInvalid(bs: seq<byte>)
    requires |bs| == 24 && bs[0..4] != [0x42, 0x53, 0x54, 0x31]
    ensures !RecValid(Decode(bs))
  {
    PackUnpack(bs[0..4]);
    assert Pack(0x3154_5342) == [0x42, 0x53, 0x54, 0x31];
  }

  /** The first record ever goes to sector A under number 1. */
  lemma FirstWrite(f: Contents, r: Record)
    requires Newest(f).None?
    ensures RecordAt(Write(f, r), A) == Next(f, r) && Next(f, r).seqNo == 1
    ensures Newest(Write(f, r)) == Some(Next(f, r))
  {
    WriteLands(f, r);
    NextCarries(f, r);
    ReadBack(f, r);
  }

  /** A record survives any change outside its own sector. */
  lemma OtherSectorKept(f: Contents, g: Contents, s: Sector)
    requires SameOutside(f, g, s.Offset(), s.Offset() + FLASH_SECTOR)
    ensures RecordAt(g, s.Other()) == RecordAt(f, s.Other())
  {
    var at := s.Other().Offset();
    assert f[at..at + RECORD_SIZE] == g[at..at + RECORD_SIZE];
  }

  lemma FrontOfSlice(g: seq<byte>, at: nat, k: nat, n: nat)
    requires k <= n && at + n <= |g|
    ensures g[at..at + k] == g[at..at + n][..k]
  {
  }

  lemma PageHolds(r: Record)
    ensures Page(r)[..RECORD_SIZE] == Encode(r)
  {
  }

  /** Sector `s` erased and its first page programmed with `r`. */
  lemma PageLands(f: Contents, g: Contents, s: Sector, r: Record)
    requires g == Program(Erase(f, s.Offset(), FLASH_SECTOR), s.Offset(), Page(r))
    ensures RecordAt(g, s) == r && RecordAt(g, s.Other()) == RecordAt(f, s.Other())
    ensures SameOutside(f, g, s.Offset(), s.Offset() + FLASH_SECTOR)
  {
    var at := s.Offset();
    ProgramErased(f, at, FLASH_SECTOR, Page(r));
    FrontOfSlice(g, at, RECORD_SIZE, FLASH_PAGE);
    PageHolds(r);
    DecodeEncode(r);
    OtherSectorKept(f, g, s);
  }

  lemma WriteLands(f: Contents, r: Record)
    ensures RecordAt(Write(f, r), Target(f)) == Next(f, r)
    ensures SameOutside(f, Write(f, r), Target(f).Offset(), Target(f).Offset() + FLASH_SECTOR)
    ensures RecordAt(Write(f, r), Target(f).Other()) == RecordAt(f, Target(f).Other())
  {
    PageLands(f, Write(f, r), Target(f), Next(f, r));
  }

  /** Behind its record the sector written is blank. */
  lemma RestIsBlank(f: Contents, r: Record, k: nat)
    requires Target(f).Offset() + 24 <= k < Target(f).Offset() + FLASH_SECTOR
    ensures Write(f, r)[k] == ERASED
  {
    BlankCell(f, Target(f).Offset(), Next(f, r), k);
  }

  lemma BlankCell(f: Contents, at: nat, r: Record, k: nat)
    requires at + 24 <= k < at + FLASH_SECTOR && k < FLASH_TOTAL
    ensures Program(Erase(f, at, FLASH_SECTOR), at, Page(r))[k] == ERASED
  {
    var e := Erase(f, at, FLASH_SECTOR);
    assert e[k] == ERASED;
    if k < at + FLASH_PAGE {
      assert Page(r)[k - at] == ERASED;
      NorErased(ERASED);
    }
  }

  /** The write never erases the record that is current. */
  lemma NewestNotErased(f: Contents)
    requires Newest(f).Some?
    ensures NewestSector(f) == Some(Target(f).Other())
  {
  }

  /**
   A completed write is what is read back, unless the sequence number wrapped: the comparison of
   sequence numbers is plain, so the write that follows number 2^32-1 is lost.
   */
  lemma ReadBack(f: Contents, r: Record)
    ensures Newest(Write(f, r)) == Some(Next(f, r)) <==> MaxSeq(f) < 0xFFFF_FFFF
  {
    var t, g, n := Target(f), Write(f, r), Next(f, r);
    WriteLands(f, r);
    NextIsValid(f, r);
    SuccessorWins(f, g, t, n);
  }

  /** Flash with such a newest number exists, and from then on every write is lost. */
  lemma LastNumberSticks(f: Contents, r: Record, q: Record)
    ensures var g := Program(Erase(f, BOOTSTATE_A, FLASH_SECTOR), BOOTSTATE_A, Page(Seal(r, 0xFFFF_FFFF)));
            && MaxSeq(g) == 0xFFFF_FFFF && Newest(g) == Some(Seal(r, 0xFFFF_FFFF))
            && Newest(Write(g, q)) == Newest(g)
  {
    var n := Seal(r, 0xFFFF_FFFF);
    var g := Program(Erase(f, BOOTSTATE_A, FLASH_SECTOR), BOOTSTATE_A, Page(n));
    PageLands(f, g, A, n);
    SealedIsValid(r, 0xFFFF_FFFF);
    TargetCases(g, n, RecordAt(g, B));
    WriteLands(g, q);
    NextIsValid(g, q);
    SuccessorStep(0xFFFF_FFFF);
    assert RecordAt(Write(g, q), A) == n && RecordAt(Write(g, q), B) == Next(g, q);
  }

  lemma NextIsValid(f: Contents, r: Record)
    ensures RecValid(Next(f, r)) && Next(f, r).seqNo == Successor(MaxSeq(f))
  {
    SealedIsValid(r, Successor(MaxSeq(f)));
  }

  /** When `n`, numbered one past the current record, has replaced the record in the target sector. */
  lemma SuccessorWins(f: Contents, g: Contents, t: Sector, n: Record)
    requires t == Target(f) && RecordAt(g, t) == n && RecordAt(g, t.Other()) == RecordAt(f, t.Other())
    requires RecValid(n) && n.seqNo == Successor(MaxSeq(f))
    ensures Newest(g) == Some(n) <==> MaxSeq(f) < 0xFFFF_FFFF
  {
    var o := RecordAt(f, t.Other());
    SuccessorStep(MaxSeq(f));
    if Newest(f).Some? {
      assert MaxSeq(f) == o.seqNo && RecValid(o);
    } else {
      assert !RecValid(o) && MaxSeq(f) == 0;
    }
    if n.seqNo < o.seqNo && RecValid(o) {
      assert NewestSector(g) == Some(t.Other());
    } else {
      assert NewestSector(g) == Some(t);
    }
  }

  /** Whatever happens in the slot, the current record stays. */
  lemma SlotChangeKeepsRecords(f: Contents, g: Contents)
    requires SameOutside(f, g, APP_OFFSET, BOOTSTATE_A)
    ensures Newest(g) == Newest(f)
  {
    assert f[BOOTSTATE_A..BOOTSTATE_A + RECORD_SIZE] == g[BOOTSTATE_A..BOOTSTATE_A + RECORD_SIZE];
    assert f[BOOTSTATE_B..BOOTSTATE_B + RECORD_SIZE] == g[BOOTSTATE_B..BOOTSTATE_B + RECORD_SIZE];
  }
}
