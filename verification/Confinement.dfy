/** What a run of commands may change in the flash, and how it shows up in the boot runs. */
module Confinement {
  import opened BootRuns
  import opened BootState
  import opened Bytes
  import opened Crc32
  import opened Exchange
  import opened Flash
  import opened Layout
  import opened Recovery
  import opened Slot
  import opened Tokens

  /** A page-aligned offset whose sum with the length fits in 32 bits. */
  predicate Tame(off: u32, len: nat) {
    off % FLASH_PAGE == 0 && off + len < 0x1_0000_0000
  }

  /** The pages a chunk is programmed into lie inside the slot. */
  predicate InSlot(off: u32, len: nat) {
    APP_OFFSET <= Address(off) && Address(off) + PadLen(len) <= BOOTSTATE_A
  }

  /**
   The header guard adds in 32 bits.  For a page-aligned offset that passes it, the pages written
   lie inside the slot exactly when that sum did not wrap.
   */
  lemma ConfinedUnlessWrapped(off: u32, len: u32)
    requires HeaderOk(off, len) && off % FLASH_PAGE == 0
    ensures InSlot(off, len) <==> off + len < 0x1_0000_0000
  {
    PadLenBound(len);
    if off + len < 0x1_0000_0000 {
      PagesFit(off, len);
    }
  }

  lemma PagesFit(off: nat, len: nat)
    requires off % FLASH_PAGE == 0 && off + len <= APP_MAX_SIZE
    ensures off + PadLen(len) <= APP_MAX_SIZE
  {
    PadLenBound(len);
    var pages := APP_MAX_SIZE / FLASH_PAGE;
    assert APP_MAX_SIZE == pages * FLASH_PAGE;
    assert off == off / FLASH_PAGE * FLASH_PAGE;
    assert PadLen(len) == PadLen(len) / FLASH_PAGE * FLASH_PAGE;
  }

  /** A header that passes the guard although its sum wraps: its pages end where the slot begins. */
  lemma WrappedHeader()
    ensures HeaderOk(0xFFFF_FC00, 1024) && Address(0xFFFF_FC00) + PadLen(1024) == APP_OFFSET
  {
  }

  /**
   A chunk under that header is accepted and acknowledged, and it programs the last kilobyte of the
   bootloader's own region: a zero byte clears its cell there.
   */
  lemma WrappedChunkLands(d: Device, payload: seq<byte>)
    requires !d.rebooted && |payload| == 1024
    requires d.rx == Items(DataHeader(0xFFFF_FC00, 1024, Crc(payload)) + payload)
    ensures Serve(d).tx == d.tx + DACK + Pack(0xFFFF_FC00)
    ensures forall k :: APP_OFFSET - 1024 <= k < APP_OFFSET ==>
      Serve(d).flash[k] == Nor(d.flash[k], payload[k - APP_OFFSET + 1024])
    ensures forall k :: APP_OFFSET - 1024 <= k < APP_OFFSET && payload[k - APP_OFFSET + 1024] == 0 ==>
      Serve(d).flash[k] == 0
  {
    WrappedHeader();
    ServeData(d, 0xFFFF_FC00, 1024, Crc(payload), payload);
    WrappedPages(payload);
    forall k | APP_OFFSET - 1024 <= k < APP_OFFSET && payload[k - APP_OFFSET + 1024] == 0
      ensures Nor(d.flash[k], payload[k - APP_OFFSET + 1024]) == 0
    {
      NorZero(d.flash[k]);
    }
  }

  lemma WrappedPages(payload: seq<byte>)
    requires |payload| == 1024
    ensures Address(0xFFFF_FC00) == APP_OFFSET - 1024 && Padded(payload) == payload
  {
    assert PadLen(1024) == 1024;
  }

  /** An accepted chunk of this command, if it is one, has a tame header. */
  predicate TameCommand(c: Command) {
    c.Data? && Crc(c.payload) == c.crc ==> Tame(c.off, |c.payload|)
  }

  ghost predicate TameRun(d: Device)
    decreases |d.rx|
  {
    d.rx != [] && !d.rebooted ==> TameCommand(TakeCommand(d.rx).0) && TameRun(Step(d))
  }

  predicate Commits(d: Device, c: Command) {
    c.End? && Crc(SlotBytes(d.flash, d.appLen)) == d.appCrc
  }

  /** How many images a run commits. */
  function CommitCount(d: Device): nat
    decreases |d.rx|
  {
    if d.rx == [] || d.rebooted then 0
    else (if Commits(d, TakeCommand(d.rx).0) then 1 else 0) + CommitCount(Step(d))
  }

  lemma PayloadFits(rx: seq<RxItem>)
    ensures var c := TakeCommand(rx).0; c.Data? ==> |c.payload| <= OTA_CHUNK_SIZE && HeaderOk(c.off, |c.payload|)
  {
  }

  /** A command other than a commit changes the slot only. */
  lemma SlotOnly(d: Device, c: Command)
    requires TameCommand(c) && !Commits(d, c)
    requires c.Data? ==> |c.payload| <= OTA_CHUNK_SIZE && HeaderOk(c.off, |c.payload|)
    ensures SameOutside(d.flash, Execute(d, c).flash, APP_OFFSET, BOOTSTATE_A)
  {
    match c
    case Data(off, payload, crc) =>
      if Crc(payload) == crc {
        ConfinedUnlessWrapped(off, |payload|);
        ProgramStays(d.flash, Address(off), Padded(payload));
      }
    case Begin(len, crc) =>
      if 0 < len <= APP_MAX_SIZE {
        EraseStays(d.flash, len);
      }
    case _ =>
  }

  lemma ProgramStays(f: seq<byte>, at: nat, data: seq<byte>)
    requires APP_OFFSET <= at && at + |data| <= BOOTSTATE_A
    ensures SameOutside(f, Program(f, at, data), APP_OFFSET, BOOTSTATE_A)
  {
  }

  lemma EraseStays(f: seq<byte>, len: nat)
    requires len <= APP_MAX_SIZE
    ensures SameOutside(f, EraseSlot(f, len), APP_OFFSET, BOOTSTATE_A)
  {
    assert Sectors(len) * FLASH_SECTOR <= APP_MAX_SIZE;
  }

  /** A commit changes one boot-state sector only. */
  lemma CommitOnly(d: Device, c: Command)
    requires Commits(d, c)
    ensures SameOutside(d.flash, Execute(d, c).flash, BOOTSTATE_A, FLASH_TOTAL)
  {
    WriteLands(d.flash, FreshRecord(d.appLen, d.appCrc));
  }

  /**
   Over any run of commands with tame chunk headers the bootloader's own region never changes, and
   the boot-state sectors change only if an image is committed.
   */
  lemma {:induction false} RunConfined(d: Device)
    requires TameRun(d)
    ensures Serve(d).flash[..APP_OFFSET] == d.flash[..APP_OFFSET]
    ensures CommitCount(d) == 0 ==> SameOutside(d.flash, Serve(d).flash, APP_OFFSET, BOOTSTATE_A)
    decreases |d.rx|
  {
    if d.rx != [] && !d.rebooted {
      StepConfined(d);
      RunConfined(Step(d));
    }
  }

  lemma StepConfined(d: Device)
    requires TameCommand(TakeCommand(d.rx).0)
    ensures Step(d).flash[..APP_OFFSET] == d.flash[..APP_OFFSET]
    ensures !Commits(d, TakeCommand(d.rx).0) ==> SameOutside(d.flash, Step(d).flash, APP_OFFSET, BOOTSTATE_A)
  {
    var (c, rest) := TakeCommand(d.rx);
    var e := d.(rx := rest);
    PayloadFits(d.rx);
    if Commits(d, c) {
      CommitOnly(e, c);
    } else {
      SlotOnly(e, c);
    }
  }

  /** Each round of the receiver is a slot change or a commit of the boot runs. */
  lemma RoundIsEvent(d: Device, scratch: u32) returns (e: Event)
    requires TameCommand(TakeCommand(d.rx).0)
    ensures if Commits(d, TakeCommand(d.rx).0) then e.Commit? else e.SlotChange?
    ensures var m := Machine(d.flash, scratch, BootRuns.Recovery);
            Enabled(m, e) && Apply(m, e) == Machine(Step(d).flash, scratch, BootRuns.Recovery)
  {
    StepConfined(d);
    e := if Commits(d, TakeCommand(d.rx).0) then Commit(d.appLen, d.appCrc) else SlotChange(Step(d).flash);
    if e.Commit? {
      CommitRound(d);
    }
  }

  /**
   A whole recovery session is a run of slot changes and commits, with one write for each commit, so
   what the boot runs guarantee holds across it.
   */
  lemma {:induction false} SessionIsRun(d: Device, scratch: u32) returns (es: seq<Event>)
    requires TameRun(d)
    ensures var m := Machine(d.flash, scratch, BootRuns.Recovery);
            && RunEnabled(m, es) && Run(m, es) == Machine(Serve(d).flash, scratch, BootRuns.Recovery)
            && Writes(m, es) == CommitCount(d)
    ensures |es| <= |d.rx| && forall i :: 0 <= i < |es| ==> es[i].SlotChange? || es[i].Commit?
    decreases |d.rx|
  {
    if d.rx == [] || d.rebooted {
      es := [];
    } else {
      var e := RoundIsEvent(d, scratch);
      var rest := SessionIsRun(Step(d), scratch);
      es := [e] + rest;
      FirstThen(Machine(d.flash, scratch, BootRuns.Recovery), e, rest);
    }
  }

  lemma FirstThen(m: Machine, e: Event, rest: seq<Event>)
    requires Enabled(m, e) && RunEnabled(Apply(m, e), rest)
    ensures RunEnabled(m, [e] + rest) && Run(m, [e] + rest) == Run(Apply(m, e), rest)
    ensures Writes(m, [e] + rest) == (if Attempted(m, e).Some? then 1 else 0) + Writes(Apply(m, e), rest)
  {
    assert ([e] + rest)[1..] == rest;
  }

  /** A recovery session with tame chunk headers leaves a record such as can follow a commit. */
  lemma SessionKeepsRecord(d: Device)
    requires TameRun(d) && Newest(d.flash).Some? && Good(Newest(d.flash).value)
    requires MaxSeq(d.flash) + CommitCount(d) <= 0xFFFF_FFFF
    ensures Newest(Serve(d).flash).Some? && Good(Newest(Serve(d).flash).value)
  {
    var es := SessionIsRun(d, 0);
    RecordsStayGood(Machine(d.flash, 0, BootRuns.Recovery), es);
  }

  lemma CommitRound(d: Device)
    requires Commits(d, TakeCommand(d.rx).0)
    ensures Step(d).flash == Write(d.flash, FreshRecord(d.appLen, d.appCrc))
  {
  }

  /**
   END trusts whatever length it last heard.  Straight after a start, before any BEGIN, both length
   and CRC are zero, the CRC of no bytes is zero too, and an image of no bytes is committed.
   */
  lemma EndBeforeBegin(d: Device)
    requires d.appLen == 0
    ensures Commits(d, End) <==> d.appCrc == 0
  {
    assert SlotBytes(d.flash, 0) == [];
    assert Xor(Ones(), Ones()) == Fill(32, false);
    NumberOfZeros(32);
  }
}
