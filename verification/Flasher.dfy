/** The host's lock-step push of an image to the receiver. */
module Flasher {
  import opened BootState
  import opened Bytes
  import opened Crc32
  import opened Exchange
  import opened Flash
  import opened Layout
  import opened ReceiverLoop
  import opened Recovery
  import opened Resync
  import opened Slot
  import opened Tokens
  import opened Wrappers

  const CHUNK := 1024

  datatype Outcome = Pushed | TooLarge | NoAnswer | ChunkFailed(at: nat) | VerifyFailed

  /** The payload `push_image` sends from offset `off`. */
  function PayloadAt(data: seq<byte>, off: nat): (p: seq<byte>)
    requires off <= |data|
    ensures |p| <= CHUNK
  {
    if off + CHUNK <= |data| then data[off..off + CHUNK] else data[off..]
  }

  /** The payloads sent from offset `off` on, one after the other. */
  function PayloadsFrom(data: seq<byte>, off: nat): seq<byte>
    requires off <= |data|
    decreases |data| - off
  {
    var p := PayloadAt(data, off);
    if p == [] then [] else p + PayloadsFrom(data, off + |p|)
  }

  /** The payloads add up to the image. */
  lemma {:induction false} PayloadsAreImage(data: seq<byte>, off: nat)
    requires off <= |data|
    ensures PayloadsFrom(data, off) == data[off..]
    decreases |data| - off
  {
    var p := PayloadAt(data, off);
    if p != [] {
      PayloadsAreImage(data, off + |p|);
      assert data[off..] == p + data[off + |p|..];
    }
  }

  lemma ChunksAreAligned(off: nat)
    requires off % CHUNK == 0
    ensures off % FLASH_PAGE == 0
  {
    assert off == off / CHUNK * 4 * FLASH_PAGE;
  }

  /** Every chunk of an image that fits passes the header guard, page-aligned and without wrap. */
  lemma ChunksAreTame(data: seq<byte>, off: nat)
    requires off < |data| <= APP_MAX_SIZE && off % CHUNK == 0
    ensures var p := PayloadAt(data, off);
            && HeaderOk(off, |p|) && off % FLASH_PAGE == 0 && off + |p| < 0x1_0000_0000
            && PieceOf(Piece(off, p), data)
  {
    ChunksAreAligned(off);
  }

  /** Attempt `a` at the chunk from `off` delivers `received(off, a)`. */
  type Line = (nat, nat) -> seq<byte>

  ghost predicate BurstsOnly(line: Line, data: seq<byte>) {
    forall off: nat, a: nat :: off <= |data| ==> BurstOf(PayloadAt(data, off), line(off, a))
  }

  /** One of the first `retries` attempts at the chunk gets through intact. */
  ghost predicate GetsThrough(line: Line, data: seq<byte>, off: nat, retries: nat)
    requires off <= |data|
  {
    exists a :: 0 <= a < retries && line(off, a) == PayloadAt(data, off)
  }

  ghost predicate AllGetThrough(line: Line, data: seq<byte>, retries: nat) {
    forall off :: 0 <= off < |data| && off % CHUNK == 0 ==> GetsThrough(line, data, off, retries)
  }

  /** The first `done` bytes of `data` are in the slot, the rest of the erased range is blank. */
  ghost predicate SlotHolds(f0: Contents, f: Contents, data: seq<byte>, done: nat) {
    && SameOutside(f0, f, APP_OFFSET, BOOTSTATE_A)
    && done <= |data| <= APP_MAX_SIZE
    && forall k :: APP_OFFSET <= k < APP_OFFSET + Blanked(|data|) ==>
         f[k] == if k < APP_OFFSET + done then data[k - APP_OFFSET] else ERASED
  }

  lemma ErasedSlotHolds(f0: Contents, data: seq<byte>)
    requires |data| <= APP_MAX_SIZE
    ensures SlotHolds(f0, EraseSlot(f0, |data|), data, 0)
  {
  }

  lemma ChunkAdvances(f0: Contents, f: Contents, data: seq<byte>, off: nat)
    requires SlotHolds(f0, f, data, off) && off < |data|
    ensures SlotHolds(f0, ProgramChunk(f, off, PayloadAt(data, off)), data, off + |PayloadAt(data, off)|)
  {
    var p := PayloadAt(data, off);
    var g := ProgramChunk(f, off, p);
    forall i | 0 <= i < |f|
      ensures g[i] == if APP_OFFSET + off <= i < APP_OFFSET + off + |p| then p[i - APP_OFFSET - off] else f[i]
    {
      BlankCell(f, off, p, i);
    }
    Advances(f0, f, g, data, off, p);
  }

  lemma BlankCell(f: Contents, off: nat, p: seq<byte>, i: nat)
    requires off + |p| <= APP_MAX_SIZE && i < |f|
    requires APP_OFFSET + off <= i < APP_OFFSET + off + |p| ==> f[i] == ERASED
    ensures ProgramChunk(f, off, p)[i] ==
      if APP_OFFSET + off <= i < APP_OFFSET + off + |p| then p[i - APP_OFFSET - off] else f[i]
  {
    ChunkCell(f, off, p, i);
    if APP_OFFSET + off <= i < APP_OFFSET + off + |p| {
      NorErased(p[i - APP_OFFSET - off]);
    }
  }

  lemma Advances(f0: Contents, f: Contents, g: Contents, data: seq<byte>, off: nat, p: seq<byte>)
    requires SlotHolds(f0, f, data, off) && off + |p| <= |data| && p == data[off..off + |p|]
    requires forall i :: 0 <= i < |f| ==>
      g[i] == if APP_OFFSET + off <= i < APP_OFFSET + off + |p| then p[i - APP_OFFSET - off] else f[i]
    ensures SlotHolds(f0, g, data, off + |p|)
  {
    forall i | 0 <= i < |f0| && !(APP_OFFSET <= i < BOOTSTATE_A)
      ensures f0[i] == g[i]
    {
      assert g[i] == f[i] == f0[i];
    }
    forall k | APP_OFFSET <= k < APP_OFFSET + Blanked(|data|)
      ensures g[k] == if k < APP_OFFSET + off + |p| then data[k - APP_OFFSET] else ERASED
    {
      assert f[k] == if k < APP_OFFSET + off then data[k - APP_OFFSET] else ERASED;
    }
  }

  /** The byte stream between host and receiver. */
  class Link {
    const dev: Receiver
    var inbox: seq<byte>

    constructor (dev: Receiver)
      ensures this.dev == dev && inbox == []
    {
      this.dev := dev;
      inbox := [];
    }

    /** The bytes reach the receiver, which serves them; its replies reach the host. */
    method Transmit(bytes: seq<byte>)
      requires dev.Valid()
      modifies this`inbox, dev, dev.chip.cells, dev.chunk
      ensures dev.Valid()
      ensures var d := Serve(old(dev.State()).(rx := old(dev.rx) + Items(bytes), tx := []));
              dev.State() == d.(tx := []) && inbox == old(inbox) + old(dev.tx) + d.tx
    {
      inbox := inbox + dev.tx;
      dev.tx := [];
      dev.rx := dev.rx + Items(bytes);
      dev.RecoveryRun();
      inbox := inbox + dev.tx;
      dev.tx := [];
    }

    /** `read_token` */
    method ReadToken(expected: seq<seq<byte>>) returns (tok: Option<seq<byte>>)
      modifies this`inbox
      ensures tok.None? ==> NoMatch(old(inbox), expected) && inbox == []
      ensures tok.Some? ==>
        (exists k: nat ::
          FirstMatch(old(inbox), k, expected) && tok.value == old(inbox)[k - 4..k] && inbox == old(inbox)[k..])
    {
      var window: seq<byte> := [];
      ghost var s := inbox;
      ghost var taken := 0;
      while inbox != []
        invariant 0 <= taken <= |s| && inbox == s[taken..] && window == Last4(s[..taken])
        invariant forall j :: j <= taken ==> !MatchAt(s, j, expected)
        decreases |inbox|
      {
        var b := inbox[0];
        inbox := inbox[1..];
        Slide(s[..taken], b);
        WindowTest(s[..taken], b, expected);
        assert s[..taken] + [b] == s[..taken + 1];
        MatchPrefix(s[..taken + 1], s[taken + 1..], taken + 1, expected);
        assert s[..taken + 1] + s[taken + 1..] == s;
        window := Last4(window + [b]);
        taken := taken + 1;
        if |window| == 4 && window in expected {
          assert FirstMatch(s, taken, expected);
          return Some(window);
        }
      }
      return None;
    }

    /** `recv_exact` */
    method RecvExact(n: nat) returns (got: Option<seq<byte>>)
      modifies this`inbox
      ensures got == if n <= |old(inbox)| then Some(old(inbox)[..n]) else None
      ensures inbox == if n <= |old(inbox)| then old(inbox)[n..] else []
    {
      if n <= |inbox| {
        got := Some(inbox[..n]);
        inbox := inbox[n..];
      } else {
        got, inbox := None, [];
      }
    }

    /** Nothing is in flight and the receiver waits for a command. */
    ghost predicate Idle()
      reads this, dev
    {
      inbox == [] && dev.rx == [] && dev.tx == [] && !dev.rebooted
    }

    /** One attempt at a chunk: the packet goes out, its payload arrives as `received`. */
    method SendChunk(off: u32, payload: seq<byte>, received: seq<byte>) returns (acked: bool)
      requires dev.Valid() && Idle() && BurstOf(payload, received)
      requires 0 < |payload| <= OTA_CHUNK_SIZE && off + |payload| <= APP_MAX_SIZE
      modifies this`inbox, dev, dev.chip.cells, dev.chunk
      ensures dev.Valid() && Idle() && acked == (received == payload)
      ensures dev.State() ==
        if acked then old(dev.State()).(flash := ProgramChunk(old(dev.chip.cells[..]), off, payload))
        else old(dev.State())
    {
      var header := DataHeader(off, |payload|, Crc(payload));
      assert [] + Items(header + received) == Items(header + received);
      ChunkVerdict(dev.State().(rx := Items(header + received)), off, payload, received);
      Transmit(header + received);
      acked := TakeAck(off, if received == payload then DACK else DNAK);
    }

    /** The host takes the answer to a chunk and compares the offset it echoes. */
    method TakeAck(off: u32, ghost answer: seq<byte>) returns (acked: bool)
      requires (answer == DACK || answer == DNAK) && inbox == answer + Pack(off)
      modifies this`inbox
      ensures inbox == [] && acked == (answer == DACK)
    {
      AnswerAtOnce(answer, Pack(off), [DACK, DNAK]);
      UnpackPack(off);
      var tok := ReadToken([DACK, DNAK]);
      var ackOff := RecvExact(4);
      acked := tok == Some(DACK) && Unpack(ackOff.value) == off;
    }

    /** The retry loop of `push_image` for one chunk. */
    method PushChunk(data: seq<byte>, off: nat, retries: nat, line: Line) returns (ok: bool)
      requires dev.Valid() && Idle() && off < |data| <= APP_MAX_SIZE && BurstsOnly(line, data)
      modifies this`inbox, dev, dev.chip.cells, dev.chunk
      ensures dev.Valid() && Idle() && ok == GetsThrough(line, data, off, retries)
      ensures dev.State() ==
        if ok then old(dev.State()).(flash := ProgramChunk(old(dev.chip.cells[..]), off, PayloadAt(data, off)))
        else old(dev.State())
    {
      var payload := PayloadAt(data, off);
      for attempt := 0 to retries
        invariant dev.Valid() && Idle() && dev.State() == old(dev.State())
        invariant forall a :: 0 <= a < attempt ==> line(off, a) != payload
      {
        var acked := SendChunk(off, payload, line(off, attempt));
        if acked {
          return true;
        }
      }
      return false;
    }

    /** BEGIN: stray bytes may still lie in front of the receiver. */
    method BeginPush(data: seq<byte>, crc: u32, ghost junk: seq<byte>) returns (ok: bool)
      requires dev.Valid() && inbox == [] && dev.tx == [] && !dev.rebooted && |data| <= APP_MAX_SIZE
      requires dev.rx == Items(junk) && NoMatch(junk, COMMANDS) && !EndsWith(junk, RP2)
      modifies this`inbox, dev, dev.chip.cells, dev.chunk
      ensures dev.Valid() && Idle() && ok == (|data| > 0)
      ensures dev.State() == Device(
        if ok then EraseSlot(old(dev.chip.cells[..]), |data|) else old(dev.chip.cells[..]), [], [], |data|, crc, false)
    {
      ghost var d := dev.State().(rx := Items(junk + BeginPacket(|data|, crc)));
      ItemsConcat(junk, BeginPacket(|data|, crc));
      ServeBegin(d, junk, |data|, crc);
      Transmit(BeginPacket(|data|, crc));
      ghost var answer := if |data| > 0 then OKER else ERSZ;
      assert inbox == answer;
      if |data| > 0 {
        AnswerAtOnce(OKER, [], [OKER]);
        assert OKER + [] == OKER;
      } else {
        NoAnswerIn(ERSZ, OKER);
      }
      var tok := ReadToken([OKER]);
      ok := tok.Some?;
    }

    /** One chunk of the DATA phase, seen from what the slot holds. */
    method PushNext(data: seq<byte>, off: nat, retries: nat, line: Line, ghost f0: Contents) returns (ok: bool)
      requires dev.Valid() && Idle() && off < |data| && BurstsOnly(line, data)
      requires SlotHolds(f0, dev.chip.cells[..], data, off)
      modifies this`inbox, dev, dev.chip.cells, dev.chunk
      ensures dev.Valid() && Idle() && dev.appLen == old(dev.appLen) && dev.appCrc == old(dev.appCrc)
      ensures ok == GetsThrough(line, data, off, retries)
      ensures SlotHolds(f0, dev.chip.cells[..], data, if ok then off + |PayloadAt(data, off)| else off)
    {
      ghost var f: Contents := dev.chip.cells[..];
      ChunkAdvances(f0, f, data, off);
      ghost var start := dev.State();
      ok := PushChunk(data, off, retries, line);
      assert dev.State().appLen == start.appLen && dev.State().appCrc == start.appCrc;
      assert dev.State().flash == if ok then ProgramChunk(f, off, PayloadAt(data, off)) else f;
    }

    /** The DATA phase: every chunk in order, each until it is acknowledged. */
    method PushChunks(data: seq<byte>, retries: nat, line: Line, ghost f0: Contents) returns (failed: Option<nat>)
      requires dev.Valid() && Idle() && BurstsOnly(line, data)
      requires SlotHolds(f0, dev.chip.cells[..], data, 0)
      modifies this`inbox, dev, dev.chip.cells, dev.chunk
      ensures dev.Valid() && Idle() && dev.appLen == old(dev.appLen) && dev.appCrc == old(dev.appCrc)
      ensures failed.None? <==> AllGetThrough(line, data, retries)
      ensures failed.None? ==> SlotHolds(f0, dev.chip.cells[..], data, |data|)
      ensures SameOutside(f0, dev.chip.cells[..], APP_OFFSET, BOOTSTATE_A)
    {
      var off, sent := 0, 0;
      while off < |data|
        invariant dev.Valid() && Idle() && dev.appLen == old(dev.appLen) && dev.appCrc == old(dev.appCrc)
        invariant off % CHUNK == 0 && sent == (if off < |data| then off else |data|)
        invariant SlotHolds(f0, dev.chip.cells[..], data, sent)
        invariant forall o :: 0 <= o < off && o < |data| && o % CHUNK == 0 ==> GetsThrough(line, data, o, retries)
        decreases |data| - off
      {
        var ok := PushNext(data, off, retries, line, f0);
        if !ok {
          return Some(off);
        }
        sent := sent + |PayloadAt(data, off)|;
        off := off + CHUNK;
      }
      return None;
    }

    /** END: the receiver checks the whole slot against what BEGIN announced, and commits it or not. */
    method Verify() returns (ok: bool)
      requires dev.Valid() && Idle()
      modifies this`inbox, dev, dev.chip.cells, dev.chunk
      ensures dev.Valid() && Idle()
      ensures ok == (Crc(SlotBytes(old(dev.chip.cells[..]), old(dev.appLen))) == old(dev.appCrc))
      ensures dev.State() == if ok then Committed(old(dev.State())) else old(dev.State())
    {
      SendEnd();
      ok := TakeVerdict();
    }

    method SendEnd()
      requires dev.Valid() && Idle()
      modifies this`inbox, dev, dev.chip.cells, dev.chunk
      ensures dev.Valid() && dev.rx == [] && dev.tx == [] && !dev.rebooted
      ensures var ok := Crc(SlotBytes(old(dev.chip.cells[..]), old(dev.appLen))) == old(dev.appCrc);
              && inbox == (if ok then DONE else ECRC)
              && dev.State() == if ok then Committed(old(dev.State())) else old(dev.State())
    {
      assert [] + Items(END_) == Items(END_);
      ghost var d := dev.State();
      EndVerdict(d, d.(rx := Items(END_)));
      Transmit(END_);
    }

    /** The host reads the verdict. */
    method TakeVerdict() returns (ok: bool)
      requires inbox == DONE || inbox == ECRC
      modifies this`inbox
      ensures inbox == [] && ok == (old(inbox) == DONE)
    {
      assert inbox + [] == inbox;
      AnswerAtOnce(inbox, [], [DONE, ECRC]);
      var tok := ReadToken([DONE, ECRC]);
      ok := tok == Some(DONE);
    }

    /** GO: the receiver reboots; its answer is not waited for. */
    method Reboot()
      requires dev.Valid() && Idle()
      modifies this`inbox, dev, dev.chip.cells, dev.chunk
      ensures dev.Valid() && dev.rebooted && dev.chip.cells[..] == old(dev.chip.cells[..])
    {
      assert [] + Items(GO__) == Items(GO__);
      ServeGo(dev.State().(rx := Items(GO__)));
      ghost var f := dev.chip.cells[..];
      Transmit(GO__);
      assert dev.State().flash == f && dev.State().rebooted;
      var _ := ReadToken([BYE_]);
    }

    /**
     `push_image`.  Whatever the slot and the inbox hold, whatever stray bytes that contain no
     command lie in front of the receiver, and with payloads arriving intact or altered inside four
     bytes: the push succeeds exactly when each chunk gets through once within its attempts, and
     then the image is in the slot byte for byte under a fresh record.  A push that fails leaves
     the current record as it was.
     */
    method PushImage(data: seq<byte>, retries: nat, line: Line, ghost junk: seq<byte>) returns (outcome: Outcome)
      requires dev.Valid() && dev.tx == [] && !dev.rebooted && BurstsOnly(line, data)
      requires dev.rx == Items(junk) && NoMatch(junk, COMMANDS) && !EndsWith(junk, RP2)
      requires MaxSeq(dev.chip.cells[..]) < 0xFFFF_FFFF
      modifies this`inbox, dev, dev.chip.cells, dev.chunk
      ensures dev.Valid()
      ensures outcome == Pushed <==> 0 < |data| <= APP_MAX_SIZE && AllGetThrough(line, data, retries)
      ensures outcome == Pushed ==> dev.rebooted && Delivered(old(dev.chip.cells[..]), dev.chip.cells[..], data)
      ensures outcome != Pushed ==> SameOutside(old(dev.chip.cells[..]), dev.chip.cells[..], APP_OFFSET, BOOTSTATE_A)
      ensures outcome != Pushed ==> Newest(dev.chip.cells[..]) == Newest(old(dev.chip.cells[..]))
    {
      if |data| > APP_MAX_SIZE {
        return TooLarge;
      }
      ghost var f0: Contents := dev.chip.cells[..];
      inbox := [];
      var begun := BeginPush(data, Crc(data), junk);
      if !begun {
        return NoAnswer;
      }
      ErasedSlotHolds(f0, data);
      assert dev.State().flash == EraseSlot(f0, |data|);
      assert dev.State().appLen == |data| && dev.State().appCrc == Crc(data);
      var failed := PushChunks(data, retries, line, f0);
      if failed.Some? {
        SlotChangeKeepsRecords(f0, dev.chip.cells[..]);
        return ChunkFailed(failed.value);
      }
      ImageVerifies(f0, dev.chip.cells[..], data);
      var ok := Verify();
      if !ok {
        return VerifyFailed;
      }
      Reboot();
      return Pushed;
    }
  }

  /** Of the range erased for `len` bytes, what lies behind them is blank. */
  ghost predicate BlankBehind(f: Contents, len: nat) {
    len <= APP_MAX_SIZE && forall k :: APP_OFFSET + len <= k < APP_OFFSET + Blanked(len) ==> f[k] == ERASED
  }

  /** The image is in the slot under a fresh record, and nothing below the slot has moved. */
  ghost predicate Delivered(f0: Contents, f: Contents, data: seq<byte>) {
    && SlotBytes(f, |data|) == data
    && BlankBehind(f, |data|)
    && f[..APP_OFFSET] == f0[..APP_OFFSET]
    && Newest(f).Some?
    && var r := Newest(f).value;
       && r.appLen == |data| && r.appCrc == Crc(data) && r.seqNo == MaxSeq(f0) + 1
       && r.valid == 1 && r.confirmed == 0 && r.attempts == 0
  }

  lemma FullSlot(f0: Contents, f: Contents, data: seq<byte>)
    requires SlotHolds(f0, f, data, |data|)
    ensures SlotBytes(f, |data|) == data
  {
  }

  /** The receiver after committing what it was told to expect. */
  function Committed(d: Device): Device { d.(flash := Write(d.flash, FreshRecord(d.appLen, d.appCrc))) }

  lemma EndVerdict(d: Device, sent: Device)
    requires !d.rebooted && d.rx == [] && d.tx == [] && sent == d.(rx := Items(END_))
    ensures Serve(sent) ==
      if Crc(SlotBytes(d.flash, d.appLen)) == d.appCrc then Committed(d).(tx := DONE) else d.(tx := ECRC)
  {
    ServeEnd(sent);
    assert sent.(rx := []) == d;
    ExecuteEnd(d);
  }

  lemma ExecuteEnd(d: Device)
    requires d.tx == []
    ensures Execute(d, End) ==
      if Crc(SlotBytes(d.flash, d.appLen)) == d.appCrc then Committed(d).(tx := DONE) else d.(tx := ECRC)
  {
    assert [] + DONE == DONE && [] + ECRC == ECRC;
  }

  /** With the whole image in the slot, the check succeeds and the commit delivers. */
  lemma ImageVerifies(f0: Contents, f: Contents, data: seq<byte>)
    requires SlotHolds(f0, f, data, |data|) && MaxSeq(f0) < 0xFFFF_FFFF
    ensures Crc(SlotBytes(f, |data|)) == Crc(data)
    ensures Delivered(f0, Write(f, FreshRecord(|data|, Crc(data))), data)
  {
    FullSlot(f0, f, data);
    CommittedRecord(f0, f, data);
    CommittedBytes(f0, f, data, FreshRecord(|data|, Crc(data)));
  }

  lemma CommittedRecord(f0: Contents, f: Contents, data: seq<byte>)
    requires SlotHolds(f0, f, data, |data|) && MaxSeq(f0) < 0xFFFF_FFFF
    ensures var g := Write(f, FreshRecord(|data|, Crc(data)));
            && Newest(g).Some?
            && var r := Newest(g).value;
               && r.appLen == |data| && r.appCrc == Crc(data) && r.seqNo == MaxSeq(f0) + 1
               && r.valid == 1 && r.confirmed == 0 && r.attempts == 0
  {
    SlotChangeKeepsRecords(f0, f);
    ReadBack(f, FreshRecord(|data|, Crc(data)));
    FreshFields(f, |data|, Crc(data));
  }

  lemma CommittedBytes(f0: Contents, f: Contents, data: seq<byte>, r: Record)
    requires SlotHolds(f0, f, data, |data|)
    ensures SlotBytes(Write(f, r), |data|) == data && Write(f, r)[..APP_OFFSET] == f0[..APP_OFFSET]
    ensures BlankBehind(Write(f, r), |data|)
  {
    WriteLands(f, r);
    BelowRecords(f, Write(f, r), Target(f).Offset());
    KeptBelow(f0, f, Write(f, r), data);
  }

  lemma KeptBelow(f0: Contents, f: Contents, g: Contents, data: seq<byte>)
    requires SlotHolds(f0, f, data, |data|) && f[..BOOTSTATE_A] == g[..BOOTSTATE_A]
    ensures SlotBytes(g, |data|) == data && g[..APP_OFFSET] == f0[..APP_OFFSET]
    ensures BlankBehind(g, |data|)
  {
    forall i | 0 <= i < BOOTSTATE_A
      ensures g[i] == f[i]
    {
      assert g[..BOOTSTATE_A][i] == f[..BOOTSTATE_A][i];
    }
  }

  lemma BelowRecords(f: Contents, g: Contents, at: nat)
    requires SameOutside(f, g, at, at + FLASH_SECTOR) && at >= BOOTSTATE_A
    ensures f[..BOOTSTATE_A] == g[..BOOTSTATE_A]
  {
  }

  lemma FreshFields(f: Contents, len: u32, crc: u32)
    requires MaxSeq(f) < 0xFFFF_FFFF
    ensures var n := Next(f, FreshRecord(len, crc));
            && n.appLen == len && n.appCrc == crc && n.seqNo == MaxSeq(f) + 1
            && n.valid == 1 && n.confirmed == 0 && n.attempts == 0
  {
    NextCarries(f, FreshRecord(len, crc));
    PayloadFields(Next(f, FreshRecord(len, crc)), FreshRecord(len, crc));
  }

  /** A token at the very front of the stream is the first one found. */
  lemma AnswerAtOnce(m: seq<byte>, after: seq<byte>, tokens: seq<seq<byte>>)
    requires |m| == 4 && m in tokens
    ensures FirstMatch(m + after, 4, tokens)
    ensures forall k: nat :: FirstMatch(m + after, k, tokens) ==> k == 4
  {
    assert (m + after)[0..4] == m;
    assert MatchAt(m + after, 4, tokens);
  }

  lemma NoAnswerIn(s: seq<byte>, m: seq<byte>)
    requires |s| == 4 && s != m
    ensures NoMatch(s, [m])
  {
    assert s[0..4] == s;
  }
}
