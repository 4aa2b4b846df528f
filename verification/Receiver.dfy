/** The receiver as the bootloader runs it: its buffers, its locals and the flash it writes. */
module ReceiverLoop {
  import opened BootState
  import opened Bytes
  import opened Crc32
  import opened Flash
  import opened Layout
  import opened Recovery
  import opened Slot
  import opened Tokens
  import opened Wrappers

  class Receiver {
    const chip: Chip
    const chunk: array<byte>
    var rx: seq<RxItem>
    var tx: seq<byte>
    var appLen: u32
    var appCrc: u32
    var rebooted: bool

    ghost predicate Valid()
      reads this
    {
      chip.cells.Length == FLASH_TOTAL && chunk.Length == OTA_CHUNK_SIZE && chip.cells != chunk
    }

    ghost function State(): Device
      requires Valid()
      reads this, chip.cells
    {
      Device(chip.cells[..], rx, tx, appLen, appCrc, rebooted)
    }

    constructor (chip: Chip)
      requires chip.cells.Length == FLASH_TOTAL
      ensures Valid() && fresh(chunk) && this.chip == chip
      ensures State() == Device(chip.cells[..], [], [], 0, 0, false)
    {
      this.chip := chip;
      chunk := new byte[OTA_CHUNK_SIZE](_ => 0);
      rx, tx, appLen, appCrc, rebooted := [], [], 0, 0, false;
    }

    /** `read_exact` into the front of `buf`. */
    method ReadExactInto(buf: array<byte>, n: nat, timeout: nat) returns (ok: bool)
      requires n <= buf.Length
      modifies this`rx, buf
      ensures ok == ReadExact(old(rx), n, 0, timeout).0.Some? && rx == ReadExact(old(rx), n, 0, timeout).1
      ensures ok ==> buf[..n] == ReadExact(old(rx), n, 0, timeout).0.value
    {
      var got, waited := 0, 0;
      while got < n
        invariant got <= n
        invariant ReadExact(rx, n - got, waited, timeout).1 == ReadExact(old(rx), n, 0, timeout).1
        invariant ReadExact(rx, n - got, waited, timeout).0.Some? == ReadExact(old(rx), n, 0, timeout).0.Some?
        invariant ReadExact(rx, n - got, waited, timeout).0.Some? ==>
          buf[..got] + ReadExact(rx, n - got, waited, timeout).0.value == ReadExact(old(rx), n, 0, timeout).0.value
        decreases |rx|
      {
        if rx == [] {
          return false;
        }
        var item := rx[0];
        rx := rx[1..];
        match item {
          case Quiet(ms) =>
            waited := waited + ms;
            if waited >= timeout {
              return false;
            }
          case Byte(b) =>
            ghost var more := ReadExact(rx, n - got - 1, 0, timeout).0;
            ghost var front := buf[..got];
            buf[got] := b;
            assert buf[..got + 1] == front + [b];
            assert more.Some? ==> front + ([b] + more.value) == (front + [b]) + more.value;
            got, waited := got + 1, 0;
        }
      }
      return true;
    }

    /** `read_command` */
    method ReadCommandToken(timeout: nat) returns (tok: Option<seq<byte>>)
      modifies this`rx
      ensures (tok, rx) == ReadCommand(old(rx), [], 0, timeout)
    {
      var w, waited := [], 0;
      while true
        invariant ReadCommand(rx, w, waited, timeout) == ReadCommand(old(rx), [], 0, timeout)
        decreases |rx|
      {
        if rx == [] {
          return None;
        }
        var item := rx[0];
        rx := rx[1..];
        match item {
          case Quiet(ms) =>
            waited := waited + ms;
            if waited >= timeout {
              return None;
            }
          case Byte(b) =>
            w := Last4(w + [b]);
            if |w| == 4 {
              var i := 0;
              while i < |COMMANDS|
                invariant 0 <= i <= |COMMANDS|
                invariant forall k :: 0 <= k < i ==> w != COMMANDS[k]
              {
                if w == COMMANDS[i] {
                  return Some(w);
                }
                i := i + 1;
              }
            }
            waited := 0;
        }
      }
    }

    method ReadWord(timeout: nat) returns (v: Option<u32>)
      modifies this`rx
      ensures (v, rx) == ReadU32(old(rx), timeout)
    {
      var b := new byte[4];
      var ok := ReadExactInto(b, 4, timeout);
      if !ok {
        return None;
      }
      return Some(Unpack(b[..4]));
    }

    /** `program_chunk`: pads the buffer's page tail in place and programs the pages. */
    method ProgramBuffer(off: u32, len: u32)
      requires Valid() && 0 < len <= OTA_CHUNK_SIZE
      modifies chip.cells, chunk
      ensures chip.cells[..] == ProgramChunk(old(chip.cells[..]), off, old(chunk[..len]))
    {
      var plen := PadLen(len);
      PadLenBound(len);
      ChunkFits(len);
      ghost var payload := chunk[..len];
      for i := len to plen
        modifies chunk
        invariant chunk[..i] == payload + seq(i - len, _ => ERASED)
      {
        chunk[i] := ERASED;
      }
      assert chunk[..plen] == Padded(payload);
      chip.RangeProgram(Address(off), chunk[..plen]);
    }

    lemma ChunkFits(len: nat)
      requires len <= OTA_CHUNK_SIZE
      ensures PadLen(len) <= OTA_CHUNK_SIZE
    {
    }

    method Sync()
      requires Valid()
      modifies this`rx, this`tx, chunk
      ensures rx == ReadExact(old(rx), 4, 0, 1000).1
      ensures tx == Execute(old(State()), Recovery.Sync).tx
    {
      var rest := new byte[4];
      var _ := ReadExactInto(rest, 4, 1000);
      tx := tx + BLOK;
      tx := tx + Pack(APP_MAX_SIZE);
      tx := tx + Pack(OTA_CHUNK_SIZE);
    }

    method BeginImage()
      requires Valid()
      modifies this`rx, this`tx, this`appLen, this`appCrc, chip.cells
      ensures State() == Execute(old(State()).(rx := TakeBegin(old(rx)).1), TakeBegin(old(rx)).0)
    {
      var len := ReadWord(2000);
      if len.None? {
        return;
      }
      appLen := len.value;
      var crc := ReadWord(2000);
      if crc.None? {
        return;
      }
      appCrc := crc.value;
      if appLen == 0 || appLen > APP_MAX_SIZE {
        tx := tx + ERSZ;
        return;
      }
      SlotFits(appLen);
      EraseSlotSectors(chip, appLen);
      tx := tx + OKER;
    }

    lemma SlotFits(len: nat)
      requires len <= APP_MAX_SIZE
      ensures APP_OFFSET + Sectors(len) * FLASH_SECTOR <= FLASH_TOTAL
    {
    }

    method ReceiveChunk()
      requires Valid()
      modifies this`rx, this`tx, chip.cells, chunk
      ensures State() == Execute(old(State()).(rx := TakeData(old(rx)).1), TakeData(old(rx)).0)
    {
      var off := ReadWord(2000);
      if off.None? {
        return;
      }
      var len := ReadWord(2000);
      if len.None? {
        return;
      }
      var want := ReadWord(2000);
      if want.None? {
        return;
      }
      ReceivePayload(off.value, len.value, want.value);
    }

    method ReceivePayload(off: u32, len: u32, want: u32)
      requires Valid()
      modifies this`rx, this`tx, chip.cells, chunk
      ensures State() == Execute(old(State()).(rx := TakePayload(old(rx), off, len, want).1),
                                 TakePayload(old(rx), off, len, want).0)
    {
      if len == 0 || len > OTA_CHUNK_SIZE || (off + len) % 0x1_0000_0000 > APP_MAX_SIZE {
        Reply(DNAK, off);
        return;
      }
      var ok := ReadExactInto(chunk, len, 5000);
      if !ok {
        Reply(DNAK, off);
        return;
      }
      var crc := OtaCrc32(chunk[..len]);
      if crc != want {
        Reply(DNAK, off);
        return;
      }
      ProgramBuffer(off, len);
      Reply(DACK, off);
    }

    method Reply(tok: seq<byte>, off: u32)
      modifies this`tx
      ensures tx == old(tx) + tok + Pack(off)
    {
      tx := tx + tok;
      tx := tx + Pack(off);
    }

    method VerifyImage()
      requires Valid()
      modifies this`tx, chip.cells
      ensures State() == Execute(old(State()), End)
    {
      var f: Contents := chip.cells[..];
      var crc := OtaCrc32(SlotBytes(f, appLen));
      if crc == appCrc {
        var _ := BootStateWrite(chip, FreshRecord(appLen, appCrc));
        tx := tx + DONE;
      } else {
        tx := tx + ECRC;
      }
    }

    /** One round of the receiver's loop. */
    method ServeCommand()
      requires Valid()
      modifies this`rx, this`tx, this`appLen, this`appCrc, this`rebooted, chip.cells, chunk
      ensures State() == Step(old(State()))
    {
      var tok := ReadCommandToken(1000);
      if tok.None? {
      } else if tok.value == RP2B {
        Sync();
      } else if tok.value == BEGN {
        BeginImage();
      } else if tok.value == DATA {
        ReceiveChunk();
      } else if tok.value == END_ {
        VerifyImage();
      } else {
        tx := tx + BYE_;
        rebooted := true;
      }
    }

    /** `recovery_run`, until its input runs dry or it reboots. */
    method RecoveryRun()
      requires Valid()
      modifies this`rx, this`tx, this`appLen, this`appCrc, this`rebooted, chip.cells, chunk
      ensures State() == Serve(old(State()))
    {
      while rx != [] && !rebooted
        invariant Serve(State()) == Serve(old(State()))
        decreases |rx|
      {
        ServeCommand();
      }
    }
  }
}
