/** The OTA receiver of the bootloader: commands arrive on a frameless byte stream. */
module Recovery {
  import opened BootState
  import opened Bytes
  import opened Crc32
  import opened Layout
  import opened Slot
  import opened Tokens
  import opened Wrappers

  /**
   What the receiver meets on its input: a byte, or `ms` milliseconds without one.  Adjacent pauses
   add up.  What is left of a pause when a read times out in it needs no record: every time-out leads
   back to `read_command`, which has nothing in its window then.
   */
  datatype RxItem = Byte(b: byte) | Quiet(ms: nat)

  function Items(bs: seq<byte>): (items: seq<RxItem>)
    ensures |items| == |bs|
  {
    seq(|bs|, i requires 0 <= i < |bs| => Byte(bs[i]))
  }

  /**
   `read_exact`, with `waited` milliseconds of silence behind it: the bytes, unless the silence since
   the last byte adds up to the timeout; the end of input is silence.
   */
  function ReadExact(rx: seq<RxItem>, n: nat, waited: nat, timeout: nat): (r: (Option<seq<byte>>, seq<RxItem>))
    ensures r.0.Some? ==> |r.0.value| == n
    ensures |r.1| <= |rx|
    decreases |rx|
  {
    if n == 0 then (Some([]), rx)
    else if rx == [] then (None, [])
    else
      match rx[0]
      case Quiet(ms) =>
        if waited + ms >= timeout then (None, rx[1..]) else ReadExact(rx[1..], n, waited + ms, timeout)
      case Byte(b) =>
        var (more, rest) := ReadExact(rx[1..], n - 1, 0, timeout);
        (if more.Some? then Some([b] + more.value) else None, rest)
  }

  /** `read_command` with `w` already in its window and `waited` milliseconds of silence behind it. */
  function ReadCommand(rx: seq<RxItem>, w: seq<byte>, waited: nat, timeout: nat)
    : (r: (Option<seq<byte>>, seq<RxItem>))
    ensures r.0.Some? ==> |r.0.value| == 4 && r.0.value in COMMANDS
    ensures rx != [] ==> |r.1| < |rx|
    ensures rx == [] ==> r.1 == []
    decreases |rx|
  {
    if rx == [] then (None, [])
    else
      match rx[0]
      case Quiet(ms) =>
        if waited + ms >= timeout then (None, rx[1..]) else ReadCommand(rx[1..], w, waited + ms, timeout)
      case Byte(b) =>
        var w' := Last4(w + [b]);
        if |w'| == 4 && w' in COMMANDS then (Some(w'), rx[1..]) else ReadCommand(rx[1..], w', 0, timeout)
  }

  function ReadU32(rx: seq<RxItem>, timeout: nat): (r: (Option<u32>, seq<RxItem>))
    ensures |r.1| <= |rx|
  {
    var (bs, rest) := ReadExact(rx, 4, 0, timeout);
    (if bs.Some? then Some(Unpack(bs.value)) else None, rest)
  }

  /** A command as far as it arrived. */
  datatype Command =
    | NoCommand
    | Sync
    | BeginCut(got: Option<u32>)
    | Begin(len: u32, crc: u32)
    | DataCut
    | DataRefused(off: u32)
    | DataLost(off: u32)
    | Data(off: u32, payload: seq<byte>, crc: u32)
    | End
    | Go

  /** The guard on a DATA header; the sum is 32 bits wide. */
  predicate HeaderOk(off: u32, len: u32) {
    0 < len <= OTA_CHUNK_SIZE && (off + len) % 0x1_0000_0000 <= APP_MAX_SIZE
  }

  function TakeBegin(rx: seq<RxItem>): (r: (Command, seq<RxItem>))
    ensures |r.1| <= |rx|
  {
    var (len, rx1) := ReadU32(rx, 2000);
    if len.None? then (BeginCut(None), rx1)
    else
      var (crc, rx2) := ReadU32(rx1, 2000);
      if crc.None? then (BeginCut(len), rx2) else (Begin(len.value, crc.value), rx2)
  }

  function TakeData(rx: seq<RxItem>): (r: (Command, seq<RxItem>))
    ensures |r.1| <= |rx|
  {
    var (off, rx1) := ReadU32(rx, 2000);
    if off.None? then (DataCut, rx1)
    else
      var (len, rx2) := ReadU32(rx1, 2000);
      if len.None? then (DataCut, rx2)
      else
        var (crc, rx3) := ReadU32(rx2, 2000);
        if crc.None? then (DataCut, rx3) else TakePayload(rx3, off.value, len.value, crc.value)
  }

  function TakePayload(rx: seq<RxItem>, off: u32, len: u32, crc: u32): (r: (Command, seq<RxItem>))
    ensures |r.1| <= |rx|
  {
    if !HeaderOk(off, len) then (DataRefused(off), rx)
    else
      var (payload, rest) := ReadExact(rx, len, 0, 5000);
      if payload.None? then (DataLost(off), rest) else (Data(off, payload.value, crc), rest)
  }

  /** The next command and the input left after it. */
  function TakeCommand(rx: seq<RxItem>): (r: (Command, seq<RxItem>))
    ensures rx != [] ==> |r.1| < |rx|
  {
    var (tok, rest) := ReadCommand(rx, [], 0, 1000);
    if tok.None? then (NoCommand, rest)
    else if tok.value == RP2B then (Sync, ReadExact(rest, 4, 0, 1000).1)
    else if tok.value == BEGN then TakeBegin(rest)
    else if tok.value == DATA then TakeData(rest)
    else if tok.value == END_ then (End, rest)
    else (Go, rest)
  }

  datatype Device = Device(
    flash: Contents, rx: seq<RxItem>, tx: seq<byte>, appLen: u32, appCrc: u32, rebooted: bool)

  /** Flash, locals and replies after a command. */
  function Execute(d: Device, c: Command): (e: Device)
    ensures e.rx == d.rx
  {
    match c
    case NoCommand => d
    case Sync => d.(tx := d.tx + BLOK + Pack(APP_MAX_SIZE) + Pack(OTA_CHUNK_SIZE))
    case BeginCut(got) => if got.Some? then d.(appLen := got.value) else d
    case Begin(len, crc) =>
      var e := d.(appLen := len, appCrc := crc);
      if len == 0 || len > APP_MAX_SIZE then e.(tx := e.tx + ERSZ)
      else e.(flash := EraseSlot(e.flash, len), tx := e.tx + OKER)
    case DataCut => d
    case DataRefused(off) => d.(tx := d.tx + DNAK + Pack(off))
    case DataLost(off) => d.(tx := d.tx + DNAK + Pack(off))
    case Data(off, payload, crc) =>
      if Crc(payload) != crc then d.(tx := d.tx + DNAK + Pack(off))
      else d.(flash := ProgramChunk(d.flash, off, payload), tx := d.tx + DACK + Pack(off))
    case End =>
      if Crc(SlotBytes(d.flash, d.appLen)) == d.appCrc
      then d.(flash := Write(d.flash, FreshRecord(d.appLen, d.appCrc)), tx := d.tx + DONE)
      else d.(tx := d.tx + ECRC)
    case Go => d.(tx := d.tx + BYE_, rebooted := true)
  }

  function Step(d: Device): Device {
    var (c, rest) := TakeCommand(d.rx);
    Execute(d.(rx := rest), c)
  }

  /** Commands are served until the input runs dry or a reboot is asked for. */
  function Serve(d: Device): Device
    decreases |d.rx|
  {
    if d.rx == [] || d.rebooted then d
    else Serve(Step(d))
  }
}
