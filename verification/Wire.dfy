/**
 The rounds of the receiver, stated on what arrives: which bytes, in which time, get which answer and
 change what.
 */
module Wire {
  import opened BootState
  import opened Bytes
  import opened Crc32
  import opened Recovery
  import opened Resync
  import opened Slot
  import opened Tokens
  import opened Wrappers

  // ---- reads ----

  predicate EndsAtByte(h: seq<RxItem>) { h == [] || h[|h| - 1].Byte? }

  /** The bytes `bs` arrive in `h`, up to the last one, without a silence that lasts for the timeout. */
  ghost predicate Timely(h: seq<RxItem>, bs: seq<byte>, timeout: nat) {
    BytesOf(h) == bs && Calm(h, 0, timeout) && EndsAtByte(h)
  }

  /** After `waited` milliseconds of silence, the timeout is reached before any byte comes. */
  predicate Stalls(rx: seq<RxItem>, waited: nat, timeout: nat)
    decreases |rx|
  {
    || rx == []
    || (rx[0].Quiet? && (waited + rx[0].ms >= timeout || Stalls(rx[1..], waited + rx[0].ms, timeout)))
  }

  lemma Onward(h: seq<RxItem>, tail: seq<RxItem>)
    requires h != []
    ensures (h + tail)[0] == h[0] && (h + tail)[1..] == h[1..] + tail
  {
  }

  lemma FirstItem(h: seq<RxItem>)
    requires h != [] && EndsAtByte(h)
    ensures EndsAtByte(h[1..]) && BytesOf(h) != []
    ensures h[0].Quiet? ==> h[1..] != [] && BytesOf(h) == BytesOf(h[1..])
    ensures h[0].Byte? ==> BytesOf(h) == [h[0].b] + BytesOf(h[1..])
  {
    EndsInByte(h);
    if h[0].Quiet? {
      assert [] + BytesOf(h[1..]) == BytesOf(h[1..]);
    }
  }

  /** `read_exact` gets bytes that keep within the timeout, and takes nothing after the last one. */
  lemma {:induction false} ReadExactTimely(h: seq<RxItem>, tail: seq<RxItem>, waited: nat, timeout: nat)
    requires Calm(h, waited, timeout) && EndsAtByte(h)
    ensures ReadExact(h + tail, |BytesOf(h)|, waited, timeout) == (Some(BytesOf(h)), tail)
    decreases |h|
  {
    if h == [] {
      assert h + tail == tail;
    } else {
      Onward(h, tail);
      FirstItem(h);
      match h[0]
      case Quiet(ms) => ReadExactTimely(h[1..], tail, waited + ms, timeout);
      case Byte(b) => ReadExactTimely(h[1..], tail, 0, timeout);
    }
  }

  /** It gives up if too few come before a silence that reaches the timeout. */
  lemma {:induction false} ReadExactStalls(h: seq<RxItem>, tail: seq<RxItem>, n: nat, waited: nat, timeout: nat)
    requires Calm(h, waited, timeout) && EndsAtByte(h) && |BytesOf(h)| < n
    requires Stalls(tail, if h == [] then waited else 0, timeout)
    ensures ReadExact(h + tail, n, waited, timeout).0.None?
    decreases |h| + |tail|
  {
    if h != [] {
      Onward(h, tail);
      FirstItem(h);
      match h[0]
      case Quiet(ms) => ReadExactStalls(h[1..], tail, n, waited + ms, timeout);
      case Byte(b) => ReadExactStalls(h[1..], tail, n - 1, 0, timeout);
    } else {
      assert h + tail == tail;
      if tail != [] && waited + tail[0].ms < timeout {
        assert [] + tail[1..] == tail[1..];
        ReadExactStalls([], tail[1..], n, waited + tail[0].ms, timeout);
      }
    }
  }

  /** Conversely, what it returns are the next bytes of the input, and they kept within the timeout. */
  lemma {:induction false} ReadExactTakes(rx: seq<RxItem>, n: nat, waited: nat, timeout: nat)
    returns (h: seq<RxItem>)
    requires ReadExact(rx, n, waited, timeout).0.Some?
    ensures rx == h + ReadExact(rx, n, waited, timeout).1 && Calm(h, waited, timeout) && EndsAtByte(h)
    ensures BytesOf(h) == ReadExact(rx, n, waited, timeout).0.value
    decreases |rx|
  {
    if n == 0 {
      h := [];
      assert [] + rx == rx;
    } else {
      var rest: seq<RxItem>;
      match rx[0] {
        case Quiet(ms) => rest := ReadExactTakes(rx[1..], n, waited + ms, timeout);
        case Byte(b) => rest := ReadExactTakes(rx[1..], n - 1, 0, timeout);
      }
      h := [rx[0]] + rest;
      assert rx == [rx[0]] + rx[1..] && h[1..] == rest;
      assert h + ReadExact(rx, n, waited, timeout).1 == [rx[0]] + (rest + ReadExact(rx, n, waited, timeout).1);
      if rest == [] {
        assert rx[0].Byte?;
      }
    }
  }

  lemma WordTimely(h: seq<RxItem>, x: u32, tail: seq<RxItem>, timeout: nat)
    requires Timely(h, Pack(x), timeout)
    ensures ReadU32(h + tail, timeout) == (Some(x), tail)
  {
    ReadExactTimely(h, tail, 0, timeout);
    UnpackPack(x);
  }

  /** A command magic arrives behind stray bytes, without a time-out and without being mistaken. */
  ghost predicate Brings(h: seq<RxItem>, junk: seq<byte>, m: seq<byte>) {
    && Timely(h, junk + m, 1000) && NoMatch(junk, COMMANDS) && !(m == BEGN && EndsWith(junk, RP2))
  }

  lemma Brought(h: seq<RxItem>, junk: seq<byte>, m: seq<byte>, tail: seq<RxItem>)
    requires Brings(h, junk, m) && m in COMMANDS
    ensures ReadCommand(h + tail, [], 0, 1000) == (Some(m), tail)
  {
    assert [] + BytesOf(h) == junk + m;
    assert BytesOf(h) != [];
    ReadResyncs([], h, tail, junk, m, 1000);
  }

  // ---- rounds ----

  /** SYNC is answered with the slot and chunk sizes, whatever follows its magic. */
  lemma SyncRound(d: Device, h: seq<RxItem>, junk: seq<byte>, tail: seq<RxItem>)
    requires d.rx == h + tail && Brings(h, junk, RP2B)
    ensures Step(d) == d.(rx := Step(d).rx, tx := d.tx + BLOK + Pack(0x3B_E000) + Pack(1024))
  {
    Brought(h, junk, RP2B, tail);
  }

  /** BEGIN is taken down whole; an image that fits gets its range erased, any other is refused. */
  lemma BeginRound(d: Device, h: seq<RxItem>, junk: seq<byte>, a: seq<RxItem>, b: seq<RxItem>, tail: seq<RxItem>,
                   len: u32, crc: u32)
    requires d.rx == h + (a + (b + tail)) && Brings(h, junk, BEGN)
    requires Timely(a, Pack(len), 2000) && Timely(b, Pack(crc), 2000)
    ensures Step(d) ==
      if 0 < len <= 0x3B_E000
      then d.(rx := tail, appLen := len, appCrc := crc, tx := d.tx + OKER, flash := EraseSlot(d.flash, len))
      else d.(rx := tail, appLen := len, appCrc := crc, tx := d.tx + ERSZ)
  {
    Brought(h, junk, BEGN, a + (b + tail));
    WordTimely(a, len, b + tail, 2000);
    WordTimely(b, crc, tail, 2000);
  }

  /** If its CRC does not come, BEGIN is not answered, and yet the length is kept. */
  lemma BeginCutRound(d: Device, h: seq<RxItem>, junk: seq<byte>, a: seq<RxItem>, b: seq<RxItem>, tail: seq<RxItem>,
                      len: u32, part: seq<byte>)
    requires d.rx == h + (a + (b + tail)) && Brings(h, junk, BEGN) && Timely(a, Pack(len), 2000)
    requires Timely(b, part, 2000) && |part| < 4 && Stalls(tail, 0, 2000)
    ensures Step(d) == d.(rx := Step(d).rx, appLen := len)
  {
    Brought(h, junk, BEGN, a + (b + tail));
    WordTimely(a, len, b + tail, 2000);
    ReadExactStalls(b, tail, 4, 0, 2000);
  }

  /** If its length does not come, nothing happens. */
  lemma BeginLostRound(d: Device, h: seq<RxItem>, junk: seq<byte>, a: seq<RxItem>, tail: seq<RxItem>, part: seq<byte>)
    requires d.rx == h + (a + tail) && Brings(h, junk, BEGN)
    requires Timely(a, part, 2000) && |part| < 4 && Stalls(tail, 0, 2000)
    ensures Step(d) == d.(rx := Step(d).rx)
  {
    Brought(h, junk, BEGN, a + tail);
    ReadExactStalls(a, tail, 4, 0, 2000);
  }

  /** The header of a DATA packet: offset, length and CRC. */
  ghost predicate Headed(head: seq<RxItem>, off: u32, len: u32, crc: u32, h: seq<RxItem>, junk: seq<byte>,
                         a: seq<RxItem>, b: seq<RxItem>, c: seq<RxItem>) {
    && head == h + (a + (b + c)) && Brings(h, junk, DATA)
    && Timely(a, Pack(off), 2000) && Timely(b, Pack(len), 2000) && Timely(c, Pack(crc), 2000)
  }

  predicate Acceptable(off: u32, len: u32) { 0 < len <= 1024 && (off + len) % 0x1_0000_0000 <= 0x3B_E000 }

  lemma HeaderTaken(head: seq<RxItem>, tail: seq<RxItem>, off: u32, len: u32, crc: u32, h: seq<RxItem>,
                    junk: seq<byte>, a: seq<RxItem>, b: seq<RxItem>, c: seq<RxItem>)
    requires Headed(head, off, len, crc, h, junk, a, b, c)
    ensures TakeCommand(head + tail) == TakePayload(tail, off, len, crc)
  {
    assert head + tail == h + (a + (b + (c + tail)));
    Brought(h, junk, DATA, a + (b + (c + tail)));
    WordTimely(a, off, b + (c + tail), 2000);
    WordTimely(b, len, c + tail, 2000);
    WordTimely(c, crc, tail, 2000);
  }

  /** A header that the guard refuses is answered DNAK at once, and its payload is left in the input. */
  lemma DataRefusedRound(d: Device, head: seq<RxItem>, tail: seq<RxItem>, off: u32, len: u32, crc: u32,
                         h: seq<RxItem>, junk: seq<byte>, a: seq<RxItem>, b: seq<RxItem>, c: seq<RxItem>)
    requires d.rx == head + tail && Headed(head, off, len, crc, h, junk, a, b, c) && !Acceptable(off, len)
    ensures Step(d) == d.(rx := tail, tx := d.tx + DNAK + Pack(off))
  {
    HeaderTaken(head, tail, off, len, crc, h, junk, a, b, c);
  }

  /** A payload that does not come whole is answered DNAK, and the flash stays as it is. */
  lemma DataLostRound(d: Device, head: seq<RxItem>, p: seq<RxItem>, tail: seq<RxItem>, part: seq<byte>,
                      off: u32, len: u32, crc: u32,
                      h: seq<RxItem>, junk: seq<byte>, a: seq<RxItem>, b: seq<RxItem>, c: seq<RxItem>)
    requires d.rx == head + (p + tail) && Headed(head, off, len, crc, h, junk, a, b, c) && Acceptable(off, len)
    requires Timely(p, part, 5000) && |part| < len && Stalls(tail, 0, 5000)
    ensures Step(d) == d.(rx := Step(d).rx, tx := d.tx + DNAK + Pack(off))
  {
    HeaderTaken(head, p + tail, off, len, crc, h, junk, a, b, c);
    ReadExactStalls(p, tail, len, 0, 5000);
  }

  /** A whole payload is programmed and answered DACK if its CRC fits, else answered DNAK. */
  lemma DataRound(d: Device, head: seq<RxItem>, p: seq<RxItem>, tail: seq<RxItem>, payload: seq<byte>,
                  off: u32, len: u32, crc: u32,
                  h: seq<RxItem>, junk: seq<byte>, a: seq<RxItem>, b: seq<RxItem>, c: seq<RxItem>)
    requires d.rx == head + (p + tail) && Headed(head, off, len, crc, h, junk, a, b, c) && Acceptable(off, len)
    requires Timely(p, payload, 5000) && |payload| == len
    ensures Step(d) ==
      if Crc(payload) == crc
      then d.(rx := tail, tx := d.tx + DACK + Pack(off), flash := ProgramChunk(d.flash, off, payload))
      else d.(rx := tail, tx := d.tx + DNAK + Pack(off))
  {
    HeaderTaken(head, p + tail, off, len, crc, h, junk, a, b, c);
    ReadExactTimely(p, tail, 0, 5000);
  }

  /** A header that does not come whole is not answered, and nothing happens. */
  lemma HeaderCutRound(d: Device, h: seq<RxItem>, junk: seq<byte>, a: seq<RxItem>, b: seq<RxItem>, c: seq<RxItem>,
                       tail: seq<RxItem>, off: u32, len: u32, part: seq<byte>)
    requires Brings(h, junk, DATA) && Timely(c, part, 2000) && |part| < 4 && Stalls(tail, 0, 2000)
    requires || d.rx == h + (c + tail)
             || (d.rx == h + (a + (c + tail)) && Timely(a, Pack(off), 2000))
             || (d.rx == h + (a + (b + (c + tail))) && Timely(a, Pack(off), 2000) && Timely(b, Pack(len), 2000))
    ensures Step(d) == d.(rx := Step(d).rx)
  {
    ReadExactStalls(c, tail, 4, 0, 2000);
    if d.rx == h + (c + tail) {
      Brought(h, junk, DATA, c + tail);
    } else if d.rx == h + (a + (c + tail)) && Timely(a, Pack(off), 2000) {
      Brought(h, junk, DATA, a + (c + tail));
      WordTimely(a, off, c + tail, 2000);
    } else {
      Brought(h, junk, DATA, a + (b + (c + tail)));
      WordTimely(a, off, b + (c + tail), 2000);
      WordTimely(b, len, c + tail, 2000);
    }
  }

  /** END: the whole slot against what was announced. */
  lemma EndRound(d: Device, h: seq<RxItem>, junk: seq<byte>, tail: seq<RxItem>)
    requires d.rx == h + tail && Brings(h, junk, END_)
    ensures Step(d) ==
      if Crc(SlotBytes(d.flash, d.appLen)) == d.appCrc
      then d.(rx := tail, tx := d.tx + DONE, flash := Write(d.flash, FreshRecord(d.appLen, d.appCrc)))
      else d.(rx := tail, tx := d.tx + ECRC)
  {
    Brought(h, junk, END_, tail);
    EndExecuted(d.(rx := tail));
  }

  lemma EndExecuted(d: Device)
    ensures Execute(d, End) ==
      if Crc(SlotBytes(d.flash, d.appLen)) == d.appCrc
      then d.(tx := d.tx + DONE, flash := Write(d.flash, FreshRecord(d.appLen, d.appCrc)))
      else d.(tx := d.tx + ECRC)
  {
  }

  /** GO is answered before the reboot. */
  lemma GoRound(d: Device, h: seq<RxItem>, junk: seq<byte>, tail: seq<RxItem>)
    requires d.rx == h + tail && Brings(h, junk, GO__)
    ensures Step(d) == d.(rx := tail, tx := d.tx + BYE_, rebooted := true)
  {
    Brought(h, junk, GO__, tail);
  }

  /** After it, nothing more is served. */
  lemma GoEnds(d: Device, h: seq<RxItem>, junk: seq<byte>, tail: seq<RxItem>)
    requires !d.rebooted && d.rx == h + tail && Brings(h, junk, GO__)
    ensures Serve(d) == d.(rx := tail, tx := d.tx + BYE_, rebooted := true)
  {
    GoRound(d, h, junk, tail);
    assert BytesOf(h) != [];
  }

  /** Stray bytes followed by a silence are answered with nothing. */
  lemma IdleRound(d: Device, h: seq<RxItem>, tail: seq<RxItem>)
    requires d.rx == h + tail && Timely(h, BytesOf(h), 1000) && NoMatch(BytesOf(h), COMMANDS) && Stalls(tail, 0, 1000)
    ensures Step(d) == d.(rx := Step(d).rx)
  {
    assert [] + BytesOf(h) == BytesOf(h);
    NothingRead([], h, tail, 0);
  }

  lemma {:induction false} NothingRead(c: seq<byte>, h: seq<RxItem>, tail: seq<RxItem>, waited: nat)
    requires NoMatch(c + BytesOf(h), COMMANDS) && Calm(h, waited, 1000) && EndsAtByte(h)
    requires Stalls(tail, if h == [] then waited else 0, 1000)
    ensures ReadCommand(h + tail, Last4(c), waited, 1000).0.None?
    decreases |h| + |tail|
  {
    if h != [] {
      Onward(h, tail);
      FirstItem(h);
      match h[0] {
        case Quiet(ms) =>
          assert BytesOf(h) == BytesOf(h[1..]);
          NothingRead(c, h[1..], tail, waited + ms);
        case Byte(b) =>
          assert c + BytesOf(h) == c + [b] + BytesOf(h[1..]);
          MatchPrefix(c + [b], BytesOf(h[1..]), |c| + 1, COMMANDS);
          Slide(c, b);
          WindowTest(c, b, COMMANDS);
          NothingRead(c + [b], h[1..], tail, 0);
      }
    } else {
      assert h + tail == tail;
      if tail != [] && waited + tail[0].ms < 1000 {
        assert [] + tail[1..] == tail[1..];
        NothingRead(c, [], tail[1..], waited + tail[0].ms);
      }
    }
  }

  // ---- what an acknowledgement means ----

  lemma {:induction false} CommandTakes(rx: seq<RxItem>, c: seq<byte>, waited: nat, timeout: nat)
    returns (h: seq<RxItem>)
    requires ReadCommand(rx, Last4(c), waited, timeout).0.Some?
    ensures var (tok, rest) := ReadCommand(rx, Last4(c), waited, timeout);
            && rx == h + rest && Last4(c + BytesOf(h)) == tok.value
    decreases |rx|
  {
    var rest: seq<RxItem>;
    match rx[0] {
      case Quiet(ms) =>
        rest := CommandTakes(rx[1..], c, waited + ms, timeout);
      case Byte(b) =>
        Slide(c, b);
        var w := Last4(c + [b]);
        if |w| == 4 && w in COMMANDS {
          rest := [];
          assert c + [b] + [] == c + [b];
        } else {
          rest := CommandTakes(rx[1..], c + [b], 0, timeout);
        }
    }
    h := [rx[0]] + rest;
    var left := ReadCommand(rx, Last4(c), waited, timeout).1;
    TakenItem(rx, rest, left);
    Glue(c, ByteOf(rx[0]), BytesOf(rest));
    assert rx[0].Quiet? ==> c + [] == c;
  }

  lemma TakenItem(rx: seq<RxItem>, rest: seq<RxItem>, left: seq<RxItem>)
    requires rx != [] && rx[1..] == rest + left
    ensures rx == ([rx[0]] + rest) + left && BytesOf([rx[0]] + rest) == ByteOf(rx[0]) + BytesOf(rest)
  {
    assert rx == [rx[0]] + rx[1..];
    assert ([rx[0]] + rest)[1..] == rest;
  }

  lemma LastFour(s: seq<byte>, tok: seq<byte>)
    requires Last4(s) == tok && |tok| == 4
    ensures s == s[..|s| - 4] + tok
  {
  }

  lemma WordTakes(rx: seq<RxItem>, timeout: nat)
    requires ReadU32(rx, timeout).0.Some?
    ensures BytesOf(rx) == Pack(ReadU32(rx, timeout).0.value) + BytesOf(ReadU32(rx, timeout).1)
  {
    var h := ReadExactTakes(rx, 4, 0, timeout);
    BytesOfConcat(h, ReadU32(rx, timeout).1);
    PackUnpack(BytesOf(h));
  }

  lemma PayloadTakes(rx: seq<RxItem>, n: nat, timeout: nat)
    requires ReadExact(rx, n, 0, timeout).0.Some?
    ensures BytesOf(rx) == ReadExact(rx, n, 0, timeout).0.value + BytesOf(ReadExact(rx, n, 0, timeout).1)
  {
    var h := ReadExactTakes(rx, n, 0, timeout);
    BytesOfConcat(h, ReadExact(rx, n, 0, timeout).1);
  }

  /** The bytes of a DATA packet. */
  function Packet(off: u32, payload: seq<byte>, crc: u32): seq<byte>
    requires |payload| <= 1024
  {
    DATA + (Pack(off) + (Pack(|payload|) + (Pack(crc) + payload)))
  }

  /** A DATA command was taken from the bytes of a whole packet, with an acceptable header. */
  lemma DataTakes(rx: seq<RxItem>) returns (front: seq<byte>)
    requires TakeCommand(rx).0.Data?
    ensures var (c, rest) := TakeCommand(rx);
            && Acceptable(c.off, |c.payload|)
            && BytesOf(rx) == front + (Packet(c.off, c.payload, c.crc) + BytesOf(rest))
  {
    assert Last4([]) == [];
    var h := CommandTakes(rx, [], 0, 1000);
    var rx0 := ReadCommand(rx, [], 0, 1000).1;
    BytesOfConcat(h, rx0);
    assert [] + BytesOf(h) == BytesOf(h);
    LastFour(BytesOf(h), DATA);
    front := BytesOf(h)[..|BytesOf(h)| - 4];
    HeaderTakes(rx0);
    Glue(front, DATA, BytesOf(rx0));
    var (c, rest) := TakeCommand(rx);
    Glue(DATA, Pack(c.off) + (Pack(|c.payload|) + (Pack(c.crc) + c.payload)), BytesOf(rest));
  }

  lemma HeaderTakes(rx: seq<RxItem>)
    requires TakeData(rx).0.Data?
    ensures var (c, rest) := TakeData(rx);
            && Acceptable(c.off, |c.payload|)
            && BytesOf(rx) == (Pack(c.off) + (Pack(|c.payload|) + (Pack(c.crc) + c.payload))) + BytesOf(rest)
  {
    var (off, rx1) := ReadU32(rx, 2000);
    var (len, rx2) := ReadU32(rx1, 2000);
    var (crc, rx3) := ReadU32(rx2, 2000);
    WordTakes(rx, 2000);
    WordTakes(rx1, 2000);
    WordTakes(rx2, 2000);
    PayloadTakes(rx3, len.value, 5000);
    var (c, rest) := TakeData(rx);
    Regroup(Pack(c.off), Pack(|c.payload|), Pack(c.crc), c.payload, BytesOf(rest));
  }

  lemma Regroup(a: seq<byte>, b: seq<byte>, c: seq<byte>, d: seq<byte>, e: seq<byte>)
    ensures a + (b + (c + (d + e))) == (a + (b + (c + d))) + e
  {
  }

  /** Of all commands only an intact DATA is answered DACK. */
  lemma AckIsData(d: Device, c: Command, off: u32)
    requires Execute(d, c).tx == d.tx + (DACK + Pack(off))
    ensures c.Data? && c.off == off && Crc(c.payload) == c.crc
  {
    ReplyIs(d, c);
    var reply := ReplyTo(d, c);
    assert reply == Execute(d, c).tx[|d.tx|..] == DACK + Pack(off);
    assert reply[..4] == DACK && reply[4..] == Pack(off);
    if !c.Data? {
      OtherReply(d, c);
      assert false;
    }
    assert reply[..4] == (if Crc(c.payload) == c.crc then DACK else DNAK) && reply[4..] == Pack(c.off);
    UnpackPack(off);
    UnpackPack(c.off);
  }

  lemma OtherReply(d: Device, c: Command)
    requires !c.Data?
    ensures |ReplyTo(d, c)| == 8 ==> ReplyTo(d, c)[..4] == DNAK
  {
  }

  /** What each command adds to the replies. */
  lemma ReplyIs(d: Device, c: Command)
    ensures Execute(d, c).tx == d.tx + ReplyTo(d, c)
  {
  }

  function ReplyTo(d: Device, c: Command): seq<byte> {
    match c
    case Sync => BLOK + Pack(0x3B_E000) + Pack(1024)
    case Begin(len, _) => if 0 < len <= 0x3B_E000 then OKER else ERSZ
    case DataRefused(off) => DNAK + Pack(off)
    case DataLost(off) => DNAK + Pack(off)
    case Data(off, payload, crc) => (if Crc(payload) == crc then DACK else DNAK) + Pack(off)
    case End => if Crc(SlotBytes(d.flash, d.appLen)) == d.appCrc then DONE else ECRC
    case Go => BYE_
    case _ => []
  }

  /**
   Whatever arrives: a round that acknowledges offset `off` has taken a whole DATA packet for `off`
   from the input, with an acceptable header and a payload that fits the CRC, and has programmed it.
   */
  lemma AckMeansProgrammed(d: Device, off: u32) returns (front: seq<byte>, payload: seq<byte>)
    requires Step(d).tx == d.tx + (DACK + Pack(off))
    ensures |payload| <= 1024 && Acceptable(off, |payload|)
    ensures BytesOf(d.rx) == front + (Packet(off, payload, Crc(payload)) + BytesOf(Step(d).rx))
    ensures Step(d).flash == ProgramChunk(d.flash, off, payload)
  {
    var (c, rest) := TakeCommand(d.rx);
    AckIsData(d.(rx := rest), c, off);
    front := DataTakes(d.rx);
    payload := c.payload;
  }
}
