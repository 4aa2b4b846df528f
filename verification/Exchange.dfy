/** How the receiver answers each packet the host sends. */
module Exchange {
  import opened Bytes
  import opened Crc32
  import opened Layout
  import opened Recovery
  import opened Resync
  import opened Slot
  import opened Tokens
  import opened Wrappers

  function BeginPacket(len: u32, crc: u32): seq<byte> { BEGN + (Pack(len) + Pack(crc)) }

  function DataHeader(off: u32, len: u32, crc: u32): seq<byte> {
    DATA + (Pack(off) + (Pack(len) + Pack(crc)))
  }

  lemma ItemsConcat(a: seq<byte>, b: seq<byte>)
    ensures Items(a + b) == Items(a) + Items(b)
  {
  }

  lemma {:induction false} ReadExactItems(bs: seq<byte>, more: seq<byte>, timeout: nat)
    ensures ReadExact(Items(bs + more), |bs|, 0, timeout) == (Some(bs), Items(more))
  {
    if bs == [] {
      assert bs + more == more;
    } else {
      assert Items(bs + more)[0] == Byte(bs[0]) && Items(bs + more)[1..] == Items(bs[1..] + more);
      ReadExactItems(bs[1..], more, timeout);
      assert [bs[0]] + bs[1..] == bs;
    }
  }

  lemma ReadU32Items(x: u32, more: seq<byte>, timeout: nat)
    ensures ReadU32(Items(Pack(x) + more), timeout) == (Some(x), Items(more))
  {
    ReadExactItems(Pack(x), more, timeout);
    UnpackPack(x);
  }

  /** On an input of bytes alone, what `ReadCommand` leaves is bytes alone. */
  lemma {:induction false} RestIsItems(s: seq<byte>, w: seq<byte>, timeout: nat)
    ensures var rest := ReadCommand(Items(s), w, 0, timeout).1; rest == Items(BytesOf(rest))
  {
    if s != [] {
      assert Items(s)[1..] == Items(s[1..]);
      RestIsItems(s[1..], Last4(w + [s[0]]), timeout);
      BytesOfItems(s[1..]);
    }
  }

  lemma {:induction false} ItemsAreCalm(s: seq<byte>, timeout: nat)
    ensures Calm(Items(s), 0, timeout)
  {
    if s != [] {
      assert Items(s)[1..] == Items(s[1..]);
      ItemsAreCalm(s[1..], timeout);
    }
  }

  /** A command behind harmless stray bytes is taken whole. */
  lemma CommandTaken(junk: seq<byte>, m: seq<byte>, after: seq<byte>, timeout: nat)
    requires m in COMMANDS && NoMatch(junk, COMMANDS) && !(m == BEGN && EndsWith(junk, RP2))
    requires timeout > 0
    ensures ReadCommand(Items(junk + m + after), [], 0, timeout) == (Some(m), Items(after))
  {
    var s := junk + m + after;
    BytesOfItems(junk + m);
    BytesOfItems(after);
    ItemsAreCalm(junk + m, timeout);
    ItemsConcat(junk + m, after);
    assert [] + (junk + m) == junk + m;
    ReadResyncs([], Items(junk + m), Items(after), junk, m, timeout);
    RestIsItems(s, [], timeout);
  }

  lemma NoJunk(m: seq<byte>, after: seq<byte>, timeout: nat)
    requires m in COMMANDS && timeout > 0
    ensures ReadCommand(Items(m + after), [], 0, timeout) == (Some(m), Items(after))
  {
    assert [] + m + after == m + after;
    CommandTaken([], m, after, timeout);
  }

  lemma ServeBegin(d: Device, junk: seq<byte>, len: u32, crc: u32)
    requires !d.rebooted && d.rx == Items(junk + BeginPacket(len, crc))
    requires NoMatch(junk, COMMANDS) && !EndsWith(junk, RP2)
    ensures Serve(d) == Execute(d.(rx := []), Begin(len, crc))
  {
    assert junk + BeginPacket(len, crc) == junk + BEGN + (Pack(len) + Pack(crc));
    CommandTaken(junk, BEGN, Pack(len) + Pack(crc), 1000);
    ReadU32Items(len, Pack(crc), 2000);
    assert Pack(crc) + [] == Pack(crc);
    ReadU32Items(crc, [], 2000);
    ServedOnce(d, Begin(len, crc));
  }

  /** When the next command uses up the input, serving is executing it. */
  lemma ServedOnce(d: Device, c: Command)
    requires !d.rebooted && d.rx != [] && TakeCommand(d.rx) == (c, [])
    ensures Serve(d) == Execute(d.(rx := []), c)
  {
    assert Serve(d) == Serve(Step(d));
  }

  lemma ServeData(d: Device, off: u32, len: u32, crc: u32, payload: seq<byte>)
    requires !d.rebooted && d.rx == Items(DataHeader(off, len, crc) + payload)
    requires HeaderOk(off, len) && |payload| == len
    ensures Serve(d) == Execute(d.(rx := []), Data(off, payload, crc))
  {
    var t3 := Pack(crc) + payload;
    var t2 := Pack(len) + t3;
    var t1 := Pack(off) + t2;
    assert DataHeader(off, len, crc) + payload == DATA + t1;
    NoJunk(DATA, t1, 1000);
    ReadU32Items(off, t2, 2000);
    ReadU32Items(len, t3, 2000);
    ReadU32Items(crc, payload, 2000);
    assert payload + [] == payload;
    ReadExactItems(payload, [], 5000);
    ServedOnce(d, Data(off, payload, crc));
  }

  lemma ServeEnd(d: Device)
    requires !d.rebooted && d.rx == Items(END_)
    ensures Serve(d) == Execute(d.(rx := []), End)
  {
    assert END_ + [] == END_;
    NoJunk(END_, [], 1000);
    ServedOnce(d, End);
  }

  lemma ServeGo(d: Device)
    requires !d.rebooted && d.rx == Items(GO__)
    ensures Serve(d) == Execute(d.(rx := []), Go)
  {
    assert GO__ + [] == GO__;
    NoJunk(GO__, [], 1000);
    ServedOnce(d, Go);
  }

  /** `q` is `p`, or differs from it inside a window of four bytes. */
  ghost predicate BurstOf(p: seq<byte>, q: seq<byte>) {
    p == q
    || exists before: seq<byte>, a: seq<byte>, b: seq<byte>, after: seq<byte> ::
         Window(p, before, a, after) && Window(q, before, b, after) && |a| == |b| <= 4
  }

  ghost predicate Window(p: seq<byte>, before: seq<byte>, a: seq<byte>, after: seq<byte>) {
    p == before + a + after
  }

  lemma BurstFailsCrc(p: seq<byte>, q: seq<byte>)
    requires BurstOf(p, q)
    ensures |q| == |p|
    ensures Crc(q) == Crc(p) <==> q == p
  {
    if p != q {
      var before, a, b, after :| Window(p, before, a, after) && Window(q, before, b, after) && |a| == |b| <= 4;
      BurstDetected(before, a, b, after);
    }
  }

  /** A chunk altered by a burst is always refused and never programmed; an intact one never is refused. */
  lemma ChunkVerdict(d: Device, off: u32, payload: seq<byte>, received: seq<byte>)
    requires 0 < |payload| <= OTA_CHUNK_SIZE && off + |payload| <= APP_MAX_SIZE
    requires !d.rebooted && BurstOf(payload, received)
    requires d.rx == Items(DataHeader(off, |payload|, Crc(payload)) + received)
    ensures Serve(d) ==
      if received == payload
      then d.(rx := [], tx := d.tx + DACK + Pack(off), flash := ProgramChunk(d.flash, off, payload))
      else d.(rx := [], tx := d.tx + DNAK + Pack(off))
  {
    BurstFailsCrc(payload, received);
    ServeData(d, off, |payload|, Crc(payload), received);
  }
}
