/** Cutting the received byte stream into command lines. */
module LineFramer {
  import opened Bytes
  import opened RxRing

  const LINE_MAX := 255
  const NEWLINE: byte := 10

  /** What the loop does with its input: dispatch a line, or report one that is too long. */
  datatype LineEvent = Dispatch(line: seq<byte>) | TooLong

  /** The length of the first line, or of everything if no newline has come. */
  function FirstLine(s: seq<byte>): (k: nat)
    ensures k <= |s|
  {
    if s == [] || s[0] == NEWLINE then 0 else 1 + FirstLine(s[1..])
  }

  lemma {:induction false} FirstLineEnds(s: seq<byte>)
    ensures NEWLINE !in s[..FirstLine(s)]
    ensures FirstLine(s) < |s| ==> s[FirstLine(s)] == NEWLINE
  {
    if s != [] && s[0] != NEWLINE {
      FirstLineEnds(s[1..]);
      assert s[..FirstLine(s)] == [s[0]] + s[1..][..FirstLine(s[1..])];
    }
  }

  /** What a segment of the stream gives rise to, `complete` when its newline has come. */
  function SegmentEvents(seg: seq<byte>, complete: bool): seq<LineEvent> {
    if |seg| > LINE_MAX then [TooLong]
    else if complete && seg != [] then [Dispatch(seg)]
    else []
  }

  /**
   The specification of framing: cut the stream at its newlines; every complete non-empty segment
   of at most 255 bytes is dispatched, every segment that reaches 256 is reported once.
   */
  function StreamEvents(s: seq<byte>): seq<LineEvent>
    decreases |s|
  {
    var k := FirstLine(s);
    if k == |s| then SegmentEvents(s, false)
    else SegmentEvents(s[..k], true) + StreamEvents(s[k + 1..])
  }

  /** The segment that has begun but not ended. */
  function OpenSegment(s: seq<byte>): seq<byte>
    decreases |s|
  {
    var k := FirstLine(s);
    if k == |s| then s else OpenSegment(s[k + 1..])
  }

  /** One more byte: a newline closes the open segment, any other byte extends it. */
  lemma {:induction false} OneMoreByte(s: seq<byte>, c: byte)
    ensures OpenSegment(s + [c]) == if c == NEWLINE then [] else OpenSegment(s) + [c]
    ensures StreamEvents(s + [c]) == StreamEvents(s) + NewEvents(OpenSegment(s), c)
    decreases |s|
  {
    var k := FirstLine(s);
    if k == |s| {
      LastLine(s, c);
    } else {
      FirstLineAppend(s, c);
      Regroup(s, c, k);
      Unfolded(s + [c], k, s[..k], s[k + 1..] + [c]);
      Unfolded(s, k, s[..k], s[k + 1..]);
      OneMoreByte(s[k + 1..], c);
      Glue(SegmentEvents(s[..k], true), StreamEvents(s[k + 1..]), NewEvents(OpenSegment(s), c));
    }
  }

  lemma Glue(a: seq<LineEvent>, b: seq<LineEvent>, c: seq<LineEvent>)
    ensures a + b + c == a + (b + c)
  {
  }

  /** An overlong line is reported once and never dispatched, and the next line starts afresh. */
  lemma OverlongLine(s: seq<byte>, line: seq<byte>)
    requires OpenSegment(s) == [] && |line| > 255 && NEWLINE !in line
    ensures StreamEvents(s + line + [NEWLINE]) == StreamEvents(s) + [TooLong]
    ensures OpenSegment(s + line + [NEWLINE]) == []
  {
    OpenLine(s, line);
    OneMoreByte(s + line, NEWLINE);
  }

  /** A line dispatched, when its newline comes. */
  lemma ShortLine(s: seq<byte>, line: seq<byte>)
    requires OpenSegment(s) == [] && |line| <= 255 && NEWLINE !in line
    ensures StreamEvents(s + line + [NEWLINE]) == StreamEvents(s) + if line == [] then [] else [Dispatch(line)]
    ensures OpenSegment(s + line + [NEWLINE]) == []
  {
    OpenLine(s, line);
    OneMoreByte(s + line, NEWLINE);
  }

  lemma {:induction false} OpenLine(s: seq<byte>, part: seq<byte>)
    requires OpenSegment(s) == [] && NEWLINE !in part
    ensures OpenSegment(s + part) == part
    ensures StreamEvents(s + part) == StreamEvents(s) + if |part| > 255 then [TooLong] else []
    decreases |part|
  {
    if part == [] {
      assert s + part == s;
    } else {
      var n := |part| - 1;
      assert part == part[..n] + [part[n]] && s + part == s + part[..n] + [part[n]];
      OpenLine(s, part[..n]);
      OneMoreByte(s + part[..n], part[n]);
    }
  }

  lemma Unfolded(t: seq<byte>, k: nat, first: seq<byte>, rest: seq<byte>)
    requires FirstLine(t) == k < |t| && t[..k] == first && t[k + 1..] == rest
    ensures StreamEvents(t) == SegmentEvents(first, true) + StreamEvents(rest)
    ensures OpenSegment(t) == OpenSegment(rest)
  {
  }

  lemma Regroup(s: seq<byte>, c: byte, k: nat)
    requires k < |s|
    ensures (s + [c])[..k] == s[..k] && (s + [c])[k + 1..] == s[k + 1..] + [c]
  {
  }

  /** The events that byte `c` adds when `seg` is open. */
  function NewEvents(seg: seq<byte>, c: byte): seq<LineEvent> {
    if c == NEWLINE then (if 0 < |seg| <= LINE_MAX then [Dispatch(seg)] else [])
    else if |seg| == LINE_MAX then [TooLong] else []
  }

  lemma {:induction false} FirstLineAppend(s: seq<byte>, c: byte)
    ensures FirstLine(s + [c]) ==
      if FirstLine(s) < |s| || c == NEWLINE then FirstLine(s) else |s| + 1
  {
    if s != [] && s[0] != NEWLINE {
      assert (s + [c])[1..] == s[1..] + [c];
      FirstLineAppend(s[1..], c);
    }
  }

  lemma LastLine(s: seq<byte>, c: byte)
    requires FirstLine(s) == |s|
    ensures OpenSegment(s + [c]) == if c == NEWLINE then [] else s + [c]
    ensures StreamEvents(s + [c]) == SegmentEvents(s, false) + NewEvents(s, c)
  {
    FirstLineAppend(s, c);
    if c == NEWLINE {
      assert (s + [c])[..|s|] == s;
      assert (s + [c])[|s| + 1..] == [];
    }
  }

  /** A segment is dispatched only if it is short enough, and never contains a newline. */
  lemma {:induction false} DispatchedLines(s: seq<byte>, line: seq<byte>)
    requires Dispatch(line) in StreamEvents(s)
    ensures 0 < |line| <= LINE_MAX && NEWLINE !in line
    decreases |s|
  {
    var k := FirstLine(s);
    FirstLineEnds(s);
    if k < |s| {
      if Dispatch(line) in SegmentEvents(s[..k], true) {
        assert line == s[..k];
      } else {
        DispatchedLines(s[k + 1..], line);
      }
    }
  }

  /** What has been raised stays raised, whatever arrives next. */
  lemma {:induction false} EventsGrow(s: seq<byte>, t: seq<byte>)
    ensures StreamEvents(s) <= StreamEvents(s + t)
    decreases |t|
  {
    if t == [] {
      assert s + t == s;
    } else {
      var n := |t| - 1;
      assert s + t == s + t[..n] + [t[n]];
      EventsGrow(s, t[..n]);
      OneMoreByte(s + t[..n], t[n]);
    }
  }

  class Framer {
    const linebuf: array<byte>
    var linelen: nat
    var discard: bool
    /** The events so far, and the stream since the last reset with the events before it. */
    var events: seq<LineEvent>
    ghost var stream: seq<byte>
    ghost var before: seq<LineEvent>

    ghost predicate Valid()
      reads this, linebuf
    {
      && linebuf.Length == LINE_MAX + 1 && linelen <= LINE_MAX
      && events == before + StreamEvents(stream)
      && (discard <==> |OpenSegment(stream)| > LINE_MAX)
      && (if discard then linelen == 0 else linebuf[..linelen] == OpenSegment(stream))
    }

    constructor ()
      ensures Valid() && fresh(linebuf) && events == [] && stream == [] && before == []
    {
      linebuf := new byte[LINE_MAX + 1](_ => 0);
      linelen, discard := 0, false;
      events, stream, before := [], [], [];
    }

    /** A new peer: the half line of the previous one is dropped. */
    method Reset()
      requires Valid()
      modifies this`linelen, this`discard, this`stream, this`before
      ensures Valid() && stream == [] && before == old(events)
    {
      linelen := 0;
      discard := false;
      stream, before := [], events;
    }

    /** A newline ends a line, or the overlong line that was being skipped. */
    method EndLine()
      requires Valid()
      modifies this`linelen, this`discard, this`events, this`stream, linebuf
      ensures Valid() && stream == old(stream) + [NEWLINE]
    {
      OneMoreByte(stream, NEWLINE);
      if !discard {
        var line := linebuf[..linelen];
        linebuf[linelen] := 0;
        if linelen > 0 {
          events := events + [Dispatch(line)];
        }
      }
      linelen := 0;
      discard := false;
      stream := stream + [NEWLINE];
    }

    method TakeByte(ch: byte)
      requires Valid()
      modifies this`linelen, this`discard, this`events, this`stream, linebuf
      ensures Valid() && stream == old(stream) + [ch]
    {
      if ch == NEWLINE {
        EndLine();
        return;
      }
      ghost var open := OpenSegment(stream);
      OneMoreByte(stream, ch);
      stream := stream + [ch];
      if discard {
      } else if linelen < LINE_MAX {
        linebuf[linelen] := ch;
        linelen := linelen + 1;
        assert linebuf[..linelen] == open + [ch];
      } else {
        discard := true;
        linelen := 0;
        events := events + [TooLong];
      }
    }

    /** The loop over one `net_read`: however the stream is cut up, the events are the stream's. */
    method Feed(rxbuf: array<byte>, n: nat)
      requires Valid() && n <= rxbuf.Length && rxbuf != linebuf
      modifies this`linelen, this`discard, this`events, this`stream, linebuf
      ensures Valid() && stream == old(stream) + old(rxbuf[..n])
    {
      for i := 0 to n
        invariant Valid() && stream == old(stream) + old(rxbuf[..i])
      {
        TakeByte(rxbuf[i]);
        assert old(rxbuf[..i + 1]) == old(rxbuf[..i]) + [old(rxbuf[i])];
      }
    }
  }

  lemma MoreDelivered(l: Log, m: Log, mark: nat)
    requires LogOk(l) && LogOk(m) && Later(l, m) && mark <= |l.fates|
    ensures m.accepted[mark..|m.fates|] == l.accepted[mark..|l.fates|] + m.accepted[|l.fates|..|m.fates|]
  {
    assert l.accepted[mark..|l.fates|] == m.accepted[mark..|l.fates|];
  }

  /** The input half of the main loop. */
  class Input {
    const ring: RxBuffer
    const framer: Framer
    const rxbuf: array<byte>

    /** The stream framed since the last connect is what the ring has delivered since then. */
    ghost var mark: nat

    ghost predicate Valid()
      reads this, ring, ring.slots, framer, framer.linebuf
    {
      && ring.Valid() && framer.Valid()
      && rxbuf.Length == 128 && rxbuf != ring.slots && rxbuf != framer.linebuf && ring.slots != framer.linebuf
      && mark <= |ring.log.fates| && framer.stream == ring.log.accepted[mark..|ring.log.fates|]
    }

    constructor (bursts: seq<seq<byte>>)
      ensures Valid() && fresh(ring) && fresh(ring.slots) && fresh(framer) && fresh(framer.linebuf) && fresh(rxbuf)
      ensures mark == 0 && ring.log == Log([], [], [], []) && framer.events == [] && framer.before == []
    {
      ring := new RxBuffer(bursts);
      framer := new Framer();
      rxbuf := new byte[128](_ => 0);
      mark := 0;
    }

    /** The connect edge: the ring is flushed and the framer starts afresh. */
    method Connect()
      requires Valid()
      modifies this`mark, ring, ring.slots, framer
      ensures Valid() && mark == |ring.log.fates| && Later(old(ring.log), ring.log)
      ensures framer.events == old(framer.events) == framer.before
    {
      var k := ring.NetRxFlush();
      framer.Reset();
      mark := |ring.log.fates|;
    }

    /** One pass: read what is there, frame it. */
    method Poll()
      requires Valid()
      modifies ring, ring.slots, framer, framer.linebuf, rxbuf
      ensures Valid() && mark == old(mark) && framer.before == old(framer.before)
      ensures Later(old(ring.log), ring.log) && old(framer.events) <= framer.events
      ensures framer.events == framer.before + StreamEvents(ring.log.accepted[mark..|ring.log.fates|])
    {
      var n := ring.NetRead(rxbuf, 128);
      MoreDelivered(old(ring.log), ring.log, mark);
      EventsGrow(framer.stream, rxbuf[..n]);
      framer.Feed(rxbuf, n);
    }

    /**
     What one pass of the loop takes in: the ring goes on as a queue, and the events are those of
     the bytes delivered since the last connect.
     */
    twostate predicate Received(connects: bool)
      reads this, ring, framer
    {
      && LogOk(old(ring.log)) && LogOk(ring.log) && Later(old(ring.log), ring.log)
      && old(framer.events) <= framer.events
      && (connects ==> framer.before == old(framer.events))
      && (!connects ==> mark == old(mark) && framer.before == old(framer.before))
      && mark <= |ring.log.fates|
      && framer.events == framer.before + StreamEvents(ring.log.accepted[mark..|ring.log.fates|])
    }

    /** Both, as at the top and in the middle of one pass of the loop. */
    method Receive(connects: bool)
      requires Valid()
      modifies this`mark, ring, ring.slots, framer, framer.linebuf, rxbuf
      ensures Valid() && Received(connects)
    {
      ghost var l0 := ring.log;
      if connects {
        Connect();
      }
      ghost var l1 := ring.log;
      Poll();
      if connects {
        LaterStill(l0, l1, ring.log);
      }
    }
  }
}
