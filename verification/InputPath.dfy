/** The whole input path: what a host prints is framed, parsed, obeyed and shown. */
module InputPath {
  import opened App
  import opened Bytes
  import opened FieldValues
  import opened LineFramer
  import opened PanelProtocol
  import opened Protocol
  import Rings

  // ---- text on the wire ----

  predicate Ascii(s: string) { forall i :: 0 <= i < |s| ==> '\0' < s[i] <= '~' }

  /** One byte a character. */
  function Wire(s: string): (bs: seq<byte>)
    requires Ascii(s)
    ensures |bs| == |s|
  {
    seq(|s|, i requires 0 <= i < |s| => s[i] as int)
  }

  lemma {:induction false} CTextOfWire(s: string)
    requires Ascii(s)
    ensures CText(Wire(s)) == s
  {
    if s != "" {
      assert Wire(s)[1..] == Wire(s[1..]);
      CTextOfWire(s[1..]);
      assert [s[0]] + s[1..] == s;
    }
  }

  /** Text that can stand on a line. */
  predicate OnOneLine(s: string) { forall i :: 0 <= i < |s| ==> ' ' <= s[i] <= '~' }

  lemma OneLineWire(s: string)
    requires OnOneLine(s)
    ensures NEWLINE !in Wire(s)
  {
  }

  lemma DecimalOnOneLine(n: int)
    ensures OnOneLine(Decimal(n))
  {
    DecimalIsDigits(if n < 0 then -n else n);
  }

  // ---- what the device makes of its lines ----

  function ReplyFor(e: LineEvent): Reply {
    if e.TooLong? then Err("line too long") else ReplyTo(Parse(CText(e.line)).0, Parse(CText(e.line)).1)
  }

  /** One reply an event, in order. */
  function Replies(events: seq<LineEvent>): seq<Reply> {
    seq(|events|, i requires 0 <= i < |events| => ReplyFor(events[i]))
  }

  function Order(e: LineEvent): (cs: seq<Rings.SetCmd>)
    ensures forall k :: 0 <= k < |cs| ==> Rings.Accepts(cs[k])
  {
    if e.Dispatch? && ReplyFor(e) == Ack("ring") then [RingSet(Parse(CText(e.line)).1)] else []
  }

  /** The ring commands that the lines of `events` order. */
  function Orders(events: seq<LineEvent>): (cs: seq<Rings.SetCmd>)
    ensures forall k :: 0 <= k < |cs| ==> Rings.Accepts(cs[k])
  {
    if events == [] then [] else Orders(events[..|events| - 1]) + Order(events[|events| - 1])
  }

  lemma OneMoreOrder(events: seq<LineEvent>, e: LineEvent)
    ensures Orders(events + [e]) == Orders(events) + Order(e)
  {
    assert (events + [e])[..|events|] == events;
  }

  lemma OneMoreReply(events: seq<LineEvent>, e: LineEvent)
    ensures Replies(events + [e]) == Replies(events) + [ReplyFor(e)]
  {
  }

  /** An overlong line is answered with one complaint when it gets too long, and with no other reply. */
  lemma OverlongIsReported(s: seq<byte>, line: seq<byte>)
    requires OpenSegment(s) == [] && |line| > 255 && NEWLINE !in line
    ensures Replies(StreamEvents(s + line + [NEWLINE])) == Replies(StreamEvents(s)) + [Err("line too long")]
    ensures Orders(StreamEvents(s + line + [NEWLINE])) == Orders(StreamEvents(s))
  {
    OverlongLine(s, line);
    OneMoreReply(StreamEvents(s), TooLong);
    OneMoreOrder(StreamEvents(s), TooLong);
  }

  // ---- the host's side ----

  datatype HostCmd = RingCmd(id: int, r: int, g: int, b: int, brightness: int) | LampCmd(lit: bool)

  /** Any ring id that a 32-bit integer holds, and any colours. */
  predicate Sendable(c: HostCmd) { c.RingCmd? ==> LONG_MIN <= c.id <= LONG_MAX }

  function Line(c: HostCmd): string {
    match c
    case RingCmd(id, r, g, b, brightness) => RingLine(id, r, g, b, brightness)
    case LampCmd(lit) => LampLine(lit)
  }

  /** What the host writes for a series of commands. */
  function Script(cmds: seq<HostCmd>): string {
    if cmds == [] then "" else Script(cmds[..|cmds| - 1]) + Text(cmds[|cmds| - 1])
  }

  function Text(c: HostCmd): string {
    match c
    case RingCmd(id, r, g, b, brightness) => FmtRingCmd(id, r, g, b, brightness)
    case LampCmd(lit) => FmtLampCmd(lit)
  }

  /** The last colour sent to ring `i`, clamped; `initial` if none was. */
  function LastFor(cmds: seq<HostCmd>, i: int, initial: Rings.RingState): Rings.RingState {
    if cmds == [] then initial
    else
      var c := cmds[|cmds| - 1];
      if c.RingCmd? && c.id == i + 1
      then Rings.RingState(Clamp8(c.r), Clamp8(c.g), Clamp8(c.b), Clamp8(c.brightness))
      else LastFor(cmds[..|cmds| - 1], i, initial)
  }

  lemma Joined(a: string, b: string)
    requires OnOneLine(a) && OnOneLine(b)
    ensures OnOneLine(a + b)
  {
  }

  lemma ColoursOnOneLine(r: int, g: int, b: int, brightness: int)
    ensures OnOneLine(Colours(r, g, b, brightness))
  {
    DecimalOnOneLine(Clamp8(r));
    DecimalOnOneLine(Clamp8(g));
    DecimalOnOneLine(Clamp8(b));
    DecimalOnOneLine(Clamp8(brightness));
    var vr, vg, vb, vl := Decimal(Clamp8(r)), Decimal(Clamp8(g)), Decimal(Clamp8(b)), Decimal(Clamp8(brightness));
    Joined(vl, "}");
    Joined(",\"brightness\":", vl + "}");
    var t3 := ",\"brightness\":" + (vl + "}");
    Joined(vb, t3);
    Joined(",\"b\":", vb + t3);
    var t2 := ",\"b\":" + (vb + t3);
    Joined(vg, t2);
    Joined(",\"g\":", vg + t2);
    var t1 := ",\"g\":" + (vg + t2);
    Joined(vr, t1);
    Joined(",\"r\":", vr + t1);
  }

  lemma LineFits(c: HostCmd)
    requires Sendable(c)
    ensures OnOneLine(Line(c)) && 0 < |Line(c)| <= LINE_MAX
  {
    match c {
      case RingCmd(id, r, g, b, brightness) =>
        DecimalOnOneLine(id);
        ColoursOnOneLine(r, g, b, brightness);
        RingLineFits(id, r, g, b, brightness);
      case LampCmd(lit) =>
    }
  }

  /** The order that reaches the rings for one command. */
  function Asked(c: HostCmd): seq<Rings.SetCmd> {
    if c.RingCmd? && 1 <= c.id <= Rings.RING_COUNT
    then [Rings.SetCmd(c.id - 1, Clamp8(c.r), Clamp8(c.g), Clamp8(c.b), Clamp8(c.brightness))]
    else []
  }

  lemma OrderOf(e: LineEvent, text: string, c: Cmd)
    requires e.Dispatch? && CText(e.line) == text && Parse(text) == (true, c)
    ensures Order(e) == if c.kind.Ring? && Rings.Accepts(RingSet(c)) then [RingSet(c)] else []
  {
  }

  lemma LineOrders(c: HostCmd, line: string)
    requires OnOneLine(line) && Parse(line) == (true, Meaning(c))
    ensures Order(LineEvent.Dispatch(Wire(line))) == Asked(c)
  {
    CTextOfWire(line);
    OrderOf(LineEvent.Dispatch(Wire(line)), line, Meaning(c));
  }

  /** The command that the device finds in the line. */
  function Meaning(c: HostCmd): Cmd {
    match c
    case RingCmd(id, r, g, b, brightness) =>
      Cmd(Ring, id, Clamp8(r), Clamp8(g), Clamp8(b), Clamp8(brightness), -1, -1)
    case LampCmd(lit) => NO_CMD.(kind := Lamp, on := if lit then 1 else 0)
  }

  lemma LineMeans(c: HostCmd)
    requires Sendable(c)
    ensures Parse(Line(c)) == (true, Meaning(c))
  {
    match c {
      case RingCmd(id, r, g, b, brightness) => RingLineParses(id, r, g, b, brightness);
      case LampCmd(lit) => LampLineParses(lit);
    }
  }

  function AskedAll(cmds: seq<HostCmd>): (cs: seq<Rings.SetCmd>)
    ensures forall k :: 0 <= k < |cs| ==> Rings.Accepts(cs[k])
  {
    if cmds == [] then [] else AskedAll(cmds[..|cmds| - 1]) + Asked(cmds[|cmds| - 1])
  }

  /**
   What the host writes for a series of commands is framed as one line each with nothing left over,
   and the rings are ordered exactly what was asked of them.
   */
  lemma {:induction false} ScriptIsOrdered(cmds: seq<HostCmd>)
    requires forall k :: 0 <= k < |cmds| ==> Sendable(cmds[k])
    ensures Ascii(Script(cmds)) && OpenSegment(Wire(Script(cmds))) == []
    ensures |StreamEvents(Wire(Script(cmds)))| == |cmds|
    ensures Orders(StreamEvents(Wire(Script(cmds)))) == AskedAll(cmds)
  {
    if cmds != [] {
      var n := |cmds| - 1;
      ScriptIsOrdered(cmds[..n]);
      ScriptGrows(Script(cmds[..n]), cmds[n]);
    }
  }

  lemma ScriptGrows(before: string, c: HostCmd)
    requires Ascii(before) && OpenSegment(Wire(before)) == [] && Sendable(c)
    ensures Ascii(before + Text(c)) && OpenSegment(Wire(before + Text(c))) == []
    ensures |StreamEvents(Wire(before + Text(c)))| == |StreamEvents(Wire(before))| + 1
    ensures Orders(StreamEvents(Wire(before + Text(c)))) == Orders(StreamEvents(Wire(before))) + Asked(c)
  {
    LineFits(c);
    LineMeans(c);
    TextIsLine(c);
    LineOrdered(before, Line(c), c);
  }

  lemma TextIsLine(c: HostCmd)
    ensures Text(c) == Line(c) + "\n"
  {
  }

  lemma LineOrdered(before: string, line: string, c: HostCmd)
    requires Ascii(before) && OpenSegment(Wire(before)) == [] && OnOneLine(line) && 0 < |line| <= LINE_MAX
    requires Parse(line) == (true, Meaning(c))
    ensures Ascii(before + (line + "\n")) && OpenSegment(Wire(before + (line + "\n"))) == []
    ensures |StreamEvents(Wire(before + (line + "\n")))| == |StreamEvents(Wire(before))| + 1
    ensures Orders(StreamEvents(Wire(before + (line + "\n")))) == Orders(StreamEvents(Wire(before))) + Asked(c)
  {
    LineOnWire(before, line);
    LineOrders(c, line);
    OneMoreOrder(StreamEvents(Wire(before)), LineEvent.Dispatch(Wire(line)));
  }

  lemma WireOfLine(before: string, line: string)
    requires Ascii(before) && OnOneLine(line)
    ensures Ascii(before + (line + "\n"))
    ensures Wire(before + (line + "\n")) == Wire(before) + (Wire(line) + [NEWLINE])
  {
  }

  lemma LineOnWire(before: string, line: string)
    requires Ascii(before) && OpenSegment(Wire(before)) == [] && OnOneLine(line) && 0 < |line| <= LINE_MAX
    ensures Ascii(before + (line + "\n")) && OpenSegment(Wire(before + (line + "\n"))) == []
    ensures StreamEvents(Wire(before + (line + "\n")))
         == StreamEvents(Wire(before)) + [LineEvent.Dispatch(Wire(line))]
  {
    OneLineWire(line);
    ShortLine(Wire(before), Wire(line));
    assert Wire(before) + Wire(line) + [NEWLINE] == Wire(before) + (Wire(line) + [NEWLINE]);
    WireOfLine(before, line);
  }

  /** Each ring ends up with the last colour asked for it. */
  lemma {:induction false} AskedFolds(log: seq<Rings.SetCmd>, cmds: seq<HostCmd>, i: int)
    requires forall k :: 0 <= k < |log| ==> Rings.Accepts(log[k])
    requires 0 <= i < Rings.RING_COUNT
    ensures forall k :: 0 <= k < |log + AskedAll(cmds)| ==> Rings.Accepts((log + AskedAll(cmds))[k])
    ensures Rings.Fold(log + AskedAll(cmds), i) == LastFor(cmds, i, Rings.Fold(log, i))
  {
    if cmds == [] {
      assert log + [] == log;
    } else {
      var n := |cmds| - 1;
      AskedFolds(log, cmds[..n], i);
      assert log + AskedAll(cmds) == log + AskedAll(cmds[..n]) + Asked(cmds[n]);
      OneMoreFold(log + AskedAll(cmds[..n]), cmds[n], i);
    }
  }

  lemma OneMoreFold(log: seq<Rings.SetCmd>, c: HostCmd, i: int)
    requires forall k :: 0 <= k < |log| ==> Rings.Accepts(log[k])
    ensures forall k :: 0 <= k < |log + Asked(c)| ==> Rings.Accepts((log + Asked(c))[k])
    ensures Rings.Fold(log + Asked(c), i) ==
      if c.RingCmd? && c.id == i + 1 && 0 <= i < Rings.RING_COUNT
      then Rings.RingState(Clamp8(c.r), Clamp8(c.g), Clamp8(c.b), Clamp8(c.brightness))
      else Rings.Fold(log, i)
  {
    if Asked(c) == [] {
      assert log + Asked(c) == log;
    } else {
      assert (log + Asked(c))[..|log|] == log;
    }
  }

  lemma {:induction false} OrdersConcat(a: seq<LineEvent>, b: seq<LineEvent>)
    ensures Orders(a + b) == Orders(a) + Orders(b)
    decreases |b|
  {
    if b == [] {
      assert a + b == a;
    } else {
      var n := |b| - 1;
      assert a + b == a + b[..n] + [b[n]];
      OrdersConcat(a, b[..n]);
      OneMoreOrder(a + b[..n], b[n]);
    }
  }

  /**
   End to end: whatever commands a host prints, in whatever colours, each ring's state becomes the
   last one sent to it, clamped; commands for other rings and for the lamp leave it as `events` did.
   */
  lemma ScriptIsObeyed(events: seq<LineEvent>, cmds: seq<HostCmd>, i: int)
    requires forall k :: 0 <= k < |cmds| ==> Sendable(cmds[k])
    requires 0 <= i < Rings.RING_COUNT
    ensures Ascii(Script(cmds))
    ensures Rings.Fold(Orders(events + StreamEvents(Wire(Script(cmds)))), i)
         == LastFor(cmds, i, Rings.Fold(Orders(events), i))
  {
    ScriptIsOrdered(cmds);
    OrdersConcat(events, StreamEvents(Wire(Script(cmds))));
    AskedFolds(Orders(events), cmds, i);
  }
}
