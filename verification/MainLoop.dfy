/** The super-loop: receive ring, framer, dispatcher and ring flush put together. */
module MainLoop {
  import opened App
  import opened Bytes
  import opened InputPath
  import opened LineFramer
  import opened PanelProtocol
  import Rings
  import RxRing
  import opened Wrappers

  lemma Advance(events: seq<LineEvent>, k: nat)
    requires k < |events|
    ensures Orders(events[..k + 1]) == Orders(events[..k]) + Order(events[k])
    ensures Replies(events[..k + 1]) == Replies(events[..k]) + [ReplyFor(events[k])]
  {
    assert events[..k + 1] == events[..k] + [events[k]];
    OneMoreOrder(events[..k], events[k]);
    OneMoreReply(events[..k], events[k]);
  }

  class Station {
    const input: Input
    const app: Application
    /** The replies sent so far. */
    var replies: seq<Reply>

    ghost predicate Valid()
      reads this, input, input.ring, input.ring.slots, input.framer, input.framer.linebuf
      reads app, app.rings, app.rings.st, app.rings.dirty, app.rings.shown, app.buttons
    {
      input.Valid() && app.Valid()
    }

    /**
     The lines so far have been answered and obeyed in order: all of them, unless one of them asked
     for an update.
     */
    ghost predicate InStep()
      reads this, input, input.framer, app, app.rings
    {
      && Obeyed(input.framer.events, |replies|)
      && (|replies| == |input.framer.events| || app.updateRequested)
    }

    /** The first `k` of `events` have been answered and obeyed. */
    ghost predicate Obeyed(events: seq<LineEvent>, k: nat)
      reads this, app, app.rings
    {
      && k <= |events| && replies == Replies(events[..k]) && app.rings.log == Orders(events[..k])
      && (app.updateRequested <==> Ack("ota") in replies)
    }

    constructor (bursts: seq<seq<byte>>, order: Rings.Order)
      ensures Valid() && InStep() && !app.updateRequested && input.framer.events == [] && app.rings.order == order
      ensures input.mark == 0 && input.framer.before == [] && input.ring.log == RxRing.Log([], [], [], [])
    {
      input := new Input(bursts);
      app := new Application(order);
      replies := [];
    }

    method Answer(e: LineEvent)
      requires Valid()
      modifies this`replies, app, app.buttons, app.rings, app.rings.st, app.rings.dirty
      ensures Valid() && replies == old(replies) + [ReplyFor(e)]
      ensures app.rings.log == old(app.rings.log) + Order(e)
      ensures app.updateRequested == (old(app.updateRequested) || ReplyFor(e) == Ack("ota"))
    {
      var reply: Reply;
      match e {
        case Dispatch(line) => reply := app.Dispatch(line);
        case TooLong => reply := Err("line too long");
      }
      replies := replies + [reply];
    }

    method AnswerNext(k: nat)
      requires Valid() && k < |input.framer.events| && Obeyed(input.framer.events, k)
      modifies this`replies, app, app.buttons, app.rings, app.rings.st, app.rings.dirty
      ensures Valid() && Obeyed(input.framer.events, k + 1)
    {
      Advance(input.framer.events, k);
      Answer(input.framer.events[k]);
    }

    /** The lines that have just come in, up to a request for an update. */
    method Obey()
      requires Valid() && Obeyed(input.framer.events, |replies|)
      modifies this`replies, app, app.buttons, app.rings, app.rings.st, app.rings.dirty
      ensures Valid() && InStep()
    {
      var next := |replies|;
      while next < |input.framer.events| && !app.updateRequested
        invariant Valid() && Obeyed(input.framer.events, next)
      {
        AnswerNext(next);
        next := next + 1;
      }
    }

    /** What has come in does not disturb what has been obeyed. */
    method TakeIn(connects: bool)
      requires Valid() && InStep() && !app.updateRequested
      modifies input, input.ring, input.ring.slots, input.framer, input.framer.linebuf, input.rxbuf
      ensures Valid() && Obeyed(input.framer.events, |replies|)
      ensures input.Received(connects)
    {
      ghost var done := input.framer.events;
      input.Receive(connects);
      assert input.framer.events[..|done|] == done[..|done|];
    }

    method Show()
      requires Valid()
      modifies app.rings.dirty, app.rings.shown
      ensures Valid() && Shown()
    {
      app.rings.Flush();
    }

    /** Each ring shows the fold of the commands obeyed. */
    ghost predicate Shown()
      requires Valid()
      reads this, input, input.ring, input.ring.slots, input.framer, input.framer.linebuf
      reads app, app.rings, app.rings.st, app.rings.dirty, app.rings.shown, app.buttons
    {
      forall i :: 0 <= i < Rings.RING_COUNT ==>
        && !app.rings.dirty[i]
        && app.rings.shown[i] == Some(Rings.Frame(app.rings.order, Rings.Fold(app.rings.log, i), 16))
    }

    /**
     One pass of the loop: every line received so far, up to a request for an update, has been
     answered and obeyed, and each ring shows the fold of the commands obeyed.
     */
    method Pass(connects: bool)
      requires Valid() && InStep() && !app.updateRequested
      modifies this, input, input.ring, input.ring.slots, input.framer, input.framer.linebuf, input.rxbuf,
               app, app.buttons, app.rings, app.rings.st, app.rings.dirty, app.rings.shown
      ensures Valid() && InStep() && Shown()
      ensures input.Received(connects)
    {
      TakeIn(connects);
      Obey();
      Show();
    }
  }

  /**
   What the operator sees: if since the last connect the device has taken in exactly what the host
   wrote for `cmds`, then every ring shows the last colour sent to it.
   */
  lemma RingsShowLastCommands(station: Station, cmds: seq<HostCmd>, i: nat)
    requires station.Valid() && station.InStep() && station.Shown() && !station.app.updateRequested
    requires i < Rings.RING_COUNT
    requires forall k :: 0 <= k < |cmds| ==> Sendable(cmds[k])
    requires Ascii(Script(cmds)) && station.input.framer.stream == Wire(Script(cmds))
    ensures var initial := Rings.Fold(Orders(station.input.framer.before), i);
            station.app.rings.shown[i] == Some(Rings.Frame(station.app.rings.order, LastFor(cmds, i, initial), 16))
  {
    ScriptIsObeyed(station.input.framer.before, cmds, i);
    assert station.input.framer.events[..|station.replies|] == station.input.framer.events;
  }

  /** For a colour in range at full brightness: the bytes each LED of the ring was last sent. */
  lemma LedsShowLastColour(station: Station, cmds: seq<HostCmd>, r: byte, g: byte, b: byte, i: nat, k: nat)
    requires station.Valid() && station.InStep() && station.Shown() && !station.app.updateRequested
    requires i < 2 && k < 16
    requires forall j :: 0 <= j < |cmds| ==> Sendable(cmds[j])
    requires cmds != [] && cmds[|cmds| - 1] == RingCmd(i + 1, r, g, b, 255)
    requires Ascii(Script(cmds)) && station.input.framer.stream == Wire(Script(cmds))
    ensures var frame := station.app.rings.shown[i];
            && frame.Some? && |frame.value| == 16
            && Pack(frame.value[k]) == if station.app.rings.order == Rings.Grb then [b, r, g, 0] else [b, g, r, 0]
  {
    RingsShowLastCommands(station, cmds, i);
    LastIsAsSent(cmds, r, g, b, i, Rings.Fold(Orders(station.input.framer.before), i));
    WordShown(station.app.rings.shown[i], station.app.rings.order, Rings.RingState(r, g, b, 255), k);
  }

  lemma WordShown(shown: Option<seq<u32>>, order: Rings.Order, s: Rings.RingState, k: nat)
    requires shown == Some(Rings.Frame(order, s, 16)) && s.brightness == 255 && k < 16
    ensures |shown.value| == 16
    ensures Pack(shown.value[k]) == if order == Rings.Grb then [s.b, s.r, s.g, 0] else [s.b, s.g, s.r, 0]
  {
    Rings.FullBrightness(order, s);
  }

  lemma LastIsAsSent(cmds: seq<HostCmd>, r: byte, g: byte, b: byte, i: nat, initial: Rings.RingState)
    requires cmds != [] && cmds[|cmds| - 1] == RingCmd(i + 1, r, g, b, 255)
    ensures LastFor(cmds, i, initial) == Rings.RingState(r, g, b, 255)
  {
    ClampIsNearest(r);
    ClampIsNearest(g);
    ClampIsNearest(b);
    ClampIsNearest(255);
  }
}
