/** Dispatching command lines. */
module App {
  import opened Bytes
  import Buttons
  import opened Protocol
  import Rings

  /** The characters of a line as C reads them: up to the first NUL. */
  function CText(bs: seq<byte>): string {
    if bs == [] || bs[0] == 0 then "" else [bs[0] as char] + CText(bs[1..])
  }

  /** Nothing behind a NUL is looked at. */
  lemma {:induction false} TextEndsAtNul(bs: seq<byte>, more: seq<byte>)
    ensures CText(bs + [0] + more) == CText(bs)
  {
    if bs == [] {
      assert (bs + [0] + more)[0] == 0;
    } else {
      assert (bs + [0] + more)[1..] == bs[1..] + [0] + more;
      TextEndsAtNul(bs[1..], more);
    }
  }

  datatype Reply = Ack(cmd: string) | Err(msg: string) | HelloLine

  function RingSet(c: Cmd): Rings.SetCmd { Rings.SetCmd(c.id - 1, c.r, c.g, c.b, c.brightness) }

  function ReplyTo(found: bool, c: Cmd): Reply {
    if !found then Err("no cmd")
    else
      match c.kind
      case Ring => if Rings.Accepts(RingSet(c)) then Ack("ring") else Err("bad ring cmd")
      case Lamp => if c.on == 0 || c.on == 1 then Ack("lamp") else Err("bad lamp cmd")
      case Config => if 1 <= c.debounceMs <= 1000 then Ack("config") else Err("bad debounce_ms")
      case Ping => Ack("ping")
      case Hello => HelloLine
      case Ota => Ack("ota")
      case _ => Err("unknown cmd")
  }

  class Application {
    const rings: Rings.Panel
    const buttons: Buttons.Debouncer
    var lamp: bool
    var updateRequested: bool

    ghost predicate Valid()
      reads this, rings, rings.st, rings.dirty, rings.shown, buttons
    {
      && rings.Valid() && rings.nleds == [16, 16]
      && buttons.Valid() && buttons.stable != rings.dirty && buttons.rawLast != rings.dirty
    }

    /** The colour order is the build's choice. */
    constructor (order: Rings.Order)
      ensures Valid() && rings.order == order && rings.log == [] && !lamp && !updateRequested && buttons.debounce == 30
    {
      rings := new Rings.Panel([16, 16], order);
      buttons := new Buttons.Debouncer(30);
      lamp, updateRequested := false, false;
    }

    /** `dispatch`: only what the command names changes, and only if it is well formed. */
    method Dispatch(line: seq<byte>) returns (reply: Reply)
      requires Valid()
      modifies this`lamp, this`updateRequested, buttons`debounce, rings`log, rings.st, rings.dirty
      ensures Valid()
      ensures reply == ReplyTo(Parse(CText(line)).0, Parse(CText(line)).1)
      ensures rings.log ==
        old(rings.log) + if reply == Ack("ring") then [RingSet(Parse(CText(line)).1)] else []
      ensures lamp == if reply == Ack("lamp") then Parse(CText(line)).1.on == 1 else old(lamp)
      ensures buttons.debounce ==
        if reply == Ack("config") then Parse(CText(line)).1.debounceMs else old(buttons.debounce)
      ensures updateRequested == (old(updateRequested) || reply == Ack("ota"))
    {
      var found, c := ProtoParse(CText(line));
      if !found {
        return Err("no cmd");
      }
      match c.kind {
        case Ring =>
          var ok := rings.Set(c.id - 1, c.r, c.g, c.b, c.brightness);
          return if ok then Ack("ring") else Err("bad ring cmd");
        case Lamp =>
          if c.on == 0 || c.on == 1 {
            lamp := c.on == 1;
            return Ack("lamp");
          }
          return Err("bad lamp cmd");
        case Config =>
          if 1 <= c.debounceMs <= 1000 {
            buttons.SetDebounce(c.debounceMs);
            return Ack("config");
          }
          return Err("bad debounce_ms");
        case Ping => return Ack("ping");
        case Hello => return HelloLine;
        case Ota =>
          updateRequested := true;
          return Ack("ota");
        case _ => return Err("unknown cmd");
      }
    }
  }
}
