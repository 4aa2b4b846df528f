/** Ring colours, their rendering, and the flags that spare unchanged frames. */
module Rings {
  import opened Bytes
  import opened Wrappers

  const RING_COUNT := 2
  const RING_MAX_LEDS := 16

  datatype RingState = RingState(r: byte, g: byte, b: byte, brightness: byte)

  /** Black at full brightness. */
  const POWER_ON := RingState(0, 0, 0, 255)

  datatype SetCmd = SetCmd(idx: int, r: int, g: int, b: int, brightness: int)

  /** Absent, or a byte. */
  predicate FieldOk(v: int) { v == -1 || 0 <= v <= 255 }

  predicate Accepts(c: SetCmd) {
    0 <= c.idx < RING_COUNT && FieldOk(c.r) && FieldOk(c.g) && FieldOk(c.b) && FieldOk(c.brightness)
  }

  function Keep(v: int, before: byte): byte
    requires FieldOk(v)
  {
    if v == -1 then before else v
  }

  function Updated(s: RingState, c: SetCmd): RingState
    requires Accepts(c)
  {
    RingState(Keep(c.r, s.r), Keep(c.g, s.g), Keep(c.b, s.b), Keep(c.brightness, s.brightness))
  }

  /** The state of ring `i` after the accepted commands of `log`. */
  function Fold(log: seq<SetCmd>, i: int): RingState
    requires forall k :: 0 <= k < |log| ==> Accepts(log[k])
  {
    if log == [] then POWER_ON
    else
      var s, c := Fold(log[..|log| - 1], i), log[|log| - 1];
      if c.idx == i then Updated(s, c) else s
  }

  function Scale(c: byte, brightness: byte): byte {
    ScaleFits(c, brightness);
    (c * brightness + 127) / 255
  }

  lemma ScaleFits(c: byte, brightness: byte)
    ensures 0 <= (c * brightness + 127) / 255 <= 255
  {
    assert c * brightness <= 255 * 255;
  }

  /** Scaling is `c * brightness / 255`, rounded to the nearest; full brightness changes nothing. */
  lemma ScaleIsProportional(c: byte, brightness: byte)
    ensures c * brightness - 127 <= 255 * Scale(c, brightness) <= c * brightness + 127
    ensures Scale(c, 255) == c && Scale(c, 0) == 0
  {
  }

  /** The order in which the LEDs take their colours. */
  datatype Order = Grb | Rgb

  function PixelWord(order: Order, s: RingState): u32 {
    var g: int, r: int, b: int := Scale(s.g, s.brightness), Scale(s.r, s.brightness), Scale(s.b, s.brightness);
    if order.Grb? then g * 0x1_0000 + r * 0x100 + b else r * 0x1_0000 + g * 0x100 + b
  }

  /** What the word holds: the first colour on the wire in its top byte of three. */
  lemma PixelBytes(order: Order, s: RingState)
    ensures var p := Pack(PixelWord(order, s));
            && p[0] == Scale(s.b, s.brightness) && p[3] == 0
            && (order == Grb ==> p[2] == Scale(s.g, s.brightness) && p[1] == Scale(s.r, s.brightness))
            && (order == Rgb ==> p[2] == Scale(s.r, s.brightness) && p[1] == Scale(s.g, s.brightness))
  {
    var g, r, b := Scale(s.g, s.brightness), Scale(s.r, s.brightness), Scale(s.b, s.brightness);
    if order == Grb {
      WordBytes(g, r, b);
    } else {
      WordBytes(r, g, b);
    }
  }

  lemma WordBytes(x: byte, y: byte, z: byte)
    ensures var w: int := (x as int) * 0x1_0000 + (y as int) * 0x100 + z;
            0 <= w < 0x1_0000_0000 && Pack(w) == [z, y, x, 0]
  {
    var w := (x as int) * 0x1_0000 + (y as int) * 0x100 + z;
    assert w / 0x100 == x * 0x100 + y && w % 0x100 == z;
    assert (w / 0x100) / 0x100 == x && (w / 0x100) % 0x100 == y;
  }

  /** At full brightness the colours are shown as they are. */
  lemma FullBrightness(order: Order, s: RingState)
    requires s.brightness == 255
    ensures Pack(PixelWord(order, s)) == if order == Grb then [s.b, s.r, s.g, 0] else [s.b, s.g, s.r, 0]
  {
    ScaleIsProportional(s.r, 255);
    ScaleIsProportional(s.g, 255);
    ScaleIsProportional(s.b, 255);
    PixelBytes(order, s);
  }

  /** A ring starts dark, and a first colour without a brightness shows as sent. */
  lemma FirstColourShows(c: SetCmd, order: Order)
    requires Accepts(c) && c.r >= 0 && c.g >= 0 && c.b >= 0 && c.brightness == -1
    ensures Pack(PixelWord(order, Fold([], c.idx))) == [0, 0, 0, 0]
    ensures Pack(PixelWord(order, Fold([c], c.idx))) == if order == Grb then [c.b, c.r, c.g, 0] else [c.b, c.g, c.r, 0]
  {
    assert [c][..0] == [];
    FullBrightness(order, Fold([], c.idx));
    FullBrightness(order, Fold([c], c.idx));
  }

  /** An absent field leaves the current value; a command touches no other ring. */
  lemma AbsentFieldsStay(log: seq<SetCmd>, c: SetCmd, i: int)
    requires Accepts(c) && forall k :: 0 <= k < |log| ==> Accepts(log[k])
    ensures var was, now := Fold(log, i), Fold(log + [c], i);
            && (c.idx != i ==> now == was)
            && (c.idx == i ==>
                  && now.r == (if c.r < 0 then was.r else c.r) && now.g == (if c.g < 0 then was.g else c.g)
                  && now.b == (if c.b < 0 then was.b else c.b)
                  && now.brightness == (if c.brightness < 0 then was.brightness else c.brightness))
  {
    assert (log + [c])[..|log|] == log;
  }

  function Frame(order: Order, s: RingState, n: nat): seq<u32> { seq(n, _ => PixelWord(order, s)) }

  class Panel {
    const st: array<RingState>
    const dirty: array<bool>
    const nleds: seq<nat>
    const order: Order
    /** The frame each ring last received. */
    const shown: array<Option<seq<u32>>>
    /** The commands accepted so far. */
    ghost var log: seq<SetCmd>

    ghost predicate Valid()
      reads this, st, dirty, shown
    {
      && st.Length == RING_COUNT && dirty.Length == RING_COUNT && shown.Length == RING_COUNT
      && |nleds| == RING_COUNT
      && (forall k :: 0 <= k < |log| ==> Accepts(log[k]))
      && (forall i :: 0 <= i < RING_COUNT ==> st[i] == Fold(log, i))
      && (forall i :: 0 <= i < RING_COUNT && !dirty[i] ==> shown[i] == Some(Frame(order, st[i], nleds[i])))
    }

    /** `rings_init` */
    constructor (nleds: seq<nat>, order: Order)
      requires |nleds| == RING_COUNT
      ensures Valid() && fresh(st) && fresh(dirty) && fresh(shown) && log == []
      ensures this.nleds == nleds && this.order == order
      ensures forall i :: 0 <= i < RING_COUNT ==> dirty[i] && shown[i] == None
    {
      st := new RingState[RING_COUNT](_ => POWER_ON);
      dirty := new bool[RING_COUNT](_ => true);
      shown := new Option<seq<u32>>[RING_COUNT](_ => None);
      this.nleds := nleds;
      this.order := order;
      log := [];
    }

    /** `rings_set` */
    method Set(idx: int, r: int, g: int, b: int, brightness: int) returns (ok: bool)
      requires Valid()
      modifies this`log, st, dirty
      ensures Valid() && ok == Accepts(SetCmd(idx, r, g, b, brightness))
      ensures log == if ok then old(log) + [SetCmd(idx, r, g, b, brightness)] else old(log)
      ensures forall i :: 0 <= i < RING_COUNT ==> dirty[i] == (old(dirty[i]) || st[i] != old(st[i]))
    {
      if idx < 0 || idx >= RING_COUNT {
        return false;
      }
      if !FieldOk(r) || !FieldOk(g) || !FieldOk(b) || !FieldOk(brightness) {
        return false;
      }
      var next := Merge(st[idx], r, g, b, brightness);
      Store(idx, next, SetCmd(idx, r, g, b, brightness));
      return true;
    }

    static method Merge(s: RingState, r: int, g: int, b: int, brightness: int) returns (next: RingState)
      requires FieldOk(r) && FieldOk(g) && FieldOk(b) && FieldOk(brightness)
      ensures forall idx :: 0 <= idx < RING_COUNT ==> next == Updated(s, SetCmd(idx, r, g, b, brightness))
    {
      next := s;
      if r != -1 {
        next := next.(r := r);
      }
      if g != -1 {
        next := next.(g := g);
      }
      if b != -1 {
        next := next.(b := b);
      }
      if brightness != -1 {
        next := next.(brightness := brightness);
      }
    }

    /** The flag is raised only if the state really changes. */
    method Store(idx: nat, next: RingState, ghost c: SetCmd)
      requires Valid() && idx < RING_COUNT && Accepts(c) && c.idx == idx && next == Updated(st[idx], c)
      modifies this`log, st, dirty
      ensures Valid() && log == old(log) + [c]
      ensures forall i :: 0 <= i < RING_COUNT ==> dirty[i] == (old(dirty[i]) || st[i] != old(st[i]))
    {
      if next != st[idx] {
        st[idx] := next;
        dirty[idx] := true;
      }
      assert (log + [c])[..|log|] == log;
      log := log + [c];
    }

    /** `rings_render` into `words`; -1 if there is no such ring or they are too few. */
    method Render(idx: int, colours: Order, words: array<u32>) returns (n: int)
      requires Valid()
      modifies words
      ensures n == if 0 <= idx < RING_COUNT && nleds[idx] <= words.Length then nleds[idx] else -1
      ensures n >= 0 ==> words[..n] == Frame(colours, st[idx], n)
    {
      if idx < 0 || idx >= RING_COUNT {
        return -1;
      }
      if nleds[idx] > words.Length {
        return -1;
      }
      n := nleds[idx];
      var w := PixelWord(colours, st[idx]);
      for i := 0 to n
        invariant forall k :: 0 <= k < i ==> words[k] == w
      {
        words[i] := w;
      }
    }

    /**
     `rings_flush`: afterwards every ring whose LEDs fit the buffer shows the fold of all accepted
     commands.
     */
    method Flush()
      requires Valid()
      modifies dirty, shown
      ensures Valid()
      ensures forall i :: 0 <= i < RING_COUNT && nleds[i] <= RING_MAX_LEDS ==>
        !dirty[i] && shown[i] == Some(Frame(order, Fold(log, i), nleds[i]))
      ensures forall i :: 0 <= i < RING_COUNT && nleds[i] > RING_MAX_LEDS ==>
        dirty[i] == old(dirty[i]) && shown[i] == old(shown[i])
    {
      var words := new u32[RING_MAX_LEDS];
      for i := 0 to RING_COUNT
        invariant Valid()
        invariant forall k :: 0 <= k < i && nleds[k] <= RING_MAX_LEDS ==> !dirty[k]
        invariant forall k :: 0 <= k < RING_COUNT && nleds[k] > RING_MAX_LEDS ==>
          dirty[k] == old(dirty[k]) && shown[k] == old(shown[k])
      {
        if dirty[i] {
          var n := Render(i, order, words);
          if n >= 0 {
            shown[i] := Some(words[..n]);
            dirty[i] := false;
          }
        }
      }
    }
  }
}
