/** Debounced button edges, on a millisecond clock of 32 bits. */
module Buttons {
  import opened Bytes
  import opened Wrappers

  const BTN_COUNT := 2
  const CLOCK := 0x1_0000_0000
  const DEBOUNCE_LIMIT := 0x1_0000

  datatype BtnEvent = BtnEvent(id: int, pressed: bool)

  /** One button: debounced level, last raw level, and when that last changed. */
  datatype Button = Button(stable: bool, rawLast: bool, since: nat)

  /** The clock as read: `wrapped` on the device, unbounded in the specification. */
  function Read(wrapped: bool, t: nat): nat { if wrapped then t % CLOCK else t }

  function Elapsed(wrapped: bool, now: nat, since: nat): int {
    if wrapped then (now - since) % CLOCK else now - since
  }

  /** A raw level that differs from the last one restarts the window. */
  function Latch(b: Button, raw: bool, now: nat): Button {
    if raw != b.rawLast then b.(rawLast := raw, since := now) else b
  }

  /** The edge is committed only if there is room to report it. */
  function Settle(b: Button, raw: bool, elapsed: int, debounce: nat, room: bool): (Button, Option<bool>) {
    if raw != b.stable && elapsed >= debounce && room then (b.(stable := raw), Some(raw)) else (b, None)
  }

  /** One button's part of an update at time `t`. */
  function Sample(wrapped: bool, b: Button, raw: bool, t: nat, debounce: nat, room: bool): (Button, Option<bool>) {
    var now := Read(wrapped, t);
    var l := Latch(b, raw, now);
    Settle(l, raw, Elapsed(wrapped, now, l.since), debounce, room)
  }

  datatype Bank = Bank(initialized: bool, debounce: nat, b0: Button, b1: Button)

  function Count(e: Option<bool>): nat { if e.Some? then 1 else 0 }

  function Report(id: int, e: Option<bool>): seq<BtnEvent> {
    if e.Some? then [BtnEvent(id, e.value)] else []
  }

  datatype Raw = Raw(r0: bool, r1: bool)

  /** `buttons_update`: the new state and the events, at most `max` of them. */
  function Update(wrapped: bool, s: Bank, raw: Raw, t: nat, max: int): (Bank, seq<BtnEvent>) {
    if !s.initialized then
      var now := Read(wrapped, t);
      (Bank(true, s.debounce, Button(raw.r0, raw.r0, now), Button(raw.r1, raw.r1, now)), [])
    else
      var (b0, e0) := Sample(wrapped, s.b0, raw.r0, t, s.debounce, 0 < max);
      var (b1, e1) := Sample(wrapped, s.b1, raw.r1, t, s.debounce, Count(e0) < max);
      (s.(b0 := b0, b1 := b1), Report(1, e0) + Report(2, e1))
  }

  class Debouncer {
    const stable: array<bool>
    const rawLast: array<bool>
    const rawSince: array<u32>
    var debounce: nat
    var initialized: bool

    ghost predicate Valid()
      reads this
    {
      && stable.Length == BTN_COUNT && rawLast.Length == BTN_COUNT && rawSince.Length == BTN_COUNT
      && stable != rawLast && debounce < DEBOUNCE_LIMIT
    }

    ghost function State(): Bank
      requires Valid()
      reads this, stable, rawLast, rawSince
    {
      Bank(initialized, debounce, Button(stable[0], rawLast[0], rawSince[0]),
           Button(stable[1], rawLast[1], rawSince[1]))
    }

    /** `buttons_init` */
    constructor (ms: nat)
      requires ms < DEBOUNCE_LIMIT
      ensures Valid() && fresh(stable) && fresh(rawLast) && fresh(rawSince)
      ensures State() == Bank(false, ms, Button(false, false, 0), Button(false, false, 0))
    {
      stable := new bool[BTN_COUNT](_ => false);
      rawLast := new bool[BTN_COUNT](_ => false);
      rawSince := new u32[BTN_COUNT](_ => 0);
      debounce, initialized := ms, false;
    }

    /** `buttons_set_debounce` */
    method SetDebounce(ms: nat)
      requires Valid() && ms < DEBOUNCE_LIMIT
      modifies this`debounce
      ensures Valid() && State() == old(State()).(debounce := ms)
    {
      debounce := ms;
    }

    /** The first snapshot seeds the state and reports nothing. */
    method Seed(raw: seq<bool>, now: u32)
      requires Valid() && |raw| == BTN_COUNT
      modifies this`initialized, stable, rawLast, rawSince
      ensures Valid()
      ensures State() == Bank(true, debounce, Button(raw[0], raw[0], now), Button(raw[1], raw[1], now))
    {
      for i := 0 to BTN_COUNT
        invariant forall k :: 0 <= k < i ==> stable[k] == raw[k] && rawLast[k] == raw[k] && rawSince[k] == now
      {
        stable[i] := raw[i];
        rawLast[i] := raw[i];
        rawSince[i] := now;
      }
      initialized := true;
    }

    /** The body of the loop over the buttons. */
    method UpdateOne(i: nat, raw: bool, now: u32, room: bool) returns (e: Option<bool>)
      requires Valid() && i < BTN_COUNT
      modifies stable, rawLast, rawSince
      ensures (Button(stable[i], rawLast[i], rawSince[i]), e)
           == Sample(true, old(Button(stable[i], rawLast[i], rawSince[i])), raw, now, debounce, room)
      ensures forall k :: 0 <= k < BTN_COUNT && k != i ==>
        stable[k] == old(stable[k]) && rawLast[k] == old(rawLast[k]) && rawSince[k] == old(rawSince[k])
    {
      if raw != rawLast[i] {
        rawLast[i] := raw;
        rawSince[i] := now;
      }
      e := None;
      if raw != stable[i] && (now - rawSince[i]) % CLOCK >= debounce {
        if room {
          stable[i] := raw;
          e := Some(raw);
        }
      }
    }

    /** `buttons_update` */
    method UpdateAll(raw: seq<bool>, now: u32, max: int) returns (evs: seq<BtnEvent>)
      requires Valid() && |raw| == BTN_COUNT
      modifies this`initialized, stable, rawLast, rawSince
      ensures Valid() && (State(), evs) == Update(true, old(State()), Raw(raw[0], raw[1]), now, max)
    {
      evs := [];
      if !initialized {
        Seed(raw, now);
        return;
      }
      ghost var s := State();
      ghost var (c0, e0) := Sample(true, s.b0, raw[0], now, debounce, 0 < max);
      ghost var (c1, e1) := Sample(true, s.b1, raw[1], now, debounce, Count(e0) < max);
      for i := 0 to BTN_COUNT
        invariant State() == s.(b0 := if i > 0 then c0 else s.b0, b1 := if i > 1 then c1 else s.b1)
        invariant evs == (if i > 0 then Report(1, e0) else []) + (if i > 1 then Report(2, e1) else [])
      {
        var room := |evs| < max;
        var e := UpdateOne(i, raw[i], now, room);
        assert i == 0 ==> e == e0;
        assert i == 1 ==> e == e1;
        evs := evs + Report(i + 1, e);
      }
    }
  }
}
