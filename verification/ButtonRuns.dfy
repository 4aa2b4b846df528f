/** The debouncer over whole runs. */
module ButtonRuns {
  import opened Buttons
  import opened Wrappers

  /** A call of `buttons_update` at time `at` on an unbounded clock, or a new debounce window. */
  datatype Input = Sampled(raw: Raw, at: nat, max: int) | Configured(ms: nat)

  function Next(wrapped: bool, s: Bank, x: Input): (Bank, seq<BtnEvent>) {
    match x
    case Sampled(raw, at, max) => Update(wrapped, s, raw, at, max)
    case Configured(ms) => (s.(debounce := ms), [])
  }

  /** The state after a run and the events of each of its inputs. */
  function Run(wrapped: bool, s: Bank, xs: seq<Input>): (r: (Bank, seq<seq<BtnEvent>>))
    ensures |r.1| == |xs|
    decreases |xs|
  {
    if xs == [] then (s, [])
    else
      var (s1, evs) := Next(wrapped, s, xs[0]);
      var (s2, rest) := Run(wrapped, s1, xs[1..]);
      (s2, [evs] + rest)
  }

  // ---- wrapping clocks refine unbounded ones ----

  /** The first call takes the levels as they are: a button held at power-on causes no event. */
  lemma SeedIsSilent(wrapped: bool, s: Bank, raw: Raw, t: nat, max: int)
    requires !s.initialized
    ensures var (n, evs) := Update(wrapped, s, raw, t, max);
            && evs == [] && n.initialized && n.debounce == s.debounce
            && n.b0.stable == raw.r0 == n.b0.rawLast && n.b1.stable == raw.r1 == n.b1.rawLast
  {
  }

  /** A call never reports more than the caller has room for. */
  lemma RoomIsKept(wrapped: bool, s: Bank, raw: Raw, t: nat, max: int)
    ensures |Update(wrapped, s, raw, t, max).1| <= if max < 0 then 0 else max
  {
  }

  /** The device's button holds the same levels, and the same time on its wrapped clock. */
  predicate Mirrors(d: Button, i: Button) {
    d.stable == i.stable && d.rawLast == i.rawLast && d.since == i.since % CLOCK
  }

  predicate BankMirrors(d: Bank, i: Bank) {
    d.initialized == i.initialized && d.debounce == i.debounce
    && (i.initialized ==> Mirrors(d.b0, i.b0) && Mirrors(d.b1, i.b1))
  }

  lemma WrappedDifference(now: nat, since: nat)
    requires since <= now < since + CLOCK
    ensures (now % CLOCK - since % CLOCK) % CLOCK == now - since
  {
    assert now == now / CLOCK * CLOCK + now % CLOCK;
    assert since == since / CLOCK * CLOCK + since % CLOCK;
  }

  /** A sample is judged alike unless it is pending for longer than the clock can tell. */
  lemma SampleMirrors(d: Button, i: Button, raw: bool, t: nat, debounce: nat, room: bool)
    requires Mirrors(d, i) && i.since <= t
    requires raw == i.rawLast && raw != i.stable ==> t < i.since + CLOCK
    ensures var (d', e) := Sample(true, d, raw, t, debounce, room);
            var (i', f) := Sample(false, i, raw, t, debounce, room);
            Mirrors(d', i') && e == f && i'.since <= t
  {
    var l := Latch(i, raw, t);
    if raw != i.stable {
      WrappedDifference(t, l.since);
    }
  }

  /** A level that is still pending has been so for less than the largest window. */
  predicate Settled(b: Button, last: nat) {
    b.since <= last && (b.rawLast != b.stable ==> last - b.since < DEBOUNCE_LIMIT)
  }

  predicate BankSettled(s: Bank, last: nat) {
    s.debounce < DEBOUNCE_LIMIT && (s.initialized ==> Settled(s.b0, last) && Settled(s.b1, last))
  }

  lemma SampleSettles(b: Button, raw: bool, t: nat, debounce: nat)
    requires b.since <= t && debounce < DEBOUNCE_LIMIT
    ensures Settled(Sample(false, b, raw, t, debounce, true).0, t)
  {
  }

  /** Room for both events, legal windows, and calls less than 2^32 - 65536 ms apart. */
  predicate Spaced(last: nat, xs: seq<Input>)
    decreases |xs|
  {
    xs != [] ==>
      match xs[0]
      case Sampled(_, at, max) => last <= at < last + CLOCK - DEBOUNCE_LIMIT && max >= BTN_COUNT && Spaced(at, xs[1..])
      case Configured(ms) => ms < DEBOUNCE_LIMIT && Spaced(last, xs[1..])
  }

  lemma UpdateMirrors(d: Bank, i: Bank, raw: Raw, last: nat, t: nat, max: int)
    requires BankMirrors(d, i) && BankSettled(i, last)
    requires last <= t < last + CLOCK - DEBOUNCE_LIMIT && max >= BTN_COUNT
    ensures Update(true, d, raw, t, max).1 == Update(false, i, raw, t, max).1
    ensures BankMirrors(Update(true, d, raw, t, max).0, Update(false, i, raw, t, max).0)
    ensures BankSettled(Update(false, i, raw, t, max).0, t)
  {
    if i.initialized {
      SampleMirrors(d.b0, i.b0, raw.r0, t, i.debounce, true);
      SampleMirrors(d.b1, i.b1, raw.r1, t, i.debounce, true);
      SampleSettles(i.b0, raw.r0, t, i.debounce);
      SampleSettles(i.b1, raw.r1, t, i.debounce);
    }
  }

  /**
   With timestamps reduced modulo 2^32 the device reports, call by call, exactly the events of the
   specification on an unbounded clock, through any changes of the debounce window.
   */
  lemma {:induction false} WrappingRefines(d: Bank, i: Bank, last: nat, xs: seq<Input>)
    requires BankMirrors(d, i) && BankSettled(i, last) && Spaced(last, xs)
    ensures Run(true, d, xs).1 == Run(false, i, xs).1
    ensures BankMirrors(Run(true, d, xs).0, Run(false, i, xs).0)
    decreases |xs|
  {
    if xs != [] {
      match xs[0]
      case Sampled(raw, at, max) =>
        UpdateMirrors(d, i, raw, last, at, max);
        WrappingRefines(Update(true, d, raw, at, max).0, Update(false, i, raw, at, max).0, at, xs[1..]);
      case Configured(ms) =>
        WrappingRefines(d.(debounce := ms), i.(debounce := ms), last, xs[1..]);
    }
  }

  // ---- no edge is lost or invented ----

  /** The edges of button `id` among some events. */
  function EdgesOf(id: int, evs: seq<BtnEvent>): seq<bool>
    decreases |evs|
  {
    if evs == [] then []
    else (if evs[0].id == id then [evs[0].pressed] else []) + EdgesOf(id, evs[1..])
  }

  /** The edges of button `id` over a run. */
  function AllEdges(id: int, out: seq<seq<BtnEvent>>): seq<bool>
    decreases |out|
  {
    if out == [] then [] else EdgesOf(id, out[0]) + AllEdges(id, out[1..])
  }

  /** Starting from `level`, the edges alternate and end at `final`. */
  predicate Replays(level: bool, edges: seq<bool>, final: bool)
    decreases |edges|
  {
    if edges == [] then level == final else edges[0] != level && Replays(edges[0], edges[1..], final)
  }

  lemma {:induction false} ReplaysConcat(a: bool, xs: seq<bool>, b: bool, ys: seq<bool>, c: bool)
    requires Replays(a, xs, b) && Replays(b, ys, c)
    ensures Replays(a, xs + ys, c)
    decreases |xs|
  {
    if xs == [] {
      assert xs + ys == ys;
    } else {
      assert (xs + ys)[1..] == xs[1..] + ys;
      ReplaysConcat(xs[0], xs[1..], b, ys, c);
    }
  }

  function Stable(s: Bank, id: int): bool { if id == 1 then s.b0.stable else s.b1.stable }

  lemma SampleReplays(wrapped: bool, b: Button, raw: bool, t: nat, debounce: nat, room: bool)
    ensures var (b', e) := Sample(wrapped, b, raw, t, debounce, room);
            Replays(b.stable, if e.Some? then [e.value] else [], b'.stable)
  {
  }

  lemma ReportedEdges(e0: Option<bool>, e1: Option<bool>)
    ensures EdgesOf(1, Report(1, e0) + Report(2, e1)) == if e0.Some? then [e0.value] else []
    ensures EdgesOf(2, Report(1, e0) + Report(2, e1)) == if e1.Some? then [e1.value] else []
  {
    var evs := Report(1, e0) + Report(2, e1);
    OneReport(2, e1, 1);
    OneReport(2, e1, 2);
    if e0.Some? {
      assert evs[0] == BtnEvent(1, e0.value) && evs[1..] == Report(2, e1);
    } else {
      assert evs == Report(2, e1);
    }
  }

  lemma OneReport(id: int, e: Option<bool>, wanted: int)
    ensures EdgesOf(wanted, Report(id, e)) == if e.Some? && id == wanted then [e.value] else []
  {
    if e.Some? {
      assert Report(id, e)[1..] == [];
    }
  }

  lemma UpdateReplays(wrapped: bool, s: Bank, raw: Raw, t: nat, max: int, id: int)
    requires s.initialized && (id == 1 || id == 2)
    ensures var (s', evs) := Update(wrapped, s, raw, t, max);
            s'.initialized && Replays(Stable(s, id), EdgesOf(id, evs), Stable(s', id))
  {
    var (b0, e0) := Sample(wrapped, s.b0, raw.r0, t, s.debounce, 0 < max);
    var (b1, e1) := Sample(wrapped, s.b1, raw.r1, t, s.debounce, Count(e0) < max);
    ReportedEdges(e0, e1);
    SampleReplays(wrapped, s.b0, raw.r0, t, s.debounce, 0 < max);
    SampleReplays(wrapped, s.b1, raw.r1, t, s.debounce, Count(e0) < max);
  }

  /**
   For any samples, any room for events and any windows, on either clock: a button's edges alternate,
   and replaying them from its seeded level gives its present one.
   */
  lemma {:induction false} EdgesReplay(wrapped: bool, s: Bank, xs: seq<Input>, id: int)
    requires s.initialized && (id == 1 || id == 2)
    ensures Replays(Stable(s, id), AllEdges(id, Run(wrapped, s, xs).1), Stable(Run(wrapped, s, xs).0, id))
    decreases |xs|
  {
    if xs != [] {
      var (s1, evs) := Next(wrapped, s, xs[0]);
      if xs[0].Sampled? {
        UpdateReplays(wrapped, s, xs[0].raw, xs[0].at, xs[0].max, id);
      }
      EdgesReplay(wrapped, s1, xs[1..], id);
      var (s2, rest) := Run(wrapped, s1, xs[1..]);
      assert Run(wrapped, s, xs).1 == [evs] + rest && ([evs] + rest)[1..] == rest;
      ReplaysConcat(Stable(s, id), EdgesOf(id, evs), Stable(s1, id), AllEdges(id, rest), Stable(s2, id));
    }
  }

  // ---- timing of the edges ----

  /** What one button sees of a call. */
  datatype Tick = Tick(raw: bool, at: nat, room: bool)

  function Sampled1(b: Button, x: Tick, d: nat): (Button, Option<bool>) {
    Sample(true, b, x.raw, x.at, d, x.room)
  }

  function After(b: Button, xs: seq<Tick>, d: nat): Button
    decreases |xs|
  {
    if xs == [] then b else After(Sampled1(b, xs[0], d).0, xs[1..], d)
  }

  function EdgeAt(b: Button, xs: seq<Tick>, d: nat, k: nat): Option<bool>
    requires k < |xs|
  {
    Sampled1(After(b, xs[..k], d), xs[k], d).1
  }

  /** Times never go back, and the whole run is shorter than the clock's period. */
  predicate Ordered(t0: nat, xs: seq<Tick>) {
    && (forall i :: 0 <= i < |xs| ==> t0 <= xs[i].at < t0 + CLOCK)
    && (forall i, j :: 0 <= i <= j < |xs| ==> xs[i].at <= xs[j].at)
  }

  lemma {:induction false} AfterSnoc(b: Button, xs: seq<Tick>, x: Tick, d: nat)
    ensures After(b, xs + [x], d) == Sampled1(After(b, xs, d), x, d).0
    decreases |xs|
  {
    if xs == [] {
      assert xs + [x] == [x] && [x][1..] == [];
    } else {
      assert (xs + [x])[1..] == xs[1..] + [x];
      AfterSnoc(Sampled1(b, xs[0], d).0, xs[1..], x, d);
    }
  }

  /** Since `since` every sample had the last raw level; while it is pending no edge came later. */
  ghost predicate History(b0: Button, xs: seq<Tick>, d: nat, since: nat) {
    var b := After(b0, xs, d);
    && b.since == since % CLOCK
    && (forall j :: 0 <= j < |xs| && xs[j].at > since ==> xs[j].raw == b.rawLast)
    && (b.rawLast != b.stable ==> forall j :: 0 <= j < |xs| && EdgeAt(b0, xs, d, j).Some? ==> xs[j].at <= since)
  }

  lemma {:induction false} HistoryHolds(level: bool, t0: nat, xs: seq<Tick>, d: nat) returns (since: nat)
    requires Ordered(t0, xs)
    ensures t0 <= since && History(Button(level, level, t0 % CLOCK), xs, d, since)
    ensures xs == [] || since <= xs[|xs| - 1].at
    ensures xs == [] ==> since == t0
    decreases |xs|
  {
    if xs == [] {
      since := t0;
    } else {
      var n := |xs| - 1;
      var before := HistoryHolds(level, t0, xs[..n], d);
      since := HistoryNext(Button(level, level, t0 % CLOCK), xs, d, before);
    }
  }

  lemma HistoryNext(b0: Button, xs: seq<Tick>, d: nat, before: nat) returns (since: nat)
    requires xs != [] && History(b0, xs[..|xs| - 1], d, before) && before <= xs[|xs| - 1].at
    requires forall j :: 0 <= j < |xs| ==> xs[j].at <= xs[|xs| - 1].at
    ensures before <= since <= xs[|xs| - 1].at && History(b0, xs, d, since)
  {
    var ys, x := xs[..|xs| - 1], xs[|xs| - 1];
    assert xs == ys + [x];
    since := if x.raw != After(b0, ys, d).rawLast then x.at else before;
    HistoryStep(b0, ys, x, d, before);
  }

  lemma HistoryStep(b0: Button, ys: seq<Tick>, x: Tick, d: nat, before: nat)
    requires History(b0, ys, d, before) && forall j :: 0 <= j < |ys| ==> ys[j].at <= x.at
    ensures History(b0, ys + [x], d, if x.raw != After(b0, ys, d).rawLast then x.at else before)
  {
    var b, xs := After(b0, ys, d), ys + [x];
    AfterSnoc(b0, ys, x, d);
    SameEdges(b0, ys, x, d);
    assert xs[..|ys|] == ys;
    if x.raw == b.rawLast && EdgeAt(b0, xs, d, |ys|).Some? {
      assert After(b0, xs, d).rawLast == After(b0, xs, d).stable;
    }
  }

  lemma SameEdges(b0: Button, ys: seq<Tick>, x: Tick, d: nat)
    ensures forall j :: 0 <= j < |ys| ==> EdgeAt(b0, ys + [x], d, j) == EdgeAt(b0, ys, d, j)
  {
    forall j | 0 <= j < |ys|
      ensures EdgeAt(b0, ys + [x], d, j) == EdgeAt(b0, ys, d, j)
    {
      assert (ys + [x])[..j] == ys[..j];
    }
  }

  /** An edge comes only after its level has been pending for the whole window. */
  lemma EdgeIsDue(level: bool, t0: nat, xs: seq<Tick>, d: nat, k: nat) returns (since: nat)
    requires Ordered(t0, xs) && k < |xs|
    requires EdgeAt(Button(level, level, t0 % CLOCK), xs, d, k) == Some(xs[k].raw)
    ensures History(Button(level, level, t0 % CLOCK), xs[..k], d, since)
    ensures var b := After(Button(level, level, t0 % CLOCK), xs[..k], d);
            && xs[k].raw != b.stable
            && (d == 0 || (xs[k].raw == b.rawLast && since + d <= xs[k].at))
  {
    var b0 := Button(level, level, t0 % CLOCK);
    since := HistoryHolds(level, t0, xs[..k], d);
    assert since <= xs[k].at;
    WrappedDifference(xs[k].at, since);
    WrappedDifference(xs[k].at, xs[k].at);
  }

  /** One button's edges: the level was held throughout the window, and edges keep the window apart. */
  lemma ButtonTiming(level: bool, t0: nat, xs: seq<Tick>, d: nat, j: nat, k: nat)
    requires Ordered(t0, xs) && j <= k < |xs|
    requires EdgeAt(Button(level, level, t0 % CLOCK), xs, d, k).Some?
    ensures xs[k].at - xs[j].at < d ==> Some(xs[j].raw) == EdgeAt(Button(level, level, t0 % CLOCK), xs, d, k)
    ensures j < k && EdgeAt(Button(level, level, t0 % CLOCK), xs, d, j).Some? ==> xs[j].at + d <= xs[k].at
  {
    var b0 := Button(level, level, t0 % CLOCK);
    var since := EdgeIsDue(level, t0, xs, d, k);
    if j < k {
      assert xs[..k][j] == xs[j] && xs[..k][..j] == xs[..j];
      assert EdgeAt(b0, xs[..k], d, j) == EdgeAt(b0, xs, d, j);
    }
  }

  function Level(raw: Raw, id: int): bool { if id == 1 then raw.r0 else raw.r1 }

  function ButtonOf(s: Bank, id: int): Button { if id == 1 then s.b0 else s.b1 }

  predicate AllSampled(xs: seq<Input>) { forall i :: 0 <= i < |xs| ==> xs[i].Sampled? }

  /** What button `id` sees of a call: the second button has room for what the first one leaves. */
  function TickOf(s: Bank, x: Input, id: int): Tick
    requires x.Sampled?
  {
    var e0 := Sample(true, s.b0, x.raw.r0, x.at, s.debounce, 0 < x.max).1;
    Tick(Level(x.raw, id), x.at, if id == 1 then 0 < x.max else Count(e0) < x.max)
  }

  function TicksOf(s: Bank, xs: seq<Input>, id: int): (ts: seq<Tick>)
    requires AllSampled(xs)
    ensures |ts| == |xs|
    ensures forall i :: 0 <= i < |xs| ==> ts[i].at == xs[i].at && ts[i].raw == Level(xs[i].raw, id)
    decreases |xs|
  {
    if xs == [] then [] else [TickOf(s, xs[0], id)] + TicksOf(Next(true, s, xs[0]).0, xs[1..], id)
  }

  /** A bank just seeded at time `t0`. */
  function Seeded(r0: bool, r1: bool, t0: nat, d: nat): Bank {
    Bank(true, d, Button(r0, r0, t0 % CLOCK), Button(r1, r1, t0 % CLOCK))
  }

  predicate OrderedCalls(t0: nat, xs: seq<Input>)
    requires AllSampled(xs)
  {
    && (forall i :: 0 <= i < |xs| ==> t0 <= xs[i].at < t0 + CLOCK)
    && (forall i, l :: 0 <= i <= l < |xs| ==> xs[i].at <= xs[l].at)
  }

  lemma TicksOrdered(s: Bank, xs: seq<Input>, id: int, t0: nat, ts: seq<Tick>)
    requires AllSampled(xs) && OrderedCalls(t0, xs) && ts == TicksOf(s, xs, id)
    ensures Ordered(t0, ts)
  {
  }

  lemma OneCall(s: Bank, x: Input, id: int)
    requires s.initialized && x.Sampled? && (id == 1 || id == 2)
    ensures var (s', evs) := Next(true, s, x);
            var (b, e) := Sampled1(ButtonOf(s, id), TickOf(s, x, id), s.debounce);
            && s'.initialized && s'.debounce == s.debounce && ButtonOf(s', id) == b
            && EdgesOf(id, evs) == if e.Some? then [e.value] else []
  {
    var (b0, e0) := Sample(true, s.b0, x.raw.r0, x.at, s.debounce, 0 < x.max);
    var (b1, e1) := Sample(true, s.b1, x.raw.r1, x.at, s.debounce, Count(e0) < x.max);
    ReportedEdges(e0, e1);
  }

  /** The edges the bank reports for a button are those of the button on its own. */
  lemma {:induction false} EdgesAreTheButtons(s: Bank, xs: seq<Input>, id: int, k: nat)
    requires s.initialized && AllSampled(xs) && (id == 1 || id == 2) && k < |xs|
    ensures var e := EdgeAt(ButtonOf(s, id), TicksOf(s, xs, id), s.debounce, k);
            EdgesOf(id, Run(true, s, xs).1[k]) == if e.Some? then [e.value] else []
    decreases |xs|
  {
    var ts := TicksOf(s, xs, id);
    OneCall(s, xs[0], id);
    OutputShift(true, s, xs, k);
    if k > 0 {
      var s1 := Next(true, s, xs[0]).0;
      EdgesAreTheButtons(s1, xs[1..], id, k - 1);
      assert ts[1..] == TicksOf(s1, xs[1..], id);
      EdgeShift(ButtonOf(s, id), ts, s.debounce, k);
    }
  }

  lemma OutputShift(wrapped: bool, s: Bank, xs: seq<Input>, k: nat)
    requires k < |xs|
    ensures Run(wrapped, s, xs).1[k] ==
      if k == 0 then Next(wrapped, s, xs[0]).1 else Run(wrapped, Next(wrapped, s, xs[0]).0, xs[1..]).1[k - 1]
  {
  }

  lemma EdgeShift(b: Button, ts: seq<Tick>, d: nat, k: nat)
    requires 0 < k < |ts|
    ensures EdgeAt(b, ts, d, k) == EdgeAt(Sampled1(b, ts[0], d).0, ts[1..], d, k - 1)
  {
    assert ts[..k][1..] == ts[1..][..k - 1];
  }

  /**
   Under a constant window `d`, with times that never go back and a run shorter than 2^32 ms: when a
   button reports an edge, every sample less than `d` ms before it had the new level, and every
   earlier edge of that button is at least `d` ms old.
   */
  lemma EdgesAreTimed(r0: bool, r1: bool, t0: nat, d: nat, xs: seq<Input>, id: int, j: nat, k: nat)
    requires AllSampled(xs) && OrderedCalls(t0, xs) && (id == 1 || id == 2) && j <= k < |xs|
    requires EdgesOf(id, Run(true, Seeded(r0, r1, t0, d), xs).1[k]) != []
    ensures var out := Run(true, Seeded(r0, r1, t0, d), xs).1;
            && (xs[k].at - xs[j].at < d ==> EdgesOf(id, out[k]) == [Level(xs[j].raw, id)])
            && (j < k && EdgesOf(id, out[j]) != [] ==> xs[j].at + d <= xs[k].at)
  {
    var s := Seeded(r0, r1, t0, d);
    TicksOrdered(s, xs, id, t0, TicksOf(s, xs, id));
    EdgesAreTheButtons(s, xs, id, j);
    EdgesAreTheButtons(s, xs, id, k);
    ButtonTiming(Level(Raw(r0, r1), id), t0, TicksOf(s, xs, id), d, j, k);
  }

  /** While the level stays the same, so does the time it is pending since. */
  lemma {:induction false} StaysLatched(b: Button, xs: seq<Tick>, d: nat, v: bool)
    requires b.rawLast == v && forall i :: 0 <= i < |xs| ==> xs[i].raw == v
    ensures After(b, xs, d).rawLast == v && After(b, xs, d).since == b.since
    decreases |xs|
  {
    if xs != [] {
      StaysLatched(Sampled1(b, xs[0], d).0, xs[1..], d, v);
    }
  }

  lemma {:induction false} AfterConcat(b: Button, xs: seq<Tick>, ys: seq<Tick>, d: nat)
    ensures After(b, xs + ys, d) == After(After(b, xs, d), ys, d)
    decreases |xs|
  {
    if xs == [] {
      assert xs + ys == ys;
    } else {
      assert (xs + ys)[1..] == xs[1..] + ys;
      AfterConcat(Sampled1(b, xs[0], d).0, xs[1..], ys, d);
    }
  }

  lemma PendingSince(level: bool, t0: nat, xs: seq<Tick>, d: nat, j: nat, v: bool) returns (since: nat)
    requires Ordered(t0, xs) && j < |xs| && forall i :: j <= i < |xs| ==> xs[i].raw == v
    ensures t0 <= since <= xs[j].at
    ensures var b := After(Button(level, level, t0 % CLOCK), xs, d); b.rawLast == v && b.since == since % CLOCK
  {
    var b0 := Button(level, level, t0 % CLOCK);
    since := HistoryHolds(level, t0, xs[..j + 1], d);
    assert xs[..j + 1] == xs[..j] + [xs[j]];
    AfterSnoc(b0, xs[..j], xs[j], d);
    assert xs == xs[..j + 1] + xs[j + 1..];
    AfterConcat(b0, xs[..j + 1], xs[j + 1..], d);
    StaysLatched(After(b0, xs[..j + 1], d), xs[j + 1..], d, v);
  }

  /** A level held for the whole window is the debounced one, if the last call had room to say so. */
  lemma HeldLevelCommits(level: bool, t0: nat, xs: seq<Tick>, x: Tick, d: nat, j: nat)
    requires Ordered(t0, xs + [x]) && j < |xs| && forall i :: j <= i < |xs| ==> xs[i].raw == x.raw
    requires x.room && xs[j].at + d <= x.at
    ensures After(Button(level, level, t0 % CLOCK), xs + [x], d).stable == x.raw
  {
    assert forall i :: 0 <= i < |xs| ==> (xs + [x])[i] == xs[i];
    var n := |xs|;
    assert (xs + [x])[n] == x;
    var since := PendingSince(level, t0, xs, d, j, x.raw);
    AfterSnoc(Button(level, level, t0 % CLOCK), xs, x, d);
    WrappedDifference(x.at, since);
  }

  lemma {:induction false} StateIsTheButtons(s: Bank, xs: seq<Input>, id: int)
    requires s.initialized && AllSampled(xs) && (id == 1 || id == 2)
    ensures ButtonOf(Run(true, s, xs).0, id) == After(ButtonOf(s, id), TicksOf(s, xs, id), s.debounce)
    decreases |xs|
  {
    if xs != [] {
      var s1, ts := Next(true, s, xs[0]).0, TicksOf(s, xs, id);
      OneCall(s, xs[0], id);
      StateIsTheButtons(s1, xs[1..], id);
      assert ts[0] == TickOf(s, xs[0], id) && ts[1..] == TicksOf(s1, xs[1..], id);
    }
  }

  lemma {:induction false} RoomAt(s: Bank, xs: seq<Input>, id: int, k: nat)
    requires AllSampled(xs) && k < |xs| && xs[k].max >= BTN_COUNT
    ensures TicksOf(s, xs, id)[k].room
    decreases |xs|
  {
    if k > 0 {
      RoomAt(Next(true, s, xs[0]).0, xs[1..], id, k - 1);
    }
  }

  /** No edge is lost: a level held for the window is the reported one once a call had room. */
  lemma HeldLevelIsReported(r0: bool, r1: bool, t0: nat, d: nat, xs: seq<Input>, id: int, j: nat, v: bool)
    requires AllSampled(xs) && OrderedCalls(t0, xs) && (id == 1 || id == 2)
    requires j < |xs| - 1 && xs[|xs| - 1].max >= BTN_COUNT
    requires forall i :: j <= i < |xs| ==> Level(xs[i].raw, id) == v
    requires xs[j].at + d <= xs[|xs| - 1].at
    ensures Stable(Run(true, Seeded(r0, r1, t0, d), xs).0, id) == v
  {
    var s := Seeded(r0, r1, t0, d);
    StateIsTheButtons(s, xs, id);
    HeldInBank(s, Level(Raw(r0, r1), id), t0, xs, id, j, v);
    StableIsTheButtons(Run(true, s, xs).0, id);
  }

  lemma StableIsTheButtons(s: Bank, id: int)
    ensures Stable(s, id) == ButtonOf(s, id).stable
  {
  }

  lemma HeldInBank(s: Bank, level: bool, t0: nat, xs: seq<Input>, id: int, j: nat, v: bool)
    requires ButtonOf(s, id) == Button(level, level, t0 % CLOCK)
    requires AllSampled(xs) && OrderedCalls(t0, xs)
    requires j < |xs| - 1 && xs[|xs| - 1].max >= BTN_COUNT
    requires forall i :: j <= i < |xs| ==> Level(xs[i].raw, id) == v
    requires xs[j].at + s.debounce <= xs[|xs| - 1].at
    ensures After(ButtonOf(s, id), TicksOf(s, xs, id), s.debounce).stable == v
  {
    var ts := TicksOf(s, xs, id);
    var n := |xs| - 1;
    RoomAt(s, xs, id, n);
    assert ts[j].at == xs[j].at && ts[n].at == xs[n].at;
    TicksHeld(s, xs, id, j, v, ts);
    TicksOrdered(s, xs, id, t0, ts);
    HeldTicks(level, t0, ts, s.debounce, j, v);
  }

  lemma TicksHeld(s: Bank, xs: seq<Input>, id: int, j: nat, v: bool, ts: seq<Tick>)
    requires AllSampled(xs) && ts == TicksOf(s, xs, id)
    requires forall i :: j <= i < |xs| ==> Level(xs[i].raw, id) == v
    ensures forall i :: j <= i < |ts| ==> ts[i].raw == v
  {
  }

  lemma HeldTicks(level: bool, t0: nat, ts: seq<Tick>, d: nat, j: nat, v: bool)
    requires Ordered(t0, ts) && j < |ts| - 1 && ts[|ts| - 1].room && ts[j].at + d <= ts[|ts| - 1].at
    requires forall i :: j <= i < |ts| ==> ts[i].raw == v
    ensures After(Button(level, level, t0 % CLOCK), ts, d).stable == v
  {
    var n := |ts| - 1;
    var front := ts[..n];
    assert ts == front + [ts[n]];
    HeldLevelCommits(level, t0, front, ts[n], d, j);
  }
}
