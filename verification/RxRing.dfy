/**
 The interrupt-driven receive ring.  The interrupt handler runs to completion, but it may run
 between any two memory accesses of the code that consumes the ring.
 */
module RxRing {
  import opened Bytes
  import opened Wrappers

  const RX_RING_SIZE := 2048

  /** `(i + 1) & RX_RING_MASK` */
  function Next(i: nat): nat { (i + 1) % RX_RING_SIZE }

  lemma NextCases(i: nat)
    requires i < RX_RING_SIZE
    ensures Next(i) == if i + 1 < RX_RING_SIZE then i + 1 else 0
  {
  }

  function Used(head: nat, tail: nat): nat
    requires head < RX_RING_SIZE && tail < RX_RING_SIZE
  {
    if head >= tail then head - tail else head + RX_RING_SIZE - tail
  }

  /** The index `i` places after `tail`. */
  function Slot(tail: nat, i: nat): nat
    requires tail < RX_RING_SIZE && i < RX_RING_SIZE
  {
    if tail + i < RX_RING_SIZE then tail + i else tail + i - RX_RING_SIZE
  }

  lemma SlotShift(tail: nat, k: nat, i: nat)
    requires tail < RX_RING_SIZE && k + i < RX_RING_SIZE
    ensures Slot(Slot(tail, k), i) == Slot(tail, k + i)
  {
  }

  /** From `tail` up to `head` the slots hold `queue`, oldest first. */
  ghost predicate Holds(slots: seq<byte>, head: nat, tail: nat, queue: seq<byte>) {
    && |slots| == RX_RING_SIZE && head < RX_RING_SIZE && tail < RX_RING_SIZE && |queue| == Used(head, tail)
    && forall i :: 0 <= i < |queue| ==> slots[Slot(tail, i)] == queue[i]
  }

  /** Storing at the head of a ring that is not full overwrites no unread slot. */
  lemma Appended(slots: seq<byte>, head: nat, tail: nat, queue: seq<byte>, c: byte)
    requires Holds(slots, head, tail, queue)
    ensures Next(head) == tail <==> |queue| == RX_RING_SIZE - 1
    ensures Next(head) != tail ==> Holds(slots[head := c], Next(head), tail, queue + [c])
  {
    NextCases(head);
  }

  /** Moving the tail gives up the oldest bytes. */
  lemma GivenUp(slots: seq<byte>, head: nat, tail: nat, queue: seq<byte>, k: nat)
    requires Holds(slots, head, tail, queue) && k <= |queue|
    ensures Holds(slots, head, Slot(tail, k), queue[k..])
  {
    forall i | 0 <= i < |queue| - k
      ensures slots[Slot(Slot(tail, k), i)] == queue[k..][i]
    {
      SlotShift(tail, k, i);
    }
  }

  // ---- the queue the ring stands for ----

  datatype Fate = Delivered | Flushed

  /**
   What has come in, which of it was accepted, and what became of the accepted bytes that have been
   taken out again.
   */
  datatype Log = Log(arrivals: seq<byte>, kept: seq<bool>, accepted: seq<byte>, fates: seq<Fate>)

  /** The accepted bytes are the arrivals marked as kept, in order. */
  predicate LogOk(l: Log) {
    |l.kept| == |l.arrivals| && l.accepted == Kept(l.arrivals, l.kept) && |l.fates| <= |l.accepted|
  }

  function Kept(arrivals: seq<byte>, kept: seq<bool>): (s: seq<byte>)
    requires |arrivals| == |kept|
    ensures |s| <= |arrivals|
    ensures |s| == |arrivals| ==> s == arrivals
  {
    if arrivals == [] then []
    else
      var n := |arrivals| - 1;
      Kept(arrivals[..n], kept[..n]) + if kept[n] then [arrivals[n]] else []
  }

  /** The bytes in the queue, oldest first. */
  function Pending(l: Log): seq<byte>
    requires LogOk(l)
  {
    l.accepted[|l.fates|..]
  }

  function Dropped(l: Log): nat
    requires LogOk(l)
  {
    |l.arrivals| - |l.accepted|
  }

  /** A byte arrives at a queue of 2047. */
  function Arrived(l: Log, c: byte): (m: Log)
    requires LogOk(l)
    ensures LogOk(m)
  {
    var keep := |Pending(l)| < RX_RING_SIZE - 1;
    OneMoreKept(l.arrivals, l.kept, c, keep);
    Log(l.arrivals + [c], l.kept + [keep], l.accepted + (if keep then [c] else []), l.fates)
  }

  lemma OneMoreKept(arrivals: seq<byte>, kept: seq<bool>, c: byte, keep: bool)
    requires |arrivals| == |kept|
    ensures Kept(arrivals + [c], kept + [keep]) == Kept(arrivals, kept) + if keep then [c] else []
  {
    assert (arrivals + [c])[..|arrivals|] == arrivals && (kept + [keep])[..|kept|] == kept;
  }

  lemma ArrivedCases(l: Log, c: byte)
    requires LogOk(l)
    ensures |Pending(l)| < RX_RING_SIZE - 1 ==>
      Pending(Arrived(l, c)) == Pending(l) + [c] && Dropped(Arrived(l, c)) == Dropped(l)
    ensures |Pending(l)| >= RX_RING_SIZE - 1 ==>
      Pending(Arrived(l, c)) == Pending(l) && Dropped(Arrived(l, c)) == Dropped(l) + 1
  {
  }

  function ArrivedAll(l: Log, burst: seq<byte>): (m: Log)
    requires LogOk(l)
    ensures LogOk(m)
  {
    if burst == [] then l else Arrived(ArrivedAll(l, burst[..|burst| - 1]), burst[|burst| - 1])
  }

  function TakenOut(l: Log, k: nat, fate: Fate): (m: Log)
    requires LogOk(l) && k <= |Pending(l)|
    ensures LogOk(m)
  {
    l.(fates := l.fates + seq(k, _ => fate))
  }

  /**
   Bytes have arrived and been taken out since `l`, and none was dropped unless the queue could not
   hold what it held at `l` together with what has arrived since.
   */
  predicate Later(l: Log, m: Log)
    requires LogOk(l) && LogOk(m)
  {
    && l.accepted <= m.accepted && |l.arrivals| <= |m.arrivals| && |l.fates| <= |m.fates|
    && Dropped(l) <= Dropped(m)
    && (|Pending(l)| + |m.arrivals| - |l.arrivals| < RX_RING_SIZE ==> Dropped(m) == Dropped(l))
  }

  lemma LaterStill(l: Log, m: Log, n: Log)
    requires LogOk(l) && LogOk(m) && LogOk(n) && Later(l, m) && Later(m, n)
    ensures Later(l, n)
  {
  }

  lemma OneArrivedLater(l: Log, c: byte)
    requires LogOk(l)
    ensures Later(l, Arrived(l, c)) && Arrived(l, c).arrivals == l.arrivals + [c] && Arrived(l, c).fates == l.fates
  {
  }

  lemma {:induction false} ArrivedLater(l: Log, burst: seq<byte>)
    requires LogOk(l)
    ensures Later(l, ArrivedAll(l, burst)) && ArrivedAll(l, burst).fates == l.fates
  {
    if burst != [] {
      var n := |burst| - 1;
      var m := ArrivedAll(l, burst[..n]);
      ArrivedLater(l, burst[..n]);
      OneArrivedLater(m, burst[n]);
      LaterStill(l, m, Arrived(m, burst[n]));
    }
  }

  lemma {:induction false} ArrivedBytes(l: Log, burst: seq<byte>)
    requires LogOk(l)
    ensures ArrivedAll(l, burst).arrivals == l.arrivals + burst
  {
    if burst != [] {
      var n := |burst| - 1;
      ArrivedBytes(l, burst[..n]);
      assert burst == burst[..n] + [burst[n]];
    }
  }

  lemma TakenOutLater(l: Log, k: nat, fate: Fate)
    requires LogOk(l) && k <= |Pending(l)|
    ensures Later(l, TakenOut(l, k, fate)) && Pending(TakenOut(l, k, fate)) == Pending(l)[k..]
  {
  }

  /** Between `l` and `m` just the bytes `s` were delivered. */
  predicate Read(l: Log, m: Log, s: seq<byte>)
    requires LogOk(l) && LogOk(m)
  {
    && Later(l, m) && m.fates == l.fates + seq(|s|, _ => Delivered)
    && s == m.accepted[|l.fates|..|m.fates|]
  }

  lemma OneMoreRead(l: Log, m: Log, n: Log, s: seq<byte>, b: byte)
    requires LogOk(l) && LogOk(m) && LogOk(n) && Read(l, m, s) && Later(m, n)
    requires n.fates == m.fates + [Delivered] && b == n.accepted[|m.fates|]
    ensures Read(l, n, s + [b])
  {
    LaterStill(l, m, n);
    assert seq(|s| + 1, _ => Delivered) == seq(|s|, _ => Delivered) + [Delivered];
    assert n.accepted[|l.fates|..|m.fates|] == m.accepted[|l.fates|..|m.fates|];
  }

  /** The ring's variables stand for the queue. */
  ghost predicate Means(slots: seq<byte>, head: nat, tail: nat, overruns: nat, l: Log) {
    LogOk(l) && Holds(slots, head, tail, Pending(l)) && overruns == Dropped(l) % 0x1_0000_0000
  }

  lemma FullDrops(slots: seq<byte>, head: nat, tail: nat, overruns: nat, l: Log, c: byte)
    requires Means(slots, head, tail, overruns, l) && Next(head) == tail
    ensures Means(slots, head, tail, (overruns + 1) % 0x1_0000_0000, Arrived(l, c))
  {
    Appended(slots, head, tail, Pending(l), c);
    ArrivedCases(l, c);
  }

  lemma RoomAccepts(slots: seq<byte>, head: nat, tail: nat, overruns: nat, l: Log, c: byte)
    requires Means(slots, head, tail, overruns, l) && Next(head) != tail
    ensures Means(slots[head := c], Next(head), tail, overruns, Arrived(l, c))
  {
    Appended(slots, head, tail, Pending(l), c);
    ArrivedCases(l, c);
  }

  class RxBuffer {
    const slots: array<byte>
    var head: nat
    var tail: nat
    var overruns: u32

    /** What the UART delivers: one burst for each gap between two accesses of the consumer. */
    var bursts: seq<seq<byte>>

    ghost var log: Log

    ghost predicate Valid()
      reads this, slots
    {
      Means(slots[..], head, tail, overruns, log)
    }

    constructor (bursts: seq<seq<byte>>)
      ensures Valid() && fresh(slots) && this.bursts == bursts && log == Log([], [], [], [])
    {
      slots := new byte[RX_RING_SIZE](_ => 0);
      head, tail, overruns := 0, 0, 0;
      this.bursts := bursts;
      log := Log([], [], [], []);
    }

    /** One turn of the handler's loop: the byte is dropped only if 2047 are waiting. */
    method TakeByte(c: byte)
      requires Valid()
      modifies this`head, this`overruns, this`log, slots
      ensures Valid() && log == Arrived(old(log), c)
    {
      ghost var before := slots[..];
      var next := Next(head);
      if next == tail {
        FullDrops(before, head, tail, overruns, log, c);
        overruns := (overruns + 1) % 0x1_0000_0000;
      } else {
        RoomAccepts(before, head, tail, overruns, log, c);
        slots[head] := c;
        assert slots[..] == before[head := c];
        head := next;
      }
      log := Arrived(log, c);
    }

    /** `net_rx_irq`: the bytes arrive at a queue of 2047, one after the other. */
    method NetRxIrq(burst: seq<byte>)
      requires Valid()
      modifies this`head, this`overruns, this`log, slots
      ensures Valid() && log == ArrivedAll(old(log), burst)
    {
      var i := 0;
      while i < |burst|
        invariant Valid() && i <= |burst| && log == ArrivedAll(old(log), burst[..i])
      {
        TakeByte(burst[i]);
        assert burst[..i + 1][..i] == burst[..i];
        i := i + 1;
      }
      assert burst[..i] == burst;
    }

    /** A gap between two accesses of the consumer, in which the handler may run. */
    method Gap()
      requires Valid()
      modifies this`bursts, this`head, this`overruns, this`log, slots
      ensures Valid() && Later(old(log), log) && log.fates == old(log.fates)
      ensures log == if old(bursts) == [] then old(log) else ArrivedAll(old(log), old(bursts)[0])
    {
      if bursts != [] {
        var burst := bursts[0];
        bursts := bursts[1..];
        ArrivedLater(log, burst);
        NetRxIrq(burst);
      }
    }

    /** The load of the oldest byte: the handler cannot touch it, whenever it runs. */
    method LoadOldest() returns (b: byte)
      requires Valid() && Pending(log) != []
      modifies this`bursts, this`head, this`overruns, this`log, slots
      ensures Valid() && Later(old(log), log) && log.fates == old(log.fates) && b == log.accepted[|log.fates|]
    {
      var at := tail;
      ghost var l0 := log;
      Gap();
      ghost var l1 := log;
      assert slots[..][Slot(tail, 0)] == Pending(log)[0];
      b := slots[at];
      Gap();
      LaterStill(l0, l1, log);
    }

    /** The store to the tail that gives up the `k` oldest bytes; `h` is `k` places on. */
    method StoreTail(h: nat, ghost k: nat, ghost fate: Fate)
      requires Valid() && k <= |Pending(log)| && h == Slot(tail, k)
      modifies this`tail, this`log
      ensures Valid() && log == TakenOut(old(log), k, fate) && Later(old(log), log)
    {
      GivenUp(slots[..], head, tail, Pending(log), k);
      TakenOutLater(log, k, fate);
      tail := h;
      log := TakenOut(log, k, fate);
    }

    /** `s_rx_tail = (s_rx_tail + 1) & RX_RING_MASK` */
    method Release()
      requires Valid() && Pending(log) != []
      modifies this`bursts, this`head, this`tail, this`overruns, this`log, slots
      ensures Valid() && Later(old(log), log) && log.fates == old(log.fates) + [Delivered]
    {
      var t := tail;
      ghost var l0 := log;
      Gap();
      ghost var l1 := log;
      NextCases(t);
      StoreTail(Next(t), 1, Delivered);
      ghost var l2 := log;
      assert seq(1, _ => Delivered) == [Delivered];
      Gap();
      LaterStill(l0, l1, l2);
      LaterStill(l0, l2, log);
    }

    /** The test for an empty ring: two loads, with a gap after each. */
    method IsEmpty() returns (empty: bool)
      requires Valid()
      modifies this`bursts, this`head, this`overruns, this`log, slots
      ensures Valid() && Later(old(log), log) && log.fates == old(log.fates)
      ensures if empty then |old(log.accepted)| <= |log.fates| else Pending(log) != []
    {
      var t := tail;
      ghost var l0 := log;
      Gap();
      var h := head;
      ghost var l1 := log;
      empty := t == h;
      Gap();
      LaterStill(l0, l1, log);
    }

    /** One turn of `net_read`'s loop: the test for an empty ring, the load and the release. */
    method TakeNext() returns (got: Option<byte>)
      requires Valid()
      modifies this`bursts, this`head, this`tail, this`overruns, this`log, slots
      ensures Valid() && Later(old(log), log)
      ensures got.Some? ==> log.fates == old(log.fates) + [Delivered] && got.value == log.accepted[|old(log.fates)|]
      ensures got.None? ==> log.fates == old(log.fates) && |old(log.accepted)| <= |log.fates|
    {
      ghost var l0 := log;
      var empty := IsEmpty();
      if empty {
        return None;
      }
      ghost var l1 := log;
      var b := LoadOldest();
      ghost var l2 := log;
      Release();
      LaterStill(l0, l1, l2);
      LaterStill(l0, l2, log);
      return Some(b);
    }

    /**
     `net_read`, with the handler free to run between any two of its accesses: it delivers the next
     accepted bytes in order, and stops short of `max` only once it has delivered every byte that
     was accepted before the call.
     */
    method NetRead(buf: array<byte>, max: nat) returns (n: nat)
      requires Valid() && max <= buf.Length && buf != slots
      modifies this`bursts, this`head, this`tail, this`overruns, this`log, slots, buf
      ensures Valid() && n <= max && Read(old(log), log, buf[..n])
      ensures n == max || |old(log.accepted)| <= |log.fates|
    {
      n := 0;
      ghost var l0 := log;
      assert l0.fates + [] == l0.fates;
      while n < max
        invariant Valid() && n <= max && Read(l0, log, buf[..n])
      {
        ghost var l1, sofar := log, buf[..n];
        var got := TakeNext();
        if got.None? {
          LaterStill(l0, l1, log);
          break;
        }
        buf[n] := got.value;
        assert buf[..n + 1] == sofar + [got.value];
        OneMoreRead(l0, l1, log, sofar, got.value);
        n := n + 1;
      }
    }

    /** `net_rx_flush`: what arrives between its load and its store stays buffered. */
    method NetRxFlush() returns (ghost k: nat)
      requires Valid()
      modifies this`bursts, this`head, this`tail, this`overruns, this`log, slots
      ensures Valid() && Later(old(log), log)
      ensures |Pending(old(log))| <= k && log.fates == old(log.fates) + seq(k, _ => Flushed)
    {
      ghost var l0 := log;
      Gap();
      var h := head;
      k := Used(head, tail);
      ghost var l1 := log;
      Gap();
      ghost var l2 := log;
      StoreTail(h, k, Flushed);
      ghost var l3 := log;
      Gap();
      LaterStill(l0, l1, l2);
      LaterStill(l0, l2, l3);
      LaterStill(l0, l3, log);
    }
  }
}
