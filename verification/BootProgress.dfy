/** What a good image may count on: the starts that the bound allows, and to be kept once confirmed. */
module BootProgress {
  import opened BootRuns
  import opened BootState
  import opened Bootloader
  import opened Bytes
  import opened Flash
  import opened Flasher
  import opened Layout
  import opened Slot
  import opened Wrappers

  /** `r` is current and vouches for an unconfirmed image that the bootloader can start. */
  predicate Startable(f: Contents, r: Record) {
    && Newest(f) == Some(r) && r.valid == 1 && r.confirmed == 0 && r.appLen <= APP_MAX_SIZE
    && VectorTableSane(f) && ImageMatches(f, r)
  }

  lemma CommonSlice(f: seq<byte>, g: seq<byte>, n: nat, lo: nat, hi: nat)
    requires lo <= hi <= n <= |f| && n <= |g| && f[..n] == g[..n]
    ensures f[lo..hi] == g[lo..hi]
  {
    assert f[lo..hi] == f[..n][lo..hi] && g[lo..hi] == g[..n][lo..hi];
  }

  lemma SliceOfSlice(f: seq<byte>, at: nat, n: nat, lo: nat, hi: nat)
    requires at + n <= |f| && lo <= hi <= n
    ensures f[at..at + n][lo..hi] == f[at + lo..at + hi]
  {
    var s, t := f[at..at + n][lo..hi], f[at + lo..at + hi];
    assert |s| == |t| && forall i :: 0 <= i < |s| ==> s[i] == t[i];
  }

  lemma SlotKept(f: Contents, g: Contents, len: nat)
    requires f[..BOOTSTATE_A] == g[..BOOTSTATE_A] && len <= APP_MAX_SIZE
    ensures SlotBytes(g, len) == SlotBytes(f, len) && VectorTableSane(g) == VectorTableSane(f)
  {
    CommonSlice(f, g, BOOTSTATE_A, APP_OFFSET, APP_OFFSET + len);
    CommonSlice(f, g, BOOTSTATE_A, APP_VTABLE_OFFSET, APP_VTABLE_OFFSET + 4);
    CommonSlice(f, g, BOOTSTATE_A, APP_VTABLE_OFFSET + 4, APP_VTABLE_OFFSET + 8);
  }

  /** A record write leaves the image it is about in place. */
  lemma WriteKeepsSlot(f: Contents, r: Record, len: nat)
    requires len <= APP_MAX_SIZE
    ensures SlotBytes(Write(f, r), len) == SlotBytes(f, len) && VectorTableSane(Write(f, r)) == VectorTableSane(f)
  {
    WriteLands(f, r);
    BelowRecords(f, Write(f, r), Target(f).Offset());
    SlotKept(f, Write(f, r), len);
  }

  /** The current record after a write that only changes confirmation and count. */
  lemma Rewritten(f: Contents, r: Record, q: Record) returns (n: Record)
    requires Startable(f, r) && MaxSeq(f) < 0xFFFF_FFFF
    requires q.appLen == r.appLen && q.appCrc == r.appCrc
    ensures Newest(Write(f, q)) == Some(n) && n.seqNo == MaxSeq(f) + 1
    ensures n.valid == q.valid && n.confirmed == q.confirmed && n.attempts == q.attempts && n.appLen == r.appLen
    ensures VectorTableSane(Write(f, q)) && ImageMatches(Write(f, q), n)
  {
    WriteKeepsSlot(f, q, r.appLen);
    ReadBack(f, q);
    NextCarries(f, q);
    n := Next(f, q);
    PayloadFields(n, q);
  }

  lemma StartDecision(f: Contents, scratch: u32, r: Record)
    requires Startable(f, r) && r.attempts < OTA_MAX_BOOT_ATTEMPTS && scratch != OTA_ENTER_UPDATE_MAGIC
    ensures Decide(f, scratch) == Decision(true, Some(r.(attempts := r.attempts + 1)))
  {
  }

  /** A boot that has starts left spends one and leaves the image startable. */
  lemma StartSpendsOne(m: Machine, r: Record) returns (n: Record)
    requires Startable(m.flash, r) && r.attempts < OTA_MAX_BOOT_ATTEMPTS && MaxSeq(m.flash) < 0xFFFF_FFFF
    requires m.mode.Off? && m.scratch != OTA_ENTER_UPDATE_MAGIC
    ensures Enabled(m, Boot(true)) && Apply(m, Boot(true)).mode.Running?
    ensures Startable(Apply(m, Boot(true)).flash, n) && n.attempts == r.attempts + 1
    ensures MaxSeq(Apply(m, Boot(true)).flash) == MaxSeq(m.flash) + 1
  {
    var q := r.(attempts := r.attempts + 1);
    StartDecision(m.flash, m.scratch, r);
    n := Rewritten(m.flash, r, q);
    NewestNumber(Write(m.flash, q));
  }

  lemma NewestNumber(f: Contents)
    requires Newest(f).Some?
    ensures Newest(f).value.seqNo == MaxSeq(f)
  {
  }

  predicate Unconfirmed(es: seq<Event>) { forall e :: e in es ==> !IsConfirm(e) && !IsCommit(e) }

  /** The run that resets, starts the application and goes on with `rest`. */
  function Restarted(rest: seq<Event>): seq<Event> { [Reset(0), Boot(true)] + rest }

  lemma RestartedRun(m: Machine, rest: seq<Event>)
    requires Enabled(Apply(m, Reset(0)), Boot(true))
    requires RunEnabled(Apply(Apply(m, Reset(0)), Boot(true)), rest)
    ensures RunEnabled(m, Restarted(rest))
  {
    assert Restarted(rest)[1..] == [Boot(true)] + rest && Restarted(rest)[1..][1..] == rest;
  }

  lemma RestartedStarts(rest: seq<Event>)
    ensures Starts(Restarted(rest)) == Starts(rest) + 1 && (Unconfirmed(rest) ==> Unconfirmed(Restarted(rest)))
  {
    assert Restarted(rest)[1..] == [Boot(true)] + rest && Restarted(rest)[1..][1..] == rest;
  }

  lemma Restart(m: Machine, r: Record) returns (next: Machine, n: Record)
    requires Startable(m.flash, r) && r.attempts < OTA_MAX_BOOT_ATTEMPTS && MaxSeq(m.flash) < 0xFFFF_FFFF
    ensures Startable(next.flash, n) && n.attempts == r.attempts + 1 && MaxSeq(next.flash) == MaxSeq(m.flash) + 1
    ensures forall rest :: RunEnabled(next, rest) ==> RunEnabled(m, Restarted(rest))
  {
    var off := Apply(m, Reset(0));
    n := StartSpendsOne(off, r);
    next := Apply(off, Boot(true));
    forall rest | RunEnabled(next, rest)
      ensures RunEnabled(m, Restarted(rest))
    {
      RestartedRun(m, rest);
    }
  }

  /** The bound on unconfirmed starts is tight: as many starts as the count leaves do happen. */
  lemma {:induction false} StartsAvailable(m: Machine, r: Record, k: nat) returns (es: seq<Event>)
    requires Startable(m.flash, r) && r.attempts + k <= OTA_MAX_BOOT_ATTEMPTS
    requires MaxSeq(m.flash) + k <= 0xFFFF_FFFF
    ensures RunEnabled(m, es) && Starts(es) == k && Unconfirmed(es)
    decreases k
  {
    if k == 0 {
      es := [];
    } else {
      var next, n := Restart(m, r);
      var rest := StartsAvailable(next, n, k - 1);
      es := Restarted(rest);
      RestartedStarts(rest);
    }
  }

  lemma CommittedIsStartable(m: Machine, len: u32, crc: u32) returns (now: Record)
    requires Enabled(m, Commit(len, crc)) && len <= APP_MAX_SIZE && VectorTableSane(m.flash)
    requires MaxSeq(m.flash) < 0xFFFF_FFFF
    ensures Startable(Apply(m, Commit(len, crc)).flash, now) && now.attempts == 0
    ensures MaxSeq(Apply(m, Commit(len, crc)).flash) == MaxSeq(m.flash) + 1
  {
    now := CommitIsFresh(m, len, crc);
    WriteKeepsSlot(m.flash, FreshRecord(len, crc), len);
    NewestNumber(Apply(m, Commit(len, crc)).flash);
  }

  /** After every commit of an image with a sane vector table there is a run with all three starts. */
  lemma BoundIsReached(m: Machine, len: u32, crc: u32) returns (es: seq<Event>)
    requires Enabled(m, Commit(len, crc)) && len <= APP_MAX_SIZE && VectorTableSane(m.flash)
    requires MaxSeq(m.flash) + 1 + OTA_MAX_BOOT_ATTEMPTS <= 0xFFFF_FFFF
    ensures RunEnabled(Apply(m, Commit(len, crc)), es) && Unconfirmed(es) && Starts(es) == OTA_MAX_BOOT_ATTEMPTS
  {
    var now := CommittedIsStartable(m, len, crc);
    es := StartsAvailable(Apply(m, Commit(len, crc)), now, OTA_MAX_BOOT_ATTEMPTS);
  }

  // ---- a delivered image ----

  const VTABLE := 0x100

  /** The image's own vector table is sane. */
  predicate ImageSane(data: seq<byte>)
    requires |data| >= VTABLE + 8
  {
    var sp, pc := WordAt(data, 256), WordAt(data, 260);
    0x2000_0000 <= sp <= 0x2004_2000 && 0x1004_0000 <= pc < 0x103F_E000 && pc % 2 == 1
  }

  /** Four bytes from `at` on, the first one least significant. */
  function WordAt(data: seq<byte>, at: nat): int
    requires at + 4 <= |data|
  {
    data[at] as int + data[at + 1] as int * 0x100 + data[at + 2] as int * 0x1_0000 + data[at + 3] as int * 0x100_0000
  }

  lemma SaneInSlot(f: Contents, data: seq<byte>)
    requires VTABLE + 8 <= |data| <= APP_MAX_SIZE && SlotBytes(f, |data|) == data
    ensures VectorTableSane(f) == ImageSane(data)
  {
    SliceOfSlice(f, APP_OFFSET, |data|, VTABLE, VTABLE + 4);
    SliceOfSlice(f, APP_OFFSET, |data|, VTABLE + 4, VTABLE + 8);
    UnpackIsWord(data, VTABLE);
    UnpackIsWord(data, VTABLE + 4);
  }

  lemma UnpackIsWord(data: seq<byte>, at: nat)
    requires at + 4 <= |data|
    ensures Unpack(data[at..at + 4]) == WordAt(data, at)
  {
  }

  /** The last byte of the vector table is blank if the image does not reach it. */
  lemma ShortIsInsane(f: Contents, len: nat)
    requires 0 < len < VTABLE + 8 && BlankBehind(f, len)
    ensures !VectorTableSane(f)
  {
    var v := APP_VTABLE_OFFSET;
    assert f[v + 7] == ERASED;
    assert f[v + 4..v + 8][3] == f[v + 7];
  }

  /**
   What a push delivers is started by the next boot exactly if it reaches the end of the vector table
   and its vector table is sane.
   */
  lemma DeliveredImageStarts(f0: Contents, f: Contents, data: seq<byte>, scratch: u32)
    requires Delivered(f0, f, data) && data != [] && scratch != OTA_ENTER_UPDATE_MAGIC
    ensures Decide(f, scratch).start <==> |data| >= VTABLE + 8 && ImageSane(data)
    ensures |data| >= VTABLE + 8 && ImageSane(data) ==> Startable(f, Newest(f).value)
  {
    if |data| < VTABLE + 8 {
      ShortIsInsane(f, |data|);
    } else {
      SaneInSlot(f, data);
    }
  }

  lemma ConfirmKeeps(m: Machine, r: Record)
    requires Startable(m.flash, r) && m.mode.Running? && MaxSeq(m.flash) < 0xFFFF_FFFF
    ensures Healthy(Apply(m, Confirm).flash)
  {
    var n := Rewritten(m.flash, r, r.(confirmed := 1, attempts := 0));
  }

  /**
   From push to keeps: a delivered image with a sane vector table is started by the next boot, and
   once it confirms, every later boot that no update request precedes starts it, over any run without
   a further update.
   */
  lemma DeliveredImageIsKept(f0: Contents, f: Contents, data: seq<byte>, es: seq<Event>, k: nat)
    requires Delivered(f0, f, data) && VTABLE + 8 <= |data| && ImageSane(data)
    requires MaxSeq(f) + 2 <= 0xFFFF_FFFF
    ensures var started := Apply(Machine(f, 0, Off), Boot(true));
            var kept := Apply(started, Confirm);
            && Enabled(Machine(f, 0, Off), Boot(true)) && Enabled(started, Confirm)
            && (RunEnabled(kept, es) && (forall e :: e in es ==> !e.SlotChange? && !IsCommit(e))
                && k < |es| && es[k].Boot? && Run(kept, es[..k]).scratch != OTA_ENTER_UPDATE_MAGIC
                ==> es[k] == Boot(true))
  {
    DeliveredImageStarts(f0, f, data, 0);
    var n := StartSpendsOne(Machine(f, 0, Off), Newest(f).value);
    var started := Apply(Machine(f, 0, Off), Boot(true));
    ConfirmKeeps(started, n);
    var kept := Apply(started, Confirm);
    if RunEnabled(kept, es) && (forall e :: e in es ==> !e.SlotChange? && !IsCommit(e))
       && k < |es| && es[k].Boot? && Run(kept, es[..k]).scratch != OTA_ENTER_UPDATE_MAGIC {
      ConfirmedKeepsBooting(kept, es, k);
    }
  }
}
