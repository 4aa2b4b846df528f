/** Boots, confirmations, updates and power cuts over whole runs. */
module BootRuns {
  import opened BootState
  import opened Bootloader
  import opened Bytes
  import opened Crc32
  import opened Flash
  import opened Layout
  import opened PowerLoss
  import opened Slot
  import opened Wrappers

  datatype Mode = Off | Recovery | Running

  datatype Machine = Machine(flash: Contents, scratch: u32, mode: Mode)

  /**
   A step of the device.  The `Cut` forms lose power inside the write of their step; `left` is what
   the interrupted write leaves behind.  `Reset` covers a power cycle, a watchdog reset and a crash.
   */
  datatype Event =
    | Boot(start: bool)
    | BootCut(left: Contents)
    | Confirm
    | ConfirmCut(left: Contents)
    | RequestUpdate
    | Reset(scratch: u32)
    | SlotChange(left: Contents)
    | Commit(len: u32, crc: u32)
    | CommitCut(len: u32, crc: u32, left: Contents)

  /** The receiver commits an image only when the slot holds bytes with its CRC. */
  predicate MayCommit(f: Contents, len: u32, crc: u32) {
    Crc(SlotBytes(f, len)) == crc
  }

  ghost predicate Enabled(m: Machine, e: Event) {
    match e
    case Boot(start) => m.mode.Off? && start == Decide(m.flash, m.scratch).start
    case BootCut(left) =>
      m.mode.Off? && var w := Decide(m.flash, m.scratch).write; w.Some? && Torn(m.flash, w.value, left)
    case Confirm => m.mode.Running?
    case ConfirmCut(left) =>
      m.mode.Running? && var w := Confirmation(m.flash); w.Some? && Torn(m.flash, w.value, left)
    case RequestUpdate => m.mode.Running?
    case Reset(_) => true
    case SlotChange(left) => m.mode.Recovery? && SameOutside(m.flash, left, APP_OFFSET, BOOTSTATE_A)
    case Commit(len, crc) => m.mode.Recovery? && MayCommit(m.flash, len, crc)
    case CommitCut(len, crc, left) =>
      m.mode.Recovery? && MayCommit(m.flash, len, crc) && Torn(m.flash, FreshRecord(len, crc), left)
  }

  function Apply(m: Machine, e: Event): Machine {
    match e
    case Boot(start) =>
      Machine(Store(m.flash, Decide(m.flash, m.scratch).write), 0, if start then Running else Recovery)
    case BootCut(left) => Machine(left, 0, Off)
    case Confirm => m.(flash := Store(m.flash, Confirmation(m.flash)))
    case ConfirmCut(left) => Machine(left, 0, Off)
    case RequestUpdate => Machine(m.flash, OTA_ENTER_UPDATE_MAGIC, Off)
    case Reset(scratch) => Machine(m.flash, scratch, Off)
    case SlotChange(left) => m.(flash := left)
    case Commit(len, crc) => m.(flash := Write(m.flash, FreshRecord(len, crc)))
    case CommitCut(_, _, left) => Machine(left, 0, Off)
  }

  function Run(m: Machine, es: seq<Event>): Machine
    decreases |es|
  {
    if es == [] then m else Run(Apply(m, es[0]), es[1..])
  }

  ghost predicate RunEnabled(m: Machine, es: seq<Event>)
    decreases |es|
  {
    es != [] ==> Enabled(m, es[0]) && RunEnabled(Apply(m, es[0]), es[1..])
  }

  /** How often a run starts the application. */
  function Starts(es: seq<Event>): nat
    decreases |es|
  {
    if es == [] then 0 else (if es[0] == Boot(true) then 1 else 0) + Starts(es[1..])
  }

  predicate IsConfirm(e: Event) { e.Confirm? || e.ConfirmCut? }

  predicate IsCommit(e: Event) { e.Commit? || e.CommitCut? }

  // ---- single boots ----

  /** An update request always ends in recovery, with the flash untouched and the request used up. */
  lemma UpdateEntersRecovery(m: Machine, start: bool)
    requires Enabled(m, RequestUpdate) && Enabled(Apply(m, RequestUpdate), Boot(start))
    ensures !start && Apply(Apply(m, RequestUpdate), Boot(start)) == Machine(m.flash, 0, Recovery)
  {
  }

  /** With no request pending: when the application is started. */
  predicate Bootable(f: Contents) {
    match Newest(f)
    case None => VectorTableSane(f)
    case Some(r) =>
      VectorTableSane(f) && ImageMatches(f, r) && r.valid != 0 && (r.confirmed != 0 || r.attempts < 3)
  }

  /** A boot starts the application exactly if no update was requested and the flash is bootable. */
  lemma BootStarts(m: Machine)
    requires m.mode.Off?
    ensures Enabled(m, Boot(true)) <==> m.scratch != 0x0B00_B1E5 && Bootable(m.flash)
    ensures Enabled(m, Boot(false)) <==> !Enabled(m, Boot(true))
  {
  }

  /** The payload of the record a boot leaves, given the one it finds. */
  function AfterBoot(m: Machine, start: bool, r: Record): Record
    requires start && r.confirmed == 0 ==> r.attempts < 3
  {
    if start && r.confirmed == 0 then Payload(r).(attempts := r.attempts + 1)
    else if GivesUp(m, r) then Payload(r).(valid := 0)
    else Payload(r)
  }

  /** A valid image that matches has used its three starts. */
  predicate GivesUp(m: Machine, r: Record) {
    && m.scratch != 0x0B00_B1E5 && VectorTableSane(m.flash) && ImageMatches(m.flash, r)
    && r.valid != 0 && r.confirmed == 0 && r.attempts >= 3
  }

  /** The record is rewritten only to count a start or to give an image up; else the flash is left alone. */
  lemma BootWrites(m: Machine, start: bool, r: Record)
    requires Enabled(m, Boot(start)) && Newest(m.flash) == Some(r)
    ensures var w := Decide(m.flash, m.scratch).write;
            if (start && r.confirmed == 0) || GivesUp(m, r)
            then w.Some? && Payload(w.value) == AfterBoot(m, start, r)
            else w.None? && Apply(m, Boot(start)).flash == m.flash
  {
  }

  /** A confirmation is written exactly for a valid unconfirmed image, and changes only these two fields. */
  lemma ConfirmWrites(f: Contents, r: Record)
    requires Newest(f) == Some(r)
    ensures Confirmation(f).Some? <==> r.valid != 0 && r.confirmed == 0
    ensures Confirmation(f).Some? ==> Confirmation(f).value == r.(confirmed := 1, attempts := 0)
  {
  }

  lemma BootLeaves(m: Machine, start: bool, r: Record) returns (now: Record)
    requires Enabled(m, Boot(start)) && Newest(m.flash) == Some(r) && MaxSeq(m.flash) < 0xFFFF_FFFF
    ensures Newest(Apply(m, Boot(start)).flash) == Some(now) && Payload(now) == AfterBoot(m, start, r)
    ensures !((start && r.confirmed == 0) || GivesUp(m, r)) ==> Apply(m, Boot(start)).flash == m.flash
  {
    BootWrites(m, start, r);
    now := StoreStep(m.flash, Decide(m.flash, m.scratch).write);
  }

  /** The shapes of record that can follow a commit. */
  predicate Good(r: Record) {
    || (r.valid == 1 && r.confirmed == 0 && r.attempts <= OTA_MAX_BOOT_ATTEMPTS)
    || (r.valid == 1 && r.confirmed == 1 && r.attempts == 0)
    || (r.valid == 0 && r.confirmed == 0 && r.attempts == OTA_MAX_BOOT_ATTEMPTS)
  }

  /** The write a step attempts, if any. */
  function Attempted(m: Machine, e: Event): Option<Record> {
    match e
    case Boot(_) => Decide(m.flash, m.scratch).write
    case BootCut(_) => Decide(m.flash, m.scratch).write
    case Confirm => Confirmation(m.flash)
    case ConfirmCut(_) => Confirmation(m.flash)
    case Commit(len, crc) => Some(FreshRecord(len, crc))
    case CommitCut(len, crc, _) => Some(FreshRecord(len, crc))
    case _ => None
  }

  /** How many writes a run attempts. */
  function Writes(m: Machine, es: seq<Event>): nat
    decreases |es|
  {
    if es == [] then 0
    else (if Attempted(m, es[0]).Some? then 1 else 0) + Writes(Apply(m, es[0]), es[1..])
  }

  predicate IsCut(e: Event) { e.BootCut? || e.ConfirmCut? || e.CommitCut? }

  /** The record `now` after a step that found record `was`. */
  ghost predicate RecordStep(m: Machine, e: Event, was: Record, now: Record) {
    var w := Attempted(m, e);
    || (now == was && (w.Some? ==> IsCut(e)))
    || (w.Some? && Payload(now) == Payload(w.value) && now.seqNo == was.seqNo + 1)
  }

  /** Every step keeps a current record: the old one, or the one it attempted to write. */
  lemma StepKeepsRecord(m: Machine, e: Event) returns (now: Record)
    requires Enabled(m, e) && Newest(m.flash).Some? && (Attempted(m, e).Some? ==> MaxSeq(m.flash) < 0xFFFF_FFFF)
    ensures Newest(Apply(m, e).flash) == Some(now)
    ensures RecordStep(m, e, Newest(m.flash).value, now)
  {
    var f := m.flash;
    match e {
      case Boot(_) => now := StoreStep(f, Decide(f, m.scratch).write);
      case Confirm => now := StoreStep(f, Confirmation(f));
      case Commit(len, crc) => now := CompletedStep(f, FreshRecord(len, crc));
      case BootCut(left) => now := InterruptedStep(f, Decide(f, m.scratch).write.value, left);
      case ConfirmCut(left) => now := InterruptedStep(f, Confirmation(f).value, left);
      case CommitCut(len, crc, left) => now := InterruptedStep(f, FreshRecord(len, crc), left);
      case SlotChange(left) =>
        SlotChangeKeepsRecords(f, left);
        now := Newest(f).value;
      case _ => now := Newest(f).value;
    }
  }

  lemma StoreStep(f: Contents, w: Option<Record>) returns (now: Record)
    requires Newest(f).Some? && (w.Some? ==> MaxSeq(f) < 0xFFFF_FFFF)
    ensures Newest(Store(f, w)) == Some(now)
    ensures w.None? ==> now == Newest(f).value
    ensures w.Some? ==> Payload(now) == Payload(w.value) && now.seqNo == MaxSeq(f) + 1
  {
    match w
    case Some(r) => now := CompletedStep(f, r);
    case None => now := Newest(f).value;
  }

  /** A committed image leaves a fresh record behind, whatever the sectors held before. */
  lemma CommitIsFresh(m: Machine, len: u32, crc: u32) returns (now: Record)
    requires Enabled(m, Commit(len, crc)) && MaxSeq(m.flash) < 0xFFFF_FFFF
    ensures Newest(Apply(m, Commit(len, crc)).flash) == Some(now) && Good(now)
    ensures now.appLen == len && now.appCrc == crc && now.seqNo == MaxSeq(m.flash) + 1
    ensures now.valid == 1 && now.confirmed == 0 && now.attempts == 0
  {
    now := CompletedStep(m.flash, FreshRecord(len, crc));
    PayloadFields(now, FreshRecord(len, crc));
  }

  lemma GoodStep(m: Machine, e: Event, was: Record, now: Record)
    requires Enabled(m, e) && Newest(m.flash) == Some(was) && Good(was) && RecordStep(m, e, was, now)
    ensures Good(now)
    ensures !IsConfirm(e) && !IsCommit(e) && was.confirmed == 0 ==> now.confirmed == 0
    ensures now.confirmed == 0 && (IsCommit(e) ==> now == was) ==>
      was.attempts + (if e == Boot(true) then 1 else 0) <= now.attempts
  {
    var w := Attempted(m, e);
    if w.Some? && Payload(now) == Payload(w.value) {
      PayloadFields(now, w.value);
    }
  }

  /**
   Once a record shaped by a commit is current, a record of such a shape always is: the bootloader
   never again falls back to trusting the vector table alone.
   */
  lemma {:induction false} RecordsStayGood(m: Machine, es: seq<Event>)
    requires Newest(m.flash).Some? && Good(Newest(m.flash).value)
    requires RunEnabled(m, es) && MaxSeq(m.flash) + Writes(m, es) <= 0xFFFF_FFFF
    ensures Newest(Run(m, es).flash).Some? && Good(Newest(Run(m, es).flash).value)
    decreases |es|
  {
    if es != [] {
      var now := StepKeepsRecord(m, es[0]);
      GoodStep(m, es[0], Newest(m.flash).value, now);
      RecordsStayGood(Apply(m, es[0]), es[1..]);
    }
  }

  /**
   All along the run the record stays unconfirmed and no new image is committed.  A confirm or commit
   that power loss interrupts belongs to such a run if its write did not land.
   */
  ghost predicate OnTrial(m: Machine, es: seq<Event>)
    decreases |es|
  {
    es != [] ==>
      var n := Apply(m, es[0]);
      && Newest(n.flash).Some? && Newest(n.flash).value.confirmed == 0
      && (IsCommit(es[0]) ==> Newest(n.flash) == Newest(m.flash))
      && OnTrial(n, es[1..])
  }

  /** In particular a run without any confirm or commit is one. */
  lemma {:induction false} UnconfirmedIsOnTrial(m: Machine, es: seq<Event>)
    requires Newest(m.flash).Some? && Good(Newest(m.flash).value) && Newest(m.flash).value.confirmed == 0
    requires RunEnabled(m, es) && MaxSeq(m.flash) + Writes(m, es) <= 0xFFFF_FFFF
    requires forall e :: e in es ==> !IsConfirm(e) && !IsCommit(e)
    ensures OnTrial(m, es)
    decreases |es|
  {
    if es != [] {
      assert es[0] in es;
      var now := StepKeepsRecord(m, es[0]);
      GoodStep(m, es[0], Newest(m.flash).value, now);
      UnconfirmedIsOnTrial(Apply(m, es[0]), es[1..]);
    }
  }

  lemma {:induction false} StartsAreCounted(m: Machine, es: seq<Event>) returns (last: Record)
    requires Newest(m.flash).Some? && Good(Newest(m.flash).value) && Newest(m.flash).value.confirmed == 0
    requires RunEnabled(m, es) && MaxSeq(m.flash) + Writes(m, es) <= 0xFFFF_FFFF && OnTrial(m, es)
    ensures Newest(Run(m, es).flash) == Some(last) && Good(last) && last.confirmed == 0
    ensures Newest(m.flash).value.attempts + Starts(es) <= last.attempts <= OTA_MAX_BOOT_ATTEMPTS
    decreases |es|
  {
    if es == [] {
      last := Newest(m.flash).value;
    } else {
      var now := StepKeepsRecord(m, es[0]);
      GoodStep(m, es[0], Newest(m.flash).value, now);
      last := StartsAreCounted(Apply(m, es[0]), es[1..]);
    }
  }

  /**
   From a commit on, over any run of boots, crashes, interrupted writes, update requests, resets and
   further slot traffic, the application is started at most three times before a confirmation lands.
   */
  lemma BoundedUnconfirmedStarts(m: Machine, len: u32, crc: u32, es: seq<Event>)
    requires Enabled(m, Commit(len, crc)) && RunEnabled(Apply(m, Commit(len, crc)), es)
    requires MaxSeq(m.flash) + Writes(m, [Commit(len, crc)] + es) <= 0xFFFF_FFFF
    requires OnTrial(Apply(m, Commit(len, crc)), es)
    ensures Starts(es) <= OTA_MAX_BOOT_ATTEMPTS
  {
    assert ([Commit(len, crc)] + es)[1..] == es;
    var first := CommitIsFresh(m, len, crc);
    var last := StartsAreCounted(Apply(m, Commit(len, crc)), es);
  }

  /** Once all three starts are spent, every boot enters recovery. */
  lemma ThenOnlyRecovery(m: Machine, len: u32, crc: u32, es: seq<Event>, start: bool)
    requires Enabled(m, Commit(len, crc)) && RunEnabled(Apply(m, Commit(len, crc)), es)
    requires MaxSeq(m.flash) + Writes(m, [Commit(len, crc)] + es) <= 0xFFFF_FFFF
    requires OnTrial(Apply(m, Commit(len, crc)), es)
    requires Starts(es) == OTA_MAX_BOOT_ATTEMPTS
    requires Enabled(Run(Apply(m, Commit(len, crc)), es), Boot(start))
    ensures !start && Apply(Run(Apply(m, Commit(len, crc)), es), Boot(start)).mode.Recovery?
  {
    assert ([Commit(len, crc)] + es)[1..] == es;
    var first := CommitIsFresh(m, len, crc);
    var last := StartsAreCounted(Apply(m, Commit(len, crc)), es);
    assert last.attempts == OTA_MAX_BOOT_ATTEMPTS;
  }

  lemma {:induction false} RunPrefix(m: Machine, es: seq<Event>, k: nat)
    requires k < |es| && RunEnabled(m, es)
    ensures RunEnabled(m, es[..k]) && Enabled(Run(m, es[..k]), es[k]) && Writes(m, es[..k]) <= Writes(m, es)
    decreases k
  {
    if k > 0 {
      assert es[..k][1..] == es[1..][..k - 1];
      RunPrefix(Apply(m, es[0]), es[1..], k - 1);
    }
  }

  /** Wherever in a run the application is started, a valid record vouches for the slot's bytes. */
  lemma StartsAreChecked(m: Machine, es: seq<Event>, k: nat)
    requires Newest(m.flash).Some? && Good(Newest(m.flash).value)
    requires RunEnabled(m, es) && MaxSeq(m.flash) + Writes(m, es) <= 0xFFFF_FFFF
    requires k < |es| && es[k] == Boot(true)
    ensures var f := Run(m, es[..k]).flash;
            && Newest(f).Some? && Newest(f).value.valid == 1
            && VectorTableSane(f) && ImageMatches(f, Newest(f).value)
  {
    RunPrefix(m, es, k);
    RecordsStayGood(m, es[..k]);
  }

  /** The current record is confirmed and the slot still holds the image it describes. */
  predicate Healthy(f: Contents) {
    && Newest(f).Some?
    && var r := Newest(f).value;
       r.valid != 0 && r.confirmed != 0 && VectorTableSane(f) && ImageMatches(f, r)
  }

  lemma HealthyStep(m: Machine, e: Event)
    requires Healthy(m.flash) && Enabled(m, e) && !e.SlotChange? && !IsCommit(e)
    ensures Apply(m, e).flash == m.flash
  {
  }

  lemma HealthyBoot(f: Contents, scratch: u32)
    requires Healthy(f) && scratch != OTA_ENTER_UPDATE_MAGIC
    ensures Decide(f, scratch).start
  {
  }

  lemma {:induction false} HealthyRun(m: Machine, es: seq<Event>)
    requires Healthy(m.flash) && RunEnabled(m, es)
    requires forall e :: e in es ==> !e.SlotChange? && !IsCommit(e)
    ensures Run(m, es).flash == m.flash
    decreases |es|
  {
    if es != [] {
      assert es[0] in es;
      HealthyStep(m, es[0]);
      HealthyRun(Apply(m, es[0]), es[1..]);
    }
  }

  /** A confirmed image is started by every boot that no update request precedes. */
  lemma ConfirmedKeepsBooting(m: Machine, es: seq<Event>, k: nat)
    requires Healthy(m.flash) && RunEnabled(m, es) && k < |es| && es[k].Boot?
    requires forall e :: e in es ==> !e.SlotChange? && !IsCommit(e)
    requires Run(m, es[..k]).scratch != OTA_ENTER_UPDATE_MAGIC
    ensures es[k] == Boot(true)
  {
    RunPrefix(m, es, k);
    HealthyRun(m, es[..k]);
    var n := Run(m, es[..k]);
    HealthyBoot(n.flash, n.scratch);
  }
}
