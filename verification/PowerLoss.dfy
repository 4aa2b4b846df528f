/** Boot-state writes that power loss may cut short at any point. */
module PowerLoss {
  import opened BootState
  import opened Flash
  import opened Layout
  import opened Wrappers

  /**
   The assumption about an interrupted erase or program: nothing outside the target sector moves,
   and the target sector then fails the record check, or still holds its old record, or already
   holds the new one.
   */
  ghost predicate Torn(f: Contents, r: Record, g: Contents) {
    var t := Target(f);
    && SameOutside(f, g, t.Offset(), t.Offset() + FLASH_SECTOR)
    && (!RecValid(RecordAt(g, t)) || RecordAt(g, t) == RecordAt(f, t) || RecordAt(g, t) == Next(f, r))
  }

  /** Whatever an interrupted write leaves, the current record is the previous one or the new one. */
  lemma TornKeepsRecord(f: Contents, r: Record, g: Contents)
    requires Torn(f, r, g) && Newest(f).Some?
    ensures Newest(g) == Newest(f) || Newest(g) == Some(Next(f, r))
  {
    var t := Target(f);
    OtherSectorKept(f, g, t);
    NextIsValid(f, r);
    if RecordAt(g, t) == Next(f, r) && MaxSeq(f) < 0xFFFF_FFFF {
      SuccessorWins(f, g, t, Next(f, r));
    }
  }

  datatype WriteOp = Completed(r: Record) | Interrupted(r: Record, left: Contents)

  ghost predicate Possible(f: Contents, op: WriteOp) {
    op.Interrupted? ==> Torn(f, op.r, op.left)
  }

  function After(f: Contents, op: WriteOp): Contents {
    match op
    case Completed(r) => Write(f, r)
    case Interrupted(_, left) => left
  }

  function Run(f: Contents, ops: seq<WriteOp>): Contents
    decreases |ops|
  {
    if ops == [] then f else Run(After(f, ops[0]), ops[1..])
  }

  ghost predicate RunPossible(f: Contents, ops: seq<WriteOp>)
    decreases |ops|
  {
    ops != [] ==> Possible(f, ops[0]) && RunPossible(After(f, ops[0]), ops[1..])
  }

  /** The payloads of the last completed write and of the writes interrupted since. */
  function Candidates(since: set<Record>, ops: seq<WriteOp>): set<Record>
    decreases |ops|
  {
    if ops == [] then since
    else
      match ops[0]
      case Completed(r) => Candidates({Payload(r)}, ops[1..])
      case Interrupted(r, _) => Candidates(since + {Payload(r)}, ops[1..])
  }

  lemma CompletedStep(f: Contents, r: Record) returns (n: Record)
    requires MaxSeq(f) < 0xFFFF_FFFF
    ensures Newest(Write(f, r)) == Some(n) && Payload(n) == Payload(r) && n.seqNo == MaxSeq(f) + 1
  {
    ReadBack(f, r);
    NextCarries(f, r);
    n := Next(f, r);
  }

  lemma InterruptedStep(f: Contents, r: Record, left: Contents) returns (n: Record)
    requires MaxSeq(f) < 0xFFFF_FFFF && Newest(f).Some? && Torn(f, r, left)
    ensures Newest(left) == Some(n)
    ensures n == Newest(f).value || (Payload(n) == Payload(r) && n.seqNo == MaxSeq(f) + 1)
  {
    TornKeepsRecord(f, r, left);
    NextCarries(f, r);
    n := Newest(left).value;
  }

  /**
   Crash atomicity over whole runs: after any sequence of writes, each possibly cut short, reading
   back gives the last record whose write completed or one whose write was interrupted since.
   */
  lemma {:induction false} CrashAtomic(f: Contents, ops: seq<WriteOp>, since: set<Record>)
    requires Newest(f).Some? && Payload(Newest(f).value) in since
    requires RunPossible(f, ops) && MaxSeq(f) + |ops| <= 0xFFFF_FFFF
    ensures Newest(Run(f, ops)).Some?
    ensures Payload(Newest(Run(f, ops)).value) in Candidates(since, ops)
    decreases |ops|
  {
    if ops != [] {
      var r := ops[0].r;
      match ops[0] {
        case Completed(_) =>
          var n := CompletedStep(f, r);
          CrashAtomic(Write(f, r), ops[1..], {Payload(r)});
        case Interrupted(_, left) =>
          var n := InterruptedStep(f, r, left);
          CrashAtomic(left, ops[1..], since + {Payload(r)});
      }
    }
  }
}
