/** The USB/IP socket bridge as a system of steps
    (crates/client/src/virtual_usb/socket_bridge.rs).

    One reader thread and one task per CMD_SUBMIT share the pending transfers, the unlinked
    sequence numbers, the per-endpoint locks and the running flag.  Every lock section, every
    look at the running flag and every write to the socket is one step; steps of different tasks
    interleave freely.  The kernel never reuses the sequence number of a CMD_SUBMIT.
 */
module BridgeSteps {
  import opened Common

  const MAX_UNLINKED_SEQNUMS: nat := 100
  const ENOENT: int := -2

  datatype Header = Header(seqnum: u32, ep: u32, direction: u32) {
    predicate InterruptIn() {
      direction == 1 && ep > 0
    }

    /** (ep | 0x80) as u8 */
    function EndpointAddr(): u8 {
      128 + ep % 128
    }
  }

  /** How a task ended. */
  datatype End = ConversionFailed | DeviceFailed | BridgeStopped | Suppressed | WriteFailed | Replied

  /** Where a task is in handle_cmd_submit_async, named after what it has done last. */
  datatype Stage =
    | Spawned
    | LockTaken
    | Registered
    | InDevice
    | Returned(ok: bool)
    | Deregistered
    | SeenRunning
    | NotUnlinked
    | AboutToWrite
    | Ended(how: End)

  datatype Task = Task(header: Header, stage: Stage, readIndex: nat)

  /** Where the reader is in handle_cmd_unlink_blocking. */
  datatype Reader = Idle | Recorded(seqnum: u32, target: u32) | Removed(seqnum: u32, target: u32, status: int)

  /** What the kernel receives; `target` is the CMD_UNLINK's argument, not a wire field. */
  datatype Message = RetSubmit(seqnum: u32) | RetUnlink(seqnum: u32, target: u32, status: int)

  /** `submissions` lists the submissions to the device in order.  `forgotten` are the transfers whose
      recorded unlink the size limit discarded before their own look-up, and that no later unlink has
      recorded again in time. */
  datatype State = State(
    running: bool,
    pending: set<u32>,
    unlinked: set<u32>,
    locks: map<u8, u32>,
    tasks: map<u32, Task>,
    reader: Reader,
    submissions: seq<u32>,
    wire: seq<Message>,
    forgotten: set<u32>)

  const INITIAL := State(true, {}, {}, map[], map[], Idle, [], [], {})

  datatype Step =
    | Spawn(header: Header)
    | TakeLock(s: u32)
    | Register(s: u32)
    | FailConversion(s: u32)
    | SubmitToDevice(s: u32)
    | DeviceReturns(s: u32, ok: bool)
    | Deregister(s: u32)
    | CheckRunning(s: u32)
    | CheckUnlinked(s: u32)
    | RecheckRunning(s: u32)
    | WriteReply(s: u32, delivered: bool)
    | RecordUnlink(seqnum: u32, target: u32)
    | RemovePending
    | WriteRetUnlink(delivered: bool)
    | Stop

  predicate At(st: State, s: u32, stage: Stage) {
    s in st.tasks && st.tasks[s].stage == stage
  }

  predicate Enabled(st: State, step: Step) {
    match step
    case Spawn(h) => st.reader.Idle? && h.seqnum !in st.tasks
    case TakeLock(s) =>
      At(st, s, Spawned) && (st.tasks[s].header.InterruptIn() ==> st.tasks[s].header.EndpointAddr() !in st.locks)
    case Register(s) => At(st, s, LockTaken)
    case FailConversion(s) => At(st, s, Registered)
    case SubmitToDevice(s) => At(st, s, Registered)
    case DeviceReturns(s, ok) => At(st, s, InDevice)
    case Deregister(s) => s in st.tasks && st.tasks[s].stage.Returned?
    case CheckRunning(s) => At(st, s, Deregistered)
    case CheckUnlinked(s) => At(st, s, SeenRunning)
    case RecheckRunning(s) => At(st, s, NotUnlinked)
    case WriteReply(s, delivered) => At(st, s, AboutToWrite)
    case RecordUnlink(n, t) => st.reader.Idle?
    case RemovePending => st.reader.Recorded?
    case WriteRetUnlink(delivered) => st.reader.Removed?
    case Stop => true
  }

  function Goto(st: State, s: u32, stage: Stage): State
    requires s in st.tasks
  {
    st.(tasks := st.tasks[s := st.tasks[s].(stage := stage)])
  }

  /** Returning from a handler drops the endpoint guard. */
  function Finish(st: State, s: u32, how: End): State
    requires s in st.tasks
  {
    var h := st.tasks[s].header;
    Goto(st, s, Ended(how)).(locks := if h.InterruptIn() then st.locks - {h.EndpointAddr()} else st.locks)
  }

  /** Transfer s, if it has begun, has not come to its look-up among the unlinked. */
  predicate BeforeCheck(st: State, s: u32) {
    s in st.tasks ==> !(st.tasks[s].stage.NotUnlinked? || st.tasks[s].stage.AboutToWrite? || st.tasks[s].stage.Ended?)
  }

  /** The lock section that records an unlink, with its clean-up. */
  function Record(unlinked: set<u32>, target: u32): set<u32> {
    (if |unlinked| >= MAX_UNLINKED_SEQNUMS then {} else unlinked) + {target}
  }

  /** A record that comes before the look-up makes up for one that was discarded. */
  function Rerecorded(st: State, target: u32): set<u32> {
    if BeforeCheck(st, target) then st.forgotten - {target} else st.forgotten
  }

  function Next(st: State, step: Step): State
    requires Enabled(st, step)
  {
    match step
    case Spawn(h) => st.(tasks := st.tasks[h.seqnum := Task(h, Spawned, 0)])
    case TakeLock(s) =>
      var h := st.tasks[s].header;
      Goto(st, s, LockTaken).(locks := if h.InterruptIn() then st.locks[h.EndpointAddr() := s] else st.locks)
    case Register(s) => Goto(st, s, Registered).(pending := st.pending + {s})
    case FailConversion(s) => Finish(st, s, ConversionFailed)
    case SubmitToDevice(s) =>
      st.(submissions := st.submissions + [s],
          tasks := st.tasks[s := st.tasks[s].(stage := InDevice, readIndex := |st.submissions|)])
    case DeviceReturns(s, ok) => Goto(st, s, Returned(ok))
    case Deregister(s) =>
      var after := st.(pending := st.pending - {s});
      if st.tasks[s].stage.ok then Goto(after, s, Deregistered) else Finish(after, s, DeviceFailed)
    case CheckRunning(s) => if st.running then Goto(st, s, SeenRunning) else Finish(st, s, BridgeStopped)
    case CheckUnlinked(s) =>
      if s in st.unlinked then Finish(st.(unlinked := st.unlinked - {s}), s, Suppressed) else Goto(st, s, NotUnlinked)
    case RecheckRunning(s) => if st.running then Goto(st, s, AboutToWrite) else Finish(st, s, BridgeStopped)
    case WriteReply(s, delivered) =>
      if delivered then Finish(st.(wire := st.wire + [RetSubmit(s)]), s, Replied) else Finish(st, s, WriteFailed)
    case RecordUnlink(n, t) =>
      var kept := Record(st.unlinked, t);
      st.(reader := Recorded(n, t),
          unlinked := kept,
          forgotten := Rerecorded(st, t) + (set x | x in st.unlinked && x !in kept && BeforeCheck(st, x)))
    case RemovePending =>
      var t := st.reader.target;
      st.(reader := Removed(st.reader.seqnum, t, if t in st.pending then 0 else ENOENT),
          pending := st.pending - {t})
    case WriteRetUnlink(delivered) =>
      var reply := RetUnlink(st.reader.seqnum, st.reader.target, st.reader.status);
      st.(reader := Idle, wire := if delivered then st.wire + [reply] else st.wire)
    case Stop => st.(running := false)
  }

  ghost predicate Runnable(st: State, steps: seq<Step>)
    decreases |steps|
  {
    steps == [] || (Enabled(st, steps[0]) && Runnable(Next(st, steps[0]), steps[1..]))
  }

  ghost function Run(st: State, steps: seq<Step>): State
    requires Runnable(st, steps)
    decreases |steps|
  {
    if steps == [] then st else Run(Next(st, steps[0]), steps[1..])
  }

  // ---------- Invariants ----------

  ghost predicate PendingSound(st: State) {
    forall s :: s in st.pending ==>
      && s in st.tasks
      && var stage := st.tasks[s].stage;
         stage.Registered? || stage.InDevice? || stage.Returned? || stage == Ended(ConversionFailed)
  }

  /** The unlink being handled is on record, unless its transfer has just been suppressed. */
  ghost predicate RecordHeld(st: State) {
    st.reader.Recorded? ==> st.reader.target in st.unlinked || At(st, st.reader.target, Ended(Suppressed))
  }

  /** Replies written are those of tasks that ended by replying, once each. */
  ghost predicate RepliesSound(st: State) {
    && (forall i :: 0 <= i < |st.wire| && st.wire[i].RetSubmit? ==> At(st, st.wire[i].seqnum, Ended(Replied)))
    && (forall i, j :: 0 <= i < j < |st.wire| && st.wire[i].RetSubmit? && st.wire[j].RetSubmit? ==>
          st.wire[i].seqnum != st.wire[j].seqnum)
  }

  /** No reply to s can follow: its task ended without one, or still has to find the record. */
  predicate Blocked(st: State, s: u32) {
    || (s in st.tasks && st.tasks[s].stage.Ended? && st.tasks[s].stage.how != Replied)
    || (s in st.unlinked && BeforeCheck(st, s))
  }

  /** Some CMD_UNLINK of s was, or is about to be, answered with status 0. */
  predicate Cancelled(st: State, s: u32) {
    || (st.reader.Removed? && st.reader.target == s && st.reader.status == 0)
    || exists i :: 0 <= i < |st.wire| && st.wire[i].RetUnlink? && st.wire[i].target == s && st.wire[i].status == 0
  }

  ghost predicate CancelledBlocked(st: State) {
    forall s: u32 :: Cancelled(st, s) && s !in st.forgotten ==> Blocked(st, s)
  }

  ghost predicate HeadersSound(st: State) {
    forall s :: s in st.tasks ==> st.tasks[s].header.seqnum == s
  }

  ghost predicate Inv(st: State) {
    && PendingSound(st)
    && RecordHeld(st)
    && RepliesSound(st)
    && |st.unlinked| <= MAX_UNLINKED_SEQNUMS
    && CancelledBlocked(st)
    && HeadersSound(st)
  }

  // ---------- Each invariant over one step ----------

  lemma StepKeepsPending(st: State, step: Step)
    requires PendingSound(st) && Enabled(st, step)
    ensures PendingSound(Next(st, step))
  {
  }

  lemma StepKeepsRecord(st: State, step: Step)
    requires RecordHeld(st) && Enabled(st, step)
    ensures RecordHeld(Next(st, step))
  {
  }

  /** What one step adds to the wire. */
  function Added(st: State, step: Step): seq<Message>
    requires Enabled(st, step)
  {
    match step
    case WriteReply(s, delivered) => if delivered then [RetSubmit(s)] else []
    case WriteRetUnlink(delivered) =>
      if delivered then [RetUnlink(st.reader.seqnum, st.reader.target, st.reader.status)] else []
    case _ => []
  }

  lemma WireGrows(st: State, step: Step)
    requires Enabled(st, step)
    ensures Next(st, step).wire == st.wire + Added(st, step)
  {
  }

  lemma EndedStays(st: State, step: Step, s: u32, how: End)
    requires Enabled(st, step) && At(st, s, Ended(how))
    ensures s in Next(st, step).tasks && Next(st, step).tasks[s] == st.tasks[s]
  {
  }

  lemma StepKeepsReplies(st: State, step: Step)
    requires RepliesSound(st) && Enabled(st, step)
    ensures RepliesSound(Next(st, step))
  {
    WireGrows(st, step);
    var w := Next(st, step).wire;
    forall i | 0 <= i < |w| && w[i].RetSubmit?
      ensures At(Next(st, step), w[i].seqnum, Ended(Replied))
    {
      if i < |st.wire| {
        assert w[i] == st.wire[i];
        EndedStays(st, step, w[i].seqnum, Replied);
      }
    }
    forall i, j | 0 <= i < j < |w| && w[i].RetSubmit? && w[j].RetSubmit?
      ensures w[i].seqnum != w[j].seqnum
    {
      assert w[i] == st.wire[i];
    }
  }

  lemma StepKeepsBlocked(st: State, step: Step, s: u32)
    requires Enabled(st, step) && Blocked(st, s)
    ensures s !in Next(st, step).forgotten ==> Blocked(Next(st, step), s)
  {
  }

  lemma StepKeepsCancelled(st: State, step: Step)
    requires PendingSound(st) && RecordHeld(st) && CancelledBlocked(st) && Enabled(st, step)
    ensures CancelledBlocked(Next(st, step))
  {
    var st' := Next(st, step);
    forall s: u32 | Cancelled(st', s) && s !in st'.forgotten
      ensures Blocked(st', s)
    {
      if s in st.forgotten {
        assert step.RecordUnlink? && step.target == s && BeforeCheck(st, s);
      } else if Cancelled(st, s) {
        StepKeepsBlocked(st, step, s);
      } else {
        assert step.RemovePending? && s in st.pending;
      }
    }
  }

  /** However many unlinks are on record, recording one more leaves at most the limit. */
  lemma RecordBounded(unlinked: set<u32>, target: u32)
    ensures |Record(unlinked, target)| <= MAX_UNLINKED_SEQNUMS
  {
  }

  lemma UnlinkedChanges(st: State, step: Step)
    requires Enabled(st, step)
    ensures Next(st, step).unlinked <= st.unlinked ||
            (step.RecordUnlink? && Next(st, step).unlinked == Record(st.unlinked, step.target))
  {
  }

  lemma SubsetSize(a: set<u32>, b: set<u32>)
    ensures a <= b ==> |a| <= |b|
  {
    if a <= b {
      assert b == a + (b - a);
    }
  }

  lemma StepKeepsHeaders(st: State, step: Step)
    requires HeadersSound(st) && Enabled(st, step)
    ensures HeadersSound(Next(st, step))
  {
  }

  lemma StepKeepsInv(st: State, step: Step)
    requires Inv(st) && Enabled(st, step)
    ensures Inv(Next(st, step))
  {
    UnlinkedChanges(st, step);
    SubsetSize(Next(st, step).unlinked, st.unlinked);
    if step.RecordUnlink? {
      RecordBounded(st.unlinked, step.target);
    }
    StepKeepsHeaders(st, step);
    StepKeepsPending(st, step);
    StepKeepsRecord(st, step);
    StepKeepsReplies(st, step);
    StepKeepsCancelled(st, step);
  }

  lemma {:induction false} RunKeepsInv(st: State, steps: seq<Step>)
    requires Inv(st) && Runnable(st, steps)
    ensures Inv(Run(st, steps))
    decreases |steps|
  {
    if steps != [] {
      StepKeepsInv(st, steps[0]);
      RunKeepsInv(Next(st, steps[0]), steps[1..]);
    }
  }

  // ---------- Joining runs ----------

  lemma StepThenRun(st: State, step: Step, rest: seq<Step>)
    requires Enabled(st, step) && Runnable(Next(st, step), rest)
    ensures Runnable(st, [step] + rest) && Run(st, [step] + rest) == Run(Next(st, step), rest)
  {
    assert ([step] + rest)[1..] == rest;
  }

  lemma {:induction false} RunThenRun(st: State, a: seq<Step>, b: seq<Step>)
    requires Runnable(st, a) && Runnable(Run(st, a), b)
    ensures Runnable(st, a + b) && Run(st, a + b) == Run(Run(st, a), b)
    decreases |a|
  {
    if a == [] {
      assert a + b == b;
    } else {
      assert (a + b)[1..] == a[1..] + b;
      RunThenRun(Next(st, a[0]), a[1..], b);
    }
  }
}
