/** What the past steps of the bridge say about its state: the way of every handler, and which unlinks
    find their transfer. */
module BridgeHistory {
  import opened Common
  import opened BridgeSteps
  import BridgeSafety
  import BridgeProgress

  lemma {:induction false} RunLast(st: State, steps: seq<Step>, step: Step)
    requires Runnable(st, steps + [step])
    ensures Runnable(st, steps) && Enabled(Run(st, steps), step)
    ensures Run(st, steps + [step]) == Next(Run(st, steps), step)
    decreases |steps|
  {
    if steps == [] {
      assert steps + [step] == [step] && [step][1..] == [];
    } else {
      assert (steps + [step])[1..] == steps[1..] + [step];
      RunLast(Next(st, steps[0]), steps[1..], step);
    }
  }

  // ---------- The way of a handler ----------

  /** The step belongs to the handler of s. */
  predicate IsOf(step: Step, s: u32) {
    match step
    case Spawn(h) => h.seqnum == s
    case TakeLock(t) => t == s
    case Register(t) => t == s
    case FailConversion(t) => t == s
    case SubmitToDevice(t) => t == s
    case DeviceReturns(t, _) => t == s
    case Deregister(t) => t == s
    case CheckRunning(t) => t == s
    case CheckUnlinked(t) => t == s
    case RecheckRunning(t) => t == s
    case WriteReply(t, _) => t == s
    case RecordUnlink(_, _) => false
    case RemovePending => false
    case WriteRetUnlink(_) => false
    case Stop => false
  }

  function OwnSteps(steps: seq<Step>, s: u32): seq<Step> {
    if steps == [] then []
    else
      var front, last := steps[..|steps| - 1], steps[|steps| - 1];
      OwnSteps(front, s) + (if IsOf(last, s) then [last] else [])
  }

  /** The steps of a handler whose transfer is answered. */
  function FullWay(h: Header): (steps: seq<Step>)
    ensures |steps| == 10
  {
    var s := h.seqnum;
    [Spawn(h), TakeLock(s), Register(s), SubmitToDevice(s), DeviceReturns(s, true), Deregister(s),
     CheckRunning(s), CheckUnlinked(s), RecheckRunning(s), WriteReply(s, true)]
  }

  /** The steps up to a stage. */
  predicate HasGone(own: seq<Step>, h: Header, stage: Stage) {
    var s := h.seqnum;
    match stage
    case Spawned => own == FullWay(h)[..1]
    case LockTaken => own == FullWay(h)[..2]
    case Registered => own == FullWay(h)[..3]
    case InDevice => own == FullWay(h)[..4]
    case Returned(ok) => own == FullWay(h)[..4] + [DeviceReturns(s, ok)]
    case Deregistered => own == FullWay(h)[..6]
    case SeenRunning => own == FullWay(h)[..7]
    case NotUnlinked => own == FullWay(h)[..8]
    case AboutToWrite => own == FullWay(h)[..9]
    case Ended(ConversionFailed) => own == FullWay(h)[..3] + [FailConversion(s)]
    case Ended(DeviceFailed) => own == FullWay(h)[..4] + [DeviceReturns(s, false)] + [Deregister(s)]
    case Ended(BridgeStopped) => own == FullWay(h)[..7] || own == FullWay(h)[..9]
    case Ended(Suppressed) => own == FullWay(h)[..8]
    case Ended(WriteFailed) => own == FullWay(h)[..9] + [WriteReply(s, false)]
    case Ended(Replied) => own == FullWay(h)
  }

  /** The handler of s is where its own steps lead. */
  ghost predicate WayKnown(st: State, steps: seq<Step>, s: u32) {
    if s in st.tasks then
      st.tasks[s].header.seqnum == s && HasGone(OwnSteps(steps, s), st.tasks[s].header, st.tasks[s].stage)
    else OwnSteps(steps, s) == []
  }

  lemma OwnLast(steps: seq<Step>, step: Step, s: u32)
    ensures OwnSteps(steps + [step], s) == OwnSteps(steps, s) + (if IsOf(step, s) then [step] else [])
  {
    assert (steps + [step])[..|steps|] == steps;
  }

  /** The steps of others leave the handler of s alone. */
  lemma OthersLeaveAlone(st: State, step: Step, s: u32)
    requires Enabled(st, step) && !IsOf(step, s)
    ensures s in Next(st, step).tasks <==> s in st.tasks
    ensures s in st.tasks ==> Next(st, step).tasks[s] == st.tasks[s]
  {
  }

  lemma OneStepOn(h: Header, own: seq<Step>, step: Step, k: nat)
    requires k < 10 && own == FullWay(h)[..k] && step == FullWay(h)[k]
    ensures own + [step] == FullWay(h)[..k + 1]
  {
  }

  /** The first step of a handler. */
  lemma SpawnIsFirst(st: State, h: Header)
    requires Enabled(st, Spawn(h))
    ensures HasGone([Spawn(h)], h, Spawned) && Next(st, Spawn(h)).tasks[h.seqnum] == Task(h, Spawned, 0)
  {
    OneStepOn(h, [], Spawn(h), 0);
  }

  /** How many steps of the full way lead to a stage, where that is so. */
  function StepsTo(stage: Stage): nat {
    match stage
    case Spawned => 1
    case LockTaken => 2
    case Registered => 3
    case InDevice => 4
    case Returned(_) => 5
    case Deregistered => 6
    case SeenRunning => 7
    case NotUnlinked => 8
    case AboutToWrite => 9
    case Ended(_) => 10
  }

  /** A step of a handler takes it from one stage to the other. */
  predicate Leads(stage: Stage, step: Step, stage': Stage) {
    match step
    case TakeLock(_) => stage.Spawned? && stage'.LockTaken?
    case Register(_) => stage.LockTaken? && stage'.Registered?
    case FailConversion(_) => stage.Registered? && stage' == Ended(ConversionFailed)
    case SubmitToDevice(_) => stage.Registered? && stage'.InDevice?
    case DeviceReturns(_, ok) => stage.InDevice? && stage' == Returned(ok)
    case Deregister(_) => stage.Returned? && stage' == if stage.ok then Deregistered else Ended(DeviceFailed)
    case CheckRunning(_) => stage.Deregistered? && (stage'.SeenRunning? || stage' == Ended(BridgeStopped))
    case CheckUnlinked(_) => stage.SeenRunning? && (stage'.NotUnlinked? || stage' == Ended(Suppressed))
    case RecheckRunning(_) => stage.NotUnlinked? && (stage'.AboutToWrite? || stage' == Ended(BridgeStopped))
    case WriteReply(_, done) => stage.AboutToWrite? && stage' == Ended(if done then Replied else WriteFailed)
    case _ => false
  }

  lemma OwnStepLeads(st: State, step: Step, s: u32)
    requires Enabled(st, step) && IsOf(step, s) && s in st.tasks
    ensures s in Next(st, step).tasks && Next(st, step).tasks[s].header == st.tasks[s].header
    ensures Leads(st.tasks[s].stage, step, Next(st, step).tasks[s].stage)
  {
  }

  lemma LeadsOn(h: Header, own: seq<Step>, stage: Stage, step: Step, stage': Stage)
    requires HasGone(own, h, stage) && Leads(stage, step, stage') && IsOf(step, h.seqnum)
    ensures HasGone(own + [step], h, stage')
  {
    var k := StepsTo(stage);
    assert FullWay(h)[..4] + [DeviceReturns(h.seqnum, true)] == FullWay(h)[..5];
    if k < 10 && own == FullWay(h)[..k] && step == FullWay(h)[k] {
      OneStepOn(h, own, step, k);
    }
    assert FullWay(h)[..10] == FullWay(h);
  }

  lemma StepKeepsWay(st: State, steps: seq<Step>, step: Step, s: u32)
    requires WayKnown(st, steps, s) && Enabled(st, step)
    ensures WayKnown(Next(st, step), steps + [step], s)
  {
    OwnLast(steps, step, s);
    if !IsOf(step, s) {
      OthersLeaveAlone(st, step, s);
    } else if s in st.tasks {
      OwnStepLeads(st, step, s);
      LeadsOn(st.tasks[s].header, OwnSteps(steps, s), st.tasks[s].stage, step, Next(st, step).tasks[s].stage);
    } else {
      SpawnIsFirst(st, step.header);
    }
  }

  ghost predicate RepliesKnown(st: State, s: u32) {
    RetSubmit(s) in st.wire <==> At(st, s, Ended(Replied))
  }

  lemma StepKeepsReplyKnown(st: State, step: Step, s: u32)
    requires RepliesKnown(st, s) && Enabled(st, step)
    ensures RepliesKnown(Next(st, step), s)
  {
    WireGrows(st, step);
    BridgeSafety.RepliedOrNot(st, step, s);
  }

  lemma {:induction false} RunKnown(steps: seq<Step>, s: u32)
    requires Runnable(INITIAL, steps)
    ensures WayKnown(Run(INITIAL, steps), steps, s) && RepliesKnown(Run(INITIAL, steps), s)
    decreases |steps|
  {
    if steps != [] {
      var front, last := steps[..|steps| - 1], steps[|steps| - 1];
      assert steps == front + [last];
      RunLast(INITIAL, front, last);
      RunKnown(front, s);
      StepKeepsWay(Run(INITIAL, front), front, last, s);
      StepKeepsReplyKnown(Run(INITIAL, front), last, s);
    }
  }

  lemma OnlyRepliedGoesFullWay(own: seq<Step>, h: Header, stage: Stage, g: Header)
    requires HasGone(own, h, stage)
    ensures own == FullWay(g) ==> stage == Ended(Replied)
  {
    assert FullWay(g)[9] == WriteReply(g.seqnum, true);
    if stage == Ended(WriteFailed) {
      assert own[9] == WriteReply(h.seqnum, false);
    }
  }

  /** On every run: a transfer is answered exactly when its handler has gone the full way, each step once
      and in order, with a successful device call in between. */
  lemma AnsweredExact(steps: seq<Step>, s: u32)
    requires Runnable(INITIAL, steps)
    ensures RetSubmit(s) in Run(INITIAL, steps).wire
            <==> exists h: Header :: h.seqnum == s && OwnSteps(steps, s) == FullWay(h)
  {
    var st := Run(INITIAL, steps);
    RunKnown(steps, s);
    if At(st, s, Ended(Replied)) {
      assert st.tasks[s].header.seqnum == s && OwnSteps(steps, s) == FullWay(st.tasks[s].header);
    }
    if h: Header :| h.seqnum == s && OwnSteps(steps, s) == FullWay(h) {
      OnlyRepliedGoesFullWay(OwnSteps(steps, s), st.tasks[s].header, st.tasks[s].stage, h);
    }
  }

  lemma {:induction false} OwnStepsExact(steps: seq<Step>, s: u32, step: Step)
    ensures step in OwnSteps(steps, s) <==> step in steps && IsOf(step, s)
  {
    if steps != [] {
      var front, last := steps[..|steps| - 1], steps[|steps| - 1];
      assert steps == front + [last];
      OwnStepsExact(front, s, step);
    }
  }

  lemma FailureIsOffTheWay(h: Header, s: u32)
    ensures FailConversion(s) !in FullWay(h) && DeviceReturns(s, false) !in FullWay(h)
    ensures WriteReply(s, false) !in FullWay(h)
  {
  }

  /** A transfer whose conversion, device call or write has failed is never answered. */
  lemma FailedIsNeverAnswered(steps: seq<Step>, s: u32)
    requires Runnable(INITIAL, steps)
    requires FailConversion(s) in steps || DeviceReturns(s, false) in steps || WriteReply(s, false) in steps
    ensures RetSubmit(s) !in Run(INITIAL, steps).wire
  {
    OwnStepsExact(steps, s, FailConversion(s));
    OwnStepsExact(steps, s, DeviceReturns(s, false));
    OwnStepsExact(steps, s, WriteReply(s, false));
    AnsweredExact(steps, s);
    if h: Header :| h.seqnum == s && OwnSteps(steps, s) == FullWay(h) {
      FailureIsOffTheWay(h, s);
    }
  }

  // ---------- The running flag ----------

  lemma {:induction false} RunningExact(steps: seq<Step>)
    requires Runnable(INITIAL, steps)
    ensures Run(INITIAL, steps).running <==> Stop !in steps
    decreases |steps|
  {
    if steps != [] {
      var front, last := steps[..|steps| - 1], steps[|steps| - 1];
      assert steps == front + [last];
      RunLast(INITIAL, front, last);
      RunningExact(front);
    }
  }

  /** Each of the two looks at the running flag ends the handler, without a reply, exactly when the bridge
      has been stopped before. */
  lemma StoppedExact(past: seq<Step>, s: u32, look: Step)
    requires look == CheckRunning(s) || look == RecheckRunning(s)
    requires Runnable(INITIAL, past) && Enabled(Run(INITIAL, past), look)
    ensures var st' := Next(Run(INITIAL, past), look);
            && (Stop in past <==> At(st', s, Ended(BridgeStopped)))
            && (Stop !in past <==> At(st', s, if look.CheckRunning? then SeenRunning else AboutToWrite))
  {
    RunningExact(past);
  }

  // ---------- Which unlinks find their transfer ----------

  /** The CMD_UNLINK handled last: its own sequence number and its target. */
  function LastUnlink(steps: seq<Step>): Option<(u32, u32)> {
    if steps == [] then None
    else if steps[|steps| - 1].RecordUnlink? then Some((steps[|steps| - 1].seqnum, steps[|steps| - 1].target))
    else LastUnlink(steps[..|steps| - 1])
  }

  /** t has been registered, has not been deregistered, and no unlink has found it. */
  predicate Outstanding(steps: seq<Step>, t: u32) {
    Register(t) in steps && Deregister(t) !in steps && !FoundByUnlink(steps, t)
  }

  predicate FoundByUnlink(steps: seq<Step>, t: u32) {
    steps != []
    && var front, last := steps[..|steps| - 1], steps[|steps| - 1];
       FoundByUnlink(front, t)
       || (last.RemovePending? && LastUnlink(front).Some? && LastUnlink(front).value.1 == t && Register(t) in front)
  }

  /** What the last look for a pending transfer has given. */
  function Status(steps: seq<Step>): int {
    if steps == [] then 0
    else
      var front, last := steps[..|steps| - 1], steps[|steps| - 1];
      if last.RemovePending? && LastUnlink(front).Some? then
        if Outstanding(front, LastUnlink(front).value.1) then 0 else -2
      else Status(front)
  }

  ghost predicate ReaderKnown(st: State, steps: seq<Step>) {
    match st.reader
    case Idle => true
    case Recorded(n, t) => LastUnlink(steps) == Some((n, t))
    case Removed(n, t, status) => LastUnlink(steps) == Some((n, t)) && status == Status(steps)
  }

  ghost predicate PendingKnown(st: State, steps: seq<Step>, t: u32) {
    t in st.pending <==> Outstanding(steps, t)
  }

  lemma {:induction false} FoundWasRegistered(steps: seq<Step>, t: u32)
    requires FoundByUnlink(steps, t)
    ensures Register(t) in steps
  {
    var front, last := steps[..|steps| - 1], steps[|steps| - 1];
    assert steps == front + [last];
    if FoundByUnlink(front, t) {
      FoundWasRegistered(front, t);
    }
  }

  /** A handler about to register or to deregister has not done so before. */
  lemma NotTwice(st: State, steps: seq<Step>, step: Step, s: u32)
    requires WayKnown(st, steps, s) && Enabled(st, step) && (step == Register(s) || step == Deregister(s))
    ensures step !in steps
    ensures step == Register(s) ==> Deregister(s) !in steps
  {
    OwnStepsExact(steps, s, Register(s));
    OwnStepsExact(steps, s, Deregister(s));
  }

  lemma OutstandingAfter(steps: seq<Step>, step: Step, t: u32)
    ensures var now, before := steps + [step], Outstanding(steps, t);
            Outstanding(now, t) <==>
              if step == Register(t) then Deregister(t) !in steps && !FoundByUnlink(steps, t)
              else before && step != Deregister(t)
                   && !(step.RemovePending? && LastUnlink(steps).Some? && LastUnlink(steps).value.1 == t)
  {
    assert (steps + [step])[..|steps|] == steps;
    assert Register(t) in steps + [step] <==> Register(t) in steps || step == Register(t);
    assert Deregister(t) in steps + [step] <==> Deregister(t) in steps || step == Deregister(t);
  }

  lemma PendingAfter(st: State, step: Step, t: u32)
    requires Enabled(st, step)
    ensures t in Next(st, step).pending <==>
              step == Register(t)
              || (t in st.pending && step != Deregister(t) && !(step.RemovePending? && st.reader.target == t))
  {
  }

  lemma StepKeepsPendingKnown(st: State, steps: seq<Step>, step: Step, t: u32)
    requires WayKnown(st, steps, t) && ReaderKnown(st, steps) && PendingKnown(st, steps, t) && Enabled(st, step)
    ensures PendingKnown(Next(st, step), steps + [step], t)
  {
    PendingAfter(st, step, t);
    OutstandingAfter(steps, step, t);
    if step == Register(t) {
      NotTwice(st, steps, step, t);
      if FoundByUnlink(steps, t) {
        FoundWasRegistered(steps, t);
      }
    }
  }

  lemma StepKeepsReaderKnown(st: State, steps: seq<Step>, step: Step)
    requires ReaderKnown(st, steps) && Enabled(st, step)
    requires st.reader.Recorded? ==> PendingKnown(st, steps, st.reader.target)
    ensures ReaderKnown(Next(st, step), steps + [step])
  {
    assert (steps + [step])[..|steps|] == steps;
  }

  lemma {:induction false} UnlinksKnown(steps: seq<Step>, t: u32)
    requires Runnable(INITIAL, steps)
    ensures ReaderKnown(Run(INITIAL, steps), steps) && PendingKnown(Run(INITIAL, steps), steps, t)
    decreases |steps|
  {
    if steps != [] {
      var front, last := steps[..|steps| - 1], steps[|steps| - 1];
      assert steps == front + [last];
      RunLast(INITIAL, front, last);
      RunKnown(front, t);
      UnlinksKnown(front, t);
      var st := Run(INITIAL, front);
      StepKeepsPendingKnown(st, front, last, t);
      if st.reader.Recorded? {
        UnlinksKnown(front, st.reader.target);
      }
      StepKeepsReaderKnown(st, front, last);
    }
  }

  /** On every run the answer to a CMD_UNLINK carries that command's own sequence number, and status 0 if
      at the look-up its target was registered, not deregistered and not found by an earlier unlink, and
      -2 otherwise. */
  lemma UnlinkAnswerExact(past: seq<Step>)
    requires Runnable(INITIAL, past) && Run(INITIAL, past).reader.Removed?
    ensures LastUnlink(past).Some?
    ensures var (seqnum, target) := LastUnlink(past).value;
            Next(Run(INITIAL, past), WriteRetUnlink(true)).wire
            == Run(INITIAL, past).wire + [RetUnlink(seqnum, target, Status(past))]
  {
    UnlinksKnown(past, 0);
  }

  // ---------- Which transfers are suppressed ----------

  predicate UnlinkRecorded(steps: seq<Step>, s: u32) {
    exists step :: step in steps && step.RecordUnlink? && step.target == s
  }

  function CountRecords(steps: seq<Step>): nat {
    if steps == [] then 0
    else CountRecords(steps[..|steps| - 1]) + (if steps[|steps| - 1].RecordUnlink? then 1 else 0)
  }

  /** Before the look-up of s, an unlink of it is on record or forgotten exactly when there was one. */
  ghost predicate RecordKnown(st: State, steps: seq<Step>, s: u32) {
    BeforeCheck(st, s) ==>
      && (s in st.unlinked || s in st.forgotten <==> UnlinkRecorded(steps, s))
      && !(s in st.unlinked && s in st.forgotten)
  }

  ghost predicate FewRecords(st: State, records: nat) {
    |st.unlinked| <= records && (records <= 100 ==> st.forgotten == {})
  }

  lemma RecordedAfter(steps: seq<Step>, step: Step, s: u32)
    ensures UnlinkRecorded(steps + [step], s) <==> UnlinkRecorded(steps, s) || (step.RecordUnlink? && step.target == s)
    ensures CountRecords(steps + [step]) == CountRecords(steps) + (if step.RecordUnlink? then 1 else 0)
  {
    assert (steps + [step])[..|steps|] == steps;
    assert forall x :: x in steps + [step] <==> x in steps || x == step;
    if UnlinkRecorded(steps, s) {
      var x :| x in steps && x.RecordUnlink? && x.target == s;
      assert x in steps + [step];
    }
    if step.RecordUnlink? && step.target == s {
      assert step in steps + [step];
    }
  }

  /** A step that is not past the look-up of s neither adds nor takes a record of s, unless it is an unlink
      of s, or a full record is discarded. */
  lemma RecordChanges(st: State, step: Step, s: u32)
    requires Enabled(st, step) && BeforeCheck(Next(st, step), s)
    ensures BeforeCheck(st, s)
    ensures var st' := Next(st, step);
            if step.RecordUnlink? && step.target == s then s in st'.unlinked && s !in st'.forgotten
            else
              && (s in st'.unlinked ==> s in st.unlinked)
              && (s in st'.forgotten <==> s in st.forgotten || (s in st.unlinked && s !in st'.unlinked))
  {
  }

  lemma StepKeepsRecordKnown(st: State, steps: seq<Step>, step: Step, s: u32)
    requires RecordKnown(st, steps, s) && Enabled(st, step)
    ensures RecordKnown(Next(st, step), steps + [step], s)
  {
    RecordedAfter(steps, step, s);
    if BeforeCheck(Next(st, step), s) {
      RecordChanges(st, step, s);
    }
  }

  lemma StepKeepsFew(st: State, step: Step, records: nat)
    requires FewRecords(st, records) && Enabled(st, step)
    ensures FewRecords(Next(st, step), records + if step.RecordUnlink? then 1 else 0)
  {
    UnlinkedChanges(st, step);
    SubsetSize(Next(st, step).unlinked, st.unlinked);
    OneRecordMore(st, step, records);
  }

  lemma OneRecordMore(st: State, step: Step, records: nat)
    requires FewRecords(st, records) && Enabled(st, step)
    ensures step.RecordUnlink? ==> |Next(st, step).unlinked| <= records + 1
    ensures step.RecordUnlink? && records < 100 ==> Next(st, step).forgotten == {}
    ensures !step.RecordUnlink? ==> Next(st, step).forgotten == st.forgotten
  {
  }

  lemma {:induction false} RecordsAreKnown(steps: seq<Step>, s: u32)
    requires Runnable(INITIAL, steps)
    ensures RecordKnown(Run(INITIAL, steps), steps, s) && FewRecords(Run(INITIAL, steps), CountRecords(steps))
    decreases |steps|
  {
    if steps != [] {
      var front, last := steps[..|steps| - 1], steps[|steps| - 1];
      assert steps == front + [last];
      RunLast(INITIAL, front, last);
      RecordsAreKnown(front, s);
      RecordedAfter(front, last, s);
      StepKeepsRecordKnown(Run(INITIAL, front), front, last, s);
      StepKeepsFew(Run(INITIAL, front), last, CountRecords(front));
    }
  }

  /** The look-up suppresses the reply exactly when an unlink of s was recorded before it, in particular
      whatever became of that unlink otherwise; records are lost at the earliest with the 101st. */
  lemma SuppressedExact(past: seq<Step>, s: u32)
    requires Runnable(INITIAL, past) && Enabled(Run(INITIAL, past), CheckUnlinked(s))
    ensures var st, st' := Run(INITIAL, past), Next(Run(INITIAL, past), CheckUnlinked(s));
            && (At(st', s, Ended(Suppressed)) <==> UnlinkRecorded(past, s) && s !in st.forgotten)
            && (At(st', s, NotUnlinked) <==> !At(st', s, Ended(Suppressed)))
            && (CountRecords(past) <= 100 ==> st.forgotten == {})
  {
    RecordsAreKnown(past, s);
  }

  /** The numbers on record after these steps. */
  function OnRecord(steps: seq<Step>): set<u32> {
    if steps == [] then {}
    else
      var before, last := OnRecord(steps[..|steps| - 1]), steps[|steps| - 1];
      match last
      case RecordUnlink(_, t) => if |before| < 100 then before + {t} else {t}
      case CheckUnlinked(s) => before - {s}
      case _ => before
  }

  /** On every run the record holds the targets of the unlinks since it was last full with 100, except those
      that a look-up has taken out. */
  lemma {:induction false} RecordExact(steps: seq<Step>)
    requires Runnable(INITIAL, steps)
    ensures Run(INITIAL, steps).unlinked == OnRecord(steps)
    decreases |steps|
  {
    if steps != [] {
      var front, last := steps[..|steps| - 1], steps[|steps| - 1];
      assert steps == front + [last];
      RunLast(INITIAL, front, last);
      RecordExact(front);
    }
  }

  // ---------- The reader is one thread ----------

  predicate IsOfReader(step: Step) {
    step.Spawn? || step.RecordUnlink? || step.RemovePending? || step.WriteRetUnlink?
  }

  function LastOfReader(steps: seq<Step>): Option<Step> {
    if steps == [] then None
    else if IsOfReader(steps[|steps| - 1]) then Some(steps[|steps| - 1])
    else LastOfReader(steps[..|steps| - 1])
  }

  /** The last step of the reader finished a message, or there is none. */
  predicate BetweenMessages(steps: seq<Step>) {
    LastOfReader(steps).Some? ==> LastOfReader(steps).value.Spawn? || LastOfReader(steps).value.WriteRetUnlink?
  }

  predicate LastReaderStepIs(st: State, steps: seq<Step>) {
    match st.reader
    case Idle => BetweenMessages(steps)
    case Recorded(_, _) => LastOfReader(steps).Some? && LastOfReader(steps).value.RecordUnlink?
    case Removed(_, _, _) => LastOfReader(steps).Some? && LastOfReader(steps).value.RemovePending?
  }

  lemma {:induction false} ReaderFollowed(steps: seq<Step>)
    requires Runnable(INITIAL, steps)
    ensures LastReaderStepIs(Run(INITIAL, steps), steps)
    decreases |steps|
  {
    if steps != [] {
      var front, last := steps[..|steps| - 1], steps[|steps| - 1];
      assert steps == front + [last];
      RunLast(INITIAL, front, last);
      ReaderFollowed(front);
    }
  }

  lemma SpawnedHasSteps(past: seq<Step>, s: u32)
    requires Runnable(INITIAL, past)
    ensures s in Run(INITIAL, past).tasks <==> OwnSteps(past, s) != []
  {
    RunKnown(past, s);
  }

  /** On every run the reader takes up a message, a CMD_SUBMIT or a CMD_UNLINK, exactly between messages;
      a CMD_UNLINK is recorded, looked for and answered in this order without a message in between. */
  lemma ReaderIsSequential(past: seq<Step>, h: Header, seqnum: u32, target: u32, delivered: bool)
    requires Runnable(INITIAL, past)
    ensures var st := Run(INITIAL, past);
            && (Enabled(st, Spawn(h)) <==> BetweenMessages(past) && OwnSteps(past, h.seqnum) == [])
            && (Enabled(st, RecordUnlink(seqnum, target)) <==> BetweenMessages(past))
            && (Enabled(st, RemovePending)
                <==> LastOfReader(past).Some? && LastOfReader(past).value.RecordUnlink?)
            && (Enabled(st, WriteRetUnlink(delivered))
                <==> LastOfReader(past).Some? && LastOfReader(past).value.RemovePending?)
  {
    ReaderFollowed(past);
    SpawnedHasSteps(past, h.seqnum);
  }

  // ---------- Which handlers wait ----------

  /** An interrupt or bulk IN transfer of the same endpoint. */
  predicate SharesEndpoint(g: Header, h: Header) {
    g.direction == 1 && h.direction == 1 && g.ep > 0 && h.ep > 0 && g.ep % 128 == h.ep % 128
  }

  /** t has taken its turn and not returned. */
  predicate IsActive(st: State, t: u32) {
    t in st.tasks && !st.tasks[t].stage.Spawned? && !st.tasks[t].stage.Ended?
  }

  /** On every run a handler has to wait at its beginning exactly when another one, of an IN transfer of the
      same endpoint, has gone past that point and not returned; OUT transfers and those of endpoint 0
      never wait. */
  lemma WaitsExact(steps: seq<Step>, s: u32)
    requires Runnable(INITIAL, steps) && At(Run(INITIAL, steps), s, Spawned)
    ensures var st := Run(INITIAL, steps);
            Enabled(st, TakeLock(s))
            <==> !exists t :: IsActive(st, t) && SharesEndpoint(st.tasks[t].header, st.tasks[s].header)
  {
    BridgeSafety.RunKeepsOrdered(INITIAL, steps);
    BridgeProgress.RunKeepsLocksLive(INITIAL, steps);
    var st := Run(INITIAL, steps);
    var h := st.tasks[s].header;
    if h.InterruptIn() && h.EndpointAddr() in st.locks {
      var t := st.locks[h.EndpointAddr()];
      assert BridgeProgress.HolderLive(st, h.EndpointAddr());
      assert IsActive(st, t) && SharesEndpoint(st.tasks[t].header, h);
    }
  }
}
