/** No endpoint lock leaks, and the runs on which an unlinked transfer is answered after all. */
module BridgeProgress {
  import opened Common
  import opened BridgeSteps
  import BridgeSafety

  // ---------- The next step of a handler ----------

  /** The handler of s has not returned and does not wait for its endpoint. */
  predicate Able(st: State, s: u32) {
    && s in st.tasks && !st.tasks[s].stage.Ended?
    && (st.tasks[s].stage.Spawned? && st.tasks[s].header.InterruptIn() ==>
          st.tasks[s].header.EndpointAddr() !in st.locks)
  }

  /** What the handler does next; `well` chooses between success and failure of calls it makes. */
  function NextStep(st: State, s: u32, well: bool): Step
    requires s in st.tasks && !st.tasks[s].stage.Ended?
  {
    match st.tasks[s].stage
    case Spawned => TakeLock(s)
    case LockTaken => Register(s)
    case Registered => SubmitToDevice(s)
    case InDevice => DeviceReturns(s, well)
    case Returned(_) => Deregister(s)
    case Deregistered => CheckRunning(s)
    case SeenRunning => CheckUnlinked(s)
    case NotUnlinked => RecheckRunning(s)
    case AboutToWrite => WriteReply(s, well)
  }

  /** Steps left until the handler returns. */
  function Remaining(stage: Stage): nat {
    match stage
    case Spawned => 9
    case LockTaken => 8
    case Registered => 7
    case InDevice => 6
    case Returned(_) => 5
    case Deregistered => 4
    case SeenRunning => 3
    case NotUnlinked => 2
    case AboutToWrite => 1
    case Ended(_) => 0
  }

  /** Neither the reader nor another handler is touched. */
  ghost predicate OnlyTouches(st: State, st': State, s: u32) {
    && st'.running == st.running && st'.reader == st.reader && st'.forgotten == st.forgotten
    && st'.unlinked <= st.unlinked
    && st'.tasks.Keys == st.tasks.Keys
    && (forall x :: x in st.tasks && x != s ==> st'.tasks[x] == st.tasks[x])
    && (s in st.tasks ==> st'.tasks[s].header == st.tasks[s].header)
  }

  lemma NextStepTouches(st: State, s: u32, well: bool)
    requires Able(st, s)
    ensures Enabled(st, NextStep(st, s, well))
    ensures OnlyTouches(st, Next(st, NextStep(st, s, well)), s)
  {
    match st.tasks[s].stage
    case Spawned =>
    case Returned(ok) =>
    case AboutToWrite =>
    case _ =>
  }

  lemma NextStepAdvances(st: State, s: u32, well: bool)
    requires Able(st, s)
    ensures Enabled(st, NextStep(st, s, well))
    ensures var st' := Next(st, NextStep(st, s, well));
            && s in st'.tasks && Remaining(st'.tasks[s].stage) < Remaining(st.tasks[s].stage)
            && (Able(st', s) || st'.tasks[s].stage.Ended?)
            && (!well ==> st'.wire == st.wire)
  {
  }

  /** The locks without that of s. */
  function OtherLocks(st: State, s: u32): map<u8, u32>
    requires s in st.tasks
  {
    var h := st.tasks[s].header;
    if h.InterruptIn() then st.locks - {h.EndpointAddr()} else st.locks
  }

  lemma NextStepOtherLocks(st: State, s: u32, well: bool)
    requires Able(st, s)
    ensures Enabled(st, NextStep(st, s, well)) && s in Next(st, NextStep(st, s, well)).tasks
    ensures OtherLocks(Next(st, NextStep(st, s, well)), s) == OtherLocks(st, s)
  {
    var a := st.tasks[s].header.EndpointAddr();
    assert st.locks[a := s] - {a} == st.locks - {a} && st.locks - {a} - {a} == st.locks - {a};
    NextStepLocks(st, s, well);
  }

  /** A step of s leaves the locks alone, takes that of its endpoint or drops it. */
  lemma NextStepLocks(st: State, s: u32, well: bool)
    requires Able(st, s)
    ensures Enabled(st, NextStep(st, s, well))
    ensures var h, st' := st.tasks[s].header, Next(st, NextStep(st, s, well));
            && s in st'.tasks && st'.tasks[s].header == h
            && st'.locks == if !h.InterruptIn() then st.locks
                            else if st.tasks[s].stage.Spawned? then st.locks[h.EndpointAddr() := s]
                            else if st'.tasks[s].stage.Ended? then st.locks - {h.EndpointAddr()}
                            else st.locks
  {
    match st.tasks[s].stage
    case Spawned =>
    case Returned(ok) =>
    case AboutToWrite =>
    case _ =>
  }

  lemma EndFreesEndpoint(st: State, s: u32, well: bool)
    requires Able(st, s)
    ensures Enabled(st, NextStep(st, s, well)) && s in Next(st, NextStep(st, s, well)).tasks
    ensures var st' := Next(st, NextStep(st, s, well));
            st'.tasks[s].stage.Ended? ==> st'.locks == OtherLocks(st, s)
  {
  }

  /** A handler that does not wait can always return, alone and without writing, and then its endpoint
      is free. */
  lemma {:induction false} CanEndQuietly(st: State, s: u32) returns (steps: seq<Step>)
    requires Able(st, s)
    ensures Runnable(st, steps)
    ensures var st' := Run(st, steps);
            && OnlyTouches(st, st', s) && st'.wire == st.wire
            && st'.tasks[s].stage.Ended? && st'.locks == OtherLocks(st, s)
    decreases Remaining(st.tasks[s].stage)
  {
    var step := NextStep(st, s, false);
    var st' := Next(st, step);
    NextStepTouches(st, s, false);
    NextStepAdvances(st, s, false);
    NextStepOtherLocks(st, s, false);
    EndFreesEndpoint(st, s, false);
    var rest: seq<Step> := [];
    if !st'.tasks[s].stage.Ended? {
      rest := CanEndQuietly(st', s);
    }
    StepThenRun(st, step, rest);
    steps := [step] + rest;
  }

  // ---------- No lock leaks ----------

  /** Every lock is held by a handler of its endpoint that has not returned. */
  ghost predicate LocksLive(st: State) {
    forall a :: a in st.locks ==> HolderLive(st, a)
  }

  predicate HolderLive(st: State, a: u8)
    requires a in st.locks
  {
    var s := st.locks[a];
    && s in st.tasks && BridgeSafety.Holding(st.tasks[s].stage)
    && st.tasks[s].header.InterruptIn() && st.tasks[s].header.EndpointAddr() == a
  }

  /** A lock after a step was just taken, or had the same holder before. */
  lemma LockFromBefore(st: State, step: Step, a: u8)
    requires Enabled(st, step) && a in Next(st, step).locks
    ensures var s := Next(st, step).locks[a];
            || (a in st.locks && st.locks[a] == s)
            || (step == TakeLock(s) && st.tasks[s].header.InterruptIn() && st.tasks[s].header.EndpointAddr() == a)
  {
  }

  /** A holder goes on holding, or returns and leaves no lock behind. */
  lemma HolderGoesOn(st: State, step: Step, s: u32)
    requires Enabled(st, step) && s in st.tasks && BridgeSafety.Holding(st.tasks[s].stage)
    requires st.tasks[s].header.InterruptIn()
    ensures s in Next(st, step).tasks && Next(st, step).tasks[s].header == st.tasks[s].header
    ensures || BridgeSafety.Holding(Next(st, step).tasks[s].stage)
            || st.tasks[s].header.EndpointAddr() !in Next(st, step).locks
  {
  }

  lemma StepKeepsHolder(st: State, step: Step, a: u8)
    requires a in st.locks ==> HolderLive(st, a)
    requires Enabled(st, step)
    ensures a in Next(st, step).locks ==> HolderLive(Next(st, step), a)
  {
    if a in Next(st, step).locks {
      var s := Next(st, step).locks[a];
      LockFromBefore(st, step, a);
      if a in st.locks && st.locks[a] == s {
        HolderGoesOn(st, step, s);
      }
    }
  }

  lemma {:induction false} RunKeepsLocksLive(st: State, steps: seq<Step>)
    requires LocksLive(st) && Runnable(st, steps)
    ensures LocksLive(Run(st, steps))
    decreases |steps|
  {
    if steps != [] {
      var st' := Next(st, steps[0]);
      forall a | a in st'.locks
        ensures HolderLive(st', a)
      {
        StepKeepsHolder(st, steps[0], a);
      }
      RunKeepsLocksLive(st', steps[1..]);
    }
  }

  /** On every reachable state the holder of a lock can take its next step right away. */
  lemma HolderNeverWaits(steps: seq<Step>, a: u8)
    requires Runnable(INITIAL, steps) && a in Run(INITIAL, steps).locks
    ensures var st := Run(INITIAL, steps);
            && st.locks[a] in st.tasks && !st.tasks[st.locks[a]].stage.Ended?
            && forall well :: Enabled(st, NextStep(st, st.locks[a], well))
  {
    RunKeepsLocksLive(INITIAL, steps);
    var st := Run(INITIAL, steps);
    assert HolderLive(st, a);
    NextStepAdvances(st, st.locks[a], true);
    NextStepAdvances(st, st.locks[a], false);
  }

  /** A handler that waits for its endpoint can be made able by steps of the holder alone. */
  lemma FreeEndpoint(st: State, s: u32) returns (steps: seq<Step>)
    requires LocksLive(st) && s in st.tasks && !st.tasks[s].stage.Ended?
    ensures Runnable(st, steps)
    ensures var st' := Run(st, steps);
            && Able(st', s) && st'.tasks[s] == st.tasks[s] && st'.wire == st.wire
            && st'.running == st.running && st'.reader == st.reader && st'.forgotten == st.forgotten
            && st'.unlinked <= st.unlinked
  {
    steps := [];
    if !Able(st, s) {
      var a := st.tasks[s].header.EndpointAddr();
      assert HolderLive(st, a);
      steps := CanEndQuietly(st, st.locks[a]);
    }
  }

  /** From every reachable state every transfer can still come to its end: no endpoint is stuck. */
  lemma NoTransferIsStuck(past: seq<Step>, s: u32) returns (steps: seq<Step>)
    requires Runnable(INITIAL, past) && s in Run(INITIAL, past).tasks
    ensures var st := Run(INITIAL, past);
            && Runnable(st, steps) && s in Run(st, steps).tasks && Run(st, steps).tasks[s].stage.Ended?
            && Run(st, steps).wire == st.wire
  {
    var st := Run(INITIAL, past);
    RunKeepsLocksLive(INITIAL, past);
    steps := [];
    if !st.tasks[s].stage.Ended? {
      var freeing := FreeEndpoint(st, s);
      var ending := CanEndQuietly(Run(st, freeing), s);
      RunThenRun(st, freeing, ending);
      steps := freeing + ending;
    }
  }

  // ---------- Ways to a reply ----------

  /** Left alone, the transfer of s is answered. */
  predicate WillReply(st: State, s: u32) {
    && Able(st, s) && st.running && st.tasks[s].stage != Returned(false)
    && (s in st.unlinked ==> !BeforeCheck(st, s))
  }

  /** From registration to deregistration the transfer is pending, unless it was unlinked. */
  predicate PendingWhileRegistered(st: State, s: u32) {
    s in st.tasks && (st.tasks[s].stage.Registered? || st.tasks[s].stage.InDevice?) ==> s in st.pending
  }

  lemma NextStepTowardsReply(st: State, s: u32)
    requires WillReply(st, s)
    ensures Enabled(st, NextStep(st, s, true))
    ensures var st' := Next(st, NextStep(st, s, true));
            && st'.reader == st.reader && st'.forgotten == st.forgotten && st'.unlinked == st.unlinked
            && s in st'.tasks && Remaining(st'.tasks[s].stage) == Remaining(st.tasks[s].stage) - 1
            && (PendingWhileRegistered(st, s) ==> PendingWhileRegistered(st', s))
            && (if st.tasks[s].stage.AboutToWrite? then st'.wire == st.wire + [RetSubmit(s)]
                else WillReply(st', s) && st'.wire == st.wire)
  {
  }

  /** The steps of s up to the point where `left` steps remain. */
  lemma {:induction false} ComesTo(st: State, s: u32, left: nat) returns (steps: seq<Step>)
    requires WillReply(st, s) && 1 <= left <= Remaining(st.tasks[s].stage)
    ensures Runnable(st, steps)
    ensures var st' := Run(st, steps);
            && WillReply(st', s) && Remaining(st'.tasks[s].stage) == left && st'.wire == st.wire
            && st'.reader == st.reader && st'.forgotten == st.forgotten && st'.unlinked == st.unlinked
            && (PendingWhileRegistered(st, s) ==> PendingWhileRegistered(st', s))
    decreases Remaining(st.tasks[s].stage)
  {
    steps := [];
    if left < Remaining(st.tasks[s].stage) {
      var step := NextStep(st, s, true);
      NextStepTowardsReply(st, s);
      var rest := ComesTo(Next(st, step), s, left);
      StepThenRun(st, step, rest);
      steps := [step] + rest;
    }
  }

  lemma Replies(st: State, s: u32) returns (steps: seq<Step>)
    requires WillReply(st, s)
    ensures Runnable(st, steps)
    ensures Run(st, steps).wire == st.wire + [RetSubmit(s)] && Run(st, steps).forgotten == st.forgotten
  {
    var way := ComesTo(st, s, 1);
    var last := WriteReply(s, true);
    var st' := Run(st, way);
    NextStepTowardsReply(st', s);
    StepThenRun(st', last, []);
    RunThenRun(st, way, [last]);
    steps := way + [last];
  }

  /** Three steps of the reader for one CMD_UNLINK. */
  function Unlinking(seqnum: u32, target: u32): seq<Step> {
    [RecordUnlink(seqnum, target), RemovePending, WriteRetUnlink(true)]
  }

  lemma UnlinkingRuns(st: State, seqnum: u32, target: u32)
    requires st.reader.Idle?
    ensures Runnable(st, Unlinking(seqnum, target))
    ensures var st' := Run(st, Unlinking(seqnum, target));
            && st'.reader.Idle? && st'.running == st.running && st'.tasks == st.tasks && st'.locks == st.locks
            && st'.unlinked == Record(st.unlinked, target) && st'.pending == st.pending - {target}
            && st'.wire == st.wire + [RetUnlink(seqnum, target, if target in st.pending then 0 else ENOENT)]
  {
    var a, b, c := RecordUnlink(seqnum, target), RemovePending, WriteRetUnlink(true);
    var st1 := Next(st, a);
    var st2 := Next(st1, b);
    StepThenRun(st2, c, []);
    StepThenRun(st1, b, [c]);
    StepThenRun(st, a, [b, c]);
    assert [a] + ([b] + [c]) == Unlinking(seqnum, target);
  }

  // ---------- Replies in spite of an unlink ----------

  /** An unlink that comes between the look-up and the write is answered with -2, and then the
      transfer is answered too, whatever its header. */
  lemma UnlinkedAfterLookUp(h: Header, seqnum: u32) returns (steps: seq<Step>)
    ensures Runnable(INITIAL, steps)
    ensures Run(INITIAL, steps).wire == [RetUnlink(seqnum, h.seqnum, -2), RetSubmit(h.seqnum)]
  {
    var s, spawn := h.seqnum, Spawn(h);
    var way := ComesTo(Next(INITIAL, spawn), s, Remaining(NotUnlinked));
    StepThenRun(INITIAL, spawn, way);
    var front := [spawn] + way;
    var st := Run(INITIAL, front);
    BridgeSafety.ReachableInv(front);
    UnlinkingRuns(st, seqnum, s);
    var unlinked := Run(st, Unlinking(seqnum, s));
    var end := Replies(unlinked, s);
    RunThenRun(st, Unlinking(seqnum, s), end);
    RunThenRun(INITIAL, front, Unlinking(seqnum, s) + end);
    steps := front + (Unlinking(seqnum, s) + end);
  }

  /** The i-th sequence number after s. */
  function After(s: u32, i: nat): u32
    requires i < U32_LIMIT
  {
    if s + i < U32_LIMIT then s + i else s + i - U32_LIMIT
  }

  /** Unlinks of the numbers after s fill the record one by one. */
  lemma {:induction false} FillRecord(st: State, s: u32, seqnum: u32, k: nat) returns (steps: seq<Step>)
    requires st.reader.Idle? && st.unlinked == {s} && k < MAX_UNLINKED_SEQNUMS
    ensures Runnable(st, steps)
    ensures var st' := Run(st, steps);
            && st'.reader.Idle? && st'.running == st.running && st'.tasks == st.tasks && st'.locks == st.locks
            && |st'.unlinked| == k + 1 && |st'.wire| == |st.wire| + k && st.wire <= st'.wire
            && forall i :: k < i <= MAX_UNLINKED_SEQNUMS ==> After(s, i) !in st'.unlinked
    decreases k
  {
    steps := [];
    if k > 0 {
      var front := FillRecord(st, s, seqnum, k - 1);
      var st' := Run(st, front);
      UnlinkingRuns(st', seqnum, After(s, k));
      RunThenRun(st, front, Unlinking(seqnum, After(s, k)));
      steps := front + Unlinking(seqnum, After(s, k));
    }
  }

  /** A transfer is unlinked while the device works on it, with status 0; a hundred further unlinks
      discard the record of it; then it is answered, whatever its header. */
  lemma CancelledThenAnswered(h: Header, seqnum: u32) returns (steps: seq<Step>)
    ensures Runnable(INITIAL, steps)
    ensures var wire := Run(INITIAL, steps).wire;
            |wire| == 102 && wire[0] == RetUnlink(seqnum, h.seqnum, 0) && wire[101] == RetSubmit(h.seqnum)
  {
    var s, spawn := h.seqnum, Spawn(h);
    var way := ComesTo(Next(INITIAL, spawn), s, Remaining(InDevice));
    StepThenRun(INITIAL, spawn, way);
    var front := [spawn] + way;
    var st1 := Run(INITIAL, front);
    assert s in st1.pending;
    UnlinkingRuns(st1, seqnum, s);
    var st2 := Run(st1, Unlinking(seqnum, s));
    var fill := FillRecord(st2, s, seqnum, MAX_UNLINKED_SEQNUMS - 1);
    var st3 := Run(st2, fill);
    var one := Unlinking(seqnum, After(s, MAX_UNLINKED_SEQNUMS));
    UnlinkingRuns(st3, seqnum, After(s, MAX_UNLINKED_SEQNUMS));
    var st4 := Run(st3, one);
    var end := Replies(st4, s);
    RunThenRun(st3, one, end);
    RunThenRun(st2, fill, one + end);
    RunThenRun(st1, Unlinking(seqnum, s), fill + (one + end));
    RunThenRun(INITIAL, front, Unlinking(seqnum, s) + (fill + (one + end)));
    steps := front + (Unlinking(seqnum, s) + (fill + (one + end)));
  }

  /** With 100 records, one more unlink discards that of s; then s can be answered from every stage
      before its look-up, unless its device call has failed. */
  lemma DiscardedRecordAllowsReply(st: State, s: u32, seqnum: u32, target: u32) returns (rest: seq<Step>)
    requires LocksLive(st) && st.running && st.reader.Idle? && |st.unlinked| >= 100
    requires s in st.tasks && BeforeCheck(st, s) && st.tasks[s].stage != Returned(false) && s != target
    ensures var steps := [RecordUnlink(seqnum, target)] + rest;
            && Runnable(st, steps) && Run(st, steps).wire == st.wire + [RetSubmit(s)]
            && (s in st.unlinked ==> s in Run(st, steps).forgotten)
  {
    var record := RecordUnlink(seqnum, target);
    var st1 := Next(st, record);
    var freeing := FreeEndpoint(st1, s);
    var st2 := Run(st1, freeing);
    var end := Replies(st2, s);
    RunThenRun(st1, freeing, end);
    rest := freeing + end;
    StepThenRun(st, record, rest);
  }
}
