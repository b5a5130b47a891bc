/** Cancellation safety and per-endpoint ordering of the socket bridge, over all interleavings. */
module BridgeSafety {
  import opened Common
  import opened BridgeSteps

  lemma ReachableInv(steps: seq<Step>)
    requires Runnable(INITIAL, steps)
    ensures Inv(Run(INITIAL, steps))
  {
    RunKeepsInv(INITIAL, steps);
  }

  // ---------- Cancellation ----------

  /** If a CMD_UNLINK of t is answered with status 0, no RET_SUBMIT for t is on the wire, before or
      after, unless the size limit discarded the last record of t before t's own look-up. */
  lemma CancelledIsNeverAnswered(steps: seq<Step>, i: nat, j: nat)
    requires Runnable(INITIAL, steps)
    requires var st := Run(INITIAL, steps);
             && i < |st.wire| && j < |st.wire|
             && st.wire[i].RetUnlink? && st.wire[i].status == 0 && st.wire[i].target !in st.forgotten
             && st.wire[j].RetSubmit?
    ensures var st := Run(INITIAL, steps);
            st.wire[j].seqnum != st.wire[i].target
  {
    ReachableInv(steps);
    var st := Run(INITIAL, steps);
    assert Cancelled(st, st.wire[i].target);
  }

  /** The set of recorded unlinks stays bounded and every transfer is answered at most once. */
  lemma BoundedAndOnce(steps: seq<Step>, i: nat, j: nat)
    requires Runnable(INITIAL, steps)
    requires i < j < |Run(INITIAL, steps).wire|
    ensures |Run(INITIAL, steps).unlinked| <= 100
    ensures var w := Run(INITIAL, steps).wire;
            w[i].RetSubmit? && w[j].RetSubmit? ==> w[i].seqnum != w[j].seqnum
  {
    ReachableInv(steps);
  }

  /** Transfer s passed its look-up before the unlink was recorded and has yet to write. */
  predicate Committed(st: State, s: u32) {
    At(st, s, AboutToWrite) || (At(st, s, NotUnlinked) && st.running)
  }

  /** No reply to s will be added. */
  predicate Silent(st: State, s: u32) {
    Blocked(st, s) || (At(st, s, NotUnlinked) && !st.running) || At(st, s, Ended(Replied))
  }

  /** Nothing to come answers s as long as its record stays. */
  predicate Quiet(st: State, s: u32) {
    Silent(st, s) || s in st.forgotten
  }

  lemma StepKeepsQuiet(st: State, step: Step, s: u32)
    requires Quiet(st, s) && Enabled(st, step)
    requires s in st.forgotten ==> BeforeCheck(st, s)
    ensures Quiet(Next(st, step), s)
    ensures RetSubmit(s) !in Added(st, step)
  {
    if Blocked(st, s) {
      StepKeepsBlocked(st, step, s);
    }
  }

  /** What is forgotten at the look-up stays forgotten. */
  lemma {:induction false} ForgottenForGood(st: State, steps: seq<Step>, s: u32)
    requires Runnable(st, steps) && s in st.forgotten && !BeforeCheck(st, s)
    ensures s in Run(st, steps).forgotten
    decreases |steps|
  {
    if steps != [] {
      ForgottenForGood(Next(st, steps[0]), steps[1..], s);
    }
  }

  lemma {:induction false} RunKeepsQuiet(st: State, steps: seq<Step>, s: u32)
    requires Quiet(st, s) && Runnable(st, steps) && s !in Run(st, steps).forgotten
    ensures st.wire <= Run(st, steps).wire
    ensures RetSubmit(s) !in Run(st, steps).wire[|st.wire|..]
    decreases |steps|
  {
    if steps != [] {
      if s in st.forgotten && !BeforeCheck(st, s) {
        ForgottenForGood(st, steps, s);
      }
      var st' := Next(st, steps[0]);
      StepKeepsQuiet(st, steps[0], s);
      WireGrows(st, steps[0]);
      RunKeepsQuiet(st', steps[1..], s);
      var w, w' := st'.wire, Run(st', steps[1..]).wire;
      assert w'[|st.wire|..] == Added(st, steps[0]) + w'[|w|..];
    }
  }

  /** Some continuation that keeps the record of s until its look-up adds a RET_SUBMIT for s. */
  ghost predicate CanStillReply(st: State, s: u32) {
    exists steps ::
      && Runnable(st, steps) && s !in Run(st, steps).forgotten
      && st.wire <= Run(st, steps).wire && RetSubmit(s) in Run(st, steps).wire[|st.wire|..]
  }

  lemma CommittedCanReply(st: State, s: u32)
    requires Committed(st, s) && s !in st.forgotten
    ensures CanStillReply(st, s)
  {
    var write := WriteReply(s, true);
    if At(st, s, AboutToWrite) {
      StepThenRun(st, write, []);
      assert Run(st, [write]).wire == st.wire + [RetSubmit(s)];
    } else {
      StepThenRun(Next(st, RecheckRunning(s)), write, []);
      StepThenRun(st, RecheckRunning(s), [write]);
      assert Run(st, [RecheckRunning(s), write]).wire == st.wire + [RetSubmit(s)];
    }
  }

  /** A recorded unlink stops every later RET_SUBMIT except that of a transfer already past its
      look-up: the look-up and the write are separate steps. */
  lemma LateReplyExact(st: State, s: u32)
    requires s in st.unlinked && s !in st.forgotten
    ensures CanStillReply(st, s) <==> Committed(st, s)
  {
    if Committed(st, s) {
      CommittedCanReply(st, s);
    } else {
      assert Quiet(st, s);
      forall steps | Runnable(st, steps) && s !in Run(st, steps).forgotten
        ensures st.wire <= Run(st, steps).wire && RetSubmit(s) !in Run(st, steps).wire[|st.wire|..]
      {
        RunKeepsQuiet(st, steps, s);
      }
    }
  }

  // ---------- Ordering per endpoint ----------

  predicate SameInEndpoint(a: Header, b: Header) {
    a.InterruptIn() && b.InterruptIn() && a.EndpointAddr() == b.EndpointAddr()
  }

  /** From taking the lock to returning. */
  predicate Holding(stage: Stage) {
    !stage.Spawned? && !stage.Ended?
  }

  /** The transfer was handed to the device. */
  predicate Submitted(stage: Stage) {
    !stage.Spawned? && !stage.LockTaken? && !stage.Registered? && stage != Ended(ConversionFailed)
  }

  ghost predicate LocksHeld(st: State) {
    forall s :: s in st.tasks && Holding(st.tasks[s].stage) && st.tasks[s].header.InterruptIn() ==>
      && st.tasks[s].header.EndpointAddr() in st.locks
      && st.locks[st.tasks[s].header.EndpointAddr()] == s
  }

  ghost predicate ReadsNumbered(st: State) {
    forall s :: s in st.tasks && Submitted(st.tasks[s].stage) ==>
      st.tasks[s].readIndex < |st.submissions| && st.submissions[st.tasks[s].readIndex] == s
  }

  /** Whoever still holds an endpoint read after everyone already answered on it. */
  ghost predicate HolderReadsLast(st: State) {
    forall s, t ::
      (&& s in st.tasks && t in st.tasks
       && st.tasks[s].stage == Ended(Replied)
       && Submitted(st.tasks[t].stage) && Holding(st.tasks[t].stage)
       && SameInEndpoint(st.tasks[s].header, st.tasks[t].header))
      ==> st.tasks[s].readIndex < st.tasks[t].readIndex
  }

  ghost predicate RepliesInReadOrder(st: State) {
    forall i, j :: 0 <= i < j < |st.wire| && st.wire[i].RetSubmit? && st.wire[j].RetSubmit? ==>
      var s, t := st.wire[i].seqnum, st.wire[j].seqnum;
      && s in st.tasks && t in st.tasks
      && (SameInEndpoint(st.tasks[s].header, st.tasks[t].header) ==> st.tasks[s].readIndex < st.tasks[t].readIndex)
  }

  ghost predicate Ordered(st: State) {
    Inv(st) && LocksHeld(st) && ReadsNumbered(st) && HolderReadsLast(st) && RepliesInReadOrder(st)
  }

  /** A task that holds its endpoint after a step took the lock in it or already held it. */
  lemma HoldersAndLocks(st: State, step: Step, s: u32)
    requires Enabled(st, step) && s in Next(st, step).tasks && Holding(Next(st, step).tasks[s].stage)
    ensures s in st.tasks && Next(st, step).tasks[s].header == st.tasks[s].header
    ensures Holding(st.tasks[s].stage) || step == TakeLock(s)
  {
  }

  /** A step takes a free lock, or drops that of a holder that ends, or leaves the locks alone. */
  lemma LockChanges(st: State, step: Step, s: u32)
    requires LocksHeld(st) && Enabled(st, step) && s in st.tasks && st.tasks[s].header.InterruptIn()
    requires s in Next(st, step).tasks && Holding(Next(st, step).tasks[s].stage)
    ensures var a := st.tasks[s].header.EndpointAddr();
            a in Next(st, step).locks && Next(st, step).locks[a] == s
  {
    HoldersAndLocks(st, step, s);
  }

  lemma StepKeepsLocks(st: State, step: Step)
    requires LocksHeld(st) && Enabled(st, step)
    ensures LocksHeld(Next(st, step))
  {
    var st' := Next(st, step);
    forall s | s in st'.tasks && Holding(st'.tasks[s].stage) && st'.tasks[s].header.InterruptIn()
      ensures st'.tasks[s].header.EndpointAddr() in st'.locks && st'.locks[st'.tasks[s].header.EndpointAddr()] == s
    {
      HoldersAndLocks(st, step, s);
      LockChanges(st, step, s);
    }
  }

  lemma SubmittedTasks(st: State, step: Step, s: u32)
    requires Enabled(st, step) && s in Next(st, step).tasks && Submitted(Next(st, step).tasks[s].stage)
    ensures s in st.tasks && (Submitted(st.tasks[s].stage) || step == SubmitToDevice(s))
    ensures step != SubmitToDevice(s) ==> Next(st, step).tasks[s].readIndex == st.tasks[s].readIndex
  {
  }

  lemma StepKeepsReads(st: State, step: Step)
    requires ReadsNumbered(st) && Enabled(st, step)
    ensures ReadsNumbered(Next(st, step))
  {
    var st' := Next(st, step);
    forall s | s in st'.tasks && Submitted(st'.tasks[s].stage)
      ensures st'.tasks[s].readIndex < |st'.submissions| && st'.submissions[st'.tasks[s].readIndex] == s
    {
      SubmittedTasks(st, step, s);
    }
  }

  /** A task that replied stays as it is; one that replies now held its endpoint. */
  lemma RepliedTasks(st: State, step: Step, s: u32)
    requires Enabled(st, step) && At(Next(st, step), s, Ended(Replied))
    ensures At(st, s, Ended(Replied)) ==> Next(st, step).tasks[s] == st.tasks[s]
    ensures !At(st, s, Ended(Replied)) ==>
              && At(st, s, AboutToWrite) && step == WriteReply(s, true)
              && Next(st, step).tasks[s] == st.tasks[s].(stage := Ended(Replied))
  {
  }

  lemma RepliedOrNot(st: State, step: Step, s: u32)
    requires Enabled(st, step)
    ensures At(Next(st, step), s, Ended(Replied)) <==> At(st, s, Ended(Replied)) || step == WriteReply(s, true)
  {
  }

  /** A holder after the step held, or was about to submit or to take the lock, before it. */
  lemma HoldingTasks(st: State, step: Step, t: u32)
    requires Enabled(st, step)
    requires t in Next(st, step).tasks
    requires Holding(Next(st, step).tasks[t].stage) && Submitted(Next(st, step).tasks[t].stage)
    ensures t in st.tasks && Holding(st.tasks[t].stage) && Next(st, step).tasks[t].header == st.tasks[t].header
    ensures Submitted(st.tasks[t].stage) ==> Next(st, step).tasks[t].readIndex == st.tasks[t].readIndex
    ensures !Submitted(st.tasks[t].stage) ==> Next(st, step).tasks[t].readIndex == |st.submissions|
  {
  }

  lemma StepKeepsHolderLast(st: State, step: Step)
    requires LocksHeld(st) && ReadsNumbered(st) && HolderReadsLast(st) && Enabled(st, step)
    ensures HolderReadsLast(Next(st, step))
  {
    var st' := Next(st, step);
    forall s, t |
      (&& s in st'.tasks && t in st'.tasks
       && st'.tasks[s].stage == Ended(Replied)
       && Submitted(st'.tasks[t].stage) && Holding(st'.tasks[t].stage)
       && SameInEndpoint(st'.tasks[s].header, st'.tasks[t].header))
      ensures st'.tasks[s].readIndex < st'.tasks[t].readIndex
    {
      RepliedTasks(st, step, s);
      HoldingTasks(st, step, t);
      assert At(st, s, Ended(Replied));
    }
  }

  lemma StepKeepsReplyOrder(st: State, step: Step)
    requires Inv(st) && HolderReadsLast(st) && RepliesInReadOrder(st) && Enabled(st, step)
    ensures RepliesInReadOrder(Next(st, step))
  {
    var st' := Next(st, step);
    WireGrows(st, step);
    forall i, j | 0 <= i < j < |st'.wire| && st'.wire[i].RetSubmit? && st'.wire[j].RetSubmit?
      ensures var s, t := st'.wire[i].seqnum, st'.wire[j].seqnum;
              && s in st'.tasks && t in st'.tasks
              && (SameInEndpoint(st'.tasks[s].header, st'.tasks[t].header) ==>
                  st'.tasks[s].readIndex < st'.tasks[t].readIndex)
    {
      var s, t := st'.wire[i].seqnum, st'.wire[j].seqnum;
      StepKeepsReplies(st, step);
      RepliedTasks(st, step, s);
      RepliedTasks(st, step, t);
      assert st.wire[i] == st'.wire[i];
    }
  }

  lemma {:induction false} RunKeepsOrdered(st: State, steps: seq<Step>)
    requires Ordered(st) && Runnable(st, steps)
    ensures Ordered(Run(st, steps))
    decreases |steps|
  {
    if steps != [] {
      StepKeepsInv(st, steps[0]);
      StepKeepsLocks(st, steps[0]);
      StepKeepsReads(st, steps[0]);
      StepKeepsHolderLast(st, steps[0]);
      StepKeepsReplyOrder(st, steps[0]);
      RunKeepsOrdered(Next(st, steps[0]), steps[1..]);
    }
  }

  /** At most one transfer per IN endpoint is at the device. */
  lemma OneReadPerEndpoint(steps: seq<Step>, s: u32, t: u32)
    requires Runnable(INITIAL, steps)
    requires var st := Run(INITIAL, steps);
             && At(st, s, InDevice) && At(st, t, InDevice)
             && SameInEndpoint(st.tasks[s].header, st.tasks[t].header)
    ensures s == t
  {
    RunKeepsOrdered(INITIAL, steps);
  }

  /** The replies of one IN endpoint are written in the order of its device submissions. */
  lemma RepliesFollowReads(steps: seq<Step>, i: nat, j: nat)
    requires Runnable(INITIAL, steps)
    requires var st := Run(INITIAL, steps); i < j < |st.wire| && st.wire[i].RetSubmit? && st.wire[j].RetSubmit?
    ensures var st := Run(INITIAL, steps);
            var s, t := st.wire[i].seqnum, st.wire[j].seqnum;
            && s in st.tasks && t in st.tasks
            && (SameInEndpoint(st.tasks[s].header, st.tasks[t].header) ==>
                  exists m, n :: 0 <= m < n < |st.submissions| && st.submissions[m] == s && st.submissions[n] == t)
  {
    RunKeepsOrdered(INITIAL, steps);
  }
}
