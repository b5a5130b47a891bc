/** The bridge's shared fields and its lock sections as in-place methods.

    Each method is one step of the system in BridgeSteps.dfy: given a system state `st` that the
    fields reflect, it leaves them reflecting the state after the step.
 */
module SocketBridges {
  import opened Common
  import opened BridgeSteps

  class SocketBridge {
    var running: bool
    var pendingTransfers: set<u32>
    var interruptEndpointLocks: map<u8, u32>
    var unlinkedSeqnums: set<u32>
    var written: seq<Message>

    ghost predicate Reflects(st: State)
      reads this
    {
      && running == st.running
      && pendingTransfers == st.pending
      && interruptEndpointLocks == st.locks
      && unlinkedSeqnums == st.unlinked
      && written == st.wire
    }

    constructor ()
      ensures Reflects(INITIAL)
    {
      running := true;
      pendingTransfers, interruptEndpointLocks, unlinkedSeqnums, written := {}, map[], {}, [];
    }

    method StopBridge(ghost st: State)
      requires Reflects(st)
      modifies this`running
      ensures Reflects(Next(st, Stop))
    {
      running := false;
    }

    // ---------- Lock sections of a submit task ----------

    /** Waits for and takes the endpoint guard of an interrupt IN transfer. */
    method AcquireGuard(header: Header, ghost st: State)
      requires Reflects(st) && Enabled(st, TakeLock(header.seqnum)) && st.tasks[header.seqnum].header == header
      modifies this`interruptEndpointLocks
      ensures Reflects(Next(st, TakeLock(header.seqnum)))
    {
      if header.direction == 1 && header.ep > 0 {
        interruptEndpointLocks := interruptEndpointLocks[header.EndpointAddr() := header.seqnum];
      }
    }

    method DropGuard(header: Header)
      modifies this`interruptEndpointLocks
      ensures interruptEndpointLocks
              == if header.InterruptIn() then old(interruptEndpointLocks) - {header.EndpointAddr()}
                 else old(interruptEndpointLocks)
    {
      if header.direction == 1 && header.ep > 0 {
        interruptEndpointLocks := interruptEndpointLocks - {header.EndpointAddr()};
      }
    }

    method RegisterPending(header: Header, ghost st: State)
      requires Reflects(st) && Enabled(st, Register(header.seqnum))
      modifies this`pendingTransfers
      ensures Reflects(Next(st, Register(header.seqnum)))
    {
      pendingTransfers := pendingTransfers + {header.seqnum};
    }

    /** Deregisters after the device call and ends the handler if the call failed. */
    method DeregisterPending(header: Header, ok: bool, ghost st: State)
      requires Reflects(st) && At(st, header.seqnum, Returned(ok)) && st.tasks[header.seqnum].header == header
      modifies this`pendingTransfers, this`interruptEndpointLocks
      ensures Reflects(Next(st, Deregister(header.seqnum)))
      ensures At(Next(st, Deregister(header.seqnum)), header.seqnum, if ok then Deregistered else Ended(DeviceFailed))
      ensures !ok && header.InterruptIn() ==> header.EndpointAddr() !in interruptEndpointLocks
    {
      pendingTransfers := pendingTransfers - {header.seqnum};
      if !ok {
        DropGuard(header);
      }
    }

    /** Looks for an unlink of this transfer, consuming its record. */
    method SuppressIfUnlinked(header: Header, ghost st: State) returns (suppressed: bool)
      requires Reflects(st) && Enabled(st, CheckUnlinked(header.seqnum)) && st.tasks[header.seqnum].header == header
      modifies this`unlinkedSeqnums, this`interruptEndpointLocks
      ensures Reflects(Next(st, CheckUnlinked(header.seqnum)))
      ensures suppressed <==> At(Next(st, CheckUnlinked(header.seqnum)), header.seqnum, Ended(Suppressed))
    {
      suppressed := header.seqnum in unlinkedSeqnums;
      if suppressed {
        unlinkedSeqnums := unlinkedSeqnums - {header.seqnum};
        DropGuard(header);
      }
    }

    method SendRetSubmit(header: Header, socketOpen: bool, ghost st: State)
      requires Reflects(st) && Enabled(st, WriteReply(header.seqnum, socketOpen))
      requires st.tasks[header.seqnum].header == header
      modifies this`written, this`interruptEndpointLocks
      ensures Reflects(Next(st, WriteReply(header.seqnum, socketOpen)))
    {
      if socketOpen {
        written := written + [RetSubmit(header.seqnum)];
      }
      DropGuard(header);
    }

    // ---------- The reader ----------

    method RecordUnlinked(seqnum: u32, target: u32, ghost st: State)
      requires Reflects(st) && Enabled(st, RecordUnlink(seqnum, target))
      modifies this`unlinkedSeqnums
      ensures Reflects(Next(st, RecordUnlink(seqnum, target)))
    {
      if |unlinkedSeqnums| >= MAX_UNLINKED_SEQNUMS {
        unlinkedSeqnums := {};
      }
      unlinkedSeqnums := unlinkedSeqnums + {target};
    }

    method CancelPending(target: u32, ghost st: State) returns (status: int)
      requires Reflects(st) && st.reader.Recorded? && st.reader.target == target
      modifies this`pendingTransfers
      ensures Reflects(Next(st, RemovePending))
      ensures status == Next(st, RemovePending).reader.status
    {
      if target in pendingTransfers {
        pendingTransfers := pendingTransfers - {target};
        status := 0;
      } else {
        status := ENOENT;
      }
    }

    method SendRetUnlink(seqnum: u32, target: u32, status: int, socketOpen: bool, ghost st: State)
      requires Reflects(st) && st.reader == Removed(seqnum, target, status)
      modifies this`written
      ensures Reflects(Next(st, WriteRetUnlink(socketOpen)))
    {
      if socketOpen {
        written := written + [RetUnlink(seqnum, target, status)];
      }
    }

    /** handle_cmd_unlink_blocking when no task runs in between. */
    method HandleCmdUnlink(seqnum: u32, target: u32, socketOpen: bool, ghost st: State)
      requires Reflects(st) && st.reader.Idle?
      modifies this
      ensures var steps := [RecordUnlink(seqnum, target), RemovePending, WriteRetUnlink(socketOpen)];
              Runnable(st, steps) && Reflects(Run(st, steps))
    {
      ghost var st1 := Next(st, RecordUnlink(seqnum, target));
      RecordUnlinked(seqnum, target, st);
      ghost var st2 := Next(st1, RemovePending);
      var status := CancelPending(target, st1);
      SendRetUnlink(seqnum, target, status, socketOpen, st2);
      ghost var record, write := RecordUnlink(seqnum, target), WriteRetUnlink(socketOpen);
      StepThenRun(st2, write, []);
      StepThenRun(st1, RemovePending, [write]);
      StepThenRun(st, record, [RemovePending] + [write]);
      assert [record] + ([RemovePending] + [write]) == [record, RemovePending, write];
    }
  }
}
