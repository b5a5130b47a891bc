# Verification of rust-p2p-usb

This project models the stateful and arithmetic cores of the repository in Dafny and proves what
they keep over whole runs. `dafny verify dfyconfig.toml` checks all of it.

* **Interrupt receive buffer** (client): `ReceiveBuffer`, `GapLedger`, `MissingAges`, `ContiguousMark`,
  `Convergence`, `ReceiveQueue`, and the class in `EndpointReceiveBuffer`. Sequence tracking, NACK
  bookkeeping, a bounded queue and the flow-control window. A run is any list of calls; an observer's
  history records what was accepted, given up, served, dropped and cleared.
* **USB/IP socket bridge** (client): `BridgeSteps`, `BridgeSafety`, `BridgeProgress`, `BridgeHistory`, and
  the class in `SocketBridge`. The reader thread and one async handler per CMD_SUBMIT are a system with one step per
  lock section, per look at the running flag and per socket write.
* **Rate limiter** (common): `TokenBucket`, `RateLimits` (lock sections and their interleavings),
  `Throughput`, `SingleCalls`, `CheckCalls`, `CallLevels`, `UninterruptedCalls`, `LockOrder`, and the class
  in `RateLimiter`.
* **Checksum** (protocol): `Integrity`, a bit-level model of the reflected CRC.
* **Audit log** (server): `Calendar`, `Decimal`, `Timestamps`, `AuditLog`, and the class in `AuditWriter`.
* **USB/IP codec** (client): `UsbIpWire`, `UsbIpReplies`, `WireLayout`, and the reader and buffer classes in
  `UsbIpStreams`.
* **Durations** (server configuration): `Durations`, `DurationTexts`.
* **Notification aggregator** (server): `Notifications`, and the class in `NotificationAggregator`.
* **Fair scheduler and time windows** (server): `Scheduling`, `Quotas`, the class in `FairScheduler`,
  `TimeWindows`.

Where the program changes state in place there is a class whose methods are proved against functions
on a value of all its fields; the theorems are about these functions, over whole runs. What a call does
is also stated without them, from its arguments, the past calls or the bytes alone: `MissingAges`,
`BridgeHistory`, `CallLevels`, `WireLayout`, `DurationTexts`, `Quotas`, and the reference calendar.

Several properties one would expect hold only under a condition; each comes with its exact condition or
bound and with an input on which it fails:

* a receive stream should not start at 0 (`ContiguousMark.MarkSoundExact`), and its books break on the
  sequence number without a successor, 2^64 - 1 (`GapLedger.GapLedger`,
  `ContiguousMark.MarkAlwaysSoundExact`, `Convergence.ConvergesExact`);
* `max_size` should not be 0 (`ReceiveQueue.CapacityExact`), `max_files` should be at least 2
  (`AuditLog.RotatedFilesExactlyBounded`);
* after a restart the current audit file can exceed `max_entries` by the entries found in it
  (`AuditLog.CurrentFileBelowLimits`, `AuditLog.RestartExceedsEntryLimit`);
* timestamps sort through the year 9999 (`Timestamps.SortsExact`);
* a status change as the last event hides an arrival or removal (`Notifications.AggregationExact`);
* `check` allows what `try_acquire` refuses when at most half a nanosecond is missing
  (`CheckCalls.CheckAgreesWithAcquire`);
* an unlink that comes after the suppression look-up does not stop the reply
  (`BridgeSafety.LateReplyExact`, `BridgeProgress.UnlinkedAfterLookUp`), nor does one whose record the
  size limit has cleared (`BridgeProgress.CancelledThenAnswered`);
* removing a bucket grants another burst (`Throughput.RemovalGrantsAnotherBurst`).

Some defects are latent. Replies put ISO descriptors in front of the data, which would garble them
(`UsbIpReplies.RecoveredExact`), but no request that can be read leads there
(`UsbIpReplies.ReplyToReadMessage`). Aggregation would lose an id when a status change renames a device,
and new info when an id is used again (`Notifications.RenamingLosesId`,
`Notifications.ReplugKeepsOldEntry`), but this server gives every arrival a new id and sends no info with
status changes (`Notifications.ServerLogsExact`).

Where the code and its comments disagree the code is followed: the comments of
`crates/protocol/src/integrity.rs` name CRC32C (section 12.1 of RFC 3720) while the hasher used computes
the IEEE CRC-32 (section 3.2.9 of IEEE 802.3), so the polynomial is a parameter; `UsbIpHeader` is called
a 48-byte header and has 20 bytes; `flow_control_state` announces hysteresis and keeps no previous state.

## Model

| member | source | states |
|---|---|---|
| `GapLedger.GapLedger` | crates/client/src/virtual_usb/interrupt_receive_buffer.rs:412-491 | On every run of calls: the sequences from the activation point up to `next_expected` split exactly into accepted, missing and given up, `next_expected` is one past the highest accepted sequence or the start, the missing set and the timestamp keys are equal and at most 256, and the contiguous mark is at most `highest_seq` and below everything missing (a missing 0 excepted) - if and only if the report numbered 2^64 - 1, whose successor wraps to 0, has not been accepted since the last activation. |
| `GapLedger.StoreKeepsLedgerExact` | crates/client/src/virtual_usb/interrupt_receive_buffer.rs:484-495 | Storing a report keeps that ledger intact if and only if the report is refused or its sequence number has a successor in u64; for the last one the ledger breaks. |
| `GapLedger.TrackRangeExact` | crates/client/src/virtual_usb/interrupt_receive_buffer.rs:440-467 | The insertion loop over a gap tracks precisely the first sequences of the gap, as many as the table of 256 still has room for. |
| `GapLedger.ReconcileExact` | crates/client/src/virtual_usb/interrupt_receive_buffer.rs:440-482 | What an accepted report does to the missing set: a jump adds a prefix of the gap, anything else removes only its own number; the two tables keep the same keys. |
| `GapLedger.StepKeepsLedger` | crates/client/src/virtual_usb/interrupt_receive_buffer.rs:412-575 | Every single call, expiry of old sequences and deactivation included, keeps the ledger, except storing an accepted report numbered 2^64 - 1, which breaks it. |
| `GapLedger.GapsCounted` | crates/client/src/virtual_usb/interrupt_receive_buffer.rs:438-455 | On every run that has not accepted 2^64 - 1 since the last activation the gap counter grows by one for precisely the accepted reports that lie beyond the start and beyond the successor of every accepted number. |
| `MissingAges.GivenUpExact` | crates/client/src/virtual_usb/interrupt_receive_buffer.rs:545-575 | After any run from a new buffer: a missing sequence survives a query, and so is in the list returned, if and only if at most 100 ms have passed since the accepted report that last skipped it, whatever the clock did in between. |
| `MissingAges.FoundOnce` | crates/client/src/virtual_usb/interrupt_receive_buffer.rs:451-467 | There is one such report for each missing sequence. |
| `MissingAges.StepStamps` | crates/client/src/virtual_usb/interrupt_receive_buffer.rs:457-467 | A sequence that stays missing keeps its instant; the only call that makes one missing is an accepted report that skips it. |
| `ContiguousMark.MarkNeverDecreases` | crates/client/src/virtual_usb/interrupt_receive_buffer.rs:524-539 | After any run whatever, `last_contiguous_seq` is at most `highest_seq`, and no call other than `activate` moves it back. |
| `ContiguousMark.BelowMarkAccountedFor` | crates/client/src/virtual_usb/interrupt_receive_buffer.rs:524-539 | For a stream that starts at 1 or later, every sequence from the start to the mark was accepted or given up and none of them is still missing. |
| `ContiguousMark.MarkExact` | crates/client/src/virtual_usb/interrupt_receive_buffer.rs:524-539 | On all runs of a stream that starts at 1 or later, as long as 2^64 - 1 is not accepted: after every accepted report the mark is the last sequence before the first missing one, or the highest if nothing is missing, and no other call moves it. |
| `ContiguousMark.MarkSoundExact` | crates/client/src/virtual_usb/interrupt_receive_buffer.rs:370-382 | On all runs after `activate(start)` that do not accept 2^64 - 1, the mark stays strictly below all missing sequences, if and only if `start` is at least 1. |
| `ContiguousMark.MarkAlwaysSoundExact` | crates/client/src/virtual_usb/interrupt_receive_buffer.rs:484-495 | On all runs, with 2^64 - 1 too, it does so if and only if the stream starts at that very number. |
| `ContiguousMark.LastSequenceMovesMarkTooFar` | crates/client/src/virtual_usb/interrupt_receive_buffer.rs:484-495 | The failing case, for every other start: 2^64 - 1 ahead of time, a query after the timeout, a late report, 2^64 - 1 again; then the next expected sequence is missing and the mark is at the end. |
| `ContiguousMark.ZeroStartLosesFirst` | crates/client/src/virtual_usb/interrupt_receive_buffer.rs:524-539 | The failing case: after `activate(0)` a first report numbered 1 leaves 0 missing and the mark on 0 itself. |
| `Convergence.ConvergesExact` | crates/client/src/virtual_usb/interrupt_receive_buffer.rs:412-575 | Once each of start..last has arrived, in whatever order, with duplicates, corrupted copies, takes, gaps beyond 256 and expiries in between, nothing is missing or given up and both mark and `highest_seq` are at last: on every such run, if and only if the stream does not reach 2^64 - 1, or consists of at most that number and the one before it. |
| `Convergence.DeliveryConverges` | crates/client/src/virtual_usb/interrupt_receive_buffer.rs:412-575 | The half of this for streams that end before 2^64 - 1. |
| `Convergence.LastFirstStaysIncomplete` | crates/client/src/virtual_usb/interrupt_receive_buffer.rs:440-488 | The failing case: with 2^64 - 1 first, then the second of the stream, the first, and the rest in order, the second stays missing although everything has arrived. |
| `Convergence.ClosingConverges` | crates/client/src/virtual_usb/interrupt_receive_buffer.rs:412-575 | The half for streams of the last one or two numbers, in spite of the wrap-around. |
| `ReceiveQueue.QueueRefinesLog` | crates/client/src/virtual_usb/interrupt_receive_buffer.rs:497-512 | On every run the queue is a suffix of the log of accepted reports, what the kernel was served is the served part of that log in arrival order, and received = served + queued + dropped + cleared. |
| `ReceiveQueue.LogExact` | crates/client/src/virtual_usb/interrupt_receive_buffer.rs:412-431 | On every run the log consists of exactly the reports with a right checksum that arrived between an activation and the next deactivation, in order, and the failure counter counts those with a wrong one. |
| `ReceiveQueue.CapacityExact` | crates/client/src/virtual_usb/interrupt_receive_buffer.rs:500-509 | The queue never exceeds `max_size` on any run if and only if `max_size` is at least 1 (a buffer of size 0 holds one report). |
| `ReceiveQueue.WindowPreventsOverflow` | crates/client/src/virtual_usb/interrupt_receive_buffer.rs:694-707 | A sender that sends at most the advertised `receive_window` more reports, among any other calls, never makes the queue drop one. |
| `ReceiveQueue.FreeSlotsSuffice` | crates/client/src/virtual_usb/interrupt_receive_buffer.rs:500-512 | The stronger form: as many stores as there are free slots, interleaved with anything, drop nothing. |
| `ReceiveQueue.BurstDropsExcess` | crates/client/src/virtual_usb/interrupt_receive_buffer.rs:500-512 | A burst of accepted reports drops precisely the excess over the free slots. |
| `ReceiveBuffer.ReceiveWindow` | crates/client/src/virtual_usb/interrupt_receive_buffer.rs:694-707 | The advertised window is the largest whole number not above four fifths of the free slots (saturating at u32). |
| `EndpointReceiveBuffers.EndpointReceiveBuffer.constructor` | crates/client/src/virtual_usb/interrupt_receive_buffer.rs:349-368 | A new buffer is in the state all runs start from: inactive, empty, counters at zero. |
| `EndpointReceiveBuffers.EndpointReceiveBuffer.Activate` | crates/client/src/virtual_usb/interrupt_receive_buffer.rs:370-382 | Updates the fields in place to the state the ledger theorems call activated at `startSeq`. |
| `EndpointReceiveBuffers.EndpointReceiveBuffer.Deactivate` | crates/client/src/virtual_usb/interrupt_receive_buffer.rs:385-397 | Clears queue and tracking in place and keeps the counters, as the conservation theorem assumes. |
| `EndpointReceiveBuffers.EndpointReceiveBuffer.Store` | crates/client/src/virtual_usb/interrupt_receive_buffer.rs:412-521 | The in-place call refines the store step of the run theorems and returns the right flags: gap when an accepted report skips ahead; acknowledgment for a bad checksum, a gap, or a new highest number divisible by 10. |
| `EndpointReceiveBuffers.EndpointReceiveBuffer.Admit` | crates/client/src/virtual_usb/interrupt_receive_buffer.rs:433-521 | The part of `store` after the checks takes the fields to the admitted state that `GapLedger.StoreKeepsLedgerExact` and `ReceiveQueue.QueueRefinesLog` speak about. |
| `EndpointReceiveBuffers.EndpointReceiveBuffer.TrackArrival` | crates/client/src/virtual_usb/interrupt_receive_buffer.rs:438-482 | Gap detection on arrival: only the tracking tables and the gap counter change, as `GapLedger.ReconcileExact` describes. |
| `EndpointReceiveBuffers.EndpointReceiveBuffer.TrackGap` | crates/client/src/virtual_usb/interrupt_receive_buffer.rs:457-467 | The insertion loop leaves the tables of `GapLedger.TrackRangeExact`. |
| `EndpointReceiveBuffers.EndpointReceiveBuffer.UpdateLastContiguous` | crates/client/src/virtual_usb/interrupt_receive_buffer.rs:524-539 | The mark becomes `highest_seq` when nothing is missing and otherwise never moves back and stays below the least missing sequence. |
| `EndpointReceiveBuffers.EndpointReceiveBuffer.Enqueue` | crates/client/src/virtual_usb/interrupt_receive_buffer.rs:497-512 | Appends at the back, dropping only the oldest report of a full queue. |
| `EndpointReceiveBuffers.EndpointReceiveBuffer.GetMissingSequences` | crates/client/src/virtual_usb/interrupt_receive_buffer.rs:545-575 | Removes from both tables exactly what has been missing for more than 100 ms, changes nothing else, and returns the rest strictly ascending, each element at most 100 ms old. |
| `EndpointReceiveBuffers.EndpointReceiveBuffer.CollectExpired` | crates/client/src/virtual_usb/interrupt_receive_buffer.rs:554-559 | Collects exactly the sequences whose timestamp is older than 100 ms. |
| `EndpointReceiveBuffers.EndpointReceiveBuffer.GenerateNackInfo` | crates/client/src/virtual_usb/interrupt_receive_buffer.rs:591-598 | Returns nothing if and only if nothing is missing after expiry, otherwise all missing sequences ascending together with the mark. |
| `EndpointReceiveBuffers.EndpointReceiveBuffer.TryTake` | crates/client/src/virtual_usb/interrupt_receive_buffer.rs:601-608 | Serves the oldest queued report, if any, and counts it. |
| `EndpointReceiveBuffers.Minimum` | crates/client/src/virtual_usb/interrupt_receive_buffer.rs:533-534 | The scan of a set finds its least element. |
| `EndpointReceiveBuffers.Sorted` | crates/client/src/virtual_usb/interrupt_receive_buffer.rs:572-574 | The collected set comes out strictly ascending with the same elements. |
| `BridgeSafety.CancelledIsNeverAnswered` | crates/client/src/virtual_usb/socket_bridge.rs:722-782 | Over all interleavings: if a CMD_UNLINK of t is answered with status 0, no RET_SUBMIT for t is ever on the wire, earlier or later, unless the size limit cleared the last record of t before t looked for it. |
| `BridgeSafety.BoundedAndOnce` | crates/client/src/virtual_usb/socket_bridge.rs:722-742 | On every interleaving the unlinked set holds at most 100 numbers and no transfer is answered twice. |
| `BridgeSafety.LateReplyExact` | crates/client/src/virtual_usb/socket_bridge.rs:475-506 | With an unlink of s on record that stays until the look-up of s, some continuation still writes a RET_SUBMIT for s if and only if s has already passed its look-up and can still write; the look-up and the write are separate steps. |
| `BridgeSafety.CommittedCanReply` | crates/client/src/virtual_usb/socket_bridge.rs:488-506 | A transfer past its look-up can go on to write its reply although an unlink is on record. |
| `BridgeHistory.AnsweredExact` | crates/client/src/virtual_usb/socket_bridge.rs:417-509 | On every interleaving: a RET_SUBMIT for s is on the wire if and only if the steps of its handler so far are the full way, each once and in this order: spawned, lock, registration, submission, a successful return of the device call, deregistration, the three checks, the write. |
| `BridgeHistory.FailedIsNeverAnswered` | crates/client/src/virtual_usb/socket_bridge.rs:414-431 | So a transfer whose conversion, device call or write has failed is never answered. |
| `BridgeHistory.StoppedExact` | crates/client/src/virtual_usb/socket_bridge.rs:465-494 | Each of the two looks at the running flag ends the handler without a reply if and only if the bridge was stopped before. |
| `BridgeHistory.SuppressedExact` | crates/client/src/virtual_usb/socket_bridge.rs:475-486 | The look-up suppresses the reply if and only if an unlink of the transfer was recorded before and its record was not cleared; none is cleared before the 101st unlink. |
| `BridgeHistory.RecordExact` | crates/client/src/virtual_usb/socket_bridge.rs:475-742 | On every run the record of unlinks holds the targets since it was last full with 100, except those that a look-up has taken out. |
| `BridgeHistory.UnlinkAnswerExact` | crates/client/src/virtual_usb/socket_bridge.rs:744-782 | On every run the answer to a CMD_UNLINK carries its own sequence number, and status 0 if at the look-up the target was registered, not deregistered and not found by an earlier unlink, and otherwise -2. |
| `BridgeHistory.ReaderIsSequential` | crates/client/src/virtual_usb/socket_bridge.rs:226-330 | On every run the reader takes up a message only between messages, and records, looks for and answers a CMD_UNLINK in this order. |
| `BridgeHistory.WaitsExact` | crates/client/src/virtual_usb/socket_bridge.rs:358-392 | On every run a handler waits at its beginning if and only if another one, of an IN transfer of the same endpoint, has passed that point and not returned; OUT transfers and endpoint 0 never wait. |
| `BridgeHistory.StepKeepsWay` | crates/client/src/virtual_usb/socket_bridge.rs:333-509 | The stage of a handler is where its own steps have led, and stays so under every step of every handler and of the reader. |
| `BridgeProgress.UnlinkedAfterLookUp` | crates/client/src/virtual_usb/socket_bridge.rs:475-506 | So the unconditional claim is false: for every request a run from the start writes RET_UNLINK with -2 for it and then its RET_SUBMIT. |
| `BridgeProgress.CancelledThenAnswered` | crates/client/src/virtual_usb/socket_bridge.rs:728-740 | Why the exception for the size limit is needed: for every request a run from the start answers its CMD_UNLINK with status 0, then a hundred others, and then writes its RET_SUBMIT. |
| `BridgeProgress.DiscardedRecordAllowsReply` | crates/client/src/virtual_usb/socket_bridge.rs:728-740 | In general: with 100 records one more unlink discards that of s, and s can then be answered from every stage before its look-up except after a failed device call; the locks need only be held by live handlers, as on every reachable state. |
| `BridgeSafety.OneReadPerEndpoint` | crates/client/src/virtual_usb/socket_bridge.rs:363-392 | At most one transfer per IN endpoint is at the device at any time. |
| `BridgeSafety.RepliesFollowReads` | crates/client/src/virtual_usb/socket_bridge.rs:356-392 | The RET_SUBMITs of one IN endpoint are written in the order in which its transfers were submitted to the device. |
| `BridgeSteps.StepKeepsInv` | crates/client/src/virtual_usb/socket_bridge.rs:394-509 | Each step keeps: pending transfers are those between registration and deregistration, an unlink in progress is on record or has already suppressed its transfer, replies come only from transfers that ended by replying, and cancelled transfers are blocked from replying. |
| `BridgeSteps.StepKeepsCancelled` | crates/client/src/virtual_usb/socket_bridge.rs:744-771 | The heart of it: removing a pending entry (status 0) happens only while the transfer still has to look for the record. |
| `BridgeSteps.StepKeepsBlocked` | crates/client/src/virtual_usb/socket_bridge.rs:475-487 | A transfer that cannot reply any more stays so, unless its record is discarded. |
| `BridgeSafety.StepKeepsHolderLast` | crates/client/src/virtual_usb/socket_bridge.rs:378-392 | Whoever holds an endpoint submitted after everybody who has already replied on it. |
| `BridgeProgress.HolderNeverWaits` | crates/client/src/virtual_usb/socket_bridge.rs:378-392 | No endpoint lock leaks: on every reachable state each lock is held by a handler that has not returned and can take its next step at once. |
| `BridgeProgress.CanEndQuietly` | crates/client/src/virtual_usb/socket_bridge.rs:335-509 | A handler that does not wait for its endpoint can return by its own steps alone, without writing, and leaves its endpoint free and all other locks as they were. |
| `BridgeProgress.NoTransferIsStuck` | crates/client/src/virtual_usb/socket_bridge.rs:363-392 | From every reachable state every transfer can still come to its end, those waiting for a busy endpoint included. |
| `SocketBridges.SocketBridge.constructor` | crates/client/src/virtual_usb/socket_bridge.rs:103-165 | A new bridge is the initial state of the step system. |
| `SocketBridges.SocketBridge.StopBridge` | crates/client/src/virtual_usb/socket_bridge.rs:205-207 | Clearing the flag is the stop step. |
| `SocketBridges.SocketBridge.AcquireGuard` | crates/client/src/virtual_usb/socket_bridge.rs:363-392 | Taking the endpoint guard in place is the lock step of the system: only IN transfers with a non-zero endpoint take one, keyed by the address with its direction bit. |
| `SocketBridges.SocketBridge.DropGuard` | crates/client/src/virtual_usb/socket_bridge.rs:378-392 | Returning releases that guard and no other. |
| `SocketBridges.SocketBridge.RegisterPending` | crates/client/src/virtual_usb/socket_bridge.rs:397-406 | Registration in place is the registration step. |
| `SocketBridges.SocketBridge.DeregisterPending` | crates/client/src/virtual_usb/socket_bridge.rs:418-432 | Deregistration in place is the deregistration step; a failed device call ends the handler there and frees its endpoint, so that nothing is written (`BridgeHistory.FailedIsNeverAnswered`). |
| `SocketBridges.SocketBridge.SuppressIfUnlinked` | crates/client/src/virtual_usb/socket_bridge.rs:474-487 | Consumes the record if there is one and suppresses the reply exactly then. |
| `SocketBridges.SocketBridge.SendRetSubmit` | crates/client/src/virtual_usb/socket_bridge.rs:498-506 | Writes at most one reply, none on a closed socket, and releases the guard. |
| `SocketBridges.SocketBridge.RecordUnlinked` | crates/client/src/virtual_usb/socket_bridge.rs:722-742 | Recording with its clean-up in place is the record step, so at most 100 numbers stay. |
| `SocketBridges.SocketBridge.CancelPending` | crates/client/src/virtual_usb/socket_bridge.rs:744-771 | Status 0 if and only if the transfer was still pending, which it then no longer is; otherwise -2. |
| `SocketBridges.SocketBridge.SendRetUnlink` | crates/client/src/virtual_usb/socket_bridge.rs:774-774 | Writing the answer is the last step of the reader. |
| `SocketBridges.SocketBridge.HandleCmdUnlink` | crates/client/src/virtual_usb/socket_bridge.rs:707-782 | The whole call, run alone, is the record, remove and write steps in this order. |
| `Throughput.ThroughputBound` | crates/common/src/rate_limiter.rs:308-374 | Under any interleaving of the lock sections of any number of calls, for every existing bucket: granted bytes + bytes held by unfinished acquires + tokens ≤ burst × (1 + removals) + rate × age, with 0 ≤ tokens ≤ burst. |
| `Throughput.ThroughputWithoutRemoval` | crates/common/src/rate_limiter.rs:102-110 | For a bucket never removed, what was granted is at most burst + rate × age. |
| `Throughput.RemovalGrantsAnotherBurst` | crates/common/src/rate_limiter.rs:376-386 | The extra burst per removal is attained: acquire, remove, acquire at one instant grants two bursts. |
| `Throughput.NextSound` | crates/common/src/rate_limiter.rs:308-386 | Every lock section keeps the books of every level balanced. |
| `Throughput.TakeSound` | crates/common/src/rate_limiter.rs:113-123 | Charging one level, successful or not, keeps all books balanced. |
| `Throughput.RefundSound` | crates/common/src/rate_limiter.rs:329-338 | A refund, capped and possibly finding no bucket, keeps all books balanced. |
| `Throughput.RecordSound` | crates/common/src/rate_limiter.rs:140-143 | `record` keeps all books balanced. |
| `Throughput.RemoveSound` | crates/common/src/rate_limiter.rs:376-386 | Removing a bucket costs one more burst and no more. |
| `TokenBuckets.RefillTwice` | crates/common/src/rate_limiter.rs:102-110 | Refilling at two instants is refilling at the later one, cap included. |
| `TokenBuckets.RefundSettles` | crates/common/src/rate_limiter.rs:329-338 | A refund of a charged bucket gives what the uncharged one would have been by refilling, although charge, refill and refund are all capped. |
| `TokenBuckets.DebtSurvivesRefill` | crates/common/src/rate_limiter.rs:102-110 | A charge stays the same debt while both buckets refill. |
| `TokenBuckets.WaitIsExact` | crates/common/src/rate_limiter.rs:126-137 | Before its conversion to nanoseconds the wait is exact: after it the bucket can pay if and only if the time passed covers it and the amount is within the burst; it is zero if and only if it can pay now. |
| `TokenBuckets.NanosNearest` | crates/common/src/rate_limiter.rs:135-136 | The conversion is off by at most half a nanosecond, and gives zero for waits of up to half a nanosecond only. |
| `SingleCalls.FailedAcquireIsNoOp` | crates/common/src/rate_limiter.rs:308-374 | A `try_acquire` that fails at any level, with no other call in between, leaves every level with exactly the value plain refilling gives at every later instant. |
| `SingleCalls.ChargeAndRefund` | crates/common/src/rate_limiter.rs:329-338 | Charging and refunding one level that could pay leaves its plain value. |
| `SingleCalls.ValueComposes` | crates/common/src/rate_limiter.rs:102-110 | Looking at a level early, even creating its bucket, does not change what it is worth later. |
| `SingleCalls.AcquireSucceedsExact` | crates/common/src/rate_limiter.rs:308-374 | `try_acquire` succeeds if and only if every level that applies can pay. |
| `CheckCalls.AllowedExact` | crates/common/src/rate_limiter.rs:213-263 | `check` answers Allowed if and only if every level can pay within half a nanosecond, since waits are rounded to whole nanoseconds. |
| `CheckCalls.CheckAgreesWithAcquire` | crates/common/src/rate_limiter.rs:213-263 | At one instant `check` allows whatever `try_acquire` would grant; the two disagree if and only if every level can pay within half a nanosecond but not every one at once. |
| `CheckCalls.AllowedIsNearlyCovered` | crates/common/src/rate_limiter.rs:126-137 | What `check` allows is at most half a nanosecond's worth of tokens short at any level. |
| `CheckCalls.AllowedButRefused` | crates/common/src/rate_limiter.rs:126-137 | The failing case: 333333333 ns after a bucket of one byte at three bytes a second was emptied, `check` allows one byte and `try_acquire` refuses it. |
| `CheckCalls.WaitIsLeast` | crates/common/src/rate_limiter.rs:213-263 | With no other traffic `try_acquire` succeeds at a later instant if and only if every level's exact wait has passed and no burst is smaller than the transfer. The wait `check` returns is that within half a nanosecond: half a nanosecond after it the wait is over, and more than half a nanosecond before its end, if it is not zero, it is not. |
| `LockOrder.NoDeadlock` | crates/common/src/rate_limiter.rs:308-374 | The nested locks of failed calls cannot deadlock: on every reachable state with an unfinished call some call can go on. |
| `LockOrder.RunsAreFinite` | crates/common/src/rate_limiter.rs:213-386 | Without new calls every run ends after a bounded number of steps, whichever calls go on and whichever levels fail. |
| `LockOrder.StuckIsFinished` | crates/common/src/rate_limiter.rs:213-386 | So a run that cannot be continued has finished every call. |
| `LockOrder.StepSound` | crates/common/src/rate_limiter.rs:325-369 | Every step keeps each lock with one owner, and nested locks in the order device map, client map, global bucket. |
| `LockOrder.StagesExact` | crates/common/src/rate_limiter.rs:314-371 | Which locks a call takes: those of the levels it goes through, one at a time, global, client map, device map; when one fails, those below it again, in the same order, on top of the one that failed. |
| `SingleCalls.RecordExact` | crates/common/src/rate_limiter.rs:268-301 | `record` lowers each level that applies by the bytes, down to zero; the uncovered rest is forgotten. |
| `RateLimits.SectionsValid` | crates/common/src/rate_limiter.rs:102-143 | No lock section leaves a bucket outside 0..burst or with another rate than its limit says. |
| `CallLevels.NamedLevels` | crates/common/src/rate_limiter.rs:308-374 | A call goes through precisely the global level, the named client and the named device, each if it is limited, in this order. |
| `CallLevels.AcquireCallExact` | crates/common/src/rate_limiter.rs:308-374 | `try_acquire` succeeds if and only if each of these levels holds enough: what its bucket held, plus rate times the time since, at most the burst, or the burst if there is no bucket. |
| `CallLevels.GrantedCharges` | crates/common/src/rate_limiter.rs:308-374 | A success takes the bytes from each of these levels and touches no other. |
| `CallLevels.DeniedStopsAtFirst` | crates/common/src/rate_limiter.rs:314-371 | A failure stops at the first level that cannot pay, global before client before device, and does not touch the later ones, not even to refill them. |
| `CallLevels.CheckCallExact` | crates/common/src/rate_limiter.rs:213-263 | `check` answers the longest time in which one of these levels earns what it lacks, in nanoseconds; the division fails if and only if one lacks something and earns nothing. |
| `CallLevels.CheckCallRefills` | crates/common/src/rate_limiter.rs:213-263 | Such a check brings these levels up to date and touches no other. |
| `CallLevels.RecordCallExact` | crates/common/src/rate_limiter.rs:265-306 | `record` takes the bytes from each of these levels, down to zero, and touches no other. |
| `CallLevels.CallsKeepConfiguration` | crates/common/src/rate_limiter.rs:200-204 | A new limiter's buckets have the bursts and rates of their levels, and every call keeps that. |
| `UninterruptedCalls.AloneIsCall` | crates/common/src/rate_limiter.rs:308-374 | The lock sections of one `try_acquire` with no section of another call in between have the effect and the answer of the call in one piece; this ties the system of `Throughput.ThroughputBound` to the calls. |
| `UninterruptedCalls.RecordAndCheckAlone` | crates/common/src/rate_limiter.rs:213-306 | The same for `record`, and for a `check` in which no division fails. |
| `RateLimits.ApplicableLegal` | crates/common/src/rate_limiter.rs:213-263 | The levels a call goes through, which `CallLevels.NamedLevels` pins down, are distinct and have limits. |
| `TokenBuckets.TokenBucket.constructor` | crates/common/src/rate_limiter.rs:92-99 | A new bucket is full. |
| `TokenBuckets.TokenBucket.RefillNow` | crates/common/src/rate_limiter.rs:102-110 | The in-place refill is the refill of `TokenBuckets.RefillTwice`. |
| `TokenBuckets.TokenBucket.TryConsume` | crates/common/src/rate_limiter.rs:113-123 | Charges the refilled bucket if and only if it can pay. |
| `TokenBuckets.TokenBucket.ComputeWait` | crates/common/src/rate_limiter.rs:126-137 | Returns the wait of `TokenBuckets.WaitIsExact` in whole nanoseconds and otherwise only refills. |
| `TokenBuckets.TokenBucket.RecordTransfer` | crates/common/src/rate_limiter.rs:140-143 | Refills, then lowers the tokens without going below zero. |
| `TokenBuckets.TokenBucket.Refund` | crates/common/src/rate_limiter.rs:329-338 | The in-place refund is the one of `TokenBuckets.RefundSettles`. |
| `RateLimiters.RateLimiter.constructor` | crates/common/src/rate_limiter.rs:190-204 | Only the global bucket exists at first. |
| `RateLimiters.RateLimiter.BucketFor` | crates/common/src/rate_limiter.rs:232-238 | Finds or creates the level's own bucket object; no two levels share one and no other level changes. |
| `RateLimiters.RateLimiter.TakeLevel` | crates/common/src/rate_limiter.rs:314-329 | One locked charge on the heap is the charge section of the step system. |
| `RateLimiters.RateLimiter.RefundLevel` | crates/common/src/rate_limiter.rs:330-338 | One locked refund is the refund section; it touches nothing when the bucket is gone. |
| `RateLimiters.RateLimiter.LookLevel` | crates/common/src/rate_limiter.rs:222-228 | One locked wait computation is the look section. |
| `RateLimiters.RateLimiter.RecordLevel` | crates/common/src/rate_limiter.rs:275-278 | One locked `record` is the record section. |
| `RateLimiters.RateLimiter.RemoveLevel` | crates/common/src/rate_limiter.rs:376-386 | Removes the named bucket only. |
| `RateLimiters.RateLimiter.RecordBytes` | crates/common/src/rate_limiter.rs:268-301 | The whole `record` is the one of `CallLevels.RecordCallExact` and `SingleCalls.RecordExact`; bucket objects it adds are new ones. |
| `RateLimiters.RateLimiter.RecordUpperLevels` | crates/common/src/rate_limiter.rs:281-300 | Its client and device stages. |
| `RateLimiters.RateLimiter.TryAcquireBytes` | crates/common/src/rate_limiter.rs:308-374 | The whole `try_acquire`, run alone on the bucket objects, is the one of `CallLevels.AcquireCallExact` and `SingleCalls.FailedAcquireIsNoOp`: it succeeds if and only if the global level, the named client and the named device, each if limited, hold enough; bucket objects it adds are new ones, so calls can follow each other. |
| `RateLimiters.RateLimiter.AcquireClientLevel` | crates/common/src/rate_limiter.rs:321-341 | The client stage with its refund of the global bucket. |
| `RateLimiters.RateLimiter.AcquireDeviceLevel` | crates/common/src/rate_limiter.rs:343-373 | The device stage with its refunds of the global and the client bucket. |
| `RateLimiters.RateLimiter.CheckBytes` | crates/common/src/rate_limiter.rs:213-263 | The whole `check` is the one of `CallLevels.CheckCallExact`, `CheckCalls.CheckAgreesWithAcquire` and `WaitIsLeast`: the longest demand of these levels; bucket objects it adds are new ones. |
| `RateLimiters.RateLimiter.CheckClientLevel` | crates/common/src/rate_limiter.rs:230-243 | The client stage of `check`, carrying the longest wait on. |
| `RateLimiters.RateLimiter.CheckDeviceLevel` | crates/common/src/rate_limiter.rs:245-262 | The device stage of `check`. |
| `Integrity.BurstDetectionExact` | crates/protocol/src/integrity.rs:36-40 | A reflected 32-bit CRC detects every burst of up to 32 bits, in data of any length, if and only if its polynomial has the top bit set. |
| `Integrity.BurstDetected` | crates/protocol/src/integrity.rs:36-40 | With the top bit set, two messages that differ only inside one 32-bit window have different checksums. |
| `Integrity.UndetectedBurst` | crates/protocol/src/integrity.rs:36-40 | Without it, two concrete four-byte messages collide. |
| `Integrity.CorruptionDetected` | crates/protocol/src/integrity.rs:58-71 | Changing one byte of sequence, endpoint, data or timestamp always changes the interrupt checksum, for every such polynomial and any data length. |
| `Integrity.AlteredReportRejected` | crates/protocol/src/integrity.rs:76-84 | With the IEEE polynomial, a report altered in one byte fails verification. |
| `Integrity.InterruptChecksumIsOnePass` | crates/protocol/src/integrity.rs:58-71 | The four updates give the checksum of the concatenated fields. |
| `Integrity.CoveredBytes` | crates/protocol/src/integrity.rs:58-71 | The bytes under the checksum are 17 and the data: sequence number in eight bytes, low byte first, endpoint, data, time stamp in eight bytes, low byte first. |
| `Integrity.ComplementsBothEnds` | crates/protocol/src/integrity.rs:65-70 | For four bytes or more the checksum is as in section 3.2.9 of IEEE 802.3: the first 32 bits complemented, divided from a zero register, the remainder complemented. |
| `Integrity.IeeeConstant` | crates/protocol/src/integrity.rs:36-40 | The polynomial with the exponents that section lists is, with the highest exponent in the lowest bit, the number 0xEDB88320. |
| `Integrity.UpdateConcat` | crates/protocol/src/integrity.rs:65-69 | Updating piecewise is updating with the concatenation. |
| `Integrity.UpdateIsFeed` | crates/protocol/src/integrity.rs:36-40 | Byte-wise processing is feeding the bits one by one, low bit first. |
| `Integrity.FeedIsShift` | crates/protocol/src/integrity.rs:36-40 | A block of up to 32 bits can be added to the register at once. |
| `Calendar.DaysToYmdCorrect` | crates/server/src/audit.rs:249-283 | The date computed is valid in the Gregorian calendar and counting days from 1970-01-01 up to it gives the argument back; validity is by the rule for month lengths, the count by closed formulas for leap years and for months from March on. |
| `Calendar.DaysToYmdInverse` | crates/server/src/audit.rs:249-283 | A valid date from 1970 on is returned for its own day number and for no other. |
| `Calendar.DaysToYmdIncreases` | crates/server/src/audit.rs:249-283 | Later days have later dates. |
| `Calendar.DayNumberIncreases` | crates/server/src/audit.rs:249-283 | The reference day count is strictly increasing in the order of dates. |
| `Calendar.YearLoopExact` | crates/server/src/audit.rs:254-261 | The year loop conserves the day count against the closed formula for leap years. |
| `Calendar.MonthLoopExact` | crates/server/src/audit.rs:271-278 | The month loop stops inside a month and conserves the day count. |
| `Calendar.YearLength` | crates/server/src/audit.rs:286-288 | The leap-year rule gives the length of each year of the closed formula. |
| `Calendar.MonthTable` | crates/server/src/audit.rs:265-269 | The table of month lengths follows the rule: 30 days for April, June, September and November, what the closed formula leaves for February, 31 for the others. |
| `Calendar.MonthSums` | crates/server/src/audit.rs:265-278 | The sums of the table are those of the pattern of five months with 153 days that begins in March. |
| `Calendar.AdvanceYears` | crates/server/src/audit.rs:250-261 | The year loop on machine integers terminates; it yields the right year, or overflows i32, depending on which side of 2147483648-01-01 the day lies; a day count read as negative leaves it at once. |
| `Calendar.AdvanceMonths` | crates/server/src/audit.rs:271-278 | The month loop as written, with its break. |
| `Calendar.ComputeYmd` | crates/server/src/audit.rs:249-283 | The function as written returns the right date if and only if the day lies before the first day whose year overflows i32; a day count from 2^63 on is read as negative and gives January 1970 with the day wrapped to u32. |
| `Timestamps.SortsExact` | crates/server/src/audit.rs:225-246 | The timestamps of all seconds below a bound sort like the seconds if and only if the bound is at most the start of the year 10000. |
| `Timestamps.TimestampRoundTrip` | crates/server/src/audit.rs:225-246 | Through the year 9999 reading a timestamp as a calendar date and time gives the second it was made from. |
| `Timestamps.YearTenThousandSortsFirst` | crates/server/src/audit.rs:242-245 | The failing case: the first second of the year 10000 does not sort after the second before it. |
| `Timestamps.FieldsIncrease` | crates/server/src/audit.rs:231-240 | The six numbers of a timestamp increase lexicographically with time, beyond the year 9999 too, as long as the year fits in i32 (`Calendar.ComputeYmd`). |
| `Timestamps.RenderOrder` | crates/server/src/audit.rs:242-245 | Zero-padded fields of equal widths sort as strings exactly as their numbers do. |
| `Durations.RoundTripExact` | crates/server/src/config.rs:227-285 | Parsing what was printed gives the duration back if and only if it is at least one second; zero prints as "0s" and is rejected. |
| `Durations.ParseExact` | crates/server/src/config.rs:227-266 | A string is accepted with value d if and only if d is a positive u64 and the string, trimmed of Unicode white space and lower-cased, is a sequence of numbers with units h, m or s and perhaps a last bare number, adding up to d. |
| `Durations.UnicodeLowerCaseAgrees` | crates/server/src/config.rs:228-256 | Lower-casing all of Unicode instead of the ASCII letters makes no difference to the result, as no character beyond ASCII has a lower-case form that begins with a digit, h, m or s. |
| `Durations.AcceptedIsSum` | crates/server/src/config.rs:232-261 | Whatever the character loop accepts splits into such tokens with that sum. |
| `DurationTexts.AcceptedExact` | crates/server/src/config.rs:227-266 | As typed: a string is accepted with value d if and only if d is a positive u64 and the string consists of white space, numbers with units h, m or s in either case, perhaps a last number without one, and white space, which add up to d at 3600, 60 and 1 seconds. |
| `DurationTexts.RefusedExact` | crates/server/src/config.rs:232-264 | Which string is refused for which reason: after tokens of less than 2^64 seconds comes a character without a number, a number that does not fit in u64, a character that is no unit, a sum that does not fit, or the end with nothing. |
| `DurationTexts.NormalizedExact` | crates/server/src/config.rs:228 | Trimming and lower-casing leave what lies between the outer white space, each ASCII capital 32 codes further. |
| `DurationTexts.WhitespaceExact` | crates/server/src/config.rs:228 | What is trimmed are the 25 characters with the Unicode property White_Space. |
| `Durations.TokensParse` | crates/server/src/config.rs:232-261 | Every such token list is read with its sum, through the digit-by-digit accumulator. |
| `Durations.FormatIsText` | crates/server/src/config.rs:268-285 | What is printed is a token list that adds up to the duration. |
| `Durations.Parse` | crates/server/src/config.rs:227-266 | The character loop computes the parse that `Durations.ParseExact` characterises, each error case included. |
| `Durations.Format` | crates/server/src/config.rs:268-285 | The string builder prints the text that `Durations.RoundTripExact` reads back. |
| `AuditLog.OnlyOldestLost` | crates/server/src/audit.rs:566-646 | After any run of entries and rotations, from any directory, the files from the oldest to the current one hold a suffix of their former contents and everything logged since, each entry once and in order, whatever `max_files` is; files numbered beyond its reach are left alone. |
| `AuditLog.NewestAreKept` | crates/server/src/audit.rs:566-646 | How much is kept: with an entry limit n alone and `max_files` m of at least 2, every run of entries from any directory leaves the last n * (m - 1) of them in the files, or all if there are fewer. |
| `AuditLog.NewestBytesAreKept` | crates/server/src/audit.rs:566-646 | With a size limit S alone and `max_files` m of at least 2, every run of entries from any directory leaves the newest entries in the files, as many as take up to S * (m - 1) bytes. |
| `AuditLog.CurrentFileBelowLimits` | crates/server/src/audit.rs:542-609 | After each entry, from any directory, the current file is below the size limit if and only if that is positive; below the entry limit if and only if that is positive and the file has been rotated since the start or the entries found at the start left room; and over it by those entries at most. |
| `AuditLog.FreshFileBelowLimits` | crates/server/src/audit.rs:566-609 | Without entries found at the start, both limits hold after every entry if and only if both are positive. |
| `AuditLog.RestartExceedsEntryLimit` | crates/server/src/audit.rs:553-555 | The failing case, for every entry limit of 2 or more: since the counter starts at zero, a file one short of the limit takes another entry and is not rotated. |
| `AuditLog.RunCounts` | crates/server/src/audit.rs:553-587 | The counter is the number of entries in the current file less those found at the start, until the first rotation. |
| `AuditLog.RotatesExact` | crates/server/src/audit.rs:566-609 | When an entry brings about a rotation, on every run from any directory: it fills the file up to the size limit, or is the last that the entry limit allows, not counting entries found at the start; otherwise it is appended and no file changes but that. |
| `AuditLog.RotatedFilesExactlyBounded` | crates/server/src/audit.rs:612-646 | From a directory with files below `max_files` only, no run leaves more than `max_files - 1` rotated files, if and only if `max_files` is at least 2. |
| `AuditLog.FourByDefault` | crates/server/src/audit.rs:615-617 | Without `max_files` there are at most four rotated files. |
| `AuditLog.DefaultKeepsFour` | crates/server/src/audit.rs:615-617 | And an entry limit of n then keeps the newest 4 * n entries, or all if there are fewer. |
| `AuditLog.RotatedFilesExact` | crates/server/src/audit.rs:619-639 | File by file, a rotation moves every file up by one, the current one included, and the topmost is gone; leftovers beyond `max_files` stay. |
| `AuditLog.ShiftDownExact` | crates/server/src/audit.rs:619-633 | The descending renaming loop overwrites nothing: each index ends with what was one below. |
| `AuditLog.RotationKeeps` | crates/server/src/audit.rs:612-639 | A rotation loses no entry except those of the topmost file. |
| `AuditLog.WriteSound` | crates/server/src/audit.rs:566-591 | Writing one entry extends the log by it, keeps the size equal to that of the current file, and ends with no rotation due if and only if the limits are positive. |
| `AuditLog.RotateSound` | crates/server/src/audit.rs:612-646 | A rotation keeps the suffix property and starts an empty file with zero counters. |
| `AuditWriters.AuditWriter.constructor` | crates/server/src/audit.rs:532-539 | A new writer on a directory as it is found is the start of every run. |
| `AuditWriters.AuditWriter.OpenFile` | crates/server/src/audit.rs:542-563 | Opening appends to what is there, taking its size but counting entries from zero. |
| `AuditWriters.AuditWriter.WriteEntry` | crates/server/src/audit.rs:566-591 | The in-place call is the write step of `AuditLog.OnlyOldestLost`. |
| `AuditWriters.AuditWriter.IsRotationDue` | crates/server/src/audit.rs:594-609 | Due if and only if a configured limit is reached. |
| `AuditWriters.AuditWriter.RotateLog` | crates/server/src/audit.rs:612-646 | The in-place renaming loop, the move to .1 and the reopening are the rotation of `AuditLog.RotatedFilesExact`. |
| `UsbIpWire.StreamRoundTrip` | crates/client/src/virtual_usb/socket_bridge.rs:612-695 | Repeated reads of the concatenated bytes of any list of CMD_SUBMIT (without ISO packets) and CMD_UNLINK messages return exactly that list with nothing left over. |
| `UsbIpWire.ReadEncoded` | crates/client/src/virtual_usb/socket_bridge.rs:612-695 | One well-formed message is read back and nothing behind it is touched. |
| `UsbIpWire.ReadIsEncoding` | crates/client/src/virtual_usb/socket_bridge.rs:612-695 | Whatever is read was sent: the consumed bytes are an encoding of the returned message. |
| `UsbIpWire.ReadExact` | crates/client/src/virtual_usb/socket_bridge.rs:649-657 | A message is read back from its own bytes if and only if it keeps to the layout; a CMD_SUBMIT with ISO packets never is, since only 28 bytes are handed to the parser. |
| `UsbIpWire.WordsParse` | crates/client/src/virtual_usb/usbip_protocol.rs:136-153 | Big-endian words are read back, whatever follows them. |
| `WireLayouts.ReadBytesExact` | crates/client/src/virtual_usb/socket_bridge.rs:612-695 | For every byte string: the low 16 bits of the first big-endian word decide, 1 for a CMD_SUBMIT, 2 for a CMD_UNLINK, 3 and 4 are unexpected and all others unknown; every field is the word at its offset, data follows at byte 48 for direction 0; each error with the bytes consumed. |
| `WireLayouts.KernelMessageIsRead` | crates/client/src/virtual_usb/socket_bridge.rs:612-695 | Bytes in the kernel's form of a message, command 1 or 2 and every field at its offset, are read as that message, and nothing behind them is touched. |
| `WireLayouts.KernelStreamIsRead` | crates/client/src/virtual_usb/socket_bridge.rs:612-695 | A stream of such forms is read as exactly these messages, with nothing left. |
| `WireLayouts.ReplyBytesExact` | crates/client/src/virtual_usb/socket_bridge.rs:518-560 | Every reply is written with each field at its offset, the status as a 32-bit two's complement, zeros up to 48 bytes, then descriptors and data. |
| `WireLayouts.UnlinkReplyBytes` | crates/client/src/virtual_usb/socket_bridge.rs:794-816 | RET_UNLINK byte by byte: command 4, the sequence number of the CMD_UNLINK, the device, the status, zeros. |
| `WireLayouts.ErrorReplyBytes` | crates/client/src/virtual_usb/usbip_protocol.rs:576-597 | RET_SUBMIT of a failed transfer byte by byte: command 3, the request's fields, minus the Linux error number, zeros. |
| `UsbIpReplies.ReplyAnswers` | crates/client/src/virtual_usb/socket_bridge.rs:434-455 | Every reply carries the request's seqnum, direction and endpoint; its data is what the device gave, for IN requests the longest prefix that fits the kernel's buffer, with `actual_length` its length; errors give a negative errno and no data; ISO fields and descriptors appear only for ISO results, descriptors only for ISO requests. |
| `UsbIpReplies.InReplyFits` | crates/client/src/virtual_usb/socket_bridge.rs:446-455 | Every non-ISO IN reply is 48 + `actual_length` bytes, with `actual_length` at most the kernel's buffer. |
| `UsbIpReplies.ReplyReadExact` | crates/client/src/virtual_usb/socket_bridge.rs:434-455 | A reader that follows the kernel's layout recovers the reply to any request, ISO or not, if and only if it is an IN reply or has no data, and its ISO packets, if any, are announced and read the same before and after the data; so always for IN requests with a result that is not isochronous. |
| `UsbIpReplies.RecoveredExact` | crates/client/src/virtual_usb/socket_bridge.rs:518-560 | Any reply to a CMD_SUBMIT is recovered if and only if it announces its data length and packet count truly and its descriptors and data may trade places. |
| `UsbIpReplies.ReplyToReadMessage` | crates/client/src/virtual_usb/socket_bridge.rs:434-455 | The replies that can come about: whatever CMD_SUBMIT was read from the socket, its reply has no descriptors, and it is recovered if and only if it is an IN reply or has no data, and announces no ISO packets. |
| `UsbIpReplies.DescriptorsInFrontGarble` | crates/client/src/virtual_usb/socket_bridge.rs:551-560 | A latent defect, out of reach as long as the reader refuses ISO requests: descriptors are written before the data while the kernel reads the data first, so one descriptor and one byte of data would be misread. |
| `UsbIpReplies.ReplyStreamRoundTrip` | crates/client/src/virtual_usb/socket_bridge.rs:518-560 | A reader that follows the layout recovers the whole list of replies written. |
| `UsbIpReplies.ReadEncodedReply` | crates/client/src/virtual_usb/socket_bridge.rs:518-560 | One reply is recovered from the front of the stream, and its length is 48 plus descriptors and data. |
| `UsbIpReplies.ReplyLayoutExact` | crates/client/src/virtual_usb/usbip_protocol.rs:538-598 | Which requests and transfer results give replies that keep to the layout. |
| `UsbIpStreams.ByteReader.ReadHeader` | crates/client/src/virtual_usb/usbip_protocol.rs:136-153 | Consumes 20 bytes and yields the header `UsbIpWire.ReadEncoded` speaks about. |
| `UsbIpStreams.ByteReader.ReadCmdSubmit` | crates/client/src/virtual_usb/usbip_protocol.rs:239-269 | On the 28 payload bytes: the command, or end of stream as soon as ISO descriptors are announced. |
| `UsbIpStreams.ByteReader.ReadUsbIpMessage` | crates/client/src/virtual_usb/socket_bridge.rs:612-695 | The blocking reader returns and leaves what `UsbIpWire.StreamRoundTrip` assumes of one read, and what `WireLayouts.ReadBytesExact` says byte by byte, for every byte string. |
| `UsbIpStreams.ByteReader.ReadSubmit` | crates/client/src/virtual_usb/socket_bridge.rs:649-669 | The CMD_SUBMIT branch: data is read for OUT transfers only. |
| `UsbIpStreams.ByteBuffer.BuildRetSubmit` | crates/client/src/virtual_usb/socket_bridge.rs:518-560 | The buffer built is the encoding that `UsbIpReplies.ReplyStreamRoundTrip` decodes. |
| `UsbIpStreams.ByteBuffer.WritePackets` | crates/client/src/virtual_usb/socket_bridge.rs:552-555 | The loop appends all ISO descriptors in order. |
| `UsbIpStreams.ByteBuffer.BuildRetUnlink` | crates/client/src/virtual_usb/socket_bridge.rs:794-816 | The same for RET_UNLINK, always 48 bytes. |
| `Notifications.AggregationExact` | crates/server/src/network/notification_aggregator.rs:84-107 | For logs whose status changes keep the device id: the batch leaves the same ids on every client list as the whole log, if and only if no device's arrival or removal is followed by a status change as its last event; so always for arrivals and removals only. |
| `Notifications.RenamingLosesId` | crates/server/src/network/notification_aggregator.rs:84-107 | Why ids must be kept: a status change to another id followed by the arrival of the old one leaves both ids listed, the batch only one. |
| `Notifications.EntriesExact` | crates/server/src/network/notification_aggregator.rs:84-107 | For such logs the batch leaves the same entries, with all that is known, if and only if each device's last event tells as much as all of them: a removal; an arrival with the info of the first one and nothing taken away or replaced; or a status change after status changes only. |
| `Notifications.ReplugKeepsOldEntry` | crates/server/src/network/notification_aggregator.rs:84-107 | The failing case for entries although ids agree: an id that leaves and arrives with other info within a window keeps its old entry. |
| `Notifications.ServerLogsExact` | crates/server/src/network/connection.rs:869-1012 | On the logs this server makes, where every arrival has a new id and status changes carry no info, ids and entries are both preserved if and only if no device's arrival or removal is followed by a status change as its last event. |
| `Notifications.ApplyFollows` | crates/client/src/tui/app.rs:467-549 | While ids are kept, what the client's list knows of a device depends on that device's events only: an arrival adds it unless listed, a removal drops it, a status change with info replaces its entry. |
| `Notifications.ApplyIsEffect` | crates/client/src/tui/app.rs:467-549 | While ids are kept, a device is on the client's list after a log if and only if its last arrival or removal says so, or it was there and the log says nothing. |
| `Notifications.FirstOrderExact` | crates/server/src/network/notification_aggregator.rs:94-97 | The flush order lists every mentioned device exactly once. |
| `Notifications.BatchExact` | crates/server/src/network/notification_aggregator.rs:84-180 | A batch has one event for every device, its last one, at the place its first one gives it among the devices. |
| `Notifications.EffectOfBatch` | crates/server/src/network/notification_aggregator.rs:137-180 | In a batch each device's last event alone decides. |
| `NotificationAggregators.NotificationAggregator.constructor` | crates/server/src/network/notification_aggregator.rs:71-77 | Starts with an empty log. |
| `NotificationAggregators.NotificationAggregator.Add` | crates/server/src/network/notification_aggregator.rs:84-107 | Keeps the agreement of pending map and order with the event log, extended by one event; the window starts with the first. |
| `NotificationAggregators.NotificationAggregator.ShouldFlush` | crates/server/src/network/notification_aggregator.rs:110-126 | Due if and only if something is pending and either 50 distinct devices are or the window has passed. |
| `NotificationAggregators.NotificationAggregator.Flush` | crates/server/src/network/notification_aggregator.rs:137-180 | Returns, for each distinct device in the order of first events since the last flush, its last event, and starts afresh; nothing if there was none. |
| `Scheduling.SelectionIsFair` | crates/server/src/qos.rs:367-393 | No client over quota is chosen while one is within; when all are over, the chosen one was served least recently. |
| `Scheduling.BoundedWaiting` | crates/server/src/qos.rs:367-393 | A client that stays within quota is returned no later than its cyclic distance from the round-robin index, whatever transfers and queries lie in between. |
| `Scheduling.ServedWithinOneRound` | crates/server/src/qos.rs:367-393 | So within n selections for n clients. |
| `Scheduling.SelectFromFinds` | crates/server/src/qos.rs:374-382 | The loop stops at the first client within quota and puts the index right behind it. |
| `Scheduling.TurnReaches` | crates/server/src/qos.rs:375-379 | Cyclic distance: the position visited at turn i is p exactly when i is p's distance, and a selection at turn i shortens it by i + 1. |
| `Quotas.WindowExact` | crates/server/src/qos.rs:340-354 | Up to a second after a client's window began it is within quota if and only if the bytes counted then and those transferred since are fewer than the quota, whatever calls come in between. |
| `Quotas.WindowRestarts` | crates/server/src/qos.rs:195-208 | A transfer or query more than a second after the window began starts a new one with nothing counted before; earlier ones go on counting. |
| `Quotas.IdleIsWithinQuota` | crates/server/src/qos.rs:340-354 | More than a second after its last transfer a client is within any quota but zero, whatever else happens. |
| `Quotas.LastServedExact` | crates/server/src/qos.rs:204-208 | The instant that the fallback of the selection compares is that of a client's last transfer, or its registration. |
| `Quotas.UnknownClient` | crates/server/src/qos.rs:340-354 | A client that is not registered is within quota, and a transfer or query for it changes nothing. |
| `Quotas.StepTouches` | crates/server/src/qos.rs:340-393 | A transfer counts for its client only; a query or a selection can do no more to a client than start a new window. |
| `FairSchedulers.FairScheduler.constructor` | crates/server/src/qos.rs:316-322 | No clients, index 0. |
| `FairSchedulers.FairScheduler.RegisterClient` | crates/server/src/qos.rs:325-332 | Adds a fresh client and leaves a known one alone. |
| `FairSchedulers.FairScheduler.UnregisterClient` | crates/server/src/qos.rs:335-337 | Removes that client only. |
| `FairSchedulers.FairScheduler.IsWithinQuota` | crates/server/src/qos.rs:340-347 | Answers for the window after its reset, which it performs; unknown clients are within quota. |
| `FairSchedulers.FairScheduler.RecordTransfer` | crates/server/src/qos.rs:350-354 | Adds to the client's window, reset if more than a second old, and marks it served now. |
| `FairSchedulers.FairScheduler.SelectNextClient` | crates/server/src/qos.rs:367-393 | The selection loop is the one of `Scheduling.SelectionIsFair` and `Scheduling.BoundedWaiting`. |
| `TimeWindows.ExpiryExact` | crates/server/src/policy.rs:368-391 | An expiry exists if and only if some window is open; it belongs to the first open window listed and lies at or after the first second that window is closed, less than 60 s after it. |
| `TimeWindows.EndIsFirstClosed` | crates/server/src/policy.rs:353-365 | For any offset and any window, overnight included, every second up to the computed end is in the window and the end is not. |
| `TimeWindows.ExpiryOnFullMinute` | crates/server/src/policy.rs:368-391 | The expiry is the exact end if and only if the clock is on a full minute. |
| `TimeWindows.ClockMinutes` | crates/server/src/policy.rs:303-320 | Hours and minutes are those of the local second of the day, also for negative offsets. |
| `TimeWindows.OpenExact` | crates/server/src/policy.rs:353-365 | A window is open if and only if, modulo a day, the minute of the local day is closer after its start than its end is; so a window with equal ends is never open. |
| `TimeWindows.CalculateExpiry` | crates/server/src/policy.rs:368-391 | The search loop returns the expiry that `TimeWindows.ExpiryExact` characterises. |

## Left out

- Clocks are arguments: each call gets its instant. The rate limiter's instants never go back; the receive buffer's wall clock may.
- Floating point: tokens, rates, waits and the factor 0.8 of the receive window are exact numbers, not f64; the conversion of waits to whole nanoseconds is modelled.
- `store` and the other calls of the receive buffer are one atomic step each; interleavings inside a call are not modelled.
- Counters such as `total_received`, `entries_written` and `bytes_transferred` do not wrap at 64 bits.
- The successor of sequence number 2^64 - 1 wraps to 0, as in release builds; development builds panic there.
- Calendar.ComputeYmd: an i32 year overflow is the result None; it panics or wraps depending on the build.
- Durations.ParseExact: a u64 overflow is an outcome of its own; it panics or wraps depending on the build.
- TokenBuckets.WaitIsExact: only for waits that exist; with a rate of zero `Duration::from_secs_f64` panics, which is the result None.
- AuditLog.OnlyOldestLost: file operations succeed and one writer at a time uses the directory; the code ignores errors of renaming and deleting. Serialization of entries to JSON lines is not part of this model.
- BridgeSafety.CancelledIsNeverAnswered: the kernel does not reuse the sequence number of a CMD_SUBMIT. The cancellation channel has no receiver and no effect. Payloads are not part of the step system; the codec modules treat them.
- Isochronous CMD_SUBMITs: the reader fails on every one of them (`UsbIpWire.ReadExact`).
- SocketBridges.SocketBridge: the endpoint lock map holds the present holder of each endpoint; the lock objects that stay behind without a holder are not modelled.
- Scheduling.BoundedWaiting: for a fixed set of clients and a fixed iteration order of the client map, which is an argument.
- TimeWindows.ExpiryExact: windows are given as parsed; the strings "HH:MM-HH:MM" that do not parse are skipped by the code.
- Notifications: device information other than the id is an opaque text; the order of the client's list and its toasts are not compared.
- Notifications.AggregationExact: for logs whose status changes keep the device id, as all logs of this server do; `Notifications.RenamingLosesId` shows what happens otherwise.
- Timestamps.FieldsIncrease: the model's year has no width; the code's is an i32 (`Calendar.ComputeYmd`).
- `take_timeout`, the condition variable, buffer statistics, `received_at` and the managers of several buffers.
- `AdaptiveJitterBuffer`: its estimate adds an absolute difference and so never shrinks, unlike the recurrence of section 6.4.1 of RFC 3550 that its comment describes; only a clamp would remain to state.
- `flow_control_state`: three thresholds on the fill ratio without memory.
- `PriorityQueue`: its comparison keys change with the clock while requests sit in the heap.
- The transfer handler of the server that uses the rate limiter: it goes on after a failed acquire, so no throughput bound holds there.
- Policy matching, session registration, bandwidth strings, integrity and bandwidth metrics: look-ups and counters without laws over runs.
- QUIC, iroh, sysfs, sockets, systemd, libusb, key files, logging, the terminal interface, postcard messages and the frame codec.
