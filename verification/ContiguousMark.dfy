/** The contiguous mark of the receive buffer, and what a completed stream leaves behind. */
module ContiguousMark {
  import opened Common
  import opened ReceiveBuffer
  import opened GapLedger

  // ---------- The mark never moves back ----------

  /** Nothing missing, and not the mark either, is above the highest sequence. */
  ghost predicate InOrder(b: Buffer) {
    b.lastContiguous <= b.highest && forall x :: x in b.tracking.missing ==> x <= b.highest
  }

  lemma {:induction false} TrackRangeWithin(t: Tracking, lo: u64, hi: u64, now: u64, x: u64)
    requires x in TrackRange(t, lo, hi, now).missing
    ensures x in t.missing || lo <= x < hi
    decreases hi
  {
    if lo < hi && x in TrackRange(t, lo, hi - 1, now).missing {
      TrackRangeWithin(t, lo, hi - 1, now, x);
    }
  }

  lemma ReconciledWithin(b: Buffer, s: u64, now: u64, x: u64)
    requires x in Reconciled(b, s, now).missing
    ensures x in b.tracking.missing || x <= s
  {
    if s > b.nextExpected {
      TrackRangeWithin(b.tracking, b.nextExpected, s, now, x);
    }
  }

  lemma ContiguousInOrder(missing: set<u64>, highest: u64, mark: u64)
    requires mark <= highest && forall x :: x in missing ==> x <= highest
    ensures mark <= Contiguous(missing, highest, mark) <= highest
  {
  }

  lemma StepKeepsOrder(b: Buffer, e: Event)
    requires InOrder(b)
    ensures InOrder(Apply(b, e))
    ensures !e.Activate? ==> Apply(b, e).lastContiguous >= b.lastContiguous
  {
    if e.Store? && Accepts(b, e.report) {
      var s := e.report.Sequence();
      var missing := Reconciled(b, s, e.now).missing;
      forall x | x in missing
        ensures x <= Max(b.highest, s)
      {
        ReconciledWithin(b, s, e.now, x);
      }
      ContiguousInOrder(missing, Max(b.highest, s), b.lastContiguous);
    }
  }

  lemma {:induction false} RunKeepsOrder(w: World, events: seq<Event>)
    requires InOrder(w.buffer)
    ensures InOrder(Run(w, events).buffer)
    decreases |events|
  {
    if events != [] {
      StepKeepsOrder(w.buffer, events[0]);
      RunKeepsOrder(Step(w, events[0]), events[1..]);
    }
  }

  /** After any run the mark is at most the highest sequence, and only an activation moves it back. */
  lemma MarkNeverDecreases(maxSize: nat, past: seq<Event>, e: Event)
    ensures var w := Run(Initial(maxSize), past);
            && w.buffer.lastContiguous <= w.buffer.highest
            && (!e.Activate? ==> Step(w, e).buffer.lastContiguous >= w.buffer.lastContiguous)
  {
    RunKeepsOrder(Initial(maxSize), past);
    StepKeepsOrder(Run(Initial(maxSize), past).buffer, e);
  }

  // ---------- The mark lies below everything missing ----------

  /** Everything from a non-zero start up to the mark was accepted or given up. */
  lemma BelowMarkAccountedFor(w: World, x: u64)
    requires Ledger(w) && 1 <= w.history.start <= x <= w.buffer.lastContiguous
    ensures x in w.history.accepted || x in w.history.givenUp
    ensures x !in w.buffer.tracking.missing
  {
  }

  predicate SameStream(events: seq<Event>) {
    forall e :: e in events ==> !e.Activate?
  }

  lemma {:induction false} RunKeepsStart(w: World, events: seq<Event>)
    requires SameStream(events)
    ensures Run(w, events).history.start == w.history.start
    decreases |events|
  {
    if events != [] {
      assert events[0] in events && SameStream(events[1..]);
      RunKeepsStart(Step(w, events[0]), events[1..]);
    }
  }

  ghost predicate MarkBelowMissing(b: Buffer) {
    forall x :: x in b.tracking.missing ==> b.lastContiguous < x
  }

  ghost function Activation(maxSize: nat, start: u64): World {
    Step(Initial(maxSize), Activate(start))
  }

  /** The mark stays below every missing sequence on all runs of a stream that begins at `start` and in
      which the last sequence number is not accepted. */
  ghost predicate SoundWithoutLast(start: u64) {
    forall maxSize: nat, events: seq<Event> ::
      SameStream(events) && !LastAccepted(Run(Activation(maxSize, start), events)) ==>
        MarkBelowMissing(Run(Activation(maxSize, start), events).buffer)
  }

  /** The same on really all runs. */
  ghost predicate SoundOnAllRuns(start: u64) {
    forall maxSize: nat, events: seq<Event> ::
      SameStream(events) ==> MarkBelowMissing(Run(Activation(maxSize, start), events).buffer)
  }

  /** A genuine report of sequence s arrives. */
  ghost function Arrival(s: u64, now: u64): Event {
    Store(Genuine(s), now)
  }

  /** What it does to the tracking, the next expected sequence and the mark. */
  lemma ArrivalEffect(b: Buffer, s: u64, now: u64)
    requires b.active
    ensures var b' := Apply(b, Arrival(s, now));
            && b'.active && b'.tracking == Reconciled(b, s, now)
            && b'.nextExpected == Max(b.nextExpected, Succ(s)) && b'.highest == Max(b.highest, s)
            && b'.lastContiguous == Contiguous(b'.tracking.missing, b'.highest, b.lastContiguous)
  {
    assert Accepts(b, Genuine(s));
  }

  lemma ArrivalAccepted(w: World, s: u64, now: u64)
    requires w.buffer.active
    ensures Step(w, Arrival(s, now)).history.accepted == w.history.accepted + {s}
  {
    assert Accepts(w.buffer, Genuine(s));
  }

  /** A stream that starts at 0 and loses its first report leaves the mark on the missing 0. */
  lemma ZeroStartLosesFirst(maxSize: nat, now: u64)
    ensures var w := Run(Activation(maxSize, 0), [Arrival(1, now)]);
            w.buffer.tracking.missing == {0} && w.buffer.lastContiguous == 0 && !LastAccepted(w)
  {
    var w := Activation(maxSize, 0);
    RunOne(w, Arrival(1, now));
    ArrivalEffect(w.buffer, 1, now);
    ArrivalAccepted(w, 1, now);
    assert Reconciled(w.buffer, 1, now).missing == {0} by {
      ReconcileExact(w.buffer, 1, now);
    }
  }

  lemma NonZeroStartIsSound(start: u64, maxSize: nat, events: seq<Event>)
    requires start >= 1 && SameStream(events) && !LastAccepted(Run(Activation(maxSize, start), events))
    ensures MarkBelowMissing(Run(Activation(maxSize, start), events).buffer)
  {
    RunKeepsLedgerOrLast(Activation(maxSize, start), events);
    RunKeepsStart(Activation(maxSize, start), events);
  }

  lemma RefutesSound(maxSize: nat, start: u64, events: seq<Event>)
    requires SameStream(events) && !LastAccepted(Run(Activation(maxSize, start), events))
    requires !MarkBelowMissing(Run(Activation(maxSize, start), events).buffer)
    ensures !SoundWithoutLast(start)
  {
  }

  lemma ZeroStartIsUnsound(maxSize: nat, now: u64)
    ensures !SoundWithoutLast(0)
  {
    ZeroStartLosesFirst(maxSize, now);
    var w := Run(Activation(maxSize, 0), [Arrival(1, now)]);
    assert !MarkBelowMissing(w.buffer) by {
      assert 0 in w.buffer.tracking.missing;
    }
    RefutesSound(maxSize, 0, [Arrival(1, now)]);
  }

  /** Without the last sequence number the mark is sound on every run exactly when the stream does not
      start at 0. */
  lemma MarkSoundExact(start: u64)
    ensures SoundWithoutLast(start) <==> start >= 1
  {
    if start >= 1 {
      forall maxSize: nat, events: seq<Event> |
        SameStream(events) && !LastAccepted(Run(Activation(maxSize, start), events))
        ensures MarkBelowMissing(Run(Activation(maxSize, start), events).buffer)
      {
        NonZeroStartIsSound(start, maxSize, events);
      }
    } else {
      ZeroStartIsUnsound(0, 0);
    }
  }

  /** No missing sequence is at or below the mark, and the one behind it, if any, is missing. */
  ghost predicate MarkIsLast(b: Buffer) {
    && MarkBelowMissing(b)
    && (b.lastContiguous < b.highest ==> b.lastContiguous + 1 in b.tracking.missing)
  }

  lemma AdmitMovesMark(b: Buffer, r: Report, now: u64)
    requires Admitted(b, r, now).lastContiguous <= Admitted(b, r, now).highest
    requires MarkBelowMissing(Admitted(b, r, now)) && 0 !in Admitted(b, r, now).tracking.missing
    ensures MarkIsLast(Admitted(b, r, now))
  {
  }

  lemma AcceptedMovesMark(w: World, r: Report, now: u64)
    requires Ledger(w) && 1 <= w.history.start && Accepts(w.buffer, r) && r.Sequence() < U64_MAX
    ensures MarkIsLast(Step(w, Store(r, now)).buffer)
  {
    AdmitKeepsLedger(w, r, now);
    AdmitMovesMark(w.buffer, r, now);
  }

  /** In a stream that does not start at 0, as long as the last sequence number is not accepted, the mark
      is after every accepted report the last sequence before the first missing one, or the highest if
      nothing is missing; no other call moves it, until the next activation. */
  lemma MarkExact(maxSize: nat, start: u64, past: seq<Event>, e: Event)
    requires start >= 1 && SameStream(past) && !e.Activate?
    requires !LastAccepted(Step(Run(Activation(maxSize, start), past), e))
    ensures var b, b' := Run(Activation(maxSize, start), past).buffer,
                         Step(Run(Activation(maxSize, start), past), e).buffer;
            if e.Store? && Accepts(b, e.report) then MarkIsLast(b') else b'.lastContiguous == b.lastContiguous
  {
    var w := Run(Activation(maxSize, start), past);
    RunKeepsLedgerOrLast(Activation(maxSize, start), past);
    RunKeepsStart(Activation(maxSize, start), past);
    if e.Store? && Accepts(w.buffer, e.report) {
      AcceptedMovesMark(w, e.report, e.now);
    }
  }

  // ---------- The last sequence number ----------

  /** All entries of the table were found missing at `now`. */
  ghost predicate StampedAt(stamps: map<u64, u64>, now: u64) {
    forall x :: x in stamps ==> stamps[x] == now
  }

  lemma {:induction false} TrackRangeStamped(t: Tracking, lo: u64, hi: u64, now: u64)
    requires StampedAt(t.timestamps, now)
    ensures StampedAt(TrackRange(t, lo, hi, now).timestamps, now)
    decreases hi
  {
    if lo < hi {
      TrackRangeStamped(t, lo, hi - 1, now);
    }
  }

  /** The last sequence number arrives ahead of time. */
  lemma LastAheadOfTime(b: Buffer)
    requires b.active && b.nextExpected < U64_MAX && b.tracking == NO_TRACKING
    ensures var b' := Apply(b, Arrival(U64_MAX, 0));
            && b'.active && b'.nextExpected == b.nextExpected && b'.highest == U64_MAX
            && TablesAgree(b'.tracking) && StampedAt(b'.tracking.timestamps, 0)
  {
    ArrivalEffect(b, U64_MAX, 0);
    TrackRangeStamped(b.tracking, b.nextExpected, U64_MAX, 0);
    TrackRangeAgrees(b.tracking, b.nextExpected, U64_MAX, 0);
  }

  /** Everything it left missing is given up. */
  lemma AllGivenUp(b: Buffer)
    requires TablesAgree(b.tracking) && StampedAt(b.tracking.timestamps, 0)
    ensures Apply(b, Nack(200_000)) == b.(tracking := Apply(b, Nack(200_000)).tracking)
    ensures Apply(b, Nack(200_000)).tracking.missing == {}
  {
  }

  /** A late report moves the mark to the end. */
  lemma MarkAtTheEnd(b: Buffer, late: u64)
    requires b.active && b.nextExpected < U64_MAX && b.highest == U64_MAX && b.tracking.missing == {}
    requires late <= b.nextExpected && late + 1 < U64_MAX
    ensures var b' := Apply(b, Arrival(late, 0));
            && b'.active && b'.nextExpected < U64_MAX && b'.highest == U64_MAX
            && b'.tracking.missing == {} && b'.lastContiguous == U64_MAX
  {
    ArrivalEffect(b, late, 0);
  }

  /** The last number once more: the next expected sequence is missing below the mark. */
  lemma MissingBelowMark(b: Buffer)
    requires b.active && b.nextExpected < U64_MAX && b.tracking.missing == {} && b.lastContiguous == U64_MAX
    ensures !MarkBelowMissing(Apply(b, Arrival(U64_MAX, 0)))
  {
    ArrivalEffect(b, U64_MAX, 0);
    TrackRangeExact(b.tracking, b.nextExpected, U64_MAX, 0);
    assert b.nextExpected in TrackRange(b.tracking, b.nextExpected, U64_MAX, 0).missing;
  }

  lemma FourSteps(w: World, a: Event, b: Event, c: Event, d: Event)
    ensures Run(w, [a, b, c, d]).buffer == Apply(Apply(Apply(Apply(w.buffer, a), b), c), d)
  {
    RunOne(Step(Step(Step(w, a), b), c), d);
    RunAfterStep(Step(Step(w, a), b), c, [d]);
    RunAfterStep(Step(w, a), b, [c] + [d]);
    RunAfterStep(w, a, [b] + ([c] + [d]));
    assert [a] + ([b] + ([c] + [d])) == [a, b, c, d];
  }

  lemma MarkPassesMissing(w: World, late: u64)
    requires w.buffer.active && w.buffer.nextExpected < U64_MAX && w.buffer.tracking == NO_TRACKING
    requires late <= w.buffer.nextExpected && late + 1 < U64_MAX
    ensures var a, c := Arrival(U64_MAX, 0), Arrival(late, 0);
            !MarkBelowMissing(Run(w, [a, Nack(200_000), c, a]).buffer)
  {
    var a, b, c := Arrival(U64_MAX, 0), Nack(200_000), Arrival(late, 0);
    LastAheadOfTime(w.buffer);
    var b1 := Apply(w.buffer, a);
    AllGivenUp(b1);
    var b2 := Apply(b1, b);
    MarkAtTheEnd(b2, late);
    MissingBelowMark(Apply(b2, c));
    FourSteps(w, a, b, c, a);
  }

  lemma RefutesAlwaysSound(maxSize: nat, start: u64, a: Event, b: Event, c: Event)
    requires !a.Activate? && !b.Activate? && !c.Activate?
    requires !MarkBelowMissing(Run(Activation(maxSize, start), [a, b, c, a]).buffer)
    ensures !SoundOnAllRuns(start)
  {
    assert SameStream([a, b, c, a]);
  }

  /** The last sequence number ahead of time, what it left missing given up, a report that is not ahead,
      and the last number once more. */
  lemma LastSequenceMovesMarkTooFar(maxSize: nat, start: u64, late: u64)
    requires late <= start < U64_MAX && late + 1 < U64_MAX
    ensures !MarkBelowMissing(Run(Activation(maxSize, start),
                                  [Arrival(U64_MAX, 0), Nack(200_000), Arrival(late, 0), Arrival(U64_MAX, 0)]).buffer)
    ensures !SoundOnAllRuns(start)
  {
    MarkPassesMissing(Activation(maxSize, start), late);
    RefutesAlwaysSound(maxSize, start, Arrival(U64_MAX, 0), Nack(200_000), Arrival(late, 0));
  }

  lemma {:induction false} NothingEverMissing(w: World, events: seq<Event>)
    requires SameStream(events) && w.buffer.nextExpected == U64_MAX && w.buffer.tracking.missing == {}
    ensures Run(w, events).buffer.tracking.missing == {}
    decreases |events|
  {
    if events != [] {
      assert events[0] in events && SameStream(events[1..]);
      NothingEverMissing(Step(w, events[0]), events[1..]);
    }
  }

  /** With the last sequence number, only a stream that begins at it keeps the mark sound on every run. */
  lemma MarkAlwaysSoundExact(start: u64)
    ensures SoundOnAllRuns(start) <==> start == U64_MAX
  {
    if start == U64_MAX {
      forall maxSize: nat, events: seq<Event> | SameStream(events)
        ensures MarkBelowMissing(Run(Activation(maxSize, start), events).buffer)
      {
        NothingEverMissing(Activation(maxSize, start), events);
      }
    } else {
      LastSequenceMovesMarkTooFar(0, start, 0);
    }
  }
}
