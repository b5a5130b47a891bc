/** What a completely delivered stream leaves behind in the receive buffer. */
module Convergence {
  import opened Common
  import opened ReceiveBuffer
  import opened GapLedger
  import opened ContiguousMark

  /** Traffic of a stream that ends at `last`: deliveries, corrupted or not, queries that may
      expire sequences, and takes. */
  predicate InStream(e: Event, last: u64) {
    && !e.Activate? && !e.Deactivate?
    && (e.Store? && e.report.Verify() ==> e.report.Sequence() <= last)
  }

  /** A genuine report of sequence s arrives at least once. */
  predicate Arrives(events: seq<Event>, s: u64) {
    exists i :: 0 <= i < |events| && events[i].Store? && events[i].report.Verify() && events[i].report.Sequence() == s
  }

  /** Everything from start to last arrives, in any order and however often. */
  ghost predicate Delivers(events: seq<Event>, start: u64, last: u64) {
    && (forall e :: e in events ==> InStream(e, last))
    && (forall s: u64 :: start <= s <= last ==> Arrives(events, s))
  }

  /** Nothing is missing or given up, and the mark is at the end of the stream. */
  ghost predicate Complete(w: World, last: u64) {
    && w.buffer.tracking.missing == {} && w.history.givenUp == {}
    && w.buffer.lastContiguous == w.buffer.highest == last
    && w.buffer.nextExpected == Min(last + 1, U64_MAX)
  }

  lemma {:induction false} AcceptedGrows(w: World, events: seq<Event>)
    requires SameStream(events)
    ensures w.history.accepted <= Run(w, events).history.accepted
    decreases |events|
  {
    if events != [] {
      assert events[0] in events && SameStream(events[1..]);
      AcceptedGrows(Step(w, events[0]), events[1..]);
    }
  }

  lemma ActiveStays(w: World, e: Event, last: u64)
    requires InStream(e, last) && w.buffer.active
    ensures Step(w, e).buffer.active
    ensures e.Store? && e.report.Verify() ==> e.report.Sequence() in Step(w, e).history.accepted
  {
  }

  lemma {:induction false} ArrivedAtIsAccepted(w: World, events: seq<Event>, last: u64, i: nat)
    requires w.buffer.active && i < |events| && forall e :: e in events ==> InStream(e, last)
    ensures events[i].Store? && events[i].report.Verify() ==>
              events[i].report.Sequence() in Run(w, events).history.accepted
    decreases i
  {
    var w', rest := Step(w, events[0]), events[1..];
    assert InStream(events[0], last);
    ActiveStays(w, events[0], last);
    if i == 0 {
      forall e | e in rest
        ensures !e.Activate?
      {
        assert e in events && InStream(e, last);
      }
      AcceptedGrows(w', rest);
    } else {
      assert rest[i - 1] == events[i];
      ArrivedAtIsAccepted(w', rest, last, i - 1);
    }
  }

  /** A report that arrives in an active stream is accepted. */
  lemma ArrivedIsAccepted(w: World, events: seq<Event>, last: u64, s: u64)
    requires w.buffer.active && forall e :: e in events ==> InStream(e, last)
    ensures Arrives(events, s) ==> s in Run(w, events).history.accepted
  {
    if i :| 0 <= i < |events| && events[i].Store? && events[i].report.Verify() && events[i].report.Sequence() == s {
      ArrivedAtIsAccepted(w, events, last, i);
    }
  }

  // ---------- Streams that end before the last sequence number ----------

  /** While nothing is outstanding or given up, the mark is at the highest sequence. */
  ghost predicate MarkCaughtUp(w: World, last: u64) {
    var b, h := w.buffer, w.history;
    && Ledger(w) && b.active
    && (forall x :: x in h.accepted ==> x <= last)
    && (b.tracking.missing == {} && h.givenUp == {} ==> b.lastContiguous == b.highest)
  }

  lemma StepKeepsCaughtUp(w: World, e: Event, last: u64)
    requires MarkCaughtUp(w, last) && InStream(e, last) && last < U64_MAX
    ensures MarkCaughtUp(Step(w, e), last)
  {
    match e
    case Store(r, now) =>
      if r.Verify() {
        AdmitKeepsLedger(w, r, now);
      }
    case Nack(now) =>
      OtherCallKeepsLedger(w, e);
      if Expired(w.buffer, now).tracking.missing == {} && w.history.givenUp + Stale(w.buffer.tracking, now) == {} {
        assert w.buffer.tracking.missing == {};
      }
    case _ =>
  }

  lemma {:induction false} RunKeepsCaughtUp(w: World, events: seq<Event>, last: u64)
    requires MarkCaughtUp(w, last) && last < U64_MAX
    requires forall e :: e in events ==> InStream(e, last)
    ensures MarkCaughtUp(Run(w, events), last) && Run(w, events).history.start == w.history.start
    decreases |events|
  {
    if events != [] {
      StepKeepsCaughtUp(w, events[0], last);
      RunKeepsCaughtUp(Step(w, events[0]), events[1..], last);
    }
  }

  lemma AllAcceptedIsComplete(w: World, last: u64)
    requires MarkCaughtUp(w, last) && w.history.start <= last < U64_MAX
    requires forall s: u64 :: w.history.start <= s <= last ==> s in w.history.accepted
    ensures Complete(w, last)
  {
    assert last in w.history.accepted;
  }

  /** Once every sequence of start..last has arrived, with losses in between of any size and age,
      nothing is missing or given up and the mark is at last. */
  lemma DeliveryConverges(maxSize: nat, start: u64, last: u64, events: seq<Event>)
    requires start <= last < U64_MAX && Delivers(events, start, last)
    ensures Complete(Run(Activation(maxSize, start), events), last)
  {
    var w0 := Activation(maxSize, start);
    RunKeepsCaughtUp(w0, events, last);
    forall s: u64 | start <= s <= last
      ensures s in Run(w0, events).history.accepted
    {
      ArrivedIsAccepted(w0, events, last, s);
    }
    AllAcceptedIsComplete(Run(w0, events), last);
  }

  // ---------- Streams that end at the last sequence number ----------

  const SECOND_LAST: u64 := U64_MAX - 1

  /** The parts of a world that Closing speaks about. */
  ghost predicate ClosingParts(next: u64, highest: u64, mark: u64, t: Tracking, accepted: set<u64>, givenUp: set<u64>,
                               start: u64)
  {
    && next == (if start == U64_MAX || SECOND_LAST in accepted then U64_MAX else SECOND_LAST)
    && t.missing <= {SECOND_LAST} && givenUp <= {SECOND_LAST}
    && (next == U64_MAX ==> t.missing == {} && givenUp == {})
    && (U64_MAX in accepted ==> highest == U64_MAX)
    && (t.missing == {} && givenUp == {} ==> mark == highest)
  }

  /** A stream of the last one or two sequence numbers: only the second last can ever be missing. */
  ghost predicate Closing(w: World, start: u64) {
    var b, h := w.buffer, w.history;
    && b.active && start >= SECOND_LAST && TablesAgree(b.tracking)
    && ClosingParts(b.nextExpected, b.highest, b.lastContiguous, b.tracking, h.accepted, h.givenUp, start)
  }

  /** One report into a stream that has come to its end, or is one short of it. */
  lemma ReconcileClosing(b: Buffer, s: u64, now: u64)
    requires b.nextExpected >= SECOND_LAST && b.tracking.missing <= {SECOND_LAST}
    requires b.nextExpected == U64_MAX ==> b.tracking.missing == {}
    ensures Untracked(b, s, now) == {}
    ensures Reconciled(b, s, now).missing
            == if s > b.nextExpected then {SECOND_LAST} else b.tracking.missing - {s}
  {
    if s > b.nextExpected {
      var t := b.tracking;
      assert TrackRange(t, SECOND_LAST, SECOND_LAST, now) == t;
      assert TrackRange(t, SECOND_LAST, U64_MAX, now) == Track(t, SECOND_LAST, now);
      assert |t.missing| <= 1 by {
        assert t.missing == {} || t.missing == {SECOND_LAST};
      }
    }
  }

  lemma StoreKeepsParts(w: World, s: u64, now: u64, start: u64)
    requires Closing(w, start)
    ensures var b, h, t := w.buffer, w.history, Reconciled(w.buffer, s, now);
            var highest := Max(b.highest, s);
            && TablesAgree(t)
            && ClosingParts(Max(b.nextExpected, Succ(s)), highest, Contiguous(t.missing, highest, b.lastContiguous), t,
                            h.accepted + {s}, h.givenUp + Untracked(b, s, now) - {s}, start)
  {
    var t := w.buffer.tracking;
    ReconcileClosing(w.buffer, s, now);
    if s > w.buffer.nextExpected {
      TrackRangeAgrees(t, w.buffer.nextExpected, s, now);
    } else {
      TrackAgrees(t, s, now);
    }
  }

  lemma StoreKeepsClosing(w: World, r: Report, now: u64, start: u64)
    requires Closing(w, start)
    ensures Closing(Step(w, Store(r, now)), start)
  {
    if r.Verify() {
      StoreKeepsParts(w, r.Sequence(), now, start);
    }
  }

  lemma StepKeepsClosing(w: World, e: Event, start: u64)
    requires Closing(w, start) && InStream(e, U64_MAX)
    ensures Closing(Step(w, e), start)
  {
    match e
    case Store(r, now) =>
      StoreKeepsClosing(w, r, now, start);
    case Nack(now) =>
      assert Stale(w.buffer.tracking, now) <= w.buffer.tracking.missing;
    case _ =>
  }

  lemma {:induction false} RunKeepsClosing(w: World, events: seq<Event>, start: u64)
    requires Closing(w, start) && forall e :: e in events ==> InStream(e, U64_MAX)
    ensures Closing(Run(w, events), start)
    decreases |events|
  {
    if events != [] {
      StepKeepsClosing(w, events[0], start);
      RunKeepsClosing(Step(w, events[0]), events[1..], start);
    }
  }

  /** The last one or two sequence numbers, both delivered, leave the stream complete. */
  lemma ClosingConverges(maxSize: nat, start: u64, events: seq<Event>)
    requires start >= SECOND_LAST && Delivers(events, start, U64_MAX)
    ensures Complete(Run(Activation(maxSize, start), events), U64_MAX)
  {
    var w0 := Activation(maxSize, start);
    RunKeepsClosing(w0, events, start);
    ArrivedIsAccepted(w0, events, U64_MAX, U64_MAX);
    if start == SECOND_LAST {
      ArrivedIsAccepted(w0, events, U64_MAX, SECOND_LAST);
    }
  }

  /** Every call but the arrival of x itself, an expiry or the end of the stream leaves x missing. */
  lemma {:induction false} StaysMissing(w: World, events: seq<Event>, x: u64)
    requires x in w.buffer.tracking.missing
    requires forall e :: e in events ==> e.Store? && e.report.Sequence() != x
    ensures x in Run(w, events).buffer.tracking.missing
    decreases |events|
  {
    if events != [] {
      StoreKeepsMissing(w.buffer, events[0], x);
      StaysMissing(Step(w, events[0]), events[1..], x);
    }
  }

  lemma {:induction false} TrackRangeKeeps(t: Tracking, lo: u64, hi: u64, now: u64, x: u64)
    requires x in t.missing
    ensures x in TrackRange(t, lo, hi, now).missing
    decreases hi
  {
    if lo < hi {
      TrackRangeKeeps(t, lo, hi - 1, now, x);
    }
  }

  lemma StoreKeepsMissing(b: Buffer, e: Event, x: u64)
    requires x in b.tracking.missing && e.Store? && (e.report.Sequence() != x || x > b.nextExpected)
    ensures x in Apply(b, e).tracking.missing
  {
    if e.report.Sequence() > b.nextExpected {
      TrackRangeKeeps(b.tracking, b.nextExpected, e.report.Sequence(), e.now, x);
    }
  }

  /** The last sequence number first, then the second of the stream, the first, and all others in
      order: the second comes ahead of the expected one and stays missing for good. */
  function NumberAt(start: u64, i: nat): u64
    requires start < SECOND_LAST && i <= U64_MAX - start
  {
    if i == 0 then U64_MAX else if i == 1 then start + 1 else if i == 2 then start else start + i - 1
  }

  ghost function LastFirst(start: u64): (events: seq<Event>)
    requires start < SECOND_LAST
    ensures |events| == U64_MAX - start + 1
  {
    seq(U64_MAX - start + 1, i requires 0 <= i < U64_MAX - start + 1 => Arrival(NumberAt(start, i), 0))
  }

  lemma ArrivalIsGenuine(s: u64, now: u64)
    ensures var e := Arrival(s, now);
            e.Store? && e.report.Verify() && e.report.Sequence() == s && InStream(e, U64_MAX)
  {
  }

  lemma ArrivesAt(events: seq<Event>, i: nat, s: u64)
    requires i < |events|
    ensures events[i] == Arrival(s, 0) ==> Arrives(events, s)
  {
    ArrivalIsGenuine(s, 0);
  }

  function IndexOf(start: u64, s: u64): (i: nat)
    requires start < SECOND_LAST && start <= s
    ensures i <= U64_MAX - start && NumberAt(start, i) == s
  {
    if s == U64_MAX then 0 else if s == start then 2 else if s == start + 1 then 1 else s - start + 1
  }

  lemma LastFirstDelivers(start: u64)
    requires start < SECOND_LAST
    ensures Delivers(LastFirst(start), start, U64_MAX)
  {
    var events := LastFirst(start);
    forall e | e in events
      ensures InStream(e, U64_MAX)
    {
      var i :| 0 <= i < |events| && events[i] == e;
      ArrivalIsGenuine(NumberAt(start, i), 0);
    }
    forall s: u64 | start <= s <= U64_MAX
      ensures Arrives(events, s)
    {
      assert events[IndexOf(start, s)] == Arrival(NumberAt(start, IndexOf(start, s)), 0);
      ArrivesAt(events, IndexOf(start, s), s);
    }
  }

  lemma SecondTracked(b: Buffer, start: u64)
    requires b.active && b.nextExpected == start < SECOND_LAST && b.tracking == NO_TRACKING
    ensures var b' := Apply(b, Arrival(U64_MAX, 0));
            b'.active && b'.nextExpected == start && start + 1 in b'.tracking.missing
  {
    ArrivalEffect(b, U64_MAX, 0);
    TrackRangeExact(b.tracking, start, U64_MAX, 0);
  }

  lemma OthersAvoidSecond(start: u64)
    requires start < SECOND_LAST
    ensures forall e :: e in LastFirst(start)[2..] ==> e.Store? && e.report.Sequence() != start + 1
  {
    var rest := LastFirst(start)[2..];
    forall e | e in rest
      ensures e.Store? && e.report.Sequence() != start + 1
    {
      var i :| 0 <= i < |rest| && rest[i] == e;
      assert e == Arrival(NumberAt(start, i + 2), 0);
      ArrivalIsGenuine(NumberAt(start, i + 2), 0);
    }
  }

  lemma SecondStaysMissing(w: World, start: u64, rest: seq<Event>)
    requires w.buffer.active && w.buffer.nextExpected == start < SECOND_LAST && w.buffer.tracking == NO_TRACKING
    requires forall e :: e in rest ==> e.Store? && e.report.Sequence() != start + 1
    ensures start + 1 in Run(w, [Arrival(U64_MAX, 0)] + ([Arrival(start + 1, 0)] + rest)).buffer.tracking.missing
  {
    var a, b := Arrival(U64_MAX, 0), Arrival(start + 1, 0);
    var w1 := Step(w, a);
    SecondTracked(w.buffer, start);
    StoreKeepsMissing(w1.buffer, b, start + 1);
    StaysMissing(Step(w1, b), rest, start + 1);
    RunAfterStep(w1, b, rest);
    RunAfterStep(w, a, [b] + rest);
  }

  lemma LastFirstStaysIncomplete(maxSize: nat, start: u64)
    requires start < SECOND_LAST
    ensures start + 1 in Run(Activation(maxSize, start), LastFirst(start)).buffer.tracking.missing
  {
    var events := LastFirst(start);
    OthersAvoidSecond(start);
    SecondStaysMissing(Activation(maxSize, start), start, events[2..]);
    assert NumberAt(start, 0) == U64_MAX && NumberAt(start, 1) == start + 1;
    assert events == [Arrival(U64_MAX, 0)] + ([Arrival(start + 1, 0)] + events[2..]);
  }

  // ---------- Exactly which streams converge ----------

  ghost predicate Converges(start: u64, last: u64) {
    forall maxSize: nat, events: seq<Event> :: Delivers(events, start, last) ==>
      Complete(Run(Activation(maxSize, start), events), last)
  }

  /** Delivery in whatever order completes a stream exactly when it does not contain the last sequence
      number, or at most one other. */
  lemma ConvergesExact(start: u64, last: u64)
    requires start <= last
    ensures Converges(start, last) <==> last < U64_MAX || start >= SECOND_LAST
  {
    if last < U64_MAX || start >= SECOND_LAST {
      forall maxSize: nat, events: seq<Event> | Delivers(events, start, last)
        ensures Complete(Run(Activation(maxSize, start), events), last)
      {
        if last < U64_MAX {
          DeliveryConverges(maxSize, start, last, events);
        } else {
          ClosingConverges(maxSize, start, events);
        }
      }
    } else {
      LastFirstDelivers(start);
      LastFirstStaysIncomplete(0, start);
    }
  }
}
