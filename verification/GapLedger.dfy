/** Which sequence numbers are accounted for, over whole runs of the receive buffer. */
module GapLedger {
  import opened Common
  import opened ReceiveBuffer
  import Integrity

  /** [start, next) splits exactly into accepted, missing and given up. */
  ghost predicate Splits(start: u64, next: u64, accepted: set<u64>, missing: set<u64>, givenUp: set<u64>) {
    && start <= next
    && (forall x :: x in missing ==> start <= x < next && x !in accepted && x !in givenUp)
    && (forall x :: x in givenUp ==> start <= x < next && x !in accepted)
    && (forall x: u64 :: start <= x < next ==> x in accepted || x in missing || x in givenUp)
  }

  /** next is one past the highest accepted sequence, or the start. */
  ghost predicate IsNext(start: u64, next: u64, accepted: set<u64>) {
    && (forall x :: x in accepted ==> x < next)
    && (next > start ==> next - 1 in accepted)
  }

  ghost predicate TablesAgree(t: Tracking) {
    t.missing == t.timestamps.Keys && |t.missing| <= 256
  }

  /** The contiguous mark lies below every missing sequence, except that 0 has nothing below it. */
  ghost predicate MarkSound(mark: u64, highest: u64, missing: set<u64>) {
    mark <= highest && forall x :: x in missing ==> x == 0 || mark < x
  }

  ghost predicate Ledger(w: World) {
    var b, h := w.buffer, w.history;
    && Splits(h.start, b.nextExpected, h.accepted, b.tracking.missing, h.givenUp)
    && IsNext(h.start, b.nextExpected, h.accepted)
    && b.highest == Pred(b.nextExpected)
    && TablesAgree(b.tracking)
    && MarkSound(b.lastContiguous, b.highest, b.tracking.missing)
  }

  lemma TrackAgrees(t: Tracking, s: u64, now: u64)
    requires TablesAgree(t)
    ensures TablesAgree(Track(t, s, now)) && TablesAgree(Untrack(t, s))
  {
  }

  lemma {:induction false} TrackRangeAgrees(t: Tracking, lo: u64, hi: u64, now: u64)
    requires TablesAgree(t)
    ensures TablesAgree(TrackRange(t, lo, hi, now))
    decreases hi
  {
    if lo < hi {
      var q := TrackRange(t, lo, hi - 1, now);
      TrackRangeAgrees(t, lo, hi - 1, now);
      TrackAgrees(q, hi - 1, now);
      assert TrackRange(t, lo, hi, now) == Track(q, hi - 1, now);
    } else {
      assert TrackRange(t, lo, hi, now) == t;
    }
  }

  lemma TrackExact(t: Tracking, s: u64, now: u64)
    requires s !in t.missing
    ensures |t.missing| < MAX_MISSING_SEQUENCES ==>
              Track(t, s, now).missing == t.missing + {s} && |Track(t, s, now).missing| == |t.missing| + 1
    ensures |t.missing| >= MAX_MISSING_SEQUENCES ==> Track(t, s, now) == t
  {
  }

  /** The table holds what it held before, and the range's sequences up to `top`. */
  ghost predicate HoldsUpTo(q: Tracking, before: set<u64>, lo: u64, top: int) {
    forall x: u64 :: x in q.missing <==> x in before || lo <= x < top
  }

  lemma TrackOneMore(q: Tracking, before: set<u64>, lo: u64, s: u64, top: int, now: u64)
    requires forall x :: x in before ==> x < lo
    requires lo <= s && top <= s && HoldsUpTo(q, before, lo, top)
    requires |q.missing| < MAX_MISSING_SEQUENCES ==> top == s
    ensures HoldsUpTo(Track(q, s, now), before, lo, if |q.missing| < MAX_MISSING_SEQUENCES then s + 1 else top)
    ensures |Track(q, s, now).missing|
            == if |q.missing| < MAX_MISSING_SEQUENCES then |q.missing| + 1 else |q.missing|
  {
    assert s !in q.missing;
    TrackExact(q, s, now);
  }

  /** Filling a gap tracks its first sequences, as many as the table has room for. */
  lemma {:induction false} TrackRangeExact(t: Tracking, lo: u64, hi: u64, now: u64)
    requires lo <= hi && |t.missing| <= MAX_MISSING_SEQUENCES
    requires forall x :: x in t.missing ==> x < lo
    ensures |TrackRange(t, lo, hi, now).missing| == Min(256, |t.missing| + (hi - lo))
    ensures HoldsUpTo(TrackRange(t, lo, hi, now), t.missing, lo, Min(hi, lo + 256 - |t.missing|))
    decreases hi
  {
    if lo < hi {
      var q, top := TrackRange(t, lo, hi - 1, now), Min(hi - 1, lo + 256 - |t.missing|);
      TrackRangeExact(t, lo, hi - 1, now);
      assert |q.missing| == Min(256, |t.missing| + (hi - 1 - lo)) && HoldsUpTo(q, t.missing, lo, top);
      TrackOneMore(q, t.missing, lo, hi - 1, top, now);
      assert TrackRange(t, lo, hi, now) == Track(q, hi - 1, now);
    } else {
      assert TrackRange(t, lo, hi, now) == t;
    }
  }

  lemma ContiguousIsSound(missing: set<u64>, highest: u64, mark: u64)
    requires forall x :: x in missing ==> x <= highest
    requires MarkSound(mark, highest, missing)
    ensures MarkSound(Contiguous(missing, highest, mark), highest, missing)
    ensures Contiguous(missing, highest, mark) >= mark
  {
  }

  lemma ReconcileExact(b: Buffer, s: u64, now: u64)
    requires TablesAgree(b.tracking)
    requires forall x :: x in b.tracking.missing ==> x < b.nextExpected
    ensures TablesAgree(Reconciled(b, s, now))
    ensures s <= b.nextExpected ==> Reconciled(b, s, now).missing == b.tracking.missing - {s}
    ensures s > b.nextExpected ==>
              forall x: u64 :: x in Reconciled(b, s, now).missing <==>
                || x in b.tracking.missing
                || b.nextExpected <= x < Min(s, b.nextExpected + MAX_MISSING_SEQUENCES - |b.tracking.missing|)
  {
    if s > b.nextExpected {
      TrackRangeAgrees(b.tracking, b.nextExpected, s, now);
      TrackRangeExact(b.tracking, b.nextExpected, s, now);
    } else {
      TrackAgrees(b.tracking, s, now);
    }
  }

  lemma SplitAfterGap(start: u64, next: u64, s: u64, accepted: set<u64>, missing: set<u64>, givenUp: set<u64>,
                      top: int, missing': set<u64>, givenUp': set<u64>)
    requires Splits(start, next, accepted, missing, givenUp)
    requires forall x :: x in accepted ==> x < next
    requires next <= top <= s < U64_MAX
    requires forall x: u64 :: x in missing' <==> x in missing || next <= x < top
    requires forall x: u64 :: x in givenUp' <==> x in givenUp || top <= x < s
    ensures Splits(start, s + 1, accepted + {s}, missing', givenUp')
  {
  }

  lemma SplitAfterLate(start: u64, next: u64, s: u64, accepted: set<u64>, missing: set<u64>, givenUp: set<u64>)
    requires Splits(start, next, accepted, missing, givenUp)
    requires s <= next && s < U64_MAX
    ensures Splits(start, Max(next, s + 1), accepted + {s}, missing - {s}, givenUp - {s})
  {
  }

  /** A gap's untracked part is what lies past the tracked part. */
  lemma UntrackedExact(b: Buffer, s: u64, now: u64)
    requires TablesAgree(b.tracking)
    requires forall x :: x in b.tracking.missing ==> x < b.nextExpected
    ensures forall x: u64 :: x in Untracked(b, s, now) <==>
              Max(b.nextExpected, b.nextExpected + MAX_MISSING_SEQUENCES - |b.tracking.missing|) <= x < s
  {
    ReconcileExact(b, s, now);
  }

  lemma GapKeepsSplit(b: Buffer, h: History, s: u64, now: u64)
    requires TablesAgree(b.tracking) && b.nextExpected < s < U64_MAX
    requires forall x :: x in h.accepted ==> x < b.nextExpected
    requires Splits(h.start, b.nextExpected, h.accepted, b.tracking.missing, h.givenUp)
    ensures Splits(h.start, s + 1, h.accepted + {s}, Reconciled(b, s, now).missing,
                   h.givenUp + Untracked(b, s, now) - {s})
  {
    var top := Min(s, b.nextExpected + MAX_MISSING_SEQUENCES - |b.tracking.missing|);
    ReconcileExact(b, s, now);
    UntrackedExact(b, s, now);
    SplitAfterGap(h.start, b.nextExpected, s, h.accepted, b.tracking.missing, h.givenUp, top,
                  Reconciled(b, s, now).missing, h.givenUp + Untracked(b, s, now) - {s});
  }

  lemma LateKeepsSplit(b: Buffer, h: History, s: u64, now: u64)
    requires TablesAgree(b.tracking) && s <= b.nextExpected && s < U64_MAX
    requires Splits(h.start, b.nextExpected, h.accepted, b.tracking.missing, h.givenUp)
    ensures Splits(h.start, Max(b.nextExpected, s + 1), h.accepted + {s}, Reconciled(b, s, now).missing,
                   h.givenUp + Untracked(b, s, now) - {s})
  {
    ReconcileExact(b, s, now);
    assert h.givenUp + Untracked(b, s, now) - {s} == h.givenUp - {s};
    SplitAfterLate(h.start, b.nextExpected, s, h.accepted, b.tracking.missing, h.givenUp);
  }

  lemma AdmitKeepsSplit(w: World, r: Report, now: u64)
    requires Ledger(w) && r.Sequence() < U64_MAX
    ensures var b', h' := Admitted(w.buffer, r, now), Logged(w.buffer, w.history, r, now);
            Splits(h'.start, b'.nextExpected, h'.accepted, b'.tracking.missing, h'.givenUp)
  {
    if r.Sequence() > w.buffer.nextExpected {
      GapKeepsSplit(w.buffer, w.history, r.Sequence(), now);
    } else {
      LateKeepsSplit(w.buffer, w.history, r.Sequence(), now);
    }
  }

  lemma AdmitKeepsMark(w: World, r: Report, now: u64)
    requires Ledger(w) && r.Sequence() < U64_MAX
    ensures var b' := Admitted(w.buffer, r, now);
            && MarkSound(b'.lastContiguous, b'.highest, b'.tracking.missing)
            && b'.lastContiguous >= w.buffer.lastContiguous
  {
    var b, s := w.buffer, r.Sequence();
    ReconcileExact(b, s, now);
    ContiguousIsSound(Reconciled(b, s, now).missing, Max(b.highest, s), b.lastContiguous);
  }

  lemma IsNextAfter(start: u64, next: u64, accepted: set<u64>, s: u64)
    requires IsNext(start, next, accepted) && s < U64_MAX
    ensures IsNext(start, Max(next, s + 1), accepted + {s})
  {
  }

  lemma AdmitKeepsTables(w: World, r: Report, now: u64)
    requires Ledger(w)
    ensures TablesAgree(Admitted(w.buffer, r, now).tracking)
  {
    ReconcileExact(w.buffer, r.Sequence(), now);
  }

  lemma AdmitKeepsNext(w: World, r: Report, now: u64)
    requires Ledger(w) && r.Sequence() < U64_MAX
    ensures var b', h' := Admitted(w.buffer, r, now), Logged(w.buffer, w.history, r, now);
            IsNext(h'.start, b'.nextExpected, h'.accepted) && b'.highest == Pred(b'.nextExpected)
  {
    IsNextAfter(w.history.start, w.buffer.nextExpected, w.history.accepted, r.Sequence());
  }

  lemma AdmitKeepsLedger(w: World, r: Report, now: u64)
    requires Ledger(w) && r.Sequence() < U64_MAX
    ensures Ledger(World(Admitted(w.buffer, r, now), Logged(w.buffer, w.history, r, now)))
    ensures Admitted(w.buffer, r, now).lastContiguous >= w.buffer.lastContiguous
  {
    AdmitKeepsTables(w, r, now);
    AdmitKeepsNext(w, r, now);
    AdmitKeepsSplit(w, r, now);
    AdmitKeepsMark(w, r, now);
  }

  lemma LastSequenceBreaksLedger(w: World, r: Report, now: u64)
    requires r.Sequence() == U64_MAX
    ensures !Ledger(World(Admitted(w.buffer, r, now), Logged(w.buffer, w.history, r, now)))
  {
    assert U64_MAX in Logged(w.buffer, w.history, r, now).accepted;
  }

  /** The ledger survives a report exactly when it is refused or its sequence number has a successor. */
  lemma StoreKeepsLedgerExact(w: World, r: Report, now: u64)
    requires Ledger(w)
    ensures Ledger(Step(w, Store(r, now))) <==> (Accepts(w.buffer, r) ==> r.Sequence() < U64_MAX)
  {
    if Accepts(w.buffer, r) {
      if r.Sequence() < U64_MAX {
        AdmitKeepsLedger(w, r, now);
      } else {
        LastSequenceBreaksLedger(w, r, now);
      }
    }
  }

  lemma OtherCallKeepsLedger(w: World, e: Event)
    requires Ledger(w) && !e.Store?
    ensures Ledger(Step(w, e))
  {
    if e.Nack? {
      assert Stale(w.buffer.tracking, e.now) <= w.buffer.tracking.missing;
    }
  }

  /** Every call keeps the ledger, except storing the one report whose number has no successor. */
  lemma StepKeepsLedger(w: World, e: Event)
    requires Ledger(w)
    ensures Ledger(Step(w, e)) <==> !(e.Store? && Accepts(w.buffer, e.report) && e.report.Sequence() == U64_MAX)
  {
    if e.Store? {
      StoreKeepsLedgerExact(w, e.report, e.now);
    } else {
      OtherCallKeepsLedger(w, e);
    }
  }

  // ---------- Over runs ----------

  /** A report with the last sequence number was accepted since the last activation. */
  ghost predicate LastAccepted(w: World) {
    U64_MAX in w.history.accepted
  }

  lemma LedgerOrLast(w: World, e: Event)
    requires Ledger(w) || LastAccepted(w)
    ensures Ledger(Step(w, e)) || LastAccepted(Step(w, e))
  {
    if Ledger(w) {
      StepKeepsLedger(w, e);
    }
  }

  lemma {:induction false} RunKeepsLedgerOrLast(w: World, events: seq<Event>)
    requires Ledger(w) || LastAccepted(w)
    ensures Ledger(Run(w, events)) || LastAccepted(Run(w, events))
    decreases |events|
  {
    if events != [] {
      LedgerOrLast(w, events[0]);
      RunKeepsLedgerOrLast(Step(w, events[0]), events[1..]);
    }
  }

  lemma LastLeavesNoLedger(w: World)
    requires LastAccepted(w)
    ensures !Ledger(w)
  {
  }

  /** The ledger of every run from a new buffer: it is in order exactly when the one report whose
      number has no successor has not been accepted since the last activation. */
  lemma GapLedger(maxSize: nat, events: seq<Event>)
    ensures Ledger(Run(Initial(maxSize), events)) <==> !LastAccepted(Run(Initial(maxSize), events))
  {
    RunKeepsLedgerOrLast(Initial(maxSize), events);
    if LastAccepted(Run(Initial(maxSize), events)) {
      LastLeavesNoLedger(Run(Initial(maxSize), events));
    }
  }

  /** s lies beyond the start and beyond the successor of every accepted sequence. */
  ghost predicate Skips(h: History, s: u64) {
    s > h.start && forall x :: x in h.accepted ==> x + 1 < s
  }

  lemma SkipsExact(w: World, s: u64)
    requires Ledger(w)
    ensures Skips(w.history, s) <==> s > w.buffer.nextExpected
  {
    if s > w.buffer.nextExpected > w.history.start {
      assert w.buffer.nextExpected - 1 in w.history.accepted;
    }
  }

  /** What counts as a gap, on every run: an accepted report that skips a sequence. */
  lemma GapsCounted(maxSize: nat, past: seq<Event>, e: Event)
    requires !LastAccepted(Run(Initial(maxSize), past))
    ensures var w := Run(Initial(maxSize), past);
            Step(w, e).buffer.gapsDetected
            == w.buffer.gapsDetected
               + if e.Store? && Accepts(w.buffer, e.report) && Skips(w.history, e.report.Sequence()) then 1 else 0
  {
    GapLedger(maxSize, past);
    if e.Store? {
      SkipsExact(Run(Initial(maxSize), past), e.report.Sequence());
    }
  }

  /** Every sequence number has a report that passes verification. */
  ghost function Genuine(s: u64): (r: Report)
    ensures r.Sequence() == s && r.Verify()
  {
    GenuineExists(s);
    var r: Report :| r.Sequence() == s && r.Verify();
    r
  }

  lemma GenuineExists(s: u64)
    ensures exists r: Report :: r.Sequence() == s && r.Verify()
  {
    var fields := Integrity.Fields(s, 0x81, [], 0);
    var r := Report(fields, Integrity.ComputeInterruptChecksum(Integrity.IEEE_POLYNOMIAL, fields));
    assert r.Sequence() == s && r.Verify();
  }

  lemma RunOne(w: World, e: Event)
    ensures Run(w, [e]) == Step(w, e)
  {
    assert [e][1..] == [];
  }

  lemma RunAfterStep(w: World, e: Event, rest: seq<Event>)
    ensures Run(w, [e] + rest) == Run(Step(w, e), rest)
  {
    assert ([e] + rest)[1..] == rest;
  }

  lemma {:induction false} RunLast(w: World, events: seq<Event>, e: Event)
    ensures Run(w, events + [e]) == Step(Run(w, events), e)
    decreases |events|
  {
    if events == [] {
      assert events + [e] == [e];
      RunOne(w, e);
    } else {
      assert (events + [e])[1..] == events[1..] + [e];
      RunLast(Step(w, events[0]), events[1..], e);
    }
  }
}
