/** How long a missing sequence is asked for again before it is given up, over whole runs. */
module MissingAges {
  import opened Common
  import opened ReceiveBuffer
  import opened GapLedger

  /** The state after the first i calls. */
  ghost function After(maxSize: nat, events: seq<Event>, i: nat): World
    requires i <= |events|
  {
    Run(Initial(maxSize), events[..i])
  }

  lemma AfterStep(maxSize: nat, events: seq<Event>, i: nat)
    requires i < |events|
    ensures After(maxSize, events, i + 1) == Step(After(maxSize, events, i), events[i])
    ensures After(maxSize, events, 0) == Initial(maxSize)
  {
    assert events[..i + 1] == events[..i] + [events[i]];
    RunLast(Initial(maxSize), events[..i], events[i]);
  }

  predicate Missing(w: World, x: u64) {
    x in w.buffer.tracking.missing
  }

  // ---------- Since when a sequence is missing ----------

  lemma ReconcileKeepsTables(b: Buffer, s: u64, now: u64)
    requires TablesAgree(b.tracking)
    ensures TablesAgree(Reconciled(b, s, now))
  {
    if s > b.nextExpected {
      TrackRangeAgrees(b.tracking, b.nextExpected, s, now);
    } else {
      TrackAgrees(b.tracking, s, now);
    }
  }

  lemma ExpiryKeepsTables(b: Buffer, now: u64)
    requires TablesAgree(b.tracking)
    ensures TablesAgree(Expired(b, now).tracking)
  {
    var missing, left := b.tracking.missing, Expired(b, now).tracking.missing;
    assert missing == left + (missing - left);
  }

  lemma StepKeepsTables(b: Buffer, e: Event)
    requires TablesAgree(b.tracking)
    ensures TablesAgree(Apply(b, e).tracking)
  {
    match e
    case Store(r, now) => ReconcileKeepsTables(b, r.Sequence(), now);
    case Nack(now) => ExpiryKeepsTables(b, now);
    case _ =>
  }

  predicate Agrees(t: Tracking, x: u64) {
    x in t.missing <==> x in t.timestamps
  }

  /** From t to t', x keeps its entry, or gets one of `now` as a sequence of [lo, hi). */
  predicate Stamps(t: Tracking, t': Tracking, lo: int, hi: int, now: u64, x: u64) {
    && Agrees(t, x) && Agrees(t', x)
    && (x in t.missing ==> x in t'.missing && t'.timestamps[x] == t.timestamps[x])
    && (x !in t.missing && x in t'.missing ==> lo <= x < hi && t'.timestamps[x] == now)
  }

  lemma TrackStamps(t: Tracking, q: Tracking, lo: int, s: u64, now: u64, x: u64)
    requires lo <= s && Stamps(t, q, lo, s, now, x)
    ensures Stamps(t, Track(q, s, now), lo, s + 1, now, x)
  {
  }

  lemma {:induction false} TrackRangeStamps(t: Tracking, lo: u64, hi: u64, now: u64, x: u64)
    requires Agrees(t, x)
    ensures Stamps(t, TrackRange(t, lo, hi, now), lo, hi, now, x)
    decreases hi
  {
    if lo < hi {
      TrackRangeStamps(t, lo, hi - 1, now, x);
      TrackStamps(t, TrackRange(t, lo, hi - 1, now), lo, hi - 1, now, x);
    }
  }

  /** A sequence that stays missing keeps its instant; one becomes missing by a report that skips it. */
  lemma StepStamps(b: Buffer, e: Event, x: u64)
    requires TablesAgree(b.tracking) && x in Apply(b, e).tracking.missing
    ensures x in Apply(b, e).tracking.timestamps
    ensures x in b.tracking.missing ==> Apply(b, e).tracking.timestamps[x] == b.tracking.timestamps[x]
    ensures x !in b.tracking.missing ==>
              && e.Store? && Accepts(b, e.report) && b.nextExpected <= x < e.report.Sequence()
              && Apply(b, e).tracking.timestamps[x] == e.now
  {
    if e.Store? && Accepts(b, e.report) && e.report.Sequence() > b.nextExpected {
      TrackRangeStamps(b.tracking, b.nextExpected, e.report.Sequence(), e.now, x);
    }
    StepKeepsTables(b, e);
  }

  /** The i-th call made x missing, and x has been missing ever since. */
  ghost predicate FoundMissing(maxSize: nat, events: seq<Event>, i: nat, x: u64) {
    && i < |events|
    && !Missing(After(maxSize, events, i), x)
    && forall j :: i < j <= |events| ==> Missing(After(maxSize, events, j), x)
  }

  lemma {:induction false} TablesAfter(maxSize: nat, events: seq<Event>, i: nat)
    requires i <= |events|
    ensures TablesAgree(After(maxSize, events, i).buffer.tracking)
  {
    if i > 0 {
      var b := After(maxSize, events, i - 1).buffer;
      TablesAfter(maxSize, events, i - 1);
      assert TablesAgree(Apply(b, events[i - 1]).tracking) by {
        StepKeepsTables(b, events[i - 1]);
      }
      AfterStep(maxSize, events, i - 1);
    }
  }

  lemma {:induction false} StampOf(maxSize: nat, events: seq<Event>, i: nat, x: u64, j: nat)
    requires FoundMissing(maxSize, events, i, x) && i < j <= |events|
    ensures var b, found := After(maxSize, events, j).buffer, After(maxSize, events, i).buffer;
            && x in b.tracking.timestamps && events[i].Store? && b.tracking.timestamps[x] == events[i].now
            && Accepts(found, events[i].report) && found.nextExpected <= x < events[i].report.Sequence()
    decreases j
  {
    TablesAfter(maxSize, events, j - 1);
    AfterStep(maxSize, events, j - 1);
    if j > i + 1 {
      StampOf(maxSize, events, i, x, j - 1);
    }
    StepStamps(After(maxSize, events, j - 1).buffer, events[j - 1], x);
  }

  /** Everything missing was made missing by some call. */
  lemma {:induction false} MissingWasFound(maxSize: nat, events: seq<Event>, x: u64, n: nat) returns (i: nat)
    requires n <= |events| && forall j :: n < j <= |events| ==> Missing(After(maxSize, events, j), x)
    requires Missing(After(maxSize, events, |events|), x)
    ensures FoundMissing(maxSize, events, i, x)
  {
    if Missing(After(maxSize, events, n), x) {
      i := MissingWasFound(maxSize, events, x, n - 1);
    } else {
      i := n;
    }
  }

  /** A query keeps asking for a missing sequence, and so returns it, exactly as long as at most 100 ms
      have passed since the report that skipped it; whatever the clock did in between. */
  lemma GivenUpExact(maxSize: nat, events: seq<Event>, x: u64, now: u64) returns (i: nat)
    requires Missing(Run(Initial(maxSize), events), x)
    ensures FoundMissing(maxSize, events, i, x)
    ensures var b := After(maxSize, events, i).buffer;
            && events[i].Store? && Accepts(b, events[i].report) && b.nextExpected <= x < events[i].report.Sequence()
            && (Missing(Step(Run(Initial(maxSize), events), Nack(now)), x) <==> now - events[i].now <= 100_000)
  {
    assert events[..|events|] == events;
    i := MissingWasFound(maxSize, events, x, |events|);
    StampOf(maxSize, events, i, x, |events|);
    TablesAfter(maxSize, events, |events|);
  }

  /** There is one such report only. */
  lemma FoundOnce(maxSize: nat, events: seq<Event>, i: nat, j: nat, x: u64)
    requires FoundMissing(maxSize, events, i, x)
    ensures FoundMissing(maxSize, events, j, x) <==> i == j
  {
  }
}
