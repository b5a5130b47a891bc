/** The receive buffer's report queue refines the log of accepted reports, over whole runs. */
module ReceiveQueue {
  import opened Common
  import opened ReceiveBuffer
  import GapLedger

  function Count(fates: seq<Fate>, f: Fate): nat {
    if fates == [] then 0 else Count(fates[..|fates| - 1], f) + (if fates[|fates| - 1] == f then 1 else 0)
  }

  /** The logged reports whose fate was to be served, in order of arrival. */
  function ServedReports(log: seq<Report>, fates: seq<Fate>): seq<Report>
    requires |fates| <= |log|
  {
    if fates == [] then []
    else
      var n := |fates| - 1;
      ServedReports(log, fates[..n]) + (if fates[n] == Served then [log[n]] else [])
  }

  /** The queue is the part of the log without a fate yet; the kernel got exactly the served part. */
  ghost predicate RefinesLog(w: World) {
    var b, h := w.buffer, w.history;
    && |h.fates| <= |h.log|
    && b.reports == h.log[|h.fates|..]
    && h.outputs == ServedReports(h.log, h.fates)
    && b.totalReceived == |h.log|
    && b.totalServed == Count(h.fates, Served)
    && |b.reports| <= Max(1, b.maxSize)
  }

  // ---------- Extending the log and the fates ----------

  lemma {:induction false} ServedReportsOfLongerLog(log: seq<Report>, more: seq<Report>, fates: seq<Fate>)
    requires |fates| <= |log|
    ensures ServedReports(log + more, fates) == ServedReports(log, fates)
    decreases |fates|
  {
    if fates != [] {
      ServedReportsOfLongerLog(log, more, fates[..|fates| - 1]);
    }
  }

  lemma OneMoreFate(log: seq<Report>, fates: seq<Fate>, f: Fate)
    requires |fates| < |log|
    ensures ServedReports(log, fates + [f]) == ServedReports(log, fates) + (if f == Served then [log[|fates|]] else [])
    ensures forall g :: Count(fates + [f], g) == Count(fates, g) + (if f == g then 1 else 0)
  {
    assert (fates + [f])[..|fates|] == fates;
  }

  function Repeat(f: Fate, n: nat): seq<Fate> {
    seq(n, _ => f)
  }

  lemma {:induction false} ManyMoreFates(log: seq<Report>, fates: seq<Fate>, f: Fate, n: nat)
    requires |fates| + n <= |log| && f != Served
    ensures ServedReports(log, fates + Repeat(f, n)) == ServedReports(log, fates)
    ensures forall g :: Count(fates + Repeat(f, n), g) == Count(fates, g) + (if f == g then n else 0)
    decreases n
  {
    if n == 0 {
      assert fates + Repeat(f, 0) == fates;
    } else {
      ManyMoreFates(log, fates, f, n - 1);
      OneMoreFate(log, fates + Repeat(f, n - 1), f);
      assert fates + Repeat(f, n - 1) + [f] == fates + Repeat(f, n);
    }
  }

  // ---------- The queue over runs ----------

  lemma AdmitKeepsQueue(w: World, r: Report, now: u64)
    requires RefinesLog(w)
    ensures RefinesLog(World(Admitted(w.buffer, r, now), Logged(w.buffer, w.history, r, now)))
  {
    var b, h := w.buffer, w.history;
    ServedReportsOfLongerLog(h.log, [r], h.fates);
    if |b.reports| >= b.maxSize && b.reports != [] {
      OneMoreFate(h.log + [r], h.fates, Dropped);
    } else {
      assert h.fates + [] == h.fates;
    }
  }

  lemma StepKeepsQueue(w: World, e: Event)
    requires RefinesLog(w)
    ensures RefinesLog(Step(w, e))
  {
    match e
    case Store(r, now) =>
      if Accepts(w.buffer, r) {
        AdmitKeepsQueue(w, r, now);
      }
    case Deactivate =>
      ManyMoreFates(w.history.log, w.history.fates, Cleared, |w.buffer.reports|);
      assert Repeat(Cleared, |w.buffer.reports|) == seq(|w.buffer.reports|, _ => Cleared);
    case Take =>
      if w.buffer.reports != [] {
        OneMoreFate(w.history.log, w.history.fates, Served);
      }
    case _ =>
  }

  lemma {:induction false} RunKeepsQueue(w: World, events: seq<Event>)
    requires RefinesLog(w)
    ensures RefinesLog(Run(w, events))
    decreases |events|
  {
    if events != [] {
      StepKeepsQueue(w, events[0]);
      RunKeepsQueue(Step(w, events[0]), events[1..]);
    }
  }

  lemma {:induction false} EveryFateCounted(fates: seq<Fate>)
    ensures |fates| == Count(fates, Served) + Count(fates, Dropped) + Count(fates, Cleared)
  {
    if fates != [] {
      EveryFateCounted(fates[..|fates| - 1]);
    }
  }

  /** On every run: the queue is a suffix of the accepted log, the kernel was served a subsequence
      of it in arrival order, and no report is lost from the books. */
  lemma QueueRefinesLog(maxSize: nat, events: seq<Event>)
    ensures var w := Run(Initial(maxSize), events);
            && RefinesLog(w)
            && w.buffer.totalReceived == w.buffer.totalServed + |w.buffer.reports|
                 + Count(w.history.fates, Dropped) + Count(w.history.fates, Cleared)
  {
    RunKeepsQueue(Initial(maxSize), events);
    EveryFateCounted(Run(Initial(maxSize), events).history.fates);
  }

  // ---------- Which reports are accepted ----------

  /** The last activation comes after the last deactivation. */
  predicate Listening(events: seq<Event>) {
    events != []
    && (events[|events| - 1].Activate?
        || (!events[|events| - 1].Deactivate? && Listening(events[..|events| - 1])))
  }

  /** The genuine reports that arrived while listening. */
  function GenuineReports(events: seq<Event>): seq<Report> {
    if events == [] then []
    else
      var front, e := events[..|events| - 1], events[|events| - 1];
      GenuineReports(front) + (if e.Store? && Listening(front) && e.report.Verify() then [e.report] else [])
  }

  /** How many corrupted reports arrived while listening. */
  function CorruptReports(events: seq<Event>): nat {
    if events == [] then 0
    else
      var front, e := events[..|events| - 1], events[|events| - 1];
      CorruptReports(front) + (if e.Store? && Listening(front) && !e.report.Verify() then 1 else 0)
  }

  /** On every run the log consists of the genuine reports that arrived between an activation and the next
      deactivation, all of them in order; the corrupted ones among the arrivals are counted. */
  lemma {:induction false} LogExact(maxSize: nat, events: seq<Event>)
    ensures var w := Run(Initial(maxSize), events);
            && w.buffer.active == Listening(events)
            && w.history.log == GenuineReports(events)
            && w.buffer.checksumFailures == CorruptReports(events)
    decreases |events|
  {
    if events != [] {
      var front, e := events[..|events| - 1], events[|events| - 1];
      LogExact(maxSize, front);
      assert events == front + [e];
      GapLedger.RunLast(Initial(maxSize), front, e);
    }
  }

  // ---------- Capacity ----------

  lemma {:induction false} RunKeepsMaxSize(w: World, events: seq<Event>)
    ensures Run(w, events).buffer.maxSize == w.buffer.maxSize
    decreases |events|
  {
    if events != [] {
      RunKeepsMaxSize(Step(w, events[0]), events[1..]);
    }
  }

  ghost predicate HoldsAtMost(maxSize: nat, events: seq<Event>) {
    |Run(Initial(maxSize), events).buffer.reports| <= maxSize
  }

  ghost predicate StaysWithinCapacity(maxSize: nat) {
    forall events: seq<Event> :: HoldsAtMost(maxSize, events)
  }

  /** A buffer of size 0 still holds the report it just stored. */
  lemma ZeroCapacityHoldsOne(s: u64)
    ensures var e := Store(GapLedger.Genuine(s), 0);
            |Run(Initial(0), [Activate(s)] + [e]).buffer.reports| == 1
  {
    var e := Store(GapLedger.Genuine(s), 0);
    GapLedger.RunOne(Step(Initial(0), Activate(s)), e);
    GapLedger.RunAfterStep(Initial(0), Activate(s), [e]);
  }

  lemma CapacityKept(maxSize: nat, events: seq<Event>)
    requires maxSize >= 1
    ensures HoldsAtMost(maxSize, events)
  {
    QueueRefinesLog(maxSize, events);
    RunKeepsMaxSize(Initial(maxSize), events);
  }

  lemma ZeroCapacityExceeded(s: u64)
    ensures !StaysWithinCapacity(0)
  {
    ZeroCapacityHoldsOne(s);
    assert !HoldsAtMost(0, [Activate(s)] + [Store(GapLedger.Genuine(s), 0)]);
  }

  /** The capacity is respected on every run exactly when it is not zero. */
  lemma CapacityExact(maxSize: nat)
    ensures StaysWithinCapacity(maxSize) <==> maxSize >= 1
  {
    if maxSize >= 1 {
      forall events: seq<Event>
        ensures HoldsAtMost(maxSize, events)
      {
        CapacityKept(maxSize, events);
      }
    } else {
      ZeroCapacityExceeded(0);
    }
  }

  // ---------- Flow control ----------

  function Stores(events: seq<Event>): nat {
    if events == [] then 0 else (if events[0].Store? then 1 else 0) + Stores(events[1..])
  }

  lemma StepUsesOneSlot(w: World, e: Event)
    requires RefinesLog(w) && (e.Store? ==> Available(w.buffer) >= 1)
    ensures Count(Step(w, e).history.fates, Dropped) == Count(w.history.fates, Dropped)
    ensures Available(Step(w, e).buffer) >= Available(w.buffer) - (if e.Store? then 1 else 0)
  {
    var h := w.history;
    match e
    case Store(r, now) =>
      assert h.fates + [] == h.fates;
    case Deactivate =>
      ManyMoreFates(h.log, h.fates, Cleared, |w.buffer.reports|);
      assert Repeat(Cleared, |w.buffer.reports|) == seq(|w.buffer.reports|, _ => Cleared);
    case Take =>
      if w.buffer.reports != [] {
        OneMoreFate(h.log, h.fates, Served);
      }
    case _ =>
  }

  /** As many stores as there are free slots, among any other calls, drop nothing. */
  lemma {:induction false} FreeSlotsSuffice(w: World, events: seq<Event>)
    requires RefinesLog(w) && Stores(events) <= Available(w.buffer)
    ensures Count(Run(w, events).history.fates, Dropped) == Count(w.history.fates, Dropped)
    decreases |events|
  {
    if events != [] {
      StepUsesOneSlot(w, events[0]);
      StepKeepsQueue(w, events[0]);
      FreeSlotsSuffice(Step(w, events[0]), events[1..]);
    }
  }

  /** A sender that keeps to the advertised window never makes the queue overflow. */
  lemma WindowPreventsOverflow(maxSize: nat, past: seq<Event>, events: seq<Event>)
    requires Stores(events) <= ReceiveWindow(Run(Initial(maxSize), past).buffer)
    ensures var w := Run(Initial(maxSize), past);
            Count(Run(w, events).history.fates, Dropped) == Count(w.history.fates, Dropped)
  {
    RunKeepsQueue(Initial(maxSize), past);
    FreeSlotsSuffice(Run(Initial(maxSize), past), events);
  }

  /** Only accepted reports. */
  predicate Burst(b: Buffer, events: seq<Event>) {
    b.active && forall e :: e in events ==> e.Store? && e.report.Verify()
  }

  /** A burst drops exactly the excess over the free slots, so none exactly when it fits. */
  lemma {:induction false} BurstDropsExcess(w: World, events: seq<Event>)
    requires RefinesLog(w) && w.buffer.maxSize >= 1 && Burst(w.buffer, events)
    ensures Count(Run(w, events).history.fates, Dropped)
            == Count(w.history.fates, Dropped) + Max(0, |events| - Available(w.buffer))
    decreases |events|
  {
    if events != [] {
      var e, h := events[0], w.history;
      var w' := Step(w, e);
      StepKeepsQueue(w, e);
      assert Accepts(w.buffer, e.report);
      if Available(w.buffer) == 0 {
        OneMoreFate(h.log + [e.report], h.fates, Dropped);
      } else {
        assert h.fates + [] == h.fates;
      }
      BurstDropsExcess(w', events[1..]);
    }
  }
}
