/** The client's per-endpoint interrupt receive buffer
    (crates/client/src/virtual_usb/interrupt_receive_buffer.rs).

    `Buffer` is the value of all fields; the functions on it specify the operations, and the
    methods of class `EndpointReceiveBuffer` in EndpointReceiveBuffer.dfy implement them in place.
    A call is one atomic step and the clock is an argument.
 */
module ReceiveBuffer {
  import opened Common
  import Integrity

  const NACK_TIMEOUT_US: u64 := 100_000
  const MAX_MISSING_SEQUENCES: nat := 256

  datatype Report = Report(fields: Integrity.Fields, checksum: Integrity.Word) {
    function Sequence(): u64 { fields.sequence }

    predicate Verify() {
      Integrity.VerifyInterruptChecksum(fields, checksum)
    }
  }

  /** The sequences awaiting retransmission, and when each was found missing. */
  datatype Tracking = Tracking(missing: set<u64>, timestamps: map<u64, u64>)

  datatype Buffer = Buffer(
    maxSize: nat,
    active: bool,
    reports: seq<Report>,
    nextExpected: u64,
    highest: u64,
    lastContiguous: u64,
    totalReceived: nat,
    totalServed: nat,
    gapsDetected: nat,
    checksumFailures: nat,
    tracking: Tracking)

  const NO_TRACKING := Tracking({}, map[])

  function Pred(x: u64): u64 {
    if x == 0 then 0 else x - 1
  }

  /** seq + 1 in u64 arithmetic without overflow checks. */
  function Succ(x: u64): u64 {
    if x == U64_MAX then 0 else x + 1
  }

  // ---------- Operations ----------

  function New(maxSize: nat): Buffer {
    Buffer(maxSize, false, [], 0, 0, 0, 0, 0, 0, 0, NO_TRACKING)
  }

  function Activated(b: Buffer, start: u64): Buffer {
    b.(active := true, nextExpected := start, highest := Pred(start), lastContiguous := Pred(start),
       tracking := NO_TRACKING)
  }

  function Deactivated(b: Buffer): Buffer {
    b.(active := false, reports := [], tracking := NO_TRACKING)
  }

  function Track(t: Tracking, s: u64, now: u64): Tracking {
    if |t.missing| < MAX_MISSING_SEQUENCES && s !in t.missing then Tracking(t.missing + {s}, t.timestamps[s := now])
    else t
  }

  function TrackRange(t: Tracking, lo: u64, hi: u64, now: u64): Tracking
    decreases hi
  {
    if hi <= lo then t else Track(TrackRange(t, lo, hi - 1, now), hi - 1, now)
  }

  function Untrack(t: Tracking, s: u64): Tracking {
    if s in t.missing then Tracking(t.missing - {s}, t.timestamps - {s}) else t
  }

  function Reconciled(b: Buffer, s: u64, now: u64): Tracking {
    if s > b.nextExpected then TrackRange(b.tracking, b.nextExpected, s, now) else Untrack(b.tracking, s)
  }

  ghost predicate IsLeast(s: set<u64>, m: u64) {
    m in s && forall x :: x in s ==> m <= x
  }

  lemma {:induction false} LeastBelow(s: set<u64>, a: u64) returns (m: u64)
    requires a in s
    ensures IsLeast(s, m)
    decreases a
  {
    if b :| b in s && b < a {
      m := LeastBelow(s, b);
    } else {
      m := a;
    }
  }

  /** iter().min() of a non-empty set. */
  ghost function Least(s: set<u64>): (m: u64)
    requires s != {}
    ensures IsLeast(s, m)
  {
    assert exists m :: IsLeast(s, m) by {
      var a :| a in s;
      var m := LeastBelow(s, a);
    }
    var m :| IsLeast(s, m);
    m
  }

  ghost function Contiguous(missing: set<u64>, highest: u64, lastContiguous: u64): u64 {
    if missing == {} then highest else Max(lastContiguous, Pred(Least(missing)))
  }

  function Pushed(reports: seq<Report>, maxSize: nat, r: Report): seq<Report> {
    (if |reports| >= maxSize && reports != [] then reports[1..] else reports) + [r]
  }

  predicate Accepts(b: Buffer, r: Report) {
    b.active && r.Verify()
  }

  /** Storing a report that passed its checks. */
  ghost function Admitted(b: Buffer, r: Report, now: u64): Buffer {
    var s := r.Sequence();
    var tracking := Reconciled(b, s, now);
    var highest := Max(b.highest, s);
    b.(nextExpected := Max(b.nextExpected, Succ(s)),
       highest := highest,
       lastContiguous := Contiguous(tracking.missing, highest, b.lastContiguous),
       reports := Pushed(b.reports, b.maxSize, r),
       totalReceived := b.totalReceived + 1,
       gapsDetected := b.gapsDetected + (if s > b.nextExpected then 1 else 0),
       tracking := tracking)
  }

  ghost function Stored(b: Buffer, r: Report, now: u64): Buffer {
    if !b.active then b
    else if !r.Verify() then b.(checksumFailures := b.checksumFailures + 1)
    else Admitted(b, r, now)
  }

  function Stale(t: Tracking, now: u64): set<u64> {
    set s | s in t.timestamps && now - t.timestamps[s] > NACK_TIMEOUT_US
  }

  function Expired(b: Buffer, now: u64): Buffer {
    var stale := Stale(b.tracking, now);
    b.(tracking := Tracking(b.tracking.missing - stale, b.tracking.timestamps - stale))
  }

  function Taken(b: Buffer): Buffer {
    if b.reports == [] then b else b.(reports := b.reports[1..], totalServed := b.totalServed + 1)
  }

  function Available(b: Buffer): nat {
    if |b.reports| >= b.maxSize then 0 else b.maxSize - |b.reports|
  }

  /** receive_window of flow_control_info: 80% of the free slots, as u32. */
  function ReceiveWindow(b: Buffer): (window: u32)
    ensures 5 * window <= 4 * Available(b)
    ensures window < U32_LIMIT - 1 ==> 4 * Available(b) < 5 * (window + 1)
  {
    Min((Available(b) as real * 0.8).Floor, U32_LIMIT - 1)
  }

  // ---------- Runs ----------

  datatype Event = Activate(start: u64) | Deactivate | Store(report: Report, now: u64) | Nack(now: u64) | Take

  /** What became of a report that left the queue. */
  datatype Fate = Served | Dropped | Cleared

  /** What an observer of all calls records: the sequences accepted and given up since the last
      activation at `start`, every accepted report in order, the fate of those that left the
      queue, and the reports handed to the kernel. */
  datatype History = History(
    start: u64,
    accepted: set<u64>,
    givenUp: set<u64>,
    log: seq<Report>,
    fates: seq<Fate>,
    outputs: seq<Report>)

  datatype World = World(buffer: Buffer, history: History)

  function Initial(maxSize: nat): World {
    World(New(maxSize), History(0, {}, {}, [], [], []))
  }

  ghost function Apply(b: Buffer, e: Event): Buffer {
    match e
    case Activate(start) => Activated(b, start)
    case Deactivate => Deactivated(b)
    case Store(r, now) => Stored(b, r, now)
    case Nack(now) => Expired(b, now)
    case Take => Taken(b)
  }

  /** Sequences of a gap that the full tracking table could not take. */
  function Untracked(b: Buffer, s: u64, now: u64): set<u64> {
    set x: u64 | b.nextExpected <= x < s && x !in Reconciled(b, s, now).missing
  }

  function Logged(b: Buffer, h: History, r: Report, now: u64): History {
    h.(accepted := h.accepted + {r.Sequence()},
       givenUp := h.givenUp + Untracked(b, r.Sequence(), now) - {r.Sequence()},
       log := h.log + [r],
       fates := h.fates + (if |b.reports| >= b.maxSize && b.reports != [] then [Dropped] else []))
  }

  ghost function Observe(b: Buffer, h: History, e: Event): History {
    match e
    case Activate(start) => h.(start := start, accepted := {}, givenUp := {})
    case Deactivate =>
      h.(givenUp := h.givenUp + b.tracking.missing, fates := h.fates + seq(|b.reports|, _ => Cleared))
    case Store(r, now) =>
      if Accepts(b, r) then Logged(b, h, r, now) else h
    case Nack(now) => h.(givenUp := h.givenUp + Stale(b.tracking, now))
    case Take =>
      if b.reports == [] then h else h.(fates := h.fates + [Served], outputs := h.outputs + [b.reports[0]])
  }

  ghost function Step(w: World, e: Event): World {
    World(Apply(w.buffer, e), Observe(w.buffer, w.history, e))
  }

  ghost function Run(w: World, events: seq<Event>): World
    decreases |events|
  {
    if events == [] then w else Run(Step(w, events[0]), events[1..])
  }
}
