/** The hierarchical rate limiter as lock sections (crates/common/src/rate_limiter.rs).

    A bucket is named by its level.  Each lock section works on one bucket at one instant; the
    calls are sequences of sections over the levels that apply, global first, then client, then
    device.
 */
module RateLimits {
  import opened Common
  import opened TokenBuckets

  datatype Key = Global | Client(id: string) | Device(handle: u32)

  datatype Limits = Limits(global: Option<BandwidthLimit>, client: Option<BandwidthLimit>,
                           device: Option<BandwidthLimit>) {
    function Of(k: Key): Option<BandwidthLimit> {
      match k
      case Global => global
      case Client(_) => client
      case Device(_) => device
    }
  }

  type Buckets = map<Key, Bucket>

  /** The levels that a call for this client and device goes through. */
  function Applicable(limits: Limits, client: Option<string>, device: Option<u32>): seq<Key> {
    (if limits.global.Some? then [Global] else [])
    + (if client.Some? && limits.client.Some? then [Client(client.value)] else [])
    + (if device.Some? && limits.device.Some? then [Device(device.value)] else [])
  }

  ghost predicate LegalKeys(limits: Limits, keys: seq<Key>) {
    && (forall i :: 0 <= i < |keys| ==> limits.Of(keys[i]).Some?)
    && (forall i, j :: 0 <= i < j < |keys| ==> keys[i] != keys[j])
  }

  lemma ApplicableLegal(limits: Limits, client: Option<string>, device: Option<u32>)
    ensures LegalKeys(limits, Applicable(limits, client, device))
  {
  }

  function LegalApplicable(limits: Limits, client: Option<string>, device: Option<u32>): (keys: seq<Key>)
    ensures LegalKeys(limits, keys)
  {
    ApplicableLegal(limits, client, device);
    Applicable(limits, client, device)
  }

  /** entry(key).or_insert_with(new bucket) */
  function Entry(limits: Limits, bs: Buckets, k: Key, now: real): Bucket
    requires limits.Of(k).Some?
  {
    if k in bs then bs[k] else NewBucket(limits.Of(k).value, now)
  }

  // ---------- Lock sections ----------

  predicate CanTake(limits: Limits, bs: Buckets, k: Key, bytes: u64, now: real)
    requires limits.Of(k).Some?
  {
    CanConsume(Entry(limits, bs, k, now), bytes, now)
  }

  function Take(limits: Limits, bs: Buckets, k: Key, bytes: u64, now: real): Buckets
    requires limits.Of(k).Some?
  {
    bs[k := Consumed(Entry(limits, bs, k, now), bytes, now)]
  }

  /** A refund finds no bucket when the client has been removed meanwhile. */
  function GiveBack(bs: Buckets, k: Key, bytes: u64, now: real): Buckets {
    if k in bs then bs[k := Refunded(bs[k], bytes, now)] else bs
  }

  function Look(limits: Limits, bs: Buckets, k: Key, now: real): Buckets
    requires limits.Of(k).Some?
  {
    bs[k := Refill(Entry(limits, bs, k, now), now)]
  }

  function Log(limits: Limits, bs: Buckets, k: Key, bytes: u64, now: real): Buckets
    requires limits.Of(k).Some?
  {
    bs[k := Recorded(Entry(limits, bs, k, now), bytes, now)]
  }

  /** Every bucket agrees with its configured limit and was last refilled at or before `now`. */
  ghost predicate ValidBuckets(limits: Limits, bs: Buckets, now: real) {
    forall k :: k in bs ==> Fits(limits, bs[k], k, now)
  }

  /** b is a legal bucket for level k. */
  ghost predicate Fits(limits: Limits, b: Bucket, k: Key, now: real) {
    && limits.Of(k).Some?
    && b.Valid() && b.lastRefill <= now
    && b.maxTokens == limits.Of(k).value.burstBytes as real
    && b.refillRate == limits.Of(k).value.bytesPerSecond as real
  }

  lemma SectionFits(limits: Limits, b: Bucket, k: Key, bytes: u64, now: real)
    requires Fits(limits, b, k, now)
    ensures Fits(limits, Refill(b, now), k, now) && Fits(limits, Consumed(b, bytes, now), k, now)
    ensures Fits(limits, Refunded(b, bytes, now), k, now) && Fits(limits, Recorded(b, bytes, now), k, now)
  {
    RefillValid(b, now);
  }

  lemma SectionsValid(limits: Limits, bs: Buckets, k: Key, bytes: u64, now: real)
    requires ValidBuckets(limits, bs, now) && limits.Of(k).Some?
    ensures ValidBuckets(limits, Take(limits, bs, k, bytes, now), now)
    ensures ValidBuckets(limits, GiveBack(bs, k, bytes, now), now)
    ensures ValidBuckets(limits, Look(limits, bs, k, now), now)
    ensures ValidBuckets(limits, Log(limits, bs, k, bytes, now), now)
  {
    SectionFits(limits, Entry(limits, bs, k, now), k, bytes, now);
  }

  // ---------- The system of concurrent calls ----------

  datatype Phase = Taking | Refunding | Granted | Denied

  /** A try_acquire call: keys[..taken] have been charged, keys[..refunded] given back. */
  datatype Acquire = Acquire(keys: seq<Key>, bytes: u64, taken: nat, refunded: nat, phase: Phase)

  /** `born` is when a bucket first came into being, `removals` how often it was removed since. */
  datatype System = System(
    limits: Limits,
    buckets: Buckets,
    acquires: seq<Acquire>,
    clock: real,
    born: map<Key, real>,
    removals: map<Key, nat>)

  datatype Section =
    | Begin(client: Option<string>, device: Option<u32>, bytes: u64)
    | TakeNext(call: nat, now: real)
    | RefundNext(call: nat, now: real)
    | CheckOne(key: Key, now: real)
    | RecordOne(key: Key, bytes: u64, now: real)
    | Remove(key: Key, now: real)

  predicate Enabled(sys: System, s: Section) {
    match s
    case Begin(_, _, _) => true
    case TakeNext(c, now) =>
      && sys.clock <= now && c < |sys.acquires| && sys.acquires[c].phase.Taking?
      && sys.acquires[c].taken < |sys.acquires[c].keys|
      && sys.limits.Of(sys.acquires[c].keys[sys.acquires[c].taken]).Some?
    case RefundNext(c, now) =>
      && sys.clock <= now && c < |sys.acquires| && sys.acquires[c].phase.Refunding?
      && sys.acquires[c].refunded < sys.acquires[c].taken < |sys.acquires[c].keys|
    case CheckOne(k, now) => sys.clock <= now && sys.limits.Of(k).Some?
    case RecordOne(k, _, now) => sys.clock <= now && sys.limits.Of(k).Some?
    case Remove(k, now) => sys.clock <= now && !k.Global?
  }

  /** Notes the birth of a bucket that a section creates. */
  function Note(sys: System, k: Key, bs: Buckets, now: real): System {
    sys.(buckets := bs, clock := now,
         born := if k in sys.born then sys.born else sys.born[k := now],
         removals := if k in sys.born then sys.removals else sys.removals[k := 0])
  }

  function AfterTake(a: Acquire, ok: bool): Acquire {
    if ok then a.(taken := a.taken + 1, phase := if a.taken + 1 == |a.keys| then Granted else Taking)
    else a.(phase := if a.taken == 0 then Denied else Refunding)
  }

  function AfterRefund(a: Acquire): Acquire {
    a.(refunded := a.refunded + 1, phase := if a.refunded + 1 == a.taken then Denied else Refunding)
  }

  function Next(sys: System, s: Section): System
    requires Enabled(sys, s)
  {
    match s
    case Begin(client, device, bytes) =>
      var keys := Applicable(sys.limits, client, device);
      sys.(acquires := sys.acquires + [Acquire(keys, bytes, 0, 0, if keys == [] then Granted else Taking)])
    case TakeNext(c, now) =>
      var a := sys.acquires[c];
      var k := a.keys[a.taken];
      Note(sys, k, Take(sys.limits, sys.buckets, k, a.bytes, now), now)
        .(acquires := sys.acquires[c := AfterTake(a, CanTake(sys.limits, sys.buckets, k, a.bytes, now))])
    case RefundNext(c, now) =>
      var a := sys.acquires[c];
      sys.(buckets := GiveBack(sys.buckets, a.keys[a.refunded], a.bytes, now), clock := now,
           acquires := sys.acquires[c := AfterRefund(a)])
    case CheckOne(k, now) => Note(sys, k, Look(sys.limits, sys.buckets, k, now), now)
    case RecordOne(k, bytes, now) => Note(sys, k, Log(sys.limits, sys.buckets, k, bytes, now), now)
    case Remove(k, now) =>
      if k in sys.buckets then
        var before := if k in sys.removals then sys.removals[k] else 0;
        sys.(buckets := sys.buckets - {k}, clock := now, removals := sys.removals[k := before + 1])
      else sys.(clock := now)
  }

  /** RateLimiter::new creates the global bucket. */
  function Initial(limits: Limits, now: real): System {
    if limits.global.Some? then
      System(limits, map[Global := NewBucket(limits.global.value, now)], [], now, map[Global := now], map[Global := 0])
    else System(limits, map[], [], now, map[], map[])
  }

  ghost predicate Runnable(sys: System, sections: seq<Section>)
    decreases |sections|
  {
    sections == [] || (Enabled(sys, sections[0]) && Runnable(Next(sys, sections[0]), sections[1..]))
  }

  ghost function Run(sys: System, sections: seq<Section>): System
    requires Runnable(sys, sections)
    decreases |sections|
  {
    if sections == [] then sys else Run(Next(sys, sections[0]), sections[1..])
  }
}
