/** The throughput bound of the rate limiter, under any interleaving of concurrent calls. */
module Throughput {
  import opened Common
  import opened TokenBuckets
  import opened RateLimits

  /** Bytes this call has charged to k and not given back. */
  function Charge(a: Acquire, k: Key): nat
    requires a.refunded <= a.taken <= |a.keys|
  {
    if k in a.keys[a.refunded..a.taken] then a.bytes else 0
  }

  ghost predicate Consistent(a: Acquire) {
    && a.refunded <= a.taken <= |a.keys|
    && (forall i, j :: 0 <= i < j < |a.keys| ==> a.keys[i] != a.keys[j])
    && (a.phase.Taking? ==> a.refunded == 0 && a.taken < |a.keys|)
    && (a.phase.Refunding? ==> a.refunded < a.taken < |a.keys|)
    && (a.phase.Granted? ==> a.refunded == 0 && a.taken == |a.keys|)
    && (a.phase.Denied? ==> a.refunded == a.taken)
  }

  ghost predicate AllConsistent(acquires: seq<Acquire>) {
    forall i :: 0 <= i < |acquires| ==> Consistent(acquires[i])
  }

  /** Bytes charged to k by all calls. */
  ghost function Charged(acquires: seq<Acquire>, k: Key): nat
    requires AllConsistent(acquires)
  {
    if acquires == [] then 0
    else Charged(acquires[..|acquires| - 1], k) + Charge(acquires[|acquires| - 1], k)
  }

  /** Bytes granted at level k by finished calls. */
  ghost function GrantedBytes(acquires: seq<Acquire>, k: Key): nat {
    if acquires == [] then 0
    else
      var a := acquires[|acquires| - 1];
      GrantedBytes(acquires[..|acquires| - 1], k) + (if a.phase.Granted? && k in a.keys then a.bytes else 0)
  }

  /** Bytes held at level k by unfinished calls. */
  ghost function HeldBytes(acquires: seq<Acquire>, k: Key): nat
    requires AllConsistent(acquires)
  {
    if acquires == [] then 0
    else
      var a := acquires[|acquires| - 1];
      HeldBytes(acquires[..|acquires| - 1], k) + (if a.phase.Taking? || a.phase.Refunding? then Charge(a, k) else 0)
  }

  lemma {:induction false} ChargedIsGrantedAndHeld(acquires: seq<Acquire>, k: Key)
    requires AllConsistent(acquires)
    ensures Charged(acquires, k) == GrantedBytes(acquires, k) + HeldBytes(acquires, k)
  {
    if acquires != [] {
      var a := acquires[|acquires| - 1];
      ChargedIsGrantedAndHeld(acquires[..|acquires| - 1], k);
      assert a.phase.Granted? ==> a.keys[a.refunded..a.taken] == a.keys;
      assert a.phase.Denied? ==> a.keys[a.refunded..a.taken] == [];
    }
  }

  lemma {:induction false} ChargedAfterUpdate(acquires: seq<Acquire>, c: nat, a: Acquire, k: Key)
    requires AllConsistent(acquires) && c < |acquires| && Consistent(a)
    ensures AllConsistent(acquires[c := a])
    ensures Charged(acquires[c := a], k) == Charged(acquires, k) - Charge(acquires[c], k) + Charge(a, k)
    decreases |acquires|
  {
    var n := |acquires| - 1;
    if c == n {
      assert acquires[c := a][..n] == acquires[..n];
    } else {
      ChargedAfterUpdate(acquires[..n], c, a, k);
      assert acquires[c := a][..n] == acquires[..n][c := a];
    }
  }

  /** What a level with this limit may have let through `elapsed` seconds after its first bucket
      came into being, if its bucket was replaced by a full one `removals` times. */
  function Allowance(limit: BandwidthLimit, removals: nat, elapsed: real): real {
    limit.burstBytes as real * (1 + removals) as real + Gain(limit.bytesPerSecond as real, elapsed)
  }

  /** The books of level k. */
  ghost predicate Balanced(sys: System, k: Key)
    requires AllConsistent(sys.acquires)
  {
    if k in sys.born && k in sys.removals && sys.limits.Of(k).Some? then
      && sys.born[k] <= sys.clock
      && (if k in sys.buckets then
            && sys.born[k] <= sys.buckets[k].lastRefill
            && Charged(sys.acquires, k) as real + sys.buckets[k].tokens
               <= Allowance(sys.limits.Of(k).value, sys.removals[k], sys.buckets[k].lastRefill - sys.born[k])
          else
            && sys.removals[k] >= 1
            && Charged(sys.acquires, k) as real
               <= Allowance(sys.limits.Of(k).value, sys.removals[k] - 1, sys.clock - sys.born[k]))
    else
      k !in sys.born && k !in sys.removals && k !in sys.buckets && Charged(sys.acquires, k) == 0
  }

  ghost predicate Sound(sys: System) {
    && AllConsistent(sys.acquires)
    && ValidBuckets(sys.limits, sys.buckets, sys.clock)
    && forall k :: Balanced(sys, k)
  }

  // ---------- One section ----------

  lemma AllowanceGrows(limit: BandwidthLimit, removals: nat, elapsed: real, more: real)
    requires more >= 0.0
    ensures Allowance(limit, removals, elapsed) + Gain(limit.bytesPerSecond as real, more)
            == Allowance(limit, removals, elapsed + more)
    ensures Allowance(limit, removals, elapsed) <= Allowance(limit, removals, elapsed + more)
  {
    Distribute(limit.bytesPerSecond as real, elapsed, more);
    GainNonNegative(limit.bytesPerSecond as real, more);
  }

  /** Refilling keeps a balanced bucket balanced. */
  lemma RefillBalanced(limits: Limits, b: Bucket, k: Key, charged: real, removals: nat, born: real, now: real)
    requires Fits(limits, b, k, now)
    requires charged + b.tokens <= Allowance(limits.Of(k).value, removals, b.lastRefill - born)
    ensures charged + Refill(b, now).tokens <= Allowance(limits.Of(k).value, removals, now - born)
    ensures Refill(b, now).lastRefill == now
  {
    AllowanceGrows(limits.Of(k).value, removals, b.lastRefill - born, now - b.lastRefill);
    assert b.lastRefill - born + (now - b.lastRefill) == now - born;
  }

  /** A bucket created now after a removal is covered by one more burst. */
  lemma RecreatedBalanced(sys: System, k: Key, now: real)
    requires AllConsistent(sys.acquires) && sys.clock <= now && sys.limits.Of(k).Some?
    requires Balanced(sys, k) && k in sys.born && k !in sys.buckets
    ensures k in sys.removals
    ensures Charged(sys.acquires, k) as real + sys.limits.Of(k).value.burstBytes as real
            <= Allowance(sys.limits.Of(k).value, sys.removals[k], now - sys.born[k])
  {
    AllowanceGrows(sys.limits.Of(k).value, sys.removals[k] - 1, sys.clock - sys.born[k], now - sys.clock);
    assert sys.clock - sys.born[k] + (now - sys.clock) == now - sys.born[k];
    AnotherBurst(sys.limits.Of(k).value, sys.removals[k] - 1, now - sys.born[k]);
  }

  lemma AnotherBurst(limit: BandwidthLimit, removals: nat, elapsed: real)
    ensures Allowance(limit, removals, elapsed) + limit.burstBytes as real == Allowance(limit, removals + 1, elapsed)
  {
  }

  /** The entry of level k is balanced, whether it exists, is created, or is created anew. */
  lemma EntryBalanced(sys: System, k: Key, now: real)
    requires AllConsistent(sys.acquires) && ValidBuckets(sys.limits, sys.buckets, sys.clock)
    requires Balanced(sys, k) && sys.limits.Of(k).Some? && sys.clock <= now
    ensures var noted := Note(sys, k, Look(sys.limits, sys.buckets, k, now), now);
            var b := Entry(sys.limits, sys.buckets, k, now);
            && noted.born[k] <= now && Fits(sys.limits, b, k, now)
            && Charged(sys.acquires, k) as real + Refill(b, now).tokens
               <= Allowance(sys.limits.Of(k).value, noted.removals[k], now - noted.born[k])
  {
    if k in sys.buckets {
      RefillBalanced(sys.limits, sys.buckets[k], k, Charged(sys.acquires, k) as real, sys.removals[k], sys.born[k],
                     now);
    } else if k in sys.born {
      RecreatedBalanced(sys, k, now);
    }
  }

  /** The passing of time alone. */
  lemma OtherLevelBalanced(sys: System, sys': System, k: Key)
    requires AllConsistent(sys.acquires) && Balanced(sys, k)
    requires sys'.limits == sys.limits && sys.clock <= sys'.clock && AllConsistent(sys'.acquires)
    requires Charged(sys'.acquires, k) == Charged(sys.acquires, k)
    requires k in sys'.buckets <==> k in sys.buckets
    requires k in sys.buckets ==> sys'.buckets[k] == sys.buckets[k]
    requires k in sys'.born <==> k in sys.born
    requires k in sys.born ==> sys'.born[k] == sys.born[k]
    requires k in sys'.removals <==> k in sys.removals
    requires k in sys.removals ==> sys'.removals[k] == sys.removals[k]
    ensures Balanced(sys', k)
  {
    if k in sys.born && k in sys.removals && sys.limits.Of(k).Some? && k !in sys.buckets {
      AllowanceGrows(sys.limits.Of(k).value, sys.removals[k] - 1, sys.clock - sys.born[k], sys'.clock - sys.clock);
      assert sys.clock - sys.born[k] + (sys'.clock - sys.clock) == sys'.clock - sys.born[k];
    }
  }

  lemma ChargeAfterTake(a: Acquire, ok: bool, k: Key)
    requires Consistent(a) && a.phase.Taking?
    ensures Consistent(AfterTake(a, ok))
    ensures Charge(AfterTake(a, ok), k) == Charge(a, k) + (if ok && k == a.keys[a.taken] then a.bytes else 0)
  {
    assert a.keys[..a.taken + 1] == a.keys[..a.taken] + [a.keys[a.taken]];
  }

  lemma ChargeAfterRefund(a: Acquire, k: Key)
    requires Consistent(a) && a.phase.Refunding?
    ensures Consistent(AfterRefund(a))
    ensures Charge(AfterRefund(a), k) == Charge(a, k) - (if k == a.keys[a.refunded] then a.bytes else 0)
  {
    assert a.keys[a.refunded..a.taken] == [a.keys[a.refunded]] + a.keys[a.refunded + 1..a.taken];
  }

  lemma TakeLevelBalanced(sys: System, c: nat, now: real)
    requires Sound(sys) && Enabled(sys, TakeNext(c, now))
    ensures var sys', a := Next(sys, TakeNext(c, now)), sys.acquires[c];
            AllConsistent(sys'.acquires) && Balanced(sys', a.keys[a.taken])
  {
    var a := sys.acquires[c];
    var k := a.keys[a.taken];
    var ok := CanTake(sys.limits, sys.buckets, k, a.bytes, now);
    ChargeAfterTake(a, ok, k);
    ChargedAfterUpdate(sys.acquires, c, AfterTake(a, ok), k);
    EntryBalanced(sys, k, now);
    RefillValid(Entry(sys.limits, sys.buckets, k, now), now);
  }

  lemma TakeSound(sys: System, c: nat, now: real)
    requires Sound(sys) && Enabled(sys, TakeNext(c, now))
    ensures Sound(Next(sys, TakeNext(c, now)))
  {
    var a, sys' := sys.acquires[c], Next(sys, TakeNext(c, now));
    var key := a.keys[a.taken];
    var ok := CanTake(sys.limits, sys.buckets, key, a.bytes, now);
    TakeLevelBalanced(sys, c, now);
    forall k | k != key
      ensures Balanced(sys', k)
    {
      ChargeAfterTake(a, ok, k);
      ChargedAfterUpdate(sys.acquires, c, AfterTake(a, ok), k);
      OtherLevelBalanced(sys, sys', k);
    }
    SectionsValid(sys.limits, sys.buckets, key, a.bytes, now);
  }

  lemma RefundLevelBalanced(sys: System, c: nat, now: real)
    requires Sound(sys) && Enabled(sys, RefundNext(c, now))
    ensures var sys', a := Next(sys, RefundNext(c, now)), sys.acquires[c];
            AllConsistent(sys'.acquires) && Balanced(sys', a.keys[a.refunded])
  {
    var a, sys' := sys.acquires[c], Next(sys, RefundNext(c, now));
    var k := a.keys[a.refunded];
    ChargeAfterRefund(a, k);
    ChargedAfterUpdate(sys.acquires, c, AfterRefund(a), k);
    if k in sys.buckets {
      EntryBalanced(sys, k, now);
      RefillValid(sys.buckets[k], now);
    } else {
      OtherLevelLighter(sys, sys', k);
    }
  }

  lemma RefundSound(sys: System, c: nat, now: real)
    requires Sound(sys) && Enabled(sys, RefundNext(c, now))
    ensures Sound(Next(sys, RefundNext(c, now)))
  {
    var a, sys' := sys.acquires[c], Next(sys, RefundNext(c, now));
    var key := a.keys[a.refunded];
    RefundLevelBalanced(sys, c, now);
    forall k | k != key
      ensures Balanced(sys', k)
    {
      ChargeAfterRefund(a, k);
      ChargedAfterUpdate(sys.acquires, c, AfterRefund(a), k);
      OtherLevelBalanced(sys, sys', k);
    }
    if key in sys.buckets {
      SectionsValid(sys.limits, sys.buckets, key, a.bytes, now);
    }
  }

  /** A level without a bucket stays balanced when charges are given back. */
  lemma OtherLevelLighter(sys: System, sys': System, k: Key)
    requires AllConsistent(sys.acquires) && Balanced(sys, k) && k !in sys.buckets && k !in sys'.buckets
    requires sys'.limits == sys.limits && sys.clock <= sys'.clock && AllConsistent(sys'.acquires)
    requires Charged(sys'.acquires, k) <= Charged(sys.acquires, k)
    requires sys'.born == sys.born && sys'.removals == sys.removals
    ensures Balanced(sys', k)
  {
    if k in sys.born && k in sys.removals && sys.limits.Of(k).Some? {
      AllowanceGrows(sys.limits.Of(k).value, sys.removals[k] - 1, sys.clock - sys.born[k], sys'.clock - sys.clock);
      assert sys.clock - sys.born[k] + (sys'.clock - sys.clock) == sys'.clock - sys.born[k];
    }
  }

  lemma CheckSound(sys: System, key: Key, now: real)
    requires Sound(sys) && Enabled(sys, CheckOne(key, now))
    ensures Sound(Next(sys, CheckOne(key, now)))
  {
    var sys' := Next(sys, CheckOne(key, now));
    forall k
      ensures Balanced(sys', k)
    {
      if k == key {
        EntryBalanced(sys, k, now);
        RefillValid(Entry(sys.limits, sys.buckets, k, now), now);
      } else {
        OtherLevelBalanced(sys, sys', k);
      }
    }
    SectionsValid(sys.limits, sys.buckets, key, 0, now);
  }

  lemma RecordSound(sys: System, key: Key, bytes: u64, now: real)
    requires Sound(sys) && Enabled(sys, RecordOne(key, bytes, now))
    ensures Sound(Next(sys, RecordOne(key, bytes, now)))
  {
    var sys' := Next(sys, RecordOne(key, bytes, now));
    forall k
      ensures Balanced(sys', k)
    {
      if k == key {
        EntryBalanced(sys, k, now);
        RefillValid(Entry(sys.limits, sys.buckets, k, now), now);
      } else {
        OtherLevelBalanced(sys, sys', k);
      }
    }
    SectionsValid(sys.limits, sys.buckets, key, bytes, now);
  }

  lemma RemoveSound(sys: System, key: Key, now: real)
    requires Sound(sys) && Enabled(sys, Remove(key, now))
    ensures Sound(Next(sys, Remove(key, now)))
  {
    var sys' := Next(sys, Remove(key, now));
    forall k
      ensures Balanced(sys', k)
    {
      if k == key && k in sys.buckets {
        EntryBalanced(sys, k, now);
        RefillValid(sys.buckets[k], now);
      } else {
        OtherLevelBalanced(sys, sys', k);
      }
    }
  }

  lemma {:induction false} ChargedAfterBegin(acquires: seq<Acquire>, a: Acquire, k: Key)
    requires AllConsistent(acquires) && Consistent(a) && a.taken == 0
    ensures AllConsistent(acquires + [a]) && Charged(acquires + [a], k) == Charged(acquires, k)
  {
    assert (acquires + [a])[..|acquires|] == acquires;
  }

  lemma BeginSound(sys: System, client: Option<string>, device: Option<u32>, bytes: u64)
    requires Sound(sys)
    ensures Sound(Next(sys, Begin(client, device, bytes)))
  {
    var sys' := Next(sys, Begin(client, device, bytes));
    var a := sys'.acquires[|sys.acquires|];
    ApplicableLegal(sys.limits, client, device);
    forall k
      ensures AllConsistent(sys'.acquires) && Balanced(sys', k)
    {
      ChargedAfterBegin(sys.acquires, a, k);
      OtherLevelBalanced(sys, sys', k);
    }
  }

  lemma NextSound(sys: System, s: Section)
    requires Sound(sys) && Enabled(sys, s)
    ensures Sound(Next(sys, s))
  {
    match s
    case Begin(client, device, bytes) => BeginSound(sys, client, device, bytes);
    case TakeNext(c, now) => TakeSound(sys, c, now);
    case RefundNext(c, now) => RefundSound(sys, c, now);
    case CheckOne(k, now) => CheckSound(sys, k, now);
    case RecordOne(k, bytes, now) => RecordSound(sys, k, bytes, now);
    case Remove(k, now) => RemoveSound(sys, k, now);
  }

  lemma {:induction false} RunSound(sys: System, sections: seq<Section>)
    requires Sound(sys) && Runnable(sys, sections)
    ensures Sound(Run(sys, sections))
    decreases |sections|
  {
    if sections != [] {
      NextSound(sys, sections[0]);
      RunSound(Next(sys, sections[0]), sections[1..]);
    }
  }

  // ---------- The bound ----------

  /** Level k has a bucket filled between 0 and its burst; what was granted, what unfinished calls
      hold and the tokens left stay within the allowance, one more burst for every removal. */
  ghost predicate WithinAllowance(sys: System, k: Key) {
    && AllConsistent(sys.acquires)
    && k in sys.buckets && k in sys.born && k in sys.removals && sys.limits.Of(k).Some?
    && 0.0 <= sys.buckets[k].tokens <= sys.limits.Of(k).value.burstBytes as real
    && GrantedBytes(sys.acquires, k) as real + HeldBytes(sys.acquires, k) as real + sys.buckets[k].tokens
       <= Allowance(sys.limits.Of(k).value, sys.removals[k], sys.clock - sys.born[k])
  }

  lemma InitialSound(limits: Limits, start: real)
    ensures Sound(Initial(limits, start))
  {
  }

  /** On every run, every bucket stays within its allowance. */
  lemma ThroughputBound(limits: Limits, start: real, sections: seq<Section>, k: Key)
    requires Runnable(Initial(limits, start), sections)
    requires k in Run(Initial(limits, start), sections).buckets
    ensures Run(Initial(limits, start), sections).limits == limits
    ensures WithinAllowance(Run(Initial(limits, start), sections), k)
  {
    var sys := Initial(limits, start);
    InitialSound(limits, start);
    RunSound(sys, sections);
    RunKeepsLimits(sys, sections);
    SoundBound(Run(sys, sections), k);
  }

  lemma {:induction false} RunKeepsLimits(sys: System, sections: seq<Section>)
    requires Runnable(sys, sections)
    ensures Run(sys, sections).limits == sys.limits
    decreases |sections|
  {
    if sections != [] {
      RunKeepsLimits(Next(sys, sections[0]), sections[1..]);
    }
  }

  lemma SoundBound(sys: System, k: Key)
    requires Sound(sys) && k in sys.buckets
    ensures WithinAllowance(sys, k)
  {
    assert Balanced(sys, k);
    ChargedIsGrantedAndHeld(sys.acquires, k);
    AllowanceGrows(sys.limits.Of(k).value, sys.removals[k], sys.buckets[k].lastRefill - sys.born[k],
                   sys.clock - sys.buckets[k].lastRefill);
    assert sys.buckets[k].lastRefill - sys.born[k] + (sys.clock - sys.buckets[k].lastRefill) == sys.clock - sys.born[k];
  }

  /** For a bucket that was never removed: burst plus rate times its age. */
  lemma ThroughputWithoutRemoval(limits: Limits, start: real, sections: seq<Section>, k: Key)
    requires Runnable(Initial(limits, start), sections)
    requires var sys := Run(Initial(limits, start), sections);
             k in sys.buckets && k in sys.removals && sys.removals[k] == 0
    ensures var sys := Run(Initial(limits, start), sections);
            && sys.limits.Of(k).Some? && k in sys.born
            && GrantedBytes(sys.acquires, k) as real
               <= sys.limits.Of(k).value.burstBytes as real
                  + Gain(sys.limits.Of(k).value.bytesPerSecond as real, sys.clock - sys.born[k])
  {
    ThroughputBound(limits, start, sections, k);
    WithoutRemoval(Run(Initial(limits, start), sections), k);
  }

  lemma WithoutRemoval(sys: System, k: Key)
    requires WithinAllowance(sys, k) && sys.removals[k] == 0
    ensures GrantedBytes(sys.acquires, k) as real
            <= sys.limits.Of(k).value.burstBytes as real
               + Gain(sys.limits.Of(k).value.bytesPerSecond as real, sys.clock - sys.born[k])
  {
  }

  lemma SectionThenRun(sys: System, s: Section, rest: seq<Section>)
    requires Enabled(sys, s) && Runnable(Next(sys, s), rest)
    ensures Runnable(sys, [s] + rest) && Run(sys, [s] + rest) == Run(Next(sys, s), rest)
  {
    assert ([s] + rest)[1..] == rest;
  }

  /** A call that acquires a whole burst at once. */
  function AcquireBurst(limit: BandwidthLimit, id: string, call: nat, now: real): seq<Section> {
    [Begin(Some(id), None, limit.burstBytes), TakeNext(call, now)]
  }

  lemma FreshBucketGrantsBurst(sys: System, limit: BandwidthLimit, id: string, now: real)
    requires sys.limits == Limits(None, Some(limit), None) && sys.clock <= now && Client(id) !in sys.buckets
    ensures var sections := AcquireBurst(limit, id, |sys.acquires|, now);
            && Runnable(sys, sections)
            && var sys' := Run(sys, sections);
               && GrantedBytes(sys'.acquires, Client(id)) == GrantedBytes(sys.acquires, Client(id)) + limit.burstBytes
               && |sys'.acquires| == |sys.acquires| + 1 && Client(id) in sys'.buckets && Client(id) in sys'.born
               && sys'.limits == sys.limits && sys'.clock == now
               && (Client(id) in sys.born ==> sys'.removals == sys.removals)
               && (Client(id) !in sys.born ==> sys'.removals == sys.removals[Client(id) := 0])
  {
    var k, n := Client(id), |sys.acquires|;
    var begin := Begin(Some(id), None, limit.burstBytes);
    var done := Acquire([k], limit.burstBytes, 1, 0, Granted);
    assert Applicable(sys.limits, Some(id), None) == [k];
    var mid := Next(sys, begin);
    var last := Next(mid, TakeNext(n, now));
    assert last.acquires == sys.acquires + [done] && (sys.acquires + [done])[..n] == sys.acquires;
    SectionThenRun(mid, TakeNext(n, now), []);
    SectionThenRun(sys, begin, [TakeNext(n, now)]);
  }

  lemma {:induction false} RunThenRun(sys: System, a: seq<Section>, b: seq<Section>)
    requires Runnable(sys, a) && Runnable(Run(sys, a), b)
    ensures Runnable(sys, a + b) && Run(sys, a + b) == Run(Run(sys, a), b)
    decreases |a|
  {
    if a == [] {
      assert a + b == b;
    } else {
      assert (a + b)[1..] == a[1..] + b;
      RunThenRun(Next(sys, a[0]), a[1..], b);
    }
  }

  /** The extra burst per removal is really attained: acquire, remove, acquire, all at one instant.
      So the plain bound fails after a removal. */
  lemma RemovalGrantsAnotherBurst(limit: BandwidthLimit, id: string, now: real) returns (sections: seq<Section>)
    ensures var sys0, k := Initial(Limits(None, Some(limit), None), now), Client(id);
            && Runnable(sys0, sections) && Run(sys0, sections).clock == now
            && k in Run(sys0, sections).removals && Run(sys0, sections).removals[k] == 1
            && GrantedBytes(Run(sys0, sections).acquires, k) == 2 * limit.burstBytes
  {
    var sys0, k := Initial(Limits(None, Some(limit), None), now), Client(id);
    var first, second := AcquireBurst(limit, id, 0, now), AcquireBurst(limit, id, 1, now);
    FreshBucketGrantsBurst(sys0, limit, id, now);
    var sys1 := Run(sys0, first);
    var sys2 := Next(sys1, Remove(k, now));
    FreshBucketGrantsBurst(sys2, limit, id, now);
    SectionThenRun(sys1, Remove(k, now), second);
    sections := first + ([Remove(k, now)] + second);
    RunThenRun(sys0, first, [Remove(k, now)] + second);
  }
}
