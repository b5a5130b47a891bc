/** The rate limiter in place: bucket objects, created on first use, updated by every call. */
module RateLimiters {
  import opened Common
  import opened TokenBuckets
  import opened RateLimits
  import opened SingleCalls
  import opened CheckCalls
  import opened CallLevels

  class RateLimiter {
    const limits: Limits
    /** The global bucket, the client map and the device map, keyed by level. */
    var buckets: map<Key, TokenBucket>

    ghost predicate Valid()
      reads this
    {
      && (limits.global.Some? ==> Global in buckets)
      && (forall k :: k in buckets ==> limits.Of(k).Some?)
      && (forall k1, k2 :: k1 in buckets && k2 in buckets && buckets[k1] == buckets[k2] ==> k1 == k2)
    }

    ghost function View(): Buckets
      reads this, buckets.Values
    {
      map k | k in buckets :: buckets[k].Value()
    }

    constructor (limits: Limits, now: real)
      ensures Valid() && this.limits == limits && View() == Initial(limits, now).buckets
      ensures fresh(buckets.Values)
    {
      this.limits := limits;
      if limits.global.Some? {
        var bucket := new TokenBucket(limits.global.value, now);
        buckets := map[Global := bucket];
      } else {
        buckets := map[];
      }
    }

    /** entry(key).or_insert_with(new bucket) */
    method BucketFor(k: Key, now: real) returns (bucket: TokenBucket)
      requires Valid() && limits.Of(k).Some?
      modifies this
      ensures Valid() && k in buckets && buckets[k] == bucket
      ensures bucket.Value() == Entry(limits, old(View()), k, now)
      ensures fresh(buckets.Values - old(buckets.Values))
      ensures View() == old(View())[k := bucket.Value()]
    {
      if k in buckets {
        bucket := buckets[k];
      } else {
        bucket := new TokenBucket(limits.Of(k).value, now);
        buckets := buckets[k := bucket];
      }
    }

    /** Locks one level and tries to consume from its bucket. */
    method TakeLevel(k: Key, bytes: u64, now: real) returns (ok: bool)
      requires Valid() && limits.Of(k).Some?
      modifies this, buckets.Values
      ensures Valid() && fresh(buckets.Values - old(buckets.Values))
      ensures View() == Take(limits, old(View()), k, bytes, now)
      ensures ok == CanTake(limits, old(View()), k, bytes, now)
    {
      var bucket := BucketFor(k, now);
      ok := bucket.TryConsume(bytes, now);
    }

    method RefundLevel(k: Key, bytes: u64, now: real)
      requires Valid()
      modifies buckets.Values
      ensures Valid() && View() == GiveBack(old(View()), k, bytes, now)
    {
      if k in buckets {
        buckets[k].Refund(bytes, now);
      }
    }

    method LookLevel(k: Key, bytes: u64, now: real) returns (wait: Option<int>)
      requires Valid() && limits.Of(k).Some?
      modifies this, buckets.Values
      ensures Valid() && fresh(buckets.Values - old(buckets.Values))
      ensures View() == Look(limits, old(View()), k, now)
      ensures wait == WaitNanos(Entry(limits, old(View()), k, now), bytes, now)
    {
      var bucket := BucketFor(k, now);
      wait := bucket.ComputeWait(bytes, now);
    }

    method RecordLevel(k: Key, bytes: u64, now: real)
      requires Valid() && limits.Of(k).Some?
      modifies this, buckets.Values
      ensures Valid() && fresh(buckets.Values - old(buckets.Values))
      ensures View() == Log(limits, old(View()), k, bytes, now)
    {
      var bucket := BucketFor(k, now);
      bucket.RecordTransfer(bytes, now);
    }

    method RemoveLevel(k: Key)
      requires Valid() && !k.Global?
      modifies this
      ensures Valid() && buckets.Values <= old(buckets.Values)
      ensures View() == old(View()) - {k}
    {
      buckets := buckets - {k};
    }

    /** record; no other call runs in between. */
    method RecordBytes(client: Option<string>, device: Option<u32>, bytes: u64, at: Readings)
      requires Valid()
      modifies this, buckets.Values
      ensures Valid() && fresh(buckets.Values - old(buckets.Values))
      ensures View() == RecordCall(limits, old(View()), client, device, bytes, at)
    {
      if limits.global.Some? {
        LogStep(limits, View(), LegalApplicable(limits, client, device), 0, bytes, at);
        RecordLevel(Global, bytes, at(Global));
      }
      RecordUpperLevels(client, device, bytes, at);
    }

    /** The client and the device level. */
    method RecordUpperLevels(client: Option<string>, device: Option<u32>, bytes: u64, at: Readings)
      requires Valid()
      modifies this, buckets.Values
      ensures Valid() && fresh(buckets.Values - old(buckets.Values))
      ensures View() == LogFrom(limits, old(View()), LegalApplicable(limits, client, device),
                                if limits.global.Some? then 1 else 0, bytes, at)
    {
      ghost var keys := LegalApplicable(limits, client, device);
      ghost var i := if limits.global.Some? then 1 else 0;
      if client.Some? && limits.client.Some? {
        LogStep(limits, View(), keys, i, bytes, at);
        RecordLevel(Client(client.value), bytes, at(Client(client.value)));
        i := i + 1;
      }
      if device.Some? && limits.device.Some? {
        LogStep(limits, View(), keys, i, bytes, at);
        RecordLevel(Device(device.value), bytes, at(Device(device.value)));
        i := i + 1;
      }
      assert LogFrom(limits, View(), keys, i, bytes, at) == View();
    }

    /** try_acquire: the global level first; no other call runs in between. */
    method TryAcquireBytes(client: Option<string>, device: Option<u32>, bytes: u64, at: Readings, refundAt: Readings)
      returns (ok: bool)
      requires Valid()
      modifies this, buckets.Values
      ensures Valid() && fresh(buckets.Values - old(buckets.Values))
      ensures (View(), ok) == AcquireCall(limits, old(View()), client, device, bytes, at, refundAt)
      ensures Configured(limits, old(View())) ==> (ok <==> AllPay(limits, old(View()), client, device, bytes, at))
    {
      if Configured(limits, View()) {
        AcquireCallExact(limits, View(), client, device, bytes, at, refundAt);
      }
      ghost var keys := LegalApplicable(limits, client, device);
      if limits.global.Some? {
        AcquireStep(limits, View(), keys, 0, bytes, at, refundAt);
        ok := TakeLevel(Global, bytes, at(Global));
        if !ok {
          return;
        }
      }
      ok := AcquireClientLevel(client, device, bytes, at, refundAt);
    }

    /** The client level, refunding the global one on failure. */
    method AcquireClientLevel(client: Option<string>, device: Option<u32>, bytes: u64, at: Readings, refundAt: Readings)
      returns (ok: bool)
      requires Valid()
      modifies this, buckets.Values
      ensures Valid() && fresh(buckets.Values - old(buckets.Values))
      ensures (View(), ok) == AcquireFrom(limits, old(View()), LegalApplicable(limits, client, device),
                                          if limits.global.Some? then 1 else 0, bytes, at, refundAt)
    {
      ghost var keys := LegalApplicable(limits, client, device);
      ghost var i := if limits.global.Some? then 1 else 0;
      if client.Some? && limits.client.Some? {
        var k := Client(client.value);
        AcquireStep(limits, View(), keys, i, bytes, at, refundAt);
        ok := TakeLevel(k, bytes, at(k));
        if !ok {
          GiveBackUpToTwo(View(), keys, i, bytes, refundAt);
          if limits.global.Some? {
            RefundLevel(Global, bytes, refundAt(Global));
          }
          return;
        }
      }
      ok := AcquireDeviceLevel(client, device, bytes, at, refundAt);
    }

    /** The device level, refunding the global and the client one on failure. */
    method AcquireDeviceLevel(client: Option<string>, device: Option<u32>, bytes: u64, at: Readings, refundAt: Readings)
      returns (ok: bool)
      requires Valid()
      modifies this, buckets.Values
      ensures Valid() && fresh(buckets.Values - old(buckets.Values))
      ensures (View(), ok) == AcquireFrom(limits, old(View()), LegalApplicable(limits, client, device),
                                          |LegalApplicable(limits, client, None)|, bytes, at, refundAt)
    {
      ghost var keys := LegalApplicable(limits, client, device);
      ghost var i := |LegalApplicable(limits, client, None)|;
      if device.Some? && limits.device.Some? {
        var k := Device(device.value);
        AcquireStep(limits, View(), keys, i, bytes, at, refundAt);
        ok := TakeLevel(k, bytes, at(k));
        if !ok {
          GiveBackUpToTwo(View(), keys, i, bytes, refundAt);
          if limits.global.Some? {
            RefundLevel(Global, bytes, refundAt(Global));
          }
          if client.Some? && limits.client.Some? {
            RefundLevel(Client(client.value), bytes, refundAt(Client(client.value)));
          }
          return;
        }
      }
      ok := true;
    }

    /** check: the longest wait over the levels; None where a wait computation panics. */
    method CheckBytes(client: Option<string>, device: Option<u32>, bytes: u64, at: Readings)
      returns (wait: Option<int>)
      requires Valid()
      modifies this, buckets.Values
      ensures Valid() && fresh(buckets.Values - old(buckets.Values))
      ensures (View(), wait) == CheckCall(limits, old(View()), client, device, bytes, at)
      ensures Configured(limits, old(View())) ==>
                wait == Longest(Demand(limits.global, old(View()), Global, bytes, at(Global)),
                                Longest(ClientDemand(limits, old(View()), client, bytes, at),
                                        DeviceDemand(limits, old(View()), device, bytes, at)))
    {
      if Configured(limits, View()) {
        CheckCallExact(limits, View(), client, device, bytes, at);
      }
      var maxWait := 0;
      if limits.global.Some? {
        CheckStep(limits, View(), LegalApplicable(limits, client, device), 0, bytes, at, maxWait);
        wait := LookLevel(Global, bytes, at(Global));
        if wait.None? {
          return;
        }
        maxWait := if wait.value > maxWait then wait.value else maxWait;
      }
      wait := CheckClientLevel(client, device, bytes, at, maxWait);
    }

    method CheckClientLevel(client: Option<string>, device: Option<u32>, bytes: u64, at: Readings, longest: int)
      returns (wait: Option<int>)
      requires Valid()
      modifies this, buckets.Values
      ensures Valid() && fresh(buckets.Values - old(buckets.Values))
      ensures (View(), wait) == CheckFrom(limits, old(View()), LegalApplicable(limits, client, device),
                                          if limits.global.Some? then 1 else 0, bytes, at, longest)
    {
      var maxWait := longest;
      if client.Some? && limits.client.Some? {
        var k := Client(client.value);
        CheckStep(limits, View(), LegalApplicable(limits, client, device), if limits.global.Some? then 1 else 0,
                  bytes, at, maxWait);
        wait := LookLevel(k, bytes, at(k));
        if wait.None? {
          return;
        }
        maxWait := if wait.value > maxWait then wait.value else maxWait;
      }
      wait := CheckDeviceLevel(client, device, bytes, at, maxWait);
    }

    method CheckDeviceLevel(client: Option<string>, device: Option<u32>, bytes: u64, at: Readings, longest: int)
      returns (wait: Option<int>)
      requires Valid()
      modifies this, buckets.Values
      ensures Valid() && fresh(buckets.Values - old(buckets.Values))
      ensures (View(), wait) == CheckFrom(limits, old(View()), LegalApplicable(limits, client, device),
                                          |LegalApplicable(limits, client, None)|, bytes, at, longest)
    {
      var maxWait := longest;
      if device.Some? && limits.device.Some? {
        var k := Device(device.value);
        CheckStep(limits, View(), LegalApplicable(limits, client, device), |LegalApplicable(limits, client, None)|,
                  bytes, at, maxWait);
        wait := LookLevel(k, bytes, at(k));
        if wait.None? {
          return;
        }
        maxWait := if wait.value > maxWait then wait.value else maxWait;
      }
      wait := Some(maxWait);
    }
  }
}
