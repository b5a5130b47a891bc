/** Which levels a call of the rate limiter goes through, in which order, and what it does to each: the
    calls in terms of their arguments. */
module CallLevels {
  import opened Common
  import opened TokenBuckets
  import opened RateLimits
  import opened SingleCalls
  import opened CheckCalls

  /** The call goes through this level: it is limited, and named if it is that of a client or device. */
  predicate Named(limits: Limits, client: Option<string>, device: Option<u32>, k: Key) {
    match k
    case Global => limits.global.Some?
    case Client(id) => limits.client.Some? && client == Some(id)
    case Device(handle) => limits.device.Some? && device == Some(handle)
  }

  /** Global comes first, then the client, then the device. */
  function Rank(k: Key): nat {
    match k
    case Global => 0
    case Client(_) => 1
    case Device(_) => 2
  }

  lemma NamedLevels(limits: Limits, client: Option<string>, device: Option<u32>)
    ensures var keys := LegalApplicable(limits, client, device);
            && (forall k :: k in keys <==> Named(limits, client, device, k))
            && (forall i, j :: 0 <= i < j < |keys| ==> Rank(keys[i]) < Rank(keys[j]))
  {
    var keys := LegalApplicable(limits, client, device);
    forall k
      ensures k in keys <==> Named(limits, client, device, k)
    {
    }
  }

  /** The tokens of a level at an instant: those that were left and what has been earned since at its
      rate, at most its burst; a level without a bucket has its whole burst. */
  function Holds(limit: BandwidthLimit, bs: Buckets, k: Key, t: real): real {
    if k !in bs then limit.burstBytes as real
    else if t <= bs[k].lastRefill then bs[k].tokens
    else
      var earned := bs[k].tokens + (t - bs[k].lastRefill) * limit.bytesPerSecond as real;
      if earned <= limit.burstBytes as real then earned else limit.burstBytes as real
  }

  /** Every bucket has the burst and the rate of its level. */
  ghost predicate Configured(limits: Limits, bs: Buckets) {
    forall k :: k in bs ==>
      && limits.Of(k).Some?
      && bs[k].maxTokens == limits.Of(k).value.burstBytes as real
      && bs[k].refillRate == limits.Of(k).value.bytesPerSecond as real
  }

  lemma HoldsExact(limits: Limits, bs: Buckets, k: Key, t: real)
    requires Configured(limits, bs) && limits.Of(k).Some?
    ensures ValueAt(limits, bs, k, t).tokens == Holds(limits.Of(k).value, bs, k, t)
    ensures ValueAt(limits, bs, k, t).refillRate == limits.Of(k).value.bytesPerSecond as real
  {
  }

  // ---------- try_acquire ----------

  function AcquireCall(limits: Limits, bs: Buckets, client: Option<string>, device: Option<u32>, bytes: u64,
                       at: Readings, refundAt: Readings): (Buckets, bool)
  {
    TryAcquire(limits, bs, LegalApplicable(limits, client, device), bytes, at, refundAt)
  }

  /** The level, if it is limited, has enough tokens. */
  predicate Pays(limit: Option<BandwidthLimit>, bs: Buckets, k: Key, bytes: u64, t: real) {
    limit.Some? ==> Holds(limit.value, bs, k, t) >= bytes as real
  }

  predicate AllPay(limits: Limits, bs: Buckets, client: Option<string>, device: Option<u32>, bytes: u64, at: Readings) {
    && Pays(limits.global, bs, Global, bytes, at(Global))
    && (client.Some? ==> Pays(limits.client, bs, Client(client.value), bytes, at(Client(client.value))))
    && (device.Some? ==> Pays(limits.device, bs, Device(device.value), bytes, at(Device(device.value))))
  }

  lemma NamedCanPay(limits: Limits, bs: Buckets, client: Option<string>, device: Option<u32>, bytes: u64, at: Readings)
    requires Configured(limits, bs)
    ensures AllPay(limits, bs, client, device, bytes, at)
            <==> forall k :: Named(limits, client, device, k) ==> CanTake(limits, bs, k, bytes, at(k))
  {
    forall k | Named(limits, client, device, k)
      ensures CanTake(limits, bs, k, bytes, at(k)) <==> Pays(limits.Of(k), bs, k, bytes, at(k))
    {
      HoldsExact(limits, bs, k, at(k));
    }
    assert Named(limits, client, device, Global) <==> limits.global.Some?;
    assert client.Some? ==> (Named(limits, client, device, Client(client.value)) <==> limits.client.Some?);
    assert device.Some? ==> (Named(limits, client, device, Device(device.value)) <==> limits.device.Some?);
  }

  /** try_acquire succeeds exactly when the global bucket, that of the named client and that of the named
      device, each if it is limited, can pay. */
  lemma AcquireCallExact(limits: Limits, bs: Buckets, client: Option<string>, device: Option<u32>, bytes: u64,
                         at: Readings, refundAt: Readings)
    requires Configured(limits, bs)
    ensures AcquireCall(limits, bs, client, device, bytes, at, refundAt).1
            <==> AllPay(limits, bs, client, device, bytes, at)
  {
    var keys := LegalApplicable(limits, client, device);
    NamedLevels(limits, client, device);
    AcquireSucceedsExact(limits, bs, keys, bytes, at, refundAt);
    NamedCanPay(limits, bs, client, device, bytes, at);
    assert AllCanPay(limits, bs, keys, bytes, at)
      <==> forall k :: k in keys ==> CanTake(limits, bs, k, bytes, at(k));
  }

  /** A success charges every named level by the bytes and touches no other. */
  lemma GrantedCharges(limits: Limits, bs: Buckets, client: Option<string>, device: Option<u32>, bytes: u64,
                       at: Readings, refundAt: Readings, k: Key)
    requires Configured(limits, bs)
    requires AcquireCall(limits, bs, client, device, bytes, at, refundAt).1
    ensures var bs' := AcquireCall(limits, bs, client, device, bytes, at, refundAt).0;
            if Named(limits, client, device, k) then
              k in bs' && bs'[k].tokens == Holds(limits.Of(k).value, bs, k, at(k)) - bytes as real
            else Same(bs, bs', k)
  {
    var keys := LegalApplicable(limits, client, device);
    NamedLevels(limits, client, device);
    if k in keys {
      var j :| 0 <= j < |keys| && keys[j] == k;
      TakeFromExact(limits, bs, keys, 0, bytes, at, j);
      HoldsExact(limits, bs, k, at(k));
    } else {
      TakeFromElsewhere(limits, bs, keys, 0, bytes, at, k);
    }
  }

  /** The first level that cannot pay. */
  ghost predicate StopsAt(limits: Limits, bs: Buckets, client: Option<string>, device: Option<u32>, bytes: u64,
                          at: Readings, k: Key)
  {
    && Named(limits, client, device, k) && !Pays(limits.Of(k), bs, k, bytes, at(k))
    && forall other :: Named(limits, client, device, other) && Rank(other) < Rank(k) ==>
         Pays(limits.Of(other), bs, other, bytes, at(other))
  }

  /** The j-th level can pay exactly when the call gets past it. */
  lemma PaysBeforeStop(limits: Limits, bs: Buckets, keys: seq<Key>, bytes: u64, at: Readings, j: nat)
    requires Configured(limits, bs) && LegalKeys(limits, keys)
    requires j < |keys| && j <= TakeFrom(limits, bs, keys, 0, bytes, at).1
    ensures Pays(limits.Of(keys[j]), bs, keys[j], bytes, at(keys[j])) <==> j < TakeFrom(limits, bs, keys, 0, bytes, at).1
  {
    TakeFromExact(limits, bs, keys, 0, bytes, at, j);
    HoldsExact(limits, bs, keys[j], at(keys[j]));
  }

  lemma BeyondStop(limits: Limits, bs: Buckets, keys: seq<Key>, bytes: u64, at: Readings, refundAt: Readings, k: Key)
    requires LegalKeys(limits, keys) && TakeFrom(limits, bs, keys, 0, bytes, at).1 < |keys|
    requires forall j :: 0 <= j <= TakeFrom(limits, bs, keys, 0, bytes, at).1 ==> keys[j] != k
    ensures Same(bs, TryAcquire(limits, bs, keys, bytes, at, refundAt).0, k)
  {
    var (charged, n) := TakeFrom(limits, bs, keys, 0, bytes, at);
    GiveBackElsewhere(charged, keys, 0, n, bytes, refundAt, k);
    if k in keys {
      var j :| 0 <= j < |keys| && keys[j] == k;
      TakeFromExact(limits, bs, keys, 0, bytes, at, j);
    } else {
      TakeFromElsewhere(limits, bs, keys, 0, bytes, at, k);
    }
  }

  /** A failure stops at the first level that cannot pay, global before client before device: what comes
      later is not touched, not even refilled. */
  lemma DeniedStopsAtFirst(limits: Limits, bs: Buckets, client: Option<string>, device: Option<u32>, bytes: u64,
                           at: Readings, refundAt: Readings) returns (stop: Key)
    requires Configured(limits, bs)
    requires !AcquireCall(limits, bs, client, device, bytes, at, refundAt).1
    ensures StopsAt(limits, bs, client, device, bytes, at, stop)
    ensures forall k :: !Named(limits, client, device, k) || Rank(k) > Rank(stop) ==>
              Same(bs, AcquireCall(limits, bs, client, device, bytes, at, refundAt).0, k)
  {
    var keys := LegalApplicable(limits, client, device);
    NamedLevels(limits, client, device);
    var n := TakeFrom(limits, bs, keys, 0, bytes, at).1;
    stop := keys[n];
    PaysBeforeStop(limits, bs, keys, bytes, at, n);
    forall other | Named(limits, client, device, other) && Rank(other) < Rank(stop)
      ensures Pays(limits.Of(other), bs, other, bytes, at(other))
    {
      var j :| 0 <= j < |keys| && keys[j] == other;
      PaysBeforeStop(limits, bs, keys, bytes, at, j);
    }
    forall k | !Named(limits, client, device, k) || Rank(k) > Rank(stop)
      ensures Same(bs, AcquireCall(limits, bs, client, device, bytes, at, refundAt).0, k)
    {
      BeyondStop(limits, bs, keys, bytes, at, refundAt, k);
    }
  }

  // ---------- record ----------

  function RecordCall(limits: Limits, bs: Buckets, client: Option<string>, device: Option<u32>, bytes: u64,
                      at: Readings): Buckets
  {
    LogFrom(limits, bs, LegalApplicable(limits, client, device), 0, bytes, at)
  }

  /** record takes the bytes from every named level, down to zero, and touches no other. */
  lemma RecordCallExact(limits: Limits, bs: Buckets, client: Option<string>, device: Option<u32>, bytes: u64,
                        at: Readings, k: Key)
    requires Configured(limits, bs)
    ensures var bs' := RecordCall(limits, bs, client, device, bytes, at);
            if Named(limits, client, device, k) then
              var left := Holds(limits.Of(k).value, bs, k, at(k)) - bytes as real;
              k in bs' && bs'[k].tokens == if left >= 0.0 then left else 0.0
            else Same(bs, bs', k)
  {
    var keys := LegalApplicable(limits, client, device);
    NamedLevels(limits, client, device);
    if k in keys {
      var j :| 0 <= j < |keys| && keys[j] == k;
      RecordExact(limits, bs, keys, 0, bytes, at, j);
      HoldsExact(limits, bs, k, at(k));
    } else {
      LogFromElsewhere(limits, bs, keys, 0, bytes, at, k);
    }
  }

  // ---------- check ----------

  function CheckCall(limits: Limits, bs: Buckets, client: Option<string>, device: Option<u32>, bytes: u64,
                     at: Readings): (Buckets, Option<int>)
  {
    Check(limits, bs, LegalApplicable(limits, client, device), bytes, at)
  }

  /** What a level demands: nothing without a limit; otherwise the time in which it earns what it lacks,
      in nanoseconds, and no time at all can do if it lacks something and earns nothing. */
  function Demand(limit: Option<BandwidthLimit>, bs: Buckets, k: Key, bytes: u64, t: real): Option<int> {
    if limit.None? || Holds(limit.value, bs, k, t) >= bytes as real then Some(0)
    else if limit.value.bytesPerSecond == 0 then None
    else Some(Nanos((bytes as real - Holds(limit.value, bs, k, t)) / limit.value.bytesPerSecond as real))
  }

  function Longest(a: Option<int>, b: Option<int>): Option<int> {
    if a.None? || b.None? then None else Some(if a.value >= b.value then a.value else b.value)
  }

  function ClientDemand(limits: Limits, bs: Buckets, client: Option<string>, bytes: u64, at: Readings): Option<int> {
    if client.None? then Some(0)
    else Demand(limits.client, bs, Client(client.value), bytes, at(Client(client.value)))
  }

  function DeviceDemand(limits: Limits, bs: Buckets, device: Option<u32>, bytes: u64, at: Readings): Option<int> {
    if device.None? then Some(0)
    else Demand(limits.device, bs, Device(device.value), bytes, at(Device(device.value)))
  }

  lemma DemandExact(limits: Limits, bs: Buckets, k: Key, bytes: u64, at: Readings)
    requires Configured(limits, bs) && limits.Of(k).Some?
    ensures var wait, demand := WaitOf(limits, bs, k, bytes, at), Demand(limits.Of(k), bs, k, bytes, at(k));
            && (wait.None? <==> demand.None?)
            && (wait.Some? ==> demand == Some(Nanos(wait.value)) && demand.value >= 0)
  {
    HoldsExact(limits, bs, k, at(k));
    if WaitOf(limits, bs, k, bytes, at).Some? {
      if ValueAt(limits, bs, k, at(k)).tokens < bytes as real {
        WaitNonNegative(ValueAt(limits, bs, k, at(k)), bytes);
      }
      NanosNearest(WaitOf(limits, bs, k, bytes, at).value);
    }
  }

  lemma WaitNonNegative(r: Bucket, bytes: u64)
    requires r.refillRate >= 0.0 && r.tokens < bytes as real && r.refillRate != 0.0
    ensures (bytes as real - r.tokens) / r.refillRate >= 0.0
  {
  }

  /** The demand of a level if the call goes through it. */
  function NamedDemand(limits: Limits, bs: Buckets, client: Option<string>, device: Option<u32>, k: Key, bytes: u64,
                       at: Readings): Option<int>
  {
    if Named(limits, client, device, k) then Demand(limits.Of(k), bs, k, bytes, at(k)) else Some(0)
  }

  /** d is within the answer r. */
  predicate Within(d: Option<int>, r: Option<int>) {
    (r.Some? ==> d.Some? && d.value <= r.value) && (d.Some? ==> d.value >= 0)
  }

  lemma CheckCoversKey(limits: Limits, bs: Buckets, keys: seq<Key>, bytes: u64, at: Readings, i: nat)
    requires Configured(limits, bs) && LegalKeys(limits, keys) && i < |keys|
    ensures Within(Demand(limits.Of(keys[i]), bs, keys[i], bytes, at(keys[i])), Check(limits, bs, keys, bytes, at).1)
  {
    DemandExact(limits, bs, keys[i], bytes, at);
    if Check(limits, bs, keys, bytes, at).1.Some? {
      CheckFromExact(limits, bs, keys, 0, bytes, at, 0, i);
    }
  }

  lemma CheckCovers(limits: Limits, bs: Buckets, client: Option<string>, device: Option<u32>, bytes: u64,
                    at: Readings, k: Key)
    requires Configured(limits, bs)
    ensures Within(NamedDemand(limits, bs, client, device, k, bytes, at),
                   CheckCall(limits, bs, client, device, bytes, at).1)
  {
    var keys := LegalApplicable(limits, client, device);
    NamedLevels(limits, client, device);
    if Named(limits, client, device, k) {
      var i :| 0 <= i < |keys| && keys[i] == k;
      CheckCoversKey(limits, bs, keys, bytes, at, i);
    } else if CheckCall(limits, bs, client, device, bytes, at).1.Some? {
      LongestGrows(limits, bs, keys, 0, bytes, at, 0);
    }
  }

  lemma CheckAttained(limits: Limits, bs: Buckets, client: Option<string>, device: Option<u32>, bytes: u64,
                      at: Readings) returns (worst: Key)
    requires Configured(limits, bs)
    ensures var r := CheckCall(limits, bs, client, device, bytes, at).1;
            r == Some(0) || (Named(limits, client, device, worst)
                             && r == NamedDemand(limits, bs, client, device, worst, bytes, at))
  {
    var keys := LegalApplicable(limits, client, device);
    worst := Global;
    NamedLevels(limits, client, device);
    var j := CheckFromAttained(limits, bs, keys, 0, bytes, at, 0);
    if j < |keys| {
      worst := keys[j];
      DemandExact(limits, bs, worst, bytes, at);
    }
  }

  lemma LongestOfThree(r: Option<int>, g: Option<int>, c: Option<int>, d: Option<int>)
    requires Within(g, r) && Within(c, r) && Within(d, r)
    requires r == Some(0) || r == g || r == c || r == d
    ensures r == Longest(g, Longest(c, d))
  {
  }

  lemma DemandsWithin(limits: Limits, bs: Buckets, client: Option<string>, device: Option<u32>, bytes: u64,
                      at: Readings)
    requires Configured(limits, bs)
    ensures var r := CheckCall(limits, bs, client, device, bytes, at).1;
            && Within(Demand(limits.global, bs, Global, bytes, at(Global)), r)
            && Within(ClientDemand(limits, bs, client, bytes, at), r)
            && Within(DeviceDemand(limits, bs, device, bytes, at), r)
  {
    CheckCovers(limits, bs, client, device, bytes, at, Global);
    CheckCovers(limits, bs, client, device, bytes, at, Client(if client.Some? then client.value else ""));
    CheckCovers(limits, bs, client, device, bytes, at, Device(if device.Some? then device.value else 0));
  }

  lemma OneDemandDecides(limits: Limits, bs: Buckets, client: Option<string>, device: Option<u32>, bytes: u64,
                         at: Readings)
    requires Configured(limits, bs)
    ensures var r := CheckCall(limits, bs, client, device, bytes, at).1;
            || r == Some(0)
            || r == Demand(limits.global, bs, Global, bytes, at(Global))
            || r == ClientDemand(limits, bs, client, bytes, at)
            || r == DeviceDemand(limits, bs, device, bytes, at)
  {
    var worst := CheckAttained(limits, bs, client, device, bytes, at);
  }

  /** check answers the longest demand of the global level, the named client's and the named device's,
      each if it is limited; it panics exactly when one of them cannot be met by waiting. */
  lemma CheckCallExact(limits: Limits, bs: Buckets, client: Option<string>, device: Option<u32>, bytes: u64,
                       at: Readings)
    requires Configured(limits, bs)
    ensures CheckCall(limits, bs, client, device, bytes, at).1
            == Longest(Demand(limits.global, bs, Global, bytes, at(Global)),
                       Longest(ClientDemand(limits, bs, client, bytes, at), DeviceDemand(limits, bs, device, bytes, at)))
  {
    DemandsWithin(limits, bs, client, device, bytes, at);
    OneDemandDecides(limits, bs, client, device, bytes, at);
    LongestOfThree(CheckCall(limits, bs, client, device, bytes, at).1,
                   Demand(limits.global, bs, Global, bytes, at(Global)), ClientDemand(limits, bs, client, bytes, at),
                   DeviceDemand(limits, bs, device, bytes, at));
  }

  /** A check that does not panic brings every named level up to date and touches no other. */
  lemma CheckCallRefills(limits: Limits, bs: Buckets, client: Option<string>, device: Option<u32>, bytes: u64,
                         at: Readings, k: Key)
    requires Configured(limits, bs) && CheckCall(limits, bs, client, device, bytes, at).1.Some?
    ensures var bs' := CheckCall(limits, bs, client, device, bytes, at).0;
            if Named(limits, client, device, k) then
              k in bs' && bs'[k].tokens == Holds(limits.Of(k).value, bs, k, at(k))
            else Same(bs, bs', k)
  {
    var keys := LegalApplicable(limits, client, device);
    NamedLevels(limits, client, device);
    if k in keys {
      var i :| 0 <= i < |keys| && keys[i] == k;
      CheckFromExact(limits, bs, keys, 0, bytes, at, 0, i);
      HoldsExact(limits, bs, k, at(k));
    } else {
      CheckFromElsewhere(limits, bs, keys, 0, bytes, at, 0, k);
    }
  }

  // ---------- The configuration over the calls ----------

  lemma {:induction false} TakeFromConfigured(limits: Limits, bs: Buckets, keys: seq<Key>, i: nat, bytes: u64,
                                              at: Readings)
    requires LegalKeys(limits, keys) && i <= |keys| && Configured(limits, bs)
    ensures Configured(limits, TakeFrom(limits, bs, keys, i, bytes, at).0)
    decreases |keys| - i
  {
    if i < |keys| && CanTake(limits, bs, keys[i], bytes, at(keys[i])) {
      TakeFromConfigured(limits, Take(limits, bs, keys[i], bytes, at(keys[i])), keys, i + 1, bytes, at);
    }
  }

  lemma {:induction false} GiveBackConfigured(limits: Limits, bs: Buckets, keys: seq<Key>, j: nat, n: nat, bytes: u64,
                                              at: Readings)
    requires j <= n <= |keys| && Configured(limits, bs)
    ensures Configured(limits, GiveBackFrom(bs, keys, j, n, bytes, at))
    decreases n - j
  {
    if j < n {
      GiveBackConfigured(limits, GiveBack(bs, keys[j], bytes, at(keys[j])), keys, j + 1, n, bytes, at);
    }
  }

  lemma {:induction false} LogFromConfigured(limits: Limits, bs: Buckets, keys: seq<Key>, i: nat, bytes: u64,
                                             at: Readings)
    requires LegalKeys(limits, keys) && i <= |keys| && Configured(limits, bs)
    ensures Configured(limits, LogFrom(limits, bs, keys, i, bytes, at))
    decreases |keys| - i
  {
    if i < |keys| {
      LogFromConfigured(limits, Log(limits, bs, keys[i], bytes, at(keys[i])), keys, i + 1, bytes, at);
    }
  }

  lemma {:induction false} CheckFromConfigured(limits: Limits, bs: Buckets, keys: seq<Key>, i: nat, bytes: u64,
                                               at: Readings, longest: int)
    requires LegalKeys(limits, keys) && i <= |keys| && Configured(limits, bs)
    ensures Configured(limits, CheckFrom(limits, bs, keys, i, bytes, at, longest).0)
    decreases |keys| - i
  {
    if i < |keys| && WaitOf(limits, bs, keys[i], bytes, at).Some? {
      CheckFromConfigured(limits, Look(limits, bs, keys[i], at(keys[i])), keys, i + 1, bytes, at,
                          Longer(Nanos(WaitOf(limits, bs, keys[i], bytes, at).value), longest));
    }
  }

  /** The buckets of a new limiter have the bursts and rates of their levels, and every call keeps that. */
  lemma CallsKeepConfiguration(limits: Limits, bs: Buckets, client: Option<string>, device: Option<u32>, bytes: u64,
                               at: Readings, refundAt: Readings, start: real)
    ensures Configured(limits, Initial(limits, start).buckets)
    ensures Configured(limits, bs) ==>
              && Configured(limits, AcquireCall(limits, bs, client, device, bytes, at, refundAt).0)
              && Configured(limits, CheckCall(limits, bs, client, device, bytes, at).0)
              && Configured(limits, RecordCall(limits, bs, client, device, bytes, at))
  {
    if Configured(limits, bs) {
      var keys := LegalApplicable(limits, client, device);
      var (charged, n) := TakeFrom(limits, bs, keys, 0, bytes, at);
      TakeFromConfigured(limits, bs, keys, 0, bytes, at);
      GiveBackConfigured(limits, charged, keys, 0, n, bytes, refundAt);
      LogFromConfigured(limits, bs, keys, 0, bytes, at);
      CheckFromConfigured(limits, bs, keys, 0, bytes, at, 0);
    }
  }
}
