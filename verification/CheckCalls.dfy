/** check with no other call in between: when it agrees with try_acquire, and how good its wait is.
    The waits it compares and returns are whole nanoseconds. */
module CheckCalls {
  import opened Common
  import opened TokenBuckets
  import opened RateLimits
  import opened SingleCalls

  function Longer(a: int, b: int): int {
    if a > b then a else b
  }

  /** check from level i on, with the longest wait so far; None where a wait panics. */
  function CheckFrom(limits: Limits, bs: Buckets, keys: seq<Key>, i: nat, bytes: u64, at: Readings,
                     longest: int): (Buckets, Option<int>)
    requires LegalKeys(limits, keys) && i <= |keys|
    decreases |keys| - i
  {
    if i == |keys| then (bs, Some(longest))
    else
      var k := keys[i];
      var wait := WaitNanos(Entry(limits, bs, k, at(k)), bytes, at(k));
      var looked := Look(limits, bs, k, at(k));
      if wait.None? then (looked, None)
      else CheckFrom(limits, looked, keys, i + 1, bytes, at, Longer(wait.value, longest))
  }

  /** check; a wait of zero is the answer Allowed. */
  function Check(limits: Limits, bs: Buckets, keys: seq<Key>, bytes: u64, at: Readings): (Buckets, Option<int>)
    requires LegalKeys(limits, keys)
  {
    CheckFrom(limits, bs, keys, 0, bytes, at, 0)
  }

  lemma CheckStep(limits: Limits, bs: Buckets, keys: seq<Key>, i: nat, bytes: u64, at: Readings, longest: int)
    requires LegalKeys(limits, keys) && i < |keys|
    ensures var k := keys[i];
            var wait := WaitNanos(Entry(limits, bs, k, at(k)), bytes, at(k));
            var looked := Look(limits, bs, k, at(k));
            CheckFrom(limits, bs, keys, i, bytes, at, longest)
            == if wait.None? then (looked, None)
               else CheckFrom(limits, looked, keys, i + 1, bytes, at, Longer(wait.value, longest))
  {
  }

  /** What level k needs in seconds, before the conversion. */
  function WaitOf(limits: Limits, bs: Buckets, k: Key, bytes: u64, at: Readings): Option<real>
    requires limits.Of(k).Some?
  {
    WaitTime(Entry(limits, bs, k, at(k)), bytes, at(k))
  }

  // ---------- What the loop does, level by level ----------

  lemma {:induction false} CheckFromElsewhere(limits: Limits, bs: Buckets, keys: seq<Key>, i: nat, bytes: u64,
                                              at: Readings, longest: int, k: Key)
    requires LegalKeys(limits, keys) && i <= |keys| && k !in keys[i..]
    ensures Same(bs, CheckFrom(limits, bs, keys, i, bytes, at, longest).0, k)
    decreases |keys| - i
  {
    if i < |keys| {
      assert keys[i..] == [keys[i]] + keys[i + 1..];
      var wait := WaitOf(limits, bs, keys[i], bytes, at);
      if wait.Some? {
        CheckFromElsewhere(limits, Look(limits, bs, keys[i], at(keys[i])), keys, i + 1, bytes, at,
                           Longer(Nanos(wait.value), longest), k);
      }
    }
  }

  /** A check that does not panic refills level j and waits at least as long as level j needs. */
  lemma {:induction false} CheckFromExact(limits: Limits, bs: Buckets, keys: seq<Key>, i: nat, bytes: u64,
                                          at: Readings, longest: int, j: nat)
    requires LegalKeys(limits, keys) && i <= j < |keys|
    requires CheckFrom(limits, bs, keys, i, bytes, at, longest).1.Some?
    ensures var (bs', r), k := CheckFrom(limits, bs, keys, i, bytes, at, longest), keys[j];
            && WaitOf(limits, bs, k, bytes, at).Some? && Nanos(WaitOf(limits, bs, k, bytes, at).value) <= r.value
            && k in bs' && bs'[k] == Refill(Entry(limits, bs, k, at(k)), at(k))
    decreases |keys| - i
  {
    var wait := WaitOf(limits, bs, keys[i], bytes, at);
    var longer := Longer(Nanos(wait.value), longest);
    var bs1 := Look(limits, bs, keys[i], at(keys[i]));
    if j == i {
      CheckFromElsewhere(limits, bs1, keys, i + 1, bytes, at, longer, keys[i]);
      LongestGrows(limits, bs1, keys, i + 1, bytes, at, longer);
    } else {
      CheckFromExact(limits, bs1, keys, i + 1, bytes, at, longer, j);
    }
  }

  lemma {:induction false} LongestGrows(limits: Limits, bs: Buckets, keys: seq<Key>, i: nat, bytes: u64,
                                        at: Readings, longest: int)
    requires LegalKeys(limits, keys) && i <= |keys| && CheckFrom(limits, bs, keys, i, bytes, at, longest).1.Some?
    ensures CheckFrom(limits, bs, keys, i, bytes, at, longest).1.value >= longest
    decreases |keys| - i
  {
    if i < |keys| {
      var wait := WaitOf(limits, bs, keys[i], bytes, at);
      LongestGrows(limits, Look(limits, bs, keys[i], at(keys[i])), keys, i + 1, bytes, at,
                   Longer(Nanos(wait.value), longest));
    }
  }

  /** Level j is the one that decides: it panics, or needs the wait that is returned. */
  predicate Decides(limits: Limits, bs: Buckets, k: Key, bytes: u64, at: Readings, r: Option<int>)
    requires limits.Of(k).Some?
  {
    var wait := WaitOf(limits, bs, k, bytes, at);
    if r.None? then wait.None? else wait.Some? && Nanos(wait.value) == r.value
  }

  /** The wait is the longest so far or that of some level; a panic is the fault of some level. */
  lemma {:induction false} CheckFromAttained(limits: Limits, bs: Buckets, keys: seq<Key>, i: nat, bytes: u64,
                                             at: Readings, longest: int)
    returns (j: nat)
    requires LegalKeys(limits, keys) && i <= |keys|
    ensures var r := CheckFrom(limits, bs, keys, i, bytes, at, longest).1;
            r == Some(longest) || (i <= j < |keys| && Decides(limits, bs, keys[j], bytes, at, r))
    decreases |keys| - i
  {
    j := i;
    if i < |keys| {
      var wait := WaitOf(limits, bs, keys[i], bytes, at);
      if wait.Some? {
        var r := CheckFrom(limits, bs, keys, i, bytes, at, longest).1;
        j := CheckFromAttained(limits, Look(limits, bs, keys[i], at(keys[i])), keys, i + 1, bytes, at,
                               Longer(Nanos(wait.value), longest));
        if j < i + 1 || j >= |keys| || r == Some(Nanos(wait.value)) {
          j := i;
        }
      }
    }
  }

  // ---------- check against try_acquire ----------

  lemma PayExact(limits: Limits, bs: Buckets, k: Key, bytes: u64, t: real)
    requires ValidBuckets(limits, bs, t) && limits.Of(k).Some?
    ensures CanTake(limits, bs, k, bytes, t) <==> WaitOf(limits, bs, k, bytes, _ => t) == Some(0.0)
    ensures WaitOf(limits, bs, k, bytes, _ => t).Some? ==> WaitOf(limits, bs, k, bytes, _ => t).value >= 0.0
  {
    EntryFits(limits, bs, k, t);
    if WaitOf(limits, bs, k, bytes, _ => t).Some? {
      WaitIsExact(Entry(limits, bs, k, t), bytes, t, t);
    }
  }

  /** Level k can pay within half a nanosecond. */
  predicate NearlyPays(limits: Limits, bs: Buckets, k: Key, bytes: u64, t: real)
    requires limits.Of(k).Some?
  {
    var wait := WaitOf(limits, bs, k, bytes, _ => t);
    wait.Some? && Ticks(wait.value) <= 0.5
  }

  ghost predicate AllNearlyPay(limits: Limits, bs: Buckets, keys: seq<Key>, bytes: u64, t: real)
    requires LegalKeys(limits, keys)
  {
    forall j :: 0 <= j < |keys| ==> NearlyPays(limits, bs, keys[j], bytes, t)
  }

  lemma RoundsToZero(limits: Limits, bs: Buckets, k: Key, bytes: u64, t: real)
    requires ValidBuckets(limits, bs, t) && limits.Of(k).Some?
    ensures NearlyPays(limits, bs, k, bytes, t)
            <==> WaitOf(limits, bs, k, bytes, _ => t).Some? && Nanos(WaitOf(limits, bs, k, bytes, _ => t).value) <= 0
    ensures CanTake(limits, bs, k, bytes, t) ==> NearlyPays(limits, bs, k, bytes, t)
  {
    PayExact(limits, bs, k, bytes, t);
    var wait := WaitOf(limits, bs, k, bytes, _ => t);
    if wait.Some? {
      NanosNearest(wait.value);
    }
  }

  /** check answers Allowed exactly when every level can pay within half a nanosecond. */
  lemma AllowedExact(limits: Limits, bs: Buckets, keys: seq<Key>, bytes: u64, t: real)
    requires LegalKeys(limits, keys) && ValidBuckets(limits, bs, t)
    ensures Check(limits, bs, keys, bytes, _ => t).1 == Some(0) <==> AllNearlyPay(limits, bs, keys, bytes, t)
  {
    var at: Readings := _ => t;
    var r := Check(limits, bs, keys, bytes, at).1;
    var worst := CheckFromAttained(limits, bs, keys, 0, bytes, at, 0);
    if r != Some(0) {
      RoundsToZero(limits, bs, keys[worst], bytes, t);
      if r.Some? {
        LongestGrows(limits, bs, keys, 0, bytes, at, 0);
      }
      assert !NearlyPays(limits, bs, keys[worst], bytes, t);
    } else {
      forall j | 0 <= j < |keys|
        ensures NearlyPays(limits, bs, keys[j], bytes, t)
      {
        CheckFromExact(limits, bs, keys, 0, bytes, at, 0, j);
        RoundsToZero(limits, bs, keys[j], bytes, t);
      }
    }
  }

  /** At one instant, check and try_acquire disagree exactly when every level can pay within half a
      nanosecond but not every one can pay now: then check allows what try_acquire refuses. */
  lemma CheckAgreesWithAcquire(limits: Limits, bs: Buckets, keys: seq<Key>, bytes: u64, t: real, refundAt: Readings)
    requires LegalKeys(limits, keys) && ValidBuckets(limits, bs, t)
    ensures var allowed := Check(limits, bs, keys, bytes, _ => t).1 == Some(0);
            var acquired := TryAcquire(limits, bs, keys, bytes, _ => t, refundAt).1;
            && (acquired ==> allowed)
            && (allowed != acquired <==> AllNearlyPay(limits, bs, keys, bytes, t)
                                         && !AllCanPay(limits, bs, keys, bytes, _ => t))
  {
    AllowedExact(limits, bs, keys, bytes, t);
    AcquireSucceedsExact(limits, bs, keys, bytes, _ => t, refundAt);
    if AllCanPay(limits, bs, keys, bytes, _ => t) {
      forall j | 0 <= j < |keys|
        ensures NearlyPays(limits, bs, keys[j], bytes, t)
      {
        RoundsToZero(limits, bs, keys[j], bytes, t);
      }
    }
  }

  /** What check allows is at most half a nanosecond's worth of tokens short at any level. */
  lemma AllowedIsNearlyCovered(limits: Limits, bs: Buckets, keys: seq<Key>, bytes: u64, t: real, j: nat)
    requires LegalKeys(limits, keys) && ValidBuckets(limits, bs, t) && j < |keys|
    requires Check(limits, bs, keys, bytes, _ => t).1 == Some(0)
    ensures bytes as real <= ValueAt(limits, bs, keys[j], t).tokens
                             + Gain(limits.Of(keys[j]).value.bytesPerSecond as real, 0.000_000_000_5)
  {
    AllowedExact(limits, bs, keys, bytes, t);
    assert NearlyPays(limits, bs, keys[j], bytes, t);
    EntryFits(limits, bs, keys[j], t);
    ShortWaitSmallDeficit(Entry(limits, bs, keys[j], t), bytes, t);
  }

  lemma ShortWaitSmallDeficit(b: Bucket, bytes: u64, t: real)
    requires b.Valid() && WaitTime(b, bytes, t).Some? && Ticks(WaitTime(b, bytes, t).value) <= 0.5
    ensures bytes as real <= Refill(b, t).tokens + Gain(b.refillRate, 0.000_000_000_5)
  {
    var r := Refill(b, t);
    if r.tokens < bytes as real {
      var deficit := bytes as real - r.tokens;
      var wait := deficit / r.refillRate;
      assert Gain(r.refillRate, wait) == deficit;
      assert wait <= 0.000_000_000_5;
      Monotone(r.refillRate, 0.000_000_000_5, wait);
    } else {
      GainNonNegative(b.refillRate, 0.000_000_000_5);
    }
  }

  /** They do disagree: 333333333 ns after a bucket of one byte and three bytes a second was emptied. */
  lemma AllowedButRefused(id: string, start: real)
    ensures var limits, k := Limits(None, Some(BandwidthLimit(3, 1)), None), Client(id);
            var emptied := Take(limits, map[], k, 1, start);
            var t := start + 0.333_333_333;
            && LegalKeys(limits, [k]) && CanTake(limits, map[], k, 1, start)
            && Check(limits, emptied, [k], 1, _ => t).1 == Some(0)
            && !TryAcquire(limits, emptied, [k], 1, _ => t, _ => t).1
  {
    var limits, k := Limits(None, Some(BandwidthLimit(3, 1)), None), Client(id);
    var emptied := Take(limits, map[], k, 1, start);
    var t := start + 0.333_333_333;
    assert emptied[k] == Bucket(0.0, 1.0, 3.0, start);
    assert Gain(3.0, t - start) == 0.999_999_999;
    assert Refill(emptied[k], t).tokens == 0.999_999_999;
    assert ValidBuckets(limits, emptied, t);
    assert NearlyPays(limits, emptied, k, 1, t);
    AllowedExact(limits, emptied, [k], 1, t);
    AcquireSucceedsExact(limits, emptied, [k], 1, _ => t, _ => t);
    assert !CanTake(limits, emptied, [k][0], 1, t);
  }

  // ---------- How good the wait is ----------

  lemma LaterPayExact(limits: Limits, bs: Buckets, k: Key, bytes: u64, t: real, u: real)
    requires ValidBuckets(limits, bs, t) && limits.Of(k).Some? && t <= u && WaitOf(limits, bs, k, bytes, _ => t).Some?
    ensures CanConsume(Refill(Entry(limits, bs, k, t), t), bytes, u)
            <==> u >= t + WaitOf(limits, bs, k, bytes, _ => t).value && bytes <= limits.Of(k).value.burstBytes
  {
    var b := Entry(limits, bs, k, t);
    EntryFits(limits, bs, k, t);
    RefillTwice(b, t, u);
    WaitIsExact(b, bytes, t, u);
  }

  /** No level's burst is smaller than the transfer. */
  ghost predicate BurstsSuffice(limits: Limits, keys: seq<Key>, bytes: u64)
    requires LegalKeys(limits, keys)
  {
    forall j :: 0 <= j < |keys| ==> bytes <= limits.Of(keys[j]).value.burstBytes
  }

  /** Level j's exact wait against the returned one. */
  lemma LevelWait(limits: Limits, bs: Buckets, keys: seq<Key>, bytes: u64, t: real, u: real, j: nat)
    requires LegalKeys(limits, keys) && ValidBuckets(limits, bs, t) && t <= u && j < |keys|
    requires Check(limits, bs, keys, bytes, _ => t).1.Some?
    ensures var (bs', r), wait := Check(limits, bs, keys, bytes, _ => t), WaitOf(limits, bs, keys[j], bytes, _ => t);
            && wait.Some? && Ticks(wait.value) <= r.value as real + 0.5
            && (CanTake(limits, bs', keys[j], bytes, u)
                <==> u >= t + wait.value && bytes <= limits.Of(keys[j]).value.burstBytes)
  {
    CheckFromExact(limits, bs, keys, 0, bytes, _ => t, 0, j);
    LaterPayExact(limits, bs, keys[j], bytes, t, u);
    NanosNearest(WaitOf(limits, bs, keys[j], bytes, _ => t).value);
  }

  /** With no other traffic, try_acquire succeeds at a later instant exactly when every level's exact
      wait has passed and no burst is smaller than the transfer.  Half a nanosecond after the wait that
      check returned that is so; more than half a nanosecond before its end, if it is not zero, not yet. */
  lemma WaitIsLeast(limits: Limits, bs: Buckets, keys: seq<Key>, bytes: u64, t: real, u: real, refundAt: Readings)
    requires LegalKeys(limits, keys) && ValidBuckets(limits, bs, t) && t <= u
    requires Check(limits, bs, keys, bytes, _ => t).1.Some?
    ensures var (bs', r) := Check(limits, bs, keys, bytes, _ => t);
            var acquired := TryAcquire(limits, bs', keys, bytes, _ => u, refundAt).1;
            && (acquired <==> BurstsSuffice(limits, keys, bytes)
                              && forall j :: 0 <= j < |keys| ==>
                                   var wait := WaitOf(limits, bs, keys[j], bytes, _ => t);
                                   wait.Some? && u >= t + wait.value)
            && (Ticks(u - t) >= r.value as real + 0.5 ==> (acquired <==> BurstsSuffice(limits, keys, bytes)))
            && (r.value > 0 && Ticks(u - t) < r.value as real - 0.5 ==> !acquired)
  {
    var at: Readings := _ => t;
    var (bs', r) := Check(limits, bs, keys, bytes, at);
    AcquireSucceedsExact(limits, bs', keys, bytes, _ => u, refundAt);
    LongestGrows(limits, bs, keys, 0, bytes, at, 0);
    forall j | 0 <= j < |keys|
      ensures var wait := WaitOf(limits, bs, keys[j], bytes, at);
              && wait.Some? && Ticks(wait.value) <= r.value as real + 0.5
              && (CanTake(limits, bs', keys[j], bytes, u)
                  <==> u >= t + wait.value && bytes <= limits.Of(keys[j]).value.burstBytes)
    {
      LevelWait(limits, bs, keys, bytes, t, u, j);
    }
    var worst := CheckFromAttained(limits, bs, keys, 0, bytes, at, 0);
    if r.value > 0 {
      NanosNearest(WaitOf(limits, bs, keys[worst], bytes, at).value);
    }
  }
}
