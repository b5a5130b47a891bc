/** One token bucket with lazy refill (crates/common/src/rate_limiter.rs).

    Tokens and time are real numbers; the instant of every call is an argument.
 */
module TokenBuckets {
  import opened Common

  datatype BandwidthLimit = BandwidthLimit(bytesPerSecond: u64, burstBytes: u64)

  datatype Bucket = Bucket(tokens: real, maxTokens: real, refillRate: real, lastRefill: real) {
    ghost predicate Valid() {
      0.0 <= tokens <= maxTokens && refillRate >= 0.0
    }
  }

  function MinReal(a: real, b: real): real {
    if a <= b then a else b
  }

  function NewBucket(limit: BandwidthLimit, now: real): (b: Bucket)
    ensures b.Valid()
  {
    Bucket(limit.burstBytes as real, limit.burstBytes as real, limit.bytesPerSecond as real, now)
  }

  /** Tokens earned in `elapsed` seconds. */
  function Gain(rate: real, elapsed: real): real {
    rate * elapsed
  }

  /** duration_since saturates at zero. */
  function Refill(b: Bucket, now: real): Bucket {
    var elapsed := now - b.lastRefill;
    if elapsed > 0.0 then b.(tokens := MinReal(b.tokens + Gain(b.refillRate, elapsed), b.maxTokens), lastRefill := now)
    else b
  }

  predicate CanConsume(b: Bucket, bytes: u64, now: real) {
    Refill(b, now).tokens >= bytes as real
  }

  function Consumed(b: Bucket, bytes: u64, now: real): Bucket {
    var r := Refill(b, now);
    if CanConsume(b, bytes, now) then r.(tokens := r.tokens - bytes as real) else r
  }

  /** The wait until enough tokens are there; None where the division by a zero rate makes
      Duration::from_secs_f64 panic. */
  function WaitTime(b: Bucket, bytes: u64, now: real): Option<real> {
    var r := Refill(b, now);
    if r.tokens >= bytes as real then Some(0.0)
    else if r.refillRate == 0.0 then None
    else Some((bytes as real - r.tokens) / r.refillRate)
  }

  /** Seconds in nanoseconds. */
  function Ticks(seconds: real): real {
    seconds * 1_000_000_000.0
  }

  /** Duration::from_secs_f64: whole nanoseconds, halves to the even number. */
  function Nanos(seconds: real): int {
    var n := Ticks(seconds).Floor;
    var rest := Ticks(seconds) - n as real;
    if rest < 0.5 || (rest == 0.5 && n % 2 == 0) then n else n + 1
  }

  /** wait_time as it is returned. */
  function WaitNanos(b: Bucket, bytes: u64, now: real): Option<int> {
    match WaitTime(b, bytes, now)
    case None => None
    case Some(wait) => Some(Nanos(wait))
  }

  function Recorded(b: Bucket, bytes: u64, now: real): Bucket {
    var r := Refill(b, now);
    r.(tokens := if r.tokens - bytes as real >= 0.0 then r.tokens - bytes as real else 0.0)
  }

  function Refunded(b: Bucket, bytes: u64, now: real): Bucket {
    var r := Refill(b, now);
    r.(tokens := MinReal(r.tokens + bytes as real, r.maxTokens))
  }

  // ---------- Laws ----------

  lemma Distribute(rate: real, a: real, b: real)
    ensures Gain(rate, a + b) == Gain(rate, a) + Gain(rate, b)
  {
  }

  lemma GainNonNegative(rate: real, elapsed: real)
    requires rate >= 0.0 && elapsed >= 0.0
    ensures Gain(rate, elapsed) >= 0.0
  {
  }

  lemma RefillValid(b: Bucket, now: real)
    requires b.Valid()
    ensures Refill(b, now).Valid()
    ensures now >= b.lastRefill ==> Refill(b, now).lastRefill == now
  {
    if now > b.lastRefill {
      GainNonNegative(b.refillRate, now - b.lastRefill);
    }
  }

  /** Refilling in two steps is refilling once. */
  lemma RefillTwice(b: Bucket, t: real, u: real)
    requires b.Valid() && b.lastRefill <= t <= u
    ensures Refill(Refill(b, t), u) == Refill(b, u)
  {
    RefillValid(b, t);
    if b.lastRefill < t < u {
      Distribute(b.refillRate, t - b.lastRefill, u - t);
      assert (t - b.lastRefill) + (u - t) == u - b.lastRefill;
      GainNonNegative(b.refillRate, u - t);
    }
  }

  /** b is a bucket like `original` that has been charged `bytes`, which a refund would give back. */
  ghost predicate Owes(original: Bucket, b: Bucket, bytes: u64) {
    && b.maxTokens == original.maxTokens && b.refillRate == original.refillRate && b.lastRefill == original.lastRefill
    && original.tokens == MinReal(b.tokens + bytes as real, b.maxTokens)
  }

  lemma ConsumedOwes(b: Bucket, bytes: u64, now: real)
    requires b.Valid() && CanConsume(b, bytes, now)
    ensures Owes(Refill(b, now), Consumed(b, bytes, now), bytes) && Consumed(b, bytes, now).Valid()
  {
    RefillValid(b, now);
  }

  /** The debt stays the same while both refill, although both are capped. */
  lemma DebtSurvivesRefill(original: Bucket, b: Bucket, bytes: u64, now: real)
    requires Owes(original, b, bytes) && b.Valid()
    ensures Owes(Refill(original, now), Refill(b, now), bytes)
  {
    if now > b.lastRefill {
      GainNonNegative(b.refillRate, now - b.lastRefill);
    }
  }

  lemma RefundSettles(original: Bucket, b: Bucket, bytes: u64, now: real)
    requires Owes(original, b, bytes) && b.Valid()
    ensures Refunded(b, bytes, now) == Refill(original, now)
  {
    DebtSurvivesRefill(original, b, bytes, now);
  }

  /** After a wait the bucket can pay exactly when the wait covers the deficit and the burst the amount. */
  lemma WaitIsExact(b: Bucket, bytes: u64, t: real, u: real)
    requires b.Valid() && b.lastRefill <= t <= u && WaitTime(b, bytes, t).Some?
    ensures CanConsume(b, bytes, u) <==> u >= t + WaitTime(b, bytes, t).value && bytes as real <= b.maxTokens
    ensures WaitTime(b, bytes, t).value == 0.0 <==> CanConsume(b, bytes, t)
    ensures WaitTime(b, bytes, t).value >= 0.0
  {
    var r := Refill(b, t);
    RefillValid(b, t);
    RefillTwice(b, t, u);
    GainNonNegative(r.refillRate, u - t);
    if r.tokens < bytes as real {
      var deficit := bytes as real - r.tokens;
      var d := deficit / r.refillRate;
      assert d > 0.0 && Gain(r.refillRate, d) == deficit;
      Monotone(r.refillRate, u - t, d);
    }
  }

  lemma NanosNearest(seconds: real)
    ensures Ticks(seconds) - 0.5 <= Nanos(seconds) as real <= Ticks(seconds) + 0.5
    ensures Nanos(seconds) as real == Ticks(seconds) - 0.5 || Nanos(seconds) as real == Ticks(seconds) + 0.5 ==>
              Nanos(seconds) % 2 == 0
    ensures seconds >= 0.0 ==> Nanos(seconds) >= 0 && (Nanos(seconds) == 0 <==> Ticks(seconds) <= 0.5)
  {
    var n := Ticks(seconds).Floor;
    assert n as real <= Ticks(seconds) < n as real + 1.0;
  }

  lemma Monotone(rate: real, x: real, y: real)
    requires rate > 0.0
    ensures Gain(rate, x) >= Gain(rate, y) <==> x >= y
  {
    Distribute(rate, x - y, y);
    assert (x - y) + y == x;
    if x < y {
      GainNonNegative(rate, y - x);
      assert Gain(rate, y - x) > 0.0;
    } else {
      GainNonNegative(rate, x - y);
    }
  }

  // ---------- The bucket in place ----------

  class TokenBucket {
    var tokens: real
    const maxTokens: real
    const refillRate: real
    var lastRefill: real

    ghost function Value(): Bucket
      reads this
    {
      Bucket(tokens, maxTokens, refillRate, lastRefill)
    }

    constructor (limit: BandwidthLimit, now: real)
      ensures Value() == NewBucket(limit, now)
    {
      tokens := limit.burstBytes as real;
      maxTokens := limit.burstBytes as real;
      refillRate := limit.bytesPerSecond as real;
      lastRefill := now;
    }

    method RefillNow(now: real)
      modifies this
      ensures Value() == Refill(old(Value()), now)
    {
      var elapsed := now - lastRefill;
      if elapsed > 0.0 {
        tokens := MinReal(tokens + Gain(refillRate, elapsed), maxTokens);
        lastRefill := now;
      }
    }

    method TryConsume(bytes: u64, now: real) returns (ok: bool)
      modifies this
      ensures Value() == Consumed(old(Value()), bytes, now)
      ensures ok == CanConsume(old(Value()), bytes, now)
    {
      RefillNow(now);
      ok := tokens >= bytes as real;
      if ok {
        tokens := tokens - bytes as real;
      }
    }

    method ComputeWait(bytes: u64, now: real) returns (wait: Option<int>)
      modifies this
      ensures Value() == Refill(old(Value()), now)
      ensures wait == WaitNanos(old(Value()), bytes, now)
    {
      RefillNow(now);
      if tokens >= bytes as real {
        wait := Some(0);
      } else if refillRate == 0.0 {
        wait := None;
      } else {
        var deficit := bytes as real - tokens;
        wait := Some(Nanos(deficit / refillRate));
      }
    }

    method RecordTransfer(bytes: u64, now: real)
      modifies this
      ensures Value() == Recorded(old(Value()), bytes, now)
    {
      RefillNow(now);
      tokens := if tokens - bytes as real >= 0.0 then tokens - bytes as real else 0.0;
    }

    /** The refund of a failed acquire. */
    method Refund(bytes: u64, now: real)
      modifies this
      ensures Value() == Refunded(old(Value()), bytes, now)
    {
      RefillNow(now);
      tokens := MinReal(tokens + bytes as real, maxTokens);
    }
  }
}
