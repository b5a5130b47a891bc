/** Whole try_acquire and record calls of the rate limiter with no other call in between. */
module SingleCalls {
  import opened Common
  import opened TokenBuckets
  import opened RateLimits

  /** The clock reading in the lock section of a level. */
  type Readings = Key -> real

  /** Charges keys[i..] until one cannot pay; returns the index of that one, or |keys|. */
  function TakeFrom(limits: Limits, bs: Buckets, keys: seq<Key>, i: nat, bytes: u64, at: Readings): (r: (Buckets, nat))
    requires LegalKeys(limits, keys) && i <= |keys|
    ensures i <= r.1 <= |keys|
    decreases |keys| - i
  {
    if i == |keys| then (bs, i)
    else if CanTake(limits, bs, keys[i], bytes, at(keys[i])) then
      TakeFrom(limits, Take(limits, bs, keys[i], bytes, at(keys[i])), keys, i + 1, bytes, at)
    else (Take(limits, bs, keys[i], bytes, at(keys[i])), i)
  }

  /** Refunds keys[j..n]. */
  function GiveBackFrom(bs: Buckets, keys: seq<Key>, j: nat, n: nat, bytes: u64, at: Readings): Buckets
    requires j <= n <= |keys|
    decreases n - j
  {
    if j == n then bs else GiveBackFrom(GiveBack(bs, keys[j], bytes, at(keys[j])), keys, j + 1, n, bytes, at)
  }

  /** try_acquire with keys[..i] already charged: charge the rest, or refund all that was charged. */
  function AcquireFrom(limits: Limits, bs: Buckets, keys: seq<Key>, i: nat, bytes: u64, at: Readings,
                       refundAt: Readings): (Buckets, bool)
    requires LegalKeys(limits, keys) && i <= |keys|
  {
    var (charged, n) := TakeFrom(limits, bs, keys, i, bytes, at);
    if n == |keys| then (charged, true) else (GiveBackFrom(charged, keys, 0, n, bytes, refundAt), false)
  }

  function TryAcquire(limits: Limits, bs: Buckets, keys: seq<Key>, bytes: u64, at: Readings,
                      refundAt: Readings): (Buckets, bool)
    requires LegalKeys(limits, keys)
  {
    AcquireFrom(limits, bs, keys, 0, bytes, at, refundAt)
  }

  lemma AcquireStep(limits: Limits, bs: Buckets, keys: seq<Key>, i: nat, bytes: u64, at: Readings, refundAt: Readings)
    requires LegalKeys(limits, keys) && i < |keys|
    ensures var k := keys[i];
            var charged := Take(limits, bs, k, bytes, at(k));
            AcquireFrom(limits, bs, keys, i, bytes, at, refundAt)
            == if CanTake(limits, bs, k, bytes, at(k)) then
                 AcquireFrom(limits, charged, keys, i + 1, bytes, at, refundAt)
               else (GiveBackFrom(charged, keys, 0, i, bytes, refundAt), false)
  {
  }

  /** The refunds of at most two levels, written out. */
  lemma GiveBackUpToTwo(bs: Buckets, keys: seq<Key>, n: nat, bytes: u64, at: Readings)
    requires n <= |keys| && n <= 2
    ensures GiveBackFrom(bs, keys, 0, n, bytes, at)
            == var one := if n >= 1 then GiveBack(bs, keys[0], bytes, at(keys[0])) else bs;
               if n >= 2 then GiveBack(one, keys[1], bytes, at(keys[1])) else one
  {
    if n >= 1 {
      var one := GiveBack(bs, keys[0], bytes, at(keys[0]));
      assert GiveBackFrom(bs, keys, 0, n, bytes, at) == GiveBackFrom(one, keys, 1, n, bytes, at);
    }
  }

  predicate Same(bs: Buckets, bs': Buckets, k: Key) {
    (k in bs' <==> k in bs) && (k in bs ==> bs'[k] == bs[k])
  }

  // ---------- What the loops do, level by level ----------

  lemma {:induction false} TakeFromElsewhere(limits: Limits, bs: Buckets, keys: seq<Key>, i: nat, bytes: u64,
                                             at: Readings, k: Key)
    requires LegalKeys(limits, keys) && i <= |keys| && k !in keys[i..]
    ensures Same(bs, TakeFrom(limits, bs, keys, i, bytes, at).0, k)
    decreases |keys| - i
  {
    if i < |keys| {
      assert keys[i..] == [keys[i]] + keys[i + 1..];
      if CanTake(limits, bs, keys[i], bytes, at(keys[i])) {
        TakeFromElsewhere(limits, Take(limits, bs, keys[i], bytes, at(keys[i])), keys, i + 1, bytes, at, k);
      }
    }
  }

  /** Levels before the stop could pay and did; the one at the stop could not; later ones are untouched. */
  lemma {:induction false} TakeFromExact(limits: Limits, bs: Buckets, keys: seq<Key>, i: nat, bytes: u64,
                                         at: Readings, j: nat)
    requires LegalKeys(limits, keys) && i <= j < |keys|
    ensures var (bs', n), k := TakeFrom(limits, bs, keys, i, bytes, at), keys[j];
            && (j < n ==> CanTake(limits, bs, k, bytes, at(k)))
            && (j == n ==> !CanTake(limits, bs, k, bytes, at(k)))
            && (j <= n ==> k in bs' && bs'[k] == Consumed(Entry(limits, bs, k, at(k)), bytes, at(k)))
            && (j > n ==> Same(bs, bs', k))
    decreases |keys| - i
  {
    if CanTake(limits, bs, keys[i], bytes, at(keys[i])) {
      var bs1 := Take(limits, bs, keys[i], bytes, at(keys[i]));
      if j == i {
        TakeFromElsewhere(limits, bs1, keys, i + 1, bytes, at, keys[i]);
      } else {
        TakeFromExact(limits, bs1, keys, i + 1, bytes, at, j);
      }
    }
  }

  lemma {:induction false} GiveBackElsewhere(bs: Buckets, keys: seq<Key>, i: nat, n: nat, bytes: u64, at: Readings,
                                             k: Key)
    requires i <= n <= |keys| && k !in keys[i..n]
    ensures Same(bs, GiveBackFrom(bs, keys, i, n, bytes, at), k)
    decreases n - i
  {
    if i < n {
      assert keys[i..n] == [keys[i]] + keys[i + 1..n];
      GiveBackElsewhere(GiveBack(bs, keys[i], bytes, at(keys[i])), keys, i + 1, n, bytes, at, k);
    }
  }

  lemma {:induction false} GiveBackExact(limits: Limits, bs: Buckets, keys: seq<Key>, i: nat, n: nat, bytes: u64,
                                         at: Readings, j: nat)
    requires LegalKeys(limits, keys) && i <= j < n <= |keys| && keys[j] in bs
    ensures var bs' := GiveBackFrom(bs, keys, i, n, bytes, at);
            keys[j] in bs' && bs'[keys[j]] == Refunded(bs[keys[j]], bytes, at(keys[j]))
    decreases n - i
  {
    var bs1 := GiveBack(bs, keys[i], bytes, at(keys[i]));
    if j == i {
      GiveBackElsewhere(bs1, keys, i + 1, n, bytes, at, keys[i]);
    } else {
      GiveBackExact(limits, bs1, keys, i + 1, n, bytes, at, j);
    }
  }

  // ---------- record ----------

  /** What level k is worth at instant t when nothing else happens: the value that plain refilling
      gives, or a fresh bucket. */
  function ValueAt(limits: Limits, bs: Buckets, k: Key, t: real): Bucket
    requires limits.Of(k).Some?
  {
    Refill(Entry(limits, bs, k, t), t)
  }

  /** record on keys[i..]. */
  function LogFrom(limits: Limits, bs: Buckets, keys: seq<Key>, i: nat, bytes: u64, at: Readings): Buckets
    requires LegalKeys(limits, keys) && i <= |keys|
    decreases |keys| - i
  {
    if i == |keys| then bs else LogFrom(limits, Log(limits, bs, keys[i], bytes, at(keys[i])), keys, i + 1, bytes, at)
  }

  lemma LogStep(limits: Limits, bs: Buckets, keys: seq<Key>, i: nat, bytes: u64, at: Readings)
    requires LegalKeys(limits, keys) && i < |keys|
    ensures LogFrom(limits, bs, keys, i, bytes, at)
            == LogFrom(limits, Log(limits, bs, keys[i], bytes, at(keys[i])), keys, i + 1, bytes, at)
  {
  }

  lemma {:induction false} LogFromElsewhere(limits: Limits, bs: Buckets, keys: seq<Key>, i: nat, bytes: u64,
                                            at: Readings, k: Key)
    requires LegalKeys(limits, keys) && i <= |keys| && k !in keys[i..]
    ensures Same(bs, LogFrom(limits, bs, keys, i, bytes, at), k)
    decreases |keys| - i
  {
    if i < |keys| {
      assert keys[i..] == [keys[i]] + keys[i + 1..];
      LogFromElsewhere(limits, Log(limits, bs, keys[i], bytes, at(keys[i])), keys, i + 1, bytes, at, k);
    }
  }

  /** record leaves every level that applies with what it is worth at its reading less the bytes; what
      the bucket cannot cover is forgotten, not kept as a debt. */
  lemma {:induction false} RecordExact(limits: Limits, bs: Buckets, keys: seq<Key>, i: nat, bytes: u64, at: Readings,
                                       j: nat)
    requires LegalKeys(limits, keys) && i <= j < |keys|
    ensures var bs', k := LogFrom(limits, bs, keys, i, bytes, at), keys[j];
            var worth := ValueAt(limits, bs, k, at(k));
            && k in bs' && bs'[k] == worth.(tokens := bs'[k].tokens)
            && (worth.tokens >= bytes as real ==> bs'[k].tokens == worth.tokens - bytes as real)
            && (worth.tokens <= bytes as real ==> bs'[k].tokens == 0.0)
    decreases |keys| - i
  {
    var k := keys[i];
    var bs1 := Log(limits, bs, k, bytes, at(k));
    if j == i {
      LogFromElsewhere(limits, bs1, keys, i + 1, bytes, at, k);
    } else {
      RecordExact(limits, bs1, keys, i + 1, bytes, at, j);
    }
  }

  // ---------- A failed acquire is a no-op ----------

  lemma EntryFits(limits: Limits, bs: Buckets, k: Key, now: real)
    requires ValidBuckets(limits, bs, now) && limits.Of(k).Some?
    ensures Fits(limits, Entry(limits, bs, k, now), k, now)
  {
  }

  /** Looking at a level early does not change what it is worth later. */
  lemma ValueComposes(limits: Limits, bs: Buckets, k: Key, t: real, u: real)
    requires ValidBuckets(limits, bs, t) && limits.Of(k).Some? && t <= u
    ensures Refill(ValueAt(limits, bs, k, t), u) == ValueAt(limits, bs, k, u)
  {
    EntryFits(limits, bs, k, t);
    RefillTwice(Entry(limits, bs, k, t), t, u);
    if k !in bs && t < u {
      GainNonNegative(limits.Of(k).value.bytesPerSecond as real, u - t);
    }
  }

  /** Charging and refunding a level that could pay leaves its plain value. */
  lemma ChargeAndRefund(limits: Limits, bs: Buckets, k: Key, bytes: u64, t: real, u: real)
    requires ValidBuckets(limits, bs, t) && limits.Of(k).Some? && t <= u
    requires CanTake(limits, bs, k, bytes, t)
    ensures Refunded(Consumed(Entry(limits, bs, k, t), bytes, t), bytes, u) == ValueAt(limits, bs, k, u)
  {
    var b := Entry(limits, bs, k, t);
    EntryFits(limits, bs, k, t);
    ConsumedOwes(b, bytes, t);
    RefundSettles(Refill(b, t), Consumed(b, bytes, t), bytes, u);
    ValueComposes(limits, bs, k, t, u);
  }

  /** The readings follow the order of the sections: charges down the levels, then refunds. */
  ghost predicate InOrder(keys: seq<Key>, start: real, at: Readings, refundAt: Readings, end: real) {
    forall j :: 0 <= j < |keys| ==> start <= at(keys[j]) <= refundAt(keys[j]) <= end
  }

  /** After a failed try_acquire every level is worth, at every later instant, exactly what plain
      refilling would have made it, although the charge and the refund are both capped. */
  lemma FailedAcquireIsNoOp(limits: Limits, bs: Buckets, keys: seq<Key>, bytes: u64, at: Readings, refundAt: Readings,
                            start: real, end: real, k: Key, t: real)
    requires LegalKeys(limits, keys) && ValidBuckets(limits, bs, start)
    requires InOrder(keys, start, at, refundAt, end) && end <= t && start <= t
    requires limits.Of(k).Some?
    requires !TryAcquire(limits, bs, keys, bytes, at, refundAt).1
    ensures ValueAt(limits, TryAcquire(limits, bs, keys, bytes, at, refundAt).0, k, t) == ValueAt(limits, bs, k, t)
  {
    var (charged, n) := TakeFrom(limits, bs, keys, 0, bytes, at);
    var after := GiveBackFrom(charged, keys, 0, n, bytes, refundAt);
    if j :| 0 <= j < |keys| && keys[j] == k {
      TakeFromExact(limits, bs, keys, 0, bytes, at, j);
      if j < n {
        GiveBackExact(limits, charged, keys, 0, n, bytes, refundAt, j);
        ChargeAndRefund(limits, bs, k, bytes, at(k), refundAt(k));
        ValueComposes(limits, bs, k, refundAt(k), t);
      } else {
        GiveBackElsewhere(charged, keys, 0, n, bytes, refundAt, k);
        if j == n {
          assert after[k] == ValueAt(limits, bs, k, at(k));
          ValueComposes(limits, bs, k, at(k), t);
        }
      }
    } else {
      TakeFromElsewhere(limits, bs, keys, 0, bytes, at, k);
      GiveBackElsewhere(charged, keys, 0, n, bytes, refundAt, k);
    }
  }

  // ---------- When an acquire succeeds ----------

  /** Every level can pay at its reading. */
  ghost predicate AllCanPay(limits: Limits, bs: Buckets, keys: seq<Key>, bytes: u64, at: Readings)
    requires LegalKeys(limits, keys)
  {
    forall j :: 0 <= j < |keys| ==> CanTake(limits, bs, keys[j], bytes, at(keys[j]))
  }

  lemma AcquireSucceedsExact(limits: Limits, bs: Buckets, keys: seq<Key>, bytes: u64, at: Readings, refundAt: Readings)
    requires LegalKeys(limits, keys)
    ensures TryAcquire(limits, bs, keys, bytes, at, refundAt).1 <==> AllCanPay(limits, bs, keys, bytes, at)
  {
    var n := TakeFrom(limits, bs, keys, 0, bytes, at).1;
    if n < |keys| {
      TakeFromExact(limits, bs, keys, 0, bytes, at, n);
    } else {
      forall j | 0 <= j < |keys|
        ensures CanTake(limits, bs, keys[j], bytes, at(keys[j]))
      {
        TakeFromExact(limits, bs, keys, 0, bytes, at, j);
      }
    }
  }
}
