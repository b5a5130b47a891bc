/** A call whose lock sections no other call interrupts, in the system of concurrent calls, is the call in
    one piece. */
module UninterruptedCalls {
  import opened Common
  import opened TokenBuckets
  import opened RateLimits
  import opened SingleCalls
  import opened CheckCalls
  import opened CallLevels
  import opened Throughput

  /** The instants of the sections come one after the other. */
  ghost predicate Timed(keys: seq<Key>, at: Readings, refundAt: Readings) {
    && (forall i, j :: 0 <= i < j < |keys| ==> at(keys[i]) <= at(keys[j]) && refundAt(keys[i]) <= refundAt(keys[j]))
    && (forall i, j :: 0 <= i < |keys| && 0 <= j < |keys| ==> at(keys[i]) <= refundAt(keys[j]))
  }

  /** A section of call n. */
  predicate IsOfCall(s: Section, n: nat) {
    (s.TakeNext? || s.RefundNext?) && s.call == n
  }

  /** Call n alone takes the system from sys to these buckets and ends like this. */
  ghost predicate LeadsTo(sys: System, sections: seq<Section>, n: nat, buckets: Buckets, done: Acquire) {
    && n < |sys.acquires| && Runnable(sys, sections) && (forall s :: s in sections ==> IsOfCall(s, n))
    && Run(sys, sections).buckets == buckets && Run(sys, sections).acquires == sys.acquires[n := done]
  }

  lemma OneMore(sys: System, s: Section, sections: seq<Section>, n: nat, buckets: Buckets, done: Acquire)
    requires Enabled(sys, s) && IsOfCall(s, n) && n < |sys.acquires|
    requires LeadsTo(Next(sys, s), sections, n, buckets, done)
    requires Next(sys, s).acquires == sys.acquires[n := Next(sys, s).acquires[n]]
    ensures LeadsTo(sys, [s] + sections, n, buckets, done)
  {
    SectionThenRun(sys, s, sections);
  }

  lemma RefundStep(bs: Buckets, keys: seq<Key>, j: nat, n: nat, bytes: u64, at: Readings)
    requires j < n <= |keys|
    ensures var one := GiveBack(bs, keys[j], bytes, at(keys[j]));
            && GiveBackFrom(bs, keys, j, n, bytes, at) == GiveBackFrom(one, keys, j + 1, n, bytes, at)
            && (j + 1 == n ==> GiveBackFrom(bs, keys, j, n, bytes, at) == one)
  {
  }

  lemma {:induction false} RefundsAlone(sys: System, n: nat, a: Acquire, refundAt: Readings) returns (sections: seq<Section>)
    requires n < |sys.acquires| && sys.acquires[n] == a && a.phase.Refunding?
    requires a.refunded < a.taken < |a.keys| && sys.clock <= refundAt(a.keys[a.refunded])
    requires forall i, j :: 0 <= i < j < |a.keys| ==> refundAt(a.keys[i]) <= refundAt(a.keys[j])
    ensures LeadsTo(sys, sections, n, GiveBackFrom(sys.buckets, a.keys, a.refunded, a.taken, a.bytes, refundAt),
                    a.(refunded := a.taken, phase := Denied))
    decreases a.taken - a.refunded
  {
    var j := a.refunded;
    RefundStep(sys.buckets, a.keys, j, a.taken, a.bytes, refundAt);
    var s := RefundNext(n, refundAt(a.keys[j]));
    var sys' := Next(sys, s);
    var rest: seq<Section> := [];
    if j + 1 < a.taken {
      rest := RefundsAlone(sys', n, AfterRefund(a), refundAt);
    }
    OneMore(sys, s, rest, n, GiveBackFrom(sys.buckets, a.keys, j, a.taken, a.bytes, refundAt),
            a.(refunded := a.taken, phase := Denied));
    sections := [s] + rest;
  }

  lemma {:induction false} TakesAlone(sys: System, n: nat, a: Acquire, at: Readings, refundAt: Readings)
    returns (sections: seq<Section>, done: Acquire)
    requires n < |sys.acquires| && sys.acquires[n] == a && a.phase.Taking? && a.refunded == 0 && a.taken < |a.keys|
    requires LegalKeys(sys.limits, a.keys) && Timed(a.keys, at, refundAt) && sys.clock <= at(a.keys[a.taken])
    ensures var r := AcquireFrom(sys.limits, sys.buckets, a.keys, a.taken, a.bytes, at, refundAt);
            && LeadsTo(sys, sections, n, r.0, done) && done.keys == a.keys && done.bytes == a.bytes
            && done.phase == if r.1 then Granted else Denied
    decreases |a.keys| - a.taken
  {
    var i := a.taken;
    var k := a.keys[i];
    var s := TakeNext(n, at(k));
    var sys' := Next(sys, s);
    AcquireStep(sys.limits, sys.buckets, a.keys, i, a.bytes, at, refundAt);
    var r := AcquireFrom(sys.limits, sys.buckets, a.keys, i, a.bytes, at, refundAt);
    var rest: seq<Section> := [];
    done := sys'.acquires[n];
    if CanTake(sys.limits, sys.buckets, k, a.bytes, at(k)) {
      if i + 1 < |a.keys| {
        rest, done := TakesAlone(sys', n, AfterTake(a, true), at, refundAt);
      }
    } else if i > 0 {
      rest := RefundsAlone(sys', n, AfterTake(a, false), refundAt);
      done := a.(refunded := a.taken, phase := Denied);
    }
    OneMore(sys, s, rest, n, r.0, done);
    sections := [s] + rest;
  }

  /** Sections of one call only, beginning now, have the effect and the answer of the call in one piece. */
  lemma AloneIsCall(sys: System, client: Option<string>, device: Option<u32>, bytes: u64, at: Readings,
                    refundAt: Readings) returns (sections: seq<Section>, done: Acquire)
    requires Timed(LegalApplicable(sys.limits, client, device), at, refundAt)
    requires forall k :: Named(sys.limits, client, device, k) ==> sys.clock <= at(k)
    ensures var n, all := |sys.acquires|, [Begin(client, device, bytes)] + sections;
            var (buckets, granted) := AcquireCall(sys.limits, sys.buckets, client, device, bytes, at, refundAt);
            && (forall s :: s in sections ==> IsOfCall(s, n)) && Runnable(sys, all)
            && Run(sys, all).buckets == buckets && Run(sys, all).acquires == sys.acquires + [done]
            && done.bytes == bytes && done.keys == LegalApplicable(sys.limits, client, device)
            && done.phase == if granted then Granted else Denied
  {
    var keys, n, begin := LegalApplicable(sys.limits, client, device), |sys.acquires|, Begin(client, device, bytes);
    NamedLevels(sys.limits, client, device);
    var sys' := Next(sys, begin);
    sections, done := [], sys'.acquires[n];
    if keys != [] {
      sections, done := TakesAlone(sys', n, sys'.acquires[n], at, refundAt);
    }
    SectionThenRun(sys, begin, sections);
  }

  // ---------- record and check ----------

  function RecordSections(keys: seq<Key>, i: nat, bytes: u64, at: Readings): seq<Section>
    requires i <= |keys|
    decreases |keys| - i
  {
    if i == |keys| then []
    else [RecordOne(keys[i], bytes, at(keys[i]))] + RecordSections(keys, i + 1, bytes, at)
  }

  function CheckSections(keys: seq<Key>, i: nat, at: Readings): seq<Section>
    requires i <= |keys|
    decreases |keys| - i
  {
    if i == |keys| then [] else [CheckOne(keys[i], at(keys[i]))] + CheckSections(keys, i + 1, at)
  }

  /** The readings of keys[i..] follow the clock and one another. */
  ghost predicate Rising(keys: seq<Key>, i: nat, clock: real, at: Readings) {
    && (i < |keys| ==> clock <= at(keys[i]))
    && forall j, k :: i <= j < k < |keys| ==> at(keys[j]) <= at(keys[k])
  }

  lemma {:induction false} RecordsAlone(sys: System, keys: seq<Key>, i: nat, bytes: u64, at: Readings)
    requires LegalKeys(sys.limits, keys) && i <= |keys| && Rising(keys, i, sys.clock, at)
    ensures var sections := RecordSections(keys, i, bytes, at);
            && Runnable(sys, sections) && Run(sys, sections).acquires == sys.acquires
            && Run(sys, sections).buckets == LogFrom(sys.limits, sys.buckets, keys, i, bytes, at)
    decreases |keys| - i
  {
    if i < |keys| {
      var s := RecordOne(keys[i], bytes, at(keys[i]));
      RecordsAlone(Next(sys, s), keys, i + 1, bytes, at);
      SectionThenRun(sys, s, RecordSections(keys, i + 1, bytes, at));
      LogStep(sys.limits, sys.buckets, keys, i, bytes, at);
    }
  }

  lemma {:induction false} ChecksAlone(sys: System, keys: seq<Key>, i: nat, bytes: u64, at: Readings, longest: int)
    requires LegalKeys(sys.limits, keys) && i <= |keys| && Rising(keys, i, sys.clock, at)
    requires CheckFrom(sys.limits, sys.buckets, keys, i, bytes, at, longest).1.Some?
    ensures var sections := CheckSections(keys, i, at);
            && Runnable(sys, sections) && Run(sys, sections).acquires == sys.acquires
            && Run(sys, sections).buckets == CheckFrom(sys.limits, sys.buckets, keys, i, bytes, at, longest).0
    decreases |keys| - i
  {
    if i < |keys| {
      var s := CheckOne(keys[i], at(keys[i]));
      CheckStep(sys.limits, sys.buckets, keys, i, bytes, at, longest);
      var wait := WaitNanos(Entry(sys.limits, sys.buckets, keys[i], at(keys[i])), bytes, at(keys[i]));
      ChecksAlone(Next(sys, s), keys, i + 1, bytes, at, Longer(wait.value, longest));
      SectionThenRun(sys, s, CheckSections(keys, i + 1, at));
    }
  }

  /** The same for record, and for check where no wait panics. */
  lemma RecordAndCheckAlone(sys: System, client: Option<string>, device: Option<u32>, bytes: u64, at: Readings)
    requires Rising(LegalApplicable(sys.limits, client, device), 0, sys.clock, at)
    ensures var sections := RecordSections(LegalApplicable(sys.limits, client, device), 0, bytes, at);
            && Runnable(sys, sections) && Run(sys, sections).acquires == sys.acquires
            && Run(sys, sections).buckets == RecordCall(sys.limits, sys.buckets, client, device, bytes, at)
    ensures CheckCall(sys.limits, sys.buckets, client, device, bytes, at).1.Some? ==>
              var sections := CheckSections(LegalApplicable(sys.limits, client, device), 0, at);
              && Runnable(sys, sections) && Run(sys, sections).acquires == sys.acquires
              && Run(sys, sections).buckets == CheckCall(sys.limits, sys.buckets, client, device, bytes, at).0
  {
    var keys := LegalApplicable(sys.limits, client, device);
    RecordsAlone(sys, keys, 0, bytes, at);
    if CheckCall(sys.limits, sys.buckets, client, device, bytes, at).1.Some? {
      ChecksAlone(sys, keys, 0, bytes, at, 0);
    }
  }
}
