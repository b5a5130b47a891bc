/** The receive buffer as the client keeps it: fields updated in place by each call. */
module EndpointReceiveBuffers {
  import opened Common
  import opened ReceiveBuffer

  class EndpointReceiveBuffer {
    const maxSize: nat
    var active: bool
    var reports: seq<Report>
    var nextExpectedSeq: u64
    var highestSeq: u64
    var lastContiguousSeq: u64
    var totalReceived: nat
    var totalServed: nat
    var gapsDetected: nat
    var checksumFailures: nat
    var missingSequences: set<u64>
    var missingTimestamps: map<u64, u64>

    ghost function Snapshot(): Buffer
      reads this
    {
      Buffer(maxSize, active, reports, nextExpectedSeq, highestSeq, lastContiguousSeq, totalReceived, totalServed,
             gapsDetected, checksumFailures, Tracking(missingSequences, missingTimestamps))
    }

    constructor (maxSize: nat)
      ensures Snapshot() == New(maxSize)
    {
      this.maxSize := maxSize;
      active, reports := false, [];
      nextExpectedSeq, highestSeq, lastContiguousSeq := 0, 0, 0;
      totalReceived, totalServed, gapsDetected, checksumFailures := 0, 0, 0, 0;
      missingSequences, missingTimestamps := {}, map[];
    }

    method Activate(startSeq: u64)
      modifies this
      ensures Snapshot() == Activated(old(Snapshot()), startSeq)
    {
      nextExpectedSeq := startSeq;
      highestSeq := Pred(startSeq);
      lastContiguousSeq := Pred(startSeq);
      active := true;
      missingSequences := {};
      missingTimestamps := map[];
    }

    method Deactivate()
      modifies this
      ensures Snapshot() == Deactivated(old(Snapshot()))
    {
      active := false;
      reports := [];
      missingSequences := {};
      missingTimestamps := map[];
    }

    /** Returns (gap detected, acknowledgment due). */
    method Store(report: Report, nowUs: u64) returns (gap: bool, ack: bool)
      modifies this
      ensures Snapshot() == Stored(old(Snapshot()), report, nowUs)
      ensures gap <==> old(Accepts(Snapshot(), report)) && report.Sequence() > old(nextExpectedSeq)
      ensures ack <==>
                && old(active)
                && (!report.Verify() || gap || (report.Sequence() > old(highestSeq) && report.Sequence() % 10 == 0))
    {
      if !active {
        return false, false;
      }
      if !report.Verify() {
        checksumFailures := checksumFailures + 1;
        return false, true;
      }
      gap, ack := Admit(report, nowUs);
    }

    /** The part of store that follows the checks. */
    method Admit(report: Report, nowUs: u64) returns (gap: bool, ack: bool)
      modifies this
      ensures Snapshot() == Admitted(old(Snapshot()), report, nowUs)
      ensures gap <==> report.Sequence() > old(nextExpectedSeq)
      ensures ack <==> gap || (report.Sequence() > old(highestSeq) && report.Sequence() % 10 == 0)
    {
      var s := report.Sequence();
      gap := TrackArrival(s, nowUs);
      nextExpectedSeq := Max(nextExpectedSeq, Succ(s));
      var prevHighest := highestSeq;
      highestSeq := Max(highestSeq, s);
      UpdateLastContiguous();
      Enqueue(report);
      ack := gap || (s > prevHighest && s % 10 == 0);
    }

    /** Gap detection: what was skipped becomes missing, what arrives late no longer is. */
    method TrackArrival(s: u64, nowUs: u64) returns (gap: bool)
      modifies this`missingSequences, this`missingTimestamps, this`gapsDetected
      ensures Tracking(missingSequences, missingTimestamps) == old(Reconciled(Snapshot(), s, nowUs))
      ensures gap <==> s > nextExpectedSeq
      ensures gapsDetected == old(gapsDetected) + (if gap then 1 else 0)
    {
      gap := false;
      if s > nextExpectedSeq {
        gapsDetected := gapsDetected + 1;
        gap := true;
        TrackGap(nextExpectedSeq, s, nowUs);
      } else if s in missingSequences {
        missingSequences := missingSequences - {s};
        missingTimestamps := missingTimestamps - {s};
      }
    }

    /** Appends, dropping the oldest report when the buffer is full. */
    method Enqueue(report: Report)
      modifies this`reports, this`totalReceived
      ensures reports == Pushed(old(reports), maxSize, report)
      ensures totalReceived == old(totalReceived) + 1
    {
      if |reports| >= maxSize {
        if reports != [] {
          reports := reports[1..];
        }
      }
      reports := reports + [report];
      totalReceived := totalReceived + 1;
    }

    /** The insertion loop of store: each sequence of the gap, while there is room. */
    method TrackGap(expected: u64, s: u64, nowUs: u64)
      requires expected < s
      modifies this`missingSequences, this`missingTimestamps
      ensures Tracking(missingSequences, missingTimestamps)
              == TrackRange(old(Tracking(missingSequences, missingTimestamps)), expected, s, nowUs)
    {
      ghost var before := Tracking(missingSequences, missingTimestamps);
      for missingSeq := expected to s
        invariant Tracking(missingSequences, missingTimestamps) == TrackRange(before, expected, missingSeq, nowUs)
      {
        if |missingSequences| < MAX_MISSING_SEQUENCES {
          if missingSeq !in missingSequences {
            missingSequences := missingSequences + {missingSeq};
            missingTimestamps := missingTimestamps[missingSeq := nowUs];
          }
        }
      }
    }

    method UpdateLastContiguous()
      modifies this`lastContiguousSeq
      ensures lastContiguousSeq == Contiguous(missingSequences, highestSeq, old(lastContiguousSeq))
    {
      if missingSequences == {} {
        lastContiguousSeq := highestSeq;
      } else {
        var minMissing := Minimum(missingSequences);
        lastContiguousSeq := Max(lastContiguousSeq, Pred(minMissing));
      }
    }

    /** Removes expired sequences and returns the remaining ones in ascending order. */
    method GetMissingSequences(nowUs: u64) returns (result: seq<u64>)
      modifies this
      ensures Snapshot() == Expired(old(Snapshot()), nowUs)
      ensures forall i, j :: 0 <= i < j < |result| ==> result[i] < result[j]
      ensures forall x :: x in result <==> x in missingSequences
      ensures old(missingSequences == missingTimestamps.Keys) ==>
                forall x :: x in result <==>
                  x in old(missingTimestamps) && nowUs - old(missingTimestamps)[x] <= 100_000
    {
      var expired := CollectExpired(nowUs);
      var todo := expired;
      ghost var missing0, stamps0 := missingSequences, missingTimestamps;
      while todo != {}
        invariant todo <= expired
        invariant missingSequences == missing0 - (expired - todo)
        invariant missingTimestamps == stamps0 - (expired - todo)
        invariant active == old(active) && reports == old(reports)
        invariant nextExpectedSeq == old(nextExpectedSeq) && highestSeq == old(highestSeq)
        invariant lastContiguousSeq == old(lastContiguousSeq) && totalReceived == old(totalReceived)
        invariant totalServed == old(totalServed) && gapsDetected == old(gapsDetected)
        invariant checksumFailures == old(checksumFailures)
        decreases todo
      {
        var s :| s in todo;
        missingSequences := missingSequences - {s};
        missingTimestamps := missingTimestamps - {s};
        todo := todo - {s};
      }
      result := Sorted(missingSequences);
    }

    method CollectExpired(nowUs: u64) returns (expired: set<u64>)
      ensures expired == Stale(Tracking(missingSequences, missingTimestamps), nowUs)
      ensures forall x :: x in expired <==> x in missingTimestamps && nowUs - missingTimestamps[x] > 100_000
    {
      expired := {};
      var todo := missingTimestamps.Keys;
      while todo != {}
        invariant todo <= missingTimestamps.Keys
        invariant expired == Stale(Tracking(missingSequences, missingTimestamps), nowUs) - todo
        decreases todo
      {
        var s :| s in todo;
        if nowUs - missingTimestamps[s] > NACK_TIMEOUT_US {
          expired := expired + {s};
        }
        todo := todo - {s};
      }
    }

    /** The NACK to send, if any: the missing sequences and the mark. */
    method GenerateNackInfo(nowUs: u64) returns (nack: Option<(seq<u64>, u64)>)
      modifies this
      ensures Snapshot() == Expired(old(Snapshot()), nowUs)
      ensures nack.None? <==> missingSequences == {}
      ensures nack.Some? ==>
                && nack.value.1 == lastContiguousSeq
                && (forall i, j :: 0 <= i < j < |nack.value.0| ==> nack.value.0[i] < nack.value.0[j])
                && forall x :: x in nack.value.0 <==> x in missingSequences
    {
      var missing := GetMissingSequences(nowUs);
      if missing == [] {
        assert missingSequences == {} by {
          assert forall x :: x in missingSequences ==> x in missing;
        }
        nack := None;
      } else {
        assert missing[0] in missingSequences;
        nack := Some((missing, lastContiguousSeq));
      }
    }

    method TryTake() returns (report: Option<Report>)
      modifies this
      ensures Snapshot() == Taken(old(Snapshot()))
      ensures report == if old(reports) == [] then None else Some(old(reports)[0])
    {
      if reports == [] {
        report := None;
      } else {
        report := Some(reports[0]);
        reports := reports[1..];
        totalServed := totalServed + 1;
      }
    }
  }

  /** iter().min() */
  method Minimum(s: set<u64>) returns (m: u64)
    requires s != {}
    ensures m == Least(s)
  {
    m :| m in s;
    var todo := s - {m};
    while todo != {}
      invariant todo <= s && m in s
      invariant forall x :: x in s && x !in todo ==> m <= x
      decreases todo
    {
      var x :| x in todo;
      if x < m {
        m := x;
      }
      todo := todo - {x};
    }
    assert IsLeast(s, m);
  }

  /** iter().copied().collect() followed by sort(). */
  method Sorted(s: set<u64>) returns (result: seq<u64>)
    ensures forall i, j :: 0 <= i < j < |result| ==> result[i] < result[j]
    ensures forall x :: x in result <==> x in s
  {
    result := [];
    var rest := s;
    while rest != {}
      invariant rest <= s
      invariant forall x :: x in result <==> x in s - rest
      invariant forall x, y :: x in result && y in rest ==> x < y
      invariant forall i, j :: 0 <= i < j < |result| ==> result[i] < result[j]
      decreases rest
    {
      var m := Minimum(rest);
      forall i | 0 <= i < |result|
        ensures result[i] < m
      {
        assert result[i] in result && m in rest;
      }
      result := result + [m];
      rest := rest - {m};
    }
  }
}
