/** The aggregator in place. */
module NotificationAggregators {
  import opened Common
  import opened Notifications

  const AGGREGATION_WINDOW_MS: nat := 100
  const MAX_PENDING_NOTIFICATIONS: nat := 50

  class NotificationAggregator {
    var pending: map<u32, Notification>
    var pendingOrder: seq<u32>
    var windowStart: Option<nat>
    /** The events since the last flush. */
    ghost var log: seq<Notification>

    ghost predicate Valid()
      reads this
    {
      && pendingOrder == FirstOrder(log)
      && (forall id :: id in pending <==> Mentions(log, id))
      && (forall id :: id in pending ==> pending[id] == LastEvent(log, id))
      && (windowStart.None? <==> log == [])
    }

    constructor ()
      ensures Valid() && log == []
    {
      pending, pendingOrder, windowStart, log := map[], [], None, [];
    }

    method Add(notification: Notification, nowMs: nat)
      requires Valid()
      modifies this
      ensures Valid() && log == old(log) + [notification]
      ensures windowStart == if old(windowStart).None? then Some(nowMs) else old(windowStart)
    {
      var id := notification.DeviceId();
      if windowStart.None? {
        windowStart := Some(nowMs);
      }
      if id !in pending {
        pendingOrder := pendingOrder + [id];
      }
      pending := pending[id := notification];
      LogGrows(log, notification);
      log := log + [notification];
    }

    /** Due when the window of 100 ms has passed or 50 devices are pending, and something is pending. */
    method ShouldFlush(nowMs: nat) returns (due: bool)
      requires Valid()
      ensures due <==> log != [] && (|FirstOrder(log)| >= 50 || nowMs - windowStart.value >= 100)
    {
      PendingSize();
      if |pending| == 0 {
        EmptyLog();
        return false;
      }
      if |pending| >= MAX_PENDING_NOTIFICATIONS {
        return true;
      }
      if windowStart.Some? {
        return nowMs - windowStart.value >= AGGREGATION_WINDOW_MS;
      }
      due := false;
    }

    /** Returns each pending device's last event in the order of first events, and starts afresh. */
    method Flush() returns (batch: Option<seq<Notification>>)
      requires Valid()
      modifies this
      ensures Valid() && log == [] && windowStart == None
      ensures batch == if old(log) == [] then None else Some(Batch(old(log)))
    {
      if pending == map[] {
        EmptyLog();
        return None;
      }
      FirstOrderExact(log);
      var notifications: seq<Notification> := [];
      for i := 0 to |pendingOrder|
        invariant |notifications| == i
        invariant forall j :: 0 <= j < i ==> notifications[j] == pending[pendingOrder[j]]
      {
        if pendingOrder[i] in pending {
          notifications := notifications + [pending[pendingOrder[i]]];
        }
      }
      assert notifications == Batch(log);
      pending := map[];
      pendingOrder := [];
      windowStart := None;
      log := [];
      batch := Some(notifications);
    }

    lemma EmptyLog()
      requires Valid() && pending == map[]
      ensures log == []
    {
      if log != [] {
        assert Mentions(log, log[0].DeviceId());
      }
    }

    lemma PendingSize()
      requires Valid()
      ensures |pending| == |pendingOrder|
    {
      FirstOrderExact(log);
      SizeOfDistinct(pendingOrder);
      assert pending.Keys == Elements(pendingOrder);
    }
  }

  function Elements(s: seq<u32>): set<u32> {
    set x | x in s
  }

  lemma {:induction false} SizeOfDistinct(s: seq<u32>)
    requires forall i, j :: 0 <= i < j < |s| ==> s[i] != s[j]
    ensures |Elements(s)| == |s|
  {
    if s != [] {
      var n := |s| - 1;
      SizeOfDistinct(s[..n]);
      assert s == s[..n] + [s[n]] && s[n] !in s[..n];
      assert Elements(s) == Elements(s[..n]) + {s[n]};
      assert s[n] !in Elements(s[..n]);
    }
  }

  lemma LogGrows(log: seq<Notification>, e: Notification)
    ensures var longer, id := log + [e], e.DeviceId();
            && FirstOrder(longer) == (if Mentions(log, id) then FirstOrder(log) else FirstOrder(log) + [id])
            && (forall x :: Mentions(longer, x) <==> Mentions(log, x) || x == id)
            && LastEvent(longer, id) == e
            && (forall x :: Mentions(log, x) && x != id ==> LastEvent(longer, x) == LastEvent(log, x))
  {
    var longer, id := log + [e], e.DeviceId();
    assert longer[..|log|] == log && longer[|log|] == e;
    assert Mentions(longer, id);
    forall x | Mentions(log, x)
      ensures Mentions(longer, x)
    {
      var i :| 0 <= i < |log| && log[i].DeviceId() == x;
      assert longer[i].DeviceId() == x;
    }
    forall x | Mentions(longer, x) && x != id
      ensures Mentions(log, x)
    {
      MentionsFront(longer, x);
    }
  }
}
