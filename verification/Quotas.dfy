/** What the quota of a client counts, and since when, over runs of the fair scheduler. */
module Quotas {
  import opened Scheduling

  function Instant(e: Event): nat {
    match e
    case Transfer(_, _, now) => now
    case Query(_, now) => now
    case Pick(now) => now
  }

  function Newer(e: Event, id: string, before: nat): nat {
    if e.Transfer? && e.id == id then e.now else before
  }

  /** The state after the events. */
  function Run(s: Scheduler, order: seq<string>, events: seq<Event>): Scheduler
    requires IsOrder(s, order)
    decreases |events|
  {
    if events == [] then s
    else
      StepKeepsClients(s, order, events[0]);
      Run(Step(s, order, events[0]), order, events[1..])
  }

  /** The bytes that the events transfer for a client. */
  function Bytes(events: seq<Event>, id: string): nat {
    if events == [] then 0
    else (if events[0].Transfer? && events[0].id == id then events[0].bytes else 0) + Bytes(events[1..], id)
  }

  // ---------- One event ----------

  /** The loop of a selection resets windows that are over and changes nothing else about a client. */
  lemma {:induction false} SelectFromTouches(s: Scheduler, order: seq<string>, now: nat, i: nat, id: string)
    requires order != [] && i <= |order| && (forall c :: c in order ==> c in s.clients) && id in s.clients
    ensures var s' := SelectFrom(s, order, now, i).0;
            && s'.quota == s.quota && id in s'.clients
            && (s'.clients[id] == s.clients[id] || s'.clients[id] == Refreshed(s.clients[id], now))
    decreases |order| - i
  {
    if i < |order| {
      var idx := Position(s.roundRobinIndex, i, |order|);
      var touched := Touched(s, order[idx], now);
      if !WithinQuota(touched, order[idx], now) {
        SelectFromTouches(touched, order, now, i + 1, id);
      }
    }
  }

  /** An event adds a transfer of the client to its window, which it may reset; any other event can only
      reset the window. */
  lemma StepTouches(s: Scheduler, order: seq<string>, e: Event, id: string)
    requires IsOrder(s, order) && id in s.clients
    ensures id in Step(s, order, e).clients && Step(s, order, e).quota == s.quota
    ensures var c, c' := s.clients[id], Step(s, order, e).clients[id];
            if e.Transfer? && e.id == id then
              c' == Refreshed(c, e.now).(bytesTransferred := Refreshed(c, e.now).bytesTransferred + e.bytes,
                                         lastServed := e.now)
            else c' == c || c' == Refreshed(c, Instant(e))
  {
    if e.Pick? && order != [] {
      SelectFromTouches(s, order, e.now, 0, id);
    }
  }

  /** A transfer or query of a client more than a second after its window began starts a new window with
      nothing counted before it; earlier ones go on counting. */
  lemma WindowRestarts(s: Scheduler, order: seq<string>, e: Event, id: string)
    requires IsOrder(s, order) && id in s.clients && !e.Pick? && e.id == id
    ensures id in Step(s, order, e).clients
    ensures var c, c', added := s.clients[id], Step(s, order, e).clients[id], Bytes([e], id);
            if Instant(e) > c.windowStart + 1_000_000_000 then
              c' == ClientState(added, Instant(e), Newer(e, id, c.lastServed))
            else c' == ClientState(c.bytesTransferred + added, c.windowStart, Newer(e, id, c.lastServed))
  {
    assert [e][1..] == [];
  }

  /** A client that is not registered is within quota, and calls for it change nothing. */
  lemma UnknownClient(s: Scheduler, order: seq<string>, e: Event, id: string, now: nat)
    requires IsOrder(s, order) && id !in s.clients && !e.Pick? && e.id == id
    ensures WithinQuota(s, id, now) && Step(s, order, e) == s
  {
    assert id !in order;
  }

  // ---------- Runs ----------

  /** Up to a second after the window began, a client is within quota exactly as long as the bytes counted
      at the beginning and those transferred since are fewer than the quota, whatever other calls come in
      between. */
  lemma {:induction false} WindowExact(s: Scheduler, order: seq<string>, events: seq<Event>, id: string, now: nat)
    requires IsOrder(s, order) && id in s.clients
    requires forall e :: e in events ==> Instant(e) <= s.clients[id].windowStart + 1_000_000_000
    requires now <= s.clients[id].windowStart + 1_000_000_000
    ensures WithinQuota(Run(s, order, events), id, now)
            <==> s.clients[id].bytesTransferred + Bytes(events, id) < s.quota
    decreases |events|
  {
    if events != [] {
      StepKeepsClients(s, order, events[0]);
      StepTouches(s, order, events[0], id);
      assert events[0] in events && forall e :: e in events[1..] ==> e in events;
      WindowExact(Step(s, order, events[0]), order, events[1..], id, now);
    }
  }

  /** The events come one after the other. */
  predicate InOrder(events: seq<Event>, start: nat) {
    events != [] ==> start <= Instant(events[0]) && InOrder(events[1..], Instant(events[0]))
  }

  /** The last transfer of the client, or `before`. */
  function LastTransfer(events: seq<Event>, id: string, before: nat): nat {
    if events == [] then before else LastTransfer(events[1..], id, Newer(events[0], id, before))
  }

  /** The window is no younger than the last transfer, unless nothing is counted. */
  predicate WindowHolds(c: ClientState, start: nat, last: nat) {
    c.windowStart <= start && (c.bytesTransferred == 0 || c.windowStart <= last)
  }

  lemma {:induction false} RunKeepsWindow(s: Scheduler, order: seq<string>, events: seq<Event>, id: string, start: nat,
                                          last: nat) returns (end: nat)
    requires IsOrder(s, order) && id in s.clients && InOrder(events, start)
    requires WindowHolds(s.clients[id], start, last) && s.clients[id].lastServed == last
    ensures var s' := Run(s, order, events);
            && s'.quota == s.quota && id in s'.clients
            && WindowHolds(s'.clients[id], end, LastTransfer(events, id, last))
            && s'.clients[id].lastServed == LastTransfer(events, id, last)
    decreases |events|
  {
    end := start;
    if events != [] {
      StepKeepsClients(s, order, events[0]);
      StepTouches(s, order, events[0], id);
      end := RunKeepsWindow(Step(s, order, events[0]), order, events[1..], id, Instant(events[0]),
                            Newer(events[0], id, last));
    }
  }

  /** A client registered with nothing counted, as register_client leaves it. */
  predicate Fresh(s: Scheduler, id: string, start: nat) {
    id in s.clients && s.clients[id] == ClientState(0, start, start)
  }

  /** More than a second after its last transfer a client is within any quota but zero again, whatever
      else has happened. */
  lemma IdleIsWithinQuota(s: Scheduler, order: seq<string>, events: seq<Event>, id: string, start: nat, now: nat)
    requires IsOrder(s, order) && Fresh(s, id, start) && InOrder(events, start)
    requires now > LastTransfer(events, id, start) + 1_000_000_000
    ensures WithinQuota(Run(s, order, events), id, now) <==> s.quota > 0
  {
    var end := RunKeepsWindow(s, order, events, id, start, start);
  }

  /** "Served least recently" goes by the transfers: that of a client's last one, or its registration. */
  lemma LastServedExact(s: Scheduler, order: seq<string>, events: seq<Event>, id: string, start: nat)
    requires IsOrder(s, order) && Fresh(s, id, start) && InOrder(events, start)
    ensures var s' := Run(s, order, events);
            id in s'.clients && s'.clients[id].lastServed == LastTransfer(events, id, start)
  {
    var end := RunKeepsWindow(s, order, events, id, start, start);
  }
}
