/** Fair scheduling between clients (FairScheduler in crates/server/src/qos.rs).

    Instants are nanoseconds.  `order` is the order in which the client map is iterated.
 */
module Scheduling {
  import opened Common

  const SECOND: nat := 1_000_000_000

  datatype ClientState = ClientState(bytesTransferred: nat, windowStart: nat, lastServed: nat)

  datatype Scheduler = Scheduler(clients: map<string, ClientState>, quota: nat, roundRobinIndex: nat)

  /** maybe_reset_window */
  function Refreshed(c: ClientState, now: nat): ClientState {
    if now - c.windowStart > SECOND then c.(bytesTransferred := 0, windowStart := now) else c
  }

  /** The client is looked up and its window reset if due. */
  function Touched(s: Scheduler, id: string, now: nat): Scheduler {
    if id in s.clients then s.(clients := s.clients[id := Refreshed(s.clients[id], now)]) else s
  }

  /** is_within_quota; unknown clients are. */
  predicate WithinQuota(s: Scheduler, id: string, now: nat) {
    id in s.clients ==> Refreshed(s.clients[id], now).bytesTransferred < s.quota
  }

  function Transferred(s: Scheduler, id: string, bytes: nat, now: nat): Scheduler {
    if id in s.clients then
      var c := Refreshed(s.clients[id], now);
      s.(clients := s.clients[id := c.(bytesTransferred := c.bytesTransferred + bytes, lastServed := now)])
    else s
  }

  ghost predicate IsOrder(s: Scheduler, order: seq<string>) {
    && (forall id :: id in order <==> id in s.clients)
    && (forall i, j :: 0 <= i < j < |order| ==> order[i] != order[j])
  }

  /** The first of order[..n] that was served least recently. */
  function LeastServed(s: Scheduler, order: seq<string>, n: nat): string
    requires 0 < n <= |order| && forall id :: id in order ==> id in s.clients
  {
    if n == 1 then order[0]
    else
      var best := LeastServed(s, order, n - 1);
      if best in s.clients && s.clients[order[n - 1]].lastServed < s.clients[best].lastServed then order[n - 1]
      else best
  }

  /** The position visited at turn i. */
  function Position(index: nat, i: nat, n: nat): (p: nat)
    requires n > 0
    ensures p < n
  {
    (index + i) % n
  }

  /** The round-robin loop from turn i on. */
  function SelectFrom(s: Scheduler, order: seq<string>, now: nat, i: nat): (Scheduler, string)
    requires order != [] && i <= |order| && forall id :: id in order ==> id in s.clients
    decreases |order| - i
  {
    if i == |order| then (s, LeastServed(s, order, |order|))
    else
      var idx := Position(s.roundRobinIndex, i, |order|);
      var touched := Touched(s, order[idx], now);
      if WithinQuota(touched, order[idx], now) then
        (touched.(roundRobinIndex := Position(idx, 1, |order|)), order[idx])
      else SelectFrom(touched, order, now, i + 1)
  }

  function Select(s: Scheduler, order: seq<string>, now: nat): (Scheduler, Option<string>)
    requires forall id :: id in order ==> id in s.clients
  {
    if order == [] then (s, None)
    else
      var (after, id) := SelectFrom(s, order, now, 0);
      (after, Some(id))
  }

  // ---------- One selection ----------

  /** Turns from the round-robin index to position p. */
  function Distance(index: nat, p: nat, n: nat): nat
    requires n > 0
  {
    (p + n - index % n) % n
  }

  lemma TurnReaches(index: nat, p: nat, n: nat, i: nat)
    requires p < n && i < n
    ensures Distance(index, p, n) < n
    ensures Position(index, i, n) == p <==> i == Distance(index, p, n)
    ensures i < Distance(index, p, n) ==>
              Distance(Position(Position(index, i, n), 1, n), p, n) == Distance(index, p, n) - i - 1
  {
    var r := index % n;
    Wrapped(index, i, n);
    SmallMod(p + n - r, n);
    SmallMod(r + i, n);
    var idx := (index + i) % n;
    SmallMod(idx + 1, n);
    var next := (idx + 1) % n;
    SmallMod(next, n);
    SmallMod(p + n - next, n);
  }

  lemma Wrapped(index: nat, i: nat, n: nat)
    requires n > 0
    ensures (index + i) % n == (index % n + i) % n
  {
    var q := index / n;
    assert index == n * q + index % n;
    AddMultiple(index % n + i, q, n);
    assert index + i == index % n + i + n * q;
  }

  lemma {:induction false} AddMultiple(x: nat, q: nat, n: nat)
    requires n > 0
    ensures (x + n * q) % n == x % n
    decreases q
  {
    if q > 0 {
      AddMultiple(x, q - 1, n);
      assert x + n * q == (x + n * (q - 1)) + n;
      AddOnce(x + n * (q - 1), n);
    }
  }

  lemma AddOnce(x: nat, n: nat)
    requires n > 0
    ensures (x + n) % n == x % n
  {
    var q, r := x / n, x % n;
    assert x == n * q + r;
    assert x + n == n * (q + 1) + r;
    ModUnique(x + n, q + 1, r, n);
  }

  lemma ModUnique(x: nat, q: nat, r: nat, n: nat)
    requires n > 0 && r < n && x == n * q + r
    ensures x % n == r
  {
    var q', r' := x / n, x % n;
    assert x == n * q' + r';
    if q > q' {
      ProductGap(n, q, q');
    } else if q < q' {
      ProductGap(n, q', q);
    }
  }

  lemma ProductGap(n: nat, a: nat, b: nat)
    requires a > b
    ensures n * a >= n * b + n
  {
    var k := a - b - 1;
    assert n * a == n * b + n + n * k;
  }

  lemma SmallMod(x: nat, n: nat)
    requires n > 0 && x < 2 * n
    ensures x % n == if x < n then x else x - n
  {
    if x >= n {
      ModUnique(x, 1, x - n, n);
    } else {
      ModUnique(x, 0, x, n);
    }
  }

  /** Touching a client changes nobody's standing at that instant. */
  lemma TouchedKeeps(s: Scheduler, id: string, now: nat, other: string)
    ensures WithinQuota(Touched(s, id, now), other, now) <==> WithinQuota(s, other, now)
    ensures Touched(s, id, now).clients.Keys == s.clients.Keys
    ensures other in s.clients ==> Touched(s, id, now).clients[other].lastServed == s.clients[other].lastServed
  {
  }

  /** While somebody at turn d or later in the cycle is within quota, the loop picks a client within
      quota no later than turn d and moves the index just behind it. */
  lemma {:induction false} SelectFromFinds(s: Scheduler, order: seq<string>, now: nat, i: nat, d: nat)
    returns (turn: nat)
    requires order != [] && i <= d < |order| && forall id :: id in order ==> id in s.clients
    requires WithinQuota(s, order[Position(s.roundRobinIndex, d, |order|)], now)
    ensures i <= turn <= d
    ensures var (after, id) := SelectFrom(s, order, now, i);
            var idx := Position(s.roundRobinIndex, turn, |order|);
            && id == order[idx] && WithinQuota(s, id, now)
            && after.roundRobinIndex == Position(idx, 1, |order|)
            && after.clients.Keys == s.clients.Keys && after.quota == s.quota
    decreases |order| - i
  {
    var idx := Position(s.roundRobinIndex, i, |order|);
    var touched := Touched(s, order[idx], now);
    forall other
      ensures WithinQuota(touched, other, now) <==> WithinQuota(s, other, now)
    {
      TouchedKeeps(s, order[idx], now, other);
    }
    if WithinQuota(touched, order[idx], now) {
      turn := i;
    } else {
      turn := SelectFromFinds(touched, order, now, i + 1, d);
    }
  }

  lemma {:induction false} SelectFromFallsBack(s: Scheduler, order: seq<string>, now: nat, i: nat)
    requires order != [] && i <= |order| && forall id :: id in order ==> id in s.clients
    requires forall id :: id in order ==> !WithinQuota(s, id, now)
    ensures var (after, id) := SelectFrom(s, order, now, i);
            && id in order && after.roundRobinIndex == s.roundRobinIndex
            && after.clients.Keys == s.clients.Keys && after.quota == s.quota
            && forall other :: other in order ==> s.clients[id].lastServed <= s.clients[other].lastServed
    decreases |order| - i
  {
    if i == |order| {
      LeastServedExact(s, order, |order|);
    } else {
      var idx := Position(s.roundRobinIndex, i, |order|);
      var touched := Touched(s, order[idx], now);
      forall other
        ensures WithinQuota(touched, other, now) <==> WithinQuota(s, other, now)
        ensures other in s.clients ==>
                  other in touched.clients && touched.clients[other].lastServed == s.clients[other].lastServed
      {
        TouchedKeeps(s, order[idx], now, other);
      }
      SelectFromFallsBack(touched, order, now, i + 1);
    }
  }

  lemma {:induction false} LeastServedExact(s: Scheduler, order: seq<string>, n: nat)
    requires 0 < n <= |order| && forall id :: id in order ==> id in s.clients
    ensures LeastServed(s, order, n) in order
    ensures forall i :: 0 <= i < n ==> s.clients[LeastServed(s, order, n)].lastServed <= s.clients[order[i]].lastServed
    ensures exists p :: 0 <= p < n && order[p] == LeastServed(s, order, n)
                        && forall i :: 0 <= i < p ==> s.clients[order[i]].lastServed > s.clients[order[p]].lastServed
  {
    if n > 1 {
      LeastServedExact(s, order, n - 1);
    }
  }

  /** A selection never prefers a client over quota to one within; when all are over quota it takes
      one that was served least recently. */
  lemma SelectionIsFair(s: Scheduler, order: seq<string>, now: nat)
    requires IsOrder(s, order) && order != []
    ensures var r := Select(s, order, now).1;
            && r.Some? && r.value in s.clients
            && (WithinQuota(s, r.value, now) <==> exists id :: id in s.clients && WithinQuota(s, id, now))
            && (!WithinQuota(s, r.value, now) ==>
                  forall id :: id in s.clients ==> s.clients[r.value].lastServed <= s.clients[id].lastServed)
  {
    if id :| id in s.clients && WithinQuota(s, id, now) {
      var p :| 0 <= p < |order| && order[p] == id;
      var d := Distance(s.roundRobinIndex, p, |order|);
      TurnReaches(s.roundRobinIndex, p, |order|, 0);
      TurnReaches(s.roundRobinIndex, p, |order|, d);
      var turn := SelectFromFinds(s, order, now, 0, d);
    } else {
      SelectFromFallsBack(s, order, now, 0);
    }
  }

  // ---------- Bounded waiting ----------

  datatype Event = Transfer(id: string, bytes: nat, now: nat) | Query(id: string, now: nat) | Pick(now: nat)

  function Step(s: Scheduler, order: seq<string>, e: Event): Scheduler
    requires forall id :: id in order ==> id in s.clients
  {
    match e
    case Transfer(id, bytes, now) => Transferred(s, id, bytes, now)
    case Query(id, now) => Touched(s, id, now)
    case Pick(now) => Select(s, order, now).0
  }

  function Picks(events: seq<Event>): nat {
    if events == [] then 0 else (if events[0].Pick? then 1 else 0) + Picks(events[1..])
  }

  lemma StepKeepsClients(s: Scheduler, order: seq<string>, e: Event)
    requires IsOrder(s, order)
    ensures IsOrder(Step(s, order, e), order)
    ensures Step(s, order, e).clients.Keys == s.clients.Keys
    ensures !e.Pick? ==> Step(s, order, e).roundRobinIndex == s.roundRobinIndex
  {
    if e.Pick? && order != [] {
      if id :| id in order && WithinQuota(s, id, e.now) {
        var p :| 0 <= p < |order| && order[p] == id;
        var d := Distance(s.roundRobinIndex, p, |order|);
        TurnReaches(s.roundRobinIndex, p, |order|, 0);
        TurnReaches(s.roundRobinIndex, p, |order|, d);
        var turn := SelectFromFinds(s, order, e.now, 0, d);
      } else {
        SelectFromFallsBack(s, order, e.now, 0);
      }
    }
  }

  /** The clients returned by the selections of a run, in order. */
  ghost function Selected(s: Scheduler, order: seq<string>, events: seq<Event>): seq<string>
    requires IsOrder(s, order) && order != []
    decreases |events|
  {
    if events == [] then []
    else
      StepKeepsClients(s, order, events[0]);
      (if events[0].Pick? then [Select(s, order, events[0].now).1.value] else [])
      + Selected(Step(s, order, events[0]), order, events[1..])
  }

  /** The client is within quota at every selection of the run. */
  ghost predicate StaysWithin(s: Scheduler, order: seq<string>, events: seq<Event>, id: string)
    requires IsOrder(s, order)
    decreases |events|
  {
    events == []
    || (StepKeepsClients(s, order, events[0]);
        && (events[0].Pick? ==> WithinQuota(s, id, events[0].now))
        && StaysWithin(Step(s, order, events[0]), order, events[1..], id))
  }

  /** A client that stays within quota is returned no later than its cyclic distance from the
      round-robin index, whatever transfers and queries happen in between. */
  lemma {:induction false} BoundedWaiting(s: Scheduler, order: seq<string>, events: seq<Event>, p: nat)
    requires IsOrder(s, order) && p < |order| && StaysWithin(s, order, events, order[p])
    requires Picks(events) > Distance(s.roundRobinIndex, p, |order|)
    ensures order[p] in Selected(s, order, events)
    decreases |events|
  {
    var e, d := events[0], Distance(s.roundRobinIndex, p, |order|);
    StepKeepsClients(s, order, e);
    if e.Pick? {
      TurnReaches(s.roundRobinIndex, p, |order|, 0);
      TurnReaches(s.roundRobinIndex, p, |order|, d);
      var turn := SelectFromFinds(s, order, e.now, 0, d);
      TurnReaches(s.roundRobinIndex, p, |order|, turn);
      if turn < d {
        BoundedWaiting(Step(s, order, e), order, events[1..], p);
      }
    } else {
      BoundedWaiting(Step(s, order, e), order, events[1..], p);
    }
  }

  /** In particular within n selections for n clients. */
  lemma ServedWithinOneRound(s: Scheduler, order: seq<string>, events: seq<Event>, id: string)
    requires IsOrder(s, order) && id in s.clients && StaysWithin(s, order, events, id)
    requires Picks(events) >= |order|
    ensures id in Selected(s, order, events)
  {
    var p :| 0 <= p < |order| && order[p] == id;
    TurnReaches(s.roundRobinIndex, p, |order|, 0);
    BoundedWaiting(s, order, events, p);
  }
}
