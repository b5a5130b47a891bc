/** The fair scheduler in place. */
module FairSchedulers {
  import opened Common
  import opened Scheduling

  class FairScheduler {
    var clients: map<string, ClientState>
    const clientQuota: nat
    var roundRobinIndex: nat

    ghost function Snapshot(): Scheduler
      reads this
    {
      Scheduler(clients, clientQuota, roundRobinIndex)
    }

    constructor (clientQuota: nat)
      ensures Snapshot() == Scheduler(map[], clientQuota, 0)
    {
      this.clientQuota := clientQuota;
      clients, roundRobinIndex := map[], 0;
    }

    method RegisterClient(id: string, now: nat)
      modifies this
      ensures clients == if id in old(clients) then old(clients) else old(clients)[id := ClientState(0, now, now)]
      ensures roundRobinIndex == old(roundRobinIndex)
    {
      if id !in clients {
        clients := clients[id := ClientState(0, now, now)];
      }
    }

    method UnregisterClient(id: string)
      modifies this
      ensures clients == old(clients) - {id} && roundRobinIndex == old(roundRobinIndex)
    {
      clients := clients - {id};
    }

    method IsWithinQuota(id: string, now: nat) returns (within: bool)
      modifies this
      ensures Snapshot() == Touched(old(Snapshot()), id, now)
      ensures within <==> WithinQuota(old(Snapshot()), id, now)
    {
      if id in clients {
        clients := clients[id := Refreshed(clients[id], now)];
        within := clients[id].bytesTransferred < clientQuota;
      } else {
        within := true;
      }
    }

    method RecordTransfer(id: string, bytes: nat, now: nat)
      modifies this
      ensures Snapshot() == Transferred(old(Snapshot()), id, bytes, now)
    {
      if id in clients {
        var c := Refreshed(clients[id], now);
        clients := clients[id := c.(bytesTransferred := c.bytesTransferred + bytes, lastServed := now)];
      }
    }

    /** `order` is the order in which the client map is iterated. */
    method SelectNextClient(order: seq<string>, now: nat) returns (id: Option<string>)
      requires IsOrder(Snapshot(), order)
      modifies this
      ensures (Snapshot(), id) == Select(old(Snapshot()), order, now)
    {
      if order == [] {
        return None;
      }
      var i := 0;
      while i < |order|
        invariant 0 <= i <= |order| && clients.Keys == old(clients.Keys)
        invariant forall c :: c in order ==> c in clients
        invariant SelectFrom(Snapshot(), order, now, i) == SelectFrom(old(Snapshot()), order, now, 0)
      {
        var idx := Position(roundRobinIndex, i, |order|);
        TouchedKeeps(Snapshot(), order[idx], now, order[idx]);
        var within := IsWithinQuota(order[idx], now);
        if within {
          roundRobinIndex := Position(idx, 1, |order|);
          return Some(order[idx]);
        }
        i := i + 1;
      }
      id := Some(LeastServed(Scheduler(clients, clientQuota, roundRobinIndex), order, |order|));
    }
  }
}
