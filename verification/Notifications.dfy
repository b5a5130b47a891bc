/** Device notifications and what a batch of them means
    (crates/server/src/network/notification_aggregator.rs; the effect of a notification on the
    client's device list is that of add_device, remove_device and update_device_info in
    crates/client/src/tui/app.rs).
 */
module Notifications {
  import opened Common

  /** The id and everything else that is known of a device. */
  datatype DeviceInfo = DeviceInfo(id: u32, description: string)

  datatype Notification =
    | Arrived(info: DeviceInfo)
    | Removed(removedId: u32, handles: seq<u32>, removalReason: string)
    | StatusChanged(changedId: u32, newInfo: Option<DeviceInfo>, statusReason: string)
  {
    function DeviceId(): u32 {
      match this
      case Arrived(info) => info.id
      case Removed(id, _, _) => id
      case StatusChanged(id, _, _) => id
    }
  }

  predicate Mentions(log: seq<Notification>, id: u32) {
    exists i :: 0 <= i < |log| && log[i].DeviceId() == id
  }

  /** The devices of a log in the order of their first event. */
  function FirstOrder(log: seq<Notification>): seq<u32> {
    if log == [] then []
    else
      var front, id := log[..|log| - 1], log[|log| - 1].DeviceId();
      if Mentions(front, id) then FirstOrder(front) else FirstOrder(front) + [id]
  }

  /** The last event of a device. */
  function LastEvent(log: seq<Notification>, id: u32): Notification
    requires Mentions(log, id)
  {
    var n := |log| - 1;
    if log[n].DeviceId() == id then log[n] else LastEvent(log[..n], id)
  }

  lemma {:induction false} FirstOrderExact(log: seq<Notification>)
    ensures forall id :: id in FirstOrder(log) <==> Mentions(log, id)
    ensures forall i, j :: 0 <= i < j < |FirstOrder(log)| ==> FirstOrder(log)[i] != FirstOrder(log)[j]
  {
    if log != [] {
      var n := |log| - 1;
      FirstOrderExact(log[..n]);
      forall id
        ensures Mentions(log, id) <==> Mentions(log[..n], id) || log[n].DeviceId() == id
      {
        if Mentions(log, id) && log[n].DeviceId() != id {
          var i :| 0 <= i < |log| && log[i].DeviceId() == id;
          assert log[..n][i].DeviceId() == id;
        }
        if Mentions(log[..n], id) {
          var i :| 0 <= i < n && log[..n][i].DeviceId() == id;
          assert log[i].DeviceId() == id;
        }
      }
    }
  }

  lemma {:induction false} LastEventIsOfDevice(log: seq<Notification>, id: u32)
    requires Mentions(log, id)
    ensures LastEvent(log, id).DeviceId() == id
  {
    var n := |log| - 1;
    if log[n].DeviceId() != id {
      MentionsFront(log, id);
      LastEventIsOfDevice(log[..n], id);
    }
  }

  lemma MentionsFront(log: seq<Notification>, id: u32)
    requires Mentions(log, id) && log[|log| - 1].DeviceId() != id
    ensures Mentions(log[..|log| - 1], id)
  {
    var i :| 0 <= i < |log| && log[i].DeviceId() == id;
    assert log[..|log| - 1][i].DeviceId() == id;
  }

  /** What a flush reports: each device's last event, in the order of first events. */
  function Batch(log: seq<Notification>): seq<Notification> {
    FirstOrderExact(log);
    seq(|FirstOrder(log)|, i requires 0 <= i < |FirstOrder(log)| => LastEvent(log, FirstOrder(log)[i]))
  }

  /** The first event of the device is at p. */
  predicate FirstIs(log: seq<Notification>, id: u32, p: nat) {
    p < |log| && log[p].DeviceId() == id && forall q :: 0 <= q < p ==> log[q].DeviceId() != id
  }

  /** The last event of the device is at k. */
  predicate LastIs(log: seq<Notification>, id: u32, k: nat) {
    k < |log| && log[k].DeviceId() == id && forall q :: k < q < |log| ==> log[q].DeviceId() != id
  }

  lemma {:induction false} OrderIsOfFirsts(log: seq<Notification>, i: nat, j: nat, p: nat, q: nat)
    requires i < j < |FirstOrder(log)|
    requires FirstIs(log, FirstOrder(log)[i], p) && FirstIs(log, FirstOrder(log)[j], q)
    ensures p < q
  {
    var front, id := log[..|log| - 1], log[|log| - 1].DeviceId();
    FirstOrderExact(front);
    FirstOrderExact(log);
    var order := FirstOrder(front);
    assert Mentions(front, FirstOrder(log)[i]);
    assert p < |front| by {
      var m :| 0 <= m < |front| && front[m].DeviceId() == FirstOrder(log)[i];
      assert log[m].DeviceId() == FirstOrder(log)[i];
    }
    if j < |order| {
      var m :| 0 <= m < |front| && front[m].DeviceId() == order[j];
      assert log[m].DeviceId() == order[j];
      OrderIsOfFirsts(front, i, j, p, q);
    } else {
      assert order[i] != id && !Mentions(front, id);
    }
  }

  lemma {:induction false} LastEventAtIndex(log: seq<Notification>, id: u32, k: nat)
    requires LastIs(log, id, k)
    ensures Mentions(log, id) && LastEvent(log, id) == log[k]
  {
    var n := |log| - 1;
    if k < n {
      assert log[..n][k].DeviceId() == id;
      LastEventAtIndex(log[..n], id, k);
    }
  }

  /** A batch has one event for every device: its last one, at the place that its first one gives it. */
  lemma BatchExact(log: seq<Notification>, i: nat, j: nat, p: nat, q: nat, k: nat)
    requires i < j < |Batch(log)|
    requires var a, b := FirstOrder(log)[i], FirstOrder(log)[j];
             FirstIs(log, a, p) && FirstIs(log, b, q) && LastIs(log, a, k)
    ensures p < q && Batch(log)[i] == log[k]
  {
    OrderIsOfFirsts(log, i, j, p, q);
    LastEventAtIndex(log, FirstOrder(log)[i], k);
  }

  // ---------- The meaning of a log ----------

  /** The client's device list. */
  type Listing = seq<DeviceInfo>

  /** The first entry with this id. */
  function Lookup(list: Listing, id: u32): Option<DeviceInfo> {
    if list == [] then None else if list[0].id == id then Some(list[0]) else Lookup(list[1..], id)
  }

  function Without(list: Listing, id: u32): Listing {
    if list == [] then [] else (if list[0].id == id then [] else [list[0]]) + Without(list[1..], id)
  }

  /** The first entry with this id is replaced as a whole. */
  function Replaced(list: Listing, id: u32, info: DeviceInfo): Listing {
    if list == [] then []
    else if list[0].id == id then [info] + list[1..]
    else [list[0]] + Replaced(list[1..], id, info)
  }

  function Handled(list: Listing, e: Notification): Listing {
    match e
    case Arrived(info) => if Lookup(list, info.id).Some? then list else list + [info]
    case Removed(id, _, _) => Without(list, id)
    case StatusChanged(id, Some(info), _) => Replaced(list, id, info)
    case StatusChanged(_, None, _) => list
  }

  /** The list after the events. */
  function Apply(list: Listing, log: seq<Notification>): Listing {
    if log == [] then list else Handled(Apply(list, log[..|log| - 1]), log[|log| - 1])
  }

  // ---------- One device at a time ----------

  /** No status change gives a device another id. */
  predicate KeepsId(e: Notification) {
    e.StatusChanged? && e.newInfo.Some? ==> e.newInfo.value.id == e.changedId
  }

  predicate KeepsIds(log: seq<Notification>) {
    forall e :: e in log ==> KeepsId(e)
  }

  /** What an event makes of the entry of its device. */
  function Follow(known: Option<DeviceInfo>, e: Notification): Option<DeviceInfo> {
    match e
    case Arrived(info) => if known.Some? then known else Some(info)
    case Removed(_, _, _) => None
    case StatusChanged(_, newInfo, _) => if known.Some? && newInfo.Some? then newInfo else known
  }

  /** What the events of a device make of its entry. */
  function FollowAll(known: Option<DeviceInfo>, log: seq<Notification>, id: u32): Option<DeviceInfo> {
    if log == [] then known
    else
      var before, last := FollowAll(known, log[..|log| - 1], id), log[|log| - 1];
      if last.DeviceId() == id then Follow(before, last) else before
  }

  lemma {:induction false} LookupAppended(list: Listing, info: DeviceInfo, id: u32)
    ensures Lookup(list + [info], id)
            == if Lookup(list, id).Some? then Lookup(list, id) else if info.id == id then Some(info) else None
  {
    if list == [] {
      assert ([info])[1..] == [];
    } else {
      assert (list + [info])[1..] == list[1..] + [info];
      LookupAppended(list[1..], info, id);
    }
  }

  lemma {:induction false} LookupWithout(list: Listing, gone: u32, id: u32)
    ensures Lookup(Without(list, gone), id) == if gone == id then None else Lookup(list, id)
  {
    if list != [] {
      LookupWithout(list[1..], gone, id);
      assert list[0].id != gone ==> Without(list, gone)[1..] == Without(list[1..], gone);
      assert list[0].id == gone ==> Without(list, gone) == Without(list[1..], gone);
    }
  }

  lemma {:induction false} LookupReplaced(list: Listing, info: DeviceInfo, id: u32)
    ensures Lookup(Replaced(list, info.id, info), id)
            == if info.id == id && Lookup(list, id).Some? then Some(info) else Lookup(list, id)
  {
    if list != [] {
      LookupReplaced(list[1..], info, id);
      assert Replaced(list, info.id, info)[1..]
          == if list[0].id == info.id then list[1..] else Replaced(list[1..], info.id, info);
    }
  }

  lemma HandledFollows(list: Listing, e: Notification, id: u32)
    requires KeepsId(e)
    ensures Lookup(Handled(list, e), id)
            == if e.DeviceId() == id then Follow(Lookup(list, id), e) else Lookup(list, id)
  {
    match e
    case Arrived(info) => LookupAppended(list, info, id);
    case Removed(gone, _, _) => LookupWithout(list, gone, id);
    case StatusChanged(_, Some(info), _) => LookupReplaced(list, info, id);
    case StatusChanged(_, None, _) =>
  }

  /** While ids are kept, each device's entry depends on its own events only. */
  lemma {:induction false} ApplyFollows(list: Listing, log: seq<Notification>, id: u32)
    requires KeepsIds(log)
    ensures Lookup(Apply(list, log), id) == FollowAll(Lookup(list, id), log, id)
  {
    if log != [] {
      var front, last := log[..|log| - 1], log[|log| - 1];
      assert last in log && forall e :: e in front ==> e in log;
      ApplyFollows(list, front, id);
      HandledFollows(Apply(list, front), last, id);
    }
  }

  // ---------- Whether a device is listed ----------

  /** Whether the events leave the device on the list; None if they do not say. */
  function Effect(log: seq<Notification>, id: u32): Option<bool> {
    if log == [] then None
    else
      var last := log[|log| - 1];
      if last.DeviceId() == id && last.Arrived? then Some(true)
      else if last.DeviceId() == id && last.Removed? then Some(false)
      else Effect(log[..|log| - 1], id)
  }

  lemma {:induction false} FollowPresence(known: Option<DeviceInfo>, log: seq<Notification>, id: u32)
    ensures FollowAll(known, log, id).Some?
            <==> if Effect(log, id).Some? then Effect(log, id).value else known.Some?
  {
    if log != [] {
      FollowPresence(known, log[..|log| - 1], id);
    }
  }

  lemma ApplyIsEffect(list: Listing, log: seq<Notification>, id: u32)
    requires KeepsIds(log)
    ensures Lookup(Apply(list, log), id).Some?
            <==> if Effect(log, id).Some? then Effect(log, id).value else Lookup(list, id).Some?
  {
    ApplyFollows(list, log, id);
    FollowPresence(Lookup(list, id), log, id);
  }

  function OwnEffect(e: Notification): Option<bool> {
    match e
    case Arrived(_) => Some(true)
    case Removed(_, _, _) => Some(false)
    case StatusChanged(_, _, _) => None
  }

  /** In a list with one event per device, that event alone decides. */
  lemma {:induction false} EffectOfSingle(log: seq<Notification>, id: u32, i: nat)
    requires i < |log| && log[i].DeviceId() == id
    requires forall j :: 0 <= j < |log| && j != i ==> log[j].DeviceId() != id
    ensures Effect(log, id) == OwnEffect(log[i])
  {
    var n := |log| - 1;
    if i == n {
      NoEffect(log[..n], id);
    } else {
      EffectOfSingle(log[..n], id, i);
    }
  }

  lemma {:induction false} NoEffect(log: seq<Notification>, id: u32)
    requires !Mentions(log, id)
    ensures Effect(log, id) == None
  {
    if log != [] {
      var n := |log| - 1;
      assert log[n].DeviceId() != id;
      forall i | 0 <= i < n
        ensures log[..n][i].DeviceId() != id
      {
        assert log[i].DeviceId() != id;
      }
      NoEffect(log[..n], id);
    }
  }

  lemma EffectOfBatch(log: seq<Notification>, id: u32)
    ensures Effect(Batch(log), id) == if Mentions(log, id) then OwnEffect(LastEvent(log, id)) else None
  {
    var order, batch := FirstOrder(log), Batch(log);
    FirstOrderExact(log);
    forall j | 0 <= j < |batch|
      ensures batch[j].DeviceId() == order[j]
    {
      LastEventIsOfDevice(log, order[j]);
    }
    if Mentions(log, id) {
      var i :| 0 <= i < |order| && order[i] == id;
      EffectOfSingle(batch, id, i);
    } else {
      NoEffect(batch, id);
    }
  }

  /** A device whose last event is a status change had only status changes. */
  predicate StatusOnlyAtEndIfAlways(log: seq<Notification>) {
    forall i :: 0 <= i < |log| ==>
      LastOf(log, i).StatusChanged? ==> log[i].StatusChanged?
  }

  function LastOf(log: seq<Notification>, i: nat): Notification
    requires i < |log|
  {
    assert Mentions(log, log[i].DeviceId());
    LastEvent(log, log[i].DeviceId())
  }

  /** The effect of a log on a device is that of its last event, unless that is a status change. */
  lemma {:induction false} EffectOfLast(log: seq<Notification>, id: u32)
    requires Mentions(log, id) && !LastEvent(log, id).StatusChanged?
    ensures Effect(log, id) == OwnEffect(LastEvent(log, id))
  {
    var n := |log| - 1;
    if log[n].DeviceId() != id {
      MentionsFront(log, id);
      EffectOfLast(log[..n], id);
    }
  }

  /** A log says something about a device exactly when it has an arrival or a removal of it. */
  lemma {:induction false} EffectExact(log: seq<Notification>, id: u32)
    ensures Effect(log, id).Some? <==> exists i :: 0 <= i < |log| && log[i].DeviceId() == id && !log[i].StatusChanged?
  {
    if log != [] {
      var n := |log| - 1;
      EffectExact(log[..n], id);
      if i :| 0 <= i < |log| && log[i].DeviceId() == id && !log[i].StatusChanged? {
        assert i < n ==> log[..n][i] == log[i];
      }
      if i :| 0 <= i < n && log[..n][i].DeviceId() == id && !log[..n][i].StatusChanged? {
        assert log[i] == log[..n][i];
      }
      assert log[n].DeviceId() == id && !log[n].StatusChanged? ==> Effect(log, id).Some?;
    }
  }

  lemma SameEffect(log: seq<Notification>, id: u32)
    requires StatusOnlyAtEndIfAlways(log)
    ensures Effect(Batch(log), id) == Effect(log, id)
  {
    EffectOfBatch(log, id);
    if Mentions(log, id) {
      if LastEvent(log, id).StatusChanged? {
        EffectExact(log, id);
        forall i | 0 <= i < |log| && log[i].DeviceId() == id
          ensures log[i].StatusChanged?
        {
          assert LastOf(log, i) == LastEvent(log, id);
        }
      } else {
        EffectOfLast(log, id);
      }
    } else {
      NoEffect(log, id);
    }
  }

  lemma {:induction false} LastEventInLog(log: seq<Notification>, id: u32)
    requires Mentions(log, id)
    ensures LastEvent(log, id) in log
  {
    var n := |log| - 1;
    if log[n].DeviceId() != id {
      MentionsFront(log, id);
      LastEventInLog(log[..n], id);
    }
  }

  lemma BatchKeepsIds(log: seq<Notification>)
    requires KeepsIds(log)
    ensures KeepsIds(Batch(log))
  {
    FirstOrderExact(log);
    var order, batch := FirstOrder(log), Batch(log);
    forall e | e in batch
      ensures KeepsId(e)
    {
      var i :| 0 <= i < |batch| && batch[i] == e;
      LastEventInLog(log, order[i]);
    }
  }

  /** The batch leaves the same device ids on every list as the whole log does. */
  ghost predicate SameIds(log: seq<Notification>) {
    forall list: Listing, id: u32 :: Lookup(Apply(list, Batch(log)), id).Some? <==> Lookup(Apply(list, log), id).Some?
  }

  lemma LostArrival(log: seq<Notification>, i: nat)
    requires KeepsIds(log) && i < |log| && LastOf(log, i).StatusChanged? && !log[i].StatusChanged?
    ensures !SameIds(log)
  {
    var id := log[i].DeviceId();
    EffectExact(log, id);
    EffectOfBatch(log, id);
    BatchKeepsIds(log);
    var list: Listing := if Effect(log, id).value then [] else [DeviceInfo(id, "")];
    ApplyIsEffect(list, log, id);
    ApplyIsEffect(list, Batch(log), id);
    assert Lookup(Apply(list, Batch(log)), id).Some? != Lookup(Apply(list, log), id).Some?;
  }

  /** While ids are kept, aggregation preserves the ids listed exactly when no device's arrival or removal
      is followed by a status change as its last event; in particular for arrivals and removals only. */
  lemma AggregationExact(log: seq<Notification>)
    requires KeepsIds(log)
    ensures SameIds(log) <==> StatusOnlyAtEndIfAlways(log)
  {
    if StatusOnlyAtEndIfAlways(log) {
      BatchKeepsIds(log);
      forall list: Listing, id: u32
        ensures Lookup(Apply(list, Batch(log)), id).Some? <==> Lookup(Apply(list, log), id).Some?
      {
        SameEffect(log, id);
        ApplyIsEffect(list, log, id);
        ApplyIsEffect(list, Batch(log), id);
      }
    } else {
      var i :| 0 <= i < |log| && LastOf(log, i).StatusChanged? && !log[i].StatusChanged?;
      LostArrival(log, i);
    }
  }

  lemma OneEntry(x: DeviceInfo, id: u32)
    ensures Lookup([x], id) == (if x.id == id then Some(x) else None)
    ensures Without([x], id) == if x.id == id then [] else [x]
  {
    assert ([x])[1..] == [];
  }

  lemma ApplyTwo(list: Listing, a: Notification, b: Notification)
    ensures Apply(list, [a, b]) == Handled(Handled(list, a), b) && Apply(list, [b]) == Handled(list, b)
  {
    assert [a, b][..1] == [a] && [a][..0] == [] && [b][..0] == [];
    assert Apply(list, [a]) == Handled(list, a);
  }

  lemma BatchOfTwo(a: Notification, b: Notification)
    requires a.DeviceId() == b.DeviceId()
    ensures Batch([a, b]) == [b]
  {
    var log, id := [a, b], b.DeviceId();
    assert log[..1] == [a] && [a][..0] == [];
    assert !Mentions([], id) && [a][0].DeviceId() == id;
    assert FirstOrder([a]) == [id];
    assert Mentions([a], id) && FirstOrder(log) == [id];
    assert log[1].DeviceId() == id && LastEvent(log, id) == b;
  }

  /** A status change to another id breaks this: when the device then arrives again, the log leaves both
      ids on the list and the batch only one. */
  lemma RenamingLosesId(old': DeviceInfo, new': DeviceInfo)
    requires old'.id != new'.id
    ensures var log := [StatusChanged(old'.id, Some(new'), ""), Arrived(old')];
            StatusOnlyAtEndIfAlways(log) && !SameIds(log)
  {
    var a, b := StatusChanged(old'.id, Some(new'), ""), Arrived(old');
    ApplyTwo([old'], a, b);
    BatchOfTwo(a, b);
    OneEntry(old', new'.id);
    OneEntry(new', old'.id);
    OneEntry(new', new'.id);
    assert Handled([old'], a) == [new'];
    assert Handled([new'], b) == [new'] + [old'];
    LookupAppended([new'], old', new'.id);
    OneEntry(old', old'.id);
    assert Lookup(Apply([old'], [a, b]), new'.id) == Some(new') && Lookup(Apply([old'], [b]), new'.id) == None;
    forall i | 0 <= i < 2
      ensures !LastOf([a, b], i).StatusChanged?
    {
      assert [a, b][1].DeviceId() == old'.id;
    }
  }

  // ---------- What is known of a device ----------

  /** The batch leaves the same entries, not only ids, on every list as the whole log does. */
  ghost predicate SameEntries(log: seq<Notification>) {
    forall list: Listing, id: u32 :: Lookup(Apply(list, Batch(log)), id) == Lookup(Apply(list, log), id)
  }

  predicate Forgets(e: Notification) {
    e.Removed? || (e.StatusChanged? && e.newInfo.Some?)
  }

  /** No event of the device takes away or replaces what is known of it. */
  predicate Passive(log: seq<Notification>, id: u32) {
    forall e :: e in log && e.DeviceId() == id ==> !Forgets(e)
  }

  function FirstArrival(log: seq<Notification>, id: u32): Option<DeviceInfo> {
    if log == [] then None
    else
      var before, last := FirstArrival(log[..|log| - 1], id), log[|log| - 1];
      if before.None? && last.Arrived? && last.info.id == id then Some(last.info) else before
  }

  /** The last event of the device tells as much as all of them: it is a removal; or an arrival, with the
      same info as the first one, of a device of which nothing was taken away or replaced; or a status
      change, with new info unless there never was any, of a device that neither arrived nor left. */
  predicate LastTellsAll(log: seq<Notification>, id: u32)
    requires Mentions(log, id)
  {
    match LastEvent(log, id)
    case Removed(_, _, _) => true
    case Arrived(info) => Passive(log, id) && FirstArrival(log, id) == Some(info)
    case StatusChanged(_, newInfo, _) => Effect(log, id) == None && (newInfo.None? ==> Passive(log, id))
  }

  lemma FrontAndLast(log: seq<Notification>)
    requires log != []
    ensures log == log[..|log| - 1] + [log[|log| - 1]]
  {
  }

  lemma {:induction false} PassiveKeeps(log: seq<Notification>, id: u32, x: DeviceInfo)
    requires Passive(log, id)
    ensures FollowAll(Some(x), log, id) == Some(x) && FollowAll(None, log, id) == FirstArrival(log, id)
  {
    if log != [] {
      FrontAndLast(log);
      PassiveKeeps(log[..|log| - 1], id, x);
    }
  }

  lemma {:induction false} OthersForget(log: seq<Notification>, id: u32, x: DeviceInfo, y: DeviceInfo)
    requires !Passive(log, id)
    ensures FollowAll(Some(x), log, id) == FollowAll(Some(y), log, id)
  {
    if log != [] {
      var front, last := log[..|log| - 1], log[|log| - 1];
      FrontAndLast(log);
      if !Passive(front, id) {
        OthersForget(front, id, x, y);
      } else {
        PassiveKeeps(front, id, x);
        PassiveKeeps(front, id, y);
      }
    }
  }

  /** The events before the last one of the device. */
  function BeforeLast(log: seq<Notification>, id: u32): seq<Notification>
    requires Mentions(log, id)
  {
    var n := |log| - 1;
    if log[n].DeviceId() == id then log[..n]
    else
      MentionsFront(log, id);
      BeforeLast(log[..n], id)
  }

  lemma {:induction false} LastFollows(known: Option<DeviceInfo>, log: seq<Notification>, id: u32)
    requires Mentions(log, id)
    ensures FollowAll(known, log, id) == Follow(FollowAll(known, BeforeLast(log, id), id), LastEvent(log, id))
  {
    var n := |log| - 1;
    if log[n].DeviceId() != id {
      MentionsFront(log, id);
      LastFollows(known, log[..n], id);
    }
  }

  predicate Knows(known: Option<DeviceInfo>, id: u32) {
    known.Some? ==> known.value.id == id
  }

  ghost predicate LastSuffices(log: seq<Notification>, id: u32)
    requires Mentions(log, id)
  {
    forall known :: Knows(known, id) ==> FollowAll(known, log, id) == Follow(known, LastEvent(log, id))
  }

  lemma TellsSuffices(log: seq<Notification>, id: u32, known: Option<DeviceInfo>)
    requires Mentions(log, id) && LastTellsAll(log, id)
    ensures FollowAll(known, log, id) == Follow(known, LastEvent(log, id))
  {
    LastFollows(known, log, id);
    FollowPresence(known, log, id);
    if Passive(log, id) {
      PassiveKeeps(log, id, if known.Some? then known.value else DeviceInfo(id, ""));
    }
  }

  /** If the last event suffices, an entry that it leaves alone was left alone by all events. */
  lemma SufficesPassive(log: seq<Notification>, id: u32)
    requires Mentions(log, id) && LastSuffices(log, id) && !Forgets(LastEvent(log, id))
    ensures Passive(log, id)
  {
    var x, y := DeviceInfo(id, "x"), DeviceInfo(id, "y");
    assert Knows(Some(x), id) && Knows(Some(y), id);
    assert FollowAll(Some(x), log, id) == Some(x) && FollowAll(Some(y), log, id) == Some(y);
    assert x.description[0] != y.description[0];
    if !Passive(log, id) {
      OthersForget(log, id, x, y);
    }
  }

  lemma SufficesTells(log: seq<Notification>, id: u32)
    requires Mentions(log, id) && LastSuffices(log, id)
    ensures LastTellsAll(log, id)
  {
    var x, last := DeviceInfo(id, ""), LastEvent(log, id);
    assert Knows(Some(x), id) && Knows(None, id);
    FollowPresence(Some(x), log, id);
    FollowPresence(None, log, id);
    if !Forgets(last) {
      SufficesPassive(log, id);
      PassiveKeeps(log, id, x);
    }
  }

  lemma {:induction false} FollowNone(known: Option<DeviceInfo>, log: seq<Notification>, id: u32)
    requires forall i :: 0 <= i < |log| ==> log[i].DeviceId() != id
    ensures FollowAll(known, log, id) == known
  {
    if log != [] {
      FollowNone(known, log[..|log| - 1], id);
    }
  }

  lemma {:induction false} FollowSingle(known: Option<DeviceInfo>, log: seq<Notification>, id: u32, i: nat)
    requires i < |log| && log[i].DeviceId() == id
    requires forall j :: 0 <= j < |log| && j != i ==> log[j].DeviceId() != id
    ensures FollowAll(known, log, id) == Follow(known, log[i])
  {
    var n := |log| - 1;
    if i == n {
      FollowNone(known, log[..n], id);
    } else {
      FollowSingle(known, log[..n], id, i);
    }
  }

  lemma FollowBatch(known: Option<DeviceInfo>, log: seq<Notification>, id: u32)
    ensures FollowAll(known, Batch(log), id)
            == if Mentions(log, id) then Follow(known, LastEvent(log, id)) else known
  {
    var order, batch := FirstOrder(log), Batch(log);
    FirstOrderExact(log);
    forall j | 0 <= j < |batch|
      ensures batch[j].DeviceId() == order[j]
    {
      LastEventIsOfDevice(log, order[j]);
    }
    if Mentions(log, id) {
      var i :| 0 <= i < |order| && order[i] == id;
      FollowSingle(known, batch, id, i);
    } else {
      FollowNone(known, batch, id);
    }
  }

  lemma EntryAfterBatch(list: Listing, log: seq<Notification>, id: u32)
    requires KeepsIds(log)
    ensures Lookup(Apply(list, log), id) == FollowAll(Lookup(list, id), log, id)
    ensures Lookup(Apply(list, Batch(log)), id)
            == if Mentions(log, id) then Follow(Lookup(list, id), LastEvent(log, id)) else Lookup(list, id)
  {
    BatchKeepsIds(log);
    ApplyFollows(list, log, id);
    ApplyFollows(list, Batch(log), id);
    FollowBatch(Lookup(list, id), log, id);
  }

  lemma SameEntriesSuffices(log: seq<Notification>, id: u32, known: Option<DeviceInfo>)
    requires KeepsIds(log) && SameEntries(log) && Mentions(log, id) && Knows(known, id)
    ensures FollowAll(known, log, id) == Follow(known, LastEvent(log, id))
  {
    var list: Listing := if known.Some? then [known.value] else [];
    assert Lookup(list, id) == known;
    EntryAfterBatch(list, log, id);
  }

  /** While ids are kept, aggregation preserves all that is known exactly when every device's last event
      tells as much as all of its events. */
  lemma EntriesExact(log: seq<Notification>)
    requires KeepsIds(log)
    ensures SameEntries(log) <==> forall id: u32 :: Mentions(log, id) ==> LastTellsAll(log, id)
  {
    if forall id: u32 :: Mentions(log, id) ==> LastTellsAll(log, id) {
      forall list: Listing, id: u32
        ensures Lookup(Apply(list, Batch(log)), id) == Lookup(Apply(list, log), id)
      {
        EntryAfterBatch(list, log, id);
        if Mentions(log, id) {
          TellsSuffices(log, id, Lookup(list, id));
        } else {
          FollowUnmentioned(Lookup(list, id), log, id);
        }
      }
    }
    if SameEntries(log) {
      forall id: u32 | Mentions(log, id)
        ensures LastTellsAll(log, id)
      {
        forall known | Knows(known, id)
          ensures FollowAll(known, log, id) == Follow(known, LastEvent(log, id))
        {
          SameEntriesSuffices(log, id, known);
        }
        SufficesTells(log, id);
      }
    }
  }

  lemma FollowUnmentioned(known: Option<DeviceInfo>, log: seq<Notification>, id: u32)
    requires !Mentions(log, id)
    ensures FollowAll(known, log, id) == known
  {
    forall i | 0 <= i < |log|
      ensures log[i].DeviceId() != id
    {
    }
    FollowNone(known, log, id);
  }

  /** An id that leaves and arrives again with other info within one window keeps its old entry: the batch
      has only the arrival, which is ignored for a listed device. */
  lemma ReplugKeepsOldEntry(old': DeviceInfo, new': DeviceInfo)
    requires old'.id == new'.id && old' != new'
    ensures var log := [Removed(old'.id, [], ""), Arrived(new')];
            Apply([old'], log) == [new'] && Apply([old'], Batch(log)) == [old'] && SameIds(log)
  {
    var a, b := Removed(old'.id, [], ""), Arrived(new');
    ApplyTwo([old'], a, b);
    BatchOfTwo(a, b);
    OneEntry(old', old'.id);
    assert Handled([old'], a) == [];
    assert Handled([], b) == [] + [new'];
    forall i | 0 <= i < 2
      ensures !LastOf([a, b], i).StatusChanged?
    {
      assert [a, b][1].DeviceId() == old'.id;
    }
    AggregationExact([a, b]);
  }

  // ---------- The logs this server makes ----------

  /** Every arrival gets a new id, and status changes carry no info. */
  predicate FromServer(log: seq<Notification>) {
    && (forall i :: 0 <= i < |log| && log[i].StatusChanged? ==> log[i].newInfo.None?)
    && (forall i, j :: 0 <= i < j < |log| && log[i].DeviceId() == log[j].DeviceId() ==> !log[j].Arrived?)
  }

  lemma {:induction false} LastEventAt(log: seq<Notification>, id: u32) returns (k: nat)
    requires Mentions(log, id)
    ensures k < |log| && log[k] == LastEvent(log, id) && log[k].DeviceId() == id
    ensures forall j :: k < j < |log| ==> log[j].DeviceId() != id
  {
    var n := |log| - 1;
    k := n;
    if log[n].DeviceId() != id {
      MentionsFront(log, id);
      k := LastEventAt(log[..n], id);
      forall j | k < j < |log|
        ensures log[j].DeviceId() != id
      {
        assert j < n ==> log[..n][j] == log[j];
      }
    }
  }

  lemma {:induction false} FirstArrivalExact(log: seq<Notification>, id: u32)
    ensures FirstArrival(log, id).Some? ==>
              Arrived(FirstArrival(log, id).value) in log && FirstArrival(log, id).value.id == id
    ensures forall info :: Arrived(info) in log && info.id == id ==> FirstArrival(log, id).Some?
  {
    if log != [] {
      FrontAndLast(log);
      FirstArrivalExact(log[..|log| - 1], id);
    }
  }

  lemma ArrivalIsOnlyEvent(log: seq<Notification>, id: u32, e: Notification)
    requires FromServer(log) && Mentions(log, id) && LastEvent(log, id).Arrived? && e in log && e.DeviceId() == id
    ensures e == LastEvent(log, id)
  {
    var k := LastEventAt(log, id);
    var i :| 0 <= i < |log| && log[i] == e;
  }

  lemma ServerLastTells(log: seq<Notification>, id: u32)
    requires FromServer(log) && Mentions(log, id) && StatusOnlyAtEndIfAlways(log)
    ensures LastTellsAll(log, id)
  {
    var last := LastEvent(log, id);
    LastEventInLog(log, id);
    LastEventIsOfDevice(log, id);
    if last.Arrived? {
      forall e | e in log && e.DeviceId() == id
        ensures e == last
      {
        ArrivalIsOnlyEvent(log, id, e);
      }
      FirstArrivalExact(log, id);
    } else if last.StatusChanged? {
      EffectExact(log, id);
      forall i | 0 <= i < |log| && log[i].DeviceId() == id
        ensures log[i].StatusChanged? && log[i].newInfo.None?
      {
        assert LastOf(log, i) == last;
      }
    }
  }

  /** On such logs aggregation preserves all that is known under the condition under which it preserves
      the ids: no arrival or removal is followed by a status change as the device's last event. */
  lemma ServerLogsExact(log: seq<Notification>)
    requires FromServer(log)
    ensures KeepsIds(log)
    ensures SameEntries(log) <==> StatusOnlyAtEndIfAlways(log)
    ensures SameIds(log) <==> StatusOnlyAtEndIfAlways(log)
  {
    AggregationExact(log);
    EntriesExact(log);
    if StatusOnlyAtEndIfAlways(log) {
      forall id: u32 | Mentions(log, id)
        ensures LastTellsAll(log, id)
      {
        ServerLastTells(log, id);
      }
    }
    if SameEntries(log) {
      assert SameIds(log);
    }
  }
}
