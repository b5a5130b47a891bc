/** The locks of the rate limiter (crates/common/src/rate_limiter.rs): the global bucket's, that of the
    client map and that of the device map.

    A failed try_acquire takes the locks of lower levels for its refunds while it still holds the one
    of the level that failed; every other lock section holds one lock.
 */
module LockOrder {

  datatype Lock = GlobalBucket | ClientMap | DeviceMap {
    function Rank(): nat {
      match this
      case GlobalBucket => 0
      case ClientMap => 1
      case DeviceMap => 2
    }
  }

  /** Where a call is.  Refunds are made with `failed` still held. */
  datatype Stage =
    | Waits(lock: Lock)
    | Holds(lock: Lock)
    | RefundWaits(failed: Lock, lock: Lock)
    | RefundHolds(failed: Lock, lock: Lock)
    | Finished

  /** A call of check, record, try_acquire, remove_client or remove_device, with the levels it goes
      through.  Only a try_acquire can fail at a level. */
  datatype Call = Call(hasGlobal: bool, hasClient: bool, hasDevice: bool, stage: Stage) {
    predicate Goes(l: Lock) {
      match l
      case GlobalBucket => hasGlobal
      case ClientMap => hasClient
      case DeviceMap => hasDevice
    }

    /** The next level from rank r on. */
    function Onward(r: nat): Stage {
      if r == 0 && hasGlobal then Waits(GlobalBucket)
      else if r <= 1 && hasClient then Waits(ClientMap)
      else if r <= 2 && hasDevice then Waits(DeviceMap)
      else Finished
    }

    /** The next refund from rank r on, below the level that failed. */
    function Refunds(failed: Lock, r: nat): Stage {
      if r == 0 && hasGlobal && failed.Rank() > 0 then RefundWaits(failed, GlobalBucket)
      else if r <= 1 && hasClient && failed.Rank() > 1 then RefundWaits(failed, ClientMap)
      else Finished
    }

    /** The next stage; `fails` says whether the level just locked could not pay. */
    function After(fails: bool): Stage {
      match stage
      case Waits(l) => Holds(l)
      case Holds(l) => if fails then Refunds(l, 0) else Onward(l.Rank() + 1)
      case RefundWaits(failed, l) => RefundHolds(failed, l)
      case RefundHolds(failed, l) => Refunds(failed, l.Rank() + 1)
      case Finished => Finished
    }

    predicate Owns(l: Lock) {
      match stage
      case Waits(_) => false
      case Holds(m) => l == m
      case RefundWaits(failed, _) => l == failed
      case RefundHolds(failed, m) => l == failed || l == m
      case Finished => false
    }

    predicate WaitsFor(l: Lock) {
      (stage.Waits? || stage.RefundWaits?) && stage.lock == l
    }

    /** Locks are taken on top of others only downwards. */
    predicate Ordered() {
      stage.RefundWaits? || stage.RefundHolds? ==> stage.lock.Rank() < stage.failed.Rank()
    }

    /** An upper bound of the steps that are left. */
    function Remaining(): nat {
      match stage
      case Waits(l) => 20 - 4 * l.Rank()
      case Holds(l) => 19 - 4 * l.Rank()
      case RefundWaits(_, l) => 6 - 2 * l.Rank()
      case RefundHolds(_, l) => 5 - 2 * l.Rank()
      case Finished => 0
    }
  }

  type System = seq<Call>

  ghost predicate Free(sys: System, l: Lock) {
    forall c :: 0 <= c < |sys| ==> !sys[c].Owns(l)
  }

  /** The call can go on: it has not finished, and does not wait for a lock that is taken. */
  ghost predicate Enabled(sys: System, c: nat) {
    c < |sys| && !sys[c].stage.Finished? && forall l :: sys[c].WaitsFor(l) ==> Free(sys, l)
  }

  datatype Step = Begin(hasGlobal: bool, hasClient: bool, hasDevice: bool) | Proceed(call: nat, fails: bool)

  function Started(hasGlobal: bool, hasClient: bool, hasDevice: bool): Call {
    var call := Call(hasGlobal, hasClient, hasDevice, Finished);
    call.(stage := call.Onward(0))
  }

  ghost predicate Possible(sys: System, step: Step) {
    step.Proceed? ==> Enabled(sys, step.call)
  }

  ghost function Next(sys: System, step: Step): System
    requires Possible(sys, step)
  {
    match step
    case Begin(g, c, d) => sys + [Started(g, c, d)]
    case Proceed(c, fails) => sys[c := sys[c].(stage := sys[c].After(fails))]
  }

  ghost predicate Runnable(sys: System, steps: seq<Step>)
    decreases |steps|
  {
    steps == [] || (Possible(sys, steps[0]) && Runnable(Next(sys, steps[0]), steps[1..]))
  }

  ghost function Run(sys: System, steps: seq<Step>): System
    requires Runnable(sys, steps)
    decreases |steps|
  {
    if steps == [] then sys else Run(Next(sys, steps[0]), steps[1..])
  }

  // ---------- Invariant ----------

  /** No lock has two owners, and locks are nested downwards only. */
  ghost predicate Sound(sys: System) {
    && (forall c :: 0 <= c < |sys| ==> sys[c].Ordered())
    && (forall c, d, l :: 0 <= c < d < |sys| ==> !(sys[c].Owns(l) && sys[d].Owns(l)))
  }

  /** A step takes at most the lock it waited for, which was free. */
  lemma StepOwns(sys: System, c: nat, fails: bool, l: Lock)
    requires Enabled(sys, c) && Sound(sys)
    ensures var after := sys[c].(stage := sys[c].After(fails));
            && after.Ordered()
            && (after.Owns(l) ==> sys[c].Owns(l) || Free(sys, l))
  {
    if sys[c].stage.Waits? || sys[c].stage.RefundWaits? {
      assert sys[c].WaitsFor(sys[c].stage.lock);
    }
  }

  lemma StepSound(sys: System, step: Step)
    requires Sound(sys) && Possible(sys, step)
    ensures Sound(Next(sys, step))
  {
    var sys' := Next(sys, step);
    if step.Proceed? {
      forall c, d, l | 0 <= c < d < |sys'|
        ensures !(sys'[c].Owns(l) && sys'[d].Owns(l))
      {
        StepOwns(sys, step.call, step.fails, l);
      }
      StepOwns(sys, step.call, step.fails, GlobalBucket);
    }
  }

  lemma {:induction false} RunSound(sys: System, steps: seq<Step>)
    requires Sound(sys) && Runnable(sys, steps)
    ensures Sound(Run(sys, steps))
    decreases |steps|
  {
    if steps != [] {
      StepSound(sys, steps[0]);
      RunSound(Next(sys, steps[0]), steps[1..]);
    }
  }

  // ---------- No deadlock ----------

  /** Following the owners of the locks waited for leads downwards to a call that can go on. */
  lemma {:induction false} SomeOwnerCanGoOn(sys: System, c: nat, l: Lock) returns (d: nat)
    requires Sound(sys) && c < |sys| && sys[c].Owns(l)
    ensures Enabled(sys, d)
    decreases l.Rank()
  {
    d := c;
    if !Enabled(sys, c) {
      var m :| sys[c].WaitsFor(m) && !Free(sys, m);
      var owner: nat :| owner < |sys| && sys[owner].Owns(m);
      d := SomeOwnerCanGoOn(sys, owner, m);
    }
  }

  /** On every reachable state with an unfinished call, some call can go on. */
  lemma NoDeadlock(steps: seq<Step>, c: nat) returns (d: nat)
    requires Runnable([], steps)
    requires c < |Run([], steps)| && !Run([], steps)[c].stage.Finished?
    ensures Enabled(Run([], steps), d)
  {
    var sys := Run([], steps);
    RunSound([], steps);
    d := c;
    if !Enabled(sys, c) {
      var m :| sys[c].WaitsFor(m) && !Free(sys, m);
      var owner: nat :| owner < |sys| && sys[owner].Owns(m);
      d := SomeOwnerCanGoOn(sys, owner, m);
    }
  }

  // ---------- Every call ends ----------

  function Work(sys: System): nat {
    if sys == [] then 0 else Work(sys[..|sys| - 1]) + sys[|sys| - 1].Remaining()
  }

  lemma StepsDown(call: Call, fails: bool)
    requires !call.stage.Finished?
    ensures call.(stage := call.After(fails)).Remaining() < call.Remaining()
  {
  }

  lemma {:induction false} WorkShrinks(sys: System, c: nat, call: Call)
    requires c < |sys| && call.Remaining() < sys[c].Remaining()
    ensures Work(sys[c := call]) < Work(sys)
  {
    var n := |sys| - 1;
    if c == n {
      assert sys[c := call][..n] == sys[..n];
    } else {
      WorkShrinks(sys[..n], c, call);
      assert sys[c := call][..n] == sys[..n][c := call];
    }
  }

  ghost predicate AllFinished(sys: System) {
    forall c :: 0 <= c < |sys| ==> sys[c].stage.Finished?
  }

  predicate NoBegin(steps: seq<Step>) {
    forall s :: s in steps ==> s.Proceed?
  }

  /** Without new calls every run is finite, whichever call goes on at each step. */
  lemma {:induction false} RunsAreFinite(sys: System, steps: seq<Step>)
    requires Runnable(sys, steps) && NoBegin(steps)
    ensures |steps| + Work(Run(sys, steps)) <= Work(sys)
    decreases |steps|
  {
    if steps != [] {
      var s := steps[0];
      assert s in steps && s.Proceed?;
      StepsDown(sys[s.call], s.fails);
      WorkShrinks(sys, s.call, sys[s.call].(stage := sys[s.call].After(s.fails)));
      forall x | x in steps[1..]
        ensures x.Proceed?
      {
        assert x in steps;
      }
      RunsAreFinite(Next(sys, s), steps[1..]);
    }
  }

  /** So on a reachable state a run that cannot be continued has finished every call. */
  lemma StuckIsFinished(past: seq<Step>)
    requires Runnable([], past) && forall c :: !Enabled(Run([], past), c)
    ensures AllFinished(Run([], past))
  {
    var sys := Run([], past);
    if c :| 0 <= c < |sys| && !sys[c].stage.Finished? {
      var d := NoDeadlock(past, c);
    }
  }

  // ---------- Which locks a call takes ----------

  /** The stages of a call from now on when it fails at this level, or at none. */
  function Stages(call: Call, fails: seq<Lock>): seq<Stage>
    requires call.Ordered()
    decreases call.Remaining()
  {
    if call.stage.Finished? then []
    else
      var next := call.(stage := call.After(call.stage.Holds? && call.stage.lock in fails));
      [call.stage] + Stages(next, fails)
  }

  /** The stages of a level: it waits for the lock and holds it alone. */
  function Level(goes: bool, l: Lock): seq<Stage> {
    if goes then [Waits(l), Holds(l)] else []
  }

  /** The stages of a refund on top of a lock that stays held. */
  function Refund(goes: bool, failed: Lock, l: Lock): seq<Stage> {
    if goes then [RefundWaits(failed, l), RefundHolds(failed, l)] else []
  }

  lemma LevelStages(call: Call, l: Lock, fails: seq<Lock>)
    requires call.stage == Waits(l)
    ensures var next := if l in fails then call.Refunds(l, 0) else call.Onward(l.Rank() + 1);
            Stages(call, fails) == Level(true, l) + Stages(call.(stage := next), fails)
  {
    var held := call.(stage := Holds(l));
    assert Stages(call, fails) == [Waits(l)] + Stages(held, fails);
    assert Stages(held, fails) == [Holds(l)] + Stages(call.(stage := held.After(l in fails)), fails);
  }

  lemma RefundStages(call: Call, failed: Lock, l: Lock, fails: seq<Lock>)
    requires call.stage == RefundWaits(failed, l) && call.Ordered()
    ensures var next := call.(stage := call.Refunds(failed, l.Rank() + 1));
            next.Ordered() && Stages(call, fails) == Refund(true, failed, l) + Stages(next, fails)
  {
    var held := call.(stage := RefundHolds(failed, l));
    assert Stages(call, fails) == [RefundWaits(failed, l)] + Stages(held, fails);
    assert Stages(held, fails) == [RefundHolds(failed, l)] + Stages(call.(stage := held.After(false)), fails);
  }

  /** The refunds from rank r on, after a failure at this level. */
  lemma RefundsFrom(call: Call, failed: Lock, fails: seq<Lock>)
    requires call.stage == call.Refunds(failed, 0)
    ensures call.Ordered()
    ensures Stages(call, fails)
            == Refund(call.hasGlobal && failed.Rank() > 0, failed, GlobalBucket)
               + Refund(call.hasClient && failed.Rank() > 1, failed, ClientMap)
  {
    var afterGlobal := call.(stage := call.Refunds(failed, 1));
    if call.hasGlobal && failed.Rank() > 0 {
      RefundStages(call, failed, GlobalBucket, fails);
    }
    if call.hasClient && failed.Rank() > 1 {
      RefundStages(afterGlobal, failed, ClientMap, fails);
    }
  }

  lemma DeviceStages(call: Call, fails: seq<Lock>)
    requires call.stage == call.Onward(2)
    ensures Stages(call, fails)
            == Level(call.hasDevice, DeviceMap)
               + if DeviceMap in fails && call.hasDevice then
                   Refund(call.hasGlobal, DeviceMap, GlobalBucket) + Refund(call.hasClient, DeviceMap, ClientMap)
                 else []
  {
    if call.hasDevice {
      LevelStages(call, DeviceMap, fails);
      if DeviceMap in fails {
        RefundsFrom(call.(stage := call.Refunds(DeviceMap, 0)), DeviceMap, fails);
      }
    }
  }

  lemma ClientStages(call: Call, fails: seq<Lock>)
    requires call.stage == call.Onward(1)
    ensures Stages(call, fails)
            == Level(call.hasClient, ClientMap)
               + if ClientMap in fails && call.hasClient then Refund(call.hasGlobal, ClientMap, GlobalBucket)
                 else Stages(call.(stage := call.Onward(2)), fails)
  {
    if call.hasClient {
      LevelStages(call, ClientMap, fails);
      if ClientMap in fails {
        RefundsFrom(call.(stage := call.Refunds(ClientMap, 0)), ClientMap, fails);
      }
    }
  }

  /** A call takes the locks of the levels it goes through, global, client map, device map, one at a time;
      at the first level that fails it takes those below it again, in the same order and on top of that
      one, and then ends. */
  lemma StagesExact(g: bool, c: bool, d: bool, fails: seq<Lock>)
    ensures Stages(Started(g, c, d), fails)
            == Level(g, GlobalBucket)
               + if g && GlobalBucket in fails then []
                 else Level(c, ClientMap)
                      + if c && ClientMap in fails then Refund(g, ClientMap, GlobalBucket)
                        else Level(d, DeviceMap)
                             + if d && DeviceMap in fails then
                                 Refund(g, DeviceMap, GlobalBucket) + Refund(c, DeviceMap, ClientMap)
                               else []
  {
    var call := Started(g, c, d);
    if g {
      LevelStages(call, GlobalBucket, fails);
      RefundsFrom(call.(stage := call.Refunds(GlobalBucket, 0)), GlobalBucket, fails);
    }
    ClientStages(call.(stage := call.Onward(1)), fails);
    DeviceStages(call.(stage := call.Onward(2)), fails);
  }
}
