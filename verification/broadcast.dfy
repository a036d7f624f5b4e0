/**
 One firing of the broadcast ticker (server.go, `broadcastUpdates`): under
 the registry lock, integrate physics, snapshot every entry, serialize the
 snapshot and write it to every connected session, clearing `connected` on
 each session whose write fails.

 The serializer and the transport are outside the model: whether
 serialization succeeds is the parameter `marshalOk`, and the sessions whose
 write would fail this tick are the set `failures`.
 */
module Broadcast {
  import opened Vectors
  import opened Registry
  import opened Physics

  /** The handles a fan-out over `reg` writes to: exactly the connected ones. */
  function Attempted(reg: Registry): set<Handle> {
    set h | h in reg && reg[h].connected
  }

  /**
   Physics never changes a `connected` flag, so the sessions written to after
   the physics step are those that were connected when the tick began.
   */
  lemma PhysicsKeepsAttempted(reg: Registry, accel: Vector2 -> Vector2)
    ensures Attempted(PhysicsStep(reg, accel)) == Attempted(reg)
  {
  }

  /** One entry after its write: cleared if it was written to and the write failed. */
  function AfterWrite(e: Entity, h: Handle, failures: set<Handle>): Entity {
    if e.connected && h in failures then e.(connected := false) else e
  }

  /**
   The registry after fan-out, as a value: an entry that was connected and
   whose write failed has `connected` cleared; every other entry is as it was.
   */
  function FanOut(reg: Registry, failures: set<Handle>): (r: Registry)
    ensures r.Keys == reg.Keys
    ensures forall h :: h in reg ==> (r[h].connected <==> reg[h].connected && h !in failures)
    ensures forall h :: h in reg ==> r[h] == reg[h].(connected := r[h].connected)
  {
    map h | h in reg :: AfterWrite(reg[h], h, failures)
  }

  /** The keys of `s`, in order, whose entries in `reg` are connected. */
  function ConnectedIn(reg: Registry, s: seq<Handle>): (w: seq<Handle>)
    requires forall i :: 0 <= i < |s| ==> s[i] in reg
    ensures forall h :: h in w <==> h in s && reg[h].connected
  {
    if s == [] then []
    else
      var w := ConnectedIn(reg, s[..|s| - 1]);
      var h := s[|s| - 1];
      if reg[h].connected then w + [h] else w
  }

  /** Extending the visited prefix by one key appends that key exactly when it is connected. */
  lemma ConnectedInStep(reg: Registry, s: seq<Handle>, n: nat)
    requires n < |s|
    requires forall i :: 0 <= i < |s| ==> s[i] in reg
    ensures ConnectedIn(reg, s[..n + 1]) == ConnectedIn(reg, s[..n]) + (if reg[s[n]].connected then [s[n]] else [])
  {
    assert s[..n + 1][..n] == s[..n];
  }

  /** Filtering a sequence without repetitions gives one without repetitions. */
  lemma {:induction false} ConnectedInDistinct(reg: Registry, s: seq<Handle>)
    requires forall i :: 0 <= i < |s| ==> s[i] in reg
    requires Distinct(s)
    ensures Distinct(ConnectedIn(reg, s))
  {
    if s != [] {
      var init := s[..|s| - 1];
      ConnectedInDistinct(reg, init);
      var h := s[|s| - 1];
      if reg[h].connected {
        assert h !in init;
        assert h !in ConnectedIn(reg, init);
      }
    }
  }

  /** Fan-out part-way through: the entries in `visited` have had their write. */
  function FanOutOn(reg: Registry, visited: set<Handle>, failures: set<Handle>): Registry {
    map h | h in reg :: if h in visited then AfterWrite(reg[h], h, failures) else reg[h]
  }

  /** Visiting one more key applies its write and touches nothing else. */
  lemma FanOutOnStep(reg: Registry, visited: set<Handle>, failures: set<Handle>, h: Handle)
    requires h in reg && h !in visited
    ensures FanOutOn(reg, visited + {h}, failures) == FanOutOn(reg, visited, failures)[h := AfterWrite(reg[h], h, failures)]
  {
  }

  /**
   What the fan-out loop needs to know when it visits `order[n]`: the entry
   is still the one fan-out began with, and after the store (a failed write)
   or no store (any other case) the registry is the next prefix's state.
   */
  lemma FanOutVisit(reg: Registry, order: seq<Handle>, n: nat, failures: set<Handle>, r: Registry)
    requires IsEnumeration(order, reg.Keys) && n < |order|
    requires r == FanOutOn(reg, Visited(order, n), failures)
    ensures order[n] in r && r[order[n]] == reg[order[n]]
    ensures r[order[n]].connected && order[n] in failures ==>
      r[order[n] := r[order[n]].(connected := false)] == FanOutOn(reg, Visited(order, n + 1), failures)
    ensures !(r[order[n]].connected && order[n] in failures) ==> r == FanOutOn(reg, Visited(order, n + 1), failures)
    ensures ConnectedIn(reg, order[..n + 1])
      == ConnectedIn(reg, order[..n]) + (if reg[order[n]].connected then [order[n]] else [])
  {
    VisitedStep(order, reg.Keys, n);
    FanOutOnStep(reg, Visited(order, n), failures, order[n]);
    ConnectedInStep(reg, order, n);
  }

  /**
   The fan-out loop as written. `writes` logs, in order, every session a
   write was attempted on. The loop reads each entry as it stands when its
   key is visited; since only the visited key is ever stored, that is its
   value at the start of fan-out.
   */
  method FanOutLoop(reg: Registry, order: seq<Handle>, failures: set<Handle>)
    returns (r: Registry, writes: seq<Handle>)
    requires IsEnumeration(order, reg.Keys)
    ensures r == FanOut(reg, failures)
    ensures Distinct(writes)
    ensures forall h :: h in writes <==> h in Attempted(reg)
  {
    r := reg;
    writes := [];
    FanOutStart(reg, order, failures);
    var n := 0;
    while n < |order|
      invariant n <= |order|
      invariant r == FanOutOn(reg, Visited(order, n), failures)
      invariant writes == ConnectedIn(reg, order[..n])
    {
      var h := order[n];
      FanOutVisit(reg, order, n, failures, r);
      var entity := r[h];
      if entity.connected {
        writes := writes + [h];
        if h in failures {
          r := r[h := entity.(connected := false)];
        }
      }
      n := n + 1;
    }
    FanOutFinished(reg, order, failures);
  }

  /** Before the first iteration nothing is visited and nothing is written. */
  lemma FanOutStart(reg: Registry, order: seq<Handle>, failures: set<Handle>)
    ensures FanOutOn(reg, Visited(order, 0), failures) == reg
    ensures ConnectedIn(reg, order[..0]) == []
  {
    assert Visited(order, 0) == {};
  }

  /** Once the whole enumeration is visited, the loop's state is the complete fan-out. */
  lemma FanOutFinished(reg: Registry, order: seq<Handle>, failures: set<Handle>)
    requires IsEnumeration(order, reg.Keys)
    ensures FanOutOn(reg, Visited(order, |order|), failures) == FanOut(reg, failures)
    ensures Distinct(ConnectedIn(reg, order[..|order|]))
    ensures forall h :: h in ConnectedIn(reg, order[..|order|]) <==> h in Attempted(reg)
  {
    assert order[..|order|] == order;
    ConnectedInDistinct(reg, order);
    VisitedAll(order, reg.Keys);
  }

  /** A serialized snapshot, or nothing when serialization failed. */
  datatype Payload = NoPayload | Payload(entities: seq<Entity>)

  /**
   What one tick produces: the registry after it, the payload handed to the
   transport, the sessions a write was attempted on and those it reached.
   */
  datatype TickOutcome = TickOutcome(registry: Registry, payload: Payload, attempted: set<Handle>, delivered: set<Handle>)

  /** The registry effect of a tick; it does not depend on iteration orders. */
  function TickRegistry(reg: Registry, accel: Vector2 -> Vector2, marshalOk: bool, failures: set<Handle>): (r: Registry)
    ensures r.Keys == reg.Keys
    ensures forall h :: h in reg && !reg[h].connected ==> r[h] == reg[h]
    ensures forall h :: h in reg ==> r[h].id == reg[h].id
    ensures forall h :: h in reg ==> (r[h].connected <==> reg[h].connected && (!marshalOk || h !in failures))
    ensures forall h :: h in reg ==> r[h] == StepEntity(reg[h], accel).(connected := r[h].connected)
  {
    var stepped := PhysicsStep(reg, accel);
    if marshalOk then FanOut(stepped, failures) else stepped
  }

  /**
   A whole tick as a value, with the snapshot taken in iteration order
   `snapOrder`. The payload is built after physics and before fan-out.
   */
  function Tick(reg: Registry, accel: Vector2 -> Vector2, snapOrder: seq<Handle>, marshalOk: bool, failures: set<Handle>): (t: TickOutcome)
    requires IsEnumeration(snapOrder, reg.Keys)
    ensures t.registry == TickRegistry(reg, accel, marshalOk, failures)
    ensures !marshalOk ==> t.registry == PhysicsStep(reg, accel) && t.payload == NoPayload && t.attempted == {}
    ensures marshalOk ==> t.payload == Payload(SnapshotOf(PhysicsStep(reg, accel), snapOrder))
    ensures marshalOk ==> t.attempted == Attempted(reg)
    ensures t.delivered == t.attempted - failures
  {
    var stepped := PhysicsStep(reg, accel);
    if !marshalOk then TickOutcome(stepped, NoPayload, {}, {})
    else
      var attempted := Attempted(stepped);
      PhysicsKeepsAttempted(reg, accel);
      TickOutcome(FanOut(stepped, failures), Payload(SnapshotOf(stepped, snapOrder)), attempted, attempted - failures)
  }

  /**
   The tick as written: the physics loop, the snapshot loop and the fan-out
   loop, each over its own iteration order of the same keys.
   */
  method RunTick(reg: Registry, accel: Vector2 -> Vector2,
                 physOrder: seq<Handle>, snapOrder: seq<Handle>, fanOrder: seq<Handle>,
                 marshalOk: bool, failures: set<Handle>)
    returns (t: TickOutcome, writes: seq<Handle>)
    requires IsEnumeration(physOrder, reg.Keys)
    requires IsEnumeration(snapOrder, reg.Keys)
    requires IsEnumeration(fanOrder, reg.Keys)
    ensures t == Tick(reg, accel, snapOrder, marshalOk, failures)
    ensures Distinct(writes)
    ensures forall h :: h in writes <==> h in t.attempted
  {
    var stepped := Integrate(reg, accel, physOrder);
    var entities := Snapshot(stepped, snapOrder);
    if !marshalOk {
      t := TickOutcome(stepped, NoPayload, {}, {});
      writes := [];
      return;
    }
    var r;
    r, writes := FanOutLoop(stepped, fanOrder, failures);
    var attempted := set h | h in writes;
    SameMembers(writes, Attempted(stepped));
    t := TickOutcome(r, Payload(entities), attempted, attempted - failures);
    TickAsWritten(reg, accel, snapOrder, failures, stepped, entities, r, attempted);
  }

  /** The pieces the three loops compute assemble into `Tick`. */
  lemma TickAsWritten(reg: Registry, accel: Vector2 -> Vector2, snapOrder: seq<Handle>, failures: set<Handle>,
                      stepped: Registry, entities: seq<Entity>, r: Registry, attempted: set<Handle>)
    requires IsEnumeration(snapOrder, reg.Keys)
    requires stepped == PhysicsStep(reg, accel)
    requires entities == SnapshotOf(stepped, snapOrder)
    requires r == FanOut(stepped, failures)
    requires attempted == Attempted(stepped)
    ensures TickOutcome(r, Payload(entities), attempted, attempted - failures) == Tick(reg, accel, snapOrder, true, failures)
  {
  }

  /** A sequence whose members are exactly those of `s` lists the set `s`. */
  lemma SameMembers(w: seq<Handle>, s: set<Handle>)
    requires forall h :: h in w <==> h in s
    ensures (set h | h in w) == s
  {
  }

  /** Every entity of the registry, disconnected ones included, is in the payload. */
  lemma PayloadHasEveryEntry(reg: Registry, accel: Vector2 -> Vector2, snapOrder: seq<Handle>, failures: set<Handle>)
    requires IsEnumeration(snapOrder, reg.Keys)
    ensures var t := Tick(reg, accel, snapOrder, true, failures);
      && t.payload.Payload?
      && |t.payload.entities| == |reg|
      && forall h :: h in reg ==> PhysicsStep(reg, accel)[h] in t.payload.entities
  {
    EnumerationLength(snapOrder, reg.Keys);
    var stepped := PhysicsStep(reg, accel);
    SnapshotHasEveryKey(stepped, snapOrder);
  }

  /**
   A failed write does not stop the fan-out: every connected session other
   than the failing ones is written to and stays connected.
   */
  lemma FanOutResilient(reg: Registry, accel: Vector2 -> Vector2, snapOrder: seq<Handle>, failures: set<Handle>, h: Handle)
    requires IsEnumeration(snapOrder, reg.Keys)
    requires h in reg && reg[h].connected && h !in failures
    ensures var t := Tick(reg, accel, snapOrder, true, failures);
      h in t.delivered && t.registry[h].connected
  {
  }

  /**
   The ghost window opens: a connected session whose write fails stays in
   the registry, marked disconnected, with its just-integrated state; it was
   in this tick's payload still marked connected.
   */
  lemma WriteFailureKeepsEntry(reg: Registry, accel: Vector2 -> Vector2, snapOrder: seq<Handle>, failures: set<Handle>, h: Handle)
    requires IsEnumeration(snapOrder, reg.Keys)
    requires h in reg && reg[h].connected && h in failures
    ensures var t := Tick(reg, accel, snapOrder, true, failures);
      && h in t.registry
      && !t.registry[h].connected
      && t.registry[h] == PhysicsStep(reg, accel)[h].(connected := false)
      && h in t.attempted && h !in t.delivered
      && PhysicsStep(reg, accel)[h] in t.payload.entities
      && PhysicsStep(reg, accel)[h].connected
  {
    PayloadHasEveryEntry(reg, accel, snapOrder, failures);
  }

  /** A disconnected entry is frozen by a tick and no write is attempted on it. */
  lemma DisconnectedFrozen(reg: Registry, accel: Vector2 -> Vector2, snapOrder: seq<Handle>, marshalOk: bool, failures: set<Handle>, h: Handle)
    requires IsEnumeration(snapOrder, reg.Keys)
    requires h in reg && !reg[h].connected
    ensures var t := Tick(reg, accel, snapOrder, marshalOk, failures);
      h in t.registry && t.registry[h] == reg[h] && h !in t.attempted
  {
  }

  /**
   The ghost window spans the next tick: the entry whose write failed is in
   the next payload, now marked disconnected, and is not written to again.
   */
  lemma GhostInNextPayload(reg: Registry, accel: Vector2 -> Vector2, order: seq<Handle>, failures: set<Handle>,
                           accel': Vector2 -> Vector2, order': seq<Handle>, failures': set<Handle>, h: Handle)
    requires IsEnumeration(order, reg.Keys) && IsEnumeration(order', reg.Keys)
    requires h in reg && reg[h].connected && h in failures
    ensures var t := Tick(reg, accel, order, true, failures);
      var t' := Tick(t.registry, accel', order', true, failures');
      && h in t'.registry
      && !t.registry[h].connected
      && t.registry[h] in t'.payload.entities
      && h !in t'.attempted
  {
    var t := Tick(reg, accel, order, true, failures);
    WriteFailureKeepsEntry(reg, accel, order, failures, h);
    DisconnectedFrozen(t.registry, accel', order', true, failures', h);
    PayloadHasEveryEntry(t.registry, accel', order', failures');
  }

  /** Tick never assigns ids, so it keeps them unique. */
  lemma TickKeepsUniqueIds(reg: Registry, accel: Vector2 -> Vector2, marshalOk: bool, failures: set<Handle>)
    requires UniqueIds(reg)
    ensures UniqueIds(TickRegistry(reg, accel, marshalOk, failures))
  {
  }
}
