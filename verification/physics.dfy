/**
 The physics step of a broadcast tick (server.go, first loop of
 `broadcastUpdates`): every connected entity is advanced by one fixed
 timestep with semi-implicit Euler; disconnected entities are skipped.

 The acceleration law is a parameter `accel`; `Vectors.GravitationalAccel`
 is the one the server uses.
 */
module Physics {
  import opened Vectors
  import opened Registry

  /**
   One entity through one step: the velocity is updated from the acceleration
   at the current position, then the position is moved by the NEW velocity.
   */
  function StepEntity(e: Entity, accel: Vector2 -> Vector2): (e': Entity)
    ensures e'.id == e.id && e'.connected == e.connected
    ensures !e.connected ==> e' == e
    ensures e.connected ==>
      var a := accel(e.position);
      && e'.velocity.x - e.velocity.x == TimeStep * a.x
      && e'.velocity.y - e.velocity.y == TimeStep * a.y
      && e'.position.x == e.position.x + TimeStep * e.velocity.x + TimeStep * TimeStep * a.x
      && e'.position.y == e.position.y + TimeStep * e.velocity.y + TimeStep * TimeStep * a.y
  {
    if !e.connected then e
    else
      var a := accel(e.position);
      var v := Vector2(e.velocity.x + a.x * TimeStep, e.velocity.y + a.y * TimeStep);
      var p := Vector2(e.position.x + v.x * TimeStep, e.position.y + v.y * TimeStep);
      e.(velocity := v, position := p)
  }

  /**
   The update order matters: the position advances by the new velocity, not
   the old one, so the result differs from explicit Euler by
   TimeStep^2 * a, and from a step that reads the acceleration after moving.
   */
  lemma SemiImplicitOrder(e: Entity, accel: Vector2 -> Vector2)
    requires e.connected
    ensures StepEntity(e, accel).position == Add(e.position, Scale(TimeStep, StepEntity(e, accel).velocity))
    ensures StepEntity(e, accel).velocity == Add(e.velocity, Scale(TimeStep, accel(e.position)))
  {
  }

  /** The physics step over the whole registry, as a value. */
  function PhysicsStep(reg: Registry, accel: Vector2 -> Vector2): (r: Registry)
    ensures r.Keys == reg.Keys
    ensures forall h :: h in reg && !reg[h].connected ==> r[h] == reg[h]
    ensures forall h :: h in reg ==> r[h].id == reg[h].id && r[h].connected == reg[h].connected
    ensures forall h :: h in reg ==> r[h] == StepEntity(reg[h], accel)
  {
    map h | h in reg :: StepEntity(reg[h], accel)
  }

  /**
   The physics loop as written: visit the keys in iteration order, skip
   disconnected entries, store each updated entity back under its key.
   Whatever the order, the result is the order-free `PhysicsStep`.
   */
  method Integrate(reg: Registry, accel: Vector2 -> Vector2, order: seq<Handle>) returns (r: Registry)
    requires IsEnumeration(order, reg.Keys)
    ensures r.Keys == reg.Keys
    ensures forall h :: h in reg ==> r[h] == StepEntity(reg[h], accel)
    ensures r == PhysicsStep(reg, accel)
  {
    r := reg;
    var n := 0;
    while n < |order|
      invariant n <= |order|
      invariant r.Keys == reg.Keys
      invariant forall h :: h in reg ==> r[h] == if h in Visited(order, n) then StepEntity(reg[h], accel) else reg[h]
    {
      var h := order[n];
      VisitedStep(order, reg.Keys, n);
      var entity := r[h];
      if entity.connected {
        var a := accel(entity.position);
        var v := Vector2(entity.velocity.x + a.x * TimeStep, entity.velocity.y + a.y * TimeStep);
        var p := Vector2(entity.position.x + v.x * TimeStep, entity.position.y + v.y * TimeStep);
        r := r[h := entity.(velocity := v, position := p)];
      }
      n := n + 1;
    }
    VisitedAll(order, reg.Keys);
  }

  /**
   One step of the server's law from rest at (10, 0): the acceleration there
   is (-1, 0), so the velocity becomes (-0.016, 0) and the position moves by
   TimeStep^2 to (9.999744, 0).
   */
  lemma StepFromTen(id: string, accel: Vector2 -> Vector2)
    requires accel(Vector2(10.0, 0.0)) == GravitationalAccel(Vector2(10.0, 0.0), 10.0)
    ensures var e' := StepEntity(Entity(id, Vector2(10.0, 0.0), Zero, true), accel);
      e'.velocity == Vector2(-0.016, 0.0) && e'.position == Vector2(9.999744, 0.0)
  {
    AccelAtTen();
    StepUnderUnitPull(id, accel);
  }

  lemma StepUnderUnitPull(id: string, accel: Vector2 -> Vector2)
    requires accel(Vector2(10.0, 0.0)) == Vector2(-1.0, 0.0)
    ensures var e' := StepEntity(Entity(id, Vector2(10.0, 0.0), Zero, true), accel);
      e'.velocity == Vector2(-0.016, 0.0) && e'.position == Vector2(9.999744, 0.0)
  {
    StepFromRest(Entity(id, Vector2(10.0, 0.0), Zero, true), accel, Vector2(-1.0, 0.0));
  }

  /** A step from rest moves by TimeStep * a in velocity and TimeStep^2 * a in position. */
  lemma StepFromRest(e: Entity, accel: Vector2 -> Vector2, a: Vector2)
    requires e.connected && e.velocity == Zero && accel(e.position) == a
    ensures StepEntity(e, accel).velocity == Scale(TimeStep, a)
    ensures StepEntity(e, accel).position == Add(e.position, Scale(TimeStep * TimeStep, a))
  {
  }
}
