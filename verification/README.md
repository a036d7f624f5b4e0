# space-web world registry and broadcast tick, in Dafny

A model of the server core of a small multiplayer gravity simulation. Each
connected WebSocket session owns one `Entity` (id, position, velocity,
`Connected` flag) in a global registry keyed by the connection. A ticker
fires at 60 Hz. Each firing takes the registry lock and then:

1. advances every connected entity by one semi-implicit Euler step under
   the central star's softened inverse-square pull;
2. snapshots every entry, disconnected ones included;
3. serializes the snapshot;
4. writes it to every connected session, clearing `Connected` on each
   session whose write fails.

A session's handler registers its entity when the session is accepted. It
unregisters the entity when its read loop ends.

Every access to the registry in `server.go` holds the one mutex. So each
critical section is modelled as one atomic, pure transition over
`map<Handle, Entity>`:

- `vectors.dfy` (`Vectors`): `Vector2` over `real`, the simulation constants and the acceleration law with its 0.1 softening floor.
- `registry.dfy` (`Registry`): `Entity`, registration, unregistration, the snapshot loop, and the key enumeration that stands for Go's map iteration order.
- `physics.dfy` (`Physics`): the per-entity step and the physics loop.
- `broadcast.dfy` (`Broadcast`): the fan-out loop and the whole tick, with the tick's outcome recorded as a value.
- `lifecycle.dfy` (`Lifecycle`): runs as sequences of events (accept, close, tick), with properties that hold along every run.

Go's `range` over a map visits each key once, in an unspecified order. Each
loop is therefore a method over an `order` sequence that enumerates the keys.
Each loop is proved equal to a reference definition. Two results depend on
the order: the order of entities in the snapshot, and the order of the
write log that the fan-out loop returns. The registry after each loop, and
the set of sessions written to, do not depend on the order.

## Model

| member | source | states |
|---|---|---|
| `Vectors.ClampedRadius` | server.go:68-71 | The radius used is never below 0.1 and is the larger of the distance and 0.1, so the inverse-square division is never by zero. |
| `Vectors.GravitationalAccel` | server.go:67-78 | The acceleration is collinear with the position and points toward the star. Its dot product with any non-zero position is strictly negative. |
| `Vectors.AccelInverseSquare` | server.go:68-77 | At distance at least 0.1 the acceleration's magnitude is G * StarMass / distance^2 (stated on squares). |
| `Vectors.AccelSoftened` | server.go:69-77 | Inside 0.1 the position is divided by the floor, not by its own length. The acceleration is exactly -100000 times the position. |
| `Vectors.AccelBounded` | server.go:68-77 | Everywhere, the acceleration's magnitude is at most G * StarMass / 0.1^2 = 10000. |
| `Vectors.AccelAtTen` | server.go:67-78 | At (10, 0) the acceleration is (-1, 0). |
| `Registry.Register` | server.go:90-99 | The handle becomes a key. Its entity has the given id and position, zero velocity and `Connected` true. No other key is added or changed. |
| `Registry.Deregister` | server.go:104-107 | The store of the stale entity followed by the delete leaves the handle absent. Every other entry is unchanged. |
| `Registry.DeregisterAbsent` | server.go:104-107 | Unregistering an absent handle changes nothing. |
| `Registry.DeregisterIdempotent` | server.go:104-107 | A second unregistration of the same handle changes nothing. |
| `Registry.RegisterThenDeregister` | server.go:97-108 | Registering a fresh handle and then unregistering it restores the registry exactly. |
| `Registry.RegisterKeepsUniqueIds` | server.go:89-99 | Registering a fresh handle with an unused id keeps all ids distinct. |
| `Registry.DeregisterKeepsUniqueIds` | server.go:104-107 | Unregistration keeps all ids distinct. |
| `Registry.Snapshot` | server.go:148-151 | The snapshot has exactly one element per registry entry, disconnected entries included. The element at position i is the entity of the i-th visited key. |
| `Registry.SnapshotHasEveryKey` | server.go:148-151 | Every entry's entity, disconnected or not, appears in the snapshot at the position where its key is visited. |
| `Physics.StepEntity` | server.go:131-144 | A disconnected entity is returned unchanged. A connected entity gets v' - v = dt * a(p) and p' = p + dt * v + dt^2 * a(p). Id and `Connected` are unchanged. |
| `Physics.SemiImplicitOrder` | server.go:136-142 | The velocity is updated from the pre-step position. The position then advances by the new velocity. |
| `Physics.PhysicsStep` | server.go:131-145 | The step keeps the key set, and every entry becomes its one-step update. So connected entries move by semi-implicit Euler and disconnected entries come out identical. Ids and `Connected` flags are kept. |
| `Physics.Integrate` | server.go:131-145 | The physics loop, in any iteration order, yields `PhysicsStep` of the registry. |
| `Physics.StepFromTen` | server.go:136-142 | Starting at rest at (10, 0) under the server's law: one step gives velocity (-0.016, 0) and position (9.999744, 0). |
| `Broadcast.FanOut` | server.go:161-170 | Fan-out keeps the key set. An entry stays connected exactly when it was connected and its write did not fail. Nothing but `Connected` changes. |
| `Broadcast.FanOutLoop` | server.go:161-170 | The fan-out loop, in any order, yields `FanOut`. It writes once to each session that was connected when fan-out began, and to no other. |
| `Broadcast.TickRegistry` | server.go:128-171 | A tick keeps the key set, freezes disconnected entries and keeps ids. Every entry comes out as its physics-stepped value, apart from the `Connected` flag. An entry is connected after the tick exactly when it was connected before and either serialization failed or its write did not fail. |
| `Broadcast.PhysicsKeepsAttempted` | server.go:131-164 | The sessions the fan-out writes to, chosen after physics, are exactly those connected when the tick began. |
| `Broadcast.Tick` | server.go:128-171 | If serialization fails, the physics-updated registry is kept, with no payload and no writes. Otherwise the payload is the post-physics snapshot, writes go to the sessions connected before the tick, and the delivered set is those sessions minus the failures. |
| `Broadcast.RunTick` | server.go:128-171 | The three loops, each in its own iteration order, produce `Tick`. They perform one write per attempted session, with no repeats. |
| `Broadcast.PayloadHasEveryEntry` | server.go:147-152 | The payload has one element per registry entry. It contains every entry's post-physics entity, disconnected ones included. |
| `Broadcast.FanOutResilient` | server.go:161-170 | Another session's failed write does not stop fan-out. Every connected session whose own write succeeds is delivered to and stays connected. |
| `Broadcast.WriteFailureKeepsEntry` | server.go:147-170 | A failed write keeps the entry, with `Connected` false and its post-physics state. This tick's payload still showed it as connected. |
| `Broadcast.DisconnectedFrozen` | server.go:131-164 | A tick leaves a disconnected entry unchanged and attempts no write to it. |
| `Broadcast.GhostInNextPayload` | server.go:147-170 | After a failed write, the entry is in the next tick's payload marked disconnected, and the next tick does not write to it. |
| `Broadcast.TickKeepsUniqueIds` | server.go:128-171 | A tick keeps all ids distinct. |
| `Lifecycle.OnlyCloseRemoves` | server.go:97-171 | A registered handle leaves the registry in one event exactly when that event unregisters it. |
| `Lifecycle.KeptUntilClosed` | server.go:97-171 | Over any run with no unregistration of a handle, that handle stays registered. |
| `Lifecycle.GhostFrozen` | server.go:102-171 | A disconnected entry stays registered and unchanged through any run that neither unregisters nor re-registers its handle. |
| `Lifecycle.UniqueIdsAlong` | server.go:89-171 | If every accepted session has a fresh handle and an unused id, no two registered entities ever share an id. |

## Left out

- WebSocket upgrade, `ReadMessage`/`WriteMessage`, HTTP routing and the embedded page: network I/O and external libraries. A write's outcome is the input set `failures`. The end of a read loop is the `Close` event.
- The mutex, the goroutines and the 60 Hz ticker: each locked section is one atomic transition. Runs are sequences of such transitions.
- The `log.Println` diagnostics (server.go:116, 155, 166) and the `conn.Close()` when a handler ends (server.go:109): logging and connection teardown are I/O with no effect on the registry.
- `json.Marshal`: a foreign library. Its outcome is the input `marshalOk`.
- `randomPosition` and the clock-derived ids: randomness, trigonometry and the clock. The initial position and the id are parameters. `MinDistance` and `MaxDistance` are therefore not modelled.
- float64 rounding and `math.Sqrt`: components are `real`. `GravitationalAccel` takes the length of the position as a parameter, together with the requirement that it is that length. The physics step takes the acceleration law as a function parameter.
- `Lifecycle.UniqueIdsAlong`: assumes fresh ids. Two sessions accepted in the same nanosecond would share one, and the source accepts that and does not defend against it.

## Notes on the source

- Inside the softening radius the code divides the position by the clamped radius 0.1, not by the position's own length. So the acceleration there is -100000 times the position. Its magnitude is 100000 times the distance. That is below the inverse-square value at 0.1, which is 10000, and it goes to zero at the origin. The model follows the code (`Vectors.AccelSoftened`), and `Vectors.AccelBounded` states the bound the clamp gives.
- Unregistration first stores the handler's own copy of the entity with `Connected` cleared, then deletes the key. That copy may be out of date, since it dates from registration. The store is never observable because the delete follows under the same lock. `Registry.Deregister` models both steps and states that only the deletion remains.
