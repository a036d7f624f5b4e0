/**
 The registry as a sequential state machine. Sessions are accepted and
 closed concurrently with the ticker (server.go, `wsHandler` and
 `broadcastUpdates`), but every access holds the one registry lock, so any
 run is a sequence of atomic events: a session is accepted and registered,
 a session's read loop ends and it is unregistered, or the ticker fires.
 */
module Lifecycle {
  import opened Vectors
  import opened Registry
  import opened Broadcast

  datatype Event =
    | Accept(h: Handle, id: string, position: Vector2)
      /** the session's read loop ended; `stale` is the handler's own copy of its entity */
    | Close(h: Handle, stale: Entity)
    | Fire(accel: Vector2 -> Vector2, marshalOk: bool, failures: set<Handle>)

  function Apply(reg: Registry, ev: Event): Registry {
    match ev
    case Accept(h, id, position) => Register(reg, h, id, position)
    case Close(h, stale) => Deregister(reg, h, stale)
    case Fire(accel, marshalOk, failures) => TickRegistry(reg, accel, marshalOk, failures)
  }

  function Run(reg: Registry, evs: seq<Event>): Registry
    decreases |evs|
  {
    if evs == [] then reg else Run(Apply(reg, evs[0]), evs[1..])
  }

  predicate Closes(ev: Event, h: Handle) {
    ev.Close? && ev.h == h
  }

  predicate Accepts(ev: Event, h: Handle) {
    ev.Accept? && ev.h == h
  }

  /** A registered handle leaves the registry in one event exactly when that event closes it. */
  lemma OnlyCloseRemoves(reg: Registry, ev: Event, h: Handle)
    requires h in reg
    ensures h !in Apply(reg, ev) <==> Closes(ev, h)
  {
  }

  /** A handle registered at the start is still registered after any run that does not close it. */
  lemma {:induction false} KeptUntilClosed(reg: Registry, evs: seq<Event>, h: Handle)
    requires h in reg
    requires forall i :: 0 <= i < |evs| ==> !Closes(evs[i], h)
    ensures h in Run(reg, evs)
    decreases |evs|
  {
    if evs != [] {
      OnlyCloseRemoves(reg, evs[0], h);
      KeptUntilClosed(Apply(reg, evs[0]), evs[1..], h);
    }
  }

  /**
   The ghost window: an entry marked disconnected stays in the registry,
   unchanged, through every tick and every other session's events, until its
   own session is closed.
   */
  lemma {:induction false} GhostFrozen(reg: Registry, evs: seq<Event>, h: Handle)
    requires h in reg && !reg[h].connected
    requires forall i :: 0 <= i < |evs| ==> !Closes(evs[i], h) && !Accepts(evs[i], h)
    ensures h in Run(reg, evs) && Run(reg, evs)[h] == reg[h]
    decreases |evs|
  {
    if evs != [] {
      var next := Apply(reg, evs[0]);
      assert h in next && next[h] == reg[h];
      GhostFrozen(next, evs[1..], h);
    }
  }

  /**
   Every accepted session gets a handle not in the registry and an id no
   registered entity has (the source takes a fresh connection and a clock
   reading; a repeated reading is the accepted, undefended edge case).
   */
  ghost predicate FreshAccepts(reg: Registry, evs: seq<Event>)
    decreases |evs|
  {
    evs != [] ==>
      && (evs[0].Accept? ==> evs[0].h !in reg && IdUnused(reg, evs[0].id))
      && FreshAccepts(Apply(reg, evs[0]), evs[1..])
  }

  /** With fresh accepts, no two registered entities ever share an id. */
  lemma {:induction false} UniqueIdsAlong(reg: Registry, evs: seq<Event>)
    requires UniqueIds(reg) && FreshAccepts(reg, evs)
    ensures UniqueIds(Run(reg, evs))
    decreases |evs|
  {
    if evs != [] {
      match evs[0] {
        case Accept(h, id, position) => RegisterKeepsUniqueIds(reg, h, id, position);
        case Close(h, stale) => DeregisterKeepsUniqueIds(reg, h, stale);
        case Fire(accel, marshalOk, failures) => TickKeepsUniqueIds(reg, accel, marshalOk, failures);
      }
      UniqueIdsAlong(Apply(reg, evs[0]), evs[1..]);
    }
  }
}
