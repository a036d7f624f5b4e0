/**
 The world registry (server.go: `Entity` and the global `clients` map) and
 the two transitions of a session's lifecycle that touch it: registration
 when a session is accepted and unregistration when its read loop ends.

 Every access to `clients` in the source happens under `clientsMu`, so each
 critical section is modelled as one pure transition from the registry
 before it to the registry after it.
 */
module Registry {
  import opened Vectors

  /** Opaque session handle; stands for the connection pointer used as map key. */
  type Handle = nat

  datatype Entity = Entity(id: string, position: Vector2, velocity: Vector2, connected: bool)

  type Registry = map<Handle, Entity>

  /** No two registered entities share an id. */
  ghost predicate UniqueIds(reg: Registry) {
    forall h, k :: h in reg && k in reg && h != k ==> reg[h].id != reg[k].id
  }

  /** `id` is not the id of any registered entity. */
  ghost predicate IdUnused(reg: Registry, id: string) {
    forall k :: k in reg ==> reg[k].id != id
  }

  /** The entity a freshly accepted session starts with: at rest and live. */
  function NewEntity(id: string, position: Vector2): Entity {
    Entity(id, position, Zero, true)
  }

  /**
   Registration: store the new session's entity under its handle. The id
   and initial position are produced outside the lock (clock and random
   source) and arrive here as parameters.
   */
  function Register(reg: Registry, h: Handle, id: string, position: Vector2): (r: Registry)
    ensures r.Keys == reg.Keys + {h}
    ensures r[h].id == id && r[h].position == position
    ensures r[h].velocity == Zero && r[h].connected
    ensures forall k :: k in reg && k != h ==> r[k] == reg[k]
  {
    reg[h := NewEntity(id, position)]
  }

  /**
   Unregistration as written: the session's own copy of its entity (the one
   built at registration, `stale`) is stored back with `connected` cleared
   and the key is then deleted. Only the deletion is observable.
   */
  function Deregister(reg: Registry, h: Handle, stale: Entity): (r: Registry)
    ensures h !in r
    ensures r.Keys == reg.Keys - {h}
    ensures forall k :: k in r ==> r[k] == reg[k]
  {
    var marked := reg[h := stale.(connected := false)];
    marked - {h}
  }

  /** Unregistering a handle that is not registered changes nothing. */
  lemma DeregisterAbsent(reg: Registry, h: Handle, stale: Entity)
    requires h !in reg
    ensures Deregister(reg, h, stale) == reg
  {
  }

  /** Unregistering twice is the same as once, whatever copy each call holds. */
  lemma DeregisterIdempotent(reg: Registry, h: Handle, stale: Entity, stale': Entity)
    ensures Deregister(Deregister(reg, h, stale), h, stale') == Deregister(reg, h, stale)
  {
    DeregisterAbsent(Deregister(reg, h, stale), h, stale');
  }

  /** Registering a fresh handle and unregistering it restores the registry. */
  lemma RegisterThenDeregister(reg: Registry, h: Handle, id: string, position: Vector2, stale: Entity)
    requires h !in reg
    ensures Deregister(Register(reg, h, id, position), h, stale) == reg
  {
    var r := Deregister(Register(reg, h, id, position), h, stale);
    assert r.Keys == reg.Keys;
  }

  /** Registration keeps ids unique when the new id is unused and the handle fresh. */
  lemma RegisterKeepsUniqueIds(reg: Registry, h: Handle, id: string, position: Vector2)
    requires UniqueIds(reg) && IdUnused(reg, id) && h !in reg
    ensures UniqueIds(Register(reg, h, id, position))
  {
  }

  /** Unregistration keeps ids unique. */
  lemma DeregisterKeepsUniqueIds(reg: Registry, h: Handle, stale: Entity)
    requires UniqueIds(reg)
    ensures UniqueIds(Deregister(reg, h, stale))
  {
  }

  /* ---------------------------------------------------------------------
     Iteration order. A Go `range` over a map visits every key exactly once
     in an unspecified order; a loop over the registry is modelled as a loop
     over a sequence that enumerates its keys.
     --------------------------------------------------------------------- */

  predicate Distinct(s: seq<Handle>) {
    forall i, j :: 0 <= i < j < |s| ==> s[i] != s[j]
  }

  /** `order` lists every key of `keys` exactly once. */
  predicate IsEnumeration(order: seq<Handle>, keys: set<Handle>) {
    && Distinct(order)
    && (forall i :: 0 <= i < |order| ==> order[i] in keys)
    && (forall k :: k in keys ==> k in order)
  }

  /** An enumeration is exactly as long as the set it enumerates. */
  lemma {:induction false} EnumerationLength(order: seq<Handle>, keys: set<Handle>)
    requires IsEnumeration(order, keys)
    ensures |order| == |keys|
  {
    if order == [] {
      assert keys == {};
    } else {
      var rest := order[1..];
      var keys' := keys - {order[0]};
      forall k | k in keys' ensures k in rest {
        assert k in order;
        var i :| 0 <= i < |order| && order[i] == k;
        assert i != 0;
        assert rest[i - 1] == k;
      }
      forall i | 0 <= i < |rest| ensures rest[i] in keys' {
        assert rest[i] == order[i + 1];
      }
      EnumerationLength(rest, keys');
    }
  }

  /** The keys a loop over `order` has visited after its first `n` iterations. */
  function Visited(order: seq<Handle>, n: nat): set<Handle>
    requires n <= |order|
  {
    set h | h in order[..n]
  }

  /**
   One more iteration visits exactly one more key, and it is one not visited
   before, since an enumeration lists each key once.
   */
  lemma VisitedStep(order: seq<Handle>, keys: set<Handle>, n: nat)
    requires IsEnumeration(order, keys) && n < |order|
    ensures order[n] in keys && order[n] !in Visited(order, n)
    ensures Visited(order, n + 1) == Visited(order, n) + {order[n]}
  {
    assert order[..n + 1] == order[..n] + [order[n]];
    forall i | 0 <= i < n ensures order[..n][i] != order[n] {
      assert order[..n][i] == order[i];
    }
  }

  /** A loop that has run to the end of an enumeration has visited every key. */
  lemma VisitedAll(order: seq<Handle>, keys: set<Handle>)
    requires IsEnumeration(order, keys)
    ensures Visited(order, |order|) == keys
  {
    assert order[..|order|] == order;
  }

  /** The snapshot taken in iteration order `order`, as a value. */
  function SnapshotOf(reg: Registry, order: seq<Handle>): (s: seq<Entity>)
    requires forall i :: 0 <= i < |order| ==> order[i] in reg
    ensures |s| == |order|
    ensures forall i :: 0 <= i < |s| ==> s[i] == reg[order[i]]
  {
    seq(|order|, i requires 0 <= i < |order| => reg[order[i]])
  }

  /**
   The snapshot loop: every registry entry, connected or not, appended in
   iteration order.
   */
  method Snapshot(reg: Registry, order: seq<Handle>) returns (entities: seq<Entity>)
    requires IsEnumeration(order, reg.Keys)
    ensures entities == SnapshotOf(reg, order)
    ensures |entities| == |reg|
    ensures forall i :: 0 <= i < |entities| ==> entities[i] == reg[order[i]]
  {
    EnumerationLength(order, reg.Keys);
    entities := [];
    var n := 0;
    while n < |order|
      invariant n <= |order|
      invariant |entities| == n
      invariant forall i :: 0 <= i < n ==> entities[i] == reg[order[i]]
    {
      entities := entities + [reg[order[n]]];
      n := n + 1;
    }
  }

  /**
   Every key's entity is in the snapshot, at the position where the
   enumeration lists that key; disconnected entries are not skipped.
   */
  lemma SnapshotHasEveryKey(reg: Registry, order: seq<Handle>)
    requires IsEnumeration(order, reg.Keys)
    ensures forall h :: h in reg ==>
      exists i :: 0 <= i < |order| && order[i] == h && SnapshotOf(reg, order)[i] == reg[h]
  {
    var s := SnapshotOf(reg, order);
    forall h | h in reg
      ensures exists i :: 0 <= i < |order| && order[i] == h && s[i] == reg[h]
    {
      var i :| 0 <= i < |order| && order[i] == h;
      assert s[i] == reg[h];
    }
  }
}
