/**
 * The `Manager` of the entity/component system: the entity/component store,
 * the message-subscription registry and the set of registered systems, with
 * the events it raises recorded in a ghost log.
 */
module Managers {
  import opened Components
  import opened Registry

  /** C#'s `long`. */
  newtype int64 = x: int | -0x8000_0000_0000_0000 <= x < 0x8000_0000_0000_0000

  /** Stands for a `System.Guid`. */
  type EntityId = nat

  /** The type id of `TS.ECS.Entity`, the base class of every entity type. */
  const EntityClass: TypeId := 0

  /** An entity object: its id and its run-time type (`Entity` or a subclass). */
  datatype Entity = Entity(id: EntityId, runtimeType: RuntimeType)

  /** The value stored for an entity: the entity and its component list, in insertion order. */
  datatype Entry = Entry(entity: Entity, components: seq<Component>)

  /** Any other .NET object reference (message payloads and senders). */
  datatype ObjectRef = ObjectRef(address: nat)

  /** A message as handed to a subscriber; `None` stands for `null`. */
  datatype MessageEventArgs = MessageEventArgs(messageType: int, messageData: Option<ObjectRef>,
                                               manager: Manager, sender: Option<ObjectRef>)

  /** One `system.HandleMessage(args)` call that `Broadcast` hands to a task. */
  datatype Delivery = Delivery(recipient: System, args: MessageEventArgs)

  /** One `system.Tick(manager, msSinceLastTick)` call made by `Tick`. */
  datatype TickCall = TickCall(system: System, manager: Manager, msSinceLastTick: int64)

  /** The events the manager raises: `OnCreateEntity`, `OnComponentAdded`, `OnComponentRemoved`. */
  datatype Event =
    | EntityCreated(entity: Entity)
    | ComponentAdded(entity: Entity, component: Component)
    | ComponentRemoved(entity: Entity, component: Component)

  /** The ids of the entities whose creation the log announces. */
  ghost function CreatedIds(log: seq<Event>): set<EntityId> {
    if log == [] then {}
    else
      var last := log[|log| - 1];
      CreatedIds(log[..|log| - 1]) + if last.EntityCreated? then {last.entity.id} else {}
  }

  /** How one event changes the components announced for entity `id`. */
  ghost function Step(announced: multiset<Component>, ev: Event, id: EntityId): multiset<Component> {
    match ev
    case EntityCreated(_) => announced
    case ComponentAdded(e, added) => if e.id == id then announced + multiset{added} else announced
    case ComponentRemoved(e, removed) => if e.id == id then announced - multiset{removed} else announced
  }

  /** The components of entity `id` according to the log: those added, less those removed. */
  ghost function Announced(log: seq<Event>, id: EntityId): multiset<Component> {
    if log == [] then multiset{} else Step(Announced(log[..|log| - 1], id), log[|log| - 1], id)
  }

  /** Only an `EntityCreated` event adds an id to the announced ones. */
  lemma CreatedIdsSnoc(log: seq<Event>, ev: Event)
    ensures CreatedIds(log + [ev]) == CreatedIds(log) + if ev.EntityCreated? then {ev.entity.id} else {}
  {
  }

  /** The components announced for an entity change one event at a time, by `Step`. */
  lemma AnnouncedSnoc(log: seq<Event>, ev: Event, id: EntityId)
    ensures Announced(log + [ev], id) == Step(Announced(log, id), ev, id)
  {
  }

  /** The entity/component store: each entity id mapped to the entity and its component list. */
  type EntityMap = map<EntityId, Entry>

  /**
   * The store agrees with the event log: each entity is stored under its own
   * id and is an `Entity`; the stored entities are exactly those whose
   * creation was announced; and each component list holds exactly the
   * components announced as added and not since removed.
   */
  ghost predicate Consistent(store: EntityMap, log: seq<Event>) {
    && (forall id :: id in store ==> store[id].entity.id == id && store[id].entity.runtimeType.Is(EntityClass))
    && CreatedIds(log) == store.Keys
    && (forall id {:trigger Announced(log, id)} :: Announced(log, id) == if id in store then multiset(store[id].components) else multiset{})
  }

  /** Creating an entity and announcing it keeps the store and the log in agreement. */
  lemma ConsistentAfterCreate(store: EntityMap, log: seq<Event>, entity: Entity)
    requires Consistent(store, log)
    requires entity.id !in store && entity.runtimeType.Is(EntityClass)
    ensures Consistent(store[entity.id := Entry(entity, [])], log + [EntityCreated(entity)])
  {
    CreatedIdsSnoc(log, EntityCreated(entity));
    forall k ensures Announced(log + [EntityCreated(entity)], k) == Announced(log, k) {
      AnnouncedSnoc(log, EntityCreated(entity), k);
    }
  }

  /** The store after `component` is appended to the list of entity `id`. */
  function AddedTo(store: EntityMap, id: EntityId, component: Component): (r: EntityMap)
    requires id in store
    ensures r.Keys == store.Keys
    ensures forall k :: k in store && k != id ==> r[k] == store[k]
    ensures r[id].entity == store[id].entity
    ensures |r[id].components| == |store[id].components| + 1
    ensures r[id].components[..|store[id].components|] == store[id].components
    ensures r[id].components[|store[id].components|] == component
  {
    store[id := store[id].(components := store[id].components + [component])]
  }

  /** The store after the first `component` is removed from the list of entity `id`. */
  function RemovedFrom(store: EntityMap, id: EntityId, component: Component): (r: EntityMap)
    requires id in store
    ensures r.Keys == store.Keys
    ensures forall k :: k in store && k != id ==> r[k] == store[k]
    ensures r[id].entity == store[id].entity
    ensures multiset(r[id].components) == multiset(store[id].components) - multiset{component}
    ensures component !in store[id].components ==> r == store
  {
    store[id := store[id].(components := Remove(store[id].components, component))]
  }

  /** Appending a component to a known entity and announcing it keeps the store and the log in agreement. */
  lemma ConsistentAfterAdd(store: EntityMap, log: seq<Event>, entity: Entity, component: Component)
    requires Consistent(store, log)
    requires entity.id in store
    ensures Consistent(AddedTo(store, entity.id, component), log + [ComponentAdded(entity, component)])
  {
  }

  /** Removing a present component from a known entity and announcing it keeps the store and the log in agreement. */
  lemma ConsistentAfterRemove(store: EntityMap, log: seq<Event>, entity: Entity, component: Component)
    requires Consistent(store, log)
    requires entity.id in store && component in store[entity.id].components
    ensures Consistent(RemovedFrom(store, entity.id, component), log + [ComponentRemoved(entity, component)])
  {
  }

  /** The stored entities that have a component that is a `t`. */
  function Holding(store: EntityMap, t: TypeId): (r: set<Entity>)
    ensures forall id :: id in store && Where(store[id].components, IsA(t)) != [] ==> store[id].entity in r
    ensures forall e :: e in r ==> exists id :: id in store && store[id].entity == e && Where(store[id].components, IsA(t)) != []
  {
    forall id | id in store {
      AnyIffWhereNonEmpty(store[id].components, IsA(t));
    }
    set id | id in store && Any(store[id].components, IsA(t)) :: store[id].entity
  }

  /**
   * Appending a component that is not a `t` to an entity's list does not
   * change which entities have a `t`: the result does not depend on the
   * order in which unrelated components are added.
   */
  lemma HoldingIgnoresUnrelatedAdd(store: EntityMap, id: EntityId, c: Component, t: TypeId)
    requires id in store && !c.runtimeType.Is(t)
    ensures Holding(AddedTo(store, id, c), t) == Holding(store, t)
  {
    var after := AddedTo(store, id, c);
    AnyAfterUnrelatedAdd(store[id].components, c, t);
    assert forall k :: k in after ==> (k in store && after[k].entity == store[k].entity
                                       && (Any(after[k].components, IsA(t)) <==> Any(store[k].components, IsA(t))));
  }

  /** Appending a component that is a `t` to an entity's list makes that entity one with a `t`. */
  lemma HoldingAfterRelatedAdd(store: EntityMap, id: EntityId, c: Component, t: TypeId)
    requires id in store && c.runtimeType.Is(t)
    ensures store[id].entity in Holding(AddedTo(store, id, c), t)
  {
    var after := AddedTo(store, id, c);
    var list := after[id].components;
    assert list[|list| - 1] == c;
    assert Any(list, IsA(t));
  }

  class Manager {
    var messageSubscribers: Subscribers
    var entityComponentMap: EntityMap
    var registeredSystems: set<System>

    /** Every event raised so far, oldest first. */
    ghost var events: seq<Event>

    /** The store agrees with the event log (see `Consistent`). */
    ghost predicate Valid()
      reads this
    {
      Consistent(entityComponentMap, events)
    }

    constructor ()
      ensures Valid()
      ensures messageSubscribers == map[] && entityComponentMap == map[] && registeredSystems == {}
      ensures events == []
    {
      messageSubscribers, entityComponentMap, registeredSystems := map[], map[], {};
      events := [];
    }

    // -------------------------------------------------------------------------
    // Subscriptions and broadcast

    method Subscribe(messageType: int, system: System)
      requires Valid()
      modifies this
      ensures Valid()
      ensures messageSubscribers == WithSubscriber(old(messageSubscribers), messageType, system)
      ensures entityComponentMap == old(entityComponentMap) && registeredSystems == old(registeredSystems)
      ensures events == old(events)
    {
      if messageType !in messageSubscribers {
        messageSubscribers := messageSubscribers[messageType := {}];
      }
      if system !in messageSubscribers[messageType] {
        messageSubscribers := messageSubscribers[messageType := messageSubscribers[messageType] + {system}];
      }
    }

    method Unsubscribe(messageType: int, system: System)
      requires Valid()
      modifies this
      ensures Valid()
      ensures messageSubscribers == WithoutSubscriber(old(messageSubscribers), messageType, system)
      ensures entityComponentMap == old(entityComponentMap) && registeredSystems == old(registeredSystems)
      ensures events == old(events)
    {
      if messageType in messageSubscribers {
        if system in messageSubscribers[messageType] {
          messageSubscribers := messageSubscribers[messageType := messageSubscribers[messageType] - {system}];
        }
      }
    }

    /**
     * The handler calls `Broadcast` launches: one per current subscriber of
     * `messageType`, none when the type has no entry, each with the same
     * message. Changes nothing.
     */
    method Broadcast(sender: Option<ObjectRef>, messageType: int, messageData: Option<ObjectRef>)
      returns (deliveries: seq<Delivery>)
      ensures messageType !in messageSubscribers ==> deliveries == []
      ensures (set d | d in deliveries :: d.recipient) == SubscribersOf(messageSubscribers, messageType)
      ensures forall i, j :: 0 <= i < j < |deliveries| ==> deliveries[i].recipient != deliveries[j].recipient
      ensures forall d :: d in deliveries ==> d.args == MessageEventArgs(messageType, messageData, this, sender)
    {
      deliveries := [];
      if messageType !in messageSubscribers {
        return;
      }
      var args := MessageEventArgs(messageType, messageData, this, sender);
      var remaining := messageSubscribers[messageType];
      ghost var done: set<System> := {};
      while remaining != {}
        invariant remaining + done == messageSubscribers[messageType] && remaining !! done
        invariant (set d | d in deliveries :: d.recipient) == done
        invariant forall i, j :: 0 <= i < j < |deliveries| ==> deliveries[i].recipient != deliveries[j].recipient
        invariant forall d :: d in deliveries ==> d.args == args
        decreases remaining
      {
        var system :| system in remaining;
        deliveries := deliveries + [Delivery(system, args)];
        remaining := remaining - {system};
        done := done + {system};
      }
    }

    // -------------------------------------------------------------------------
    // Entities and components

    /** `CreateEntity()`: `id` is the fresh `Guid` the new entity draws. */
    method CreateEntity(id: EntityId) returns (entity: Entity)
      requires Valid()
      requires id !in entityComponentMap
      modifies this
      ensures Valid()
      ensures entity == Entity(id, RuntimeType(EntityClass, {}))
      ensures entityComponentMap == old(entityComponentMap)[id := Entry(entity, [])]
      ensures events == old(events) + [EntityCreated(entity)]
      ensures messageSubscribers == old(messageSubscribers) && registeredSystems == old(registeredSystems)
    {
      entity := CreateEntityOfType(RuntimeType(EntityClass, {}), id);
    }

    /** `CreateEntity<T>()`: creates an entity of type `entityType`, a subclass of `Entity`. */
    method CreateEntityOfType(entityType: RuntimeType, id: EntityId) returns (entity: Entity)
      requires Valid()
      requires entityType.Is(EntityClass)
      requires id !in entityComponentMap
      modifies this
      ensures Valid()
      ensures entity == Entity(id, entityType)
      ensures entityComponentMap == old(entityComponentMap)[id := Entry(entity, [])]
      ensures events == old(events) + [EntityCreated(entity)]
      ensures messageSubscribers == old(messageSubscribers) && registeredSystems == old(registeredSystems)
    {
      entity := Entity(id, entityType);
      ConsistentAfterCreate(entityComponentMap, events, entity);
      entityComponentMap := entityComponentMap[id := Entry(entity, [])];
      events := events + [EntityCreated(entity)];
    }

    /** Appends `component` to a known entity's list and announces it; an unknown entity is ignored. */
    method AddComponent(entity: Entity, component: Component)
      requires Valid()
      modifies this
      ensures Valid()
      ensures entity.id in old(entityComponentMap) ==>
        && entityComponentMap == AddedTo(old(entityComponentMap), entity.id, component)
        && events == old(events) + [ComponentAdded(entity, component)]
      ensures entity.id !in old(entityComponentMap) ==>
        entityComponentMap == old(entityComponentMap) && events == old(events)
      ensures messageSubscribers == old(messageSubscribers) && registeredSystems == old(registeredSystems)
      ensures GetAllComponents(entity) ==
        if entity.id in old(entityComponentMap) then old(GetAllComponents(entity)) + [component] else []
    {
      if entity.id in entityComponentMap {
        ConsistentAfterAdd(entityComponentMap, events, entity, component);
        entityComponentMap := AddedTo(entityComponentMap, entity.id, component);
        events := events + [ComponentAdded(entity, component)];
      }
    }

    /**
     * Removes the first occurrence of `component` from a known entity's list
     * and announces it; does nothing when the entity is unknown or the
     * component is not in its list.
     */
    method RemoveComponent(entity: Entity, component: Component)
      requires Valid()
      modifies this
      ensures Valid()
      ensures entity.id in old(entityComponentMap) && component in old(GetAllComponents(entity)) ==>
        && entityComponentMap == RemovedFrom(old(entityComponentMap), entity.id, component)
        && events == old(events) + [ComponentRemoved(entity, component)]
      ensures !(entity.id in old(entityComponentMap) && component in old(GetAllComponents(entity))) ==>
        entityComponentMap == old(entityComponentMap) && events == old(events)
      ensures messageSubscribers == old(messageSubscribers) && registeredSystems == old(registeredSystems)
      ensures GetAllComponents(entity) == Remove(old(GetAllComponents(entity)), component)
    {
      if entity.id in entityComponentMap {
        if component in entityComponentMap[entity.id].components {
          ConsistentAfterRemove(entityComponentMap, events, entity, component);
          entityComponentMap := RemovedFrom(entityComponentMap, entity.id, component);
          events := events + [ComponentRemoved(entity, component)];
        }
      }
    }

    /** `entity` is the object stored under its id. */
    predicate Stores(entity: Entity)
      reads this
    {
      entity.id in entityComponentMap && entityComponentMap[entity.id].entity == entity
    }

    /**
     * `EntitiesWithComponent<E, C>()`: the stored entities with a component
     * that is a `componentType`; the `Cast<E>()` fails if one of them is not
     * an `entityType`.
     */
    function EntitiesWithComponent(entityType: TypeId, componentType: TypeId): (r: Result<set<Entity>>)
      reads this
      requires Valid()
      ensures r.Ok? <==> forall x :: Stores(x) && Any(GetAllComponents(x), IsA(componentType)) ==> x.runtimeType.Is(entityType)
      ensures r.Ok? ==> r.value == Holding(entityComponentMap, componentType)
      ensures r.Ok? ==> forall x :: x in r.value <==> Stores(x) && Any(GetAllComponents(x), IsA(componentType))
    {
      var holding := Holding(entityComponentMap, componentType);
      if forall x :: x in holding ==> x.runtimeType.Is(entityType) then Ok(holding) else InvalidCast
    }

    /** `GetAllComponents(entity)`: the entity's whole list, or an empty one for an unknown entity. */
    function GetAllComponents(entity: Entity): (r: seq<Component>)
      reads this
      ensures entity.id in entityComponentMap ==> r == entityComponentMap[entity.id].components
      ensures entity.id !in entityComponentMap ==> r == []
      ensures Valid() ==> multiset(r) == Announced(events, entity.id)
    {
      if entity.id in entityComponentMap then entityComponentMap[entity.id].components else []
    }

    /** The internal `GetComponent(entity, componentType)`: the first component of exactly that type. */
    function GetComponent(entity: Entity, componentType: TypeId): (r: Option<Component>)
      reads this
      ensures r.Some? ==> r.value in GetAllComponents(entity) && r.value.runtimeType.IsExactly(componentType)
      ensures r.None? <==> forall c :: c in GetAllComponents(entity) ==> !c.runtimeType.IsExactly(componentType)
      ensures r.Some? ==> exists i :: 0 <= i < |GetAllComponents(entity)| && GetAllComponents(entity)[i] == r.value
                                     && forall j :: 0 <= j < i ==> !GetAllComponents(entity)[j].runtimeType.IsExactly(componentType)
      ensures r == if GetComponents(entity, componentType) == [] then None else Some(GetComponents(entity, componentType)[0])
    {
      if entity.id in entityComponentMap then
        FirstOrDefaultIsHeadOfWhere(entityComponentMap[entity.id].components, Exactly(componentType));
        FirstOrDefault(entityComponentMap[entity.id].components, Exactly(componentType))
      else None
    }

    /** `GetComponent<E, C>(entity)`: the internal overload followed by the cast `(C)`, which never fails. */
    function GetComponentAs(entity: Entity, componentType: TypeId): (r: Result<Option<Component>>)
      reads this
      ensures r == Ok(GetComponent(entity, componentType))
    {
      Cast(GetComponent(entity, componentType), componentType)
    }

    /** The internal `GetComponents(entity, componentType)`: the components of exactly that type, in list order. */
    function GetComponents(entity: Entity, componentType: TypeId): (r: seq<Component>)
      reads this
      ensures forall c :: multiset(r)[c] ==
                          if c.runtimeType.IsExactly(componentType) then multiset(GetAllComponents(entity))[c] else 0
      ensures r == Where(GetAllComponents(entity), Exactly(componentType))
    {
      if entity.id in entityComponentMap then Where(entityComponentMap[entity.id].components, Exactly(componentType))
      else []
    }

    /** `GetComponents<E, C>(entity)`: the components that are a `componentType`, in list order; the `Cast<C>()` never fails. */
    function GetComponentsAs(entity: Entity, componentType: TypeId): (r: Result<seq<Component>>)
      reads this
      ensures r.Ok?
      ensures forall c :: multiset(r.value)[c] ==
                          if c.runtimeType.Is(componentType) then multiset(GetAllComponents(entity))[c] else 0
      ensures r.value == Where(GetAllComponents(entity), IsA(componentType))
    {
      if entity.id in entityComponentMap then
        var list := entityComponentMap[entity.id].components;
        CastAfterIsFilterSucceeds(list, componentType);
        CastAll(Where(list, IsA(componentType)), componentType)
      else Ok([])
    }

    // -------------------------------------------------------------------------
    // Systems

    method RegisterSystem(system: System)
      requires Valid()
      modifies this
      ensures Valid()
      ensures registeredSystems == old(registeredSystems) + {system}
      ensures messageSubscribers == old(messageSubscribers) && entityComponentMap == old(entityComponentMap)
      ensures events == old(events)
    {
      if system !in registeredSystems {
        registeredSystems := registeredSystems + {system};
      }
    }

    method UnregisterSystem(system: System)
      requires Valid()
      modifies this
      ensures Valid()
      ensures registeredSystems == old(registeredSystems) - {system}
      ensures messageSubscribers == old(messageSubscribers) && entityComponentMap == old(entityComponentMap)
      ensures events == old(events)
    {
      if system in registeredSystems {
        registeredSystems := registeredSystems - {system};
      }
    }

    /** The calls `Tick` makes: every registered system once, all with the same elapsed time. Changes nothing. */
    method Tick(msSinceLastTick: int64) returns (calls: seq<TickCall>)
      ensures (set c | c in calls :: c.system) == registeredSystems
      ensures forall i, j :: 0 <= i < j < |calls| ==> calls[i].system != calls[j].system
      ensures forall c :: c in calls ==> c.manager == this && c.msSinceLastTick == msSinceLastTick
    {
      calls := [];
      var remaining := registeredSystems;
      ghost var done: set<System> := {};
      while remaining != {}
        invariant remaining + done == registeredSystems && remaining !! done
        invariant (set c | c in calls :: c.system) == done
        invariant forall i, j :: 0 <= i < j < |calls| ==> calls[i].system != calls[j].system
        invariant forall c :: c in calls ==> c.manager == this && c.msSinceLastTick == msSinceLastTick
        decreases remaining
      {
        var system :| system in remaining;
        calls := calls + [TickCall(system, this, msSinceLastTick)];
        remaining := remaining - {system};
        done := done + {system};
      }
    }
  }

  // ---------------------------------------------------------------------------
  // Lemmas relating the queries

  /** An entity is listed by `EntitiesWithComponent` exactly when `GetComponents<E, C>` finds something on it. */
  lemma EntitiesWithComponentIffGetComponentsAs(m: Manager, entityType: TypeId, componentType: TypeId, x: Entity)
    requires m.Valid()
    requires m.EntitiesWithComponent(entityType, componentType).Ok?
    ensures x in m.EntitiesWithComponent(entityType, componentType).value <==>
            m.Stores(x) && m.GetComponentsAs(x, componentType).value != []
  {
  }

  /**
   * After `AddComponent(entity, c)` (which leaves `before + [c]`), the exact-type
   * queries gain `c` at the end, and `GetComponent` for `c`'s type still returns
   * an earlier component of that type when there is one, and `c` otherwise.
   */
  lemma QueriesAfterAdd(m: Manager, entity: Entity, before: seq<Component>, c: Component, t: TypeId)
    requires m.GetAllComponents(entity) == before + [c]
    ensures m.GetComponents(entity, t) == Where(before, Exactly(t)) + if c.runtimeType.IsExactly(t) then [c] else []
    ensures m.GetComponent(entity, t) ==
            if FirstOrDefault(before, Exactly(t)).Some? then FirstOrDefault(before, Exactly(t))
            else if c.runtimeType.IsExactly(t) then Some(c) else None
    ensures c.runtimeType.IsExactly(t) ==> m.GetComponent(entity, t).Some?
  {
    WhereSnoc(before, c, Exactly(t));
    FirstOrDefaultIsHeadOfWhere(before, Exactly(t));
  }

  /**
   * After `RemoveComponent(entity, c)` (which leaves `Remove(before, c)`), the
   * exact-type query of `c`'s type loses its first `c` and the others are
   * unchanged; `GetComponent` for `c`'s type is empty exactly when no
   * component of that type remains.
   */
  lemma QueriesAfterRemove(m: Manager, entity: Entity, before: seq<Component>, c: Component, t: TypeId)
    requires m.GetAllComponents(entity) == Remove(before, c)
    ensures m.GetComponents(entity, t) ==
            if c.runtimeType.IsExactly(t) then Remove(Where(before, Exactly(t)), c) else Where(before, Exactly(t))
    ensures m.GetComponent(entity, t).None? <==> forall x :: x in Remove(before, c) ==> !x.runtimeType.IsExactly(t)
    ensures c.runtimeType.IsExactly(t) ==>
              (m.GetComponent(entity, t).None? <==> multiset(Where(before, Exactly(t))) <= multiset{c})
    ensures !c.runtimeType.IsExactly(t) ==> (m.GetComponent(entity, t).None? <==> Where(before, Exactly(t)) == [])
  {
    WhereRemove(before, c, Exactly(t));
    var w := Where(before, Exactly(t));
    if c.runtimeType.IsExactly(t) {
      assert multiset(Remove(w, c)) == multiset(w) - multiset{c};
      assert Remove(w, c) == [] <==> multiset(Remove(w, c)) == multiset{};
    }
  }

}
