# TS.ECS `Manager` in Dafny

This project models the `Manager` class of TS.ECS, a small entity/component/system
library for .NET. The manager holds three pieces of state:

- the **entity/component store**: each entity's `Guid` mapped to the entity and the
  ordered list of components attached to it;
- the **message-subscription registry**: each message type mapped to the set of
  systems subscribed to it;
- the **set of registered systems**, which `Tick` drives.

`Manager` is a Dafny `class` with those three fields. Its subscription, entity,
component and system operations are methods that update the fields in place. The
queries are functions that read them. A ghost field `events` records the
`OnCreateEntity`, `OnComponentAdded` and `OnComponentRemoved` events the manager
raises. The class invariant `Valid()` says that the store agrees with the event log:

- the stored entities are exactly those whose creation was announced;
- every entity is stored under its own id;
- each entity's component list holds, as a multiset, exactly the components
  announced as added and not since removed.

The LINQ and `List<T>` operations over a component list have their own pure
functions in module `Components`, with lemmas about how they interact:

- `Where`, `Any`, `FirstOrDefault` and `Cast`;
- `List.IndexOf` and `List.Remove`.

Subscribe and unsubscribe are pure map transitions in module `Registry`.

Run-time types are modelled by `RuntimeType(name, bases)`:

- `GetType() == t` becomes `IsExactly(t)`;
- `x is t` becomes `Is(t)`.

A failing C# cast becomes the `InvalidCast` alternative of `Result`. Components are
compared by object identity, as `List.Remove` and `List.Contains` do for classes
without an `Equals` override.

`GetComponent` returns the first component of exactly the requested type in list
order. So after `AddComponent(e, c)` it still returns an earlier component of
`c`'s type when there is one (`Managers.QueriesAfterAdd`).

## Model

| member | source | states |
|---|---|---|
| Components.FirstOrDefault | src/Manager.cs:226 | `None` exactly when no element passes the test; otherwise the value is an element that passes, and no earlier element passes |
| Components.IndexOf | src/Manager.cs:184-186 | the index is in range exactly when the component is in the list, it holds that component, and no earlier slot does |
| Components.Any | src/Manager.cs:200 | `Any(test)` holds exactly when the search for the first passing element finds one |
| Components.Where | src/Manager.cs:258 | keeps every passing element with its multiplicity and drops every failing one; never longer than the list |
| Components.Remove | src/Manager.cs:186 | removing an absent component changes nothing; removing a present one shortens the list by one and removes exactly one copy from its multiset |
| Components.WhereAppend | src/Manager.cs:258 | filtering keeps list order: it distributes over concatenation |
| Components.WhereSnoc | src/Manager.cs:168 | after an append, the filtered list is extended by the new element exactly when it passes |
| Components.AnyIffWhereNonEmpty | src/Manager.cs:200 | `Any(test)` holds exactly when `Where(test)` is non-empty |
| Components.FirstOrDefaultIsHeadOfWhere | src/Manager.cs:226 | `FirstOrDefault(test)` is the head of `Where(test)` |
| Components.FirstOrDefaultSnoc | src/Manager.cs:164-171 | after an append, the first match is unchanged if there was one; otherwise it is the new element when it passes |
| Components.RemoveAfterPrefix | src/Manager.cs:186 | `Remove` cuts out exactly the first occurrence |
| Components.WhereRemove | src/Manager.cs:180-190 | removing a component and then filtering is the same as filtering and then removing it when it passes; when it fails the test, the filtered list is unchanged |
| Components.CastAfterIsFilterSucceeds | src/Manager.cs:242 | `Where(c => c is C).Cast<C>()` never fails and yields the filtered list |
| Components.AnyAfterUnrelatedAdd | src/Manager.cs:200 | appending a component that is not a `t` does not change whether some component is a `t` |
| Registry.WithSubscriber | src/Manager.cs:84-94 | the entry for the type exists afterwards and equals the old entry (or the empty set) plus the system; every other entry is unchanged |
| Registry.WithoutSubscriber | src/Manager.cs:102-111 | the key set is unchanged (an entry is never deleted); the system is absent from the entry afterwards, which is the old entry minus it; no-op when there is no entry or the system is not in it |
| Registry.SubscribeIdempotent | src/Manager.cs:90-93 | subscribing twice is subscribing once |
| Registry.UnsubscribeIdempotent | src/Manager.cs:104-109 | unsubscribing twice is unsubscribing once |
| Registry.UnsubscribeUndoesSubscribe | src/Manager.cs:84-111 | unsubscribe undoes a subscribe that added a new system to an existing entry |
| Registry.UnsubscribeKeepsCreatedEntry | src/Manager.cs:84-111 | when subscribe created the entry, unsubscribe leaves an empty entry behind |
| Registry.SubscribeMemberIsNoOp | src/Manager.cs:90-93 | subscribing an already-subscribed system changes nothing |
| Registry.SubscriptionsCommute | src/Manager.cs:84-94 | the registry does not depend on the order of subscriptions |
| Managers.AddedTo | src/Manager.cs:168 | the entity's list is the old list with the component appended at the end; the entity and every other entry are unchanged |
| Managers.RemovedFrom | src/Manager.cs:186 | the entity's list loses one copy of the component, and is unchanged when it does not hold it; the entity and every other entry are unchanged |
| Managers.Holding | src/Manager.cs:200 | every stored entity whose `is t` filter is non-empty is in the set, and every member is the entity of such an entry |
| Managers.ConsistentAfterCreate | src/Manager.cs:136-142 | storing a new entity with an empty list and announcing it keeps the store and the event log consistent |
| Managers.ConsistentAfterAdd | src/Manager.cs:166-170 | appending a component to a known entity and announcing it keeps them consistent |
| Managers.ConsistentAfterRemove | src/Manager.cs:182-189 | removing a present component and announcing it keeps them consistent |
| Managers.HoldingIgnoresUnrelatedAdd | src/Manager.cs:200 | the set of entities with a `t` component is unchanged by adding a component that is not a `t` |
| Managers.HoldingAfterRelatedAdd | src/Manager.cs:200 | an entity given a `t` component is among the entities with a `t` component |
| Managers.Manager.constructor | src/Manager.cs:57-61 | starts with an empty store, registry and system set, and an empty event log |
| Managers.Manager.Subscribe | src/Manager.cs:84-94 | the registry becomes `WithSubscriber` of the old one; nothing else changes |
| Managers.Manager.Unsubscribe | src/Manager.cs:102-111 | the registry becomes `WithoutSubscriber` of the old one; nothing else changes |
| Managers.Manager.Broadcast | src/Manager.cs:119-130 | one handler call per current subscriber and no other, each subscriber exactly once, all with the same `MessageEventArgs(messageType, messageData, this, sender)`; none when the type has no entry |
| Managers.Manager.CreateEntity | src/Manager.cs:136-142 | a plain `Entity` with the fresh id is stored with an empty list and announced; nothing else changes |
| Managers.Manager.CreateEntityOfType | src/Manager.cs:149-155 | an entity of the requested `Entity` subclass is stored with an empty list and announced |
| Managers.Manager.AddComponent | src/Manager.cs:164-171 | for a known entity, its list gains the component at the end and `ComponentAdded` is announced; for an unknown entity nothing changes |
| Managers.Manager.RemoveComponent | src/Manager.cs:180-190 | for a known entity whose list holds the component, the first occurrence is removed and `ComponentRemoved` is announced; otherwise nothing changes |
| Managers.Manager.EntitiesWithComponent | src/Manager.cs:198-201 | the result is exactly the stored entities with a component that is a `C`; `Cast<E>()` fails exactly when one of them is not an `E` |
| Managers.Manager.GetComponentAs | src/Manager.cs:210-213 | the cast `(C)` after the exact-type lookup never fails |
| Managers.Manager.GetComponent | src/Manager.cs:222-229 | the result is a component of the entity of exactly that type and is the first such in list order; `null` exactly when there is none (also for an unknown entity); it is the head of `GetComponents` |
| Managers.Manager.GetComponentsAs | src/Manager.cs:238-245 | never fails; holds the entity's components that are a `C`, with their multiplicities, in list order |
| Managers.Manager.GetComponents | src/Manager.cs:254-261 | holds the entity's components of exactly that type, with their multiplicities, in list order |
| Managers.Manager.GetAllComponents | src/Manager.cs:269-276 | the stored list for a known entity and empty for an unknown one; under `Valid()` its multiset equals the components the event log announces for the entity |
| Managers.Manager.RegisterSystem | src/Manager.cs:283-289 | the system set gains the system; nothing else changes |
| Managers.Manager.UnregisterSystem | src/Manager.cs:296-302 | the system set loses the system; nothing else changes |
| Managers.Manager.Tick | src/Manager.cs:307-316 | calls every registered system exactly once, with this manager and one common elapsed time |
| Managers.EntitiesWithComponentIffGetComponentsAs | src/Manager.cs:198-245 | an entity is listed by `EntitiesWithComponent<E, C>` exactly when it is stored and `GetComponents<E, C>` on it is non-empty |
| Managers.QueriesAfterAdd | src/Manager.cs:164-171 | after an add, the exact-type query gains the new component at the end when it is of that type; `GetComponent` keeps an earlier match and otherwise finds the new component exactly when it is of that type |
| Managers.QueriesAfterRemove | src/Manager.cs:180-190 | after a remove, the exact-type query of the removed component's type loses one copy of it, and the other queries are unchanged; `GetComponent` is `null` exactly when nothing of that type remains, that is, for a removed component of the queried type, when the list before held no component of that type except at most one copy of it, and otherwise when the list before held none of that type |

## Left out

- `Task.Run` in `Broadcast` is not modelled. `Broadcast` returns the handler calls it would schedule; task scheduling, concurrency and the handlers' own effects are not modelled.
- The `Stopwatch` is not modelled. The elapsed milliseconds are a parameter of `Tick`.
- `Guid.NewGuid` is not modelled. The new entity's id is a parameter that must be absent from the store. Guids are taken to be unique, so the duplicate-key exception of `Dictionary.Add` is not modelled.
- `Activator.CreateInstance<T>` is not modelled. `CreateEntityOfType` takes the run-time type of the entity to create.
- The static `Instance` singleton (src/Manager.cs:66-76) is not modelled. A Dafny class has no static mutable state.
- Event handlers are not modelled. Raised events are recorded in the ghost log whether or not handlers are attached. Handler code, and any manager call it makes back into the manager, is not modelled.
- The bodies of `BaseSystem.Tick` and `BaseSystem.HandleMessage` are not modelled. `Tick` and `Broadcast` return the calls they make. Changing `registeredSystems` from inside a `Tick` callback, which would make the `foreach` throw, is not modelled.
- Lazy LINQ views and the read-only live view of `AsReadOnly` are not modelled. Queries return snapshot values. Exceptions from modifying a list while enumerating it are not modelled.
- `Managers.Manager.EntitiesWithComponent` returns a set, not a sequence in `Dictionary` enumeration order. That order is unspecified. Because the cast is lazy, a partially enumerated result with a later failing `Cast<E>()` is not modelled either: the whole result is `InvalidCast`.
- `Managers.Manager.Broadcast` and `Managers.Manager.Tick` leave the order of calls unspecified, as `HashSet` enumeration does.
- Null arguments are not modelled. Each such argument is a value, so the `NullReferenceException` for a null entity does not arise.
- Value-type components are not modelled. A struct implementing `IComponent` would be compared by value in `List.Contains`/`List.Remove`, and the cast `(C)null` in `GetComponent<E, C>` would throw for it when no component matches; the model treats every component as a class instance.
- `Equals`/`GetHashCode` overrides are not modelled. Components and systems are compared by identity.
- Thread safety is not modelled. The source has none.
- `Entity` is modelled by its id and run-time type only (`Managers.Entity`). Its forwarding wrappers (`AddComponent`, `RemoveComponent`, `GetComponent`, `GetComponents` and `GetAllComponents`, two of each) are not modelled.
- `BaseSystem` is modelled as an identity (`Registry.System`) only. Its abstract `Tick`, the `OnMessage` event that `HandleMessage` raises, and its forwarding wrappers for `Subscribe`, `Unsubscribe`, `RegisterSystem` and `UnregisterSystem` are not modelled.
- `MessageEventArgs` is the datatype `Managers.MessageEventArgs`. The added/removed event arguments are the `ComponentAdded`/`ComponentRemoved` events of the ghost log. `IComponent` is a marker interface with nothing to model.
