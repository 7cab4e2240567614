/**
 * The subscription registry: a map from message type to the set of systems
 * subscribed to it, and the two updates the manager applies to it.
 */
module Registry {

  /** A system object; equality is object identity, as in `HashSet<BaseSystem>`. */
  datatype System = System(handle: nat)

  type Subscribers = map<int, set<System>>

  /** The subscriber set of `t`, empty when `t` has no entry. */
  function SubscribersOf(m: Subscribers, t: int): set<System> {
    if t in m then m[t] else {}
  }

  /** `Subscribe(t, s)`: creates the entry for `t` when it is missing, then adds `s` to it. */
  function WithSubscriber(m: Subscribers, t: int, s: System): (r: Subscribers)
    ensures r.Keys == m.Keys + {t}
    ensures s in r[t]
    ensures r[t] == SubscribersOf(m, t) + {s}
    ensures forall u :: u in m && u != t ==> r[u] == m[u]
  {
    var m1 := if t !in m then m[t := {}] else m;
    if s !in m1[t] then m1[t := m1[t] + {s}] else m1
  }

  /** `Unsubscribe(t, s)`: removes `s` from the entry for `t`; it never removes the entry itself. */
  function WithoutSubscriber(m: Subscribers, t: int, s: System): (r: Subscribers)
    ensures r.Keys == m.Keys
    ensures t in r ==> s !in r[t] && r[t] == m[t] - {s}
    ensures forall u :: u in m && u != t ==> r[u] == m[u]
    ensures t !in m || s !in m[t] ==> r == m
  {
    if t in m && s in m[t] then m[t := m[t] - {s}] else m
  }

  // ---------------------------------------------------------------------------
  // Lemmas

  /** Subscribing twice is subscribing once. */
  lemma SubscribeIdempotent(m: Subscribers, t: int, s: System)
    ensures WithSubscriber(WithSubscriber(m, t, s), t, s) == WithSubscriber(m, t, s)
  {
  }

  /** Unsubscribing twice is unsubscribing once. */
  lemma UnsubscribeIdempotent(m: Subscribers, t: int, s: System)
    ensures WithoutSubscriber(WithoutSubscriber(m, t, s), t, s) == WithoutSubscriber(m, t, s)
  {
  }

  /** Unsubscribing undoes a subscription that added a system to an existing entry. */
  lemma UnsubscribeUndoesSubscribe(m: Subscribers, t: int, s: System)
    requires t in m && s !in m[t]
    ensures WithoutSubscriber(WithSubscriber(m, t, s), t, s) == m
  {
  }

  /** When the subscription created the entry, unsubscribing leaves an empty entry behind. */
  lemma UnsubscribeKeepsCreatedEntry(m: Subscribers, t: int, s: System)
    requires t !in m
    ensures WithoutSubscriber(WithSubscriber(m, t, s), t, s) == m[t := {}]
  {
  }

  /** Subscribing a system that is already subscribed changes nothing. */
  lemma SubscribeMemberIsNoOp(m: Subscribers, t: int, s: System)
    requires t in m && s in m[t]
    ensures WithSubscriber(m, t, s) == m
  {
  }

  /** Subscriptions do not depend on the order in which they are made. */
  lemma SubscriptionsCommute(m: Subscribers, t1: int, s1: System, t2: int, s2: System)
    ensures WithSubscriber(WithSubscriber(m, t1, s1), t2, s2) == WithSubscriber(WithSubscriber(m, t2, s2), t1, s1)
  {
    var a := WithSubscriber(WithSubscriber(m, t1, s1), t2, s2);
    var b := WithSubscriber(WithSubscriber(m, t2, s2), t1, s1);
    assert a.Keys == b.Keys;
    forall u | u in a ensures a[u] == b[u] {
      if u == t1 && u == t2 {
        assert a[u] == SubscribersOf(m, u) + {s1} + {s2};
      } else if u == t1 {
        assert a[u] == SubscribersOf(m, u) + {s1};
      } else if u == t2 {
        assert a[u] == SubscribersOf(m, u) + {s2};
      }
    }
  }
}
