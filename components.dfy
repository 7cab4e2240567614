/**
 * Components and the list queries the manager runs over an entity's
 * component list (the LINQ `Where`, `Any`, `FirstOrDefault` and `Cast`
 * calls, and `List.IndexOf`/`List.Remove`).
 */
module Components {

  datatype Option<+T> = None | Some(value: T)

  /** The outcome of a LINQ `Cast` or a C# cast: the value, or an InvalidCastException. */
  datatype Result<+T> = Ok(value: T) | InvalidCast

  /** Stands for a `System.Type`. */
  type TypeId = nat

  /** The run-time type of an object: its own class and every class or interface it derives from. */
  datatype RuntimeType = RuntimeType(name: TypeId, bases: set<TypeId>)
  {
    /** `GetType() == t` */
    predicate IsExactly(t: TypeId) { name == t }

    /** `is t` */
    predicate Is(t: TypeId) { t == name || t in bases }
  }

  /**
   * A component object. Two components are equal only when they are the
   * same object (`instance`), which is what `List.Contains` and
   * `List.Remove` compare for a class that does not override `Equals`.
   */
  datatype Component = Component(instance: nat, runtimeType: RuntimeType)

  /** The element tests the queries use. */
  datatype Test = Exactly(typeId: TypeId) | IsA(typeId: TypeId) | SameAs(target: Component)
  {
    predicate Holds(x: Component) {
      match this
      case Exactly(t) => x.runtimeType.IsExactly(t)
      case IsA(t) => x.runtimeType.Is(t)
      case SameAs(c) => x == c
    }
  }

  /** The index of the first element that passes `test`, or `|list|` when none does. */
  function FirstIndex(list: seq<Component>, test: Test): (i: nat)
    ensures i <= |list|
    ensures i < |list| ==> test.Holds(list[i])
    ensures forall j :: 0 <= j < i ==> !test.Holds(list[j])
  {
    if list == [] then 0
    else if test.Holds(list[0]) then 0
    else 1 + FirstIndex(list[1..], test)
  }

  /** `list.IndexOf(x)`, with -1 written as `|list|`. */
  function IndexOf(list: seq<Component>, x: Component): (i: nat)
    ensures i <= |list|
    ensures i < |list| <==> x in list
    ensures i < |list| ==> list[i] == x
    ensures forall j :: 0 <= j < i ==> list[j] != x
  {
    FirstIndex(list, SameAs(x))
  }

  /** `list.FirstOrDefault(test)`: the first element in list order that passes `test`. */
  function FirstOrDefault(list: seq<Component>, test: Test): (r: Option<Component>)
    ensures r.None? <==> forall c :: c in list ==> !test.Holds(c)
    ensures r.Some? ==> exists i :: 0 <= i < |list| && list[i] == r.value && test.Holds(list[i])
                                   && forall j :: 0 <= j < i ==> !test.Holds(list[j])
  {
    var i := FirstIndex(list, test);
    if i < |list| then Some(list[i]) else None
  }

  /** `list.Where(test)`: the elements that pass `test`, in list order. */
  function Where(list: seq<Component>, test: Test): (r: seq<Component>)
    ensures |r| <= |list|
    ensures forall c {:trigger multiset(r)[c]} :: multiset(r)[c] == if test.Holds(c) then multiset(list)[c] else 0
  {
    if list == [] then []
    else
      assert list == [list[0]] + list[1..];
      (if test.Holds(list[0]) then [list[0]] else []) + Where(list[1..], test)
  }

  /** `list.Any(test)`: some element passes, which is when the search for the first one finds it. */
  function Any(list: seq<Component>, test: Test): (b: bool)
    ensures b <==> FirstIndex(list, test) < |list|
  {
    exists i :: 0 <= i < |list| && test.Holds(list[i])
  }

  /** `list.Cast<t>()`: fails if some element is not a `t`. */
  function CastAll(list: seq<Component>, t: TypeId): Result<seq<Component>> {
    if forall i :: 0 <= i < |list| ==> list[i].runtimeType.Is(t) then Ok(list) else InvalidCast
  }

  /** The C# cast `(t)x`: `null` casts to anything, an object only to a type it is. */
  function Cast(x: Option<Component>, t: TypeId): Result<Option<Component>> {
    if x.None? || x.value.runtimeType.Is(t) then Ok(x) else InvalidCast
  }

  /** `list.Remove(x)`: takes out the first occurrence of `x`, if there is one. */
  function Remove(list: seq<Component>, x: Component): (r: seq<Component>)
    ensures x !in list ==> r == list
    ensures x in list ==> |r| == |list| - 1
    ensures multiset(r) == multiset(list) - multiset{x}
  {
    var i := IndexOf(list, x);
    if i < |list| then
      assert list == list[..i] + [x] + list[i+1..];
      list[..i] + list[i+1..]
    else list
  }

  // ---------------------------------------------------------------------------
  // Lemmas

  /** The first index is the only index before which nothing passes. */
  lemma FirstIndexUnique(list: seq<Component>, test: Test, k: nat)
    requires k <= |list|
    requires k < |list| ==> test.Holds(list[k])
    requires forall j :: 0 <= j < k ==> !test.Holds(list[j])
    ensures FirstIndex(list, test) == k
  {
  }

  /** `Where` distributes over concatenation: it keeps list order. */
  lemma {:induction false} WhereAppend(a: seq<Component>, b: seq<Component>, test: Test)
    ensures Where(a + b, test) == Where(a, test) + Where(b, test)
  {
    if a == [] {
      assert a + b == b;
    } else {
      var head := if test.Holds(a[0]) then [a[0]] else [];
      assert (a + b)[0] == a[0];
      assert (a + b)[1..] == a[1..] + b;
      assert Where(a, test) == head + Where(a[1..], test);
      assert Where(a + b, test) == head + Where(a[1..] + b, test);
      WhereAppend(a[1..], b, test);
    }
  }

  /** Appending one element extends the filtered list by that element if it passes. */
  lemma WhereSnoc(list: seq<Component>, x: Component, test: Test)
    ensures Where(list + [x], test) == Where(list, test) + (if test.Holds(x) then [x] else [])
  {
    WhereAppend(list, [x], test);
    assert [x][1..] == [];
  }

  /** `Any` holds exactly when `Where` keeps something. */
  lemma AnyIffWhereNonEmpty(list: seq<Component>, test: Test)
    ensures Any(list, test) <==> Where(list, test) != []
  {
  }

  /** `FirstOrDefault` is the head of `Where`. */
  lemma {:induction false} FirstOrDefaultIsHeadOfWhere(list: seq<Component>, test: Test)
    ensures FirstOrDefault(list, test) == if Where(list, test) == [] then None else Some(Where(list, test)[0])
  {
    if list == [] {
    } else if test.Holds(list[0]) {
      assert FirstIndex(list, test) == 0;
      assert Where(list, test) == [list[0]] + Where(list[1..], test);
    } else {
      var tail := list[1..];
      FirstOrDefaultIsHeadOfWhere(tail, test);
      assert Where(list, test) == Where(tail, test);
      var i := FirstIndex(tail, test);
      assert FirstIndex(list, test) == 1 + i;
      if i < |tail| {
        assert list[1 + i] == tail[i];
      }
    }
  }

  /** Appending keeps the earlier first match; without one, the appended element is it if it passes. */
  lemma FirstOrDefaultSnoc(list: seq<Component>, x: Component, test: Test)
    ensures FirstOrDefault(list + [x], test) ==
            if FirstOrDefault(list, test).Some? then FirstOrDefault(list, test)
            else if test.Holds(x) then Some(x) else None
  {
    FirstOrDefaultIsHeadOfWhere(list, test);
    FirstOrDefaultIsHeadOfWhere(list + [x], test);
    WhereSnoc(list, x, test);
  }

  /** Removing from a list whose first occurrence of `x` follows `pre` cuts out exactly that one. */
  lemma RemoveAfterPrefix(pre: seq<Component>, x: Component, post: seq<Component>)
    requires x !in pre
    ensures Remove(pre + [x] + post, x) == pre + post
  {
    var list := pre + [x] + post;
    FirstIndexUnique(list, SameAs(x), |pre|);
    assert list[..|pre|] == pre;
    assert list[|pre|+1..] == post;
  }

  /** Filtering a list split around one element. */
  lemma WhereAround(pre: seq<Component>, x: Component, post: seq<Component>, test: Test)
    ensures Where(pre + [x] + post, test) ==
            Where(pre, test) + (if test.Holds(x) then [x] else []) + Where(post, test)
  {
    WhereAppend(pre + [x], post, test);
    WhereSnoc(pre, x, test);
  }

  /** Filtering after removing the first `x`, which follows `pre`, filters the two sides. */
  lemma WhereRemoveAround(pre: seq<Component>, x: Component, post: seq<Component>, test: Test)
    requires x !in pre
    ensures Where(Remove(pre + [x] + post, x), test) == Where(pre, test) + Where(post, test)
  {
    RemoveAfterPrefix(pre, x, post);
    WhereAppend(pre, post, test);
  }

  /** The case of `WhereRemove` where `x` occurs in the list and passes the test. */
  lemma WhereRemovePassing(pre: seq<Component>, x: Component, post: seq<Component>, test: Test)
    requires x !in pre && test.Holds(x)
    ensures Where(Remove(pre + [x] + post, x), test) == Remove(Where(pre + [x] + post, test), x)
  {
    var wpre, wpost := Where(pre, test), Where(post, test);
    WhereRemoveAround(pre, x, post, test);
    WhereAround(pre, x, post, test);
    assert x !in wpre by {
      assert x !in multiset(pre);
      assert x !in multiset(wpre);
    }
    RemoveAfterPrefix(wpre, x, wpost);
  }

  /** The case of `WhereRemove` where `x` occurs in the list and fails the test. */
  lemma WhereRemoveFailing(pre: seq<Component>, x: Component, post: seq<Component>, test: Test)
    requires x !in pre && !test.Holds(x)
    ensures Where(Remove(pre + [x] + post, x), test) == Where(pre + [x] + post, test)
  {
    WhereRemoveAround(pre, x, post, test);
    WhereAround(pre, x, post, test);
  }

  /** `Remove` commutes with `Where` when the removed element passes, and `Where` ignores it otherwise. */
  lemma WhereRemove(list: seq<Component>, x: Component, test: Test)
    ensures Where(Remove(list, x), test) == if test.Holds(x) then Remove(Where(list, test), x) else Where(list, test)
  {
    var i := IndexOf(list, x);
    if i < |list| {
      var pre, post := list[..i], list[i+1..];
      assert list == pre + [x] + post;
      if test.Holds(x) {
        WhereRemovePassing(pre, x, post, test);
      } else {
        WhereRemoveFailing(pre, x, post, test);
      }
    } else {
      assert x !in multiset(list);
      assert x !in Where(list, test) by {
        assert x !in multiset(Where(list, test));
      }
    }
  }

  /** Filtering by `is t` yields a list whose `Cast<t>()` cannot fail. */
  lemma CastAfterIsFilterSucceeds(list: seq<Component>, t: TypeId)
    ensures CastAll(Where(list, IsA(t)), t) == Ok(Where(list, IsA(t)))
  {
  }

  /** Appending an element that is not a `t` does not change whether some element is a `t`. */
  lemma AnyAfterUnrelatedAdd(before: seq<Component>, c: Component, t: TypeId)
    requires !c.runtimeType.Is(t)
    ensures Any(before + [c], IsA(t)) == Any(before, IsA(t))
  {
    WhereSnoc(before, c, IsA(t));
    AnyIffWhereNonEmpty(before, IsA(t));
    AnyIffWhereNonEmpty(before + [c], IsA(t));
  }
}
