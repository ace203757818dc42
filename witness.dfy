/**
 * The observable cell of Sources/Utility/Witness.swift.
 *
 * Observer closures are represented by observer ids; calling an observer with
 * a value appends a `Call` to the cell's log `calls`. The registry is a
 * `LinkedList` of ids held in a shared `Reference`, and a `Disposable` holds the
 * unregistering closure: its captured state is the registry (captured weakly,
 * so it may become null), the node to remove, and whether the closure is still set.
 */
module Observation {
  import opened Wrappers
  import opened LinkedLists

  /** An observer invoked with a value. */
  datatype Call<V> = Call(observer: nat, value: V)

  /** The calls a broadcast of `v` makes to the registered `ids`, in order. */
  function Notifications<V>(ids: seq<nat>, v: V): (r: seq<Call<V>>)
    ensures |r| == |ids|
  {
    if ids == [] then [] else Notifications(ids[..|ids| - 1], v) + [Call(ids[|ids| - 1], v)]
  }

  /** The `k`th call of a broadcast goes to the `k`th registered observer, with the broadcast value. */
  lemma {:induction false} NotificationsAt<V>(ids: seq<nat>, v: V, k: nat)
    requires k < |ids|
    ensures Notifications(ids, v)[k] == Call(ids[k], v)
    decreases |ids|
  {
    if k < |ids| - 1 {
      NotificationsAt(ids[..|ids| - 1], v, k);
    }
  }

  /** A broadcast calls an observer only if it is registered: once unregistered, it hears nothing. */
  lemma NotNotifiedUnlessRegistered<V>(ids: seq<nat>, v: V, id: nat)
    requires id !in ids
    ensures forall c :: c in Notifications(ids, v) ==> c.observer != id
  {
    forall c | c in Notifications(ids, v)
      ensures c.observer != id
    {
      var k :| 0 <= k < |ids| && Notifications(ids, v)[k] == c;
      NotificationsAt(ids, v, k);
      assert ids[k] in ids;
    }
  }

  /** Broadcasting to one more registered observer adds one call at the end. */
  lemma NotificationsStep<V>(ids: seq<nat>, i: nat, v: V)
    requires i < |ids|
    ensures Notifications(ids[..i + 1], v) == Notifications(ids[..i], v) + [Call(ids[i], v)]
  {
    assert ids[..i + 1][..i] == ids[..i];
  }

  /** `MutableReference`: a shared box whose content can be replaced. */
  class Reference<X> {
    var value: X

    constructor (value: X)
      ensures this.value == value
    {
      this.value := value;
    }

    method Update(value: X)
      modifies this
      ensures this.value == value
    {
      this.value := value;
    }
  }

  /** The unregistering handle `observe` returns. */
  class Disposable {
    /** The unregistering closure is still set. */
    var armed: bool
    /** The registry, as captured weakly by the closure. */
    var registry: Reference?<LinkedList<nat>>
    /** The registry node of this handle's observer. */
    const node: Node<nat>

    constructor (registry: Reference<LinkedList<nat>>, node: Node<nat>)
      ensures armed && this.registry == registry && this.node == node
    {
      armed := true;
      this.registry := registry;
      this.node := node;
    }

    /** The registry list the closure would edit, if it still exists. */
    function Lists(): set<LinkedList<nat>>
      reads this, registry
    {
      if registry == null then {} else {registry.value}
    }

    /**
     * Runs the closure once and clears it. A live registry then no longer has
     * this handle's node; every other observer stays registered in order.
     */
    method Dispose()
      requires armed && registry != null ==> registry.value.Valid() && node in registry.value.nodes
      modifies this, Lists(), node, node.previous, node.next
      ensures !armed && registry == old(registry)
      ensures registry != null ==> registry.value == old(registry.value)
      ensures old(armed) && registry != null ==>
        registry.value.Valid() && node.Detached() &&
        registry.value.nodes == Delete(old(registry.value.nodes), old(IndexOf(registry.value.nodes, node))) &&
        registry.value.Values() == Delete(old(registry.value.Values()), old(IndexOf(registry.value.nodes, node)))
      ensures !(old(armed) && registry != null) ==>
        unchanged(Lists()) && unchanged(node) && unchanged({old(node.previous), old(node.next)} - {null})
    {
      if armed && registry != null {
        registry.value.Remove(node);
      }
      armed := false;
    }

    /** Destroying the handle disposes it. */
    method Deinit()
      requires armed && registry != null ==> registry.value.Valid() && node in registry.value.nodes
      modifies this, Lists(), node, node.previous, node.next
      ensures !armed && registry == old(registry)
      ensures registry != null ==> registry.value == old(registry.value)
      ensures old(armed) && registry != null ==>
        registry.value.Valid() && node.Detached() &&
        registry.value.nodes == Delete(old(registry.value.nodes), old(IndexOf(registry.value.nodes, node))) &&
        registry.value.Values() == Delete(old(registry.value.Values()), old(IndexOf(registry.value.nodes, node)))
      ensures !(old(armed) && registry != null) ==>
        unchanged(Lists()) && unchanged(node) && unchanged({old(node.previous), old(node.next)} - {null})
    {
      Dispose();
    }

    /** The cell that owned the registry went away: the weak capture reads nil from now on. */
    method RegistryReleased()
      modifies this
      ensures registry == null && armed == old(armed)
    {
      registry := null;
    }
  }

  /** The `@Witness` property wrapper. */
  class Witness<V> {
    var wrappedValue: V
    const observations: Reference<LinkedList<nat>>
    /** Every observer call made so far, oldest first. */
    var calls: seq<Call<V>>

    ghost predicate Valid()
      reads this, observations, observations.value, observations.value.nodes
    {
      observations.value.Valid()
    }

    /** The registered observers, in registration order. */
    ghost function Observers(): seq<nat>
      reads this, observations, observations.value
    {
      observations.value.Values()
    }

    constructor (wrappedValue: V)
      ensures Valid() && this.wrappedValue == wrappedValue
      ensures Observers() == [] && calls == []
    {
      this.wrappedValue := wrappedValue;
      var list := new LinkedList();
      observations := new Reference(list);
      calls := [];
    }

    /** Calls `id` with the current value, then registers it last. */
    method Observe(id: nat) returns (d: Disposable)
      requires Valid()
      modifies this, observations.value, observations.value.lastNode
      ensures Valid() && wrappedValue == old(wrappedValue)
      ensures calls == old(calls) + [Call(id, wrappedValue)]
      ensures Observers() == old(Observers()) + [id]
      ensures observations.value.nodes == old(observations.value.nodes) + [d.node]
      ensures fresh(d) && fresh(d.node) && d.armed && d.registry == observations
    {
      calls := calls + [Call(id, wrappedValue)];
      var node := observations.value.Append(id);
      d := new Disposable(observations, node);
    }

    /** An assignment to the wrapped value, whose `didSet` broadcasts it. */
    method SetWrappedValue(value: V)
      requires Valid()
      modifies this
      ensures Valid() && wrappedValue == value
      ensures Observers() == old(Observers())
      ensures calls == old(calls) + Notifications(Observers(), value)
    {
      wrappedValue := value;
      ValueDidChange();
    }

    /** Calls every registered observer with the current value, in registration order. */
    method ValueDidChange()
      requires Valid()
      modifies this
      ensures Valid() && wrappedValue == old(wrappedValue)
      ensures calls == old(calls) + Notifications(Observers(), wrappedValue)
    {
      ghost var ids := Observers();
      var it := observations.value.MakeIterator();
      var log := calls;
      while true
        modifies it
        invariant it.Valid() && it.list == observations.value && ids == it.list.Values()
        invariant log == old(calls) + Notifications(ids[..it.index], wrappedValue)
        decreases |ids| - it.index
      {
        var next := it.Next();
        if next.None? {
          break;
        }
        NotificationsStep(ids, it.index - 1, wrappedValue);
        log := log + [Call(next.value, wrappedValue)];
      }
      assert ids[..it.index] == ids;
      calls := log;
    }
  }

  /**
   * A subscription used once and dropped: the observer hears the current
   * value on subscribing, and nothing of an assignment after its disposal.
   */
  method ObserveThenDispose<V>(w: Witness<V>, id: nat, v: V)
    requires w.Valid() && id !in w.Observers()
    modifies w, w.observations.value, w.observations.value.nodes
    ensures w.Valid() && w.Observers() == old(w.Observers())
    ensures w.calls == old(w.calls) + [Call(id, old(w.wrappedValue))] + Notifications(w.Observers(), v)
    ensures forall c :: c in w.calls[|old(w.calls)| + 1..] ==> c.observer != id
  {
    var d := w.Observe(id);
    ghost var ns := w.observations.value.nodes;
    IndexOfDistinct(ns, |ns| - 1);
    d.Dispose();
    assert Delete(ns, |ns| - 1) == ns[..|ns| - 1];
    w.SetWrappedValue(v);
    NotNotifiedUnlessRegistered(w.Observers(), v, id);
    assert w.calls[|old(w.calls)| + 1..] == Notifications(w.Observers(), v);
  }
}
