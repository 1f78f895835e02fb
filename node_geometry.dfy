// Per-frame geometry snapshots of layout nodes, the inverse index from
// scroll containers to the snapshots whose lineage lists them, and the
// process-wide registry that mirrors snapshots per window and runs
// subscriber callbacks.
//
// Callbacks are foreign closures: each is named by an integer, and running
// one is recorded as an `Invocation` in the registry's log. Hash-map
// iteration order is not modelled: loops over hashed keys pick their next
// key with `:|` and report the order they used as a ghost result.
module NodeGeometry {
  import opened Wrappers
  import opened GpuiStyle
  import opened Layout

  const U64Modulus := 0x1_0000_0000_0000_0000

  type WindowId = int

  datatype ScrollContainerId = ScrollContainerId(raw: int)

  /**
   * Bounds in local and window coordinates, the scroll containers above the
   * node (closest first) and the version the store stamped.
   */
  datatype NodeSnapshot = NodeSnapshot(local: Bounds, window: Bounds, scrollLineage: seq<ScrollContainerId>, version: int)

  type ScrollIndex = map<ScrollContainerId, set<LayoutId>>

  // ------------------------------------------------ the inverse scroll index

  function Elements<T>(s: seq<T>): set<T> {
    set x | x in s
  }

  lemma ElementsSnoc<T>(s: seq<T>, x: T)
    ensures Elements(s + [x]) == Elements(s) + {x}
  {
    assert forall y :: y in s + [x] <==> y in s || y == x;
  }

  /**
   * Visiting one more element of `rest` keeps `order` listing exactly the
   * visited elements of `all`, each once.
   */
  lemma VisitStep<T>(order: seq<T>, all: set<T>, rest: set<T>, x: T)
    requires rest <= all && Elements(order) == all - rest && |order| + |rest| == |all| && x in rest
    ensures rest - {x} <= all && Elements(order + [x]) == all - (rest - {x})
    ensures |order + [x]| + |rest - {x}| == |all|
  {
    ElementsSnoc(order, x);
  }

  /**
   * `index` after `layout` leaves the entry of every container in
   * `lineage`, in order; an entry left empty is deleted.
   */
  function WithoutMember(index: ScrollIndex, layout: LayoutId, lineage: seq<ScrollContainerId>): (r: ScrollIndex)
    ensures forall s :: s in r <==> s in index && (s !in lineage || index[s] - {layout} != {})
    ensures forall s | s in r :: r[s] == if s in lineage then index[s] - {layout} else index[s]
  {
    if lineage == [] then index
    else
      var prev := WithoutMember(index, layout, lineage[..|lineage| - 1]);
      var s := lineage[|lineage| - 1];
      assert lineage == lineage[..|lineage| - 1] + [s];
      if s !in prev then prev
      else if prev[s] - {layout} == {} then prev - {s}
      else prev[s := prev[s] - {layout}]
  }

  /**
   * `index` after `layout` joins the entry of every container in
   * `lineage`, in order.
   */
  function WithMember(index: ScrollIndex, layout: LayoutId, lineage: seq<ScrollContainerId>): (r: ScrollIndex)
    ensures forall s :: s in r <==> s in index || s in lineage
    ensures forall s | s in r :: r[s] == (if s in index then index[s] else {}) + (if s in lineage then {layout} else {})
  {
    if lineage == [] then index
    else
      var prev := WithMember(index, layout, lineage[..|lineage| - 1]);
      var s := lineage[|lineage| - 1];
      assert lineage == lineage[..|lineage| - 1] + [s];
      prev[s := (if s in prev then prev[s] else {}) + {layout}]
  }

  /** Every filed layout id has a snapshot whose lineage lists the container. */
  ghost predicate Sound(snapshots: map<LayoutId, NodeSnapshot>, index: ScrollIndex) {
    forall s, l | s in index && l in index[s] :: l in snapshots && s in snapshots[l].scrollLineage
  }

  /**
   * Every snapshot is filed under each container of its lineage, except
   * possibly `skip`.
   */
  ghost predicate Complete(snapshots: map<LayoutId, NodeSnapshot>, index: ScrollIndex, skip: Option<ScrollContainerId>) {
    forall l, s | l in snapshots && s in snapshots[l].scrollLineage && Some(s) != skip :: s in index && l in index[s]
  }

  ghost predicate NoEmptyEntry(index: ScrollIndex) {
    forall s | s in index :: index[s] != {}
  }

  /**
   * The index is exactly the inverse of the snapshots' lineages, with no
   * empty entry, except possibly for one container `skip`, which has no
   * entry at all.
   */
  ghost predicate IndexedExcept(snapshots: map<LayoutId, NodeSnapshot>, index: ScrollIndex, skip: Option<ScrollContainerId>) {
    && Sound(snapshots, index)
    && Complete(snapshots, index, skip)
    && NoEmptyEntry(index)
    && (skip.Some? ==> skip.value !in index)
  }

  /**
   * A layout id is in the entry of container `s` exactly when its current
   * snapshot lists `s`, and no entry is empty.
   */
  ghost predicate Indexed(snapshots: map<LayoutId, NodeSnapshot>, index: ScrollIndex) {
    IndexedExcept(snapshots, index, None)
  }

  lemma DropSound(snapshots: map<LayoutId, NodeSnapshot>, index: ScrollIndex, layout: LayoutId)
    requires Sound(snapshots, index) && layout in snapshots
    ensures Sound(snapshots - {layout}, WithoutMember(index, layout, snapshots[layout].scrollLineage))
  {
    var lineage := snapshots[layout].scrollLineage;
    var after := WithoutMember(index, layout, lineage);
    forall s, l | s in after && l in after[s] ensures l in snapshots - {layout} && s in snapshots[l].scrollLineage {
      assert l in index[s];
    }
  }

  lemma DropComplete(snapshots: map<LayoutId, NodeSnapshot>, index: ScrollIndex, layout: LayoutId, skip: Option<ScrollContainerId>)
    requires Complete(snapshots, index, skip) && layout in snapshots
    ensures Complete(snapshots - {layout}, WithoutMember(index, layout, snapshots[layout].scrollLineage), skip)
  {
    var after := WithoutMember(index, layout, snapshots[layout].scrollLineage);
    forall l, s | l in snapshots - {layout} && s in snapshots[l].scrollLineage && Some(s) != skip
      ensures s in after && l in after[s]
    {
      assert l in index[s] - {layout};
    }
  }

  /**
   * Dropping a snapshot together with its memberships keeps the index exact,
   * whatever container is exempt.
   */
  lemma DropKeepsIndexed(snapshots: map<LayoutId, NodeSnapshot>, index: ScrollIndex, layout: LayoutId, skip: Option<ScrollContainerId>)
    requires IndexedExcept(snapshots, index, skip) && layout in snapshots
    ensures IndexedExcept(snapshots - {layout}, WithoutMember(index, layout, snapshots[layout].scrollLineage), skip)
  {
    DropSound(snapshots, index, layout);
    DropComplete(snapshots, index, layout, skip);
  }

  /**
   * The index without `layout`'s memberships: sound for the other
   * snapshots, and `layout` is filed nowhere.
   */
  lemma DroppedSound(snapshots: map<LayoutId, NodeSnapshot>, index: ScrollIndex, layout: LayoutId)
    requires Sound(snapshots, index)
    ensures var dropped := if layout in snapshots then WithoutMember(index, layout, snapshots[layout].scrollLineage) else index;
      Sound(snapshots - {layout}, dropped) && forall s | s in dropped :: layout !in dropped[s]
  {
    if layout in snapshots {
      DropSound(snapshots, index, layout);
    } else {
      assert snapshots - {layout} == snapshots;
    }
  }

  lemma RecordSound(snapshots: map<LayoutId, NodeSnapshot>, index: ScrollIndex, layout: LayoutId, snapshot: NodeSnapshot)
    requires Sound(snapshots, index)
    ensures var dropped := if layout in snapshots then WithoutMember(index, layout, snapshots[layout].scrollLineage) else index;
      Sound(snapshots[layout := snapshot], WithMember(dropped, layout, snapshot.scrollLineage))
  {
    var dropped := if layout in snapshots then WithoutMember(index, layout, snapshots[layout].scrollLineage) else index;
    DroppedSound(snapshots, index, layout);
    var after := WithMember(dropped, layout, snapshot.scrollLineage);
    var snaps := snapshots[layout := snapshot];
    forall s, l | s in after && l in after[s] ensures l in snaps && s in snaps[l].scrollLineage {
      if l == layout {
        assert s in snapshot.scrollLineage;
      } else {
        assert s in dropped && l in dropped[s];
        assert l in snapshots - {layout};
      }
    }
  }

  /**
   * The index without `layout`'s memberships is complete for the other
   * snapshots.
   */
  lemma DroppedComplete(snapshots: map<LayoutId, NodeSnapshot>, index: ScrollIndex, layout: LayoutId)
    requires Complete(snapshots, index, None)
    ensures var dropped := if layout in snapshots then WithoutMember(index, layout, snapshots[layout].scrollLineage) else index;
      Complete(snapshots - {layout}, dropped, None)
  {
    if layout in snapshots {
      DropComplete(snapshots, index, layout, None);
    } else {
      assert snapshots - {layout} == snapshots;
    }
  }

  lemma RecordComplete(snapshots: map<LayoutId, NodeSnapshot>, index: ScrollIndex, layout: LayoutId, snapshot: NodeSnapshot)
    requires Complete(snapshots, index, None)
    ensures var dropped := if layout in snapshots then WithoutMember(index, layout, snapshots[layout].scrollLineage) else index;
      Complete(snapshots[layout := snapshot], WithMember(dropped, layout, snapshot.scrollLineage), None)
  {
    var dropped := if layout in snapshots then WithoutMember(index, layout, snapshots[layout].scrollLineage) else index;
    DroppedComplete(snapshots, index, layout);
    var after := WithMember(dropped, layout, snapshot.scrollLineage);
    var snaps := snapshots[layout := snapshot];
    forall l, s | l in snaps && s in snaps[l].scrollLineage ensures s in after && l in after[s] {
      if l != layout {
        var rest := snapshots - {layout};
        assert l in rest && rest[l] == snaps[l];
        KeptMembership(rest, dropped, layout, snapshot.scrollLineage, l, s);
      } else {
        assert s in snapshot.scrollLineage;
      }
    }
  }

  /** A membership the index already has survives `layout` joining. */
  lemma KeptMembership(rest: map<LayoutId, NodeSnapshot>, dropped: ScrollIndex, layout: LayoutId,
                       lineage: seq<ScrollContainerId>, l: LayoutId, s: ScrollContainerId)
    requires Complete(rest, dropped, None)
    requires l in rest && s in rest[l].scrollLineage
    ensures var after := WithMember(dropped, layout, lineage); s in after && l in after[s]
  {
    assert s in dropped && l in dropped[s];
  }

  /** Recording a snapshot swaps the node's old memberships for its new ones. */
  lemma RecordKeepsIndexed(snapshots: map<LayoutId, NodeSnapshot>, index: ScrollIndex, layout: LayoutId, snapshot: NodeSnapshot)
    requires Indexed(snapshots, index)
    ensures var dropped := if layout in snapshots then WithoutMember(index, layout, snapshots[layout].scrollLineage) else index;
      Indexed(snapshots[layout := snapshot], WithMember(dropped, layout, snapshot.scrollLineage))
  {
    RecordSound(snapshots, index, layout, snapshot);
    RecordComplete(snapshots, index, layout, snapshot);
  }

  /** The layout ids filed under container `s`. */
  function Listed(index: ScrollIndex, s: ScrollContainerId): set<LayoutId> {
    if s in index then index[s] else {}
  }

  /** The snapshots whose lineage lists `s`. */
  function Lists(snapshots: map<LayoutId, NodeSnapshot>, s: ScrollContainerId): set<LayoutId> {
    set l | l in snapshots && s in snapshots[l].scrollLineage
  }

  /**
   * Deleting one entry of an exact index leaves it exact except there, and
   * the entry listed exactly the snapshots whose lineage contains it.
   */
  lemma SkipEntry(snapshots: map<LayoutId, NodeSnapshot>, index: ScrollIndex, s: ScrollContainerId)
    requires Indexed(snapshots, index)
    ensures IndexedExcept(snapshots, index - {s}, Some(s))
    ensures Listed(index, s) == Lists(snapshots, s)
  {
  }

  /** Once no snapshot lists the exempt container, the index is exact. */
  lemma ExemptionLifted(snapshots: map<LayoutId, NodeSnapshot>, index: ScrollIndex, s: ScrollContainerId)
    requires IndexedExcept(snapshots, index, Some(s)) && Lists(snapshots, s) == {}
    ensures Indexed(snapshots, index)
  {
    forall l, c | l in snapshots && c in snapshots[l].scrollLineage ensures c in index && l in index[c] {
      assert c != s by {
        assert l !in Lists(snapshots, s);
      }
    }
  }

  function WindowKeys(window: WindowId, layouts: set<LayoutId>): set<Key> {
    set l | l in layouts :: (window, l)
  }

  lemma WindowKeysStep<V>(m: map<Key, V>, window: WindowId, all: set<LayoutId>, rest: set<LayoutId>, layout: LayoutId)
    requires layout in rest && rest <= all
    ensures m - WindowKeys(window, all - (rest - {layout})) == (m - WindowKeys(window, all - rest)) - {(window, layout)}
  {
    assert WindowKeys(window, all - (rest - {layout})) == WindowKeys(window, all - rest) + {(window, layout)};
  }

  /**
   * Removing the keys already visited and then one more is removing the
   * visited keys with it.
   */
  lemma StepRemoves<K, V>(m: map<K, V>, all: set<K>, rest: set<K>, k: K)
    requires k in rest && rest <= all
    ensures m - (all - (rest - {k})) == (m - (all - rest)) - {k}
  {
    assert all - (rest - {k}) == (all - rest) + {k};
  }

  // ------------------------------------------------------- the node store

  class NodeGeometryStore {
    var snapshots: map<LayoutId, NodeSnapshot>
    var scrollIndex: ScrollIndex
    var versionCounter: int

    ghost predicate Valid()
      reads this
    {
      Indexed(snapshots, scrollIndex) && 0 <= versionCounter < U64Modulus
    }

    constructor ()
      ensures Valid() && snapshots == map[] && scrollIndex == map[] && versionCounter == 0
    {
      snapshots := map[];
      scrollIndex := map[];
      versionCounter := 0;
    }

    /** Forgets every snapshot and restarts the version counter. */
    method Clear()
      modifies this
      ensures Valid() && snapshots == map[] && scrollIndex == map[] && versionCounter == 0
    {
      snapshots := map[];
      scrollIndex := map[];
      versionCounter := 0;
    }

    /**
     * Stores a fresh snapshot stamped with the next version (wrapping at
     * 2^64) and moves the node's index memberships to the new lineage.
     */
    method Record(layout: LayoutId, local: Bounds, window: Bounds, lineage: seq<ScrollContainerId>) returns (snapshot: NodeSnapshot)
      requires Valid()
      modifies this
      ensures Valid()
      ensures versionCounter == (old(versionCounter) + 1) % U64Modulus
      ensures snapshot == NodeSnapshot(local, window, lineage, versionCounter)
      ensures snapshots == old(snapshots)[layout := snapshot]
      ensures scrollIndex == WithMember(
        if layout in old(snapshots) then WithoutMember(old(scrollIndex), layout, old(snapshots)[layout].scrollLineage)
        else old(scrollIndex), layout, lineage)
    {
      RecordKeepsIndexed(snapshots, scrollIndex, layout, NodeSnapshot(local, window, lineage, (versionCounter + 1) % U64Modulus));
      versionCounter := (versionCounter + 1) % U64Modulus;
      snapshot := NodeSnapshot(local, window, lineage, versionCounter);
      var previous := if layout in snapshots then Some(snapshots[layout]) else None;
      snapshots := snapshots[layout := snapshot];
      if previous.Some? {
        RemoveScrollMembership(layout, previous.value.scrollLineage);
      }
      AddScrollMembership(layout, lineage);
    }

    method Snapshot(layout: LayoutId) returns (s: Option<NodeSnapshot>)
      ensures s.Some? <==> layout in snapshots
      ensures s.Some? ==> s.value == snapshots[layout]
    {
      s := if layout in snapshots then Some(snapshots[layout]) else None;
    }

    /**
     * Drops the node's snapshot and memberships, and the registry's copy
     * for `window`; answers whether a snapshot existed.
     */
    method Invalidate(window: WindowId, layout: LayoutId, registry: GlobalNodeGeometry) returns (existed: bool)
      requires Valid() && registry.Valid()
      modifies this, registry
      ensures Valid() && registry.Valid()
      ensures existed <==> layout in old(snapshots)
      ensures snapshots == old(snapshots) - {layout}
      ensures existed ==> scrollIndex == WithoutMember(old(scrollIndex), layout, old(snapshots)[layout].scrollLineage)
      ensures !existed ==> scrollIndex == old(scrollIndex)
      ensures versionCounter == old(versionCounter)
      ensures registry.snapshots == old(registry.snapshots) - {(window, layout)}
      ensures registry.subscriptions == old(registry.subscriptions)
      ensures registry.nextSubscriptionId == old(registry.nextSubscriptionId)
      ensures registry.log == old(registry.log) + Invocations(registry.CallbacksFor((window, layout)), Invalidated)
    {
      if layout in snapshots {
        var snapshot := snapshots[layout];
        DropKeepsIndexed(snapshots, scrollIndex, layout, None);
        snapshots := snapshots - {layout};
        RemoveScrollMembership(layout, snapshot.scrollLineage);
        registry.InvalidateAndNotify(window, layout);
        existed := true;
      } else {
        registry.InvalidateAndNotify(window, layout);
        existed := false;
      }
    }

    /**
     * A scroll container moved: every snapshot whose lineage lists it is
     * dropped (here and in the registry) and its index entry removed.
     * `order` is the order the entry's layout ids were visited in.
     */
    method ScrollContainerUpdated(window: WindowId, scroll: ScrollContainerId, registry: GlobalNodeGeometry)
      returns (ghost order: seq<LayoutId>)
      requires Valid() && registry.Valid()
      modifies this, registry
      ensures Valid() && registry.Valid()
      ensures scroll !in scrollIndex
      ensures snapshots == old(snapshots) - Listed(old(scrollIndex), scroll)
      ensures versionCounter == old(versionCounter)
      ensures Elements(order) == Listed(old(scrollIndex), scroll) && |order| == |Listed(old(scrollIndex), scroll)|
      ensures registry.snapshots == old(registry.snapshots) - WindowKeys(window, Listed(old(scrollIndex), scroll))
      ensures registry.subscriptions == old(registry.subscriptions)
      ensures registry.log == old(registry.log) + InvalidationLog(old(registry.subscriptions), window, order)
    {
      order := [];
      var ids := Listed(scrollIndex, scroll);
      ghost var all := ids;
      ghost var snaps0 := snapshots;
      ghost var regSnaps0 := registry.snapshots;
      ghost var subs0 := registry.subscriptions;
      ghost var log0 := registry.log;
      SkipEntry(snapshots, scrollIndex, scroll);
      scrollIndex := scrollIndex - {scroll};
      assert snapshots == snaps0 - (all - ids);
      assert registry.snapshots == regSnaps0 - WindowKeys(window, all - ids);
      while ids != {}
        invariant ids <= all && Elements(order) == all - ids && |order| + |ids| == |all|
        invariant IndexedExcept(snapshots, scrollIndex, Some(scroll))
        invariant Lists(snapshots, scroll) <= ids
        invariant snapshots == snaps0 - (all - ids)
        invariant registry.Valid() && registry.subscriptions == subs0
        invariant registry.snapshots == regSnaps0 - WindowKeys(window, all - ids)
        invariant registry.log == log0 + InvalidationLog(subs0, window, order)
        invariant versionCounter == old(versionCounter)
        decreases ids
      {
        var layout :| layout in ids;
        StepRemoves(snaps0, all, ids, layout);
        WindowKeysStep(regSnaps0, window, all, ids, layout);
        DropSnapshot(layout, scroll);
        registry.InvalidateAndNotify(window, layout);
        InvalidationLogSnoc(subs0, window, order, layout);
        Reassociate(log0, InvalidationLog(subs0, window, order), Invocations(CallbacksIn(subs0, (window, layout)), Invalidated));
        VisitStep(order, all, ids, layout);
        order := order + [layout];
        ids := ids - {layout};
      }
      ExemptionLifted(snapshots, scrollIndex, scroll);
    }

    /**
     * Drops `layout`'s snapshot, if any, with its memberships, keeping the
     * index exact except for the container `skip`.
     */
    method DropSnapshot(layout: LayoutId, skip: ScrollContainerId)
      requires IndexedExcept(snapshots, scrollIndex, Some(skip))
      modifies this
      ensures IndexedExcept(snapshots, scrollIndex, Some(skip))
      ensures snapshots == old(snapshots) - {layout}
      ensures Lists(snapshots, skip) == Lists(old(snapshots), skip) - {layout}
      ensures versionCounter == old(versionCounter)
    {
      if layout in snapshots {
        var snapshot := snapshots[layout];
        DropKeepsIndexed(snapshots, scrollIndex, layout, Some(skip));
        snapshots := snapshots - {layout};
        RemoveScrollMembership(layout, snapshot.scrollLineage);
      }
    }

    /** Adds `layout` to the entry of every container in `lineage`. */
    method AddScrollMembership(layout: LayoutId, lineage: seq<ScrollContainerId>)
      modifies this
      ensures scrollIndex == WithMember(old(scrollIndex), layout, lineage)
      ensures snapshots == old(snapshots) && versionCounter == old(versionCounter)
    {
      var i := 0;
      while i < |lineage|
        invariant 0 <= i <= |lineage|
        invariant scrollIndex == WithMember(old(scrollIndex), layout, lineage[..i])
        invariant snapshots == old(snapshots) && versionCounter == old(versionCounter)
      {
        var s := lineage[i];
        var entry := if s in scrollIndex then scrollIndex[s] else {};
        scrollIndex := scrollIndex[s := entry + {layout}];
        assert lineage[..i + 1][..i] == lineage[..i];
        i := i + 1;
      }
      assert lineage[..i] == lineage;
    }

    /**
     * Removes `layout` from the entry of every container in `lineage`,
     * deleting entries that become empty.
     */
    method RemoveScrollMembership(layout: LayoutId, lineage: seq<ScrollContainerId>)
      modifies this
      ensures scrollIndex == WithoutMember(old(scrollIndex), layout, lineage)
      ensures snapshots == old(snapshots) && versionCounter == old(versionCounter)
    {
      var i := 0;
      while i < |lineage|
        invariant 0 <= i <= |lineage|
        invariant scrollIndex == WithoutMember(old(scrollIndex), layout, lineage[..i])
        invariant snapshots == old(snapshots) && versionCounter == old(versionCounter)
      {
        var s := lineage[i];
        if s in scrollIndex {
          var entries := scrollIndex[s] - {layout};
          if entries == {} {
            scrollIndex := scrollIndex - {s};
          } else {
            scrollIndex := scrollIndex[s := entries];
          }
        }
        assert lineage[..i + 1][..i] == lineage[..i];
        i := i + 1;
      }
      assert lineage[..i] == lineage;
    }
  }

  // ------------------------------------------------ the global registry

  datatype Change = Updated(snapshot: NodeSnapshot) | Invalidated

  /** One run of a subscriber callback with the change it was given. */
  datatype Invocation = Invocation(callback: int, change: Change)

  datatype SubscriptionEntry = SubscriptionEntry(id: int, callback: int)

  type Key = (WindowId, LayoutId)

  function Callbacks(entries: seq<SubscriptionEntry>): (cbs: seq<int>)
    ensures |cbs| == |entries|
    ensures forall i | 0 <= i < |entries| :: cbs[i] == entries[i].callback
  {
    if entries == [] then [] else [entries[0].callback] + Callbacks(entries[1..])
  }

  /** Running each callback once, in order, with `change`. */
  function Invocations(callbacks: seq<int>, change: Change): (log: seq<Invocation>)
    ensures |log| == |callbacks|
    ensures forall i | 0 <= i < |log| :: log[i] == Invocation(callbacks[i], change)
  {
    if callbacks == [] then [] else [Invocation(callbacks[0], Invalidated).(change := change)] + Invocations(callbacks[1..], change)
  }

  function CallbacksIn(subscriptions: map<Key, seq<SubscriptionEntry>>, key: Key): seq<int> {
    if key in subscriptions then Callbacks(subscriptions[key]) else []
  }

  /** The invalidation callbacks run for the layouts of `window` in `order`. */
  function InvalidationLog(subscriptions: map<Key, seq<SubscriptionEntry>>, window: WindowId, order: seq<LayoutId>): seq<Invocation> {
    if order == [] then []
    else InvalidationLog(subscriptions, window, order[..|order| - 1])
         + Invocations(CallbacksIn(subscriptions, (window, order[|order| - 1])), Invalidated)
  }

  lemma InvalidationLogSnoc(subscriptions: map<Key, seq<SubscriptionEntry>>, window: WindowId, order: seq<LayoutId>, layout: LayoutId)
    ensures InvalidationLog(subscriptions, window, order + [layout])
         == InvalidationLog(subscriptions, window, order) + Invocations(CallbacksIn(subscriptions, (window, layout)), Invalidated)
  {
    assert (order + [layout])[..|order|] == order;
  }

  /** The non-empty callback lists of the keys in `order`, in that order. */
  function CallbackSets(subscriptions: map<Key, seq<SubscriptionEntry>>, window: WindowId, order: seq<LayoutId>): (sets: seq<seq<int>>)
    ensures forall i | 0 <= i < |sets| :: sets[i] != []
    ensures |sets| <= |order|
  {
    if order == [] then []
    else
      var cbs := CallbacksIn(subscriptions, (window, order[|order| - 1]));
      CallbackSets(subscriptions, window, order[..|order| - 1]) + (if cbs == [] then [] else [cbs])
  }

  /** The entries of `m` that belong to other windows. */
  function OutsideWindow<V>(m: map<Key, V>, window: WindowId): map<Key, V> {
    map k | k in m && k.0 != window :: m[k]
  }

  /** The layout ids `window` has entries for. */
  function LayoutsOf<V>(m: map<Key, V>, window: WindowId): set<LayoutId> {
    set k | k in m && k.0 == window :: k.1
  }

  lemma CallbackSetsSnoc(subscriptions: map<Key, seq<SubscriptionEntry>>, window: WindowId, order: seq<LayoutId>, layout: LayoutId)
    ensures var cbs := CallbacksIn(subscriptions, (window, layout));
      CallbackSets(subscriptions, window, order + [layout])
      == CallbackSets(subscriptions, window, order) + (if cbs == [] then [] else [cbs])
  {
    assert (order + [layout])[..|order|] == order;
  }

  class GlobalNodeGeometry {
    var snapshots: map<Key, NodeSnapshot>
    var subscriptions: map<Key, seq<SubscriptionEntry>>
    var nextSubscriptionId: int
    /** Every callback run so far, oldest first. */
    var log: seq<Invocation>

    /** Subscriber ids are never 0, and no key keeps an empty list. */
    ghost predicate Valid()
      reads this
    {
      && 0 < nextSubscriptionId < U64Modulus
      && forall k | k in subscriptions :: subscriptions[k] != []
    }

    function CallbacksFor(key: Key): seq<int>
      reads this
    {
      CallbacksIn(subscriptions, key)
    }

    constructor ()
      ensures Valid() && snapshots == map[] && subscriptions == map[] && nextSubscriptionId == 1 && log == []
    {
      snapshots := map[];
      subscriptions := map[];
      nextSubscriptionId := 1;
      log := [];
    }

    /** Stores the window's copy of a snapshot; returns the key's callbacks. */
    method Record(window: WindowId, layout: LayoutId, snapshot: NodeSnapshot) returns (callbacks: seq<int>)
      modifies this
      ensures snapshots == old(snapshots)[(window, layout) := snapshot]
      ensures callbacks == CallbacksFor((window, layout))
      ensures subscriptions == old(subscriptions) && nextSubscriptionId == old(nextSubscriptionId) && log == old(log)
    {
      snapshots := snapshots[(window, layout) := snapshot];
      callbacks := CallbacksFor((window, layout));
    }

    method Snapshot(window: WindowId, layout: LayoutId) returns (s: Option<NodeSnapshot>)
      ensures s.Some? <==> (window, layout) in snapshots
      ensures s.Some? ==> s.value == snapshots[(window, layout)]
    {
      s := if (window, layout) in snapshots then Some(snapshots[(window, layout)]) else None;
    }

    /**
     * Drops the window's copy; returns callbacks only when a snapshot
     * existed or the key has subscribers.
     */
    method Invalidate(window: WindowId, layout: LayoutId) returns (callbacks: seq<int>)
      requires Valid()
      modifies this
      ensures Valid()
      ensures snapshots == old(snapshots) - {(window, layout)}
      ensures callbacks != [] ==> (window, layout) in old(snapshots) || (window, layout) in subscriptions
      ensures callbacks == CallbacksFor((window, layout))
      ensures subscriptions == old(subscriptions) && nextSubscriptionId == old(nextSubscriptionId) && log == old(log)
    {
      var key := (window, layout);
      var hadSnapshot := key in snapshots;
      snapshots := snapshots - {key};
      if hadSnapshot || key in subscriptions {
        callbacks := CallbacksFor(key);
      } else {
        callbacks := [];
      }
    }

    /**
     * Drops every snapshot and subscription of `window`. Returns the
     * non-empty callback lists of the dropped snapshots' keys, in the
     * (hash) order `order` in which they were visited.
     */
    method ClearWindow(window: WindowId) returns (sets: seq<seq<int>>, ghost order: seq<LayoutId>)
      requires Valid()
      modifies this
      ensures Valid()
      ensures snapshots == OutsideWindow(old(snapshots), window)
      ensures subscriptions == OutsideWindow(old(subscriptions), window)
      ensures Elements(order) == LayoutsOf(old(snapshots), window)
      ensures |order| == |LayoutsOf(old(snapshots), window)|
      ensures sets == CallbackSets(old(subscriptions), window, order)
      ensures nextSubscriptionId == old(nextSubscriptionId) && log == old(log)
    {
      var targets := LayoutsOf(snapshots, window);
      snapshots := OutsideWindow(snapshots, window);
      sets, order := CollectCallbacks(window, targets);
      subscriptions := OutsideWindow(subscriptions, window);
    }

    /**
     * Visits the keys `(window, l)` for every `l` in `targets`, in some
     * order, collecting their non-empty callback lists.
     */
    method CollectCallbacks(window: WindowId, targets: set<LayoutId>) returns (sets: seq<seq<int>>, ghost order: seq<LayoutId>)
      ensures Elements(order) == targets && |order| == |targets|
      ensures sets == CallbackSets(subscriptions, window, order)
    {
      sets := [];
      order := [];
      var rest := targets;
      while rest != {}
        invariant rest <= targets && Elements(order) == targets - rest && |order| + |rest| == |targets|
        invariant sets == CallbackSets(subscriptions, window, order)
        decreases rest
      {
        var layout :| layout in rest;
        assert layout !in Elements(order);
        var callbacks := CallbacksFor((window, layout));
        if callbacks != [] {
          sets := sets + [callbacks];
        }
        CallbackSetsSnoc(subscriptions, window, order, layout);
        VisitStep(order, targets, rest, layout);
        order := order + [layout];
        rest := rest - {layout};
      }
    }

    /**
     * Registers `callback` for the key under the next subscriber id, which
     * then advances, wrapping past 2^64 - 1 to 1 (never 0).
     */
    method Subscribe(window: WindowId, layout: LayoutId, callback: int) returns (sub: NodeGeometrySubscription)
      requires Valid()
      modifies this
      ensures Valid() && fresh(sub)
      ensures sub.window == window && sub.layout == layout && sub.active
      ensures sub.subscriberId == old(nextSubscriptionId) && sub.subscriberId != 0
      ensures nextSubscriptionId == if old(nextSubscriptionId) + 1 == U64Modulus then 1 else old(nextSubscriptionId) + 1
      ensures subscriptions == old(subscriptions)[(window, layout) :=
        (if (window, layout) in old(subscriptions) then old(subscriptions)[(window, layout)] else []) + [SubscriptionEntry(sub.subscriberId, callback)]]
      ensures snapshots == old(snapshots) && log == old(log)
    {
      var id := nextSubscriptionId;
      var next := (nextSubscriptionId + 1) % U64Modulus;
      nextSubscriptionId := if next == 0 then 1 else next;
      var key := (window, layout);
      var entries := if key in subscriptions then subscriptions[key] else [];
      subscriptions := subscriptions[key := entries + [SubscriptionEntry(id, callback)]];
      sub := new NodeGeometrySubscription(window, layout, id);
    }

    /**
     * Removes the entries with `subscriberId` under the key, and the key
     * itself once its list is empty.
     */
    method RemoveSubscription(window: WindowId, layout: LayoutId, subscriberId: int)
      requires Valid()
      modifies this
      ensures Valid()
      ensures var key := (window, layout);
        subscriptions == if key !in old(subscriptions) then old(subscriptions)
          else if WithoutSubscriber(old(subscriptions)[key], subscriberId) == [] then old(subscriptions) - {key}
          else old(subscriptions)[key := WithoutSubscriber(old(subscriptions)[key], subscriberId)]
      ensures snapshots == old(snapshots) && nextSubscriptionId == old(nextSubscriptionId) && log == old(log)
    {
      var key := (window, layout);
      if key in subscriptions {
        var entries := WithoutSubscriber(subscriptions[key], subscriberId);
        if entries == [] {
          subscriptions := subscriptions - {key};
        } else {
          subscriptions := subscriptions[key := entries];
        }
      }
    }

    /** Runs each callback once with `change`. */
    method Notify(callbacks: seq<int>, change: Change)
      modifies this
      ensures log == old(log) + Invocations(callbacks, change)
      ensures snapshots == old(snapshots) && subscriptions == old(subscriptions)
      ensures nextSubscriptionId == old(nextSubscriptionId)
    {
      var i := 0;
      while i < |callbacks|
        invariant 0 <= i <= |callbacks|
        invariant log == old(log) + Invocations(callbacks[..i], change)
        invariant snapshots == old(snapshots) && subscriptions == old(subscriptions)
        invariant nextSubscriptionId == old(nextSubscriptionId)
      {
        log := log + [Invocation(callbacks[i], change)];
        i := i + 1;
        assert callbacks[..i] == callbacks[..i - 1] + [callbacks[i - 1]];
        InvocationsSnoc(callbacks[..i - 1], callbacks[i - 1], change);
      }
      assert callbacks[..i] == callbacks;
    }

    /** Records a snapshot and tells the key's subscribers it was updated. */
    method RecordAndNotify(window: WindowId, layout: LayoutId, snapshot: NodeSnapshot)
      requires Valid()
      modifies this
      ensures Valid()
      ensures snapshots == old(snapshots)[(window, layout) := snapshot]
      ensures subscriptions == old(subscriptions) && nextSubscriptionId == old(nextSubscriptionId)
      ensures log == old(log) + Invocations(CallbacksFor((window, layout)), Updated(snapshot))
    {
      var callbacks := Record(window, layout, snapshot);
      Notify(callbacks, Updated(snapshot));
    }

    /** Invalidates the key and tells its subscribers. */
    method InvalidateAndNotify(window: WindowId, layout: LayoutId)
      requires Valid()
      modifies this
      ensures Valid()
      ensures snapshots == old(snapshots) - {(window, layout)}
      ensures subscriptions == old(subscriptions) && nextSubscriptionId == old(nextSubscriptionId)
      ensures log == old(log) + Invocations(CallbacksFor((window, layout)), Invalidated)
    {
      var callbacks := Invalidate(window, layout);
      Notify(callbacks, Invalidated);
    }

    /** Clears the window and tells each dropped snapshot's subscribers. */
    method ClearAndNotify(window: WindowId) returns (ghost order: seq<LayoutId>)
      requires Valid()
      modifies this
      ensures Valid()
      ensures snapshots == OutsideWindow(old(snapshots), window)
      ensures subscriptions == OutsideWindow(old(subscriptions), window)
      ensures Elements(order) == LayoutsOf(old(snapshots), window)
      ensures log == old(log) + InvalidationLog(old(subscriptions), window, order)
    {
      var sets;
      sets, order := ClearWindow(window);
      ghost var log0, snapshots0, subscriptions0 := log, snapshots, subscriptions;
      CallbackSetsLog(old(subscriptions), window, order);
      var i := 0;
      while i < |sets|
        invariant 0 <= i <= |sets|
        invariant log == log0 + Flatten(sets[..i], Invalidated)
        invariant snapshots == snapshots0 && subscriptions == subscriptions0
        invariant nextSubscriptionId == old(nextSubscriptionId)
      {
        Notify(sets[i], Invalidated);
        Reassociate(log0, Flatten(sets[..i], Invalidated), Invocations(sets[i], Invalidated));
        assert sets[..i + 1] == sets[..i] + [sets[i]];
        FlattenSnoc(sets[..i], sets[i], Invalidated);
        i := i + 1;
      }
      assert sets[..i] == sets;
    }
  }

  function WithoutSubscriber(entries: seq<SubscriptionEntry>, id: int): (r: seq<SubscriptionEntry>)
    ensures forall e | e in r :: e.id != id && e in entries
    ensures forall e | e in entries && e.id != id :: e in r
  {
    if entries == [] then []
    else (if entries[0].id == id then [] else [entries[0]]) + WithoutSubscriber(entries[1..], id)
  }

  lemma Reassociate<T>(a: seq<T>, b: seq<T>, c: seq<T>)
    ensures a + b + c == a + (b + c)
  {
  }

  lemma InvocationsSnoc(callbacks: seq<int>, c: int, change: Change)
    ensures Invocations(callbacks + [c], change) == Invocations(callbacks, change) + [Invocation(c, change)]
  {
  }

  function Flatten(sets: seq<seq<int>>, change: Change): seq<Invocation> {
    if sets == [] then [] else Flatten(sets[..|sets| - 1], change) + Invocations(sets[|sets| - 1], change)
  }

  lemma FlattenSnoc(sets: seq<seq<int>>, s: seq<int>, change: Change)
    ensures Flatten(sets + [s], change) == Flatten(sets, change) + Invocations(s, change)
  {
    assert (sets + [s])[..|sets|] == sets;
  }

  /**
   * Running the non-empty callback lists is running every key's callbacks:
   * empty lists contribute nothing.
   */
  lemma {:induction false} CallbackSetsLog(subscriptions: map<Key, seq<SubscriptionEntry>>, window: WindowId, order: seq<LayoutId>)
    ensures Flatten(CallbackSets(subscriptions, window, order), Invalidated) == InvalidationLog(subscriptions, window, order)
  {
    if order != [] {
      var init := order[..|order| - 1];
      var cbs := CallbacksIn(subscriptions, (window, order[|order| - 1]));
      CallbackSetsLog(subscriptions, window, init);
      if cbs != [] {
        FlattenSnoc(CallbackSets(subscriptions, window, init), cbs, Invalidated);
      } else {
        assert CallbackSets(subscriptions, window, order) == CallbackSets(subscriptions, window, init);
      }
    }
  }

  // ------------------------------------------------------ subscriptions

  /** The handle a subscriber keeps; tearing it down unregisters it once. */
  class NodeGeometrySubscription {
    const window: WindowId
    const layout: LayoutId
    const subscriberId: int
    var active: bool

    constructor (window: WindowId, layout: LayoutId, subscriberId: int)
      ensures this.window == window && this.layout == layout && this.subscriberId == subscriberId && active
    {
      this.window := window;
      this.layout := layout;
      this.subscriberId := subscriberId;
      active := true;
    }

    method IsActive() returns (b: bool)
      ensures b == active
    {
      b := active;
    }

    /** Unregisters the subscriber if still active; later calls do nothing. */
    method Teardown(registry: GlobalNodeGeometry)
      requires registry.Valid()
      modifies this, registry
      ensures registry.Valid() && !active
      ensures !old(active) ==> unchanged(registry)
      ensures old(active) ==>
        var key := (window, layout);
        registry.subscriptions == if key !in old(registry.subscriptions) then old(registry.subscriptions)
          else if WithoutSubscriber(old(registry.subscriptions)[key], subscriberId) == [] then old(registry.subscriptions) - {key}
          else old(registry.subscriptions)[key := WithoutSubscriber(old(registry.subscriptions)[key], subscriberId)]
      ensures registry.snapshots == old(registry.snapshots) && registry.log == old(registry.log)
    {
      if active {
        registry.RemoveSubscription(window, layout, subscriberId);
        active := false;
      }
    }
  }
}
