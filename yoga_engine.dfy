/*
 * `YogaLayoutEngine` (crates/gpui/src/yoga/engine.rs): GPUI's layout
 * engine on top of the Yoga bridge. It maps layout ids to node handles,
 * mirrors every child list it hands to Yoga, keeps the measure functions
 * of measured nodes together with their registry handles, and turns
 * Yoga's parent-relative layouts into window bounds.
 *
 * The engine is the only user of the node store and of the measure
 * registry it is built on. `MEASURE_CONTEXT` is the field
 * `measureContext`; the window and app pointers it carries are not
 * modelled, only the scale factor.
 */
module YogaEngine {
  import opened Wrappers
  import opened YogaFfiTypes
  import G = GpuiStyle
  import L = Layout
  import StyleConversion
  import YogaBridge
  import YogaFfi
  import Graph
  import ChildLists

  /** A layout id's raw value. */
  type Id = int

  // ----- the engine's view of the node graph -----

  /** The handles of the known ids of `ids`, in order; ids without a node are skipped. */
  function LiveHandles(nodes: map<Id, Handle>, ids: seq<Id>): (r: seq<Handle>)
    ensures |r| <= |ids|
  {
    if ids == [] then []
    else LiveHandles(nodes, ids[..|ids| - 1]) + (if ids[|ids| - 1] in nodes then [nodes[ids[|ids| - 1]]] else [])
  }

  /** A handle is listed iff it is the handle of a known listed id. */
  lemma {:induction false} LiveHandlesMembers(nodes: map<Id, Handle>, ids: seq<Id>, h: Handle)
    ensures h in LiveHandles(nodes, ids) <==> exists k :: k in ids && k in nodes && nodes[k] == h
    decreases |ids|
  {
    if ids != [] {
      var init := ids[..|ids| - 1];
      LiveHandlesMembers(nodes, init, h);
      assert ids == init + [ids[|ids| - 1]];
      if h in LiveHandles(nodes, ids) {
        if h in LiveHandles(nodes, init) {
          var k :| k in init && k in nodes && nodes[k] == h;
          assert k in ids;
        } else {
          var last := ids[|ids| - 1];
          assert LiveHandles(nodes, ids) == LiveHandles(nodes, init) + (if last in nodes then [nodes[last]] else []);
          assert last in ids && last in nodes && nodes[last] == h;
        }
      } else {
        forall k | k in ids && k in nodes
          ensures nodes[k] != h
        {
          if k != ids[|ids| - 1] {
            assert k in init;
          }
        }
      }
    }
  }

  /** `nodes` and `owner` are inverse maps: each id has its own handle. */
  ghost predicate Inverse(nodes: map<Id, Handle>, owner: map<Handle, Id>)
  {
    && (forall id | id in nodes :: nodes[id] in owner && owner[nodes[id]] == id)
    && (forall h | h in owner :: owner[h] in nodes && nodes[owner[h]] == h)
  }

  /** Every id mentioned by a child list was handed out before `bound`. */
  ghost predicate ListsBelow(childrenMap: map<Id, seq<Id>>, bound: nat)
  {
    forall p, k | p in childrenMap && k in childrenMap[p] :: k < bound
  }

  /**
   * The store's child lists are the engine's, read through `nodes`: the
   * child list of a known id's handle holds the handles of its listed
   * children that still have a node, in order.
   */
  ghost predicate Mirrored(nodes: map<Id, Handle>, childrenMap: map<Id, seq<Id>>, storeChildren: map<Handle, seq<Handle>>)
  {
    forall id | id in nodes ::
      id in childrenMap && nodes[id] in storeChildren && storeChildren[nodes[id]] == LiveHandles(nodes, childrenMap[id])
  }

  /** An id absent from a list reads the same before and after it gets a node. */
  lemma {:induction false} LiveHandlesFresh(nodes: map<Id, Handle>, ids: seq<Id>, id: Id, h: Handle)
    requires id !in ids
    ensures LiveHandles(nodes[id := h], ids) == LiveHandles(nodes, ids)
    decreases |ids|
  {
    if ids != [] {
      LiveHandlesFresh(nodes, ids[..|ids| - 1], id, h);
    }
  }

  /** When every id is known, each one contributes its handle. */
  lemma LiveHandlesStep(nodes: map<Id, Handle>, ids: seq<Id>, i: nat)
    requires i < |ids| && ids[i] in nodes
    ensures LiveHandles(nodes, ids[..i + 1]) == LiveHandles(nodes, ids[..i]) + [nodes[ids[i]]]
  {
    assert ids[..i + 1][..i] == ids[..i];
  }

  /** A handle no id owns is not any id's node. */
  lemma UnownedHandle(nodes: map<Id, Handle>, owner: map<Handle, Id>, h: Handle)
    requires Inverse(nodes, owner) && h !in owner
    ensures forall k | k in nodes :: nodes[k] != h
  {
  }

  /** A fresh id with a fresh handle keeps the two maps inverse. */
  lemma InverseFresh(nodes: map<Id, Handle>, owner: map<Handle, Id>, id: Id, h: Handle)
    requires Inverse(nodes, owner) && id !in nodes && h !in owner
    ensures Inverse(nodes[id := h], owner[h := id])
  {
  }

  /** A fresh node with an empty child list keeps the store mirroring the engine. */
  lemma MirrorFresh(nodes: map<Id, Handle>, childrenMap: map<Id, seq<Id>>, storeChildren: map<Handle, seq<Handle>>,
                    id: Id, h: Handle)
    requires Mirrored(nodes, childrenMap, storeChildren)
    requires id !in nodes && forall k | k in nodes :: nodes[k] != h
    requires forall p | p in childrenMap :: id !in childrenMap[p]
    ensures Mirrored(nodes[id := h], childrenMap[id := []], storeChildren[h := []])
  {
    var nodes', childrenMap', storeChildren' := nodes[id := h], childrenMap[id := []], storeChildren[h := []];
    forall p | p in nodes'
      ensures nodes'[p] in storeChildren' && storeChildren'[nodes'[p]] == LiveHandles(nodes', childrenMap'[p])
    {
      if p != id {
        MirrorFreshAt(nodes, childrenMap[p], storeChildren, id, h, p);
      }
    }
  }

  /** One old entry of `MirrorFresh`. */
  lemma MirrorFreshAt(nodes: map<Id, Handle>, kids: seq<Id>, storeChildren: map<Handle, seq<Handle>>,
                      id: Id, h: Handle, p: Id)
    requires p in nodes && nodes[p] != h && p != id && id !in kids
    requires nodes[p] in storeChildren && storeChildren[nodes[p]] == LiveHandles(nodes, kids)
    ensures nodes[id := h][p] in storeChildren[h := []]
    ensures storeChildren[h := []][nodes[id := h][p]] == LiveHandles(nodes[id := h], kids)
  {
    LiveHandlesFresh(nodes, kids, id, h);
  }

  /** The rank the store gives each known id's handle. */
  ghost function ERank(nodes: map<Id, Handle>, storeRank: map<Handle, nat>): map<Id, nat>
    requires forall id | id in nodes :: nodes[id] in storeRank
  {
    map id | id in nodes :: storeRank[nodes[id]]
  }

  /** A mirrored engine graph is acyclic, ranked by its handles' store ranks. */
  lemma MirrorRanked(nodes: map<Id, Handle>, childrenMap: map<Id, seq<Id>>, storeChildren: map<Handle, seq<Handle>>,
                     storeRank: map<Handle, nat>)
    requires Mirrored(nodes, childrenMap, storeChildren) && Graph.Ranked(storeChildren, storeRank)
    requires childrenMap.Keys == nodes.Keys
    ensures forall id | id in nodes :: nodes[id] in storeRank
    ensures Graph.Ranked(childrenMap, ERank(nodes, storeRank))
  {
    var rank := ERank(nodes, storeRank);
    forall p, i | p in childrenMap && 0 <= i < |childrenMap[p]| && childrenMap[p][i] in childrenMap
      ensures rank[childrenMap[p][i]] < rank[p]
    {
      var k := childrenMap[p][i];
      assert k in childrenMap[p];
      var hs := storeChildren[nodes[p]];
      LiveHandlesMembers(nodes, childrenMap[p], nodes[k]);
      var j :| 0 <= j < |hs| && hs[j] == nodes[k];
      assert hs[j] in storeChildren;
      Graph.RankedEdge(storeChildren, storeRank, nodes[p], j);
    }
  }

  // ----- measurement through the engine -----

  /** `yoga_input_to_known_dimension`: only an Exactly input is a known size, in logical pixels. */
  function KnownDimension(input: YogaMeasureInput, scale: L.ScaleFactor): (r: Option<real>)
    ensures r.Some? <==> input.mode == Exactly
    ensures r.Some? && input.value.Num? ==> r.value * scale == input.value.v
  {
    if input.mode == Exactly then Some(Unscale(input.value, scale)) else None
  }

  /** `yoga_input_to_available_space`: Undefined is max-content; any other mode is a definite size. */
  function AvailableSpaceOf(input: YogaMeasureInput, scale: L.ScaleFactor): (r: L.AvailableSpace)
    ensures r.MaxContent? <==> input.mode == ModeUndefined
    ensures !r.MinContent?
    ensures r.Definite? && input.value.Num? ==> r.px * scale == input.value.v
  {
    if input.mode == ModeUndefined then L.MaxContent else L.AvailableSpace.Definite(Unscale(input.value, scale))
  }

  /** Device pixels to logical pixels. */
  function Unscale(v: F32, scale: L.ScaleFactor): real
  {
    if v.Num? then v.v / scale else 0.0
  }

  /**
   * The callback the engine registers for layout id `id`: without a
   * measure context, or without a measure function for `id`, it reports
   * (0, 0); otherwise it runs the function on logical sizes and scales
   * the measured size back to device pixels.
   */
  function EngineMeasure(functions: map<Id, L.LayoutMeasureFn>, context: Option<L.ScaleFactor>, run: L.MeasureRunner,
                         id: Id, width: YogaMeasureInput, height: YogaMeasureInput): (s: YogaSize)
    ensures context.None? || id !in functions ==> s == DefaultSize
    ensures context.Some? && id in functions ==>
      var m := run(functions[id], G.Size(KnownDimension(width, context.value), KnownDimension(height, context.value)),
                   G.Size(AvailableSpaceOf(width, context.value), AvailableSpaceOf(height, context.value)));
      s == YogaSize(m.width * context.value, m.height * context.value)
  {
    match context
    case None => DefaultSize
    case Some(scale) =>
      if id !in functions then DefaultSize
      else
        var known := G.Size(KnownDimension(width, scale), KnownDimension(height, scale));
        var available := G.Size(AvailableSpaceOf(width, scale), AvailableSpaceOf(height, scale));
        var measured := run(functions[id], known, available);
        YogaSize(measured.width * scale, measured.height * scale)
  }

  /** What running a registered callback does, over the engine's tables and context. */
  function EngineRunner(functions: map<Id, L.LayoutMeasureFn>, context: Option<L.ScaleFactor>, run: L.MeasureRunner): CallbackRunner
  {
    (cb: MeasureCallback, w: YogaMeasureInput, h: YogaMeasureInput) => EngineMeasure(functions, context, run, cb.layoutId, w, h)
  }

  /**
   * Outside `compute_layout` the context is cleared, so a callback that
   * Yoga runs then yields (0, 0) whatever is registered.
   */
  lemma NoContextMeasuresNothing(functions: map<Id, L.LayoutMeasureFn>, run: L.MeasureRunner,
                                 callbacks: map<MeasureId, MeasureCallback>, id: MeasureId, w: YogaMeasureInput, h: YogaMeasureInput)
    ensures YogaMeasure(callbacks, id, w, h, EngineRunner(functions, None, run)) == DefaultSize
  {
  }

  /**
   * A measure round trip: for an Exactly input the measure function sees
   * a known size that, scaled back, is the input Yoga gave.
   */
  lemma {:induction false} KnownDimensionRoundTrip(v: real, scale: L.ScaleFactor)
    ensures KnownDimension(YogaMeasureInput(Num(v), Exactly), scale) == Some(v / scale)
    ensures KnownDimension(YogaMeasureInput(Num(v), Exactly), scale).value * scale == v
    ensures KnownDimension(YogaMeasureInput(Num(v), AtMost), scale).None?
    ensures AvailableSpaceOf(YogaMeasureInput(Num(v), AtMost), scale) == L.AvailableSpace.Definite(v / scale)
  {
  }

  // ----- the measure registry seen from the engine -----

  /**
   * The measure handles, the store's contexts and the registry agree: a
   * measured id's node holds a context with its handle's id, that id's
   * callback is the one built for the layout id, every context belongs to
   * a measured id, and no other callback is registered.
   */
  ghost predicate MeasuresAgree(nodes: map<Id, Handle>, owner: map<Handle, Id>, handles: map<Id, MeasureId>,
                                contexts: map<Handle, MeasureId>, callbacks: map<MeasureId, MeasureCallback>)
  {
    && (forall k | k in handles :: k in nodes && nodes[k] in contexts && contexts[nodes[k]] == handles[k])
    && (forall k | k in handles :: handles[k] in callbacks && callbacks[handles[k]] == MeasureCallback(k))
    && (forall h | h in contexts :: h in owner && owner[h] in handles)
    && (forall m | m in callbacks :: callbacks[m].layoutId in handles && handles[callbacks[m].layoutId] == m)
  }

  // ----- bounds -----

  /** Yoga's parent-relative layout as window bounds below a parent at `origin`. */
  function WindowBounds(l: YogaLayout, origin: G.Point<real>, scale: L.ScaleFactor): (b: G.Bounds)
    ensures b.origin.x * scale == origin.x * scale + l.left && b.origin.y * scale == origin.y * scale + l.top
    ensures b.size.width * scale == l.width && b.size.height * scale == l.height
  {
    G.Bounds(G.Point(origin.x + l.left / scale, origin.y + l.top / scale),
             G.Size(l.width / scale, l.height / scale))
  }

  /** The engine's graph is ranked and every known id's node has a layout to read. */
  ghost predicate Extractable(nodes: map<Id, Handle>, childrenMap: map<Id, seq<Id>>, layouts: map<Handle, YogaLayout>,
                              rank: map<Id, nat>)
  {
    Graph.Ranked(childrenMap, rank) && childrenMap.Keys == nodes.Keys && forall k | k in nodes :: nodes[k] in layouts
  }

  /** The known children of a known id rank below it. */
  lemma ChildrenRankBelow(nodes: map<Id, Handle>, childrenMap: map<Id, seq<Id>>, layouts: map<Handle, YogaLayout>,
                          rank: map<Id, nat>, id: Id)
    requires Extractable(nodes, childrenMap, layouts, rank) && id in nodes
    ensures forall k | k in childrenMap[id] && k in nodes :: rank[k] < rank[id]
  {
    forall k | k in childrenMap[id] && k in nodes
      ensures rank[k] < rank[id]
    {
      var j :| 0 <= j < |childrenMap[id]| && childrenMap[id][j] == k;
      Graph.RankedEdge(childrenMap, rank, id, j);
    }
  }

  /**
   * The bounds `extract_bounds_recursive` writes for `id` and, child by
   * child, for everything below it; a later write for the same id wins.
   */
  function Extracted(nodes: map<Id, Handle>, childrenMap: map<Id, seq<Id>>, layouts: map<Handle, YogaLayout>,
                     ghost rank: map<Id, nat>, id: Id, origin: G.Point<real>, scale: L.ScaleFactor): (r: map<Id, G.Bounds>)
    requires Extractable(nodes, childrenMap, layouts, rank)
    requires id in nodes
    ensures id in r && r.Keys <= nodes.Keys
    decreases rank[id], 1
  {
    var b := WindowBounds(layouts[nodes[id]], origin, scale);
    map[id := b] + ExtractedList(nodes, childrenMap, layouts, rank, childrenMap[id], b.origin, scale, rank[id])
  }

  /** The bounds written for each known child of a list in turn. */
  function ExtractedList(nodes: map<Id, Handle>, childrenMap: map<Id, seq<Id>>, layouts: map<Handle, YogaLayout>,
                         ghost rank: map<Id, nat>, kids: seq<Id>, origin: G.Point<real>, scale: L.ScaleFactor,
                         ghost bound: nat): (r: map<Id, G.Bounds>)
    requires Extractable(nodes, childrenMap, layouts, rank)
    requires forall k | k in kids && k in nodes :: rank[k] < bound
    ensures r.Keys <= nodes.Keys
    decreases bound, 0, |kids|
  {
    if kids == [] then map[]
    else
      var last := kids[|kids| - 1];
      ExtractedList(nodes, childrenMap, layouts, rank, kids[..|kids| - 1], origin, scale, bound)
      + (if last in nodes then Extracted(nodes, childrenMap, layouts, rank, last, origin, scale) else map[])
  }

  /** Extending a prefix of a child list by one adds that child's bounds, which win over earlier ones. */
  lemma ExtractedListStep(nodes: map<Id, Handle>, childrenMap: map<Id, seq<Id>>, layouts: map<Handle, YogaLayout>,
                          rank: map<Id, nat>, kids: seq<Id>, i: nat, origin: G.Point<real>, scale: L.ScaleFactor,
                          bound: nat)
    requires Extractable(nodes, childrenMap, layouts, rank)
    requires forall k | k in kids && k in nodes :: rank[k] < bound
    requires i < |kids|
    ensures forall k | k in kids[..i] :: k in kids
    ensures kids[i] !in nodes ==>
      ExtractedList(nodes, childrenMap, layouts, rank, kids[..i + 1], origin, scale, bound)
      == ExtractedList(nodes, childrenMap, layouts, rank, kids[..i], origin, scale, bound)
    ensures kids[i] in nodes ==>
      ExtractedList(nodes, childrenMap, layouts, rank, kids[..i + 1], origin, scale, bound)
      == ExtractedList(nodes, childrenMap, layouts, rank, kids[..i], origin, scale, bound)
         + Extracted(nodes, childrenMap, layouts, rank, kids[i], origin, scale)
  {
    assert kids[..i + 1][..i] == kids[..i];
    var before := ExtractedList(nodes, childrenMap, layouts, rank, kids[..i], origin, scale, bound);
    assert before + map[] == before;
  }

  /** Merging bounds tables is associative. */
  lemma MergeAssociative(a: map<Id, G.Bounds>, b: map<Id, G.Bounds>, c: map<Id, G.Bounds>)
    ensures (a + b) + c == a + (b + c)
  {
  }

  /** Writing one entry and then merging is merging the entry first. */
  lemma MergeAfterWrite(a: map<Id, G.Bounds>, id: Id, v: G.Bounds, c: map<Id, G.Bounds>)
    ensures a[id := v] + c == a + (map[id := v] + c)
  {
  }

  /** Removing a key and then writing it is writing it. */
  lemma RemoveThenWrite<V>(m: map<Id, V>, id: Id, v: V)
    ensures (m - {id})[id := v] == m[id := v]
  {
  }

  /** Writing a key twice keeps the second value. */
  lemma WriteTwice<K, V>(m: map<K, V>, k: K, v: V, w: V)
    ensures m[k := v][k := w] == m[k := w]
  {
  }

  /** Every id extraction writes below `id` ranks no higher than `id`. */
  lemma ExtractedRanked(nodes: map<Id, Handle>, childrenMap: map<Id, seq<Id>>, layouts: map<Handle, YogaLayout>,
                        rank: map<Id, nat>, id: Id, origin: G.Point<real>, scale: L.ScaleFactor)
    requires Extractable(nodes, childrenMap, layouts, rank) && id in nodes
    ensures forall k | k in Extracted(nodes, childrenMap, layouts, rank, id, origin, scale) :: k in rank && rank[k] <= rank[id]
    decreases rank[id], 1
  {
    ChildrenRankBelow(nodes, childrenMap, layouts, rank, id);
    var b := WindowBounds(layouts[nodes[id]], origin, scale);
    ExtractedListRanked(nodes, childrenMap, layouts, rank, childrenMap[id], b.origin, scale, rank[id]);
  }

  /** Every id extraction writes for a child list ranks below the list's bound. */
  lemma ExtractedListRanked(nodes: map<Id, Handle>, childrenMap: map<Id, seq<Id>>, layouts: map<Handle, YogaLayout>,
                            rank: map<Id, nat>, kids: seq<Id>, origin: G.Point<real>, scale: L.ScaleFactor, bound: nat)
    requires Extractable(nodes, childrenMap, layouts, rank)
    requires forall k | k in kids && k in nodes :: rank[k] < bound
    ensures forall k | k in ExtractedList(nodes, childrenMap, layouts, rank, kids, origin, scale, bound) :: k in rank && rank[k] < bound
    decreases bound, 0, |kids|
  {
    if kids != [] {
      var last := kids[|kids| - 1];
      assert forall k | k in kids[..|kids| - 1] :: k in kids;
      ExtractedListRanked(nodes, childrenMap, layouts, rank, kids[..|kids| - 1], origin, scale, bound);
      if last in nodes {
        ExtractedRanked(nodes, childrenMap, layouts, rank, last, origin, scale);
      }
    }
  }

  /** Nothing below a node overwrites the node's own bounds. */
  lemma ExtractedRoot(nodes: map<Id, Handle>, childrenMap: map<Id, seq<Id>>, layouts: map<Handle, YogaLayout>,
                      rank: map<Id, nat>, id: Id, origin: G.Point<real>, scale: L.ScaleFactor)
    requires Extractable(nodes, childrenMap, layouts, rank) && id in nodes
    ensures Extracted(nodes, childrenMap, layouts, rank, id, origin, scale)[id] == WindowBounds(layouts[nodes[id]], origin, scale)
  {
    ChildrenRankBelow(nodes, childrenMap, layouts, rank, id);
    var b := WindowBounds(layouts[nodes[id]], origin, scale);
    ExtractedListRanked(nodes, childrenMap, layouts, rank, childrenMap[id], b.origin, scale, rank[id]);
  }

  /**
   * In a child list, the bounds an id gets below one child are the ones
   * extraction keeps, unless a later child's subtree writes that id again.
   */
  lemma {:induction false} ExtractedListPick(nodes: map<Id, Handle>, childrenMap: map<Id, seq<Id>>,
                                             layouts: map<Handle, YogaLayout>, rank: map<Id, nat>, kids: seq<Id>, j: nat,
                                             c: Id, origin: G.Point<real>, scale: L.ScaleFactor, bound: nat)
    requires Extractable(nodes, childrenMap, layouts, rank)
    requires forall k | k in kids && k in nodes :: rank[k] < bound
    requires j < |kids| && kids[j] in nodes && c in Extracted(nodes, childrenMap, layouts, rank, kids[j], origin, scale)
    requires forall k | j < k < |kids| && kids[k] in nodes :: c !in Extracted(nodes, childrenMap, layouts, rank, kids[k], origin, scale)
    ensures c in ExtractedList(nodes, childrenMap, layouts, rank, kids, origin, scale, bound)
    ensures ExtractedList(nodes, childrenMap, layouts, rank, kids, origin, scale, bound)[c]
            == Extracted(nodes, childrenMap, layouts, rank, kids[j], origin, scale)[c]
    decreases |kids|
  {
    var n := |kids|;
    var prefix := kids[..n - 1];
    assert forall k | k in prefix :: k in kids;
    if j < n - 1 {
      assert prefix[j] == kids[j];
      forall k | j < k < |prefix| && prefix[k] in nodes
        ensures c !in Extracted(nodes, childrenMap, layouts, rank, prefix[k], origin, scale)
      {
        assert prefix[k] == kids[k];
      }
      ExtractedListPick(nodes, childrenMap, layouts, rank, prefix, j, c, origin, scale, bound);
    }
  }

  /**
   * A child's bounds sit at the parent's origin plus the child's Yoga
   * offset in logical pixels, provided no later sibling's subtree writes
   * the child again.
   */
  lemma ExtractedChildOrigin(nodes: map<Id, Handle>, childrenMap: map<Id, seq<Id>>, layouts: map<Handle, YogaLayout>,
                             rank: map<Id, nat>, id: Id, j: nat, origin: G.Point<real>, scale: L.ScaleFactor)
    requires Extractable(nodes, childrenMap, layouts, rank) && id in nodes
    requires j < |childrenMap[id]| && childrenMap[id][j] in nodes
    requires forall k | j < k < |childrenMap[id]| && childrenMap[id][k] in nodes ::
      childrenMap[id][j] !in Extracted(nodes, childrenMap, layouts, rank, childrenMap[id][k],
                                       WindowBounds(layouts[nodes[id]], origin, scale).origin, scale)
    ensures childrenMap[id][j] in Extracted(nodes, childrenMap, layouts, rank, id, origin, scale)
    ensures
      var r := Extracted(nodes, childrenMap, layouts, rank, id, origin, scale);
      var c := childrenMap[id][j];
      && r[id] == WindowBounds(layouts[nodes[id]], origin, scale)
      && r[c] == WindowBounds(layouts[nodes[c]], r[id].origin, scale)
      && r[c].origin.x == r[id].origin.x + layouts[nodes[c]].left / scale
      && r[c].origin.y == r[id].origin.y + layouts[nodes[c]].top / scale
  {
    var c := childrenMap[id][j];
    var b := WindowBounds(layouts[nodes[id]], origin, scale);
    ChildrenRankBelow(nodes, childrenMap, layouts, rank, id);
    ExtractedRoot(nodes, childrenMap, layouts, rank, id, origin, scale);
    ExtractedRoot(nodes, childrenMap, layouts, rank, c, b.origin, scale);
    ExtractedListPick(nodes, childrenMap, layouts, rank, childrenMap[id], j, c, b.origin, scale, rank[id]);
    assert c != id;
  }

  // ----- available space -----

  /**
   * The available size `compute_layout` hands to Yoga, as written: a
   * definite size keeps its value in logical pixels, min- and max-content
   * carry 0.
   */
  function YogaAvailableAsWritten(a: L.AvailableSpace): (d: YogaAvailableDimension)
    ensures d.kind == Definite <==> a.Definite?
    ensures a.Definite? ==> d.value == a.px
  {
    match a
    case Definite(px) => YogaAvailableDimension(Definite, px)
    case MinContent => YogaAvailableDimension(YogaAvailableDimensionKind.MinContent, 0.0)
    case MaxContent => YogaAvailableDimension(YogaAvailableDimensionKind.MaxContent, 0.0)
  }

  /**
   * The available size in Yoga's units: a definite size in device pixels,
   * scaled like every length of a converted style.
   */
  function YogaAvailable(a: L.AvailableSpace, scale: L.ScaleFactor): (d: YogaAvailableDimension)
    ensures d.kind == Definite <==> a.Definite?
    ensures a.Definite? ==> d.value == a.px * scale
    ensures !a.Definite? ==> d == YogaAvailableAsWritten(a)
  {
    match a
    case Definite(px) => YogaAvailableDimension(Definite, px * scale)
    case MinContent => YogaAvailableDimension(YogaAvailableDimensionKind.MinContent, 0.0)
    case MaxContent => YogaAvailableDimension(YogaAvailableDimensionKind.MaxContent, 0.0)
  }

  /** A node laid out exactly as wide and as high as Yoga's definite available size. */
  function FillingLayout(width: YogaAvailableDimension, height: YogaAvailableDimension): YogaLayout
    requires width.kind == Definite && height.kind == Definite
  {
    YogaLayout(0.0, 0.0, YogaBridge.ValueOrUndefined(width).v, YogaBridge.ValueOrUndefined(height).v)
  }

  /**
   * With the scaled conversion, a root that fills a definite available
   * size comes back from extraction with exactly that size in logical
   * pixels, whatever the scale factor; min- and max-content reach Yoga as
   * undefined.
   */
  lemma AvailableRoundTrip(width: real, height: real, scale: L.ScaleFactor, other: L.AvailableSpace)
    ensures YogaBridge.ValueOrUndefined(YogaAvailable(L.AvailableSpace.Definite(width), scale)) == Num(width * scale)
    ensures !other.Definite? ==> YogaBridge.ValueOrUndefined(YogaAvailable(other, scale)).NaN?
    ensures WindowBounds(FillingLayout(YogaAvailable(L.AvailableSpace.Definite(width), scale),
                                       YogaAvailable(L.AvailableSpace.Definite(height), scale)),
                         G.Point(0.0, 0.0), scale).size == G.Size(width, height)
  {
    var b := WindowBounds(FillingLayout(YogaAvailable(L.AvailableSpace.Definite(width), scale),
                                        YogaAvailable(L.AvailableSpace.Definite(height), scale)),
                          G.Point(0.0, 0.0), scale);
    assert b.size.width * scale == width * scale;
    assert b.size.height * scale == height * scale;
  }

  /**
   * As written, a root that fills a definite available size comes back
   * from extraction divided by the scale factor: Yoga reads the logical
   * size as device pixels, so at any scale factor other than 1 a root that
   * fills a window of non-zero width is extracted narrower or wider than
   * the window.
   */
  lemma AvailableAsWrittenScalesDown(width: real, height: real, scale: L.ScaleFactor)
    ensures WindowBounds(FillingLayout(YogaAvailableAsWritten(L.AvailableSpace.Definite(width)),
                                       YogaAvailableAsWritten(L.AvailableSpace.Definite(height))),
                         G.Point(0.0, 0.0), scale).size == G.Size(width / scale, height / scale)
    ensures scale != 1.0 && width != 0.0 ==>
      WindowBounds(FillingLayout(YogaAvailableAsWritten(L.AvailableSpace.Definite(width)),
                                 YogaAvailableAsWritten(L.AvailableSpace.Definite(height))),
                   G.Point(0.0, 0.0), scale).size != G.Size(width, height)
  {
    if scale != 1.0 && width != 0.0 {
      assert width / scale != width by {
        var q := width / scale;
        assert q * scale == width;
        if q == width {
          calc {
            width * scale;
            q * scale;
            width;
          }
        }
      }
    }
  }

  // ----- external overrides -----

  /** The engine id an override addresses. */
  function OverrideId(o: L.ExternalLayoutOverride): Id
  {
    L.ToRaw(o.layoutId) as Id
  }

  /** The external bounds after applying `overrides` in order. */
  function OverriddenBounds(bounds: map<Id, G.Bounds>, overrides: seq<L.ExternalLayoutOverride>): map<Id, G.Bounds>
  {
    if overrides == [] then bounds
    else
      var last := overrides[|overrides| - 1];
      OverriddenBounds(bounds, overrides[..|overrides| - 1])[OverrideId(last) := last.bounds]
  }

  /** The external styles after applying `overrides` in order: a style is recorded, none removes it. */
  function OverriddenStyles(styles: map<Id, G.Style>, overrides: seq<L.ExternalLayoutOverride>): map<Id, G.Style>
  {
    if overrides == [] then styles
    else
      var last := overrides[|overrides| - 1];
      var before := OverriddenStyles(styles, overrides[..|overrides| - 1]);
      if last.style.Some? then before[OverrideId(last) := last.style.value] else before - {OverrideId(last)}
  }

  /** The position of the last override addressing `id`, if any. */
  function LastOverride(overrides: seq<L.ExternalLayoutOverride>, id: Id): (r: Option<nat>)
    ensures r.Some? ==> r.value < |overrides| && OverrideId(overrides[r.value]) == id
    ensures r.Some? ==> forall j | r.value < j < |overrides| :: OverrideId(overrides[j]) != id
    ensures r.None? ==> forall j | 0 <= j < |overrides| :: OverrideId(overrides[j]) != id
  {
    if overrides == [] then None
    else if OverrideId(overrides[|overrides| - 1]) == id then Some(|overrides| - 1)
    else LastOverride(overrides[..|overrides| - 1], id)
  }

  /**
   * The last override for an id decides: its bounds are the id's external
   * bounds, and its style (or its absence) the id's external style. An id
   * no override addresses keeps what it had.
   */
  lemma {:induction false} LastOverrideWins(bounds: map<Id, G.Bounds>, styles: map<Id, G.Style>,
                                            overrides: seq<L.ExternalLayoutOverride>, id: Id)
    ensures LastOverride(overrides, id).None? ==>
      && (id in OverriddenBounds(bounds, overrides) <==> id in bounds)
      && (id in bounds ==> OverriddenBounds(bounds, overrides)[id] == bounds[id])
      && (id in OverriddenStyles(styles, overrides) <==> id in styles)
      && (id in styles ==> OverriddenStyles(styles, overrides)[id] == styles[id])
    ensures LastOverride(overrides, id).Some? ==>
      var o := overrides[LastOverride(overrides, id).value];
      && id in OverriddenBounds(bounds, overrides) && OverriddenBounds(bounds, overrides)[id] == o.bounds
      && (o.style.Some? ==> id in OverriddenStyles(styles, overrides) && OverriddenStyles(styles, overrides)[id] == o.style.value)
      && (o.style.None? ==> id !in OverriddenStyles(styles, overrides))
    decreases |overrides|
  {
    if overrides != [] {
      var init := overrides[..|overrides| - 1];
      if OverrideId(overrides[|overrides| - 1]) != id {
        LastOverrideWins(bounds, styles, init, id);
        assert LastOverride(overrides, id) == LastOverride(init, id);
        if LastOverride(init, id).Some? {
          assert overrides[LastOverride(init, id).value] == init[LastOverride(init, id).value];
        }
      }
    }
  }

  /**
   * `layout_bounds` over the two bound tables: an external override wins,
   * then the computed bounds, and an id with neither reads as zero bounds.
   */
  function ResolvedBounds(external: map<Id, G.Bounds>, computed: map<Id, G.Bounds>, id: Id): G.Bounds
  {
    if id in external then external[id] else if id in computed then computed[id] else G.ZeroBounds
  }

  /**
   * Copying the external bounds into the computed ones, as
   * `compute_layout` does last, changes no id's resolved bounds.
   */
  lemma ExternalMergeInvisible(external: map<Id, G.Bounds>, computed: map<Id, G.Bounds>, id: Id)
    ensures ResolvedBounds(external, computed + external, id) == ResolvedBounds(external, computed, id)
  {
  }

  /**
   * After a batch of overrides, an id's resolved bounds are those of the
   * last override addressing it; other ids resolve as before.
   */
  lemma OverridesResolve(external: map<Id, G.Bounds>, styles: map<Id, G.Style>, computed: map<Id, G.Bounds>,
                         overrides: seq<L.ExternalLayoutOverride>, id: Id)
    ensures LastOverride(overrides, id).Some? ==>
      ResolvedBounds(OverriddenBounds(external, overrides), computed, id) == overrides[LastOverride(overrides, id).value].bounds
    ensures LastOverride(overrides, id).None? ==>
      ResolvedBounds(OverriddenBounds(external, overrides), computed, id) == ResolvedBounds(external, computed, id)
  {
    LastOverrideWins(external, styles, overrides, id);
  }

  /** A fresh id and handle keep the measure tables in agreement. */
  lemma MeasuresAgreeFresh(nodes: map<Id, Handle>, owner: map<Handle, Id>, handles: map<Id, MeasureId>,
                           contexts: map<Handle, MeasureId>, callbacks: map<MeasureId, MeasureCallback>, id: Id, h: Handle)
    requires MeasuresAgree(nodes, owner, handles, contexts, callbacks)
    requires id !in nodes && h !in owner
    ensures MeasuresAgree(nodes[id := h], owner[h := id], handles, contexts, callbacks)
  {
  }

  /** Distinct ids have distinct handles. */
  lemma InverseInjective(nodes: map<Id, Handle>, owner: map<Handle, Id>, a: Id)
    requires Inverse(nodes, owner) && a in nodes
    ensures forall b | b in nodes && b != a :: nodes[b] != nodes[a]
  {
    forall b | b in nodes && b != a
      ensures nodes[b] != nodes[a]
    {
      assert owner[nodes[b]] == b;
    }
  }

  /** Setting one parent's list, mirrored by its handle's list, keeps the store mirroring the engine. */
  lemma MirrorSet(nodes: map<Id, Handle>, childrenMap: map<Id, seq<Id>>, storeChildren: map<Handle, seq<Handle>>,
                  parent: Id, kids: seq<Id>)
    requires Mirrored(nodes, childrenMap, storeChildren) && parent in nodes
    requires forall b | b in nodes && b != parent :: nodes[b] != nodes[parent]
    ensures Mirrored(nodes, childrenMap[parent := kids], storeChildren[nodes[parent] := LiveHandles(nodes, kids)])
  {
    var childrenMap', storeChildren' := childrenMap[parent := kids], storeChildren[nodes[parent] := LiveHandles(nodes, kids)];
    forall p | p in nodes
      ensures nodes[p] in storeChildren' && storeChildren'[nodes[p]] == LiveHandles(nodes, childrenMap'[p])
    {
      if p != parent {
        MirrorSetAt(nodes, childrenMap[p], storeChildren, nodes[parent], LiveHandles(nodes, kids), p);
      }
    }
  }

  /** One untouched entry of `MirrorSet`. */
  lemma MirrorSetAt(nodes: map<Id, Handle>, list: seq<Id>, storeChildren: map<Handle, seq<Handle>>,
                    hp: Handle, handles: seq<Handle>, p: Id)
    requires p in nodes && nodes[p] != hp
    requires nodes[p] in storeChildren && storeChildren[nodes[p]] == LiveHandles(nodes, list)
    ensures nodes[p] in storeChildren[hp := handles] && storeChildren[hp := handles][nodes[p]] == LiveHandles(nodes, list)
  {
  }

  /** The engine's bookkeeping, over the values of its fields. */
  ghost predicate Bookkeeping(nodes: map<Id, Handle>, nextId: nat, childrenMap: map<Id, seq<Id>>, handles: map<Id, MeasureId>,
                              functions: map<Id, L.LayoutMeasureFn>, owner: map<Handle, Id>, nextHandle: Handle)
  {
    && nextId >= 1
    && (forall id | id in nodes :: 0 < id < nextId)
    && ListsBelow(childrenMap, nextId)
    && childrenMap.Keys == nodes.Keys
    && handles.Keys == functions.Keys && handles.Keys <= nodes.Keys
    && Inverse(nodes, owner)
    && (forall h | h in owner :: NullHandle < h < nextHandle)
  }

  /** The engine's tables agree with the store's and the registry's, over their values. */
  ghost predicate Agreement(nodes: map<Id, Handle>, owner: map<Handle, Id>, childrenMap: map<Id, seq<Id>>,
                            handles: map<Id, MeasureId>, storeChildren: map<Handle, seq<Handle>>, storeRank: map<Handle, nat>,
                            contexts: map<Handle, MeasureId>, callbacks: map<MeasureId, MeasureCallback>)
  {
    && owner.Keys == storeChildren.Keys
    && Mirrored(nodes, childrenMap, storeChildren)
    && MeasuresAgree(nodes, owner, handles, contexts, callbacks)
    && (forall id | id in nodes :: nodes[id] in storeRank)
    && Graph.Ranked(childrenMap, ERank(nodes, storeRank))
  }

  /** A fresh id with a fresh leaf node keeps the engine's bookkeeping. */
  lemma BookkeepingFresh(nodes: map<Id, Handle>, nextId: nat, childrenMap: map<Id, seq<Id>>, handles: map<Id, MeasureId>,
                         functions: map<Id, L.LayoutMeasureFn>, owner: map<Handle, Id>, nextHandle: Handle)
    requires Bookkeeping(nodes, nextId, childrenMap, handles, functions, owner, nextHandle)
    requires nextHandle > NullHandle
    ensures nextId !in nodes && nextHandle !in owner
    ensures Bookkeeping(nodes[nextId := nextHandle], nextId + 1, childrenMap[nextId := []], handles, functions,
                        owner[nextHandle := nextId], nextHandle + 1)
  {
    InverseFresh(nodes, owner, nextId, nextHandle);
  }

  /** A fresh id with a fresh leaf node keeps the engine in agreement with the store. */
  lemma AgreementFresh(nodes: map<Id, Handle>, nextId: nat, childrenMap: map<Id, seq<Id>>, handles: map<Id, MeasureId>,
                       functions: map<Id, L.LayoutMeasureFn>, owner: map<Handle, Id>, nextHandle: Handle,
                       storeChildren: map<Handle, seq<Handle>>, storeRank: map<Handle, nat>,
                       contexts: map<Handle, MeasureId>, callbacks: map<MeasureId, MeasureCallback>,
                       storeRank': map<Handle, nat>)
    requires Bookkeeping(nodes, nextId, childrenMap, handles, functions, owner, nextHandle)
    requires Agreement(nodes, owner, childrenMap, handles, storeChildren, storeRank, contexts, callbacks)
    requires nextHandle != NullHandle && nextHandle !in storeChildren
    requires Graph.Ranked(storeChildren[nextHandle := []], storeRank')
    ensures Agreement(nodes[nextId := nextHandle], owner[nextHandle := nextId], childrenMap[nextId := []], handles,
                      storeChildren[nextHandle := []], storeRank', contexts, callbacks)
  {
    var id, h := nextId, nextHandle;
    UnownedHandle(nodes, owner, h);
    MirrorFresh(nodes, childrenMap, storeChildren, id, h);
    MeasuresAgreeFresh(nodes, owner, handles, contexts, callbacks, id, h);
    InverseFresh(nodes, owner, id, h);
    MirrorRanked(nodes[id := h], childrenMap[id := []], storeChildren[h := []], storeRank');
  }

  /** The handles of known ids are live when every owned handle is. */
  lemma LiveHandlesLive(nodes: map<Id, Handle>, owner: map<Handle, Id>, kids: seq<Id>, live: set<Handle>)
    requires Inverse(nodes, owner) && owner.Keys == live
    ensures forall x | x in LiveHandles(nodes, kids) :: x in live
  {
    forall x | x in LiveHandles(nodes, kids)
      ensures x in live
    {
      LiveHandlesMembers(nodes, kids, x);
    }
  }

  /** A new list of known children keeps the engine's bookkeeping. */
  lemma BookkeepingSet(nodes: map<Id, Handle>, nextId: nat, childrenMap: map<Id, seq<Id>>, handles: map<Id, MeasureId>,
                       functions: map<Id, L.LayoutMeasureFn>, owner: map<Handle, Id>, nextHandle: Handle,
                       parent: Id, kids: seq<Id>)
    requires Bookkeeping(nodes, nextId, childrenMap, handles, functions, owner, nextHandle)
    requires parent in nodes && forall k | k in kids :: k in nodes
    ensures Bookkeeping(nodes, nextId, childrenMap[parent := kids], handles, functions, owner, nextHandle)
  {
  }

  /** A new list, mirrored by the parent handle's list, keeps the engine in agreement with the store. */
  lemma AgreementSet(nodes: map<Id, Handle>, owner: map<Handle, Id>, childrenMap: map<Id, seq<Id>>,
                     handles: map<Id, MeasureId>, storeChildren: map<Handle, seq<Handle>>,
                     contexts: map<Handle, MeasureId>, callbacks: map<MeasureId, MeasureCallback>,
                     storeRank': map<Handle, nat>, parent: Id, kids: seq<Id>)
    requires Inverse(nodes, owner) && childrenMap.Keys == nodes.Keys && parent in nodes
    requires owner.Keys == storeChildren.Keys && Mirrored(nodes, childrenMap, storeChildren)
    requires MeasuresAgree(nodes, owner, handles, contexts, callbacks)
    requires Graph.Ranked(storeChildren[nodes[parent] := LiveHandles(nodes, kids)], storeRank')
    ensures Agreement(nodes, owner, childrenMap[parent := kids], handles,
                      storeChildren[nodes[parent] := LiveHandles(nodes, kids)], storeRank', contexts, callbacks)
  {
    InverseInjective(nodes, owner, parent);
    MirrorSet(nodes, childrenMap, storeChildren, parent, kids);
    MirrorRanked(nodes, childrenMap[parent := kids], storeChildren[nodes[parent] := LiveHandles(nodes, kids)], storeRank');
  }

  /** An id without a measure handle has no context on its node. */
  lemma MeasuresAgreeNone(nodes: map<Id, Handle>, owner: map<Handle, Id>, handles: map<Id, MeasureId>,
                          contexts: map<Handle, MeasureId>, callbacks: map<MeasureId, MeasureCallback>, id: Id)
    requires Inverse(nodes, owner) && MeasuresAgree(nodes, owner, handles, contexts, callbacks)
    requires id in nodes && id !in handles
    ensures nodes[id] !in contexts
  {
    var h := nodes[id];
    assert h in owner && owner[h] == id;
  }

  /**
   * Dropping a measured id's handle, its node's context and its callback
   * keeps the measure tables in agreement; the context held the handle's id.
   */
  lemma MeasuresAgreeClear(nodes: map<Id, Handle>, owner: map<Handle, Id>, handles: map<Id, MeasureId>,
                           contexts: map<Handle, MeasureId>, callbacks: map<MeasureId, MeasureCallback>, id: Id)
    requires Inverse(nodes, owner) && MeasuresAgree(nodes, owner, handles, contexts, callbacks)
    requires id in handles
    ensures nodes[id] in contexts && contexts[nodes[id]] == handles[id]
    ensures MeasuresAgree(nodes, owner, handles - {id}, contexts - {nodes[id]}, callbacks - {handles[id]})
  {
    forall k | k in handles && k != id
      ensures nodes[k] != nodes[id] && handles[k] != handles[id]
    {
      assert owner[nodes[k]] == k;
      assert callbacks[handles[k]] == MeasureCallback(k);
    }
  }

  /**
   * Installing a fresh measure id for an unmeasured id, as its node's
   * context and as the callback built for it, keeps the tables in agreement.
   */
  lemma MeasuresAgreeInstall(nodes: map<Id, Handle>, owner: map<Handle, Id>, handles: map<Id, MeasureId>,
                             contexts: map<Handle, MeasureId>, callbacks: map<MeasureId, MeasureCallback>, id: Id, m: MeasureId)
    requires Inverse(nodes, owner) && MeasuresAgree(nodes, owner, handles, contexts, callbacks)
    requires id in nodes && id !in handles && m !in callbacks
    ensures MeasuresAgree(nodes, owner, handles[id := m], contexts[nodes[id] := m], callbacks[m := MeasureCallback(id)])
  {
    forall k | k in handles
      ensures nodes[k] != nodes[id] && handles[k] != m
    {
      assert owner[nodes[k]] == k;
    }
  }

  // ----- removal -----

  /** Forgetting one id and its handle keeps the engine's bookkeeping. */
  lemma BookkeepingRemove(nodes: map<Id, Handle>, nextId: nat, childrenMap: map<Id, seq<Id>>, handles: map<Id, MeasureId>,
                          functions: map<Id, L.LayoutMeasureFn>, owner: map<Handle, Id>, nextHandle: Handle, id: Id)
    requires Bookkeeping(nodes, nextId, childrenMap, handles, functions, owner, nextHandle) && id in nodes
    ensures Bookkeeping(nodes - {id}, nextId, childrenMap - {id}, handles - {id}, functions - {id},
                        owner - {nodes[id]}, nextHandle)
  {
    var h := nodes[id];
    forall k | k in nodes - {id}
      ensures nodes[k] != h
    {
      assert owner[nodes[k]] == k;
    }
  }

  /**
   * A known child listed under a known id is another id, and its node is
   * reached in the store from the parent's node.
   */
  lemma ListedChildReached(nodes: map<Id, Handle>, owner: map<Handle, Id>, childrenMap: map<Id, seq<Id>>,
                           handles: map<Id, MeasureId>, storeChildren: map<Handle, seq<Handle>>, storeRank: map<Handle, nat>,
                           contexts: map<Handle, MeasureId>, callbacks: map<MeasureId, MeasureCallback>, id: Id, c: Id)
    requires Inverse(nodes, owner) && Graph.Ranked(storeChildren, storeRank)
    requires Agreement(nodes, owner, childrenMap, handles, storeChildren, storeRank, contexts, callbacks)
    requires id in nodes && c in childrenMap[id] && c in nodes
    ensures c != id && nodes[c] in Graph.Reach(storeChildren, storeRank, nodes[id])
  {
    var h, hc := nodes[id], nodes[c];
    LiveHandlesMembers(nodes, childrenMap[id], hc);
    var j :| 0 <= j < |storeChildren[h]| && storeChildren[h][j] == hc;
    assert hc in owner;
    Graph.RankedEdge(storeChildren, storeRank, h, j);
    Graph.ChildReach(storeChildren, storeRank, h, j);
  }

  /** Forgetting an id with its own handle drops exactly that handle from every list. */
  lemma {:induction false} LiveHandlesRemove(nodes: map<Id, Handle>, ids: seq<Id>, id: Id)
    requires id in nodes && forall k | k in nodes && k != id :: nodes[k] != nodes[id]
    ensures LiveHandles(nodes - {id}, ids) == Graph.Without(LiveHandles(nodes, ids), {nodes[id]})
    decreases |ids|
  {
    if ids != [] {
      var init, last := ids[..|ids| - 1], ids[|ids| - 1];
      LiveHandlesRemove(nodes, init, id);
      Graph.WithoutAppend(LiveHandles(nodes, init), if last in nodes then [nodes[last]] else [], {nodes[id]});
    }
  }

  /**
   * Forgetting an id, once its node has been freed on its own (its edges
   * pruned, its context released), keeps the engine in agreement with the
   * store.
   */
  lemma AgreementRemove(nodes: map<Id, Handle>, owner: map<Handle, Id>, childrenMap: map<Id, seq<Id>>,
                        handles: map<Id, MeasureId>, storeChildren: map<Handle, seq<Handle>>, storeRank: map<Handle, nat>,
                        contexts: map<Handle, MeasureId>, callbacks: map<MeasureId, MeasureCallback>, id: Id,
                        children': map<Handle, seq<Handle>>, rank': map<Handle, nat>)
    requires Inverse(nodes, owner) && childrenMap.Keys == nodes.Keys && id in nodes
    requires Agreement(nodes, owner, childrenMap, handles, storeChildren, storeRank, contexts, callbacks)
    requires children' == Graph.Prune(storeChildren, {nodes[id]}) && Graph.Ranked(children', rank')
    ensures Agreement(nodes - {id}, owner - {nodes[id]}, childrenMap - {id}, handles - {id}, children', rank',
                      YogaBridge.ContextsWithout(contexts, {nodes[id]}),
                      callbacks - YogaBridge.ContextIds(contexts, {nodes[id]}))
  {
    var h := nodes[id];
    var nodes', childrenMap' := nodes - {id}, childrenMap - {id};
    MirroredRemove(nodes, owner, childrenMap, storeChildren, id, children');
    MirrorRanked(nodes', childrenMap', children', rank');
    MeasuresAgreeRemove(nodes, owner, handles, contexts, callbacks, id);
  }

  /** Pruning a removed id's node from the store mirrors the engine's lists without that id. */
  lemma MirroredRemove(nodes: map<Id, Handle>, owner: map<Handle, Id>, childrenMap: map<Id, seq<Id>>,
                       storeChildren: map<Handle, seq<Handle>>, id: Id, children': map<Handle, seq<Handle>>)
    requires Inverse(nodes, owner) && childrenMap.Keys == nodes.Keys && id in nodes
    requires Mirrored(nodes, childrenMap, storeChildren)
    requires children' == Graph.Prune(storeChildren, {nodes[id]})
    ensures Mirrored(nodes - {id}, childrenMap - {id}, children')
  {
    var h := nodes[id];
    var nodes', childrenMap' := nodes - {id}, childrenMap - {id};
    forall k | k in nodes && k != id
      ensures nodes[k] != h
    {
      assert owner[nodes[k]] == k;
    }
    forall p | p in nodes'
      ensures p in childrenMap' && nodes'[p] in children' && children'[nodes'[p]] == LiveHandles(nodes', childrenMap'[p])
    {
      LiveHandlesRemove(nodes, childrenMap[p], id);
    }
  }

  /** Dropping a removed id's handle, context and callback keeps the measure tables in agreement. */
  lemma MeasuresAgreeRemove(nodes: map<Id, Handle>, owner: map<Handle, Id>, handles: map<Id, MeasureId>,
                            contexts: map<Handle, MeasureId>, callbacks: map<MeasureId, MeasureCallback>, id: Id)
    requires Inverse(nodes, owner) && MeasuresAgree(nodes, owner, handles, contexts, callbacks) && id in nodes
    ensures MeasuresAgree(nodes - {id}, owner - {nodes[id]}, handles - {id},
                          YogaBridge.ContextsWithout(contexts, {nodes[id]}),
                          callbacks - YogaBridge.ContextIds(contexts, {nodes[id]}))
  {
    var h := nodes[id];
    forall k | k in nodes && k != id
      ensures nodes[k] != h
    {
      assert owner[nodes[k]] == k;
    }
    if id in handles {
      MeasuresAgreeClear(nodes, owner, handles, contexts, callbacks, id);
      assert YogaBridge.ContextIds(contexts, {h}) == {handles[id]};
      assert YogaBridge.ContextsWithout(contexts, {h}) == contexts - {h};
      forall m | m in callbacks - {handles[id]}
        ensures callbacks[m].layoutId != id
      {
      }
    } else {
      MeasuresAgreeNone(nodes, owner, handles, contexts, callbacks, id);
      assert YogaBridge.ContextIds(contexts, {h}) == {};
      assert YogaBridge.ContextsWithout(contexts, {h}) == contexts;
    }
  }

  /** The ids that some child list names: the ids `clear` leaves to their parents. */
  function ListedIds(childrenMap: map<Id, seq<Id>>): (r: set<Id>)
    ensures forall p, k | p in childrenMap && k in childrenMap[p] :: k in r
    ensures forall k | k in r :: exists p :: p in childrenMap && k in childrenMap[p]
  {
    ListedIdsOf(childrenMap, childrenMap.Keys)
  }

  /** The ids named by the child lists of the ids in `parents`. */
  function ListedIdsOf(childrenMap: map<Id, seq<Id>>, parents: set<Id>): set<Id>
  {
    set p, k | p in parents && p in childrenMap && k in childrenMap[p] :: k
  }

  /** While the engine agrees with the store, the node of an id no list names is no node's child. */
  lemma RootUnlisted(nodes: map<Id, Handle>, owner: map<Handle, Id>, childrenMap: map<Id, seq<Id>>,
                     storeChildren: map<Handle, seq<Handle>>, r: Id)
    requires Inverse(nodes, owner) && owner.Keys == storeChildren.Keys && Mirrored(nodes, childrenMap, storeChildren)
    requires r in nodes && r !in ListedIds(childrenMap)
    ensures forall q, i | q in storeChildren && 0 <= i < |storeChildren[q]| :: storeChildren[q][i] != nodes[r]
  {
    forall q, i | q in storeChildren && 0 <= i < |storeChildren[q]|
      ensures storeChildren[q][i] != nodes[r]
    {
      var p := owner[q];
      if storeChildren[q][i] == nodes[r] {
        LiveHandlesMembers(nodes, childrenMap[p], nodes[r]);
        assert false;
      }
    }
  }

  /** While the engine agrees with the store, the node of a listed id is some node's child. */
  lemma ListedHasParent(nodes: map<Id, Handle>, owner: map<Handle, Id>, childrenMap: map<Id, seq<Id>>,
                        storeChildren: map<Handle, seq<Handle>>, x: Id)
    requires childrenMap.Keys == nodes.Keys && Mirrored(nodes, childrenMap, storeChildren)
    requires x in nodes && x in ListedIds(childrenMap)
    ensures exists q, i :: q in storeChildren && 0 <= i < |storeChildren[q]| && storeChildren[q][i] == nodes[x]
  {
    var p :| p in childrenMap && x in childrenMap[p];
    LiveHandlesMembers(nodes, childrenMap[p], nodes[x]);
    var q := nodes[p];
    var i :| 0 <= i < |storeChildren[q]| && storeChildren[q][i] == nodes[x];
  }

  /**
   * While the engine agrees with the store, releasing the contexts of
   * every live node drops every registered callback.
   */
  lemma AllCallbacksReleased(nodes: map<Id, Handle>, owner: map<Handle, Id>, handles: map<Id, MeasureId>,
                             contexts: map<Handle, MeasureId>, callbacks: map<MeasureId, MeasureCallback>, live: set<Handle>)
    requires MeasuresAgree(nodes, owner, handles, contexts, callbacks) && contexts.Keys <= live
    ensures callbacks - YogaBridge.ContextIds(contexts, live) == map[]
    ensures YogaBridge.ContextsWithout(contexts, live) == map[]
  {
    forall m | m in callbacks
      ensures m in YogaBridge.ContextIds(contexts, live)
    {
      var k := callbacks[m].layoutId;
      var n := nodes[k];
      assert n in contexts && n in live && contexts[n] == m;
    }
  }

  /** The measure ids of the handles of `ids`. */
  function HandlesOf(handles: map<Id, MeasureId>, ids: set<Id>): set<MeasureId>
  {
    set k | k in ids && k in handles :: handles[k]
  }

  /** Empty tables keep the books, and agree with an empty store. */
  lemma EmptyTables(nextHandle: Handle, rank: map<Handle, nat>)
    ensures Bookkeeping(map[], 1, map[], map[], map[], map[], nextHandle)
    ensures Agreement(map[], map[], map[], map[], map[], rank, map[], map[])
  {
  }

  /** Releasing the contexts of no node changes nothing. */
  lemma NothingReleased(contexts: map<Handle, MeasureId>, callbacks: map<MeasureId, MeasureCallback>)
    ensures YogaBridge.ContextsWithout(contexts, {}) == contexts
    ensures callbacks - YogaBridge.ContextIds(contexts, {}) == callbacks
  {
    assert YogaBridge.ContextIds(contexts, {}) == {};
  }

  /** Taking one more parent's list into account adds that list's ids. */
  lemma ListedIdsOfAdd(childrenMap: map<Id, seq<Id>>, parents: set<Id>, p: Id)
    requires p in childrenMap
    ensures ListedIdsOf(childrenMap, parents + {p}) == ListedIdsOf(childrenMap, parents) + set k | k in childrenMap[p]
  {
    forall k | k in childrenMap[p]
      ensures k in ListedIdsOf(childrenMap, parents + {p})
    {
    }
  }

  /**
   * One root freed during `clear`, while the engine agreed with the old
   * store `g0`: the survivors stay upward-closed and the pruning stays one
   * prune of `g0`, and no other root's node is in the freed subtree.
   */
  lemma RootFreeStep(nodes: map<Id, Handle>, owner: map<Handle, Id>, childrenMap: map<Id, seq<Id>>,
                     g0: map<Handle, seq<Handle>>, rank: map<Handle, nat>, cur: map<Handle, seq<Handle>>,
                     childIds: set<Id>, pending: set<Id>, id: Id)
    requires Inverse(nodes, owner) && owner.Keys == g0.Keys && Mirrored(nodes, childrenMap, g0)
    requires childIds == ListedIds(childrenMap) && pending <= nodes.Keys && id in pending && id !in childIds
    requires cur.Keys <= g0.Keys && cur == Graph.Prune(g0, g0.Keys - cur.Keys) && Graph.UpClosed(g0, cur.Keys)
    requires Graph.Ranked(cur, rank)
    requires forall r | r in pending && r !in childIds :: nodes[r] in cur
    ensures nodes[id] in cur
    ensures var reach := Graph.Reach(cur, rank, nodes[id]);
      && g0.Keys - (cur.Keys - reach) == (g0.Keys - cur.Keys) + reach
      && Graph.Prune(cur, reach) == Graph.Prune(g0, (g0.Keys - cur.Keys) + reach)
      && Graph.UpClosed(g0, cur.Keys - reach)
      && forall r | r in pending && r !in childIds && r != id :: nodes[r] in cur && nodes[r] !in reach
  {
    var gone := g0.Keys - cur.Keys;
    var h := nodes[id];
    var reach := Graph.Reach(cur, rank, h);
    Graph.PruneReach(g0, rank, gone, h);
    assert g0.Keys - (gone + reach) == cur.Keys - reach;
    forall r | r in pending && r !in childIds && r != id
      ensures nodes[r] !in reach
    {
      InverseInjective(nodes, owner, r);
      RootUnlisted(nodes, owner, childrenMap, g0, r);
      Graph.UnlistedUnreached(g0, rank, gone, nodes[r], h);
    }
  }

  /**
   * Once `clear` has freed the node of every root, no node the engine
   * agreed on is left: every survivor would be the child of a survivor.
   */
  lemma AllRootsFreed(nodes: map<Id, Handle>, owner: map<Handle, Id>, childrenMap: map<Id, seq<Id>>,
                      g0: map<Handle, seq<Handle>>, rank: map<Handle, nat>, childIds: set<Id>, live: set<Handle>)
    requires Inverse(nodes, owner) && owner.Keys == g0.Keys && Mirrored(nodes, childrenMap, g0)
    requires childrenMap.Keys == nodes.Keys && Graph.Ranked(g0, rank) && childIds == ListedIds(childrenMap)
    requires live <= g0.Keys && Graph.UpClosed(g0, live)
    requires forall r | r in nodes && r !in childIds :: nodes[r] !in live
    ensures live == {}
  {
    forall h | h in live
      ensures exists q, i :: q in g0 && 0 <= i < |g0[q]| && g0[q][i] == h
    {
      ListedHasParent(nodes, owner, childrenMap, g0, owner[h]);
    }
    Graph.AllChildrenGone(g0, rank, live);
  }

  /** Releasing the contexts of `gone` and then of `more` releases those of both at once. */
  lemma ContextsReleasedTwice(contexts: map<Handle, MeasureId>, callbacks: map<MeasureId, MeasureCallback>,
                              gone: set<Handle>, more: set<Handle>)
    ensures YogaBridge.ContextsWithout(YogaBridge.ContextsWithout(contexts, gone), more)
         == YogaBridge.ContextsWithout(contexts, gone + more)
    ensures callbacks - YogaBridge.ContextIds(contexts, gone)
                      - YogaBridge.ContextIds(YogaBridge.ContextsWithout(contexts, gone), more)
         == callbacks - YogaBridge.ContextIds(contexts, gone + more)
  {
    var rest := YogaBridge.ContextsWithout(contexts, gone);
    assert YogaBridge.ContextIds(contexts, gone) + YogaBridge.ContextIds(rest, more)
        == YogaBridge.ContextIds(contexts, gone + more);
  }

  /**
   * The layout engine. `nodes` maps layout ids to node handles and
   * `owner` (ghost) is its inverse; the store and its registry are the
   * Yoga node memory and the measure-callback table the engine drives.
   */
  class YogaLayoutEngine {
    var nodes: map<Id, Handle>
    var nextId: nat
    var computedBounds: map<Id, G.Bounds>
    var childrenMap: map<Id, seq<Id>>
    var measureHandles: map<Id, MeasureId>
    var measureFunctions: map<Id, L.LayoutMeasureFn>
    var externalBounds: map<Id, G.Bounds>
    var externalStyles: map<Id, G.Style>
    var measureContext: Option<L.ScaleFactor>
    ghost var owner: map<Handle, Id>
    const store: YogaBridge.NodeStore

    /**
     * The engine's own bookkeeping: ids are positive and below the
     * counter, every listed child id was handed out, each id has its own
     * handle, and a measure handle exists iff a measure function does.
     */
    ghost predicate Books()
      reads this`nodes, this`nextId, this`childrenMap, this`measureHandles, this`measureFunctions,
            this`owner, store`nextHandle
    {
      Bookkeeping(nodes, nextId, childrenMap, measureHandles, measureFunctions, owner, store.nextHandle)
    }

    ghost predicate Valid()
      reads this`nodes, this`nextId, this`childrenMap, this`measureHandles, this`measureFunctions,
            this`owner, store`children, store`rank, store`styles, store`layouts, store`contexts, store`dirty, store`measured,
            store`nextHandle, store`freed, store.registry
    {
      store.Valid() && Books()
    }

    /**
     * The engine and the Yoga side agree: every live node belongs to a
     * layout id, the store's child lists mirror `childrenMap`, the measure
     * tables match the contexts and the registry, and (hence) the engine's
     * graph is acyclic.
     */
    ghost predicate Agrees()
      reads this`nodes, this`childrenMap, this`measureHandles, this`owner,
            store`children, store`rank, store`contexts, store.registry`callbacks
    {
      Agreement(nodes, owner, childrenMap, measureHandles, store.children, store.rank, store.contexts, store.registry.callbacks)
    }

    ghost predicate Sound()
      reads this`nodes, this`nextId, this`childrenMap, this`measureHandles, this`measureFunctions,
            this`owner, store`children, store`rank, store`styles, store`layouts, store`contexts, store`dirty, store`measured,
            store`nextHandle, store`freed, store.registry
    {
      Valid() && Agrees()
    }

    /** `YogaLayoutEngine::new`, over an empty node store whose registry holds no callback. */
    constructor(store: YogaBridge.NodeStore)
      requires store.Valid() && store.children == map[] && store.registry.callbacks == map[]
      ensures Sound() && this.store == store
      ensures nodes == map[] && nextId == 1 && computedBounds == map[] && childrenMap == map[]
      ensures measureHandles == map[] && measureFunctions == map[] && externalBounds == map[] && externalStyles == map[]
      ensures measureContext.None?
    {
      this.store := store;
      nodes := map[];
      nextId := 1;
      computedBounds := map[];
      childrenMap := map[];
      measureHandles := map[];
      measureFunctions := map[];
      externalBounds := map[];
      externalStyles := map[];
      measureContext := None;
      owner := map[];
      new;
      assert store.contexts == map[] by {
        assert store.Tables();
      }
    }

    /** `next_layout_id`: hand out the counter and advance it. */
    method NextLayoutId() returns (id: Id)
      modifies this`nextId
      ensures id == old(nextId) && nextId == id + 1
    {
      id := nextId;
      nextId := nextId + 1;
    }

    /** `create_node` followed by `set_style`: a fresh leaf holding the style applied to Yoga's default. */
    method CreateStyledNode(yogaStyle: YogaStyle) returns (h: Handle)
      requires store.Valid()
      modifies store`nextHandle, store`children, store`styles, store`layouts, store`rank, store`faults
      ensures store.Valid()
      ensures h == old(store.nextHandle) && h != NullHandle && h !in old(store.children)
      ensures store.nextHandle == h + 1 && store.children == old(store.children)[h := []]
      ensures store.faults == old(store.faults)
    {
      h := store.CreateNode();
      store.SetStyle(h, yogaStyle);
    }

    /**
     * The bookkeeping half of `allocate_node`: the next id is recorded with
     * the fresh leaf `h` and an empty child list. `wasSound` says the
     * engine agreed with the store as it was before `h` was created.
     */
    method RecordNode(h: Handle, ghost wasSound: bool, ghost children0: map<Handle, seq<Handle>>, ghost rank0: map<Handle, nat>)
      returns (id: Id)
      requires store.Valid() && h > NullHandle && store.nextHandle == h + 1 && h !in children0
      requires Bookkeeping(nodes, nextId, childrenMap, measureHandles, measureFunctions, owner, h)
      requires store.children == children0[h := []]
      requires wasSound ==> Agreement(nodes, owner, childrenMap, measureHandles, children0, rank0,
                                      store.contexts, store.registry.callbacks)
      modifies this`nextId, this`nodes, this`owner, this`childrenMap
      ensures Valid()
      ensures id == old(nextId) && nextId == id + 1 && id !in old(nodes)
      ensures nodes == old(nodes)[id := h] && childrenMap == old(childrenMap)[id := []]
      ensures wasSound ==> Agrees()
    {
      BookkeepingFresh(nodes, nextId, childrenMap, measureHandles, measureFunctions, owner, h);
      if wasSound {
        AgreementFresh(nodes, nextId, childrenMap, measureHandles, measureFunctions, owner, h,
                       children0, rank0, store.contexts, store.registry.callbacks, store.rank);
      }
      id := NextLayoutId();
      nodes := nodes[id := h];
      owner := owner[h := id];
      if id !in childrenMap {
        childrenMap := childrenMap[id := []];
      }
      store.ValidKept();
    }

    /**
     * `allocate_node`: convert the style, create a node and style it, then
     * record the fresh id with its handle and an empty child list.
     */
    method AllocateNode(style: G.Style, remSize: real, scale: L.ScaleFactor) returns (id: Id, h: Handle)
      requires Valid()
      modifies this`nextId, this`nodes, this`owner, this`childrenMap,
               store`nextHandle, store`children, store`styles, store`layouts, store`rank, store`faults
      ensures Valid()
      ensures id == old(nextId) && nextId == id + 1 && id !in old(nodes)
      ensures nodes == old(nodes)[id := h] && childrenMap == old(childrenMap)[id := []]
      ensures h == old(store.nextHandle) && h !in old(store.children)
      ensures store.children == old(store.children)[h := []]
      ensures store.faults == old(store.faults)
      ensures old(Sound()) ==> Sound()
    {
      ghost var wasSound := Sound();
      var yogaStyle := StyleConversion.ConvertStyleToYoga(style, remSize, scale);
      h := CreateStyledNode(yogaStyle);
      id := RecordNode(h, wasSound, old(store.children), old(store.rank));
    }

    /**
     * The store-side condition for a new child list: the listed nodes
     * under `parent` would not close a cycle in Yoga's tree.
     */
    ghost predicate KeepsTree(parent: Id, kids: seq<Id>)
      requires Valid()
      reads this`nodes, this`nextId, this`childrenMap, this`measureHandles, this`measureFunctions,
            this`owner, store`children, store`rank, store`styles, store`layouts, store`contexts, store`dirty, store`measured,
            store`nextHandle, store`freed, store.registry
    {
      parent in nodes && nodes[parent] in store.children ==> !store.ClosesCycle(nodes[parent], LiveHandles(nodes, kids))
    }

    /** Collects the handles of `kids`, or reports that one of them is unknown. */
    method ChildHandles(kids: seq<Id>) returns (handles: Option<seq<Handle>>)
      ensures handles.Some? <==> forall k | k in kids :: k in nodes
      ensures handles.Some? ==> handles.value == LiveHandles(nodes, kids)
    {
      var collected := [];
      var i := 0;
      while i < |kids|
        invariant 0 <= i <= |kids|
        invariant forall j | 0 <= j < i :: kids[j] in nodes
        invariant collected == LiveHandles(nodes, kids[..i])
      {
        if kids[i] !in nodes {
          var unknown := kids[i];
          assert unknown in kids;
          return None;
        }
        LiveHandlesStep(nodes, kids, i);
        collected := collected + [nodes[kids[i]]];
        i := i + 1;
      }
      assert kids[..i] == kids;
      handles := Some(collected);
    }

    /**
     * The recording half of `apply_children`, once every id is known: the
     * handles go to the store and `kids` becomes the parent's list.
     */
    method RecordChildren(parent: Id, kids: seq<Id>, handles: seq<Handle>, ghost wasSound: bool)
      requires Valid() && parent in nodes && (forall k | k in kids :: k in nodes) && handles == LiveHandles(nodes, kids)
      requires wasSound ==> Agrees() && KeepsTree(parent, kids)
      modifies this`childrenMap, store`children, store`rank, store`faults
      ensures Valid()
      ensures childrenMap == old(childrenMap)[parent := kids]
      ensures wasSound ==> Agrees() && store.faults == old(store.faults)
      ensures wasSound ==> store.children == old(store.children)[nodes[parent] := handles]
    {
      ghost var children0 := store.children;
      if wasSound {
        LiveHandlesLive(nodes, owner, kids, store.children.Keys);
      }
      store.SetChildren(nodes[parent], handles);
      BookkeepingSet(nodes, nextId, childrenMap, measureHandles, measureFunctions, owner, store.nextHandle, parent, kids);
      if wasSound {
        AgreementSet(nodes, owner, childrenMap, measureHandles, children0, store.contexts, store.registry.callbacks,
                     store.rank, parent, kids);
      }
      childrenMap := childrenMap[parent := kids];
    }

    /**
     * `apply_children`: false, changing nothing, when the parent or any
     * child is unknown; otherwise the handles go to the store and the
     * given list is recorded as the parent's children.
     */
    method ApplyChildren(parent: Id, kids: seq<Id>) returns (ok: bool)
      requires Valid()
      modifies this`childrenMap, store`children, store`rank, store`faults
      ensures Valid()
      ensures ok <==> parent in nodes && forall k | k in kids :: k in nodes
      ensures ok ==> childrenMap == old(childrenMap)[parent := kids]
      ensures !ok ==> childrenMap == old(childrenMap) && store.children == old(store.children) && store.faults == old(store.faults)
      ensures ok && old(Sound()) && old(KeepsTree(parent, kids)) ==>
        store.children == old(store.children)[nodes[parent] := LiveHandles(nodes, kids)] && store.faults == old(store.faults)
      ensures old(Sound()) && old(KeepsTree(parent, kids)) ==> Sound()
    {
      ghost var wasSound := Sound() && KeepsTree(parent, kids);
      if parent !in nodes {
        return false;
      }
      var handles := ChildHandles(kids);
      if handles.None? {
        return false;
      }
      RecordChildren(parent, kids, handles.value, wasSound);
      ok := true;
    }

    /**
     * A fresh leaf that no child list names is reached from none of the
     * listed children, so giving it any list without itself keeps Yoga's
     * tree.
     */
    lemma FreshLeafKeepsTree(id: Id, kids: seq<Id>, children0: map<Handle, seq<Handle>>)
      requires Valid() && id in nodes && id !in kids
      requires Graph.Closed(children0) && nodes[id] !in children0 && store.children == children0[nodes[id] := []]
      ensures KeepsTree(id, kids)
    {
      var h := nodes[id];
      forall p, i | p in store.children && 0 <= i < |store.children[p]|
        ensures store.children[p][i] != h
      {
        assert p != h && children0[p][i] in children0;
      }
      forall k | k in LiveHandles(nodes, kids) && k in store.children
        ensures h !in Graph.Reach(store.children, store.rank, k)
      {
        LiveHandlesMembers(nodes, kids, k);
        var kid :| kid in kids && kid in nodes && nodes[kid] == k;
        assert owner[k] == kid && owner[h] == id;
        Graph.OrphanUnreached(store.children, store.rank, h, k);
      }
    }

    /**
     * `request_layout`: a fresh node with the converted style, then
     * `apply_children` with the given ids, which leaves the fresh node
     * without children when one of them is unknown.
     */
    method RequestLayout(style: G.Style, remSize: real, scale: L.ScaleFactor, kids: seq<Id>) returns (id: Id)
      requires Valid()
      modifies this`nextId, this`nodes, this`owner, this`childrenMap,
               store`nextHandle, store`children, store`styles, store`layouts, store`rank, store`faults
      ensures Valid()
      ensures id == old(nextId) && nextId == id + 1 && id !in old(nodes)
      ensures nodes == old(nodes)[id := old(store.nextHandle)]
      ensures (forall k | k in kids :: k in nodes) ==> childrenMap == old(childrenMap)[id := kids]
      ensures !(forall k | k in kids :: k in nodes) ==> childrenMap == old(childrenMap)[id := []]
      ensures old(Sound()) && id !in kids ==>
        && Sound() && store.faults == old(store.faults)
        && store.children == old(store.children)[nodes[id] := LiveHandles(nodes, childrenMap[id])]
    {
      ghost var wasSound := Sound();
      ghost var children0, childrenMap0 := store.children, childrenMap;
      var h;
      id, h := AllocateNode(style, remSize, scale);
      if wasSound && id !in kids {
        FreshLeafKeepsTree(id, kids, children0);
      }
      var applied := ApplyChildren(id, kids);
      if applied {
        WriteTwice(childrenMap0, id, [], kids);
        if wasSound && id !in kids {
          WriteTwice(children0, h, [], LiveHandles(nodes, kids));
        }
      }
    }

    /**
     * `request_measured_layout`: a fresh childless node with the converted
     * style, whose size Yoga asks of `measure` through a fresh measure
     * handle.
     */
    method RequestMeasuredLayout(style: G.Style, remSize: real, scale: L.ScaleFactor, measure: L.LayoutMeasureFn)
      returns (id: Id)
      requires Valid()
      modifies this`nextId, this`nodes, this`owner, this`childrenMap, this`measureHandles, this`measureFunctions,
               store`nextHandle, store`children, store`styles, store`layouts, store`rank, store`faults,
               store`contexts, store`measured, store`dirty, store.registry
      ensures Valid()
      ensures id == old(nextId) && nextId == id + 1 && id !in old(nodes)
      ensures nodes == old(nodes)[id := old(store.nextHandle)] && childrenMap == old(childrenMap)[id := []]
      ensures measureFunctions == old(measureFunctions)[id := measure]
      ensures measureHandles == old(measureHandles)[id := old(store.registry.nextMeasureId)]
      ensures old(Sound()) ==>
        && Sound() && store.faults == old(store.faults)
        && store.children == old(store.children)[nodes[id] := []]
    {
      id := RequestLayout(style, remSize, scale, []);
      var attached := SetNodeMeasure(id, Some(measure));
    }

    /**
     * `create_external_node`: a fresh node with the converted style and no
     * children, whose id is handed out for another engine's bounds.
     */
    method CreateExternalNode(style: G.Style, remSize: real, scale: L.ScaleFactor) returns (id: Id)
      requires Valid()
      modifies this`nextId, this`nodes, this`owner, this`childrenMap,
               store`nextHandle, store`children, store`styles, store`layouts, store`rank, store`faults
      ensures Valid()
      ensures id == old(nextId) && nextId == id + 1 && id !in old(nodes)
      ensures nodes == old(nodes)[id := old(store.nextHandle)] && childrenMap == old(childrenMap)[id := []]
      ensures store.children == old(store.children)[nodes[id] := []] && store.faults == old(store.faults)
      ensures old(Sound()) ==> Sound()
    {
      var h;
      id, h := AllocateNode(style, remSize, scale);
    }

    /** A known id's node is live while the engine agrees with the store. */
    lemma KnownIsLive(id: Id)
      requires Sound() && id in nodes
      ensures nodes[id] in store.children
    {
    }

    /** `set_style` on a known id's node, keeping the engine in agreement with the store. */
    method StyleNode(id: Id, yogaStyle: YogaStyle, ghost wasSound: bool)
      requires Valid() && id in nodes && (wasSound ==> Agrees())
      modifies store`styles, store`faults
      ensures Valid()
      ensures wasSound ==> Agrees()
      ensures wasSound ==>
        && store.styles == old(store.styles)[nodes[id] := YogaBridge.ApplyStyle(old(store.styles)[nodes[id]], yogaStyle)]
        && store.faults == old(store.faults)
    {
      if wasSound {
        KnownIsLive(id);
      }
      store.SetStyle(nodes[id], yogaStyle);
    }

    /** `mark_dirty` on a known id's node, keeping the engine in agreement with the store. */
    method DirtyNode(id: Id, ghost wasSound: bool)
      requires Valid() && id in nodes && (wasSound ==> Agrees())
      modifies store`dirty, store`faults
      ensures Valid()
      ensures wasSound ==> Agrees()
      ensures wasSound ==> store.dirty == old(store.dirty) + {nodes[id]} && store.faults == old(store.faults)
    {
      if wasSound {
        KnownIsLive(id);
      }
      store.MarkDirty(nodes[id]);
    }

    /**
     * `set_node_style`: false for an unknown id; otherwise the converted
     * style is applied to the node and the node is marked dirty.
     */
    method SetNodeStyle(id: Id, style: G.Style, remSize: real, scale: L.ScaleFactor) returns (ok: bool)
      requires Valid()
      modifies store`styles, store`dirty, store`faults
      ensures Valid()
      ensures ok <==> id in nodes
      ensures !ok ==> store.styles == old(store.styles) && store.dirty == old(store.dirty) && store.faults == old(store.faults)
      ensures ok && old(Sound()) ==>
        && store.styles == old(store.styles)[nodes[id] := YogaBridge.ApplyStyle(old(store.styles)[nodes[id]],
                                                             StyleConversion.ConvertStyleToYoga(style, remSize, scale))]
        && store.dirty == old(store.dirty) + {nodes[id]}
        && store.faults == old(store.faults)
      ensures old(Sound()) ==> Sound()
    {
      if id !in nodes {
        return false;
      }
      ghost var wasSound := Sound();
      var yogaStyle := StyleConversion.ConvertStyleToYoga(style, remSize, scale);
      StyleNode(id, yogaStyle, wasSound);
      DirtyNode(id, wasSound);
      ok := true;
    }

    /**
     * `set_node_children`: `apply_children`, and on success the parent is
     * marked dirty.
     */
    method SetNodeChildren(parent: Id, kids: seq<Id>) returns (ok: bool)
      requires Valid()
      modifies this`childrenMap, store`children, store`rank, store`dirty, store`faults
      ensures Valid()
      ensures ok <==> parent in nodes && forall k | k in kids :: k in nodes
      ensures ok ==> childrenMap == old(childrenMap)[parent := kids]
      ensures !ok ==> childrenMap == old(childrenMap) && store.children == old(store.children) && store.dirty == old(store.dirty)
      ensures ok && old(Sound()) && old(KeepsTree(parent, kids)) ==>
        && store.children == old(store.children)[nodes[parent] := LiveHandles(nodes, kids)]
        && store.dirty == old(store.dirty) + {nodes[parent]}
        && store.faults == old(store.faults)
      ensures old(Sound()) && old(KeepsTree(parent, kids)) ==> Sound()
    {
      ghost var wasSound := Sound() && KeepsTree(parent, kids);
      ok := ApplyChildren(parent, kids);
      if ok {
        DirtyNode(parent, wasSound);
      }
    }

    /**
     * The state between the two drops of a measure id `m`: the registry
     * has forgotten `m`, the id's node still holds it as its context, and
     * apart from that context the engine agrees with the store.
     */
    ghost predicate Pending(id: Id, m: MeasureId)
      reads this`nodes, this`childrenMap, this`measureHandles, this`owner,
            store`children, store`rank, store`contexts, store.registry`callbacks
    {
      && id in nodes && nodes[id] in store.children
      && nodes[id] in store.contexts && store.contexts[nodes[id]] == m && m !in store.registry.callbacks
      && Agreement(nodes, owner, childrenMap, measureHandles, store.children, store.rank, store.contexts - {nodes[id]},
                   store.registry.callbacks)
    }

    /**
     * Dropping the id's measure handle: both tables lose the id and the
     * registry is told to forget the handle's measure id.
     */
    method DropHandle(id: Id, ghost wasSound: bool)
      requires Valid() && id in measureHandles && (wasSound ==> Agrees())
      modifies this`measureHandles, this`measureFunctions, store.registry
      ensures Valid()
      ensures measureHandles == old(measureHandles) - {id} && measureFunctions == old(measureFunctions) - {id}
      ensures store.registry.nextMeasureId == old(store.registry.nextMeasureId)
      ensures store.registry.callbacks == old(store.registry.callbacks) - {old(measureHandles)[id]}
      ensures store.registry.drops == old(store.registry.drops) + [old(measureHandles)[id]]
      ensures wasSound ==> Pending(id, old(measureHandles)[id])
    {
      var m := measureHandles[id];
      if wasSound {
        KnownIsLive(id);
        MeasuresAgreeClear(nodes, owner, measureHandles, store.contexts, store.registry.callbacks, id);
      }
      measureHandles := measureHandles - {id};
      measureFunctions := measureFunctions - {id};
      store.registry.DropMeasure(m);
    }

    /**
     * `clear_measure` on the node of an id without a measure handle. From
     * the pending state its context `m` is dropped a second time, which the
     * registry logs and otherwise ignores, and the engine agrees again.
     */
    method ClearContext(id: Id, ghost m: MeasureId, ghost pending: bool)
      requires Valid() && id in nodes && id !in measureHandles
      requires pending ==> Pending(id, m)
      modifies store`contexts, store`measured, store`faults, store.registry
      ensures Valid()
      ensures store.registry.nextMeasureId == old(store.registry.nextMeasureId)
      ensures pending ==> Sound() && nodes[id] !in store.contexts && store.faults == old(store.faults)
      ensures pending ==>
        store.registry.callbacks == old(store.registry.callbacks) && store.registry.drops == old(store.registry.drops) + [m]
    {
      ghost var callbacks0 := store.registry.callbacks;
      store.ClearMeasure(nodes[id]);
      if pending {
        assert callbacks0 - {m} == callbacks0;
      }
    }

    /**
     * The first half of `set_node_measure`: the id's measure handle (if
     * any) is removed and dropped, which notifies the registry, and the
     * node's measure is cleared, which notifies it again with the same
     * id; then the measure function is removed.
     */
    method ReleaseMeasure(id: Id, ghost wasSound: bool)
      requires Valid() && id in nodes
      requires wasSound ==> Agrees()
      modifies this`measureHandles, this`measureFunctions, store`contexts, store`measured, store`faults, store.registry
      ensures Valid()
      ensures measureHandles == old(measureHandles) - {id} && measureFunctions == old(measureFunctions) - {id}
      ensures store.registry.nextMeasureId == old(store.registry.nextMeasureId)
      ensures wasSound ==> Agrees() && nodes[id] !in store.contexts && store.faults == old(store.faults)
      ensures wasSound && id in old(measureHandles) ==>
        var m := old(measureHandles)[id];
        && store.registry.drops == old(store.registry.drops) + [m, m]
        && store.registry.callbacks == old(store.registry.callbacks) - {m}
      ensures id !in old(measureHandles) ==>
        store.registry.drops == old(store.registry.drops) && store.registry.callbacks == old(store.registry.callbacks)
    {
      if id in measureHandles {
        ghost var m := measureHandles[id];
        DropHandle(id, wasSound);
        ClearContext(id, m, wasSound);
      } else {
        DropFunction(id, wasSound);
      }
    }

    /** The second half of `set_node_measure` on an id without a measure handle: only its function is removed. */
    method DropFunction(id: Id, ghost wasSound: bool)
      requires Valid() && id in nodes && id !in measureHandles
      requires wasSound ==> Agrees()
      modifies this`measureFunctions
      ensures Valid()
      ensures measureFunctions == old(measureFunctions) - {id}
      ensures wasSound ==> Agrees() && nodes[id] !in store.contexts
    {
      if wasSound {
        MeasuresAgreeNone(nodes, owner, measureHandles, store.contexts, store.registry.callbacks, id);
      }
      measureFunctions := measureFunctions - {id};
    }

    /**
     * `set_measure` with the callback built for `id`, on the node of an id
     * without a measure: the fresh measure id `m` becomes the node's
     * context and the callback's registry entry. The engine agrees with
     * the store once `m` is recorded as the id's handle.
     */
    method AttachCallback(id: Id, ghost wasSound: bool) returns (m: MeasureId)
      requires Valid() && id in nodes && id !in measureHandles
      requires wasSound ==> Agrees() && nodes[id] !in store.contexts
      modifies store`contexts, store`measured, store`faults, store.registry
      ensures Valid()
      ensures m == old(store.registry.nextMeasureId) && store.registry.nextMeasureId == m + 1
      ensures wasSound ==>
        && Agreement(nodes, owner, childrenMap, measureHandles[id := m], store.children, store.rank, store.contexts,
                     store.registry.callbacks)
        && store.registry.callbacks == old(store.registry.callbacks)[m := MeasureCallback(id)]
        && store.registry.drops == old(store.registry.drops)
        && store.faults == old(store.faults)
    {
      if wasSound {
        KnownIsLive(id);
        MeasuresAgreeInstall(nodes, owner, measureHandles, store.contexts, store.registry.callbacks, id,
                             store.registry.nextMeasureId);
      }
      m := YogaFfi.SetMeasure(store, nodes[id], MeasureCallback(id));
    }

    /**
     * The second half of `set_node_measure` when a measure is given: the
     * function is recorded, a callback for the id is registered and
     * installed on the node, and its handle is kept.
     */
    method InstallMeasure(id: Id, f: L.LayoutMeasureFn, ghost wasSound: bool)
      requires Valid() && id in nodes && id !in measureHandles
      requires wasSound ==> Agrees() && nodes[id] !in store.contexts
      modifies this`measureHandles, this`measureFunctions, store`contexts, store`measured, store`faults, store.registry
      ensures Valid()
      ensures measureFunctions == old(measureFunctions)[id := f]
      ensures measureHandles == old(measureHandles)[id := old(store.registry.nextMeasureId)]
      ensures store.registry.nextMeasureId == old(store.registry.nextMeasureId) + 1
      ensures wasSound ==> Agrees() && store.faults == old(store.faults) && store.registry.drops == old(store.registry.drops)
      ensures wasSound ==> store.registry.callbacks == old(store.registry.callbacks)[measureHandles[id] := MeasureCallback(id)]
    {
      var m := AttachCallback(id, wasSound);
      measureFunctions := measureFunctions[id := f];
      measureHandles := measureHandles[id := m];
    }

    /** Both halves of `set_node_measure` on a known id. */
    method ReplaceMeasure(id: Id, measure: Option<L.LayoutMeasureFn>, ghost wasSound: bool)
      requires Valid() && id in nodes && (wasSound ==> Agrees())
      modifies this`measureHandles, this`measureFunctions, store`contexts, store`measured, store`faults, store.registry
      ensures Valid()
      ensures measure.None? ==> measureHandles == old(measureHandles) - {id} && measureFunctions == old(measureFunctions) - {id}
      ensures measure.Some? ==>
        && measureFunctions == old(measureFunctions)[id := measure.value]
        && measureHandles == old(measureHandles)[id := old(store.registry.nextMeasureId)]
      ensures wasSound ==> Agrees() && store.faults == old(store.faults)
      ensures wasSound && id in old(measureHandles) ==>
        var m := old(measureHandles)[id];
        store.registry.drops == old(store.registry.drops) + [m, m]
      ensures wasSound && id !in old(measureHandles) ==> store.registry.drops == old(store.registry.drops)
    {
      ghost var functions0, handles0 := measureFunctions, measureHandles;
      ReleaseMeasure(id, wasSound);
      if measure.Some? {
        InstallMeasure(id, measure.value, wasSound);
        RemoveThenWrite(functions0, id, measure.value);
        RemoveThenWrite(handles0, id, old(store.registry.nextMeasureId));
      }
    }

    /**
     * `set_node_measure`: false for an unknown id. Otherwise any previous
     * handle and function are removed (the registry is told twice about the
     * dropped id), both are installed again iff a measure is given, and
     * the node is marked dirty. The measure handles and functions always
     * have the same ids.
     */
    method SetNodeMeasure(id: Id, measure: Option<L.LayoutMeasureFn>) returns (ok: bool)
      requires Valid()
      modifies this`measureHandles, this`measureFunctions, store`contexts, store`measured, store`dirty, store`faults,
               store.registry
      ensures Valid()
      ensures measureHandles.Keys == measureFunctions.Keys
      ensures ok <==> id in nodes
      ensures !ok ==> measureHandles == old(measureHandles) && measureFunctions == old(measureFunctions)
      ensures ok && measure.None? ==> measureHandles == old(measureHandles) - {id} && measureFunctions == old(measureFunctions) - {id}
      ensures ok && measure.Some? ==>
        && measureFunctions == old(measureFunctions)[id := measure.value]
        && measureHandles == old(measureHandles)[id := old(store.registry.nextMeasureId)]
      ensures old(Sound()) ==> Sound() && store.faults == old(store.faults)
      ensures ok && old(Sound()) && id in old(measureHandles) ==>
        var m := old(measureHandles)[id];
        store.registry.drops == old(store.registry.drops) + [m, m]
      ensures old(Sound()) && !(ok && id in old(measureHandles)) ==> store.registry.drops == old(store.registry.drops)
    {
      if id !in nodes {
        return false;
      }
      ghost var wasSound := Sound();
      ReplaceMeasure(id, measure, wasSound);
      DirtyNode(id, wasSound);
      ok := true;
    }

    // ----- bounds -----

    /**
     * `extract_bounds_recursive`: an unknown id is skipped; otherwise the
     * node's layout, turned into window bounds below `parentOrigin`, is
     * written for the id, and then each listed child is extracted in turn
     * below the new origin.
     */
    method ExtractBoundsRecursive(id: Id, parentOrigin: G.Point<real>, scale: L.ScaleFactor, ghost rank: map<Id, nat>)
      requires store.Valid() && Extractable(nodes, childrenMap, store.layouts, rank)
      requires forall k | k in nodes :: nodes[k] in store.children
      modifies this`computedBounds, store`faults
      ensures store.faults == old(store.faults)
      ensures id !in nodes ==> computedBounds == old(computedBounds)
      ensures id in nodes ==>
        computedBounds == old(computedBounds) + Extracted(nodes, childrenMap, store.layouts, rank, id, parentOrigin, scale)
      decreases if id in nodes then rank[id] + 1 else 0
    {
      if id !in nodes {
        return;
      }
      var layout := store.Layout(nodes[id]);
      var bounds := WindowBounds(layout, parentOrigin, scale);
      computedBounds := computedBounds[id := bounds];
      var kids := childrenMap[id];
      ChildrenRankBelow(nodes, childrenMap, store.layouts, rank, id);
      ghost var base := computedBounds;
      var i := 0;
      while i < |kids|
        invariant 0 <= i <= |kids|
        invariant store.Valid() && store.faults == old(store.faults)
        invariant computedBounds == base + ExtractedList(nodes, childrenMap, store.layouts, rank, kids[..i], bounds.origin, scale, rank[id])
      {
        ghost var done := ExtractedList(nodes, childrenMap, store.layouts, rank, kids[..i], bounds.origin, scale, rank[id]);
        ExtractBoundsRecursive(kids[i], bounds.origin, scale, rank);
        ExtractedListStep(nodes, childrenMap, store.layouts, rank, kids, i, bounds.origin, scale, rank[id]);
        if kids[i] in nodes {
          MergeAssociative(base, done, Extracted(nodes, childrenMap, store.layouts, rank, kids[i], bounds.origin, scale));
        }
        i := i + 1;
      }
      assert kids[..i] == kids;
      MergeAfterWrite(old(computedBounds), id, bounds,
                      ExtractedList(nodes, childrenMap, store.layouts, rank, kids, bounds.origin, scale, rank[id]));
    }

    /** The closing loop of `compute_layout`: every external bound is copied into the computed bounds. */
    method OverlayExternalBounds()
      modifies this`computedBounds
      ensures computedBounds == old(computedBounds) + externalBounds
    {
      var pending := externalBounds.Keys;
      while |pending| > 0
        invariant pending <= externalBounds.Keys
        invariant computedBounds == old(computedBounds) + map k | k in externalBounds && k !in pending :: externalBounds[k]
        decreases |pending|
      {
        ChildLists.Occupied(pending);
        var k :| k in pending;
        computedBounds := computedBounds[k := externalBounds[k]];
        pending := pending - {k};
      }
      assert externalBounds == map k | k in externalBounds && k !in pending :: externalBounds[k];
    }

    /** While the engine agrees with the store, extraction can read every known id's layout. */
    lemma SoundExtractable()
      requires Sound()
      ensures Extractable(nodes, childrenMap, store.layouts, ERank(nodes, store.rank))
      ensures forall k | k in nodes :: nodes[k] in store.children
    {
      assert store.Tables();
      forall k | k in nodes
        ensures nodes[k] in store.children
      {
        assert nodes[k] in owner;
      }
    }

    /**
     * The Yoga run of `compute_layout` on a known id: the measure context
     * holds the scale factor while Yoga lays out the node's subtree, and
     * is cleared afterwards.
     */
    method RunYoga(id: Id, available: YogaAvailableSize, scale: L.ScaleFactor, solver: YogaBridge.Solver, run: L.MeasureRunner)
      requires Sound() && id in nodes
      modifies this`measureContext, store`layouts, store`faults
      ensures Sound() && store.faults == old(store.faults) && measureContext.None?
      ensures store.layouts == YogaBridge.Overlay(old(store.layouts), Graph.Reach(store.children, store.rank, nodes[id]),
        solver(store.Snapshot(), nodes[id], YogaBridge.ValueOrUndefined(available.width), YogaBridge.ValueOrUndefined(available.height),
               YogaBridge.YGDirectionLTR,
               YogaBridge.ProxyOracle(store.contexts, store.registry.callbacks, EngineRunner(measureFunctions, Some(scale), run))))
    {
      measureContext := Some(scale);
      Calculate(id, available, solver, EngineRunner(measureFunctions, measureContext, run));
      label calculated:
      measureContext := None;
      SoundKept@calculated();
    }

    /** `calculate_layout` on a known id's node. */
    method Calculate(id: Id, available: YogaAvailableSize, solver: YogaBridge.Solver, run: CallbackRunner)
      requires Sound() && id in nodes
      modifies store`layouts, store`faults
      ensures Sound() && store.faults == old(store.faults)
      ensures store.layouts == YogaBridge.Overlay(old(store.layouts), Graph.Reach(store.children, store.rank, nodes[id]),
        solver(store.Snapshot(), nodes[id], YogaBridge.ValueOrUndefined(available.width), YogaBridge.ValueOrUndefined(available.height),
               YogaBridge.YGDirectionLTR, YogaBridge.ProxyOracle(store.contexts, store.registry.callbacks, run)))
    {
      KnownIsLive(id);
      store.CalculateLayout(nodes[id], available, solver, run);
    }

    /**
     * The bounds half of `compute_layout`: `extract_bounds_recursive` from
     * the origin into the cleared computed bounds, then the external
     * bounds copied over them.
     */
    method CollectBounds(id: Id, scale: L.ScaleFactor)
      requires Sound() && id in nodes && computedBounds == map[]
      modifies this`computedBounds, store`faults
      ensures store.faults == old(store.faults)
      ensures computedBounds == Extracted(nodes, childrenMap, store.layouts, ERank(nodes, store.rank), id, G.Point(0.0, 0.0), scale)
                                + externalBounds
    {
      SoundExtractable();
      ghost var rank := ERank(nodes, store.rank);
      ExtractBoundsRecursive(id, G.Point(0.0, 0.0), scale, rank);
      ghost var extracted := Extracted(nodes, childrenMap, store.layouts, rank, id, G.Point(0.0, 0.0), scale);
      assert map[] + extracted == extracted;
      OverlayExternalBounds();
    }

    /** The engine stays sound while none of the state that soundness reads changes. */
    twostate lemma SoundKept()
      requires old(Sound())
      requires unchanged(this`nodes, this`nextId, this`childrenMap, this`measureHandles, this`measureFunctions, this`owner)
      requires unchanged(store`children, store`rank, store`styles, store`layouts, store`contexts, store`dirty, store`measured,
                         store`nextHandle, store`freed, store.registry)
      ensures Sound()
    {
    }

    /**
     * The steps of `compute_layout` once the available size is in Yoga's
     * form. An unknown id changes nothing. Otherwise the computed bounds
     * are cleared, Yoga lays out the node's subtree with the measure
     * context set (so callbacks run the measure functions), the context is
     * cleared again, bounds are extracted from the origin, and the external
     * bounds are copied over them.
     */
    method LayOut(id: Id, yogaAvailable: YogaAvailableSize, scale: L.ScaleFactor,
                  solver: YogaBridge.Solver, run: L.MeasureRunner)
      requires Sound()
      modifies this`computedBounds, this`measureContext, store`layouts, store`faults
      ensures Sound() && store.faults == old(store.faults)
      ensures id in nodes ==> measureContext.None?
      ensures id !in nodes ==> computedBounds == old(computedBounds) && store.layouts == old(store.layouts)
      ensures id in nodes ==>
        && store.layouts == YogaBridge.Overlay(old(store.layouts), Graph.Reach(store.children, store.rank, nodes[id]),
             solver(store.Snapshot(), nodes[id],
                    YogaBridge.ValueOrUndefined(yogaAvailable.width),
                    YogaBridge.ValueOrUndefined(yogaAvailable.height),
                    YogaBridge.YGDirectionLTR,
                    YogaBridge.ProxyOracle(store.contexts, store.registry.callbacks, EngineRunner(measureFunctions, Some(scale), run))))
        && computedBounds == Extracted(nodes, childrenMap, store.layouts, ERank(nodes, store.rank), id, G.Point(0.0, 0.0), scale)
                             + externalBounds
    {
      if id !in nodes {
        return;
      }
      computedBounds := map[];
      RunYoga(id, yogaAvailable, scale, solver, run);
      label laidOut:
      CollectBounds(id, scale);
      SoundKept@laidOut();
    }

    /**
     * `compute_layout` as written, with the scale factor of the window as
     * `scale` and Yoga's layout algorithm as `solver`: a definite available
     * size reaches Yoga still in logical pixels, although every style
     * length and every measured size Yoga sees is in device pixels.
     */
    method ComputeLayoutAsWritten(id: Id, available: G.Size<L.AvailableSpace>, scale: L.ScaleFactor,
                                  solver: YogaBridge.Solver, run: L.MeasureRunner)
      requires Sound()
      modifies this`computedBounds, this`measureContext, store`layouts, store`faults
      ensures Sound() && store.faults == old(store.faults)
      ensures id in nodes ==> measureContext.None?
      ensures id !in nodes ==> computedBounds == old(computedBounds) && store.layouts == old(store.layouts)
      ensures id in nodes ==>
        && store.layouts == YogaBridge.Overlay(old(store.layouts), Graph.Reach(store.children, store.rank, nodes[id]),
             solver(store.Snapshot(), nodes[id],
                    YogaBridge.ValueOrUndefined(YogaAvailableAsWritten(available.width)),
                    YogaBridge.ValueOrUndefined(YogaAvailableAsWritten(available.height)),
                    YogaBridge.YGDirectionLTR,
                    YogaBridge.ProxyOracle(store.contexts, store.registry.callbacks, EngineRunner(measureFunctions, Some(scale), run))))
        && computedBounds == Extracted(nodes, childrenMap, store.layouts, ERank(nodes, store.rank), id, G.Point(0.0, 0.0), scale)
                             + externalBounds
    {
      LayOut(id, YogaAvailableSize(YogaAvailableAsWritten(available.width), YogaAvailableAsWritten(available.height)),
             scale, solver, run);
    }

    /**
     * `compute_layout` with the available size converted to device pixels
     * like every other length Yoga sees, so that a root filling the window
     * comes back with the window's logical size.
     */
    method ComputeLayout(id: Id, available: G.Size<L.AvailableSpace>, scale: L.ScaleFactor,
                         solver: YogaBridge.Solver, run: L.MeasureRunner)
      requires Sound()
      modifies this`computedBounds, this`measureContext, store`layouts, store`faults
      ensures Sound() && store.faults == old(store.faults)
      ensures id in nodes ==> measureContext.None?
      ensures id !in nodes ==> computedBounds == old(computedBounds) && store.layouts == old(store.layouts)
      ensures id in nodes ==>
        && store.layouts == YogaBridge.Overlay(old(store.layouts), Graph.Reach(store.children, store.rank, nodes[id]),
             solver(store.Snapshot(), nodes[id],
                    YogaBridge.ValueOrUndefined(YogaAvailable(available.width, scale)),
                    YogaBridge.ValueOrUndefined(YogaAvailable(available.height, scale)),
                    YogaBridge.YGDirectionLTR,
                    YogaBridge.ProxyOracle(store.contexts, store.registry.callbacks, EngineRunner(measureFunctions, Some(scale), run))))
        && computedBounds == Extracted(nodes, childrenMap, store.layouts, ERank(nodes, store.rank), id, G.Point(0.0, 0.0), scale)
                             + externalBounds
    {
      LayOut(id, YogaAvailableSize(YogaAvailable(available.width, scale), YogaAvailable(available.height, scale)),
             scale, solver, run);
    }

    /** `layout_bounds`: the id's external bounds if it has any, else its computed bounds, else zero bounds. */
    function LayoutBounds(id: Id): (b: G.Bounds)
      reads this`externalBounds, this`computedBounds
      ensures b == ResolvedBounds(externalBounds, computedBounds, id)
    {
      if id in externalBounds then externalBounds[id]
      else if id in computedBounds then computedBounds[id]
      else G.ZeroBounds
    }

    /** `set_external_bounds`: the id's external bounds become `bounds`. */
    method SetExternalBounds(id: Id, bounds: G.Bounds)
      modifies this`externalBounds
      ensures externalBounds == old(externalBounds)[id := bounds]
      ensures LayoutBounds(id) == bounds
    {
      externalBounds := externalBounds[id := bounds];
    }

    /**
     * `apply_external_overrides`: each override in order records its
     * bounds, and records its style or, without one, removes the id's
     * style.
     */
    method ApplyExternalOverrides(overrides: seq<L.ExternalLayoutOverride>)
      modifies this`externalBounds, this`externalStyles
      ensures externalBounds == OverriddenBounds(old(externalBounds), overrides)
      ensures externalStyles == OverriddenStyles(old(externalStyles), overrides)
    {
      var i := 0;
      while i < |overrides|
        invariant 0 <= i <= |overrides|
        invariant externalBounds == OverriddenBounds(old(externalBounds), overrides[..i])
        invariant externalStyles == OverriddenStyles(old(externalStyles), overrides[..i])
      {
        var entry := overrides[i];
        assert overrides[..i + 1][..i] == overrides[..i];
        externalBounds := externalBounds[OverrideId(entry) := entry.bounds];
        if entry.style.Some? {
          externalStyles := externalStyles[OverrideId(entry) := entry.style.value];
        } else {
          externalStyles := externalStyles - {OverrideId(entry)};
        }
        i := i + 1;
      }
      assert overrides[..i] == overrides;
    }

    /** `free_node` on `h`, then the drop of the measure handle `m`, if any, which notifies the registry. */
    method FreeWithHandle(h: Handle, m: Option<MeasureId>)
      requires store.Valid()
      modifies store`children, store`styles, store`layouts, store`measured, store`dirty, store`freed, store`contexts,
               store`faults, store.registry
      ensures store.Valid()
      ensures h in old(store.children) ==>
        var gone := Graph.Reach(old(store.children), old(store.rank), h);
        && store.children == Graph.Prune(old(store.children), gone) && store.freed == old(store.freed) + gone
        && store.faults == old(store.faults)
        && store.contexts == YogaBridge.ContextsWithout(old(store.contexts), gone)
        && store.registry.callbacks == old(store.registry.callbacks) - YogaBridge.ContextIds(old(store.contexts), gone)
                                       - (if m.Some? then {m.value} else {})
      ensures h !in old(store.children) ==>
        store.children == old(store.children) && store.faults == old(store.faults) + (if h == NullHandle then [] else [h])
    {
      store.FreeNode(h);
      if m.Some? {
        store.registry.DropMeasure(m.value);
      }
    }

    /**
     * `remove_node`, as written: the id's node is freed, and Yoga frees its
     * whole subtree with it, but only the id itself is forgotten; dropping
     * its measure handle tells the registry once more. A known child of
     * the removed id keeps its id while its node is gone, so the engine no
     * longer agrees with the store (`RemoveNode` is the corrected version).
     */
    method RemoveNodeAsWritten(id: Id)
      requires Valid()
      modifies this`nodes, this`owner, this`computedBounds, this`childrenMap, this`measureHandles, this`measureFunctions,
               this`externalBounds, this`externalStyles,
               store`children, store`styles, store`layouts, store`measured, store`dirty, store`freed, store`contexts,
               store`faults, store.registry
      ensures Valid()
      ensures id !in old(nodes) ==> unchanged(this) && unchanged(store) && unchanged(store.registry)
      ensures id in old(nodes) ==>
        && nodes == old(nodes) - {id} && owner == old(owner) - {old(nodes)[id]}
        && computedBounds == old(computedBounds) - {id} && childrenMap == old(childrenMap) - {id}
        && measureHandles == old(measureHandles) - {id} && measureFunctions == old(measureFunctions) - {id}
        && externalBounds == old(externalBounds) - {id} && externalStyles == old(externalStyles) - {id}
      ensures id in old(nodes) && old(nodes)[id] in old(store.children) ==>
        var gone := Graph.Reach(old(store.children), old(store.rank), old(nodes)[id]);
        && store.children == Graph.Prune(old(store.children), gone) && store.freed == old(store.freed) + gone
        && store.faults == old(store.faults)
      ensures id in old(nodes) && old(nodes)[id] !in old(store.children) ==>
        store.children == old(store.children) && store.faults == old(store.faults) + [old(nodes)[id]]
      ensures old(Sound()) && id in old(nodes) ==>
        forall c | c in old(childrenMap)[id] && c in old(nodes) :: c in nodes && nodes[c] !in store.children
    {
      if id !in nodes {
        return;
      }
      var h := nodes[id];
      if Sound() {
        RemovedChildrenReached(id);
      }
      FreeWithHandle(h, if id in measureHandles then Some(measureHandles[id]) else None);
      ForgetId(id);
    }

    /** While the engine agrees with the store, every known child of a known id is another id whose node the id's node reaches. */
    lemma RemovedChildrenReached(id: Id)
      requires Sound() && id in nodes
      ensures forall c | c in childrenMap[id] && c in nodes :: c != id && nodes[c] in Graph.Reach(store.children, store.rank, nodes[id])
    {
      forall c | c in childrenMap[id] && c in nodes
        ensures c != id && nodes[c] in Graph.Reach(store.children, store.rank, nodes[id])
      {
        ListedChildReached(nodes, owner, childrenMap, measureHandles, store.children, store.rank,
                           store.contexts, store.registry.callbacks, id, c);
      }
    }

    /** The engine forgets a known id in every table. */
    method ForgetId(id: Id)
      requires Books() && id in nodes
      modifies this`nodes, this`owner, this`computedBounds, this`childrenMap, this`measureHandles, this`measureFunctions,
               this`externalBounds, this`externalStyles
      ensures Books()
      ensures nodes == old(nodes) - {id} && owner == old(owner) - {old(nodes)[id]}
      ensures computedBounds == old(computedBounds) - {id} && childrenMap == old(childrenMap) - {id}
      ensures measureHandles == old(measureHandles) - {id} && measureFunctions == old(measureFunctions) - {id}
      ensures externalBounds == old(externalBounds) - {id} && externalStyles == old(externalStyles) - {id}
    {
      BookkeepingRemove(nodes, nextId, childrenMap, measureHandles, measureFunctions, owner, store.nextHandle, id);
      nodes, owner, childrenMap, measureHandles, measureFunctions :=
        nodes - {id}, owner - {nodes[id]}, childrenMap - {id}, measureHandles - {id}, measureFunctions - {id};
      computedBounds, externalBounds, externalStyles := computedBounds - {id}, externalBounds - {id}, externalStyles - {id};
    }

    /**
     * A live node detached from its children (an empty list for
     * `set_children`) and then freed: it is the only node freed, its
     * context is released, and the measure handle `m`, if any, is dropped.
     */
    method FreeDetached(h: Handle, m: Option<MeasureId>)
      requires store.Valid()
      modifies store`children, store`rank, store`styles, store`layouts, store`measured, store`dirty, store`freed,
               store`contexts, store`faults, store.registry
      ensures store.Valid()
      ensures h in old(store.children) ==>
        && store.children == Graph.Prune(old(store.children), {h}) && store.freed == old(store.freed) + {h}
        && store.faults == old(store.faults)
        && store.contexts == YogaBridge.ContextsWithout(old(store.contexts), {h})
        && store.registry.callbacks == old(store.registry.callbacks) - YogaBridge.ContextIds(old(store.contexts), {h})
                                       - (if m.Some? then {m.value} else {})
    {
      store.SetChildren(h, []);
      if h in old(store.children) {
        Graph.LeafReach(store.children, store.rank, h);
        assert Graph.Prune(store.children, {h}) == Graph.Prune(old(store.children), {h});
      }
      FreeWithHandle(h, m);
    }

    /**
     * `remove_node`, corrected to remove one node from the layout tree as
     * the layout engine interface describes it: the node is detached from
     * its children first, so freeing it frees it alone, and only its id is
     * forgotten. Its children stay known, as roots, and the engine keeps
     * agreeing with the store.
     */
    method RemoveNode(id: Id)
      requires Valid()
      modifies this`nodes, this`owner, this`computedBounds, this`childrenMap, this`measureHandles, this`measureFunctions,
               this`externalBounds, this`externalStyles,
               store`children, store`rank, store`styles, store`layouts, store`measured, store`dirty, store`freed,
               store`contexts, store`faults, store.registry
      ensures Valid()
      ensures id !in old(nodes) ==> unchanged(this) && unchanged(store) && unchanged(store.registry)
      ensures id in old(nodes) ==>
        && nodes == old(nodes) - {id} && owner == old(owner) - {old(nodes)[id]}
        && computedBounds == old(computedBounds) - {id} && childrenMap == old(childrenMap) - {id}
        && measureHandles == old(measureHandles) - {id} && measureFunctions == old(measureFunctions) - {id}
        && externalBounds == old(externalBounds) - {id} && externalStyles == old(externalStyles) - {id}
      ensures old(Agrees()) ==> Agrees() && store.faults == old(store.faults)
      ensures old(Agrees()) && id in old(nodes) ==>
        && store.children == Graph.Prune(old(store.children), {old(nodes)[id]})
        && store.freed == old(store.freed) + {old(nodes)[id]}
    {
      if id !in nodes {
        return;
      }
      ghost var wasSound := Sound();
      var h := nodes[id];
      var m := if id in measureHandles then Some(measureHandles[id]) else None;
      if wasSound {
        KnownIsLive(id);
      }
      FreeDetached(h, m);
      ForgetId(id);
      if wasSound {
        AgreesAfterRemove(id);
      }
    }

    /** Forgetting an id whose node was freed on its own keeps the engine in agreement with the store. */
    twostate lemma AgreesAfterRemove(id: Id)
      requires old(Sound()) && id in old(nodes) && store.Valid()
      requires nodes == old(nodes) - {id} && owner == old(owner) - {old(nodes)[id]}
      requires childrenMap == old(childrenMap) - {id} && measureHandles == old(measureHandles) - {id}
      requires store.children == Graph.Prune(old(store.children), {old(nodes)[id]})
      requires store.contexts == YogaBridge.ContextsWithout(old(store.contexts), {old(nodes)[id]})
      requires store.registry.callbacks == old(store.registry.callbacks) - YogaBridge.ContextIds(old(store.contexts), {old(nodes)[id]})
                                           - (if id in old(measureHandles) then {old(measureHandles)[id]} else {})
      ensures Agrees()
    {
      var h := old(nodes)[id];
      AgreementRemove(old(nodes), old(owner), old(childrenMap), old(measureHandles), old(store.children), old(store.rank),
                      old(store.contexts), old(store.registry.callbacks), id, store.children, store.rank);
      if id in old(measureHandles) {
        MeasuresAgreeClear(old(nodes), old(owner), old(measureHandles), old(store.contexts), old(store.registry.callbacks), id);
        assert YogaBridge.ContextIds(old(store.contexts), {h}) == {old(measureHandles)[id]};
      }
    }
      /** The first loop of `clear`: the ids named by any child list. */
    method CollectChildIds() returns (ids: set<Id>)
      ensures ids == ListedIds(childrenMap)
    {
      ids := {};
      var pending := childrenMap.Keys;
      while |pending| > 0
        invariant pending <= childrenMap.Keys
        invariant ids == ListedIdsOf(childrenMap, childrenMap.Keys - pending)
        decreases |pending|
      {
        ChildLists.Occupied(pending);
        var p :| p in pending;
        ListedIdsOfAdd(childrenMap, childrenMap.Keys - pending, p);
        assert childrenMap.Keys - (pending - {p}) == (childrenMap.Keys - pending) + {p};
        ids := ids + set k | k in childrenMap[p];
        pending := pending - {p};
      }
      assert childrenMap.Keys - pending == childrenMap.Keys;
    }

    /**
     * What `clear` has freed so far, against the store as it was: the
     * nodes still live are the old ones minus a set `gone` closed
     * downwards, their edges into `gone` are pruned, and exactly the
     * contexts and callbacks of `gone` are released.
     */
    ghost predicate FreedSince(g0: map<Handle, seq<Handle>>, contexts0: map<Handle, MeasureId>,
                               callbacks0: map<MeasureId, MeasureCallback>, freed0: set<Handle>, faults0: seq<Handle>)
      reads store`children, store`freed, store`faults, store`contexts, store.registry`callbacks
    {
      var gone := g0.Keys - store.children.Keys;
      && store.children.Keys <= g0.Keys
      && store.children == Graph.Prune(g0, gone)
      && Graph.UpClosed(g0, store.children.Keys)
      && store.freed == freed0 + gone && store.faults == faults0
      && store.contexts == YogaBridge.ContextsWithout(contexts0, gone)
      && store.registry.callbacks == callbacks0 - YogaBridge.ContextIds(contexts0, gone)
    }

    /**
     * One turn of the second loop of `clear` on an id no list names: its
     * node is freed with its subtree. While the engine agreed with the
     * old store, the node was still live, and no other such id's node is
     * in its subtree.
     */
    method FreeRoot(id: Id, ghost pending: set<Id>, ghost childIds: set<Id>, ghost g0: map<Handle, seq<Handle>>,
                    ghost contexts0: map<Handle, MeasureId>, ghost callbacks0: map<MeasureId, MeasureCallback>,
                    ghost freed0: set<Handle>, ghost faults0: seq<Handle>, ghost wasSound: bool)
      requires Valid() && id in nodes
      requires wasSound ==>
        && owner.Keys == g0.Keys && Mirrored(nodes, childrenMap, g0)
        && childIds == ListedIds(childrenMap) && pending <= nodes.Keys && id in pending && id !in childIds
        && FreedSince(g0, contexts0, callbacks0, freed0, faults0)
        && (forall r | r in pending && r !in childIds :: nodes[r] in store.children)
      modifies store`children, store`styles, store`layouts, store`measured, store`dirty, store`freed, store`contexts,
               store`faults, store.registry
      ensures Valid()
      ensures store.registry.nextMeasureId == old(store.registry.nextMeasureId)
      ensures wasSound ==>
        && FreedSince(g0, contexts0, callbacks0, freed0, faults0)
        && store.children.Keys <= old(store.children).Keys && nodes[id] !in store.children
        && (forall r | r in pending && r !in childIds && r != id :: nodes[r] in store.children)
    {
      var h := nodes[id];
      if wasSound {
        var cur := store.children;
        RootFreeStep(nodes, owner, childrenMap, g0, store.rank, cur, childIds, pending, id);
        ContextsReleasedTwice(contexts0, callbacks0, g0.Keys - cur.Keys, Graph.Reach(cur, store.rank, h));
      }
      store.FreeNode(h);
    }

    /**
     * The second loop of `clear`: every known id that no list names has
     * its node freed, and Yoga frees the subtree with it. While the engine
     * agrees with the store, this frees every live node, each exactly
     * once, and with them every context and every callback.
     */
    method FreeRoots(childIds: set<Id>, ghost wasSound: bool)
      requires Valid() && childIds == ListedIds(childrenMap)
      requires wasSound ==> Agrees()
      modifies store`children, store`styles, store`layouts, store`measured, store`dirty, store`freed, store`contexts,
               store`faults, store.registry
      ensures Valid()
      ensures store.registry.nextMeasureId == old(store.registry.nextMeasureId)
      ensures wasSound ==>
        && store.children == map[] && store.freed == old(store.freed) + old(store.children).Keys
        && store.faults == old(store.faults) && store.contexts == map[] && store.registry.callbacks == map[]
    {
      ghost var g0, contexts0, callbacks0 := store.children, store.contexts, store.registry.callbacks;
      ghost var freed0, faults0, rank0 := store.freed, store.faults, store.rank;
      FreedNothing();
      var pending := nodes.Keys;
      while |pending| > 0
        invariant Valid() && pending <= nodes.Keys && store.rank == rank0
        invariant store.registry.nextMeasureId == old(store.registry.nextMeasureId)
        invariant wasSound ==>
          && Agreement(nodes, owner, childrenMap, measureHandles, g0, rank0, contexts0, callbacks0)
          && Graph.Ranked(g0, rank0) && contexts0.Keys <= g0.Keys
          && FreedSince(g0, contexts0, callbacks0, freed0, faults0)
          && (forall r | r in pending && r !in childIds :: nodes[r] in store.children)
          && (forall r | r in nodes && r !in pending && r !in childIds :: nodes[r] !in store.children)
        decreases |pending|
      {
        ChildLists.Occupied(pending);
        var id :| id in pending;
        if id !in childIds {
          FreeRoot(id, pending, childIds, g0, contexts0, callbacks0, freed0, faults0, wasSound);
        }
        pending := pending - {id};
      }
      if wasSound {
        EverythingFreed(g0, contexts0, callbacks0, freed0, faults0, childIds);
      }
    }

    /** Before `clear` frees anything, nothing is gone. */
    lemma FreedNothing()
      requires store.Valid()
      ensures FreedSince(store.children, store.contexts, store.registry.callbacks, store.freed, store.faults)
    {
      assert store.children.Keys - store.children.Keys == {};
      Graph.PruneNothing(store.children);
      NothingReleased(store.contexts, store.registry.callbacks);
    }

    /**
     * Once every root is freed, while the engine agreed with the old store,
     * the store is empty and no context or callback is left.
     */
    lemma EverythingFreed(g0: map<Handle, seq<Handle>>, contexts0: map<Handle, MeasureId>,
                          callbacks0: map<MeasureId, MeasureCallback>, freed0: set<Handle>, faults0: seq<Handle>,
                          childIds: set<Id>)
      requires Books() && childIds == ListedIds(childrenMap) && Graph.Ranked(g0, store.rank) && contexts0.Keys <= g0.Keys
      requires Agreement(nodes, owner, childrenMap, measureHandles, g0, store.rank, contexts0, callbacks0)
      requires FreedSince(g0, contexts0, callbacks0, freed0, faults0)
      requires forall r | r in nodes && r !in childIds :: nodes[r] !in store.children
      ensures store.children == map[] && store.freed == freed0 + g0.Keys && store.faults == faults0
      ensures store.contexts == map[] && store.registry.callbacks == map[]
    {
      AllRootsFreed(nodes, owner, childrenMap, g0, store.rank, childIds, store.children.Keys);
      AllCallbacksReleased(nodes, owner, measureHandles, contexts0, callbacks0, g0.Keys);
      assert g0.Keys - store.children.Keys == g0.Keys;
    }

    /** Clearing the handle table drops every measure handle, and each drop tells the registry. */
    method DropHandles()
      requires store.Valid()
      modifies store.registry
      ensures store.Valid()
      ensures store.registry.nextMeasureId == old(store.registry.nextMeasureId)
      ensures store.registry.callbacks == old(store.registry.callbacks) - HandlesOf(measureHandles, measureHandles.Keys)
      ensures YogaBridge.ExtendsWith(old(store.registry.drops), store.registry.drops, HandlesOf(measureHandles, measureHandles.Keys))
    {
      var pending := measureHandles.Keys;
      while |pending| > 0
        invariant store.Valid() && pending <= measureHandles.Keys
        invariant store.registry.nextMeasureId == old(store.registry.nextMeasureId)
        invariant store.registry.callbacks == old(store.registry.callbacks) - HandlesOf(measureHandles, measureHandles.Keys - pending)
        invariant YogaBridge.ExtendsWith(old(store.registry.drops), store.registry.drops,
                                         HandlesOf(measureHandles, measureHandles.Keys))
        decreases |pending|
      {
        ChildLists.Occupied(pending);
        var k :| k in pending;
        store.registry.DropMeasure(measureHandles[k]);
        pending := pending - {k};
      }
      assert measureHandles.Keys - pending == measureHandles.Keys;
    }

    /**
     * `clear`: free the node of every id that no list names (Yoga frees
     * the rest with their parents), empty every table, drop every measure
     * handle and restart the ids at 1. While the engine agrees with the
     * store, every node is freed exactly once and every callback is gone,
     * so the engine agrees with the now empty store.
     */
    method Clear()
      requires Valid()
      modifies this`nodes, this`owner, this`nextId, this`computedBounds, this`childrenMap, this`measureHandles,
               this`measureFunctions, this`externalBounds, this`externalStyles,
               store`children, store`styles, store`layouts, store`measured, store`dirty, store`freed, store`contexts,
               store`faults, store.registry
      ensures Valid()
      ensures nodes == map[] && owner == map[] && nextId == 1 && computedBounds == map[] && childrenMap == map[]
      ensures measureHandles == map[] && measureFunctions == map[] && externalBounds == map[] && externalStyles == map[]
      ensures old(Sound()) ==>
        && Sound() && store.children == map[] && store.freed == old(store.freed) + old(store.children).Keys
        && store.faults == old(store.faults) && store.registry.callbacks == map[]
    {
      ghost var wasSound := Sound();
      var childIds := CollectChildIds();
      FreeRoots(childIds, wasSound);
      DropHandles();
      ResetTables();
      EmptyTables(store.nextHandle, store.rank);
    }

    /** The end of `clear`: every table emptied and the ids restarted at 1. */
    method ResetTables()
      modifies this`nodes, this`owner, this`nextId, this`computedBounds, this`childrenMap, this`measureHandles,
               this`measureFunctions, this`externalBounds, this`externalStyles
      ensures Books()
      ensures nodes == map[] && owner == map[] && nextId == 1 && computedBounds == map[] && childrenMap == map[]
      ensures measureHandles == map[] && measureFunctions == map[] && externalBounds == map[] && externalStyles == map[]
    {
      computedBounds, childrenMap, measureHandles, measureFunctions := map[], map[], map[], map[];
      externalBounds, externalStyles := map[], map[];
      nodes, owner, nextId := map[], map[], 1;
    }
  }
}
