/*
 * `TaffyLayoutEngine` (crates/gpui/src/taffy.rs): GPUI's comparison layout
 * engine on top of the Taffy tree, with its absolute-bounds cache, the
 * external overrides, and the conversions from GPUI lengths and available
 * space to Taffy's.
 *
 * The Taffy tree is modelled by the parts the engine relies on: child lists,
 * parent links and each node's last computed layout. The solver is a
 * function parameter of `ComputeLayout`; the measure functions it calls back
 * are run by a caller-supplied runner.
 */
module Taffy {
  import opened Wrappers
  import G = GpuiStyle
  import L = Layout
  import Graph
  import StyleConversion
  import YogaEngine

  /** A layout id's raw value (Taffy's node id). */
  type Id = int

  // ----- length conversions -----

  /** Taffy's length-percentage-auto values: device pixels, a 0..1 fraction, or auto. */
  datatype TaffyLength = Length(value: real) | Percent(fraction: real) | TaffyAuto

  /**
   * `ToTaffy<f32> for AbsoluteLength`: device pixels, rems converted
   * through the rem size first. The same number the Yoga conversion puts in
   * a point value.
   */
  function AbsoluteToTaffy(l: G.AbsoluteLength, remSize: real, scale: real): (v: real)
    ensures v == StyleConversion.ConvertAbsoluteLength(l, remSize, scale).value
  {
    match l
    case Pixels(px) => px * scale
    case Rems(r) => G.RemsToPixels(r, remSize) * scale
  }

  /**
   * `ToTaffy` for `DefiniteLength`: absolute lengths become lengths; a
   * fraction is handed over as it is, where the Yoga conversion scales it
   * to 0..100.
   */
  function DefiniteToTaffy(l: G.DefiniteLength, remSize: real, scale: real): (t: TaffyLength)
    ensures t.Percent? <==> l.Fraction?
    ensures !t.TaffyAuto?
    ensures l.Fraction? ==> StyleConversion.ConvertDefiniteLength(l, remSize, scale).value == 100.0 * t.fraction
    ensures l.Absolute? ==> t.value == StyleConversion.ConvertDefiniteLength(l, remSize, scale).value
  {
    match l
    case Absolute(abs) => Length(AbsoluteToTaffy(abs, remSize, scale))
    case Fraction(f) => Percent(f)
  }

  /** `ToTaffy` for `Length`: auto stays auto. */
  function LengthToTaffy(l: G.Length, remSize: real, scale: real): (t: TaffyLength)
    ensures t.TaffyAuto? <==> l.Auto?
    ensures l.Definite? ==> t == DefiniteToTaffy(l.definite, remSize, scale)
  {
    match l
    case Auto => TaffyAuto
    case Definite(d) => DefiniteToTaffy(d, remSize, scale)
  }

  /**
   * The two engines read a length alike except for fractions: the unit
   * kind agrees, absolute magnitudes agree, and Yoga's percentage is a
   * hundred times Taffy's.
   */
  lemma LengthAgreesWithYoga(l: G.Length, remSize: real, scale: real)
    ensures var y := StyleConversion.ConvertLength(l, remSize, scale);
            var t := LengthToTaffy(l, remSize, scale);
      && (t.TaffyAuto? <==> y.unit.Auto?)
      && (t.Percent? <==> y.unit.Percent?)
      && (t.Length? <==> y.unit.Point?)
      && (t.Length? ==> t.value == y.value)
      && (t.Percent? ==> y.value == 100.0 * t.fraction)
  {
  }

  // ----- available space -----

  /** Taffy's available space, in device pixels. */
  datatype TaffySpace = TaffyDefinite(value: real) | TaffyMinContent | TaffyMaxContent

  /** `From<AvailableSpace> for TaffyAvailableSpace`. */
  function ToTaffySpace(a: L.AvailableSpace): (t: TaffySpace)
    ensures FromTaffySpace(t) == a
  {
    match a
    case Definite(px) => TaffyDefinite(px)
    case MinContent => TaffyMinContent
    case MaxContent => TaffyMaxContent
  }

  /** `From<TaffyAvailableSpace> for AvailableSpace`. */
  function FromTaffySpace(t: TaffySpace): (a: L.AvailableSpace)
    ensures t.TaffyDefinite? <==> a.Definite?
    ensures t.TaffyDefinite? ==> a.px == t.value
    ensures t.TaffyMinContent? <==> a.MinContent?
  {
    match t
    case TaffyDefinite(v) => L.AvailableSpace.Definite(v)
    case TaffyMinContent => L.MinContent
    case TaffyMaxContent => L.MaxContent
  }

  /** Converting back and forth from the Taffy side is the identity too. */
  lemma SpaceRoundTrip(t: TaffySpace)
    ensures ToTaffySpace(FromTaffySpace(t)) == t
  {
  }

  /** The `transform` closure of `compute_layout`: definite space into device pixels. */
  function Scaled(a: L.AvailableSpace, scale: L.ScaleFactor): (r: L.AvailableSpace)
    ensures r.Definite? <==> a.Definite?
    ensures !a.Definite? ==> r == a
  {
    match a
    case Definite(px) => L.AvailableSpace.Definite(px * scale)
    case MinContent => L.MinContent
    case MaxContent => L.MaxContent
  }

  /** The `untransform` closure of the measure callback: back into logical pixels. */
  function Unscaled(a: L.AvailableSpace, scale: L.ScaleFactor): (r: L.AvailableSpace)
    ensures Scaled(r, scale) == a
  {
    match a
    case Definite(px) => L.AvailableSpace.Definite(px / scale)
    case MinContent => L.MinContent
    case MaxContent => L.MaxContent
  }

  /** Scaling and unscaling are inverse: a measure function sees the caller's space. */
  lemma UnscaledScaled(a: L.AvailableSpace, scale: L.ScaleFactor)
    ensures Unscaled(Scaled(a, scale), scale) == a
  {
    if a.Definite? {
      assert a.px * scale / scale == a.px;
    }
  }

  /** The available space handed to the solver for a caller's logical space. */
  function SolverSpace(a: G.Size<L.AvailableSpace>, scale: L.ScaleFactor): G.Size<TaffySpace>
  {
    G.Size(ToTaffySpace(Scaled(a.width, scale)), ToTaffySpace(Scaled(a.height, scale)))
  }

  /** A known dimension from the solver, in logical pixels. */
  function UnscaledKnown(k: Option<real>, scale: L.ScaleFactor): Option<real>
  {
    if k.Some? then Some(k.value / scale) else None
  }

  /**
   * The measure closure `compute_layout` gives the solver: without a node
   * context it reports a zero size; otherwise it runs the node's measure
   * function on logical sizes and reports the result in device pixels.
   */
  function MeasureCallback(run: L.MeasureRunner, context: Option<L.LayoutMeasureFn>,
                           known: G.Size<Option<real>>, space: G.Size<TaffySpace>, scale: L.ScaleFactor): (r: G.Size<real>)
    ensures context.None? ==> r == G.Size(0.0, 0.0)
  {
    if context.None? then G.Size(0.0, 0.0)
    else
      var k := G.Size(UnscaledKnown(known.width, scale), UnscaledKnown(known.height, scale));
      var a := G.Size(Unscaled(FromTaffySpace(space.width), scale), Unscaled(FromTaffySpace(space.height), scale));
      var m := run(context.value, k, a);
      G.Size(m.width * scale, m.height * scale)
  }

  /**
   * The measure round trip: when the solver passes on the space the
   * engine scaled and known sizes in device pixels, the measure function
   * sees exactly the caller's logical values, and its answer reaches the
   * solver scaled into device pixels.
   */
  lemma MeasureSeesLogicalPixels(run: L.MeasureRunner, f: L.LayoutMeasureFn, known: G.Size<Option<real>>,
                                 a: G.Size<L.AvailableSpace>, scale: L.ScaleFactor)
    ensures var deviceKnown := G.Size(ScaledKnown(known.width, scale), ScaledKnown(known.height, scale));
            var m := run(f, known, a);
            var r := MeasureCallback(run, Some(f), deviceKnown, SolverSpace(a, scale), scale);
      r.width == m.width * scale && r.height == m.height * scale
  {
    var deviceKnown := G.Size(ScaledKnown(known.width, scale), ScaledKnown(known.height, scale));
    var space := SolverSpace(a, scale);
    UnscaledScaled(a.width, scale);
    UnscaledScaled(a.height, scale);
    KnownRoundTrip(known.width, scale);
    KnownRoundTrip(known.height, scale);
    assert G.Size(UnscaledKnown(deviceKnown.width, scale), UnscaledKnown(deviceKnown.height, scale)) == known;
    assert G.Size(Unscaled(FromTaffySpace(space.width), scale), Unscaled(FromTaffySpace(space.height), scale)) == a;
    var r := MeasureCallback(run, Some(f), deviceKnown, space, scale);
    var m := run(f, known, a);
    assert r.width == m.width * scale && r.height == m.height * scale;
  }

  /** A known logical dimension in device pixels. */
  function ScaledKnown(k: Option<real>, scale: L.ScaleFactor): Option<real>
  {
    if k.Some? then Some(k.value * scale) else None
  }

  lemma KnownRoundTrip(k: Option<real>, scale: L.ScaleFactor)
    ensures UnscaledKnown(ScaledKnown(k, scale), scale) == k
  {
    if k.Some? {
      var d := ScaledKnown(k, scale);
      assert d.Some? && d.value == k.value * scale;
      assert UnscaledKnown(d, scale).value == d.value / scale;
      assert k.value * scale / scale == k.value;
    }
  }

  /** A Taffy layout (device pixels, parent-relative) in logical pixels. */
  function Unscale(l: G.Bounds, scale: L.ScaleFactor): G.Bounds
  {
    G.Bounds(G.Point(l.origin.x / scale, l.origin.y / scale), G.Size(l.size.width / scale, l.size.height / scale))
  }

  // ----- external overrides -----

  /**
   * The external styles after applying `overrides` in order: a given style
   * is recorded, and an override without one leaves the table as it is.
   */
  function KeptStyles(styles: map<Id, G.Style>, overrides: seq<L.ExternalLayoutOverride>): (r: map<Id, G.Style>)
    ensures styles.Keys <= r.Keys
  {
    if overrides == [] then styles
    else
      var last := overrides[|overrides| - 1];
      var before := KeptStyles(styles, overrides[..|overrides| - 1]);
      if last.style.Some? then before[YogaEngine.OverrideId(last) := last.style.value] else before
  }

  /**
   * Taffy never drops an external style, where the Yoga engine does: for
   * an id whose last override carries no style, Taffy keeps the style the
   * id had while Yoga's table no longer has one.
   */
  lemma {:induction false} StyleOverridesDiverge(styles: map<Id, G.Style>, overrides: seq<L.ExternalLayoutOverride>, id: Id)
    requires id in styles
    requires forall j | 0 <= j < |overrides| && YogaEngine.OverrideId(overrides[j]) == id :: overrides[j].style.None?
    ensures id in KeptStyles(styles, overrides) && KeptStyles(styles, overrides)[id] == styles[id]
    ensures YogaEngine.LastOverride(overrides, id).Some? ==> id !in YogaEngine.OverriddenStyles(styles, overrides)
    decreases |overrides|
  {
    if overrides != [] {
      var init := overrides[..|overrides| - 1];
      StyleOverridesDiverge(styles, init, id);
    }
    YogaEngine.LastOverrideWins(map[], styles, overrides, id);
  }

  // ----- the tree -----

  /** Every listed child has a parent link back to the list's owner. */
  ghost predicate ListedHaveParent(children: Graph.Adjacency, parent: map<Id, Id>)
  {
    forall p, i | p in children && 0 <= i < |children[p]| :: children[p][i] in parent && parent[children[p][i]] == p
  }

  /** Every parent link is a known node listed by a known parent. */
  ghost predicate ParentsList(children: Graph.Adjacency, parent: map<Id, Id>)
  {
    forall c | c in parent :: c in children && parent[c] in children && c in children[parent[c]]
  }

  /** A node's parent outranks it. */
  lemma ParentRanked(children: Graph.Adjacency, parent: map<Id, Id>, rank: map<Id, nat>, c: Id)
    requires Graph.Ranked(children, rank) && ParentsList(children, parent) && c in parent
    ensures c in rank && parent[c] in rank && rank[c] < rank[parent[c]]
  {
    var p := parent[c];
    var i :| 0 <= i < |children[p]| && children[p][i] == c;
    Graph.RankedEdge(children, rank, p, i);
  }

  /** The parent links after a new node `n` adopts `kids`. */
  function Adopted(parent: map<Id, Id>, kids: seq<Id>, n: Id): (r: map<Id, Id>)
    ensures r.Keys == parent.Keys + (set k | k in kids)
    ensures forall k | k in kids :: r[k] == n
    ensures forall c | c in parent && c !in kids :: r[c] == parent[c]
  {
    parent + map k | k in kids :: n
  }

  /** The parent links after removing `id`: its own link and its children's go. */
  function Orphaned(parent: map<Id, Id>, id: Id): (r: map<Id, Id>)
    ensures r.Keys == (set c | c in parent && c != id && parent[c] != id)
    ensures forall c | c in r :: r[c] == parent[c]
  {
    map c | c in parent && c != id && parent[c] != id :: parent[c]
  }

  /** A list none of whose members are in `gone` survives filtering whole. */
  lemma {:induction false} WithoutAbsent(s: seq<Id>, gone: set<Id>)
    requires forall x | x in s :: x !in gone
    ensures Graph.Without(s, gone) == s
    decreases |s|
  {
    if s != [] {
      var first := s[0];
      assert first in s;
      assert first !in gone;
      assert forall x | x in s[1..] :: x in s;
      WithoutAbsent(s[1..], gone);
      assert [s[0]] + s[1..] == s;
    }
  }

  /**
   * Removing a node from its parent's list only (what the tree does) is
   * pruning it from every list: no other list names it.
   */
  lemma RemovalIsPrune(children: Graph.Adjacency, parent: map<Id, Id>, id: Id)
    requires ListedHaveParent(children, parent) && id in children
    ensures var lists := if id in parent && parent[id] in children
                         then children[parent[id] := Graph.Without(children[parent[id]], {id})] else children;
      lists - {id} == Graph.Prune(children, {id})
  {
    var lists := if id in parent && parent[id] in children
                 then children[parent[id] := Graph.Without(children[parent[id]], {id})] else children;
    forall q | q in children && q != id && !(id in parent && parent[id] == q)
      ensures Graph.Without(children[q], {id}) == children[q]
    {
      forall x | x in children[q]
        ensures x !in {id}
      {
        var i :| 0 <= i < |children[q]| && children[q][i] == x;
      }
      WithoutAbsent(children[q], {id});
    }
  }

  /** Removing a node keeps the parent links in agreement with the lists. */
  lemma RemovalKeepsParents(children: Graph.Adjacency, parent: map<Id, Id>, id: Id)
    requires ListedHaveParent(children, parent) && ParentsList(children, parent) && id in children
    ensures ListedHaveParent(Graph.Prune(children, {id}), Orphaned(parent, id))
    ensures ParentsList(Graph.Prune(children, {id}), Orphaned(parent, id))
  {
    var lists := Graph.Prune(children, {id});
    var links := Orphaned(parent, id);
    forall p, i | p in lists && 0 <= i < |lists[p]|
      ensures lists[p][i] in links && links[lists[p][i]] == p
    {
      var c := lists[p][i];
      assert c in children[p] && c != id;
      var j :| 0 <= j < |children[p]| && children[p][j] == c;
    }
    forall c | c in links
      ensures c in lists && links[c] in lists && c in lists[links[c]]
    {
    }
  }

  /** The reach sets of a stack of known nodes. */
  ghost function StackReach(g: Graph.Adjacency, rank: map<Id, nat>, stack: seq<Id>): set<Id>
    requires Graph.Ranked(g, rank) && forall k | k in stack :: k in g
  {
    if stack == [] then {}
    else StackReach(g, rank, stack[..|stack| - 1]) + Graph.Reach(g, rank, stack[|stack| - 1])
  }

  lemma {:induction false} StackReachAppend(g: Graph.Adjacency, rank: map<Id, nat>, a: seq<Id>, b: seq<Id>)
    requires Graph.Ranked(g, rank) && (forall k | k in a :: k in g) && forall k | k in b :: k in g
    ensures StackReach(g, rank, a + b) == StackReach(g, rank, a) + StackReach(g, rank, b)
    decreases |b|
  {
    if b == [] {
      assert a + b == a;
    } else {
      var init := b[..|b| - 1];
      assert (a + b)[..|a + b| - 1] == a + init;
      StackReachAppend(g, rank, a, init);
    }
  }

  /** Over a list of known children, the stack's reach is `Graph.ReachAll`'s. */
  lemma {:induction false} StackReachAll(g: Graph.Adjacency, rank: map<Id, nat>, kids: seq<Id>, bound: nat)
    requires Graph.Ranked(g, rank) && forall k | k in kids :: k in g && rank[k] < bound
    ensures StackReach(g, rank, kids) == Graph.ReachAll(g, rank, kids, bound)
    decreases |kids|
  {
    if kids != [] {
      StackReachAll(g, rank, kids[..|kids| - 1], bound);
    }
  }

  /** The number of root-to-node paths below `x` (x included). */
  ghost function Paths(g: Graph.Adjacency, rank: map<Id, nat>, x: Id): nat
    requires Graph.Ranked(g, rank) && Graph.Closed(g) && x in g
    decreases rank[x], 1
  {
    1 + PathsAll(g, rank, g[x], rank[x])
  }

  ghost function PathsAll(g: Graph.Adjacency, rank: map<Id, nat>, kids: seq<Id>, bound: nat): nat
    requires Graph.Ranked(g, rank) && Graph.Closed(g)
    requires forall k | k in kids :: k in g && rank[k] < bound
    decreases bound, 0, |kids|
  {
    if kids == [] then 0
    else PathsAll(g, rank, kids[..|kids| - 1], bound) + Paths(g, rank, kids[|kids| - 1])
  }

  lemma {:induction false} PathsAllAppend(g: Graph.Adjacency, rank: map<Id, nat>, a: seq<Id>, b: seq<Id>, bound: nat)
    requires Graph.Ranked(g, rank) && Graph.Closed(g)
    requires (forall k | k in a :: k in g && rank[k] < bound) && forall k | k in b :: k in g && rank[k] < bound
    ensures PathsAll(g, rank, a + b, bound) == PathsAll(g, rank, a, bound) + PathsAll(g, rank, b, bound)
    decreases |b|
  {
    if b == [] {
      assert a + b == a;
    } else {
      var init := b[..|b| - 1];
      assert (a + b)[..|a + b| - 1] == a + init;
      PathsAllAppend(g, rank, a, init, bound);
    }
  }

  lemma {:induction false} PathsAllBound(g: Graph.Adjacency, rank: map<Id, nat>, kids: seq<Id>, low: nat, high: nat)
    requires Graph.Ranked(g, rank) && Graph.Closed(g) && low <= high
    requires forall k | k in kids :: k in g && rank[k] < low
    ensures PathsAll(g, rank, kids, low) == PathsAll(g, rank, kids, high)
    decreases |kids|
  {
    if kids != [] {
      PathsAllBound(g, rank, kids[..|kids| - 1], low, high);
    }
  }

  /** The children of a known node are known and rank below it. */
  lemma ChildrenBelow(g: Graph.Adjacency, rank: map<Id, nat>, x: Id)
    requires Graph.Ranked(g, rank) && Graph.Closed(g) && x in g
    ensures forall k | k in g[x] :: k in g && rank[k] < rank[x]
  {
    forall k | k in g[x]
      ensures k in g && rank[k] < rank[x]
    {
      var i :| 0 <= i < |g[x]| && g[x][i] == k;
      Graph.RankedEdge(g, rank, x, i);
    }
  }

  /**
   * One step of the purge: popping `x` and pushing its children keeps the
   * union of reach sets, minus `x`, and strictly lowers the path count.
   */
  lemma PurgeStep(g: Graph.Adjacency, rank: map<Id, nat>, ceiling: nat, init: seq<Id>, x: Id)
    requires Graph.Ranked(g, rank) && Graph.Closed(g) && x in g
    requires forall k | k in rank :: rank[k] < ceiling
    requires forall k | k in init :: k in g
    ensures forall k | k in init + g[x] :: k in g
    ensures StackReach(g, rank, init + [x]) == StackReach(g, rank, init + g[x]) + {x}
    ensures PathsAll(g, rank, init + g[x], ceiling) < PathsAll(g, rank, init + [x], ceiling)
  {
    ChildrenBelow(g, rank, x);
    assert (init + [x])[..|init|] == init;
    StackReachAppend(g, rank, init, g[x]);
    StackReachAll(g, rank, g[x], rank[x]);
    PathsAllAppend(g, rank, init, g[x], ceiling);
    PathsAllBound(g, rank, g[x], rank[x], ceiling);
  }

  /** A node's parent-relative layout after the last solve; zero before any. */
  function LocalOf(local: map<Id, G.Bounds>, id: Id): G.Bounds
  {
    if id in local then local[id] else G.ZeroBounds
  }

  /** A node's style as the engine hands it to Taffy, with the measure function of a measured leaf. */
  datatype TaffyNode = TaffyNode(style: G.Style, remSize: real, scale: real, measure: Option<L.LayoutMeasureFn>)

  /**
   * The Taffy solver: given the tree, the root and its available space
   * (device pixels), and the measure callback, the parent-relative layout
   * of the nodes it laid out.
   */
  type Solver = (Graph.Adjacency, map<Id, TaffyNode>, Id, G.Size<TaffySpace>,
                 (Option<L.LayoutMeasureFn>, G.Size<Option<real>>, G.Size<TaffySpace>) -> G.Size<real>) -> map<Id, G.Bounds>

  /** The measure callback of a layout pass at `scale`. */
  function PassMeasure(run: L.MeasureRunner, scale: L.ScaleFactor): (Option<L.LayoutMeasureFn>, G.Size<Option<real>>, G.Size<TaffySpace>) -> G.Size<real>
  {
    (context, known, space) => MeasureCallback(run, context, known, space, scale)
  }

  /** The tree is acyclic, its lists and parent links agree, and ids are fresh. */
  ghost predicate TreeOk(nodes: map<Id, TaffyNode>, children: Graph.Adjacency, parent: map<Id, Id>,
                         rank: map<Id, nat>, ceiling: nat, nextNode: Id)
  {
    && children.Keys == nodes.Keys
    && Graph.Ranked(children, rank) && Graph.Closed(children)
    && (forall k | k in rank :: rank[k] < ceiling)
    && ListedHaveParent(children, parent) && ParentsList(children, parent)
    && (forall k | k in nodes :: k < nextNode)
  }

  /** Removing a known node keeps the tree well formed. */
  lemma RemovalKeepsTree(nodes: map<Id, TaffyNode>, children: Graph.Adjacency, parent: map<Id, Id>,
                         rank: map<Id, nat>, ceiling: nat, nextNode: Id, id: Id)
    requires TreeOk(nodes, children, parent, rank, ceiling, nextNode) && id in nodes
    ensures TreeOk(nodes - {id}, Graph.Prune(children, {id}), Orphaned(parent, id), rank, ceiling, nextNode)
  {
    RemovalKeepsParents(children, parent, id);
    Graph.PruneKeepsShape(children, rank, {id});
  }

  /** A rank ceiling that also clears `r`. */
  function Above(ceiling: nat, r: nat): (c: nat)
    ensures c > r && c >= ceiling
  {
    if r + 1 > ceiling then r + 1 else ceiling
  }

  /** A fresh node adopting parentless known children keeps the tree well formed. */
  lemma AddKeepsTree(nodes: map<Id, TaffyNode>, children: Graph.Adjacency, parent: map<Id, Id>,
                     rank: map<Id, nat>, ceiling: nat, nextNode: Id, node: TaffyNode, kids: seq<Id>)
    requires TreeOk(nodes, children, parent, rank, ceiling, nextNode)
    requires forall k | k in kids :: k in nodes && k !in parent
    ensures var lift := Graph.RankBound(children, rank, kids);
      TreeOk(nodes[nextNode := node], children[nextNode := kids], Adopted(parent, kids, nextNode),
             rank[nextNode := lift], Above(ceiling, lift), nextNode + 1)
  {
    AdoptKeepsTree(children, parent, rank, nextNode, kids);
  }

  class TaffyLayoutEngine {
    var nodes: map<Id, TaffyNode>
    /** The Taffy tree's child lists and parent links. */
    var children: Graph.Adjacency
    var parent: map<Id, Id>
    /** Each node's parent-relative layout in device pixels, as last solved. */
    var local: map<Id, G.Bounds>
    /** Memoised and external absolute bounds, in logical pixels. */
    var absoluteBounds: map<Id, G.Bounds>
    var externalStyles: map<Id, G.Style>
    var computedLayouts: set<Id>
    var nodeIdScratch: seq<Id>
    /** The id the tree hands out next; Taffy never reissues an id. */
    var nextNode: Id
    ghost var rank: map<Id, nat>
    ghost var ceiling: nat

    ghost predicate Valid()
      reads this
    {
      TreeOk(nodes, children, parent, rank, ceiling, nextNode)
    }

    constructor ()
      ensures Valid()
      ensures nodes == map[] && absoluteBounds == map[] && externalStyles == map[] && computedLayouts == {}
    {
      nodes, children, parent, local := map[], map[], map[], map[];
      absoluteBounds, externalStyles, computedLayouts := map[], map[], {};
      nodeIdScratch, nextNode := [], 0;
      rank, ceiling := map[], 0;
    }

    /** Empties the tree and every side table. */
    method Clear()
      requires Valid()
      modifies this
      ensures Valid() && nodeIdScratch == []
      ensures nodes == map[] && absoluteBounds == map[] && externalStyles == map[] && computedLayouts == {}
      ensures nextNode == old(nextNode)
    {
      nodes, children, parent, local := map[], map[], map[], map[];
      absoluteBounds := map[];
      externalStyles := map[];
      computedLayouts := {};
      nodeIdScratch := [];
      rank := map[];
    }

    /** Authoritative absolute bounds for `id`, for this frame. */
    method SetExternalBounds(id: Id, bounds: G.Bounds)
      requires Valid()
      modifies this`absoluteBounds
      ensures Valid()
      ensures absoluteBounds == old(absoluteBounds)[id := bounds]
    {
      absoluteBounds := absoluteBounds[id := bounds];
    }

    /** Records each override's bounds, and its style when it has one. */
    method ApplyExternalOverrides(overrides: seq<L.ExternalLayoutOverride>)
      requires Valid()
      modifies this`absoluteBounds, this`externalStyles
      ensures Valid()
      ensures absoluteBounds == YogaEngine.OverriddenBounds(old(absoluteBounds), overrides)
      ensures externalStyles == KeptStyles(old(externalStyles), overrides)
    {
      var i := 0;
      while i < |overrides|
        invariant 0 <= i <= |overrides|
        invariant absoluteBounds == YogaEngine.OverriddenBounds(old(absoluteBounds), overrides[..i])
        invariant externalStyles == KeptStyles(old(externalStyles), overrides[..i])
      {
        var entry := overrides[i];
        assert overrides[..i + 1][..i] == overrides[..i];
        absoluteBounds := absoluteBounds[YogaEngine.OverrideId(entry) := entry.bounds];
        if entry.style.Some? {
          externalStyles := externalStyles[YogaEngine.OverrideId(entry) := entry.style.value];
        }
        i := i + 1;
      }
      assert overrides[..i] == overrides;
    }

    /**
     * A new node with the given style: a leaf when there are no children,
     * otherwise the parent of exactly `kids`, in order. The children must be
     * parentless: the tree does not detach a child from an earlier parent.
     */
    method RequestLayout(style: G.Style, remSize: real, scale: real, kids: seq<Id>) returns (id: Id)
      requires Valid()
      requires forall k | k in kids :: k in nodes && k !in parent
      modifies this
      ensures Valid() && nodeIdScratch == []
      ensures id !in old(nodes) && nodes == old(nodes)[id := TaffyNode(style, remSize, scale, None)]
      ensures children == old(children)[id := kids]
      ensures parent == Adopted(old(parent), kids, id)
      ensures local == old(local) && absoluteBounds == old(absoluteBounds)
      ensures externalStyles == old(externalStyles) && computedLayouts == old(computedLayouts)
    {
      id := nextNode;
      nodeIdScratch := [];
      if kids == [] {
        AddNode(id, TaffyNode(style, remSize, scale, None), []);
      } else {
        nodeIdScratch := kids;
        AddNode(id, TaffyNode(style, remSize, scale, None), nodeIdScratch);
        nodeIdScratch := [];
      }
    }

    /** A new leaf that is measured by `measure`. */
    method RequestMeasuredLayout(style: G.Style, remSize: real, scale: real, measure: L.LayoutMeasureFn) returns (id: Id)
      requires Valid()
      modifies this
      ensures Valid()
      ensures id !in old(nodes) && nodes == old(nodes)[id := TaffyNode(style, remSize, scale, Some(measure))]
      ensures children == old(children)[id := []] && parent == old(parent)
      ensures local == old(local) && absoluteBounds == old(absoluteBounds)
      ensures externalStyles == old(externalStyles) && computedLayouts == old(computedLayouts)
    {
      id := nextNode;
      AddNode(id, TaffyNode(style, remSize, scale, Some(measure)), []);
      assert Adopted(old(parent), [], id) == old(parent);
    }

    /** The tree's node creation: a fresh id owning `kids`. */
    method AddNode(id: Id, node: TaffyNode, kids: seq<Id>)
      requires Valid() && id == nextNode
      requires forall k | k in kids :: k in nodes && k !in parent
      modifies this`nodes, this`children, this`parent, this`rank, this`ceiling, this`nextNode
      ensures Valid()
      ensures id !in old(nodes) && nodes == old(nodes)[id := node]
      ensures children == old(children)[id := kids]
      ensures parent == Adopted(old(parent), kids, id)
    {
      var lift := Graph.RankBound(children, rank, kids);
      AddKeepsTree(nodes, children, parent, rank, ceiling, nextNode, node, kids);
      nodes, children, parent := nodes[id := node], children[id := kids], Adopted(parent, kids, id);
      rank, ceiling, nextNode := rank[id := lift], Above(ceiling, lift), nextNode + 1;
    }

    /**
     * Removes `id` from the tree and, only if that succeeded, from the side
     * tables; an unknown id changes nothing.
     */
    method RemoveNode(id: Id)
      requires Valid()
      modifies this
      ensures Valid()
      ensures id !in old(nodes) ==> nodes == old(nodes) && children == old(children) && absoluteBounds == old(absoluteBounds)
                                    && externalStyles == old(externalStyles) && computedLayouts == old(computedLayouts)
      ensures id in old(nodes) ==>
        && nodes == old(nodes) - {id}
        && children == Graph.Prune(old(children), {id})
        && parent == Orphaned(old(parent), id)
        && absoluteBounds == old(absoluteBounds) - {id}
        && externalStyles == old(externalStyles) - {id}
        && computedLayouts == old(computedLayouts) - {id}
    {
      if id in nodes {
        TreeRemove(id);
        absoluteBounds := absoluteBounds - {id};
        externalStyles := externalStyles - {id};
        computedLayouts := computedLayouts - {id};
      }
    }

    /**
     * The tree's removal: `id` leaves its parent's list, its children lose
     * their parent link, and the node goes.
     */
    method TreeRemove(id: Id)
      requires Valid() && id in nodes
      modifies this`nodes, this`children, this`parent
      ensures Valid()
      ensures nodes == old(nodes) - {id}
      ensures children == Graph.Prune(old(children), {id})
      ensures parent == Orphaned(old(parent), id)
    {
      RemovalIsPrune(children, parent, id);
      RemovalKeepsTree(nodes, children, parent, rank, ceiling, nextNode, id);
      var lists := children;
      if id in parent && parent[id] in children {
        lists := lists[parent[id] := Graph.Without(children[parent[id]], {id})];
      }
      children := lists - {id};
      parent := Orphaned(parent, id);
      nodes := nodes - {id};
    }

    /**
     * Lays out the tree under `id`. A second layout of the same id first
     * drops the cached absolute bounds of `id` and of everything below it.
     */
    method ComputeLayout(id: Id, available: G.Size<L.AvailableSpace>, scale: L.ScaleFactor, solve: Solver, run: L.MeasureRunner)
      requires Valid() && id in nodes
      modifies this
      ensures Valid()
      ensures nodes == old(nodes) && children == old(children) && parent == old(parent)
      ensures computedLayouts == old(computedLayouts) + {id}
      ensures id in old(computedLayouts) ==> absoluteBounds == old(absoluteBounds) - Graph.Reach(children, rank, id)
      ensures id !in old(computedLayouts) ==> absoluteBounds == old(absoluteBounds)
      ensures local == old(local) + solve(children, nodes, id, SolverSpace(available, scale), PassMeasure(run, scale))
    {
      if id in computedLayouts {
        Purge(id);
      }
      computedLayouts := computedLayouts + {id};
      local := local + solve(children, nodes, id, SolverSpace(available, scale), PassMeasure(run, scale));
    }

    /** The stack walk of `compute_layout` that forgets the cached bounds of a subtree. */
    method Purge(id: Id)
      requires Valid() && id in nodes
      modifies this`absoluteBounds
      ensures absoluteBounds == old(absoluteBounds) - Graph.Reach(children, rank, id)
    {
      var stack := [id];
      ghost var removed: set<Id> := {};
      assert stack[..0] == [];
      while stack != []
        invariant forall k | k in stack :: k in children
        invariant Graph.Reach(children, rank, id) == removed + StackReach(children, rank, stack)
        invariant absoluteBounds == old(absoluteBounds) - removed
        decreases PathsAll(children, rank, stack, ceiling)
      {
        var x := stack[|stack| - 1];
        var init := stack[..|stack| - 1];
        assert stack == init + [x];
        PurgeStep(children, rank, ceiling, init, x);
        absoluteBounds := absoluteBounds - {x};
        removed := removed + {x};
        stack := init + children[x];
      }
    }

    /**
     * `layout_bounds` as a specification: the stored entry if there is
     * one, otherwise the layout in logical pixels moved by the parent's
     * absolute origin.
     */
    ghost function Absolute(id: Id, scale: L.ScaleFactor): G.Bounds
      reads this
      requires Valid() && id in nodes
      decreases ceiling - rank[id]
    {
      if id in absoluteBounds then absoluteBounds[id]
      else
        var own := Unscale(LocalOf(local, id), scale);
        if id in parent then
          ParentRanked(children, parent, rank, id);
          var above := Absolute(parent[id], scale);
          G.Bounds(G.Point(own.origin.x + above.origin.x, own.origin.y + above.origin.y), own.size)
        else own
    }

    /**
     * The absolute bounds of `id`, memoising them and those of every
     * ancestor it had to compute. The answer is the specification's in the
     * state before the call; a stored entry is returned untouched.
     */
    method LayoutBounds(id: Id, scale: L.ScaleFactor) returns (b: G.Bounds)
      requires Valid() && id in nodes
      modifies this`absoluteBounds
      ensures Valid()
      ensures b == old(Absolute(id, scale))
      ensures id in old(absoluteBounds) ==> absoluteBounds == old(absoluteBounds)
      ensures id in absoluteBounds && absoluteBounds[id] == b
      ensures forall k | k in old(absoluteBounds) :: k in absoluteBounds && absoluteBounds[k] == old(absoluteBounds)[k]
      ensures forall k | k in absoluteBounds && k !in old(absoluteBounds) :: k in nodes && absoluteBounds[k] == old(Absolute(k, scale))
      decreases ceiling - rank[id]
    {
      if id in absoluteBounds {
        return absoluteBounds[id];
      }
      var own := Unscale(LocalOf(local, id), scale);
      b := own;
      if id in parent {
        ParentRanked(children, parent, rank, id);
        var above := LayoutBounds(parent[id], scale);
        b := G.Bounds(G.Point(own.origin.x + above.origin.x, own.origin.y + above.origin.y), own.size);
      }
      absoluteBounds := absoluteBounds[id := b];
    }
  }

  /** A fresh node adopting parentless known children keeps the tree well formed. */
  lemma AdoptKeepsTree(children: Graph.Adjacency, parent: map<Id, Id>, rank: map<Id, nat>, n: Id, kids: seq<Id>)
    requires Graph.Ranked(children, rank) && Graph.Closed(children) && n !in children
    requires ListedHaveParent(children, parent) && ParentsList(children, parent)
    requires forall k | k in kids :: k in children && k !in parent
    ensures var g := children[n := kids];
      && Graph.Ranked(g, rank[n := Graph.RankBound(children, rank, kids)]) && Graph.Closed(g)
      && ListedHaveParent(g, Adopted(parent, kids, n)) && ParentsList(g, Adopted(parent, kids, n))
  {
    var g := children[n := kids];
    var r := rank[n := Graph.RankBound(children, rank, kids)];
    var links := Adopted(parent, kids, n);
    forall p, i | p in g && 0 <= i < |g[p]| && g[p][i] in g
      ensures r[g[p][i]] < r[p]
    {
      if p == n {
        assert g[p][i] in kids;
      } else {
        assert g[p][i] == children[p][i] && children[p][i] in children;
      }
    }
    forall p, i | p in g && 0 <= i < |g[p]|
      ensures g[p][i] in g
    {
      if p == n {
        var k := g[p][i];
        assert k in kids;
        assert k in children;
      } else {
        assert g[p] == children[p] && children[p][i] in children;
      }
    }
    forall p, i | p in g && 0 <= i < |g[p]|
      ensures g[p][i] in links && links[g[p][i]] == p
    {
      if p == n {
        assert g[p][i] in kids;
      } else {
        var c := children[p][i];
        assert c in parent && parent[c] == p;
        assert c !in kids;
      }
    }
    forall c | c in links
      ensures c in g && links[c] in g && c in g[links[c]]
    {
      if c !in kids {
        assert c in parent && parent[c] in children && parent[c] != n;
      }
    }
  }
}
