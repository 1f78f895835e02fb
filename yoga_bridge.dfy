/*
 * The C++ side of the Yoga bridge (YogaBridge.cpp): translation of the
 * plain style record into Yoga's per-node style, the per-node measure
 * context, and the node store reached through raw handles.
 *
 * The Yoga library itself is abstracted: a node is its child list, its
 * style record, its measure context and measure function, its dirty flag
 * and its last computed layout; the layout solver is a function supplied
 * by the caller. Handles are never reused, so a handle that is not live
 * is one whose memory was freed: any use of it is recorded in the ghost
 * `faults` log instead of being undefined behaviour.
 */
module YogaBridge {
  import opened Wrappers
  import opened YogaFfiTypes
  import Graph
  import ChildLists

  // ----- Yoga's own value and enum types -----

  datatype YGUnit = YGUnitUndefined | YGUnitPoint | YGUnitPercent | YGUnitAuto

  datatype YGValue = YGValue(value: F32, unit: YGUnit)

  const YGUndefined: F32 := NaN

  /** What Yoga stores for a point length: NaN stores an undefined value. */
  function PointLength(v: F32): (r: YGValue)
    ensures r.unit == YGUnitUndefined <==> v.NaN?
  {
    if v.NaN? then YGValue(NaN, YGUnitUndefined) else YGValue(v, YGUnitPoint)
  }

  /** What Yoga stores for a percent length: NaN stores an undefined value. */
  function PercentLength(v: F32): (r: YGValue)
    ensures r.unit == YGUnitUndefined <==> v.NaN?
  {
    if v.NaN? then YGValue(NaN, YGUnitUndefined) else YGValue(v, YGUnitPercent)
  }

  const AutoLength := YGValue(NaN, YGUnitAuto)

  const UndefinedLength := YGValue(NaN, YGUnitUndefined)

  datatype YGDisplay = YGDisplayFlex | YGDisplayNone
  datatype YGPositionType = YGPositionTypeRelative | YGPositionTypeAbsolute
  datatype YGOverflow = YGOverflowVisible | YGOverflowHidden | YGOverflowScroll
  datatype YGFlexDirection = YGFlexDirectionColumn | YGFlexDirectionColumnReverse
                           | YGFlexDirectionRow | YGFlexDirectionRowReverse
  datatype YGWrap = YGWrapNoWrap | YGWrapWrap | YGWrapWrapReverse
  datatype YGAlign = YGAlignAuto | YGAlignFlexStart | YGAlignCenter | YGAlignFlexEnd
                   | YGAlignStretch | YGAlignBaseline | YGAlignSpaceBetween | YGAlignSpaceAround
  datatype YGJustify = YGJustifyFlexStart | YGJustifyCenter | YGJustifyFlexEnd
                     | YGJustifySpaceBetween | YGJustifySpaceAround | YGJustifySpaceEvenly
  datatype YGDirection = YGDirectionInherit | YGDirectionLTR | YGDirectionRTL

  datatype YGMeasureMode = YGMeasureModeUndefined | YGMeasureModeExactly | YGMeasureModeAtMost

  function YGMeasureModeDiscriminant(m: YGMeasureMode): nat
  {
    match m
    case YGMeasureModeUndefined => 0
    case YGMeasureModeExactly => 1
    case YGMeasureModeAtMost => 2
  }

  /** The `static_cast` of a Yoga measure mode to the bridge's measure mode. */
  function CastMeasureMode(m: YGMeasureMode): YogaMeasureMode
  {
    MeasureModeOf(YGMeasureModeDiscriminant(m)).value
  }

  /** Because the discriminants agree, the cast maps every mode to the mode of the same name. */
  lemma CastMeasureModeByName(m: YGMeasureMode)
    ensures m == YGMeasureModeUndefined <==> CastMeasureMode(m) == ModeUndefined
    ensures m == YGMeasureModeExactly <==> CastMeasureMode(m) == Exactly
    ensures m == YGMeasureModeAtMost <==> CastMeasureMode(m) == AtMost
  {
  }

  datatype YGSize = YGSize(width: real, height: real)

  datatype Edges<T> = Edges(left: T, top: T, right: T, bottom: T)

  datatype Edge = EdgeLeft | EdgeTop | EdgeRight | EdgeBottom

  function EdgeOf<T>(e: Edges<T>, edge: Edge): T
  {
    match edge
    case EdgeLeft => e.left
    case EdgeTop => e.top
    case EdgeRight => e.right
    case EdgeBottom => e.bottom
  }

  /** The style Yoga keeps on each node, field for field as the bridge sets it. */
  datatype NodeStyle = NodeStyle(
    display: YGDisplay,
    positionType: YGPositionType,
    overflow: YGOverflow,
    flexDirection: YGFlexDirection,
    flexWrap: YGWrap,
    justifyContent: YGJustify,
    alignItems: YGAlign,
    alignContent: YGAlign,
    alignSelf: YGAlign,
    margin: Edges<YGValue>,
    padding: Edges<YGValue>,
    border: Edges<F32>,
    position: Edges<YGValue>,
    width: YGValue,
    height: YGValue,
    minWidth: YGValue,
    minHeight: YGValue,
    maxWidth: YGValue,
    maxHeight: YGValue,
    flexBasis: YGValue,
    flexGrow: F32,
    flexShrink: F32,
    aspectRatio: F32,
    gapColumn: YGValue,
    gapRow: YGValue)

  const UndefinedEdges := Edges(UndefinedLength, UndefinedLength, UndefinedLength, UndefinedLength)

  /** Yoga's defaults for a freshly created node. */
  const DefaultNodeStyle := NodeStyle(
    YGDisplayFlex, YGPositionTypeRelative, YGOverflowVisible, YGFlexDirectionColumn, YGWrapNoWrap,
    YGJustifyFlexStart, YGAlignStretch, YGAlignFlexStart, YGAlignAuto,
    UndefinedEdges, UndefinedEdges, Edges(NaN, NaN, NaN, NaN), UndefinedEdges,
    AutoLength, AutoLength, UndefinedLength, UndefinedLength, UndefinedLength, UndefinedLength,
    AutoLength, NaN, NaN, NaN, UndefinedLength, UndefinedLength)

  // ----- style translation -----

  /** `to_yg_value`: Auto carries 0, Undefined carries NaN, the others keep their value. */
  function ToYgValue(v: YogaValue): (r: YGValue)
    ensures r.unit == YGUnitUndefined <==> v.unit == Undefined
    ensures v.unit == Point || v.unit == Percent ==> r.value == Num(v.value)
    ensures v.unit == Auto ==> r.value == Num(0.0)
  {
    match v.unit
    case Point => YGValue(Num(v.value), YGUnitPoint)
    case Percent => YGValue(Num(v.value), YGUnitPercent)
    case Auto => YGValue(Num(0.0), YGUnitAuto)
    case Undefined => YGValue(YGUndefined, YGUnitUndefined)
  }

  function ToYgDisplay(d: YogaDisplay): YGDisplay
  {
    match d
    case Flex => YGDisplayFlex
    case DisplayNone => YGDisplayNone
  }

  function ToYgPositionType(p: YogaPositionType): YGPositionType
  {
    match p
    case Relative => YGPositionTypeRelative
    case Absolute => YGPositionTypeAbsolute
  }

  function ToYgOverflow(o: YogaOverflow): YGOverflow
  {
    match o
    case Visible => YGOverflowVisible
    case Hidden => YGOverflowHidden
    case Scroll => YGOverflowScroll
  }

  function ToYgFlexDirection(d: YogaFlexDirection): YGFlexDirection
  {
    match d
    case Column => YGFlexDirectionColumn
    case ColumnReverse => YGFlexDirectionColumnReverse
    case Row => YGFlexDirectionRow
    case RowReverse => YGFlexDirectionRowReverse
  }

  function ToYgWrap(w: YogaWrap): YGWrap
  {
    match w
    case NoWrap => YGWrapNoWrap
    case Wrap => YGWrapWrap
    case WrapReverse => YGWrapWrapReverse
  }

  function ToYgAlign(a: YogaAlign): YGAlign
  {
    match a
    case AlignAuto => YGAlignAuto
    case AlignFlexStart => YGAlignFlexStart
    case AlignCenter => YGAlignCenter
    case AlignFlexEnd => YGAlignFlexEnd
    case AlignStretch => YGAlignStretch
    case AlignBaseline => YGAlignBaseline
    case AlignSpaceBetween => YGAlignSpaceBetween
    case AlignSpaceAround => YGAlignSpaceAround
  }

  function ToYgJustify(j: YogaJustify): YGJustify
  {
    match j
    case JustifyFlexStart => YGJustifyFlexStart
    case JustifyCenter => YGJustifyCenter
    case JustifyFlexEnd => YGJustifyFlexEnd
    case JustifySpaceBetween => YGJustifySpaceBetween
    case JustifySpaceAround => YGJustifySpaceAround
    case JustifySpaceEvenly => YGJustifySpaceEvenly
  }

  /** The translations of the enums are injective: distinct bridge values stay distinct. */
  lemma EnumTranslationsInjective(a1: YogaAlign, a2: YogaAlign, j1: YogaJustify, j2: YogaJustify,
                                  d1: YogaFlexDirection, d2: YogaFlexDirection)
    ensures ToYgAlign(a1) == ToYgAlign(a2) ==> a1 == a2
    ensures ToYgJustify(j1) == ToYgJustify(j2) ==> j1 == j2
    ensures ToYgFlexDirection(d1) == ToYgFlexDirection(d2) ==> d1 == d2
  {
  }

  /**
   * The value one of Yoga's length setters stores, as chosen by
   * `apply_dimension` / `apply_edge_value`: percent and point setters take
   * the magnitude, Auto uses the auto setter when the property has one and
   * otherwise the point setter with NaN, and Undefined uses the point setter
   * with NaN.
   */
  function ApplyDimension(v: YogaValue, hasAutoSetter: bool): (r: YGValue)
    ensures v.unit == Percent ==> r == YGValue(Num(v.value), YGUnitPercent)
    ensures v.unit == Point ==> r == YGValue(Num(v.value), YGUnitPoint)
    ensures v.unit == Auto && hasAutoSetter ==> r == AutoLength
    ensures v.unit == Auto && !hasAutoSetter ==> r == UndefinedLength
    ensures v.unit == Undefined ==> r == UndefinedLength
  {
    match v.unit
    case Percent => PercentLength(Num(v.value))
    case Point => PointLength(Num(v.value))
    case Auto => if hasAutoSetter then AutoLength else PointLength(YGUndefined)
    case Undefined => PointLength(YGUndefined)
  }

  /** `apply_edge_value`: set one edge of an edge-valued property and no other. */
  function ApplyEdgeValue(e: Edges<YGValue>, edge: Edge, v: YogaValue, hasAutoSetter: bool): (r: Edges<YGValue>)
    ensures EdgeOf(r, edge) == ApplyDimension(v, hasAutoSetter)
    ensures forall other: Edge | other != edge :: EdgeOf(r, other) == EdgeOf(e, other)
  {
    var x := ApplyDimension(v, hasAutoSetter);
    match edge
    case EdgeLeft => e.(left := x)
    case EdgeTop => e.(top := x)
    case EdgeRight => e.(right := x)
    case EdgeBottom => e.(bottom := x)
  }

  /** Left, top, right, bottom in turn, as `apply_style` does for margin, padding and inset. */
  function ApplyEdges(e: Edges<YGValue>, v: YogaEdges, hasAutoSetter: bool): Edges<YGValue>
  {
    var e1 := ApplyEdgeValue(e, EdgeLeft, v.left, hasAutoSetter);
    var e2 := ApplyEdgeValue(e1, EdgeTop, v.top, hasAutoSetter);
    var e3 := ApplyEdgeValue(e2, EdgeRight, v.right, hasAutoSetter);
    ApplyEdgeValue(e3, EdgeBottom, v.bottom, hasAutoSetter)
  }

  /** Setting the gap of one gutter, only when the unit is defined; the magnitude is set as points. */
  function ApplyGap(prev: YGValue, v: YogaValue): YGValue
  {
    if v.unit != Undefined then PointLength(ToYgValue(v).value) else prev
  }

  /**
   * `apply_style`: the node's style after every setter has run, starting
   * from the style it had. Grow, shrink and gaps whose flag or unit is off
   * keep their previous value; basis and aspect ratio are reset instead.
   */
  function ApplyStyle(prev: NodeStyle, s: YogaStyle): NodeStyle
  {
    prev.(
      display := ToYgDisplay(s.display),
      positionType := ToYgPositionType(s.positionType),
      overflow := ToYgOverflow(s.overflow),
      flexDirection := ToYgFlexDirection(s.flexDirection),
      flexWrap := ToYgWrap(s.flexWrap),
      justifyContent := ToYgJustify(s.justifyContent),
      alignItems := ToYgAlign(s.alignItems),
      alignContent := ToYgAlign(s.alignContent),
      alignSelf := ToYgAlign(s.alignSelf),
      margin := ApplyEdges(prev.margin, s.margin, true),
      padding := ApplyEdges(prev.padding, s.padding, false),
      border := Edges(Num(s.border.left.value), Num(s.border.top.value),
                      Num(s.border.right.value), Num(s.border.bottom.value)),
      position := ApplyEdges(prev.position, s.inset, false),
      width := ApplyDimension(s.size.width, true),
      height := ApplyDimension(s.size.height, true),
      minWidth := ApplyDimension(s.minSize.width, false),
      minHeight := ApplyDimension(s.minSize.height, false),
      maxWidth := ApplyDimension(s.maxSize.width, false),
      maxHeight := ApplyDimension(s.maxSize.height, false),
      flexBasis := if s.hasFlexBasis then ApplyDimension(s.flexBasis, true) else AutoLength,
      flexGrow := if s.hasFlexGrow then Num(s.flexGrow) else prev.flexGrow,
      flexShrink := if s.hasFlexShrink then Num(s.flexShrink) else prev.flexShrink,
      aspectRatio := if s.hasAspectRatio then s.aspectRatio else YGUndefined,
      gapColumn := ApplyGap(prev.gapColumn, s.gap.width),
      gapRow := ApplyGap(prev.gapRow, s.gap.height))
  }

  /** Replaces an Auto unit by Undefined, keeping the magnitude. */
  function AutoAsUndefined(v: YogaValue): YogaValue
  {
    if v.unit == Auto then v.(unit := Undefined) else v
  }

  function EdgesAutoAsUndefined(e: YogaEdges): YogaEdges
  {
    YogaEdges(AutoAsUndefined(e.left), AutoAsUndefined(e.top), AutoAsUndefined(e.right), AutoAsUndefined(e.bottom))
  }

  /**
   * Padding, inset, min-size and max-size have no auto setter, so Auto on
   * any of them is applied exactly as Undefined would be.
   */
  lemma AutoWithoutSetterIsUndefined(prev: NodeStyle, s: YogaStyle)
    ensures ApplyStyle(prev, s.(padding := EdgesAutoAsUndefined(s.padding),
                                inset := EdgesAutoAsUndefined(s.inset),
                                minSize := YogaStyleSize(AutoAsUndefined(s.minSize.width), AutoAsUndefined(s.minSize.height)),
                                maxSize := YogaStyleSize(AutoAsUndefined(s.maxSize.width), AutoAsUndefined(s.maxSize.height))))
            == ApplyStyle(prev, s)
  {
  }

  /** Every margin edge passes Auto through natively. */
  lemma AutoMarginIsNative(prev: NodeStyle, s: YogaStyle)
    ensures s.margin.left.unit == Auto ==> ApplyStyle(prev, s).margin.left == AutoLength
    ensures s.margin.top.unit == Auto ==> ApplyStyle(prev, s).margin.top == AutoLength
    ensures s.margin.right.unit == Auto ==> ApplyStyle(prev, s).margin.right == AutoLength
    ensures s.margin.bottom.unit == Auto ==> ApplyStyle(prev, s).margin.bottom == AutoLength
  {
  }

  /**
   * Width, height and flex basis pass Auto through natively, while padding
   * and minimum sizes, which have no Auto setter, become undefined.
   */
  lemma AutoWithSetterIsNative(prev: NodeStyle, s: YogaStyle)
    ensures s.size.width.unit == Auto ==> ApplyStyle(prev, s).width == AutoLength
    ensures s.size.height.unit == Auto ==> ApplyStyle(prev, s).height == AutoLength
    ensures s.hasFlexBasis && s.flexBasis.unit == Auto ==> ApplyStyle(prev, s).flexBasis == AutoLength
    ensures s.padding.left.unit == Auto ==> ApplyStyle(prev, s).padding.left == UndefinedLength
    ensures s.minSize.width.unit == Auto ==> ApplyStyle(prev, s).minWidth == UndefinedLength
  {
  }

  /** Border edges take only the magnitude: the unit of a border value is ignored. */
  lemma BorderIgnoresUnit(prev: NodeStyle, s: YogaStyle, u1: YogaValueUnit, u2: YogaValueUnit, u3: YogaValueUnit, u4: YogaValueUnit)
    ensures ApplyStyle(prev, s.(border := YogaEdges(s.border.left.(unit := u1), s.border.top.(unit := u2),
                                                    s.border.right.(unit := u3), s.border.bottom.(unit := u4))))
            == ApplyStyle(prev, s)
    ensures ApplyStyle(prev, s).border.left == Num(s.border.left.value)
  {
  }

  /**
   * Flags off: basis is reset to Auto and aspect ratio to undefined, while
   * grow and shrink keep whatever the node held before.
   */
  lemma FlagsOff(prev: NodeStyle, s: YogaStyle)
    ensures !s.hasFlexBasis ==> ApplyStyle(prev, s).flexBasis == AutoLength
    ensures !s.hasAspectRatio ==> ApplyStyle(prev, s).aspectRatio == NaN
    ensures !s.hasFlexGrow ==> ApplyStyle(prev, s).flexGrow == prev.flexGrow
    ensures !s.hasFlexShrink ==> ApplyStyle(prev, s).flexShrink == prev.flexShrink
    ensures s.hasFlexGrow ==> ApplyStyle(prev, s).flexGrow == Num(s.flexGrow)
  {
  }

  /**
   * A gap axis is forwarded only when its unit is defined; then the
   * magnitude is stored as points, whatever the unit (so a Percent gap
   * becomes a point gap of the same magnitude).
   */
  lemma GapForwarding(prev: NodeStyle, s: YogaStyle)
    ensures s.gap.width.unit == Undefined ==> ApplyStyle(prev, s).gapColumn == prev.gapColumn
    ensures s.gap.height.unit == Undefined ==> ApplyStyle(prev, s).gapRow == prev.gapRow
    ensures s.gap.width.unit in {Point, Percent} ==> ApplyStyle(prev, s).gapColumn == YGValue(Num(s.gap.width.value), YGUnitPoint)
    ensures s.gap.width.unit == Auto ==> ApplyStyle(prev, s).gapColumn == YGValue(Num(0.0), YGUnitPoint)
  {
  }

  /** Applying the same style twice is the same as applying it once. */
  lemma ApplyStyleIdempotent(prev: NodeStyle, s: YogaStyle)
    ensures ApplyStyle(ApplyStyle(prev, s), s) == ApplyStyle(prev, s)
  {
  }

  /**
   * Only grow, shrink and the two gaps can depend on the node's previous
   * style: two nodes given the same style agree on every other field.
   */
  lemma ApplyStyleHistory(p1: NodeStyle, p2: NodeStyle, s: YogaStyle)
    ensures var r1, r2 := ApplyStyle(p1, s), ApplyStyle(p2, s);
      r1 == r2.(flexGrow := r1.flexGrow, flexShrink := r1.flexShrink, gapColumn := r1.gapColumn, gapRow := r1.gapRow)
    ensures s.hasFlexGrow && s.hasFlexShrink && s.gap.width.unit != Undefined && s.gap.height.unit != Undefined
            ==> ApplyStyle(p1, s) == ApplyStyle(p2, s)
  {
  }

  // ----- layout calculation inputs -----

  /** `value_or_undefined`: only a Definite dimension passes its value. */
  function ValueOrUndefined(d: YogaAvailableDimension): (r: F32)
    ensures r.Num? <==> d.kind == Definite
    ensures r.Num? ==> r.v == d.value
  {
    if d.kind == Definite then Num(d.value) else YGUndefined
  }

  /** What the solver sees of the store: the child lists, styles and measured nodes. */
  datatype Tree = Tree(children: map<Handle, seq<Handle>>, styles: map<Handle, NodeStyle>, measured: set<Handle>)

  /** The measure function Yoga calls: node, width and mode, height and mode. */
  type MeasureOracle = (Handle, F32, YGMeasureMode, F32, YGMeasureMode) -> YGSize

  /**
   * The Yoga solver, left uninterpreted: given the tree, the root, the
   * available width and height, the direction and the measure function, it
   * yields a layout for each node.
   */
  type Solver = (Tree, Handle, F32, F32, YGDirection, MeasureOracle) -> (Handle -> YogaLayout)

  /**
   * `measure_proxy`: a node without a context measures (0, 0); otherwise the
   * inputs are forwarded with their modes cast, and the size the registry
   * reports is returned unchanged.
   */
  function MeasureProxy(contexts: map<Handle, MeasureId>, callbacks: map<MeasureId, MeasureCallback>, run: CallbackRunner,
                        node: Handle, width: F32, widthMode: YGMeasureMode, height: F32, heightMode: YGMeasureMode): (r: YGSize)
    ensures node !in contexts ==> r == YGSize(0.0, 0.0)
    ensures node in contexts ==>
      var s := YogaMeasure(callbacks, contexts[node], YogaMeasureInput(width, CastMeasureMode(widthMode)),
                           YogaMeasureInput(height, CastMeasureMode(heightMode)), run);
      r == YGSize(s.width, s.height)
  {
    if node !in contexts then YGSize(0.0, 0.0)
    else
      var widthInput := YogaMeasureInput(width, CastMeasureMode(widthMode));
      var heightInput := YogaMeasureInput(height, CastMeasureMode(heightMode));
      var result := YogaMeasure(callbacks, contexts[node], widthInput, heightInput, run);
      YGSize(result.width, result.height)
  }

  /** The measure function handed to the solver, over a snapshot of contexts and callbacks. */
  function ProxyOracle(contexts: map<Handle, MeasureId>, callbacks: map<MeasureId, MeasureCallback>, run: CallbackRunner): MeasureOracle
  {
    (node: Handle, w: F32, wm: YGMeasureMode, h: F32, hm: YGMeasureMode) => MeasureProxy(contexts, callbacks, run, node, w, wm, h, hm)
  }

  /** A node whose context was dropped measures (0, 0), even if its id was still registered. */
  lemma ProxyWithoutContext(contexts: map<Handle, MeasureId>, callbacks: map<MeasureId, MeasureCallback>, run: CallbackRunner,
                            node: Handle, w: F32, wm: YGMeasureMode, h: F32, hm: YGMeasureMode)
    ensures ProxyOracle(contexts - {node}, callbacks, run)(node, w, wm, h, hm) == YGSize(0.0, 0.0)
  {
  }

  /** `layouts` with the entries of `nodes` replaced by what the solver computed. */
  function Overlay(layouts: map<Handle, YogaLayout>, nodes: set<Handle>, computed: Handle -> YogaLayout): (r: map<Handle, YogaLayout>)
    ensures r.Keys == layouts.Keys
    ensures forall n | n in layouts && n !in nodes :: r[n] == layouts[n]
    ensures forall n | n in layouts && n in nodes :: r[n] == computed(n)
  {
    map n | n in layouts :: if n in nodes then computed(n) else layouts[n]
  }

  /** `m` without the entries of `gone`. */
  function Restrict<V>(m: map<Handle, V>, gone: set<Handle>): (r: map<Handle, V>)
    ensures r.Keys == m.Keys - gone
    ensures forall n | n in r :: r[n] == m[n]
  {
    map n | n in m && n !in gone :: m[n]
  }

  /** The ids of the contexts attached to the nodes of `nodes`. */
  function ContextIds(contexts: map<Handle, MeasureId>, nodes: set<Handle>): set<MeasureId>
  {
    set n | n in contexts && n in nodes :: contexts[n]
  }

  /** `contexts` without the entries of `nodes`. */
  function ContextsWithout(contexts: map<Handle, MeasureId>, nodes: set<Handle>): (r: map<Handle, MeasureId>)
    ensures r.Keys == contexts.Keys - nodes
  {
    map n | n in contexts && n !in nodes :: contexts[n]
  }

  /** `log` is `prefix` followed only by entries drawn from `ids`. */
  ghost predicate ExtendsWith(prefix: seq<MeasureId>, log: seq<MeasureId>, ids: set<MeasureId>)
  {
    |log| >= |prefix| && log[..|prefix|] == prefix &&
    forall j | |prefix| <= j < |log| :: log[j] in ids
  }

  /** The nodes of `nodes` that hold a context. */
  function Holders(contexts: map<Handle, MeasureId>, nodes: set<Handle>): set<Handle>
  {
    set n | n in contexts && n in nodes
  }

  /** The nodes of `nodes` whose context carries the id `id`. */
  function NodesWith(contexts: map<Handle, MeasureId>, nodes: set<Handle>, id: MeasureId): set<Handle>
  {
    set n | n in contexts && n in nodes && contexts[n] == id
  }

  /**
   * `log` is `prefix` followed by one notification for each node of `nodes`
   * that holds a context, carrying that context's id: an id occurs in the
   * new part exactly as often as nodes of `nodes` hold it.
   */
  ghost predicate NotifiedOnce(prefix: seq<MeasureId>, log: seq<MeasureId>,
                               contexts: map<Handle, MeasureId>, nodes: set<Handle>)
  {
    && |log| == |prefix| + |Holders(contexts, nodes)|
    && log[..|prefix|] == prefix
    && CountsMatch(log[|prefix|..], contexts, nodes)
  }

  /** How often `id` occurs in `added`. */
  function Occurrences(added: seq<MeasureId>, id: MeasureId): nat
  {
    multiset(added)[id]
  }

  /** Each id occurs in `added` exactly as often as nodes of `nodes` hold it. */
  ghost predicate CountsMatch(added: seq<MeasureId>, contexts: map<Handle, MeasureId>, nodes: set<Handle>)
  {
    forall id {:trigger Occurrences(added, id)} :: Occurrences(added, id) == |NodesWith(contexts, nodes, id)|
  }

  /** Dropping the context of one node, if it holds one, notifies once for that node. */
  lemma NotifiedOne(d0: seq<MeasureId>, d1: seq<MeasureId>, contexts: map<Handle, MeasureId>, node: Handle)
    requires node in contexts ==> d1 == d0 + [contexts[node]]
    requires node !in contexts ==> d1 == d0
    ensures NotifiedOnce(d0, d1, contexts, {node})
  {
    assert d1[..|d0|] == d0;
    var added := d1[|d0|..];
    if node in contexts {
      assert Holders(contexts, {node}) == {node};
      assert added == [contexts[node]];
      forall id
        ensures Occurrences(added, id) == |NodesWith(contexts, {node}, id)|
      {
        if contexts[node] == id {
          assert NodesWith(contexts, {node}, id) == {node};
        } else {
          assert NodesWith(contexts, {node}, id) == {};
        }
      }
    } else {
      assert Holders(contexts, {node}) == {};
      assert added == [];
      forall id
        ensures Occurrences(added, id) == |NodesWith(contexts, {node}, id)|
      {
        assert NodesWith(contexts, {node}, id) == {};
      }
    }
  }

  /** The context-holding nodes of `done + sub` are those of `done` and, apart from them, those of `sub`. */
  lemma HoldersSplit(c0: map<Handle, MeasureId>, done: set<Handle>, sub: set<Handle>)
    ensures |Holders(c0, done + sub)| == |Holders(c0, done)| + |Holders(ContextsWithout(c0, done), sub)|
  {
    var rest := ContextsWithout(c0, done);
    assert Holders(c0, done + sub) == Holders(c0, done) + Holders(rest, sub);
    assert Holders(c0, done) !! Holders(rest, sub);
  }

  /** The same split, for the nodes holding one id. */
  lemma NodesWithSplit(c0: map<Handle, MeasureId>, done: set<Handle>, sub: set<Handle>, id: MeasureId)
    ensures |NodesWith(c0, done + sub, id)| == |NodesWith(c0, done, id)| + |NodesWith(ContextsWithout(c0, done), sub, id)|
  {
    var rest := ContextsWithout(c0, done);
    assert NodesWith(c0, done + sub, id) == NodesWith(c0, done, id) + NodesWith(rest, sub, id);
    assert NodesWith(c0, done, id) !! NodesWith(rest, sub, id);
  }

  /**
   * Notifying for `done` and then, with those contexts gone, for `sub` is
   * notifying once for every node of the union.
   */
  lemma {:induction false} NotifiedTwice(d0: seq<MeasureId>, d1: seq<MeasureId>, d2: seq<MeasureId>,
                                         c0: map<Handle, MeasureId>, done: set<Handle>, sub: set<Handle>)
    requires NotifiedOnce(d0, d1, c0, done)
    requires NotifiedOnce(d1, d2, ContextsWithout(c0, done), sub)
    ensures NotifiedOnce(d0, d2, c0, done + sub)
  {
    PrefixTwice(d0, d1, d2);
    HoldersSplit(c0, done, sub);
    CountsAppend(d1[|d0|..], d2[|d1|..], c0, done, sub);
  }

  /** A log extending a log that extends `d0` extends `d0`, with both new parts in turn. */
  lemma PrefixTwice(d0: seq<MeasureId>, d1: seq<MeasureId>, d2: seq<MeasureId>)
    requires |d1| >= |d0| && d1[..|d0|] == d0
    requires |d2| >= |d1| && d2[..|d1|] == d1
    ensures d2[..|d0|] == d0 && d2[|d0|..] == d1[|d0|..] + d2[|d1|..]
  {
    var a1, a2 := d1[|d0|..], d2[|d1|..];
    assert d1 == d0 + a1;
    assert d2 == d1 + a2;
    assert d2 == d0 + (a1 + a2);
  }

  /** Counts for `done` followed by counts for `sub`, with `done`'s contexts gone, are counts for the union. */
  lemma CountsAppend(a1: seq<MeasureId>, a2: seq<MeasureId>, c0: map<Handle, MeasureId>, done: set<Handle>, sub: set<Handle>)
    requires CountsMatch(a1, c0, done)
    requires CountsMatch(a2, ContextsWithout(c0, done), sub)
    ensures CountsMatch(a1 + a2, c0, done + sub)
  {
    assert multiset(a1 + a2) == multiset(a1) + multiset(a2);
    forall id
      ensures Occurrences(a1 + a2, id) == |NodesWith(c0, done + sub, id)|
    {
      assert Occurrences(a1 + a2, id) == Occurrences(a1, id) + Occurrences(a2, id);
      NodesWithSplit(c0, done, sub, id);
    }
  }

  /** An id some node of `nodes` holds is one of their context ids. */
  lemma HeldIsContext(contexts: map<Handle, MeasureId>, nodes: set<Handle>, id: MeasureId)
    ensures NodesWith(contexts, nodes, id) != {} ==> id in ContextIds(contexts, nodes)
  {
    if NodesWith(contexts, nodes, id) != {} {
      ChildLists.Occupied(NodesWith(contexts, nodes, id));
      var n :| n in NodesWith(contexts, nodes, id);
    }
  }

  /**
   * Notifying once per context-holding node logs only ids of the released
   * contexts, and logs every one of them.
   */
  lemma NotifiedExtends(d0: seq<MeasureId>, d1: seq<MeasureId>, contexts: map<Handle, MeasureId>, nodes: set<Handle>)
    requires NotifiedOnce(d0, d1, contexts, nodes)
    ensures ExtendsWith(d0, d1, ContextIds(contexts, nodes))
    ensures forall id | id in ContextIds(contexts, nodes) :: id in d1[|d0|..]
  {
    var added := d1[|d0|..];
    forall j | |d0| <= j < |d1|
      ensures d1[j] in ContextIds(contexts, nodes)
    {
      assert d1[j] == added[j - |d0|];
      assert Occurrences(added, d1[j]) > 0;
      HeldIsContext(contexts, nodes, d1[j]);
    }
    forall id | id in ContextIds(contexts, nodes)
      ensures id in added
    {
      var n :| n in contexts && n in nodes && contexts[n] == id;
      assert n in NodesWith(contexts, nodes, id);
      assert Occurrences(added, id) > 0;
    }
  }

  /** Removing two key sets one after the other removes their union. */
  lemma RemoveTwice<V>(m: map<MeasureId, V>, a: set<MeasureId>, b: set<MeasureId>)
    ensures (m - a) - b == m - (b + a)
  {
  }

  /** Releasing one node releases its context alone. */
  lemma ReleaseOne(c0: map<Handle, MeasureId>, node: Handle)
    ensures ContextsWithout(c0, {node}) == c0 - {node}
    ensures ContextIds(c0, {node}) == if node in c0 then {c0[node]} else {}
  {
  }

  /** Releasing two groups of nodes one after the other releases their union. */
  lemma ReleaseInSteps(c0: map<Handle, MeasureId>, before: set<Handle>, sub: set<Handle>)
    ensures ContextsWithout(ContextsWithout(c0, before), sub) == ContextsWithout(c0, before + sub)
    ensures ContextIds(ContextsWithout(c0, before), sub) + ContextIds(c0, before) == ContextIds(c0, before + sub)
  {
    var lhs := ContextIds(ContextsWithout(c0, before), sub) + ContextIds(c0, before);
    forall id | id in ContextIds(c0, before + sub)
      ensures id in lhs
    {
      var n :| n in c0 && n in before + sub && c0[n] == id;
      if n !in before {
        assert n in ContextsWithout(c0, before);
      }
    }
  }

  /** Every per-node table covers exactly, or only, the live nodes. */
  ghost predicate TablesCover(live: set<Handle>, styles: map<Handle, NodeStyle>,
                              layouts: map<Handle, YogaLayout>, contexts: map<Handle, MeasureId>,
                              dirty: set<Handle>, measured: set<Handle>)
  {
    && styles.Keys == live && layouts.Keys == live
    && contexts.Keys <= live && dirty <= live && measured <= live
    && (forall n | n in contexts :: contexts[n] != 0)
  }

  /** Live handles are non-null and were handed out; freed handles are not live. */
  ghost predicate HandlesIssued(live: set<Handle>, nextHandle: Handle, freed: set<Handle>)
  {
    && nextHandle >= 1
    && (forall h | h in live :: 0 < h < nextHandle)
    && (forall h | h in freed :: 0 < h < nextHandle && h !in live)
  }

  /** Forgetting a set of context-free live nodes keeps the tables aligned with the graph. */
  lemma ForgetKeepsTables(live: set<Handle>, styles: map<Handle, NodeStyle>,
                          layouts: map<Handle, YogaLayout>, contexts: map<Handle, MeasureId>,
                          dirty: set<Handle>, measured: set<Handle>, gone: set<Handle>)
    requires TablesCover(live, styles, layouts, contexts, dirty, measured)
    requires forall n | n in gone :: n in live && n !in contexts
    ensures TablesCover(live - gone, Restrict(styles, gone), Restrict(layouts, gone),
                        contexts, dirty - gone, measured - gone)
  {
    forall n | n in contexts
      ensures n in live - gone
    {
      assert n in live;
    }
  }

  /** Forgetting live nodes moves them to the freed handles. */
  lemma ForgetKeepsHandles(live: set<Handle>, nextHandle: Handle, freed: set<Handle>, gone: set<Handle>)
    requires HandlesIssued(live, nextHandle, freed) && gone <= live
    ensures HandlesIssued(live - gone, nextHandle, freed + gone)
  {
  }

  /**
   * The Yoga node memory the bridge reaches through handles, with the
   * registry the C++ side notifies when it drops a measure context.
   */
  class NodeStore {
    var children: map<Handle, seq<Handle>>
    var styles: map<Handle, NodeStyle>
    var contexts: map<Handle, MeasureId>
    var measured: set<Handle>
    var dirty: set<Handle>
    var layouts: map<Handle, YogaLayout>
    var nextHandle: Handle
    ghost var rank: map<Handle, nat>
    ghost var freed: set<Handle>
    ghost var faults: seq<Handle>
    const registry: MeasureRegistry

    /** The live nodes form a closed, acyclic graph. */
    ghost predicate Shape()
      reads this`children, this`rank
    {
      Graph.Ranked(children, rank) && Graph.Closed(children)
    }

    /** Every per-node table covers exactly, or only, the live nodes. */
    ghost predicate Tables()
      reads this`children, this`styles, this`layouts, this`contexts, this`dirty, this`measured
    {
      TablesCover(children.Keys, styles, layouts, contexts, dirty, measured)
    }

    /** Live handles are non-null and were handed out; freed handles are not live. */
    ghost predicate Handles()
      reads this`children, this`nextHandle, this`freed
    {
      HandlesIssued(children.Keys, nextHandle, freed)
    }

    ghost predicate Structure()
      reads this`children, this`rank, this`styles, this`layouts, this`contexts, this`dirty, this`measured,
            this`nextHandle, this`freed, registry
    {
      registry.Valid() && Shape() && Tables() && Handles()
    }

    /** Between bridge calls, a node has the measure proxy installed iff it holds a context. */
    ghost predicate Valid()
      reads this`children, this`rank, this`styles, this`layouts, this`contexts, this`dirty, this`measured,
            this`nextHandle, this`freed, registry
    {
      Structure() && measured == contexts.Keys
    }

    /** The store stays valid while none of the state its validity reads changes. */
    twostate lemma ValidKept()
      requires old(Valid())
      requires unchanged(this`children, this`rank, this`styles, this`layouts, this`contexts, this`dirty, this`measured,
                         this`nextHandle, this`freed, registry)
      ensures Valid()
    {
    }

    ghost function Snapshot(): Tree
      reads this`children, this`styles, this`measured
    {
      Tree(children, styles, measured)
    }

    constructor(registry: MeasureRegistry)
      requires registry.Valid()
      ensures Valid() && this.registry == registry
      ensures children == map[] && contexts == map[] && nextHandle == 1 && freed == {} && faults == []
    {
      this.registry := registry;
      children := map[];
      styles := map[];
      contexts := map[];
      measured := {};
      dirty := {};
      layouts := map[];
      nextHandle := 1;
      rank := map[];
      freed := {};
      faults := [];
    }

    /** `yoga_create_node`: a fresh, non-null node with no children and Yoga's default style. */
    method CreateNode() returns (h: Handle)
      requires Valid()
      modifies this`nextHandle, this`children, this`styles, this`layouts, this`rank
      ensures Valid()
      ensures h == old(nextHandle) && h != NullHandle && h !in old(children) && h !in freed
      ensures children == old(children)[h := []]
      ensures styles == old(styles)[h := DefaultNodeStyle]
      ensures layouts == old(layouts)[h := ZeroLayout]
      ensures nextHandle == h + 1
    {
      h := nextHandle;
      Graph.AddLeaf(children, rank, h);
      nextHandle := nextHandle + 1;
      children := children[h := []];
      styles := styles[h := DefaultNodeStyle];
      layouts := layouts[h := ZeroLayout];
      rank := rank[h := 0];
    }

    /**
     * `drop_measure_context`: a node holding a context notifies the registry
     * once with the context's id and loses the context; its measure function
     * is left as it was.
     */
    method DropMeasureContext(node: Handle)
      requires Structure() && (node == NullHandle || node in children)
      modifies this`contexts, registry
      ensures Structure()
      ensures contexts == old(contexts) - {node}
      ensures node in old(contexts) ==>
        registry.callbacks == old(registry.callbacks) - {old(contexts)[node]} &&
        registry.drops == old(registry.drops) + [old(contexts)[node]]
      ensures node !in old(contexts) ==>
        registry.callbacks == old(registry.callbacks) && registry.drops == old(registry.drops)
      ensures registry.nextMeasureId == old(registry.nextMeasureId)
    {
      if node == NullHandle {
        return;
      }
      if node in contexts {
        registry.DropMeasure(contexts[node]);
        contexts := contexts - {node};
      }
    }

    /**
     * `release_measure_recursive`: drop the context of `node` and then,
     * child by child, of every node below it. Every context in the subtree
     * is gone afterwards, and the registry is notified once for each node of
     * the subtree that held a context, with that context's id.
     */
    method ReleaseMeasureRecursive(node: Handle)
      requires Structure() && node in children
      modifies this`contexts, registry
      ensures Structure()
      ensures contexts == ContextsWithout(old(contexts), Graph.Reach(children, rank, node))
      ensures registry.callbacks == old(registry.callbacks) - ContextIds(old(contexts), Graph.Reach(children, rank, node))
      ensures NotifiedOnce(old(registry.drops), registry.drops, old(contexts), Graph.Reach(children, rank, node))
      ensures ExtendsWith(old(registry.drops), registry.drops, ContextIds(old(contexts), Graph.Reach(children, rank, node)))
      ensures forall id | id in ContextIds(old(contexts), Graph.Reach(children, rank, node)) ::
        id in registry.drops[|old(registry.drops)|..]
      ensures registry.nextMeasureId == old(registry.nextMeasureId)
      decreases rank[node], 2
    {
      DropMeasureContext(node);
      ghost var c0 := old(contexts);
      ReleaseOne(c0, node);
      NotifiedOne(old(registry.drops), registry.drops, c0, node);
      ReleaseChildren(node, c0, old(registry.callbacks), old(registry.drops));
      NotifiedExtends(old(registry.drops), registry.drops, c0, Graph.Reach(children, rank, node));
    }

    /**
     * The loop of `release_measure_recursive`: once `node`'s own context is
     * released, the subtrees of its children are released one by one.
     */
    method ReleaseChildren(node: Handle, ghost c0: map<Handle, MeasureId>,
                           ghost cb0: map<MeasureId, MeasureCallback>, ghost d0: seq<MeasureId>)
      requires Structure() && node in children
      requires contexts == ContextsWithout(c0, {node})
      requires registry.callbacks == cb0 - ContextIds(c0, {node})
      requires NotifiedOnce(d0, registry.drops, c0, {node})
      modifies this`contexts, registry
      ensures Structure()
      ensures contexts == ContextsWithout(c0, Graph.Reach(children, rank, node))
      ensures registry.callbacks == cb0 - ContextIds(c0, Graph.Reach(children, rank, node))
      ensures NotifiedOnce(d0, registry.drops, c0, Graph.Reach(children, rank, node))
      ensures registry.nextMeasureId == old(registry.nextMeasureId)
      decreases rank[node], 1
    {
      var kids := children[node];
      var i := 0;
      ghost var done := {node};
      while i < |kids|
        invariant registry.Valid() && Tables()
        invariant 0 <= i <= |kids|
        invariant registry.nextMeasureId == old(registry.nextMeasureId)
        invariant forall k | k in kids :: k in children && rank[k] < rank[node]
        invariant done == {node} + Graph.ReachAll(children, rank, kids[..i], rank[node])
        invariant contexts == ContextsWithout(c0, done)
        invariant registry.callbacks == cb0 - ContextIds(c0, done)
        invariant NotifiedOnce(d0, registry.drops, c0, done)
      {
        ReleaseChild(node, kids[i], c0, cb0, d0, done);
        Graph.ReachAllStep(children, rank, kids, i, rank[node]);
        done := done + Graph.Reach(children, rank, kids[i]);
        i := i + 1;
      }
      assert kids[..i] == kids;
      assert done == Graph.Reach(children, rank, node);
    }

    /**
     * One pass of the loop of `release_measure_recursive`: the subtree of
     * the child `kid` is released after the nodes of `done`, so the contexts,
     * callbacks and notifications are those of releasing both.
     */
    method ReleaseChild(node: Handle, kid: Handle, ghost c0: map<Handle, MeasureId>,
                        ghost cb0: map<MeasureId, MeasureCallback>, ghost d0: seq<MeasureId>, ghost done: set<Handle>)
      requires Structure() && node in children && kid in children && rank[kid] < rank[node]
      requires contexts == ContextsWithout(c0, done)
      requires registry.callbacks == cb0 - ContextIds(c0, done)
      requires NotifiedOnce(d0, registry.drops, c0, done)
      modifies this`contexts, registry
      ensures Structure()
      ensures contexts == ContextsWithout(c0, done + Graph.Reach(children, rank, kid))
      ensures registry.callbacks == cb0 - ContextIds(c0, done + Graph.Reach(children, rank, kid))
      ensures NotifiedOnce(d0, registry.drops, c0, done + Graph.Reach(children, rank, kid))
      ensures registry.nextMeasureId == old(registry.nextMeasureId)
      decreases rank[node], 0
    {
      ghost var dBefore := registry.drops;
      ReleaseMeasureRecursive(kid);
      ghost var sub := Graph.Reach(children, rank, kid);
      ReleaseInSteps(c0, done, sub);
      RemoveTwice(cb0, ContextIds(c0, done), ContextIds(ContextsWithout(c0, done), sub));
      NotifiedTwice(d0, dBefore, registry.drops, c0, done, sub);
    }

    /**
     * Drops the table entries of the nodes of `gone` and records them as
     * freed; the tables then fit the graph without those nodes.
     */
    method ForgetTables(gone: set<Handle>)
      requires Tables() && Handles() && measured == contexts.Keys + gone * measured
      requires forall n | n in gone :: n in children && n !in contexts
      modifies this`styles, this`layouts, this`measured, this`dirty, this`freed
      ensures TablesCover(children.Keys - gone, styles, layouts, contexts, dirty, measured)
      ensures HandlesIssued(children.Keys - gone, nextHandle, freed)
      ensures measured == contexts.Keys
      ensures freed == old(freed) + gone
      ensures styles == Restrict(old(styles), gone) && layouts == Restrict(old(layouts), gone)
    {
      ForgetKeepsTables(children.Keys, styles, layouts, contexts, dirty, measured, gone);
      ForgetKeepsHandles(children.Keys, nextHandle, freed, gone);
      styles := Restrict(styles, gone);
      layouts := Restrict(layouts, gone);
      measured := measured - gone;
      dirty := dirty - gone;
      freed := freed + gone;
    }

    /** Removes the nodes of `gone` and every edge into them from the graph. */
    method PruneChildren(gone: set<Handle>)
      requires Shape()
      modifies this`children
      ensures Shape()
      ensures children == Graph.Prune(old(children), gone)
    {
      Graph.PruneKeepsShape(children, rank, gone);
      children := Graph.Prune(children, gone);
    }

    /**
     * `yoga_free_node`: a null handle is a no-op; otherwise every measure
     * context in the subtree is released, with one drop notification per
     * context, and only then is the subtree's memory freed (the freed nodes
     * also leave every remaining child list).
     */
    method FreeNode(h: Handle)
      requires Valid()
      modifies this`children, this`styles, this`layouts, this`measured, this`dirty, this`freed,
               this`contexts, this`faults, registry
      ensures Valid()
      ensures h !in old(children) ==>
        && children == old(children) && styles == old(styles) && layouts == old(layouts)
        && contexts == old(contexts) && registry.callbacks == old(registry.callbacks)
        && registry.drops == old(registry.drops)
        && faults == old(faults) + (if h == NullHandle then [] else [h])
      ensures h in old(children) ==>
        var gone := Graph.Reach(old(children), old(rank), h);
        && children == Graph.Prune(old(children), gone)
        && styles == Restrict(old(styles), gone) && layouts == Restrict(old(layouts), gone)
        && freed == old(freed) + gone
        && faults == old(faults)
        && contexts == ContextsWithout(old(contexts), gone)
        && registry.callbacks == old(registry.callbacks) - ContextIds(old(contexts), gone)
        && NotifiedOnce(old(registry.drops), registry.drops, old(contexts), gone)
      ensures registry.nextMeasureId == old(registry.nextMeasureId)
    {
      if h == NullHandle {
        return;
      }
      if h !in children {
        faults := faults + [h];
        return;
      }
      ReleaseMeasureRecursive(h);
      var gone := Graph.Reach(children, rank, h);
      ForgetTables(gone);
      PruneChildren(gone);
    }

    /** `yoga_set_style`: the node's style becomes `ApplyStyle` of its previous style. */
    method SetStyle(h: Handle, style: YogaStyle)
      requires Valid()
      modifies this`styles, this`faults
      ensures Valid()
      ensures h in children ==> styles == old(styles)[h := ApplyStyle(old(styles)[h], style)] && faults == old(faults)
      ensures h !in children ==> styles == old(styles) && faults == old(faults) + (if h == NullHandle then [] else [h])
    {
      if h == NullHandle {
        return;
      }
      if h !in children {
        faults := faults + [h];
        return;
      }
      styles := styles[h := ApplyStyle(styles[h], style)];
    }

    /** The vector of node references `yoga_set_children` builds from the handles. */
    static method CollectRefs(kids: seq<Handle>) returns (refs: seq<Handle>)
      ensures refs == kids
    {
      refs := [];
      var i := 0;
      while i < |kids|
        invariant 0 <= i <= |kids| && refs == kids[..i]
      {
        refs := refs + [kids[i]];
        i := i + 1;
      }
    }

    /** Some node of `kids` reaches `parent`: making them its children would close a cycle. */
    predicate ClosesCycle(parent: Handle, kids: seq<Handle>)
      requires Shape()
      reads this`children, this`rank
    {
      exists k :: k in kids && k in children && parent in Graph.Reach(children, rank, k)
    }

    /**
     * `yoga_set_children`: the handles, copied into a vector, become the
     * parent's child list (an empty vector removes all children). Yoga's
     * nodes form a tree, so a list that would close a cycle is outside its
     * contract: the store records it as a fault and changes nothing.
     */
    method SetChildren(parent: Handle, kids: seq<Handle>)
      requires Valid()
      modifies this`children, this`rank, this`faults
      ensures Valid()
      ensures parent !in old(children) ==>
        children == old(children) && faults == old(faults) + (if parent == NullHandle then [] else [parent])
      ensures parent in old(children) && (forall k | k in kids :: k in old(children)) && !old(ClosesCycle(parent, kids)) ==>
        children == old(children)[parent := kids] && faults == old(faults)
      ensures parent in old(children) && (forall k | k in kids :: k in old(children)) && old(ClosesCycle(parent, kids)) ==>
        children == old(children) && faults == old(faults) + [parent]
      ensures parent in old(children) && !(forall k | k in kids :: k in old(children)) ==>
        children == old(children) && |faults| == |old(faults)| + 1 && faults[..|old(faults)|] == old(faults)
      ensures children.Keys == old(children).Keys
    {
      if parent == NullHandle {
        return;
      }
      if parent !in children {
        faults := faults + [parent];
        return;
      }
      var refs := CollectRefs(kids);
      if exists k :: k in refs && k !in children {
        var k :| k in refs && k !in children;
        faults := faults + [k];
        return;
      }
      if ClosesCycle(parent, refs) {
        faults := faults + [parent];
        return;
      }
      if refs == [] {
        Rewire(parent, []);
      } else {
        Rewire(parent, refs);
      }
    }

    /** Replaces the child list of a live node by live nodes that do not reach it. */
    method Rewire(parent: Handle, kids: seq<Handle>)
      requires Shape() && parent in children && forall k | k in kids :: k in children
      requires forall k | k in kids :: parent !in Graph.Reach(children, rank, k)
      modifies this`children, this`rank
      ensures Shape()
      ensures children == old(children)[parent := kids] && children.Keys == old(children).Keys
    {
      Graph.Reparent(children, rank, parent, kids);
      Graph.ReparentClosed(children, parent, kids);
      rank := Graph.Reranked(children, rank, parent, kids);
      children := children[parent := kids];
    }

    /** `yoga_mark_dirty`. */
    method MarkDirty(h: Handle)
      requires Valid()
      modifies this`dirty, this`faults
      ensures Valid()
      ensures h in children ==> dirty == old(dirty) + {h} && faults == old(faults)
      ensures h !in children ==> dirty == old(dirty) && faults == old(faults) + (if h == NullHandle then [] else [h])
    {
      if h == NullHandle {
        return;
      }
      if h !in children {
        faults := faults + [h];
        return;
      }
      dirty := dirty + {h};
    }

    /**
     * `yoga_set_measure`: id 0 removes the measure function and drops any
     * context; another id drops the old context first and then installs a
     * fresh context holding that id, with the measure proxy. Either way the
     * node ends with at most one context.
     */
    method SetMeasure(h: Handle, id: MeasureId)
      requires Valid()
      modifies this`contexts, this`measured, this`faults, registry
      ensures Valid()
      ensures h in children && id == 0 ==> contexts == old(contexts) - {h} && h !in measured
      ensures h in children && id != 0 ==> contexts == old(contexts)[h := id] && h in measured
      ensures h in children && h in old(contexts) ==>
        registry.callbacks == old(registry.callbacks) - {old(contexts)[h]} &&
        registry.drops == old(registry.drops) + [old(contexts)[h]]
      ensures !(h in children && h in old(contexts)) ==>
        registry.callbacks == old(registry.callbacks) && registry.drops == old(registry.drops)
      ensures h !in children ==> contexts == old(contexts) && faults == old(faults) + (if h == NullHandle then [] else [h])
      ensures h in children ==> faults == old(faults)
      ensures registry.nextMeasureId == old(registry.nextMeasureId)
    {
      if h == NullHandle {
        return;
      }
      if h !in children {
        faults := faults + [h];
        return;
      }
      if id == 0 {
        measured := measured - {h};
        DropMeasureContext(h);
        return;
      }
      DropMeasureContext(h);
      contexts := contexts[h := id];
      measured := measured + {h};
    }

    /** `yoga_clear_measure`: remove the measure function and drop any context. */
    method ClearMeasure(h: Handle)
      requires Valid()
      modifies this`contexts, this`measured, this`faults, registry
      ensures Valid()
      ensures h in children ==> contexts == old(contexts) - {h} && h !in measured && faults == old(faults)
      ensures h in children && h in old(contexts) ==>
        registry.callbacks == old(registry.callbacks) - {old(contexts)[h]} &&
        registry.drops == old(registry.drops) + [old(contexts)[h]]
      ensures !(h in children && h in old(contexts)) ==>
        registry.callbacks == old(registry.callbacks) && registry.drops == old(registry.drops)
      ensures h !in children ==> contexts == old(contexts) && faults == old(faults) + (if h == NullHandle then [] else [h])
      ensures registry.nextMeasureId == old(registry.nextMeasureId)
    {
      if h == NullHandle {
        return;
      }
      if h !in children {
        faults := faults + [h];
        return;
      }
      measured := measured - {h};
      DropMeasureContext(h);
    }

    /**
     * `yoga_calculate_layout`: run the solver on the subtree of `h`, left to
     * right, with only Definite available dimensions passed as numbers and
     * the measure proxy as measure function; the subtree's layouts become
     * the solver's.
     */
    method CalculateLayout(h: Handle, available: YogaAvailableSize, solver: Solver, run: CallbackRunner)
      requires Valid()
      modifies this`layouts, this`faults
      ensures Valid()
      ensures h in children ==>
        layouts == Overlay(old(layouts), Graph.Reach(children, rank, h),
                           solver(Snapshot(), h, ValueOrUndefined(available.width), ValueOrUndefined(available.height),
                                  YGDirectionLTR, ProxyOracle(contexts, registry.callbacks, run)))
        && faults == old(faults)
      ensures h !in children ==> layouts == old(layouts) && faults == old(faults) + (if h == NullHandle then [] else [h])
    {
      if h == NullHandle {
        return;
      }
      if h !in children {
        faults := faults + [h];
        return;
      }
      var width := ValueOrUndefined(available.width);
      var height := ValueOrUndefined(available.height);
      var computed := solver(Tree(children, styles, measured), h, width, height, YGDirectionLTR,
                             ProxyOracle(contexts, registry.callbacks, run));
      layouts := Overlay(layouts, Graph.Reach(children, rank, h), computed);
    }

    /** `yoga_layout`: the node's last computed layout; all zeros for a null handle. */
    method Layout(h: Handle) returns (l: YogaLayout)
      requires Valid()
      modifies this`faults
      ensures Valid()
      ensures h in children ==> l == layouts[h] && faults == old(faults)
      ensures h !in children ==> l == ZeroLayout && faults == old(faults) + (if h == NullHandle then [] else [h])
    {
      if h == NullHandle {
        return ZeroLayout;
      }
      if h !in children {
        faults := faults + [h];
        return ZeroLayout;
      }
      l := layouts[h];
    }
  }
}
