/*
 * `convert_style_to_yoga` (crates/gpui/src/yoga/style_conversion.rs): the
 * pure mapping from a GPUI style to the plain record the C++ bridge
 * applies, and what that record becomes once `apply_style` has run.
 *
 * Lengths are scaled to device pixels (`px * scale_factor`), rems go
 * through the rem size first, and fractions become Yoga percentages on a
 * 0..100 scale.
 */
module StyleConversion {
  import opened Wrappers
  import opened YogaFfiTypes
  import G = GpuiStyle
  import YogaBridge

  function ConvertPosition(p: G.Position): (r: YogaPositionType)
    ensures r.Absolute? <==> p.Absolute?
  {
    match p
    case Relative => Relative
    case Absolute => Absolute
  }

  /** Yoga has a single overflow value; Hidden and Clip both become Hidden. */
  function ConvertOverflow(o: G.Overflow): (r: YogaOverflow)
    ensures r == Hidden <==> o == G.Hidden || o == G.Clip
    ensures r == Visible <==> o == G.Visible
    ensures r == Scroll <==> o == G.Scroll
  {
    match o
    case Visible => Visible
    case Hidden => Hidden
    case Clip => Hidden
    case Scroll => Scroll
  }

  function ConvertFlexDirection(d: G.FlexDirection): (r: YogaFlexDirection)
    ensures d.Row? <==> r.Row?
    ensures d.Column? <==> r.Column?
    ensures d.RowReverse? <==> r.RowReverse?
    ensures d.ColumnReverse? <==> r.ColumnReverse?
  {
    match d
    case Row => Row
    case Column => Column
    case RowReverse => RowReverse
    case ColumnReverse => ColumnReverse
  }

  function ConvertFlexWrap(w: G.FlexWrap): (r: YogaWrap)
    ensures w.NoWrap? <==> r.NoWrap?
    ensures w.Wrap? <==> r.Wrap?
    ensures w.WrapReverse? <==> r.WrapReverse?
  {
    match w
    case NoWrap => NoWrap
    case Wrap => Wrap
    case WrapReverse => WrapReverse
  }

  /** Unset and Stretch (which Yoga's justify lacks) both become FlexStart. */
  function ConvertJustifyContent(j: Option<G.JustifyContent>): (r: YogaJustify)
    ensures j.None? ==> r == JustifyFlexStart
    ensures j == Some(G.Stretch) ==> r == JustifyFlexStart
    ensures r == JustifyFlexStart <==> j in {None, Some(G.Start), Some(G.FlexStart), Some(G.Stretch)}
  {
    match j
    case None => JustifyFlexStart
    case Some(v) =>
      match v
      case Start => JustifyFlexStart
      case FlexStart => JustifyFlexStart
      case Center => JustifyCenter
      case End => JustifyFlexEnd
      case FlexEnd => JustifyFlexEnd
      case SpaceBetween => JustifySpaceBetween
      case SpaceAround => JustifySpaceAround
      case SpaceEvenly => JustifySpaceEvenly
      case Stretch => JustifyFlexStart
  }

  /** The mapping shared by `align-items` and `align-self` for a set value. */
  function ConvertAlign(a: G.AlignItems): (r: YogaAlign)
    ensures r in {AlignFlexStart, AlignCenter, AlignFlexEnd, AlignStretch, AlignBaseline}
  {
    match a
    case ItemsStart => AlignFlexStart
    case ItemsFlexStart => AlignFlexStart
    case ItemsCenter => AlignCenter
    case ItemsEnd => AlignFlexEnd
    case ItemsFlexEnd => AlignFlexEnd
    case ItemsStretch => AlignStretch
    case ItemsBaseline => AlignBaseline
  }

  /** An unset `align-items` is Stretch. */
  function ConvertAlignItems(a: Option<G.AlignItems>): (r: YogaAlign)
    ensures a.None? ==> r == AlignStretch
    ensures r != AlignAuto
  {
    match a
    case None => AlignStretch
    case Some(v) => ConvertAlign(v)
  }

  /** An unset `align-self` is Auto, which only an unset value produces. */
  function ConvertAlignSelf(a: Option<G.AlignSelf>): (r: YogaAlign)
    ensures r == AlignAuto <==> a.None?
  {
    match a
    case None => AlignAuto
    case Some(v) => ConvertAlign(v)
  }

  /** An unset `align-content` is FlexStart; SpaceEvenly, which Yoga lacks here, becomes SpaceAround. */
  function ConvertAlignContent(a: Option<G.AlignContent>): (r: YogaAlign)
    ensures a.None? ==> r == AlignFlexStart
    ensures a == Some(G.SpaceEvenly) ==> r == AlignSpaceAround
    ensures r == AlignSpaceAround <==> a in {Some(G.SpaceAround), Some(G.SpaceEvenly)}
    ensures r != AlignAuto && r != AlignBaseline
  {
    match a
    case None => AlignFlexStart
    case Some(v) =>
      match v
      case Start => AlignFlexStart
      case FlexStart => AlignFlexStart
      case Center => AlignCenter
      case End => AlignFlexEnd
      case FlexEnd => AlignFlexEnd
      case Stretch => AlignStretch
      case SpaceBetween => AlignSpaceBetween
      case SpaceAround => AlignSpaceAround
      case SpaceEvenly => AlignSpaceAround
  }

  /** The logical pixel size of an absolute length: rems go through the rem size. */
  function AbsolutePixels(l: G.AbsoluteLength, remSize: real): real
  {
    match l
    case Pixels(px) => px
    case Rems(r) => G.RemsToPixels(r, remSize)
  }

  /** An absolute length is always a point value in device pixels. */
  function ConvertAbsoluteLength(l: G.AbsoluteLength, remSize: real, scale: real): (v: YogaValue)
    ensures v.unit == Point
    ensures l.Pixels? ==> v.value == l.px * scale
    ensures l.Rems? ==> v.value == l.rems * remSize * scale
  {
    YogaValue(AbsolutePixels(l, remSize) * scale, Point)
  }

  /** A fraction becomes a percentage on Yoga's 0..100 scale. */
  function ConvertDefiniteLength(l: G.DefiniteLength, remSize: real, scale: real): (v: YogaValue)
    ensures v.unit == Percent <==> l.Fraction?
    ensures v.unit == Point <==> l.Absolute?
    ensures l.Fraction? ==> v.value == l.fraction * 100.0
  {
    match l
    case Absolute(abs) => ConvertAbsoluteLength(abs, remSize, scale)
    case Fraction(f) => YogaValue(f * 100.0, Percent)
  }

  /** `Length::Auto` becomes the value 0 with the Auto unit. */
  function ConvertLength(l: G.Length, remSize: real, scale: real): (v: YogaValue)
    ensures v.unit == Auto <==> l.Auto?
    ensures l.Auto? ==> v == YogaValue(0.0, Auto)
    ensures l.Definite? ==> v == ConvertDefiniteLength(l.definite, remSize, scale)
  {
    match l
    case Auto => YogaValue(0.0, Auto)
    case Definite(d) => ConvertDefiniteLength(d, remSize, scale)
  }

  function ConvertEdges(e: G.Edges<G.Length>, remSize: real, scale: real): YogaEdges
  {
    YogaEdges(ConvertLength(e.left, remSize, scale), ConvertLength(e.top, remSize, scale),
              ConvertLength(e.right, remSize, scale), ConvertLength(e.bottom, remSize, scale))
  }

  function ConvertEdgesDefinite(e: G.Edges<G.DefiniteLength>, remSize: real, scale: real): YogaEdges
  {
    YogaEdges(ConvertDefiniteLength(e.left, remSize, scale), ConvertDefiniteLength(e.top, remSize, scale),
              ConvertDefiniteLength(e.right, remSize, scale), ConvertDefiniteLength(e.bottom, remSize, scale))
  }

  function ConvertEdgesAbsolute(e: G.Edges<G.AbsoluteLength>, remSize: real, scale: real): YogaEdges
  {
    YogaEdges(ConvertAbsoluteLength(e.left, remSize, scale), ConvertAbsoluteLength(e.top, remSize, scale),
              ConvertAbsoluteLength(e.right, remSize, scale), ConvertAbsoluteLength(e.bottom, remSize, scale))
  }

  function ConvertSize(s: G.Size<G.Length>, remSize: real, scale: real): YogaStyleSize
  {
    YogaStyleSize(ConvertLength(s.width, remSize, scale), ConvertLength(s.height, remSize, scale))
  }

  function ConvertGap(s: G.Size<G.DefiniteLength>, remSize: real, scale: real): YogaStyleSize
  {
    YogaStyleSize(ConvertDefiniteLength(s.width, remSize, scale), ConvertDefiniteLength(s.height, remSize, scale))
  }

  /** The display and wrap pair: Grid falls back to a wrapping flex container. */
  function ConvertDisplay(d: G.Display, wrap: G.FlexWrap): (r: (YogaDisplay, YogaWrap))
    ensures d.Grid? ==> r == (Flex, Wrap)
    ensures d.DisplayNone? ==> r == (DisplayNone, NoWrap)
    ensures d.Flex? || d.Block? ==> r == (Flex, ConvertFlexWrap(wrap))
    ensures r.0 == DisplayNone <==> d.DisplayNone?
  {
    match d
    case Grid => (Flex, Wrap)
    case Flex => (Flex, ConvertFlexWrap(wrap))
    case Block => (Flex, ConvertFlexWrap(wrap))
    case DisplayNone => (DisplayNone, NoWrap)
  }

  /** `convert_style_to_yoga`. */
  function ConvertStyleToYoga(style: G.Style, remSize: real, scale: real): (y: YogaStyle)
    ensures (y.display, y.flexWrap) == ConvertDisplay(style.display, style.flexWrap)
    ensures y.overflow == ConvertOverflow(style.overflow.x)
    ensures y.hasFlexGrow <==> style.flexGrow > 0.0
    ensures y.hasFlexShrink <==> style.flexShrink != 1.0
    ensures y.hasFlexBasis <==> !style.flexBasis.Auto?
    ensures y.flexGrow == style.flexGrow && y.flexShrink == style.flexShrink
    ensures y.hasAspectRatio <==> style.aspectRatio.Some?
    ensures y.aspectRatio == (if style.aspectRatio.Some? then Num(style.aspectRatio.value) else NaN)
  {
    var (display, flexWrap) := ConvertDisplay(style.display, style.flexWrap);
    YogaStyle(
      display := display,
      positionType := ConvertPosition(style.position),
      overflow := ConvertOverflow(style.overflow.x),
      flexDirection := ConvertFlexDirection(style.flexDirection),
      flexWrap := flexWrap,
      justifyContent := ConvertJustifyContent(style.justifyContent),
      alignItems := ConvertAlignItems(style.alignItems),
      alignSelf := ConvertAlignSelf(style.alignSelf),
      alignContent := ConvertAlignContent(style.alignContent),
      margin := ConvertEdges(style.margin, remSize, scale),
      padding := ConvertEdgesDefinite(style.padding, remSize, scale),
      border := ConvertEdgesAbsolute(style.borderWidths, remSize, scale),
      inset := ConvertEdges(style.inset, remSize, scale),
      size := ConvertSize(style.size, remSize, scale),
      minSize := ConvertSize(style.minSize, remSize, scale),
      maxSize := ConvertSize(style.maxSize, remSize, scale),
      gap := ConvertGap(style.gap, remSize, scale),
      flexBasis := ConvertLength(style.flexBasis, remSize, scale),
      flexGrow := style.flexGrow,
      flexShrink := style.flexShrink,
      aspectRatio := if style.aspectRatio.Some? then Num(style.aspectRatio.value) else NaN,
      hasFlexGrow := style.flexGrow > 0.0,
      hasFlexShrink := style.flexShrink != 1.0,
      hasFlexBasis := !style.flexBasis.Auto?,
      hasAspectRatio := style.aspectRatio.Some?)
  }

  /**
   * Padding, border and gap are typed without Auto, so the converted
   * record never carries Auto there, and border is always a point value.
   */
  lemma NoAutoWherePaddingAndBorder(style: G.Style, remSize: real, scale: real)
    ensures var y := ConvertStyleToYoga(style, remSize, scale);
      y.padding.left.unit != Auto && y.padding.top.unit != Auto &&
      y.padding.right.unit != Auto && y.padding.bottom.unit != Auto &&
      y.border.left.unit == Point && y.border.top.unit == Point &&
      y.border.right.unit == Point && y.border.bottom.unit == Point &&
      y.gap.width.unit != Auto && y.gap.height.unit != Auto
  {
  }

  /** No converted value is ever Undefined: every length maps to Point, Percent or Auto. */
  lemma NoUndefinedUnit(l: G.Length, remSize: real, scale: real)
    ensures ConvertLength(l, remSize, scale).unit != Undefined
  {
  }

  /** Only `overflow.x` matters: the y axis never reaches the record. */
  lemma OverflowUsesX(style: G.Style, y: G.Overflow, remSize: real, scale: real)
    ensures ConvertStyleToYoga(style.(overflow := G.Point(style.overflow.x, y)), remSize, scale)
            == ConvertStyleToYoga(style, remSize, scale)
  {
  }

  /** The unset alignment defaults. */
  lemma AlignmentDefaults(style: G.Style, remSize: real, scale: real)
    requires style.justifyContent.None? && style.alignItems.None?
    requires style.alignSelf.None? && style.alignContent.None?
    ensures var y := ConvertStyleToYoga(style, remSize, scale);
      y.justifyContent == JustifyFlexStart && y.alignItems == AlignStretch &&
      y.alignSelf == AlignAuto && y.alignContent == AlignFlexStart
  {
  }

  /** Scaling is linear: a length at scale `k * s` is `k` times the value at scale `s`. */
  lemma {:induction false} ScaleIsLinear(l: G.AbsoluteLength, remSize: real, scale: real, k: real)
    ensures ConvertAbsoluteLength(l, remSize, k * scale).value == k * ConvertAbsoluteLength(l, remSize, scale).value
  {
    var px := AbsolutePixels(l, remSize);
    assert px * (k * scale) == k * (px * scale);
  }

  /** A half fraction is 50 percent; one rem at a 16px rem size and scale 1 is 16 points. */
  lemma ConversionExamples()
    ensures ConvertDefiniteLength(G.Fraction(0.5), 16.0, 1.0) == YogaValue(50.0, Percent)
    ensures ConvertLength(G.Definite(G.DefiniteLength.Absolute(G.Rems(1.0))), 16.0, 1.0) == YogaValue(16.0, Point)
    ensures ConvertLength(G.Definite(G.DefiniteLength.Absolute(G.Pixels(10.0))), 16.0, 2.0) == YogaValue(20.0, Point)
  {
  }

  /**
   * A Rems length and the Pixels length it stands for at the same rem
   * size convert to the same value.
   */
  lemma RemsArePixels(r: real, remSize: real, scale: real)
    ensures ConvertAbsoluteLength(G.Rems(r), remSize, scale) == ConvertAbsoluteLength(G.Pixels(r * remSize), remSize, scale)
  {
  }

  // ----- through the bridge -----

  /**
   * Stale grow: once a node was given a positive grow factor, restyling it
   * with grow 0 sends `has_flex_grow = false`, and the node keeps the old
   * factor rather than going back to 0.
   */
  lemma StaleFlexGrow(prev: YogaBridge.NodeStyle, style: G.Style, grow: real, remSize: real, scale: real)
    requires grow > 0.0 && style.flexGrow == 0.0
    ensures var once := YogaBridge.ApplyStyle(prev, ConvertStyleToYoga(style.(flexGrow := grow), remSize, scale));
      YogaBridge.ApplyStyle(once, ConvertStyleToYoga(style, remSize, scale)).flexGrow == Num(grow)
  {
  }

  /**
   * Stale shrink: after a shrink factor other than 1, restyling with the
   * default 1 leaves the earlier factor in place.
   */
  lemma StaleFlexShrink(prev: YogaBridge.NodeStyle, style: G.Style, shrink: real, remSize: real, scale: real)
    requires shrink != 1.0 && style.flexShrink == 1.0
    ensures var once := YogaBridge.ApplyStyle(prev, ConvertStyleToYoga(style.(flexShrink := shrink), remSize, scale));
      YogaBridge.ApplyStyle(once, ConvertStyleToYoga(style, remSize, scale)).flexShrink == Num(shrink)
  {
  }

  /**
   * Basis and aspect ratio, by contrast, do go back: an Auto basis and an
   * unset aspect ratio reset the node whatever it held.
   */
  lemma BasisAndAspectReset(prev: YogaBridge.NodeStyle, style: G.Style, remSize: real, scale: real)
    requires style.flexBasis.Auto? && style.aspectRatio.None?
    ensures var n := YogaBridge.ApplyStyle(prev, ConvertStyleToYoga(style, remSize, scale));
      n.flexBasis == YogaBridge.AutoLength && n.aspectRatio == NaN
  {
  }

  /**
   * Gap in the bridge: a fractional gap is converted to a percentage but
   * stored by the bridge as that many points, so half the container
   * becomes a 50-point gap.
   */
  lemma FractionalGapBecomesPoints(prev: YogaBridge.NodeStyle, style: G.Style, remSize: real, scale: real)
    requires style.gap.width == G.Fraction(0.5)
    ensures YogaBridge.ApplyStyle(prev, ConvertStyleToYoga(style, remSize, scale)).gapColumn
            == YogaBridge.YGValue(Num(50.0), YogaBridge.YGUnitPoint)
  {
  }
}
