/*
 * GPUI's geometry and style vocabulary as the layout engines read it:
 * points, sizes, edges, bounds, lengths and the flexbox style record.
 * Pixel magnitudes are reals. Grid templates and placements, which only
 * the Taffy engine consumes, are not part of this record.
 */
module GpuiStyle {
  import opened Wrappers

  datatype Point<T> = Point(x: T, y: T)

  datatype Size<T> = Size(width: T, height: T)

  datatype Edges<T> = Edges(top: T, right: T, bottom: T, left: T)

  /** A rectangle in pixels. */
  datatype Bounds = Bounds(origin: Point<real>, size: Size<real>)

  const ZeroBounds := Bounds(Point(0.0, 0.0), Size(0.0, 0.0))

  datatype AbsoluteLength = Pixels(px: real) | Rems(rems: real)

  datatype DefiniteLength = Absolute(abs: AbsoluteLength) | Fraction(fraction: real)

  datatype Length = Definite(definite: DefiniteLength) | Auto

  /** `Rems::to_pixels`: a rem count at the given rem size. */
  function RemsToPixels(rems: real, remSize: real): real
  {
    rems * remSize
  }

  datatype Display = Flex | Block | Grid | DisplayNone

  datatype Position = Relative | Absolute

  datatype Overflow = Visible | Hidden | Clip | Scroll

  datatype FlexDirection = Row | Column | RowReverse | ColumnReverse

  datatype FlexWrap = NoWrap | Wrap | WrapReverse

  /** Shared by `justify-content` and `align-content`, as in GPUI. */
  datatype AlignContent = Start | End | FlexStart | FlexEnd | Center | Stretch
                        | SpaceBetween | SpaceEvenly | SpaceAround

  type JustifyContent = AlignContent

  /** Shared by `align-items` and `align-self`, as in GPUI. */
  datatype AlignItems = ItemsStart | ItemsEnd | ItemsFlexStart | ItemsFlexEnd
                      | ItemsCenter | ItemsBaseline | ItemsStretch

  type AlignSelf = AlignItems

  datatype Style = Style(
    display: Display,
    position: Position,
    overflow: Point<Overflow>,
    flexDirection: FlexDirection,
    flexWrap: FlexWrap,
    justifyContent: Option<JustifyContent>,
    alignItems: Option<AlignItems>,
    alignSelf: Option<AlignSelf>,
    alignContent: Option<AlignContent>,
    margin: Edges<Length>,
    padding: Edges<DefiniteLength>,
    borderWidths: Edges<AbsoluteLength>,
    inset: Edges<Length>,
    size: Size<Length>,
    minSize: Size<Length>,
    maxSize: Size<Length>,
    gap: Size<DefiniteLength>,
    flexBasis: Length,
    flexGrow: real,
    flexShrink: real,
    aspectRatio: Option<real>)
}
