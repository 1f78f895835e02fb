/*
 * The layout-engine vocabulary of GPUI (crates/gpui/src/layout.rs):
 * available space, layout ids and external overrides.
 */
module Layout {
  import opened Wrappers
  import opened GpuiStyle

  /** The space offered to a node along one axis. */
  datatype AvailableSpace = Definite(px: real) | MinContent | MaxContent

  /** `AvailableSpace::default()`. */
  const DefaultAvailableSpace: AvailableSpace := MinContent

  /** `AvailableSpace::min_size()`: min-content on both axes. */
  function MinSize(): (s: Size<AvailableSpace>)
    ensures s.width == DefaultAvailableSpace && s.height == DefaultAvailableSpace
  {
    Size(MinContent, MinContent)
  }

  /** `From<Pixels> for AvailableSpace`. */
  function FromPixels(p: real): (a: AvailableSpace)
    ensures a.Definite? && a.px == p
  {
    AvailableSpace.Definite(p)
  }

  /** `From<Size<Pixels>> for Size<AvailableSpace>`: definite on both axes. */
  function FromSizePixels(s: Size<real>): (a: Size<AvailableSpace>)
    ensures a.width == FromPixels(s.width) && a.height == FromPixels(s.height)
  {
    Size(AvailableSpace.Definite(s.width), AvailableSpace.Definite(s.height))
  }

  newtype u64 = x: int | 0 <= x < 0x1_0000_0000_0000_0000

  /** A window's scale factor: device pixels per logical pixel. */
  type ScaleFactor = s: real | s > 0.0 witness 1.0

  /** A layout node's identifier, backed by a `u64`. */
  datatype LayoutId = LayoutId(raw: u64)

  function FromRaw(raw: u64): LayoutId
  {
    LayoutId(raw)
  }

  function ToRaw(id: LayoutId): u64
  {
    id.raw
  }

  /**
   * `from_raw` and `to_raw` are inverse bijections between layout ids and
   * `u64`; the `From` impls in both directions are the same two maps.
   */
  lemma LayoutIdRoundTrip(raw: u64, id: LayoutId, other: LayoutId)
    ensures ToRaw(FromRaw(raw)) == raw && FromRaw(ToRaw(id)) == id
    ensures ToRaw(id) == ToRaw(other) ==> id == other
  {
  }

  /** Authoritative bounds (and optionally a style) supplied by an embedder for one node. */
  datatype ExternalLayoutOverride = ExternalLayoutOverride(layoutId: LayoutId, bounds: Bounds, style: Option<Style>)

  /** The measure function a caller attaches to a node; identified by a token. */
  datatype LayoutMeasureFn = LayoutMeasureFn(token: nat)

  /**
   * Running a measure function: known dimensions and available space in,
   * size out. Supplied by the caller (the function body is foreign code).
   */
  type MeasureRunner = (LayoutMeasureFn, Size<Option<real>>, Size<AvailableSpace>) -> Size<real>
}
