/*
 * The shared records and enums of the Rust <-> C++ Yoga bridge, and the
 * Rust-side measure-callback registry (`NEXT_MEASURE_ID` and
 * `MEASURE_CALLBACKS`) together with its two C++-facing entry points,
 * `yoga_measure` and `yoga_drop_measure`.
 *
 * `f32` magnitudes are reals; the one NaN the bridge relies on (Yoga's
 * `YGUndefined`, and an unset aspect ratio) is the `NaN` case of `F32`.
 */
module YogaFfiTypes {
  import opened Wrappers

  /** An `f32` seen as either a real magnitude or NaN. */
  datatype F32 = Num(v: real) | NaN

  /** A node handle; 0 is the null handle. */
  type Handle = int

  /** The id of a registered measure callback, stored as a node's context; 0 means none. */
  type MeasureId = int

  const NullHandle: Handle := 0

  datatype YogaValueUnit = Undefined | Point | Percent | Auto

  function UnitDiscriminant(u: YogaValueUnit): (d: nat)
    ensures d < 4
  {
    match u
    case Undefined => 0
    case Point => 1
    case Percent => 2
    case Auto => 3
  }

  datatype YogaValue = YogaValue(value: real, unit: YogaValueUnit)

  datatype YogaEdges = YogaEdges(left: YogaValue, top: YogaValue, right: YogaValue, bottom: YogaValue)

  datatype YogaStyleSize = YogaStyleSize(width: YogaValue, height: YogaValue)

  datatype YogaDisplay = Flex | DisplayNone

  datatype YogaPositionType = Relative | Absolute

  datatype YogaOverflow = Visible | Hidden | Scroll

  datatype YogaFlexDirection = Column | ColumnReverse | Row | RowReverse

  datatype YogaWrap = NoWrap | Wrap | WrapReverse

  datatype YogaAlign = AlignAuto | AlignFlexStart | AlignCenter | AlignFlexEnd
                     | AlignStretch | AlignBaseline | AlignSpaceBetween | AlignSpaceAround

  datatype YogaJustify = JustifyFlexStart | JustifyCenter | JustifyFlexEnd
                       | JustifySpaceBetween | JustifySpaceAround | JustifySpaceEvenly

  function AlignDiscriminant(a: YogaAlign): (d: nat)
    ensures d < 8
  {
    match a
    case AlignAuto => 0
    case AlignFlexStart => 1
    case AlignCenter => 2
    case AlignFlexEnd => 3
    case AlignStretch => 4
    case AlignBaseline => 5
    case AlignSpaceBetween => 6
    case AlignSpaceAround => 7
  }

  function JustifyDiscriminant(j: YogaJustify): (d: nat)
    ensures d < 6
  {
    match j
    case JustifyFlexStart => 0
    case JustifyCenter => 1
    case JustifyFlexEnd => 2
    case JustifySpaceBetween => 3
    case JustifySpaceAround => 4
    case JustifySpaceEvenly => 5
  }

  /** The plain record handed to `yoga_set_style`. */
  datatype YogaStyle = YogaStyle(
    display: YogaDisplay,
    positionType: YogaPositionType,
    overflow: YogaOverflow,
    flexDirection: YogaFlexDirection,
    flexWrap: YogaWrap,
    justifyContent: YogaJustify,
    alignItems: YogaAlign,
    alignSelf: YogaAlign,
    alignContent: YogaAlign,
    margin: YogaEdges,
    padding: YogaEdges,
    border: YogaEdges,
    inset: YogaEdges,
    size: YogaStyleSize,
    minSize: YogaStyleSize,
    maxSize: YogaStyleSize,
    gap: YogaStyleSize,
    flexBasis: YogaValue,
    flexGrow: real,
    flexShrink: real,
    aspectRatio: F32,
    hasFlexGrow: bool,
    hasFlexShrink: bool,
    hasFlexBasis: bool,
    hasAspectRatio: bool)

  datatype YogaAvailableDimensionKind = DimUndefined | MinContent | MaxContent | Definite

  datatype YogaAvailableDimension = YogaAvailableDimension(kind: YogaAvailableDimensionKind, value: real)

  datatype YogaAvailableSize = YogaAvailableSize(width: YogaAvailableDimension, height: YogaAvailableDimension)

  datatype YogaMeasureMode = ModeUndefined | Exactly | AtMost

  function MeasureModeDiscriminant(m: YogaMeasureMode): (d: nat)
    ensures d < 3
  {
    match m
    case ModeUndefined => 0
    case Exactly => 1
    case AtMost => 2
  }

  /** Reads a measure mode back from its discriminant (the target of a C++ `static_cast`). */
  function MeasureModeOf(d: nat): (m: Option<YogaMeasureMode>)
    ensures m.Some? <==> d < 3
  {
    if d == 0 then Some(ModeUndefined)
    else if d == 1 then Some(Exactly)
    else if d == 2 then Some(AtMost)
    else None
  }

  /** The fixed discriminants identify the measure mode, the value unit, the alignment and the justification uniquely. */
  lemma DiscriminantsRoundTrip(m: YogaMeasureMode, u1: YogaValueUnit, u2: YogaValueUnit,
                               a1: YogaAlign, a2: YogaAlign, j1: YogaJustify, j2: YogaJustify)
    ensures MeasureModeOf(MeasureModeDiscriminant(m)) == Some(m)
    ensures UnitDiscriminant(u1) == UnitDiscriminant(u2) ==> u1 == u2
    ensures AlignDiscriminant(a1) == AlignDiscriminant(a2) ==> a1 == a2
    ensures JustifyDiscriminant(j1) == JustifyDiscriminant(j2) ==> j1 == j2
  {
  }

  datatype YogaMeasureInput = YogaMeasureInput(value: F32, mode: YogaMeasureMode)

  datatype YogaSize = YogaSize(width: real, height: real)

  const DefaultSize := YogaSize(0.0, 0.0)

  datatype YogaLayout = YogaLayout(left: real, top: real, width: real, height: real)

  const ZeroLayout := YogaLayout(0.0, 0.0, 0.0, 0.0)

  /**
   * A registered measure callback. The only callbacks the bridge registers
   * are the closures the layout engine builds for one layout id, so a
   * callback is identified by the id it captured.
   */
  datatype MeasureCallback = MeasureCallback(layoutId: int)

  /** What running a callback on a pair of inputs produces; supplied by the caller. */
  type CallbackRunner = (MeasureCallback, YogaMeasureInput, YogaMeasureInput) -> YogaSize

  /**
   * `yoga_measure`: run the callback registered under `id`, or report the
   * default (0, 0) size when no callback is registered.
   */
  function YogaMeasure(callbacks: map<MeasureId, MeasureCallback>, id: MeasureId, width: YogaMeasureInput,
                       height: YogaMeasureInput, run: CallbackRunner): (s: YogaSize)
    ensures id !in callbacks ==> s == DefaultSize
    ensures id in callbacks ==> s == run(callbacks[id], width, height)
  {
    if id in callbacks then run(callbacks[id], width, height) else DefaultSize
  }

  /**
   * The process-wide registry: the id counter and the id -> callback table.
   * `drops` is a ghost log of every `yoga_drop_measure` notification.
   */
  class MeasureRegistry {
    var nextMeasureId: MeasureId
    var callbacks: map<MeasureId, MeasureCallback>
    ghost var drops: seq<MeasureId>

    /** Ids are positive and every registered id was handed out already. */
    ghost predicate Valid()
      reads this
    {
      nextMeasureId >= 1 && forall id | id in callbacks :: 0 < id < nextMeasureId
    }

    constructor()
      ensures Valid()
      ensures nextMeasureId == 1 && callbacks == map[] && drops == []
    {
      nextMeasureId := 1;
      callbacks := map[];
      drops := [];
    }

    /**
     * The Rust half of `set_measure`: take the next id and register the
     * callback under it, before the id is handed to the C++ side.
     */
    method Register(callback: MeasureCallback) returns (id: MeasureId)
      requires Valid()
      modifies this
      ensures Valid()
      ensures id == old(nextMeasureId) && id != 0 && id !in old(callbacks)
      ensures nextMeasureId == id + 1
      ensures callbacks == old(callbacks)[id := callback]
      ensures drops == old(drops)
    {
      id := nextMeasureId;
      nextMeasureId := nextMeasureId + 1;
      callbacks := callbacks[id := callback];
    }

    /** `yoga_drop_measure`: forget the callback for `id`; an unknown id is a no-op. */
    method DropMeasure(id: MeasureId)
      requires Valid()
      modifies this
      ensures Valid()
      ensures callbacks == old(callbacks) - {id}
      ensures nextMeasureId == old(nextMeasureId)
      ensures drops == old(drops) + [id]
    {
      callbacks := callbacks - {id};
      drops := drops + [id];
    }
  }

  /** After a drop, measuring that id yields the default size, whatever was registered. */
  lemma MeasureAfterDrop(callbacks: map<MeasureId, MeasureCallback>, id: MeasureId, w: YogaMeasureInput,
                         h: YogaMeasureInput, run: CallbackRunner)
    ensures YogaMeasure(callbacks - {id}, id, w, h, run) == DefaultSize
  {
  }

  /** Dropping an id twice leaves the same table as dropping it once. */
  lemma DropIdempotent(callbacks: map<MeasureId, MeasureCallback>, id: MeasureId)
    ensures (callbacks - {id}) - {id} == callbacks - {id}
  {
  }

  /** Dropping one id leaves every other id's measurement unchanged. */
  lemma DropIsolated(callbacks: map<MeasureId, MeasureCallback>, id: MeasureId, other: MeasureId, w: YogaMeasureInput,
                     h: YogaMeasureInput, run: CallbackRunner)
    requires other != id
    ensures YogaMeasure(callbacks - {id}, other, w, h, run) == YogaMeasure(callbacks, other, w, h, run)
  {
  }
}
