/*
 * The small platform helpers of the macOS backend
 * (crates/gpui/src/platform/mac.rs): Objective-C booleans and the
 * `NSRange` extension used by text input, whose "not found" location
 * marks an absent range.
 */
module Mac {
  import opened Wrappers

  newtype NSUInteger = x: int | 0 <= x < 0x1_0000_0000_0000_0000

  /** Foundation's `NSNotFound`, the largest signed 64-bit integer. */
  const NSNotFound: NSUInteger := 0x7FFF_FFFF_FFFF_FFFF

  datatype NSRange = NSRange(location: NSUInteger, length: NSUInteger)

  /** A half-open range of `usize` offsets. */
  datatype Range = Range(start: int, end: int)

  /** An Objective-C `BOOL`. */
  datatype ObjcBool = YES | NO

  /** `BoolExt::to_objc`. */
  function ToObjc(b: bool): (r: ObjcBool)
    ensures r == YES <==> b
  {
    if b then YES else NO
  }

  /** `NSRangeExt::invalid`: the not-found location with no length. */
  function Invalid(): (r: NSRange)
    ensures !IsValid(r) && r.length == 0
  {
    NSRange(NSNotFound, 0)
  }

  /** `NSRangeExt::is_valid`: any location but the not-found marker. */
  predicate IsValid(r: NSRange)
  {
    r.location != NSNotFound
  }

  /**
   * `NSRangeExt::to_range`: nothing for an invalid range, otherwise the
   * offsets from the location to location plus length.
   */
  function ToRange(r: NSRange): (o: Option<Range>)
    ensures o.None? <==> !IsValid(r)
    ensures o.Some? ==> o.value.start == r.location as int && o.value.end - o.value.start == r.length as int
  {
    if IsValid(r) then Some(Range(r.location as int, r.location as int + r.length as int)) else None
  }

  /** The inverse of `ToRange` on the ranges it produces. */
  function FromRange(range: Range): (r: NSRange)
    requires 0 <= range.start < 0x1_0000_0000_0000_0000 && range.start != NSNotFound as int
    requires range.start <= range.end
    requires range.end - range.start < 0x1_0000_0000_0000_0000
  {
    NSRange(range.start as NSUInteger, (range.end - range.start) as NSUInteger)
  }

  /** `to_range` loses nothing: a valid range comes back from the offsets it yields, and vice versa. */
  lemma ToRangeRoundTrip(r: NSRange, range: Range)
    requires 0 <= range.start < 0x1_0000_0000_0000_0000 && range.start != NSNotFound as int
    requires range.start <= range.end
    requires range.end - range.start < 0x1_0000_0000_0000_0000
    ensures IsValid(r) ==> FromRange(ToRange(r).value) == r
    ensures ToRange(FromRange(range)) == Some(range)
  {
  }
}
