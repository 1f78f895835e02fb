/*
 * Reading a window's appearance from the name AppKit reports for its
 * `NSAppearance` (crates/gpui/src/platform/mac/window_appearance.rs).
 */
module WindowAppearance {
  datatype Appearance = Light | VibrantLight | Dark | VibrantDark

  predicate IsDark(a: Appearance)
  {
    a == Dark || a == VibrantDark
  }

  /** The canonical AppKit name of each appearance. */
  function Name(a: Appearance): (n: string)
  {
    match a
    case Light => "NSAppearanceNameAqua"
    case VibrantLight => "NSAppearanceNameVibrantLight"
    case Dark => "NSAppearanceNameDarkAqua"
    case VibrantDark => "NSAppearanceNameVibrantDark"
  }

  /**
   * `WindowAppearance::from_native` on the appearance's name: the four
   * canonical names map to their appearance and every other name falls
   * back to light (the diagnostic line it prints is left out).
   */
  function FromName(name: string): (a: Appearance)
    ensures a == Light || name == Name(a)
  {
    if name == "NSAppearanceNameVibrantLight" then VibrantLight
    else if name == "NSAppearanceNameVibrantDark" then VibrantDark
    else if name == "NSAppearanceNameAqua" then Light
    else if name == "NSAppearanceNameDarkAqua" then Dark
    else Light
  }

  /** Every appearance is recognised from its own name. */
  lemma FromNameRoundTrip(a: Appearance)
    ensures FromName(Name(a)) == a
  {
  }

  /** A name reads as dark exactly when it is one of the two dark names. */
  lemma DarkNames(name: string)
    ensures IsDark(FromName(name)) <==> name == Name(Dark) || name == Name(VibrantDark)
  {
  }
}
