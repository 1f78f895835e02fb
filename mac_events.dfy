/*
 * Translation of AppKit events into GPUI input
 * (crates/gpui/src/platform/mac/events.rs): the named-key table used for
 * menu key equivalents (`key_to_native`), the keystroke parser with its
 * keyboard-layout fallbacks (`parse_keystroke`), and the event filter and
 * button and phase maps of `from_native`.
 *
 * The keyboard layout (`UCKeyTranslate` over the current input source) is a
 * parameter: a function from a virtual key code and a modifier mask to the
 * characters the layout types.
 */
module MacEvents {
  import opened Wrappers
  import opened MacInput

  // ----- key codes -----

  const BackspaceKey: int := 0x7f
  const SpaceKey: int := 0x20
  const EnterKey: int := 0x0d
  const NumpadEnterKey: int := 0x03
  const EscapeKey: int := 0x1b
  const TabKey: int := 0x09
  const ShiftTabKey: int := 0x19

  /** AppKit's function-key characters, in the private-use area from 0xF700. */
  const UpArrowKey: int := 0xF700
  const DownArrowKey: int := 0xF701
  const LeftArrowKey: int := 0xF702
  const RightArrowKey: int := 0xF703
  const DeleteKey: int := 0xF728
  const HomeKey: int := 0xF729
  const EndKey: int := 0xF72B
  const PageUpKey: int := 0xF72C
  const PageDownKey: int := 0xF72D
  const HelpKey: int := 0xF746
  const ModeSwitchKey: int := 0xF747

  /** A function-key character: the arrows through Mode Switch. */
  predicate InFunctionKeyRange(code: int)
  {
    UpArrowKey <= code <= ModeSwitchKey
  }

  /** The name of the n-th function key: "f1" to "f35". */
  function FunctionKeyName(n: nat): (r: string)
    requires 1 <= n <= 35
    ensures |r| >= 2 && r[0] == 'f'
  {
    if n < 10 then ['f', ('0' as int + n) as char]
    else ['f', ('0' as int + n / 10) as char, ('0' as int + n % 10) as char]
  }

  /** Which function key a name is, if it is one of "f1" to "f35". */
  function FunctionKeyNumber(key: string): (r: Option<nat>)
    ensures r.Some? ==> 1 <= r.value <= 35 && key == FunctionKeyName(r.value)
    ensures |key| == 0 || key[0] != 'f' ==> r.None?
  {
    if |key| == 2 && key[0] == 'f' && '1' <= key[1] <= '9' then
      Some(key[1] as int - '0' as int)
    else if |key| == 3 && key[0] == 'f' && '1' <= key[1] <= '3' && '0' <= key[2] <= '9'
            && (key[1] as int - '0' as int) * 10 + (key[2] as int - '0' as int) <= 35 then
      Some((key[1] as int - '0' as int) * 10 + (key[2] as int - '0' as int))
    else None
  }

  /** Function-key names are read back as the number they were written from. */
  lemma FunctionKeyNameRoundTrip(n: nat)
    requires 1 <= n <= 35
    ensures FunctionKeyNumber(FunctionKeyName(n)) == Some(n)
  {
    var name := FunctionKeyName(n);
    if n >= 10 {
      assert (name[1] as int - '0' as int) * 10 + (name[2] as int - '0' as int) == n;
    }
  }

  /** The character of the n-th function key: F1 is 0xF704 and the rest follow one by one up to F35. */
  function FunctionKeyCode(n: nat): int
  {
    0xF703 + n
  }

  /**
   * `key_to_native`'s table: the character code of each named key. Insert
   * is sent as the Help key, which is what macOS reports for it.
   */
  function NativeCode(key: string): (r: Option<int>)
    ensures r.Some? ==> r.value in {SpaceKey, BackspaceKey, EscapeKey} || InFunctionKeyRange(r.value)
  {
    if key == "space" then Some(SpaceKey)
    else if key == "backspace" then Some(BackspaceKey)
    else if key == "escape" then Some(EscapeKey)
    else if key == "up" then Some(UpArrowKey)
    else if key == "down" then Some(DownArrowKey)
    else if key == "left" then Some(LeftArrowKey)
    else if key == "right" then Some(RightArrowKey)
    else if key == "pageup" then Some(PageUpKey)
    else if key == "pagedown" then Some(PageDownKey)
    else if key == "home" then Some(HomeKey)
    else if key == "end" then Some(EndKey)
    else if key == "delete" then Some(DeleteKey)
    else if key == "insert" then Some(HelpKey)
    else
      match FunctionKeyNumber(key)
      case Some(n) => Some(FunctionKeyCode(n))
      case None => None
  }

  /** `key_to_native`: a named key becomes its one-character code; any other string is returned unchanged. */
  function KeyToNative(key: string): (r: string)
    ensures NativeCode(key).None? ==> r == key
    ensures NativeCode(key).Some? ==> |r| == 1 && r[0] as int == NativeCode(key).value
  {
    match NativeCode(key)
    case Some(code) => [code as char]
    case None => key
  }

  /** A key the parser recognises by its first character, and the text it types. */
  datatype NamedKey = NamedKey(key: string, keyChar: Option<string>)

  /**
   * The named-key branch of `parse_keystroke`: space, tab and enter type
   * their own character; Shift-Tab reads as tab; the function-key
   * characters read as their names.
   */
  function ParsedKeyName(code: int): (r: Option<NamedKey>)
    ensures r.Some? && r.value.keyChar.Some? ==> code in {SpaceKey, TabKey, EnterKey, NumpadEnterKey}
  {
    if code == SpaceKey then Some(NamedKey("space", Some(" ")))
    else if code == TabKey then Some(NamedKey("tab", Some("\t")))
    else if code == EnterKey || code == NumpadEnterKey then Some(NamedKey("enter", Some("\n")))
    else if code == BackspaceKey then Some(NamedKey("backspace", None))
    else if code == EscapeKey then Some(NamedKey("escape", None))
    else if code == ShiftTabKey then Some(NamedKey("tab", None))
    else if code == UpArrowKey then Some(NamedKey("up", None))
    else if code == DownArrowKey then Some(NamedKey("down", None))
    else if code == LeftArrowKey then Some(NamedKey("left", None))
    else if code == RightArrowKey then Some(NamedKey("right", None))
    else if code == PageUpKey then Some(NamedKey("pageup", None))
    else if code == PageDownKey then Some(NamedKey("pagedown", None))
    else if code == HomeKey then Some(NamedKey("home", None))
    else if code == EndKey then Some(NamedKey("end", None))
    else if code == DeleteKey then Some(NamedKey("delete", None))
    else if code == HelpKey then Some(NamedKey("insert", None))
    else if FunctionKeyCode(1) <= code <= FunctionKeyCode(35) then Some(NamedKey(FunctionKeyName(code - 0xF703), None))
    else None
  }

  /**
   * Every name in the native table comes back from the parser: a menu key
   * equivalent written by `key_to_native` is read by `parse_keystroke` as
   * the same key.
   */
  lemma KeyNameRoundTrip(key: string)
    requires NativeCode(key).Some?
    ensures ParsedKeyName(NativeCode(key).value).Some?
    ensures ParsedKeyName(NativeCode(key).value).value.key == key
  {
  }

  /**
   * The other direction: every key the parser names, except tab and enter,
   * which two codes each produce and the native table does not list, has
   * the code it was parsed from as its native code.
   */
  lemma ParsedNameIsNative(code: int)
    requires ParsedKeyName(code).Some?
    ensures ParsedKeyName(code).value.key !in {"tab", "enter"} ==> NativeCode(ParsedKeyName(code).value.key) == Some(code)
    ensures NativeCode("tab").None? && NativeCode("enter").None?
  {
    if FunctionKeyCode(1) <= code <= FunctionKeyCode(35) {
      FunctionKeyNameRoundTrip(code - 0xF703);
    }
  }

  // ----- keystroke parsing -----

  /** `UCKeyTranslate` under the current layout: the characters a key code types under a modifier mask. */
  type KeyTranslator = (int, int) -> string

  const NoMod: int := 0
  const CmdMod: int := 1
  const ShiftMod: int := 2
  const OptionMod: int := 8

  predicate IsAscii(s: string)
  {
    forall i | 0 <= i < |s| :: s[i] as int < 128
  }

  predicate AllAsciiLowercase(s: string)
  {
    forall i | 0 <= i < |s| :: 'a' <= s[i] <= 'z'
  }

  function AsciiUppercaseChar(c: char): char
  {
    if 'a' <= c <= 'z' then (c as int - 32) as char else c
  }

  /** `to_ascii_uppercase`: ASCII letters are uppercased, everything else kept. */
  function AsciiUppercase(s: string): (r: string)
    ensures |r| == |s| && forall i | 0 <= i < |s| :: r[i] == AsciiUppercaseChar(s[i])
  {
    seq(|s|, i requires 0 <= i < |s| => AsciiUppercaseChar(s[i]))
  }

  /** An ASCII-lowercase string is changed by uppercasing exactly when it is not empty. */
  lemma UppercaseChangesLowercase(s: string)
    requires AllAsciiLowercase(s)
    ensures AsciiUppercase(s) != s <==> |s| > 0
  {
    if |s| > 0 {
      assert AsciiUppercase(s)[0] != s[0];
    }
  }

  /**
   * `always_use_command_layout`: the current layout does not type ASCII
   * for the A key (code 0) but does with Command held, as with Armenian or
   * Russian layouts.
   */
  predicate AlwaysUseCommandLayout(translate: KeyTranslator)
  {
    !IsAscii(translate(0, NoMod)) && IsAscii(translate(0, CmdMod))
  }

  /** The key's characters without modifiers and with Shift, after the Command-layout adjustments. */
  datatype LayoutChars = LayoutChars(ignoring: string, shifted: string)

  /**
   * With Command held or a non-ASCII layout, the Command layout's
   * characters stand in for the unmodified ones; the shifted characters are
   * those of Command-Shift when they differ from Command's, else Command's
   * uppercased when that changes them, else the plain shifted ones.
   */
  function CommandLayoutChars(keyCode: int, command: bool, translate: KeyTranslator): (r: LayoutChars)
    ensures !(command || AlwaysUseCommandLayout(translate)) ==>
      r == LayoutChars(translate(keyCode, NoMod), translate(keyCode, ShiftMod))
    ensures (command || AlwaysUseCommandLayout(translate)) ==> r.ignoring == translate(keyCode, CmdMod)
    ensures (command || AlwaysUseCommandLayout(translate)) && translate(keyCode, CmdMod + ShiftMod) != translate(keyCode, CmdMod) ==>
      r.shifted == translate(keyCode, CmdMod + ShiftMod)
  {
    if command || AlwaysUseCommandLayout(translate) then
      var withCmd := translate(keyCode, CmdMod);
      var withBoth := translate(keyCode, CmdMod + ShiftMod);
      var shifted :=
        if withBoth != withCmd then withBoth
        else if AsciiUppercase(withCmd) != withCmd then AsciiUppercase(withCmd)
        else translate(keyCode, ShiftMod);
      LayoutChars(withCmd, shifted)
    else
      LayoutChars(translate(keyCode, NoMod), translate(keyCode, ShiftMod))
  }

  /** The modifier mask for the typed text: Shift and Option as held. */
  function TypingMask(shift: bool, alt: bool): (m: int)
    ensures (m / ShiftMod) % 2 == 1 <==> shift
    ensures (m / OptionMod) % 2 == 1 <==> alt
  {
    (if shift then ShiftMod else NoMod) + (if alt then OptionMod else NoMod)
  }

  /** The first character of a string as `u16`, as `ch as u16` truncates it. */
  function FirstCode(characters: string): (r: Option<int>)
    ensures r.Some? <==> |characters| > 0
    ensures r.Some? ==> 0 <= r.value < 0x10000
  {
    if |characters| == 0 then None else Some(characters[0] as int % 0x10000)
  }

  /**
   * The keystroke `parse_keystroke` builds from an event's characters
   * ignoring modifiers (absent reads as empty), its modifier flags and its
   * key code.
   */
  function KeystrokeOf(characters: Option<string>, flags: Modifiers, keyCode: int, translate: KeyTranslator): Keystroke
  {
    var chars := if characters.Some? then characters.value else "";
    var first := FirstCode(chars);
    var functionKey := flags.functionKey && (first.None? || !InFunctionKeyRange(first.value));
    var named := if first.Some? then ParsedKeyName(first.value) else None;
    if named.Some? then
      Keystroke(flags.(functionKey := functionKey), named.value.key, named.value.keyChar)
    else
      var layout := CommandLayoutChars(keyCode, flags.platform, translate);
      var keyChar :=
        if !flags.control && !flags.platform && !functionKey then Some(translate(keyCode, TypingMask(flags.shift, flags.alt)))
        else None;
      var shift := flags.shift && AllAsciiLowercase(layout.ignoring);
      var key := if flags.shift && !shift then layout.shifted else layout.ignoring;
      Keystroke(flags.(functionKey := functionKey, shift := shift), key, keyChar)
  }

  /**
   * Control, Option and Command pass through; the Function flag survives
   * only when the key is not itself a function-key character.
   */
  lemma KeystrokeModifiers(characters: Option<string>, flags: Modifiers, keyCode: int, translate: KeyTranslator)
    ensures var k := KeystrokeOf(characters, flags, keyCode, translate);
      && k.modifiers.control == flags.control && k.modifiers.alt == flags.alt && k.modifiers.platform == flags.platform
      && (k.modifiers.functionKey <==>
            flags.functionKey && (characters.None? || |characters.value| == 0 || !InFunctionKeyRange(characters.value[0] as int % 0x10000)))
  {
  }

  /**
   * A first character from the named table gives that key, its text, and
   * Shift as held.
   */
  lemma KeystrokeNamed(characters: string, flags: Modifiers, keyCode: int, translate: KeyTranslator)
    requires |characters| > 0 && ParsedKeyName(characters[0] as int % 0x10000).Some?
    ensures var k := KeystrokeOf(Some(characters), flags, keyCode, translate);
      var named := ParsedKeyName(characters[0] as int % 0x10000).value;
      k.key == named.key && k.keyChar == named.keyChar && k.modifiers.shift == flags.shift
  {
  }

  /**
   * Shift is only ever reported beside an all-lowercase ASCII key, so
   * Shift-A reads as shift-a; when Shift is held over any other key it is
   * cleared and the key is the shifted characters. Text is typed only
   * without Control, Command or Function.
   */
  lemma KeystrokeShift(characters: Option<string>, flags: Modifiers, keyCode: int, translate: KeyTranslator)
    requires characters.None? || |characters.value| == 0 || ParsedKeyName(characters.value[0] as int % 0x10000).None?
    ensures var k := KeystrokeOf(characters, flags, keyCode, translate);
      var layout := CommandLayoutChars(keyCode, flags.platform, translate);
      && (k.modifiers.shift ==> flags.shift && AllAsciiLowercase(k.key) && k.key == layout.ignoring)
      && (flags.shift && !k.modifiers.shift ==> k.key == layout.shifted)
      && (!flags.shift ==> k.key == layout.ignoring)
      && (k.keyChar.Some? <==> !flags.control && !flags.platform && !k.modifiers.functionKey)
  {
  }

  /**
   * A key equivalent written with `key_to_native` parses back to its name,
   * whatever the layout and modifiers.
   */
  lemma KeystrokeRoundTrip(key: string, flags: Modifiers, keyCode: int, translate: KeyTranslator)
    requires NativeCode(key).Some?
    ensures KeystrokeOf(Some(KeyToNative(key)), flags, keyCode, translate).key == key
  {
    KeyNameRoundTrip(key);
    var code := NativeCode(key).value;
    assert KeyToNative(key)[0] as int % 0x10000 == code;
  }

  /** `parse_keystroke`, updating Shift, the typed text and the layout characters step by step. */
  method ParseKeystroke(characters: Option<string>, flags: Modifiers, keyCode: int, translate: KeyTranslator)
    returns (k: Keystroke)
    ensures k == KeystrokeOf(characters, flags, keyCode, translate)
  {
    var chars := if characters.Some? then characters.value else "";
    var keyChar: Option<string> := None;
    var first := FirstCode(chars);
    var shift := flags.shift;
    var functionKey := flags.functionKey && (first.None? || !InFunctionKeyRange(first.value));
    var named := if first.Some? then ParsedKeyName(first.value) else None;
    var key: string;
    if named.Some? {
      keyChar := named.value.keyChar;
      key := named.value.key;
    } else {
      var ignoring := translate(keyCode, NoMod);
      var shifted := translate(keyCode, ShiftMod);
      var alwaysCmd := AlwaysUseCommandLayout(translate);
      if flags.platform || alwaysCmd {
        var withCmd := translate(keyCode, CmdMod);
        var withBoth := translate(keyCode, CmdMod + ShiftMod);
        if withBoth != withCmd {
          shifted := withBoth;
        } else if AsciiUppercase(withCmd) != withCmd {
          shifted := AsciiUppercase(withCmd);
        }
        ignoring := withCmd;
      }
      if !flags.control && !flags.platform && !functionKey {
        var mods := NoMod;
        if shift {
          mods := mods + ShiftMod;
        }
        if flags.alt {
          mods := mods + OptionMod;
        }
        keyChar := Some(translate(keyCode, mods));
      }
      if shift && AllAsciiLowercase(ignoring) {
        key := ignoring;
      } else if shift {
        shift := false;
        key := shifted;
      } else {
        key := ignoring;
      }
    }
    k := Keystroke(Modifiers(flags.control, flags.alt, shift, flags.platform, functionKey), key, keyChar);
  }

  // ----- event translation -----

  /** AppKit's `NSEventType` raw values that `from_native` distinguishes. */
  const LeftMouseDown: int := 1
  const LeftMouseUp: int := 2
  const RightMouseDown: int := 3
  const RightMouseUp: int := 4
  const MouseMoved: int := 5
  const LeftMouseDragged: int := 6
  const RightMouseDragged: int := 7
  const MouseExitedType: int := 9
  const KeyDownType: int := 10
  const KeyUpType: int := 11
  const FlagsChanged: int := 12
  const ScrollWheelType: int := 22
  const OtherMouseDown: int := 25
  const OtherMouseUp: int := 26
  const OtherMouseDragged: int := 27
  const Swipe: int := 31

  /** Raw types outside AppKit's enumeration, which are dropped before anything else is read. */
  predicate IgnoredType(rawType: int)
  {
    rawType in {0, 21, 32, 33, 35, 36, 37}
  }

  /** The phase bits of a gesture or scroll event that matter here. */
  datatype EventPhase = EventPhase(mayBegin: bool, began: bool, ended: bool)

  /** The fields of an `NSEvent` that translation reads; the location is from the window's bottom left. */
  datatype NativeEvent = NativeEvent(
    rawType: int, modifiers: Modifiers, capsLock: bool, characters: Option<string>, keyCode: int,
    isRepeat: bool, buttonNumber: int, location: Point, clickCount: nat, phase: EventPhase,
    deltaX: real, scrollingDelta: Point, preciseScrollingDeltas: bool)

  /** Mouse buttons 0 to 4; other buttons are not tracked. */
  function MouseButtonFrom(number: int): (r: Option<MouseButton>)
    ensures r.Some? <==> 0 <= number <= 4
  {
    if number == 0 then Some(Left)
    else if number == 1 then Some(Right)
    else if number == 2 then Some(Middle)
    else if number == 3 then Some(Navigate(Back))
    else if number == 4 then Some(Navigate(Forward))
    else None
  }

  /** The button number AppKit reports for a tracked button. */
  function ButtonNumber(b: MouseButton): (n: int)
  {
    match b
    case Left => 0
    case Right => 1
    case Middle => 2
    case Navigate(Back) => 3
    case Navigate(Forward) => 4
  }

  /** Button numbers and tracked buttons correspond one to one. */
  lemma MouseButtonRoundTrip(b: MouseButton, number: int)
    ensures MouseButtonFrom(ButtonNumber(b)) == Some(b)
    ensures MouseButtonFrom(number).Some? ==> ButtonNumber(MouseButtonFrom(number).value) == number
  {
  }

  /** A scroll that may begin or has begun starts; one that ended ends; anything else moves. */
  function ScrollPhase(p: EventPhase): (t: TouchPhase)
    ensures t == Started <==> p.mayBegin || p.began
    ensures t == Ended <==> p.ended && !p.mayBegin && !p.began
  {
    if p.mayBegin || p.began then Started
    else if p.ended then Ended
    else Moved
  }

  /** A swipe navigates only when it has ended and moved: rightwards back, leftwards forward. */
  function SwipeDirection(p: EventPhase, deltaX: real): (r: Option<NavigationDirection>)
    ensures r.Some? <==> p.ended && deltaX != 0.0
    ensures r == Some(Back) <==> p.ended && deltaX > 0.0
  {
    if p.ended && deltaX > 0.0 then Some(Back)
    else if p.ended && deltaX < 0.0 then Some(Forward)
    else None
  }

  /** AppKit's window coordinates run up from the bottom left; GPUI's run down from the top left. */
  function Flipped(location: Point, windowHeight: real): Point
  {
    Point(location.x, windowHeight - location.y)
  }

  predicate IsButtonDown(rawType: int) { rawType in {LeftMouseDown, RightMouseDown, OtherMouseDown} }
  predicate IsButtonUp(rawType: int) { rawType in {LeftMouseUp, RightMouseUp, OtherMouseUp} }
  predicate IsDragged(rawType: int) { rawType in {LeftMouseDragged, RightMouseDragged, OtherMouseDragged} }

  /**
   * `from_native`: the GPUI event for an AppKit event, given the window's
   * content height when there is a window. Mouse and scroll events need
   * the height; keyboard and modifier events do not.
   */
  function FromNative(ev: NativeEvent, windowHeight: Option<real>, translate: KeyTranslator): (r: Option<PlatformInput>)
    ensures IgnoredType(ev.rawType) ==> r.None?
    ensures ev.rawType == FlagsChanged ==> r == Some(ModifiersChanged(ev.modifiers, ev.capsLock))
    ensures ev.rawType == KeyDownType ==>
      r == Some(KeyDown(KeystrokeOf(ev.characters, ev.modifiers, ev.keyCode, translate), ev.isRepeat))
    ensures ev.rawType == KeyUpType ==> r == Some(KeyUp(KeystrokeOf(ev.characters, ev.modifiers, ev.keyCode, translate)))
    ensures IsButtonDown(ev.rawType) ==>
      && (r.Some? <==> MouseButtonFrom(ev.buttonNumber).Some? && windowHeight.Some?)
      && (r.Some? ==> r.value == MouseDown(MouseButtonFrom(ev.buttonNumber).value, Flipped(ev.location, windowHeight.value),
                                           ev.modifiers, ev.clickCount, false))
    ensures IsButtonUp(ev.rawType) ==>
      && (r.Some? <==> MouseButtonFrom(ev.buttonNumber).Some? && windowHeight.Some?)
      && (r.Some? ==> r.value == MouseUp(MouseButtonFrom(ev.buttonNumber).value, Flipped(ev.location, windowHeight.value),
                                         ev.modifiers, ev.clickCount))
    ensures IsDragged(ev.rawType) ==>
      && (r.Some? <==> MouseButtonFrom(ev.buttonNumber).Some? && windowHeight.Some?)
      && (r.Some? ==> r.value.MouseMove? && r.value.pressedButton == MouseButtonFrom(ev.buttonNumber))
    ensures ev.rawType == Swipe ==>
      && (r.Some? <==> SwipeDirection(ev.phase, ev.deltaX).Some? && windowHeight.Some?)
      && (r.Some? ==> r.value == MouseDown(Navigate(SwipeDirection(ev.phase, ev.deltaX).value),
                                           Flipped(ev.location, windowHeight.value), ev.modifiers, 1, false))
    ensures ev.rawType == ScrollWheelType ==>
      && (r.Some? <==> windowHeight.Some?)
      && (r.Some? ==> r.value.ScrollWheel? && r.value.touchPhase == ScrollPhase(ev.phase)
                      && (r.value.delta.PixelDelta? <==> ev.preciseScrollingDeltas) && r.value.delta.delta == ev.scrollingDelta)
    ensures ev.rawType == MouseMoved ==> (r.Some? <==> windowHeight.Some?) && (r.Some? ==> r.value.MouseMove? && r.value.pressedButton.None?)
    ensures ev.rawType == MouseExitedType ==> (r.Some? <==> windowHeight.Some?) && (r.Some? ==> r.value.MouseExited?)
    ensures r.Some? ==>
      ev.rawType in {FlagsChanged, KeyDownType, KeyUpType, MouseMoved, MouseExitedType, ScrollWheelType, Swipe}
      || IsButtonDown(ev.rawType) || IsButtonUp(ev.rawType) || IsDragged(ev.rawType)
  {
    if IgnoredType(ev.rawType) then None
    else if ev.rawType == FlagsChanged then Some(ModifiersChanged(ev.modifiers, ev.capsLock))
    else if ev.rawType == KeyDownType then
      Some(KeyDown(KeystrokeOf(ev.characters, ev.modifiers, ev.keyCode, translate), ev.isRepeat))
    else if ev.rawType == KeyUpType then Some(KeyUp(KeystrokeOf(ev.characters, ev.modifiers, ev.keyCode, translate)))
    else if IsButtonDown(ev.rawType) then
      match MouseButtonFrom(ev.buttonNumber)
      case None => None
      case Some(button) =>
        if windowHeight.None? then None
        else Some(MouseDown(button, Flipped(ev.location, windowHeight.value), ev.modifiers, ev.clickCount, false))
    else if IsButtonUp(ev.rawType) then
      match MouseButtonFrom(ev.buttonNumber)
      case None => None
      case Some(button) =>
        if windowHeight.None? then None
        else Some(MouseUp(button, Flipped(ev.location, windowHeight.value), ev.modifiers, ev.clickCount))
    else if ev.rawType == Swipe then
      match SwipeDirection(ev.phase, ev.deltaX)
      case None => None
      case Some(direction) =>
        if windowHeight.None? then None
        else Some(MouseDown(Navigate(direction), Flipped(ev.location, windowHeight.value), ev.modifiers, 1, false))
    else if ev.rawType == ScrollWheelType then
      if windowHeight.None? then None
      else
        var delta := if ev.preciseScrollingDeltas then PixelDelta(ev.scrollingDelta) else LineDelta(ev.scrollingDelta);
        Some(ScrollWheel(Flipped(ev.location, windowHeight.value), delta, ScrollPhase(ev.phase), ev.modifiers))
    else if IsDragged(ev.rawType) then
      match MouseButtonFrom(ev.buttonNumber)
      case None => None
      case Some(button) =>
        if windowHeight.None? then None
        else Some(MouseMove(Some(button), Flipped(ev.location, windowHeight.value), ev.modifiers))
    else if ev.rawType == MouseMoved then
      if windowHeight.None? then None
      else Some(MouseMove(None, Flipped(ev.location, windowHeight.value), ev.modifiers))
    else if ev.rawType == MouseExitedType then
      if windowHeight.None? then None
      else Some(MouseExited(None, Flipped(ev.location, windowHeight.value), ev.modifiers))
    else None
  }
}
