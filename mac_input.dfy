/*
 * The platform input events both macOS window backends hand to GPUI
 * (crates/gpui/src/platform/mac/events.rs, window.rs, swift_window.rs):
 * keystrokes with their modifier keys, mouse buttons, scroll deltas and
 * file drops. Positions are in logical pixels, `f32` read as `real`.
 */
module MacInput {
  import opened Wrappers

  /** The modifier keys held during an event; `platform` is the Command key. */
  datatype Modifiers = Modifiers(control: bool, alt: bool, shift: bool, platform: bool, functionKey: bool)

  /** A key press: the key's name, its modifiers and the text it types, if any. */
  datatype Keystroke = Keystroke(modifiers: Modifiers, key: string, keyChar: Option<string>)

  datatype NavigationDirection = Back | Forward

  datatype MouseButton = Left | Right | Middle | Navigate(direction: NavigationDirection)

  datatype TouchPhase = Started | Moved | Ended

  datatype Point = Point(x: real, y: real)

  /** A scroll in pixels (precise devices) or in lines (wheel notches). */
  datatype ScrollDelta = PixelDelta(delta: Point) | LineDelta(delta: Point)

  datatype FileDropEvent =
    | Entered(position: Point, paths: seq<string>)
    | Pending(position: Point)
    | Submit(position: Point)
    | Exited

  datatype PlatformInput =
    | KeyDown(keystroke: Keystroke, isHeld: bool)
    | KeyUp(keystroke: Keystroke)
    | ModifiersChanged(modifiers: Modifiers, capslock: bool)
    | MouseDown(button: MouseButton, position: Point, modifiers: Modifiers, clickCount: nat, firstMouse: bool)
    | MouseUp(button: MouseButton, position: Point, modifiers: Modifiers, clickCount: nat)
    | MouseMove(pressedButton: Option<MouseButton>, position: Point, modifiers: Modifiers)
    | MouseExited(pressedButton: Option<MouseButton>, position: Point, modifiers: Modifiers)
    | ScrollWheel(position: Point, delta: ScrollDelta, touchPhase: TouchPhase, modifiers: Modifiers)
    | FileDrop(drop: FileDropEvent)
}
