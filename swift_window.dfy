/*
 * The Swift-hosted macOS window (crates/gpui/src/platform/mac/swift_window.rs).
 * Swift reports events as C structs (gpui_macos_ffi.h) together with the
 * native window handle; a registry maps each handle to a weak reference to
 * the window's state, and the handlers translate the structs into GPUI's
 * platform input and hand them to the window's callbacks.
 *
 * The callbacks are flags saying whether one is installed; what a callback
 * answers is a parameter. The weak reference becomes an `alive` flag.
 * Coordinates are `f32` read as `real`.
 */
module SwiftWindow {
  import opened Wrappers
  import opened MacInput

  type u32 = x: int | 0 <= x < 0x1_0000_0000
  type usize = x: int | 0 <= x < 0x1_0000_0000_0000_0000

  // ----- modifier bits (gpui_macos_ffi.h) -----

  const ModShift: bv32 := 1 << 0
  const ModPlatform: bv32 := 1 << 1
  const ModControl: bv32 := 1 << 2
  const ModAlt: bv32 := 1 << 3
  const ModFunction: bv32 := 1 << 4
  const ModCapsLock: bv32 := 1 << 5

  /** `modifiers_from_bits`: each modifier is its own bit of the mask. */
  function ModifiersFromBits(bits: bv32): Modifiers
  {
    Modifiers(
      control := bits & ModControl != 0,
      alt := bits & ModAlt != 0,
      shift := bits & ModShift != 0,
      platform := bits & ModPlatform != 0,
      functionKey := bits & ModFunction != 0)
  }

  /** The mask Swift sends for a set of modifiers. */
  function BitsOf(m: Modifiers): (bits: bv32)
    ensures bits & ModCapsLock == 0
  {
    (if m.shift then ModShift else 0)
    | (if m.platform then ModPlatform else 0)
    | (if m.control then ModControl else 0)
    | (if m.alt then ModAlt else 0)
    | (if m.functionKey then ModFunction else 0)
  }

  /** Encoding modifiers and decoding them again gives them back. */
  lemma ModifiersRoundTrip(m: Modifiers)
    ensures ModifiersFromBits(BitsOf(m)) == m
  {
    var bits := BitsOf(m);
    assert (bits & ModShift != 0) == m.shift;
    assert (bits & ModPlatform != 0) == m.platform;
    assert (bits & ModControl != 0) == m.control;
    assert (bits & ModAlt != 0) == m.alt;
    assert (bits & ModFunction != 0) == m.functionKey;
  }

  /** Decoding reads only the five modifier bits: the rest of the mask is ignored. */
  lemma ModifierBitsRoundTrip(bits: bv32)
    ensures BitsOf(ModifiersFromBits(bits)) == bits & 0x1F
  {
  }

  /** Caps Lock is reported apart from the modifiers: setting it changes none of them. */
  lemma CapsLockIsNoModifier(bits: bv32)
    ensures ModifiersFromBits(bits | ModCapsLock) == ModifiersFromBits(bits)
  {
    assert (bits | ModCapsLock) & 0x1F == bits & 0x1F;
    ModifierBitsRoundTrip(bits);
    ModifierBitsRoundTrip(bits | ModCapsLock);
    ModifiersRoundTrip(ModifiersFromBits(bits));
    ModifiersRoundTrip(ModifiersFromBits(bits | ModCapsLock));
  }

  // ----- mouse and key events -----

  datatype FfiMouseType = MoveType | DownType | UpType | DragType | ScrollType

  datatype FfiMouseButton = LeftButton | RightButton | MiddleButton

  datatype FfiMouseEvent = FfiMouseEvent(
    kind: FfiMouseType, button: FfiMouseButton, x: real, y: real, dx: real, dy: real,
    clickCount: u32, modifiers: bv32)

  datatype FfiKeyPhase = KeyDownPhase | KeyUpPhase | FlagsChangedPhase

  /** A key event; `key` and `keyChar` are the C strings, `None` when null or not UTF-8. */
  datatype FfiKeyEvent = FfiKeyEvent(
    phase: FfiKeyPhase, modifiers: bv32, isRepeat: bool, key: Option<string>, keyChar: Option<string>)

  /** `mouse_button_from`: the three buttons Swift reports, one to one. */
  function MouseButtonFrom(b: FfiMouseButton): (r: MouseButton)
    ensures !r.Navigate?
  {
    match b
    case LeftButton => Left
    case RightButton => Right
    case MiddleButton => Middle
  }

  /** Distinct buttons stay distinct. */
  lemma MouseButtonFromInjective(b: FfiMouseButton, c: FfiMouseButton)
    ensures MouseButtonFrom(b) == MouseButtonFrom(c) ==> b == c
  {
  }

  /**
   * The input a mouse event becomes: a press or release of its button, a
   * move without a pressed button for both moves and drags, and a scroll by
   * lines in the moved phase. A press is never a first-mouse press.
   */
  function MouseInput(ev: FfiMouseEvent): (r: PlatformInput)
    ensures r.MouseDown? <==> ev.kind == DownType
    ensures r.MouseUp? <==> ev.kind == UpType
    ensures r.MouseMove? <==> ev.kind == MoveType || ev.kind == DragType
    ensures r.ScrollWheel? <==> ev.kind == ScrollType
    ensures r.MouseDown? ==> r.button == MouseButtonFrom(ev.button) && r.clickCount == ev.clickCount && !r.firstMouse
    ensures r.MouseUp? ==> r.button == MouseButtonFrom(ev.button) && r.clickCount == ev.clickCount
    ensures r.MouseMove? ==> r.pressedButton.None?
    ensures r.ScrollWheel? ==> r.delta == LineDelta(Point(ev.dx, ev.dy)) && r.touchPhase == Moved
    ensures (r.MouseDown? || r.MouseUp? || r.MouseMove? || r.ScrollWheel?)
    ensures r.position == Point(ev.x, ev.y) && r.modifiers == ModifiersFromBits(ev.modifiers)
  {
    var position := Point(ev.x, ev.y);
    var modifiers := ModifiersFromBits(ev.modifiers);
    match ev.kind
    case DownType => MouseDown(MouseButtonFrom(ev.button), position, modifiers, ev.clickCount, false)
    case UpType => MouseUp(MouseButtonFrom(ev.button), position, modifiers, ev.clickCount)
    case MoveType => MouseMove(None, position, modifiers)
    case DragType => MouseMove(None, position, modifiers)
    case ScrollType => ScrollWheel(position, LineDelta(Point(ev.dx, ev.dy)), Moved, modifiers)
  }

  /**
   * The input a key event becomes. A missing key reads as the empty key;
   * a change of modifiers reports Caps Lock from its own bit.
   */
  function KeyInput(ev: FfiKeyEvent): (r: PlatformInput)
    ensures r.KeyDown? <==> ev.phase == KeyDownPhase
    ensures r.KeyUp? <==> ev.phase == KeyUpPhase
    ensures r.ModifiersChanged? <==> ev.phase == FlagsChangedPhase
    ensures r.KeyDown? ==> r.isHeld == ev.isRepeat
    ensures (r.KeyDown? || r.KeyUp?) ==>
      && r.keystroke.modifiers == ModifiersFromBits(ev.modifiers)
      && r.keystroke.key == (if ev.key.Some? then ev.key.value else "")
      && r.keystroke.keyChar == ev.keyChar
    ensures r.ModifiersChanged? ==>
      r.modifiers == ModifiersFromBits(ev.modifiers) && (r.capslock <==> ev.modifiers & ModCapsLock != 0)
  {
    var modifiers := ModifiersFromBits(ev.modifiers);
    var keystroke := Keystroke(modifiers, if ev.key.Some? then ev.key.value else "", ev.keyChar);
    match ev.phase
    case KeyDownPhase => KeyDown(keystroke, ev.isRepeat)
    case KeyUpPhase => KeyUp(keystroke)
    case FlagsChangedPhase => ModifiersChanged(modifiers, ev.modifiers & ModCapsLock != 0)
  }

  /**
   * `handle_file_drop_event`'s phases: 0 entered (no paths reads as none),
   * 1 pending, 2 exited, 3 submitted; any other phase is ignored.
   */
  function FileDropInput(phase: int, x: real, y: real, paths: Option<seq<string>>): (r: Option<PlatformInput>)
    ensures r.Some? <==> 0 <= phase <= 3
    ensures r.Some? ==> r.value.FileDrop?
    ensures phase == 0 ==> r == Some(FileDrop(Entered(Point(x, y), if paths.Some? then paths.value else [])))
    ensures phase == 1 ==> r == Some(FileDrop(Pending(Point(x, y))))
    ensures phase == 2 ==> r == Some(FileDrop(Exited))
    ensures phase == 3 ==> r == Some(FileDrop(Submit(Point(x, y))))
  {
    var position := Point(x, y);
    if phase == 0 then Some(FileDrop(Entered(position, if paths.Some? then paths.value else [])))
    else if phase == 1 then Some(FileDrop(Pending(position)))
    else if phase == 2 then Some(FileDrop(Exited))
    else if phase == 3 then Some(FileDrop(Submit(position)))
    else None
  }

  /** The phase Swift sends for each file-drop event. */
  function DropPhase(e: FileDropEvent): (phase: int)
  {
    match e
    case Entered(_, _) => 0
    case Pending(_) => 1
    case Exited => 2
    case Submit(_) => 3
  }

  /** Every file-drop event survives the trip through its phase number. */
  lemma FileDropRoundTrip(e: FileDropEvent)
    ensures var p := if e.Entered? then e.position else if e.Pending? then e.position
                     else if e.Submit? then e.position else Point(0.0, 0.0);
      FileDropInput(DropPhase(e), p.x, p.y, if e.Entered? then Some(e.paths) else None) == Some(FileDrop(e))
  {
  }

  // ----- window size -----

  /** `f32 as i32`: toward zero, saturating at the ends of `i32`. */
  function CastToI32(x: real): (r: int)
    ensures -0x8000_0000 <= r <= 0x7FFF_FFFF
    ensures -0x8000_0000 as real <= x <= 0x7FFF_FFFF as real ==> (r as real <= x < r as real + 1.0 || r as real - 1.0 < x <= r as real)
    ensures x >= 0.0 ==> r >= 0
  {
    var t := if x >= 0.0 then x.Floor else -((-x).Floor);
    if t > 0x7FFF_FFFF then 0x7FFF_FFFF
    else if t < -0x8000_0000 then -0x8000_0000
    else t
  }

  lemma ProductNonNegative(a: real, b: real)
    requires a >= 0.0 && b >= 0.0
    ensures a * b >= 0.0
  {
  }

  /** The drawable size, in device pixels, of a window `width` by `height` points at `scale`. */
  function DrawableSize(width: u32, height: u32, scale: real): (r: (int, int))
    ensures scale >= 0.0 ==> r.0 >= 0 && r.1 >= 0
  {
    if scale >= 0.0 then ProductNonNegative(width as real, scale); ProductNonNegative(height as real, scale); (CastToI32(width as real * scale), CastToI32(height as real * scale))
    else (CastToI32(width as real * scale), CastToI32(height as real * scale))
  }

  // ----- IME ranges -----

  /** A range of UTF-16 offsets in the focused text input. */
  datatype Range = Range(start: usize, end: usize)

  datatype Selection = Selection(range: Range, reversed: bool)

  /** `usize as u32`: the low 32 bits. */
  function ToU32(x: int): u32
  {
    x % 0x1_0000_0000
  }

  /** A range handed across the bridge: its start and its length. */
  function RangeReport(r: Range): (u32, u32)
  {
    (ToU32(r.start), ToU32(r.end - r.start))
  }

  /** The range Swift means by a location and a length: `loc..loc + len`. */
  function RangeOf(loc: usize, len: usize): (r: Range)
    requires loc + len < 0x1_0000_0000_0000_0000
    ensures r.start == loc && r.end - r.start == len
  {
    Range(loc, loc + len)
  }

  /** `ime_selected_range`: the selection as start, length and direction. */
  function SelectedRangeReport(sel: Option<Selection>): (r: Option<(u32, u32, bool)>)
    ensures r.Some? <==> sel.Some?
    ensures r.Some? ==> (r.value.0, r.value.1) == RangeReport(sel.value.range) && r.value.2 == sel.value.reversed
  {
    match sel
    case Some(s) => var (loc, len) := RangeReport(s.range); Some((loc, len, s.reversed))
    case None => None
  }

  /** A forward range inside 32 bits and its location and length determine each other. */
  lemma RangeRoundTrip(r: Range)
    requires r.start <= r.end < 0x1_0000_0000
    ensures RangeReport(r).0 + RangeReport(r).1 < 0x1_0000_0000_0000_0000
    ensures RangeOf(RangeReport(r).0, RangeReport(r).1) == r
  {
  }

  lemma ReportRoundTrip(loc: u32, len: u32)
    ensures RangeReport(RangeOf(loc, len)) == (loc, len)
  {
  }

  /** Beyond 32 bits the report wraps: a start of 2^32 reads as 0. */
  lemma RangeReportWraps()
    ensures RangeReport(Range(0x1_0000_0000, 0x1_0000_0001)) == (0, 1)
  {
  }

  // ----- the window registry -----

  type Handle = usize

  /**
   * What the handlers use of a window: whether it is still alive and which
   * callbacks are installed, and the selection and marked range of its
   * input handler, if it has one.
   */
  datatype WindowState = WindowState(
    alive: bool,
    eventCallback: bool,
    shouldCloseCallback: bool,
    closeCallback: bool,
    inputHandler: Option<InputHandler>)

  datatype InputHandler = InputHandler(selection: Option<Selection>, marked: Option<Range>)

  /** The window a handle names, if it is registered and still alive. */
  function Live(windows: map<Handle, WindowState>, handle: Handle): (r: Option<WindowState>)
    ensures r.Some? <==> handle in windows && windows[handle].alive
    ensures r.Some? ==> r.value == windows[handle]
  {
    if handle in windows && windows[handle].alive then Some(windows[handle]) else None
  }

  /** Whether a window may close: its callback decides, and it may when there is none. */
  function ShouldClose(windows: map<Handle, WindowState>, handle: Handle, answer: bool): (r: bool)
    ensures !r ==> Live(windows, handle).Some? && windows[handle].shouldCloseCallback && !answer
    ensures Live(windows, handle).None? ==> r
  {
    match Live(windows, handle)
    case Some(w) => if w.shouldCloseCallback then answer else true
    case None => true
  }

  /** `handle_window_closed`: the close callback is taken out and called. */
  function Closed(windows: map<Handle, WindowState>, handle: Handle): (r: (map<Handle, WindowState>, bool))
    ensures r.1 <==> Live(windows, handle).Some? && windows[handle].closeCallback
    ensures r.1 ==> handle in r.0 && !r.0[handle].closeCallback
    ensures forall h :: h in windows && h != handle ==> h in r.0 && r.0[h] == windows[h]
    ensures r.0.Keys == windows.Keys
  {
    match Live(windows, handle)
    case Some(w) => (windows[handle := w.(closeCallback := false)], w.closeCallback)
    case None => (windows, false)
  }

  /** The close callback runs at most once: a second close finds it gone. */
  lemma CloseFiresOnce(windows: map<Handle, WindowState>, handle: Handle)
    ensures !Closed(Closed(windows, handle).0, handle).1
  {
    var (after, fired) := Closed(windows, handle);
    if !fired && handle in after {
      assert after[handle] == windows[handle] || !after[handle].closeCallback;
    }
  }

  /** The thread's window registry. */
  class Registry {
    var windows: map<Handle, WindowState>

    constructor ()
      ensures windows == map[]
    {
      windows := map[];
    }

    /** `register_window`: the handle now names this window. */
    method Register(handle: Handle, state: WindowState)
      modifies this
      ensures windows == old(windows)[handle := state]
    {
      windows := windows[handle := state];
    }

    method Unregister(handle: Handle)
      modifies this
      ensures windows == old(windows) - {handle}
    {
      windows := windows - {handle};
    }

    /** The input delivered to a live window's event callback, if it has one. */
    method Deliver(handle: Handle, input: PlatformInput) returns (delivered: Option<PlatformInput>)
      ensures delivered.Some? <==> Live(windows, handle).Some? && windows[handle].eventCallback
      ensures delivered.Some? ==> delivered.value == input
    {
      delivered := None;
      var w := Live(windows, handle);
      if w.Some? && w.value.eventCallback {
        delivered := Some(input);
      }
    }

    method HandleMouseEvent(handle: Handle, ev: FfiMouseEvent) returns (delivered: Option<PlatformInput>)
      ensures delivered.Some? <==> Live(windows, handle).Some? && windows[handle].eventCallback
      ensures delivered.Some? ==> delivered.value == MouseInput(ev)
    {
      delivered := Deliver(handle, MouseInput(ev));
    }

    method HandleKeyEvent(handle: Handle, ev: FfiKeyEvent) returns (delivered: Option<PlatformInput>)
      ensures delivered.Some? <==> Live(windows, handle).Some? && windows[handle].eventCallback
      ensures delivered.Some? ==> delivered.value == KeyInput(ev)
    {
      delivered := Deliver(handle, KeyInput(ev));
    }

    method HandleFileDropEvent(handle: Handle, phase: int, x: real, y: real, paths: Option<seq<string>>)
      returns (delivered: Option<PlatformInput>)
      ensures delivered.Some? <==> Live(windows, handle).Some? && windows[handle].eventCallback && 0 <= phase <= 3
      ensures delivered.Some? ==> Some(delivered.value) == FileDropInput(phase, x, y, paths)
    {
      delivered := None;
      var input := FileDropInput(phase, x, y, paths);
      if input.Some? {
        delivered := Deliver(handle, input.value);
      }
    }

    /** `handle_should_close`, where `answer` is what the window's callback returns. */
    method HandleShouldClose(handle: Handle, answer: bool) returns (r: bool)
      ensures r == ShouldClose(windows, handle, answer)
    {
      r := true;
      var w := Live(windows, handle);
      if w.Some? && w.value.shouldCloseCallback {
        r := answer;
      }
    }

    /** `handle_window_closed`: reports whether the close callback ran. */
    method HandleWindowClosed(handle: Handle) returns (fired: bool)
      modifies this
      ensures (windows, fired) == Closed(old(windows), handle)
    {
      fired := false;
      var w := Live(windows, handle);
      if w.Some? {
        fired := w.value.closeCallback;
        windows := windows[handle := w.value.(closeCallback := false)];
      }
    }

    /** `ime_selected_range`: nothing without a live window that has an input handler. */
    method ImeSelectedRange(handle: Handle) returns (r: Option<(u32, u32, bool)>)
      ensures r.Some? ==> Live(windows, handle).Some? && windows[handle].inputHandler.Some?
      ensures r == (match Live(windows, handle)
        case Some(w) => if w.inputHandler.Some? then SelectedRangeReport(w.inputHandler.value.selection) else None
        case None => None)
    {
      r := None;
      var w := Live(windows, handle);
      if w.Some? && w.value.inputHandler.Some? {
        r := SelectedRangeReport(w.value.inputHandler.value.selection);
      }
    }

    /** `ime_marked_range`: the marked range as location and length. */
    method ImeMarkedRange(handle: Handle) returns (r: Option<(u32, u32)>)
      ensures r.Some? <==> (Live(windows, handle).Some? && windows[handle].inputHandler.Some?
        && windows[handle].inputHandler.value.marked.Some?)
      ensures r.Some? ==> r.value == RangeReport(windows[handle].inputHandler.value.marked.value)
    {
      r := None;
      var w := Live(windows, handle);
      if w.Some? && w.value.inputHandler.Some? && w.value.inputHandler.value.marked.Some? {
        r := Some(RangeReport(w.value.inputHandler.value.marked.value));
      }
    }
  }
}
