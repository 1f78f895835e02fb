/*
 * Event normalisation and prompt layout of the AppKit window
 * (crates/gpui/src/platform/mac/window.rs): the order in which prompt
 * buttons are added to an alert, the user's window-tabbing preference, and
 * the per-window state the event handlers keep: the last key-equivalent
 * event, the first-mouse flag, the synthetic-drag counter, the last
 * modifiers event and whether files are being dragged in.
 *
 * The input context, the input handler and the timer that drives the
 * synthetic drag are not modelled; the event callback is a flag saying
 * whether one is installed.
 */
module MacWindow {
  import opened Wrappers
  import opened MacInput
  import MacEvents

  // ----- prompts -----

  /** An answer of a prompt: its title and whether it cancels. */
  datatype PromptButton = PromptButton(title: string, isCancel: bool)

  /** A button added to the alert: its title, its tag (the answer's index) and its key equivalent. */
  datatype AlertButton = AlertButton(title: string, tag: nat, keyEquivalent: string)

  /** The index of the last answer before `n` that does not cancel. */
  function LastNonCancel(answers: seq<PromptButton>, n: nat): (r: Option<nat>)
    requires n <= |answers|
    ensures r.Some? ==> r.value < n && !answers[r.value].isCancel
    ensures r.Some? ==> forall j | r.value < j < n :: answers[j].isCancel
    ensures r.None? ==> forall j | 0 <= j < n :: answers[j].isCancel
  {
    if n == 0 then None
    else if !answers[n - 1].isCancel then Some(n - 1)
    else LastNonCancel(answers, n - 1)
  }

  /**
   * The answer moved to the end of the alert so that it takes the focus
   * and the Space key: the last answer that does not cancel, unless that
   * is the first answer (which already gets Return).
   */
  function FocusedAnswer(answers: seq<PromptButton>): (r: Option<nat>)
    ensures r.Some? ==> 0 < r.value < |answers| && !answers[r.value].isCancel
    ensures r.Some? ==> forall j | r.value < j < |answers| :: answers[j].isCancel
    ensures r.None? ==> forall j | 0 < j < |answers| :: answers[j].isCancel
  {
    var last := LastNonCancel(answers, |answers|);
    if last.Some? && last.value > 0 then last else None
  }

  /** The indices below `hi` other than `skip`, in order. */
  function IndicesExcept(hi: nat, skip: Option<nat>): seq<nat>
  {
    if hi == 0 then []
    else IndicesExcept(hi - 1, skip) + (if Some(hi - 1) == skip then [] else [hi - 1])
  }

  /** `IndicesExcept` lists each index below `hi` but `skip` once, in increasing order. */
  lemma {:induction false} IndicesExceptListsOthers(hi: nat, skip: Option<nat>)
    ensures var r := IndicesExcept(hi, skip);
      && (forall k | 0 <= k < |r| :: r[k] < hi && Some(r[k]) != skip)
      && (forall i | 0 <= i < hi && Some(i) != skip :: i in r)
      && (forall k, l | 0 <= k < l < |r| :: r[k] < r[l])
  {
    if hi > 0 {
      IndicesExceptListsOthers(hi - 1, skip);
    }
  }

  /** The answers' indices in the order their buttons are added: every other answer in order, then the focused one. */
  function PromptOrder(answers: seq<PromptButton>): (r: seq<nat>)
    ensures forall k | 0 <= k < |r| :: r[k] < |answers|
  {
    IndicesExceptListsOthers(|answers|, FocusedAnswer(answers));
    var focused := FocusedAnswer(answers);
    IndicesExcept(|answers|, focused) + (if focused.Some? then [focused.value] else [])
  }

  /** The button an answer gets: its title, its index as tag, and Escape when it cancels. */
  function ButtonFor(answers: seq<PromptButton>, ix: nat): AlertButton
    requires ix < |answers|
  {
    AlertButton(answers[ix].title, ix, if answers[ix].isCancel then [MacEvents.EscapeKey as char] else "")
  }

  /**
   * Every answer gets exactly one button. When some answer after the first
   * does not cancel, the last button added, which macOS focuses, is the
   * last such answer; the others keep their order.
   */
  lemma {:induction false} PromptOrderCoversAnswers(answers: seq<PromptButton>)
    ensures |PromptOrder(answers)| == |answers|
    ensures forall i | 0 <= i < |answers| :: i in PromptOrder(answers)
    ensures forall k | 0 <= k < |PromptOrder(answers)| :: PromptOrder(answers)[k] < |answers|
    ensures FocusedAnswer(answers).Some? ==> PromptOrder(answers)[|answers| - 1] == FocusedAnswer(answers).value
    ensures forall k, l | 0 <= k < l < |answers| - 1 :: PromptOrder(answers)[k] < PromptOrder(answers)[l]
  {
    var focused := FocusedAnswer(answers);
    var rest := IndicesExcept(|answers|, focused);
    IndicesExceptLength(|answers|, focused);
    IndicesExceptListsOthers(|answers|, focused);
    if focused.Some? {
      forall i | 0 <= i < |answers|
        ensures i in PromptOrder(answers)
      {
        if i != focused.value {
          assert i in rest;
        }
      }
    }
  }

  /** The number of indices `IndicesExcept` lists. */
  lemma {:induction false} IndicesExceptLength(hi: nat, skip: Option<nat>)
    ensures |IndicesExcept(hi, skip)| == (if skip.Some? && skip.value < hi then hi - 1 else hi)
  {
    if hi > 0 {
      IndicesExceptLength(hi - 1, skip);
    }
  }

  /**
   * `prompt`'s button loop: every answer but the focused one in order,
   * with Escape bound to the cancelling ones, then the focused answer.
   */
  method AddAlertButtons(answers: seq<PromptButton>) returns (buttons: seq<AlertButton>)
    ensures |buttons| == |PromptOrder(answers)|
    ensures forall k | 0 <= k < |buttons| :: buttons[k] == ButtonFor(answers, PromptOrder(answers)[k])
  {
    var focused := FocusedAnswer(answers);
    buttons := [];
    ghost var order: seq<nat> := [];
    var ix := 0;
    while ix < |answers|
      invariant 0 <= ix <= |answers|
      invariant order == IndicesExcept(ix, focused)
      invariant |buttons| == |order|
      invariant forall k | 0 <= k < |order| :: order[k] < |answers| && buttons[k] == ButtonFor(answers, order[k])
    {
      if Some(ix) != focused {
        var key := if answers[ix].isCancel then [MacEvents.EscapeKey as char] else "";
        buttons := buttons + [AlertButton(answers[ix].title, ix, key)];
        order := order + [ix];
      }
      ix := ix + 1;
    }
    assert order + (if focused.Some? then [focused.value] else []) == PromptOrder(answers);
    if focused.Some? {
      buttons := buttons + [AlertButton(answers[focused.value].title, focused.value, "")];
      order := order + [focused.value];
    }
  }

  // ----- window tabbing -----

  datatype UserTabbingPreference = Never | Always | InFullScreen

  /**
   * `get_user_tabbing_preference`: the `AppleWindowTabbingMode` default,
   * absent or not a string reading as empty.
   */
  function TabbingPreference(value: Option<string>): (r: UserTabbingPreference)
    ensures r == Never <==> value == Some("manual")
    ensures r == Always <==> value == Some("always")
  {
    var s := if value.Some? then value.value else "";
    if s == "manual" then Never
    else if s == "always" then Always
    else InFullScreen
  }

  /** What opening a window next to the main window does about tabs. */
  datatype TabAction = TabAction(addAsTab: bool, orderFront: bool)

  /** The main window as seen from a window being opened. */
  datatype MainWindow = MainWindow(isNewWindow: bool, fullScreen: bool, canTab: bool, visible: bool)

  /**
   * A new window joins the main window as a tab when automatic tabbing is
   * allowed, there is another main window, the preference asks for it
   * (always, or in full screen while the main window is), and the main
   * window can take tabs and is visible; it is then ordered front unless
   * the main window is full screen.
   */
  function TabbingAction(allowsTabbing: bool, main: Option<MainWindow>, preference: UserTabbingPreference): (r: TabAction)
    ensures r.orderFront ==> r.addAsTab
    ensures r.addAsTab <==>
      && allowsTabbing && main.Some? && !main.value.isNewWindow
      && (preference == Always || (preference == InFullScreen && main.value.fullScreen))
      && main.value.canTab && main.value.visible
  {
    if allowsTabbing && main.Some? && !main.value.isNewWindow then
      var shouldAddAsTab := preference == Always || (preference == InFullScreen && main.value.fullScreen);
      if shouldAddAsTab && main.value.canTab && main.value.visible then
        TabAction(true, !main.value.fullScreen)
      else TabAction(false, false)
    else TabAction(false, false)
  }

  /**
   * In terms of the stored default: "manual" never tabs, "always" tabs
   * whenever it can, and anything else tabs only beside a full-screen main
   * window.
   */
  lemma TabbingFromDefault(value: Option<string>, main: MainWindow)
    requires !main.isNewWindow && main.canTab && main.visible
    ensures TabbingAction(true, Some(main), TabbingPreference(value)).addAsTab <==>
      value == Some("always") || (value != Some("manual") && main.fullScreen)
  {
  }

  // ----- mouse remapping -----

  /**
   * A control-left click is a right click: a left mouse-down or mouse-up
   * with Control held becomes a right-button event with Control cleared
   * and a click count of 1; every other event is kept.
   */
  function CtrlClickRemapped(e: PlatformInput): (r: PlatformInput)
    ensures (e.MouseDown? || e.MouseUp?) && e.button == Left && e.modifiers.control ==>
      r == e.(button := Right, modifiers := e.modifiers.(control := false), clickCount := 1)
    ensures !((e.MouseDown? || e.MouseUp?) && e.button == Left && e.modifiers.control) ==> r == e
  {
    match e
    case MouseDown(Left, position, modifiers, _, firstMouse) =>
      if modifiers.control then MouseDown(Right, position, modifiers.(control := false), 1, firstMouse) else e
    case MouseUp(Left, position, modifiers, _) =>
      if modifiers.control then MouseUp(Right, position, modifiers.(control := false), 1) else e
    case _ => e
  }

  /** After remapping no left-button press or release has Control held, and remapping again changes nothing. */
  lemma RemapLeavesNoControlLeft(e: PlatformInput)
    ensures var r := CtrlClickRemapped(e);
      !((r.MouseDown? || r.MouseUp?) && r.button == Left && r.modifiers.control)
    ensures CtrlClickRemapped(CtrlClickRemapped(e)) == CtrlClickRemapped(e)
  {
  }

  // ----- window state -----

  /** The fields of `MacWindowState` that the event handlers update. */
  class MacWindowState {
    var lastKeyEquivalent: Option<PlatformInput>
    var syntheticDragCounter: nat
    var previousModifiersChangedEvent: Option<PlatformInput>
    var externalFilesDragged: bool
    var firstMouse: bool
    var hasEventCallback: bool

    /** A new window: nothing recorded, no drag, no callback yet. */
    constructor ()
      ensures lastKeyEquivalent.None? && syntheticDragCounter == 0 && previousModifiersChangedEvent.None?
      ensures !externalFilesDragged && !firstMouse && !hasEventCallback
    {
      lastKeyEquivalent := None;
      syntheticDragCounter := 0;
      previousModifiersChangedEvent := None;
      externalFilesDragged := false;
      firstMouse := false;
      hasEventCallback := false;
    }

    /** `on_input`: an event callback is installed. */
    method SetEventCallback()
      modifies this`hasEventCallback
      ensures hasEventCallback
    {
      hasEventCallback := true;
    }

    /**
     * The first step of `handle_key_event`, with `event` the translated
     * AppKit event: a key-equivalent key-down is recorded; a plain
     * key-down takes the record and is dropped when it is the same event;
     * key-ups go on. Anything else, or no event, is not handled.
     */
    method HandleKeyEvent(event: Option<PlatformInput>, keyEquivalent: bool) returns (dispatch: bool)
      modifies this`lastKeyEquivalent
      ensures event.Some? && event.value.KeyDown? && keyEquivalent ==> lastKeyEquivalent == event && dispatch
      ensures event.Some? && event.value.KeyDown? && !keyEquivalent ==>
        lastKeyEquivalent.None? && (dispatch <==> old(lastKeyEquivalent) != event)
      ensures !(event.Some? && event.value.KeyDown?) ==> lastKeyEquivalent == old(lastKeyEquivalent)
      ensures !(event.Some? && event.value.KeyDown?) ==> (dispatch <==> event.Some? && event.value.KeyUp?)
    {
      if event.None? {
        return false;
      }
      match event.value {
        case KeyDown(_, _) =>
          if keyEquivalent {
            lastKeyEquivalent := event;
          } else {
            var previous := lastKeyEquivalent;
            lastKeyEquivalent := None;
            if previous == event {
              return false;
            }
          }
          dispatch := true;
        case KeyUp(_) =>
          dispatch := true;
        case _ =>
          dispatch := false;
      }
    }

    /** `accepts_first_mouse`: the next left click is the one that focused the window. */
    method AcceptsFirstMouse() returns (r: bool)
      modifies this`firstMouse
      ensures firstMouse && r
    {
      firstMouse := true;
      r := true;
    }

    /**
     * `handle_view_event`, with `event` the translated AppKit event. A
     * control-left click is remapped to a right click; otherwise a left
     * mouse-down while the first-mouse flag is set is marked as first mouse
     * and clears the flag. A drag with a button held bumps the synthetic
     * drag counter and starts a synthetic drag with the new value, unless
     * files are being dragged in; a mouse-up bumps the counter, ending any
     * synthetic drag. A modifiers event equal to the previous one is
     * dropped; any other becomes the previous one. What is left is handed
     * to the event callback when one is installed.
     */
    method HandleViewEvent(event: Option<PlatformInput>) returns (delivered: Option<PlatformInput>, dragStarted: Option<nat>)
      modifies this`firstMouse, this`syntheticDragCounter, this`previousModifiersChangedEvent
      ensures event.None? ==> delivered.None? && dragStarted.None? && unchanged(this)
      ensures syntheticDragCounter >= old(syntheticDragCounter)
      ensures dragStarted.Some? ==> dragStarted.value == syntheticDragCounter == old(syntheticDragCounter) + 1
      ensures event.Some? ==> var e := CtrlClickRemapped(event.value);
        && (e.MouseMove? && e.pressedButton.Some? ==>
              (dragStarted.Some? <==> !externalFilesDragged)
              && syntheticDragCounter == old(syntheticDragCounter) + (if externalFilesDragged then 0 else 1))
        && (e.MouseUp? ==> syntheticDragCounter == old(syntheticDragCounter) + 1 && dragStarted.None?)
        && (!(e.MouseMove? && e.pressedButton.Some?) && !e.MouseUp? ==>
              syntheticDragCounter == old(syntheticDragCounter) && dragStarted.None?)
        && (e.MouseDown? && e.button == Left && old(firstMouse) ==>
              !firstMouse && delivered == (if hasEventCallback then Some(e.(firstMouse := true)) else None))
        && (!(e.MouseDown? && e.button == Left && old(firstMouse)) ==> firstMouse == old(firstMouse))
        && (e.ModifiersChanged? && old(previousModifiersChangedEvent) == Some(e) ==>
              delivered.None? && previousModifiersChangedEvent == old(previousModifiersChangedEvent))
        && (e.ModifiersChanged? && old(previousModifiersChangedEvent) != Some(e) ==>
              previousModifiersChangedEvent == Some(e) && delivered == (if hasEventCallback then Some(e) else None))
        && (!e.ModifiersChanged? ==> previousModifiersChangedEvent == old(previousModifiersChangedEvent))
        && (!e.ModifiersChanged? && !(e.MouseDown? && e.button == Left && old(firstMouse)) ==>
              delivered == (if hasEventCallback then Some(e) else None))
    {
      dragStarted := None;
      if event.None? {
        return None, None;
      }
      var e := CtrlClickRemapped(event.value);
      if e.MouseDown? && e.button == Left && firstMouse {
        e := e.(firstMouse := true);
        firstMouse := false;
      }
      match e {
        case MouseMove(pressed, _, _) =>
          if pressed.Some? && !externalFilesDragged {
            syntheticDragCounter := syntheticDragCounter + 1;
            dragStarted := Some(syntheticDragCounter);
          }
        case MouseUp(_, _, _, _) =>
          syntheticDragCounter := syntheticDragCounter + 1;
        case ModifiersChanged(_, _) =>
          if previousModifiersChangedEvent == Some(e) {
            return None, None;
          }
          previousModifiersChangedEvent := Some(e);
        case _ =>
      }
      delivered := if hasEventCallback then Some(e) else None;
    }

    /**
     * One tick of `synthetic_drag`: the drag started with `dragId` replays
     * its event while the counter still equals its id, and stops for good
     * once a later drag or a mouse-up has bumped the counter.
     */
    method SyntheticDragTick(dragId: nat) returns (replay: bool)
      ensures replay <==> syntheticDragCounter == dragId
    {
      replay := syntheticDragCounter == dragId;
    }

    /** `dragging_entered`: files entering the window mark an external drag when the callback takes the event. */
    method DraggingEntered(paths: Option<seq<string>>, position: Point) returns (delivered: Option<PlatformInput>)
      modifies this`externalFilesDragged
      ensures delivered.Some? <==> paths.Some? && hasEventCallback
      ensures delivered.Some? ==> delivered.value == FileDrop(Entered(position, paths.value))
      ensures externalFilesDragged == (delivered.Some? || old(externalFilesDragged))
    {
      delivered := None;
      if paths.Some? && hasEventCallback {
        delivered := Some(FileDrop(Entered(position, paths.value)));
        externalFilesDragged := true;
      }
    }

    /** `dragging_exited`: the drag has left, so synthetic drags may run again. */
    method DraggingExited() returns (delivered: Option<PlatformInput>)
      modifies this`externalFilesDragged
      ensures !externalFilesDragged
      ensures delivered == (if hasEventCallback then Some(FileDrop(Exited)) else None)
    {
      delivered := if hasEventCallback then Some(FileDrop(Exited)) else None;
      externalFilesDragged := false;
    }
  }
}
