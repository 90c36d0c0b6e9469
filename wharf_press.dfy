/**
 * The dock's pressed button (WharfState.pressed_button and pressed_state): a button press draws
 * the button pressed and remembers it; releasing the pointer undraws it and opens or closes its
 * sub-folder, or runs its function. Which bars are drawn pressed (set_astbar_pressed) is kept as
 * a set of buttons; what the release does to folders and to AfterStep proper is returned as an
 * effect.
 */
module WharfPress {
  import opened Common
  import opened WharfFolders

  /** A button of the dock: button `index` of `folder`. */
  datatype ButtonRef = ButtonRef(folder: Folder, index: nat)

  /** The pressed-button part of WharfState, and the buttons whose bars are drawn pressed. */
  datatype PressState = PressState(pressed: Option<ButtonRef>, state: int, shown: set<ButtonRef>)

  /** The button of an optional one, as a set. */
  function Members(b: Option<ButtonRef>): (r: set<ButtonRef>)
    ensures forall x | x in r :: b == Some(x)
    ensures b.Some? ==> b.value in r
  {
    if b.Some? then {b.value} else {}
  }

  /** The bars drawn pressed are exactly the pressed button's. */
  predicate Consistent(s: PressState)
  {
    s.shown == Members(s.pressed)
  }

  /**
   * press_wharf_button: a different button pressed before is undrawn and forgotten; a button
   * not pressed yet is drawn pressed and remembered with the modifier state. Pressing the
   * pressed button again changes nothing.
   */
  function Press(s: PressState, b: Option<ButtonRef>, state: int): (r: PressState)
    ensures r.pressed == b
    ensures r.state == if b.Some? && b != s.pressed then state else s.state
    ensures r.shown <= s.shown + Members(b)
    ensures forall x | x in s.shown + Members(b) ::
              x in r.shown <==> (x in s.shown && (s.pressed != Some(x) || b == Some(x))) || (b == Some(x) && s.pressed != b)
  {
    var s1 := if s.pressed.Some? && s.pressed != b then PressState(None, s.state, s.shown - {s.pressed.value}) else s;
    if b.Some? && s1.pressed != b then PressState(b, state, s1.shown + {b.value}) else s1
  }

  /** release_pressure's bookkeeping: the pressed button is undrawn and forgotten. */
  function Release(s: PressState): (r: PressState)
    ensures r.pressed.None? && r.state == s.state
    ensures r.shown <= s.shown
    ensures forall x | x in s.shown :: x in r.shown <==> s.pressed != Some(x)
  {
    if s.pressed.Some? then PressState(None, s.state, s.shown - {s.pressed.value}) else s
  }

  /** Pressing keeps the drawn bars in step with the pressed button. */
  lemma PressConsistent(s: PressState, b: Option<ButtonRef>, state: int)
    requires Consistent(s)
    ensures Consistent(Press(s, b, state))
  {
    var r := Press(s, b, state);
    if b.Some? {
      assert b.value in r.shown;
    }
  }

  /** Releasing leaves nothing drawn pressed. */
  lemma ReleaseConsistent(s: PressState)
    requires Consistent(s)
    ensures Consistent(Release(s)) && Release(s).shown == {}
  {
  }

  /** A second press of the same button keeps the state of the first. */
  lemma PressTwice(s: PressState, b: ButtonRef, state: int, state': int)
    ensures Press(Press(s, Some(b), state), Some(b), state') == Press(s, Some(b), state)
  {
  }

  /** A press with no button (the pointer left the dock) forgets the pressed one, as a release does. */
  lemma PressNothingReleases(s: PressState, state: int)
    ensures Press(s, None, state) == Release(s)
  {
  }

  /** Pressing and releasing a button leaves a consistent state with nothing pressed or drawn. */
  lemma PressThenRelease(s: PressState, b: ButtonRef, state: int)
    requires Consistent(s)
    ensures Release(Press(s, Some(b), state)).pressed.None?
    ensures Release(Press(s, Some(b), state)).shown == {}
  {
    PressConsistent(s, Some(b), state);
    ReleaseConsistent(Press(s, Some(b), state));
  }

  /** What releasing a button does besides the bookkeeping. */
  datatype Effect =
    | NoEffect
    | WithdrawFolder(folder: Folder)
    | DisplayFolder(folder: Folder)
    | SendCommand(action: Action)

  /**
   * The effect of releasing button `b` (`mapped`: its sub-folder is shown): a button with a
   * sub-folder closes a shown one and opens a hidden one; otherwise its function is sent,
   * except by a swallowing button that already holds its window.
   */
  function ReleaseEffect(b: Button, mapped: bool): (e: Effect)
    ensures b.folder != null ==> e == if mapped then WithdrawFolder(b.folder) else DisplayFolder(b.folder)
    ensures e.SendCommand? <==> b.folder == null && b.action.Some? && (!Has(b.flags, SwallowTarget) || !b.swallowed)
    ensures e.SendCommand? ==> e.action == b.action.value
    ensures b.folder == null && b.action.None? ==> e == NoEffect
  {
    if b.folder != null then
      if mapped then WithdrawFolder(b.folder) else DisplayFolder(b.folder)
    else if b.action.Some? then
      if !Has(b.flags, SwallowTarget) || !b.swallowed then SendCommand(b.action.value) else NoEffect
    else NoEffect
  }

  /** The pressed-button state of the dock. */
  class WharfState {
    var pressed: Option<ButtonRef>
    var pressedState: int
    var shown: set<ButtonRef>

    /** WharfState as memset leaves it: nothing pressed. */
    constructor ()
      ensures pressed.None? && pressedState == 0 && shown == {}
    {
      pressed, pressedState, shown := None, 0, {};
    }

    function Current(): PressState
      reads this
    {
      PressState(pressed, pressedState, shown)
    }

    /** press_wharf_button. */
    method PressWharfButton(b: Option<ButtonRef>, state: int)
      modifies this
      ensures Current() == Press(old(Current()), b, state)
    {
      if pressed.Some? && pressed != b {
        shown := shown - {pressed.value};
        pressed := None;
      }
      if b.Some? && pressed != b {
        shown := shown + {b.value};
        pressedState := state;
        pressed := b;
      }
    }

    /**
     * release_pressure: the pressed button's effect, if a button is pressed, and the pressed
     * state cleared. The pressed button must be one of its folder's.
     */
    method ReleasePressure() returns (e: Effect)
      requires pressed.Some? ==> pressed.value.index < pressed.value.folder.buttons.Length
      modifies this
      ensures Current() == Release(old(Current()))
      ensures old(pressed).None? ==> e == NoEffect
      ensures old(pressed).Some? ==>
                var b := old(pressed).value.folder.buttons[old(pressed).value.index];
                e == ReleaseEffect(b, b.folder != null && Has(b.folder.flags, Mapped))
    {
      e := NoEffect;
      if pressed.Some? {
        var b := pressed.value.folder.buttons[pressed.value.index];
        if b.folder != null {
          if Has(b.folder.flags, Mapped) {
            e := WithdrawFolder(b.folder);
          } else {
            e := DisplayFolder(b.folder);
          }
        } else if b.action.Some? {
          if !Has(b.flags, SwallowTarget) || !b.swallowed {
            e := SendCommand(b.action.value);
          }
        }
        shown := shown - {pressed.value};
        pressed := None;
      }
    }
  }
}
