/**
 * The click-dismiss rule of a window. The window remembers which mouse
 * buttons were down when it was entered; the release of such a button only
 * forgets that button, so the same click that opened the dialog cannot close
 * it, and the next release is the one that dismisses.
 */
module ClickDismissal {

  /** The outcome of one call of click_dismiss. */
  datatype Outcome = Outcome(handled: bool, dismissed: bool, buttonState: bv32)

  /**
   * One release event with SDL button mask `mask` (0 for the keyboard), when
   * `enabled` is the window's does_click_dismiss() and `buttonState` the
   * buttons still remembered as down at entry.
   */
  function Step(enabled: bool, buttonState: bv32, mask: bv32): (r: Outcome)
    ensures r.handled == enabled
    ensures r.dismissed ==> r.handled
    ensures r.buttonState & !buttonState == 0
  {
    if !enabled then Outcome(false, false, buttonState)
    else if buttonState & mask == 0 then Outcome(true, true, buttonState)
    else Outcome(true, false, buttonState & !mask)
  }

  /** When click dismissal is off, the event is not handled and nothing is forgotten. */
  lemma DisabledIgnores(buttonState: bv32, mask: bv32)
    ensures Step(false, buttonState, mask) == Outcome(false, false, buttonState)
  {
  }

  /** A release only ever forgets the buttons in its own mask. */
  lemma OtherButtonsKept(enabled: bool, buttonState: bv32, mask: bv32)
    ensures Step(enabled, buttonState, mask).buttonState & !mask == buttonState & !mask
  {
  }

  /** The keyboard passes mask 0, which never matches a remembered button: it always dismisses. */
  lemma KeyboardDismisses(buttonState: bv32)
    ensures Step(true, buttonState, 0).dismissed
    ensures Step(true, buttonState, 0).buttonState == buttonState
  {
  }

  /** Releasing a button that was down at entry is swallowed, and that button is forgotten. */
  lemma HeldReleaseSwallowed(buttonState: bv32, mask: bv32)
    requires buttonState & mask != 0
    ensures !Step(true, buttonState, mask).dismissed
    ensures Step(true, buttonState, mask).buttonState & mask == 0
  {
  }

  /** After the swallowed release, the next release of the same button dismisses. */
  lemma NextReleaseDismisses(buttonState: bv32, mask: bv32)
    requires buttonState & mask != 0
    ensures var first := Step(true, buttonState, mask);
      !first.dismissed && Step(true, first.buttonState, mask).dismissed
  {
  }

  /** A release of a button that was not down at entry dismisses at once. */
  lemma FreshReleaseDismisses(buttonState: bv32, mask: bv32)
    requires buttonState & mask == 0
    ensures Step(true, buttonState, mask).dismissed
  {
  }
}
