/**
 * The floating-label effect: whether a form group's wrapper carries
 * 'focused', as its control is loaded, focused and blurred.
 */
module FieldFocus {

  /** On page load a pre-filled control marks its wrapper. */
  function AfterLoad(focused: bool, value: string): bool {
    if value != "" then true else focused
  }

  /** The focus listener marks the wrapper. */
  function AfterFocus(focused: bool): bool {
    true
  }

  /** The blur listener unmarks the wrapper only when the control is empty. */
  function AfterBlur(focused: bool, value: string): bool {
    if value == "" then false else focused
  }

  /** An unmarked wrapper is marked on load exactly when its control is
      pre-filled; after focus and blur it stays marked exactly when the
      control holds a value. */
  lemma FocusFlag(focused: bool, value: string)
    ensures AfterLoad(false, value) <==> value != ""
    ensures AfterBlur(AfterFocus(focused), value) <==> value != ""
  {
  }
}
