/**
 * The button (`WPCButton`): an action guarded by the disabled and loading
 * flags, and its accessibility label and hint. It keeps no state.
 */
module Buttons {
  import opened Options
  import opened ButtonStyles

  /** Accessibility hint of a loading button. */
  const LoadingHint: string := "Cargando"

  datatype Button = Button(
    title: string,
    variant: ButtonVariant,
    size: ButtonSize,
    isFullWidth: bool,
    isLoading: bool,
    isDisabled: bool,
    accessibilityLabel: Option<string>)
  {
    /** The tap handler's guard: the action runs only on an enabled button that is not loading. */
    function Tap(): (runsAction: bool)
      ensures runsAction <==> !isDisabled && !isLoading
    {
      !(isDisabled || isLoading)
    }

    /** The control is disabled while disabled or loading. */
    function ControlDisabled(): (d: bool)
      ensures d <==> isDisabled || isLoading
    {
      isDisabled || isLoading
    }

    /** The hint announces loading, and is empty otherwise. */
    function AccessibilityHint(): (hint: string)
      ensures hint == LoadingHint <==> isLoading
      ensures !isLoading ==> hint == ""
    {
      if isLoading then LoadingHint else ""
    }

    /** The supplied accessibility label, or the title when none is supplied. */
    function AccessibilityLabelText(): (text: string)
      ensures accessibilityLabel.Some? ==> text == accessibilityLabel.value
      ensures accessibilityLabel.None? ==> text == title
    {
      accessibilityLabel.GetOr(title)
    }
  }

  /**
   * The guard and the disabled modifier agree: a tap runs the action exactly
   * when the control is enabled, so a loading button never runs it.
   */
  lemma GuardMatchesDisabledControl(b: Button)
    ensures b.Tap() <==> !b.ControlDisabled()
    ensures b.isLoading ==> !b.Tap() && b.AccessibilityHint() == LoadingHint
  {
  }
}
