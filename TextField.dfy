/**
 * The single-line text field (`WPCTextField`): a clear button that wins
 * over an optional right icon, the shared state resolution, border, footer
 * and accessibility hint.
 */
module TextFields {
  import opened Options
  import opened InputStates
  import opened FieldStates
  import Color = SemanticColors

  /** What is drawn after the text: the clear button, the right icon (enabled or not), or nothing. */
  datatype Trailing = ClearButton | RightIcon(systemImage: string, enabled: bool) | NoTrailing

  class TextField {
    const state: InputState
    const helperText: Option<string>
    const showsClearButton: bool
    const rightSystemImage: Option<string>
    /** Whether an `onTapRightIcon` action was supplied. */
    const hasRightIconAction: bool
    /** The bound text. */
    var text: string
    var isFocused: bool

    constructor (text: string, state: InputState, helperText: Option<string>, showsClearButton: bool,
                 rightSystemImage: Option<string>, hasRightIconAction: bool)
      ensures this.text == text && this.state == state && this.helperText == helperText
      ensures this.showsClearButton == showsClearButton && this.rightSystemImage == rightSystemImage
      ensures this.hasRightIconAction == hasRightIconAction && !isFocused
    {
      this.text := text;
      this.state := state;
      this.helperText := helperText;
      this.showsClearButton := showsClearButton;
      this.rightSystemImage := rightSystemImage;
      this.hasRightIconAction := hasRightIconAction;
      this.isFocused := false;
    }

    function EffectiveState(): InputState
      reads this
    {
      Resolve(state, isFocused)
    }

    /**
     * The border drawn for the effective state: error and disabled as
     * declared, and focus turns only a normal field's border into the
     * primary action role.
     */
    function BorderRole(): (r: Color.ColorRole)
      reads this
      ensures r == Color.Error <==> state.Error?
      ensures r == Color.Divider <==> state.Disabled?
      ensures r == Color.ActionPrimary <==> state.Focused? || (state.Normal? && isFocused)
      ensures r == Color.Border <==> state.Normal? && !isFocused
    {
      BorderColor(EffectiveState())
    }

    /** The hint announced for the effective state: focus never changes it. */
    function Hint(): (hint: string)
      reads this
      ensures hint == AccessibilityHint(state)
    {
      AccessibilityHint(EffectiveState())
    }

    /** The caption shown for the effective state: focus never changes it. */
    function FooterShown(): (f: Footer)
      reads this
      ensures f == FooterFor(state, helperText)
    {
      FooterFor(EffectiveState(), helperText)
    }

    /** `shouldShowClearButton(state:)`: enabled by configuration, a field that is not disabled, and some text. */
    function ShouldShowClearButton(s: InputState): (shown: bool)
      reads this
      ensures shown <==> showsClearButton && !s.IsDisabled() && text != ""
    {
      if !showsClearButton then false
      else if s.IsDisabled() then false
      else text != ""
    }

    /**
     * `trailingView(for:)`: the clear button takes precedence over the right
     * icon; the icon is disabled when there is no action or the state is
     * disabled.
     */
    function TrailingView(s: InputState): (t: Trailing)
      reads this
      ensures t.ClearButton? <==> ShouldShowClearButton(s)
      ensures t.RightIcon? <==> !ShouldShowClearButton(s) && rightSystemImage.Some?
      ensures t.RightIcon? ==> t.systemImage == rightSystemImage.value
      ensures t.RightIcon? ==> (t.enabled <==> hasRightIconAction && !s.IsDisabled())
    {
      if ShouldShowClearButton(s) then ClearButton
      else match rightSystemImage
        case Some(image) => RightIcon(image, !(!hasRightIconAction || s.IsDisabled()))
        case None => NoTrailing
    }

    /** The clear button's action empties the text, after which the button is hidden. */
    method ClearTapped()
      modifies this
      ensures text == "" && isFocused == old(isFocused)
      ensures forall s: InputState :: !ShouldShowClearButton(s)
    {
      text := "";
    }
  }
}
