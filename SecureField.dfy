/**
 * The password field (`WPCSecureField`): one bound text shown masked or
 * plain, and a reveal toggle that is offered only when revealing is allowed.
 */
module SecureFields {
  import opened Options
  import opened InputStates
  import opened FieldStates
  import Color = SemanticColors

  /** Which kind of text field renders the bound text. */
  datatype FieldKind = Plain | Masked

  /** Accessibility value of a non-empty secret. */
  const MaskedValue: string := "\U{2022}\U{2022}\U{2022}\U{2022}"
  const HideLabel: string := "Ocultar contrase\U{00F1}a"
  const ShowLabel: string := "Mostrar contrase\U{00F1}a"

  /** The accessibility value of a secret: nothing for an empty one, the same mask for any other. */
  function AccessibilityValue(text: string): (v: string)
    ensures v == "" <==> text == ""
    ensures text != "" ==> v == MaskedValue
  {
    if text == "" then "" else MaskedValue
  }

  /** The mask reveals neither the content nor the length of a non-empty secret. */
  lemma MaskHidesSecret(a: string, b: string)
    requires a != "" && b != ""
    ensures AccessibilityValue(a) == AccessibilityValue(b)
  {
  }

  class SecureField {
    const state: InputState
    const helperText: Option<string>
    const isRevealable: bool
    /** The bound text. */
    var text: string
    var isFocused: bool
    /** `@State isRevealed`. */
    var isRevealed: bool

    /** A new field starts masked. */
    constructor (text: string, state: InputState, helperText: Option<string>, isRevealable: bool)
      ensures this.text == text && this.state == state && this.helperText == helperText
      ensures this.isRevealable == isRevealable && !isRevealed && !isFocused
      ensures FieldShown() == Masked
    {
      this.text := text;
      this.state := state;
      this.helperText := helperText;
      this.isRevealable := isRevealable;
      this.isRevealed := false;
      this.isFocused := false;
    }

    function EffectiveState(): InputState
      reads this
    {
      Resolve(state, isFocused)
    }

    /**
     * The border drawn for the effective state: error and disabled as
     * declared, and focus turns only a normal field's border into the
     * primary action role.
     */
    function BorderRole(): (r: Color.ColorRole)
      reads this
      ensures r == Color.Error <==> state.Error?
      ensures r == Color.Divider <==> state.Disabled?
      ensures r == Color.ActionPrimary <==> state.Focused? || (state.Normal? && isFocused)
      ensures r == Color.Border <==> state.Normal? && !isFocused
    {
      BorderColor(EffectiveState())
    }

    /** The hint announced for the effective state: focus never changes it. */
    function Hint(): (hint: string)
      reads this
      ensures hint == AccessibilityHint(state)
    {
      AccessibilityHint(EffectiveState())
    }

    /** The caption shown for the effective state: focus never changes it. */
    function FooterShown(): (f: Footer)
      reads this
      ensures f == FooterFor(state, helperText)
    {
      FooterFor(EffectiveState(), helperText)
    }

    /** The plain field is used iff revealing is allowed and the secret is revealed. */
    function FieldShown(): (k: FieldKind)
      reads this
      ensures k == Plain <==> isRevealable && isRevealed
    {
      if isRevealable && isRevealed then Plain else Masked
    }

    /** The toggle is offered only when revealing is allowed. */
    function ToggleOffered(): (offered: bool)
      reads this
      ensures offered <==> isRevealable
    {
      isRevealable
    }

    /** The toggle is disabled exactly when the field is. */
    function ToggleDisabled(): (d: bool)
      reads this
      ensures d <==> state.IsDisabled()
    {
      EffectiveState().IsDisabled()
    }

    /** The toggle's label names the action it performs. */
    function ToggleLabel(): (caption: string)
      reads this
      ensures caption == HideLabel <==> isRevealed
      ensures caption == ShowLabel <==> !isRevealed
    {
      if isRevealed then HideLabel else ShowLabel
    }

    /**
     * A tap on the toggle negates `isRevealed`; a toggle that is not offered,
     * or is disabled, does not react.
     */
    method ToggleTapped()
      modifies this
      ensures ToggleOffered() && !ToggleDisabled() ==> isRevealed == !old(isRevealed)
      ensures !(ToggleOffered() && !ToggleDisabled()) ==> isRevealed == old(isRevealed)
      ensures text == old(text) && isFocused == old(isFocused)
    {
      if ToggleOffered() && !ToggleDisabled() {
        isRevealed := !isRevealed;
      }
    }
  }
}
