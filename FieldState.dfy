/**
 * The effective-state logic that the text, secure, phone, search and
 * text-area fields each repeat word for word, defined once here:
 * `resolveState` / `resolvedState`, `borderColor(for:)` and
 * `accessibilityHint(for:)` in all five, and `footer(for:)` in all of them
 * but the search field. Each field class applies these to its own
 * effective state. The one-time-code field has none of them.
 */
module FieldStates {
  import opened Options
  import opened InputStates
  import Color = SemanticColors

  /** Accessibility hint of a disabled field. */
  const DisabledHint: string := "Campo deshabilitado"

  /**
   * The effective state: the declared state combined with the live focus
   * flag. Only `.normal` reacts to focus; a disabled or error state wins
   * over focus, and an explicitly declared `.focused` stays focused.
   */
  function Resolve(declared: InputState, isFocused: bool): (r: InputState)
    ensures r.IsDisabled() <==> declared.IsDisabled()
    ensures r.ErrorMessage() == declared.ErrorMessage()
    ensures !declared.Normal? ==> r == declared
    ensures declared.Normal? ==> (r.Focused? <==> isFocused) && (r.Normal? <==> !isFocused)
  {
    match declared
    case Disabled => Disabled
    case Error(_) => declared
    case Focused => Focused
    case Normal => if isFocused then Focused else Normal
  }

  /**
   * Resolving an already effective state against a second focus flag is the
   * same as resolving the declared state against either flag: in particular
   * resolving twice with the same flag changes nothing.
   */
  lemma ResolveTwice(declared: InputState, f: bool, g: bool)
    ensures Resolve(Resolve(declared, f), g) == Resolve(declared, f || g)
    ensures Resolve(Resolve(declared, f), f) == Resolve(declared, f)
  {
  }

  /** The border role of each effective state: one role per variant, all distinct. */
  function BorderColor(s: InputState): (r: Color.ColorRole)
    ensures r == Color.Border <==> s.Normal?
    ensures r == Color.ActionPrimary <==> s.Focused?
    ensures r == Color.Divider <==> s.Disabled?
    ensures r == Color.Error <==> s.Error?
  {
    match s
    case Normal => Color.Border
    case Focused => Color.ActionPrimary
    case Disabled => Color.Divider
    case Error(_) => Color.Error
  }

  /** Two states get the same border exactly when they are the same variant. */
  lemma BorderColorSeparatesVariants(a: InputState, b: InputState)
    ensures BorderColor(a) == BorderColor(b) <==>
      (a.Normal? && b.Normal?) || (a.Focused? && b.Focused?) ||
      (a.Disabled? && b.Disabled?) || (a.Error? && b.Error?)
  {
  }

  /** The accessibility hint: the message of an error, a fixed text when disabled, empty otherwise. */
  function AccessibilityHint(s: InputState): (hint: string)
    ensures s.Error? ==> hint == s.message
    ensures s.Disabled? ==> hint == DisabledHint
    ensures s.Normal? || s.Focused? ==> hint == ""
  {
    match s
    case Error(m) => m
    case Disabled => DisabledHint
    case _ => ""
  }

  /** What the caption below a field shows. */
  datatype Footer = ErrorText(message: string) | HelperText(text: string) | NoFooter

  /**
   * `footer(for:)`: the error message when there is one, otherwise a
   * non-empty helper text, otherwise nothing.
   */
  function FooterFor(s: InputState, helperText: Option<string>): (f: Footer)
    ensures s.Error? ==> f == ErrorText(s.message)
    ensures !s.Error? && helperText.Some? && helperText.value != "" ==> f == HelperText(helperText.value)
    ensures !s.Error? && (helperText.None? || helperText.value == "") ==> f == NoFooter
  {
    match s.ErrorMessage()
    case Some(m) => ErrorText(m)
    case None =>
      if helperText.Some? && helperText.value != "" then HelperText(helperText.value) else NoFooter
  }
}
