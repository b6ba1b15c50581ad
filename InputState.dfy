/** The declared semantic state of an input field (`WPCInputState`). */
module InputStates {
  import opened Options

  datatype InputState = Normal | Focused | Disabled | Error(message: string) {

    /** `isDisabled`: true for `.disabled` only. */
    predicate IsDisabled() {
      Disabled?
    }

    /** `errorMessage`: the payload of `.error`, nil for the three other cases. */
    function ErrorMessage(): Option<string> {
      if Error? then Some(message) else None
    }
  }

  /**
   * The two accessors characterise the variant: `isDisabled` singles out
   * `.disabled`, `errorMessage` carries exactly the message of `.error`, and
   * no state is both disabled and in error.
   */
  lemma AccessorsCharacterise(s: InputState, m: string)
    ensures s.IsDisabled() <==> s == Disabled
    ensures s.ErrorMessage() == Some(m) <==> s == Error(m)
    ensures s.ErrorMessage() == None <==> !s.Error?
    ensures !(s.IsDisabled() && s.ErrorMessage().Some?)
  {
  }

  /** Equality is structural: two error states are equal iff their messages are. */
  lemma ErrorEquality(m1: string, m2: string)
    ensures Error(m1) == Error(m2) <==> m1 == m2
    ensures Error(m1) != Normal && Error(m1) != Focused && Error(m1) != Disabled
  {
  }
}
