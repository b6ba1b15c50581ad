/**
 * The search field (`WPCSearchField`): a clear button that empties the query
 * and then notifies `onClear`.
 */
module SearchFields {
  import opened Options
  import opened InputStates
  import opened FieldStates
  import Color = SemanticColors

  class SearchField {
    const state: InputState
    /** Whether an `onClear` callback was supplied. */
    const hasOnClear: bool
    /** The bound query. */
    var query: string
    var isFocused: bool

    constructor (query: string, state: InputState, hasOnClear: bool)
      ensures this.query == query && this.state == state && this.hasOnClear == hasOnClear && !isFocused
    {
      this.query := query;
      this.state := state;
      this.hasOnClear := hasOnClear;
      this.isFocused := false;
    }

    function EffectiveState(): InputState
      reads this
    {
      Resolve(state, isFocused)
    }

    /**
     * The border drawn for the effective state: error and disabled as
     * declared, and focus turns only a normal field's border into the
     * primary action role.
     */
    function BorderRole(): (r: Color.ColorRole)
      reads this
      ensures r == Color.Error <==> state.Error?
      ensures r == Color.Divider <==> state.Disabled?
      ensures r == Color.ActionPrimary <==> state.Focused? || (state.Normal? && isFocused)
      ensures r == Color.Border <==> state.Normal? && !isFocused
    {
      BorderColor(EffectiveState())
    }

    /** The hint announced for the effective state: focus never changes it. */
    function Hint(): (hint: string)
      reads this
      ensures hint == AccessibilityHint(state)
    {
      AccessibilityHint(EffectiveState())
    }

    /** The clear button is shown iff there is a query and the field is not disabled. */
    function ShowsClearButton(): (shown: bool)
      reads this
      ensures shown <==> query != "" && !state.IsDisabled()
    {
      query != "" && !EffectiveState().IsDisabled()
    }

    /**
     * The clear action: the query is reset, then `onClear` runs if there is
     * one. `observed` is the query that callback sees, so its value records
     * that the reset happens first.
     */
    method ClearTapped() returns (observed: Option<string>)
      modifies this
      ensures query == "" && isFocused == old(isFocused)
      ensures observed == if hasOnClear then Some("") else None
      ensures !ShowsClearButton()
    {
      query := "";
      if hasOnClear {
        observed := Some(query);
      } else {
        observed := None;
      }
    }
  }
}
