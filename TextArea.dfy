/**
 * The multi-line text area (`WPCTextArea`): line-count clamps, an optional
 * length limit enforced on every change, and a "count/limit" counter.
 */
module TextAreas {
  import opened Options
  import opened Chars
  import opened InputStates
  import opened FieldStates
  import Color = SemanticColors

  /**
   * The length guard: with no limit the incoming text passes unchanged;
   * with a limit it is cut to its first `maxLength` characters when longer.
   * A negative limit makes `String.prefix` trap, so the limit must not be
   * negative.
   */
  function LengthGuard(incoming: string, maxLength: Option<int>): (r: string)
    requires maxLength.None? || maxLength.value >= 0
    ensures maxLength.None? ==> r == incoming
    ensures |r| <= |incoming| && r == incoming[..|r|]
    ensures maxLength.Some? ==> |r| <= maxLength.value
    ensures maxLength.Some? && |incoming| <= maxLength.value ==> r == incoming
    ensures maxLength.Some? && |incoming| > maxLength.value ==> |r| == maxLength.value
  {
    match maxLength
    case None => incoming
    case Some(m) => if |incoming| > m then Prefix(incoming, m) else incoming
  }

  /** Guarding an already guarded text changes nothing. */
  lemma LengthGuardIdempotent(incoming: string, maxLength: Option<int>)
    requires maxLength.None? || maxLength.value >= 0
    ensures LengthGuard(LengthGuard(incoming, maxLength), maxLength) == LengthGuard(incoming, maxLength)
  {
  }

  /** The decimal digit for `v < 10`. */
  function DigitChar(v: nat): char
    requires v < 10
  {
    ('0' as int + v) as char
  }

  /** Decimal rendering of a natural number, as string interpolation prints it. */
  function NaturalText(n: nat): (s: string)
    ensures s != [] && AllDigits(s)
    ensures n == 0 <==> s == "0"
    ensures n > 0 ==> s[0] != '0'
  {
    if n < 10 then [DigitChar(n)] else NaturalText(n / 10) + [DigitChar(n % 10)]
  }

  /** Decimal rendering of an integer, with a leading '-' when negative. */
  function IntText(n: int): string {
    if n < 0 then "-" + NaturalText(-n) else NaturalText(n)
  }

  /** The value of a string of decimal digits. */
  function ParseNatural(s: string): nat
    requires AllDigits(s)
  {
    if s == [] then 0 else ParseNatural(s[..|s| - 1]) * 10 + (s[|s| - 1] as int - '0' as int)
  }

  /** Reading a rendered natural number back gives the number. */
  lemma {:induction false} NaturalTextRoundTrip(n: nat)
    ensures ParseNatural(NaturalText(n)) == n
  {
    if n >= 10 {
      NaturalTextRoundTrip(n / 10);
      var s := NaturalText(n);
      assert s[..|s| - 1] == NaturalText(n / 10);
    }
  }

  /** The counter text "count/limit". */
  function CounterLabel(count: nat, limit: int): string {
    NaturalText(count) + "/" + IntText(limit)
  }

  /**
   * The counter reads back: the part before its only '/' is the character
   * count, and for a non-negative limit the part after it is the limit.
   */
  lemma CounterLabelReadsBack(count: nat, limit: int)
    ensures var t := CounterLabel(count, limit); var i := |NaturalText(count)|;
      && i < |t| && t[i] == '/' && '/' !in t[..i] && AllDigits(t[..i])
      && ParseNatural(t[..i]) == count
      && (limit >= 0 ==> AllDigits(t[i + 1..]) && ParseNatural(t[i + 1..]) == limit)
  {
    var t := CounterLabel(count, limit);
    var i := |NaturalText(count)|;
    assert t[..i] == NaturalText(count);
    NaturalTextRoundTrip(count);
    if limit >= 0 {
      assert t[i + 1..] == NaturalText(limit);
      NaturalTextRoundTrip(limit);
    }
  }

  class TextArea {
    const state: InputState
    const helperText: Option<string>
    const minLines: nat
    const maxLines: nat
    const maxLength: Option<int>
    /** The bound text. */
    var text: string
    var isFocused: bool

    /** `init`: at least one line, and never fewer maximum lines than minimum lines. */
    constructor (text: string, state: InputState, helperText: Option<string>,
                 minLines: int, maxLines: int, maxLength: Option<int>)
      ensures this.minLines >= 1 && this.maxLines >= this.minLines
      ensures this.minLines == if minLines < 1 then 1 else minLines
      ensures this.maxLines == if maxLines < this.minLines then this.minLines else maxLines
      ensures this.text == text && this.state == state && this.helperText == helperText
      ensures this.maxLength == maxLength && !isFocused
    {
      var lo := if minLines < 1 then 1 else minLines;
      this.minLines := lo;
      this.maxLines := if maxLines < lo then lo else maxLines;
      this.maxLength := maxLength;
      this.text := text;
      this.state := state;
      this.helperText := helperText;
      this.isFocused := false;
    }

    /** `resolvedState`: the shared resolution of the declared state and focus. */
    function ResolvedState(): InputState
      reads this
    {
      Resolve(state, isFocused)
    }

    /**
     * The border drawn for the effective state: error and disabled as
     * declared, and focus turns only a normal field's border into the
     * primary action role.
     */
    function BorderRole(): (r: Color.ColorRole)
      reads this
      ensures r == Color.Error <==> state.Error?
      ensures r == Color.Divider <==> state.Disabled?
      ensures r == Color.ActionPrimary <==> state.Focused? || (state.Normal? && isFocused)
      ensures r == Color.Border <==> state.Normal? && !isFocused
    {
      BorderColor(ResolvedState())
    }

    /** The hint announced for the effective state: focus never changes it. */
    function Hint(): (hint: string)
      reads this
      ensures hint == AccessibilityHint(state)
    {
      AccessibilityHint(ResolvedState())
    }

    /** The caption shown for the effective state: focus never changes it. */
    function FooterShown(): (f: Footer)
      reads this
      ensures f == FooterFor(state, helperText)
    {
      FooterFor(ResolvedState(), helperText)
    }

    /**
     * The bound text becomes `newValue` and the change handler runs: with a
     * limit, a longer text is cut to the limit.
     */
    method TextChanged(newValue: string)
      requires maxLength.None? || maxLength.value >= 0
      modifies this
      ensures text == LengthGuard(newValue, maxLength) && isFocused == old(isFocused)
    {
      text := newValue;
      if maxLength.Some? && |newValue| > maxLength.value {
        text := Prefix(newValue, maxLength.value);
      }
    }

    /** `counterView`: shown only with a limit, as the current count over the limit. */
    function CounterText(): (c: Option<string>)
      reads this
      ensures c.Some? <==> maxLength.Some?
      ensures c.Some? ==> c.value == CounterLabel(|text|, maxLength.value)
    {
      match maxLength
      case None => None
      case Some(m) => Some(CounterLabel(|text|, m))
    }
  }
}
