/**
 * The phone field (`WPCPhoneField`): the bound phone is reduced to digits,
 * cut to `maxDigits` and regrouped in runs of three separated by one space
 * on every change, unless the field is disabled.
 */
module PhoneFields {
  import opened Options
  import opened Chars
  import opened InputStates
  import opened FieldStates
  import Color = SemanticColors

  /** What is written before the digit at index `i`: one space when `i` is a non-zero multiple of 3. */
  function Separator(i: nat): string {
    if i != 0 && i % 3 == 0 then " " else ""
  }

  /** The grouped rendering of `d`, built digit by digit as the formatting loop appends it. */
  function Grouped(d: string): string {
    if d == [] then "" else Grouped(d[..|d| - 1]) + Separator(|d| - 1) + [d[|d| - 1]]
  }

  /** `formatPhone(input)` for a field whose limit is `maxDigits`. */
  function Formatted(input: string, maxDigits: nat): string {
    Grouped(Prefix(Digits(input), maxDigits))
  }

  /** `formatPhone`: keep the digits, cut to `maxDigits`, append them with a space before every third. */
  method FormatPhone(input: string, maxDigits: nat) returns (result: string)
    ensures result == Formatted(input, maxDigits)
  {
    var digits := Digits(input);
    var trimmed := Prefix(digits, maxDigits);
    result := "";
    for i := 0 to |trimmed|
      invariant result == Grouped(trimmed[..i])
    {
      assert trimmed[..i + 1][..i] == trimmed[..i];
      if i != 0 && i % 3 == 0 {
        result := result + " ";
      }
      result := result + [trimmed[i]];
    }
    assert trimmed[..|trimmed|] == trimmed;
  }

  /** `s` with every space removed. */
  function RemoveSpaces(s: string): (r: string)
    ensures |r| <= |s|
  {
    if s == [] then [] else (if s[0] == ' ' then [] else [s[0]]) + RemoveSpaces(s[1..])
  }

  lemma {:induction false} RemoveSpacesAppend(a: string, b: string)
    ensures RemoveSpaces(a + b) == RemoveSpaces(a) + RemoveSpaces(b)
  {
    if a == [] {
      assert a + b == b;
    } else {
      assert (a + b)[1..] == a[1..] + b;
      RemoveSpacesAppend(a[1..], b);
    }
  }

  /** For `n` digits the rendering has `n + (n - 1) / 3` characters, none for no digit. */
  lemma {:induction false} GroupedLength(d: string)
    ensures |Grouped(d)| == if d == [] then 0 else |d| + (|d| - 1) / 3
  {
    if d != [] {
      GroupedLength(d[..|d| - 1]);
    }
  }

  /**
   * The layout of the rendering: position `k` holds a space iff `k % 4 == 3`,
   * and otherwise the digit with index `k - k / 4`.
   */
  lemma {:induction false} GroupedAt(d: string, k: nat)
    requires AllDigits(d) && k < |Grouped(d)|
    ensures k - k / 4 < |d|
    ensures Grouped(d)[k] == ' ' <==> k % 4 == 3
    ensures k % 4 != 3 ==> Grouped(d)[k] == d[k - k / 4]
  {
    var n := |d|;
    var front := d[..n - 1];
    var g := Grouped(front);
    assert Grouped(d) == g + Separator(n - 1) + [d[n - 1]];
    GroupedLength(front);
    GroupedLength(d);
    var q, t := (n - 1) / 3, (n - 1) % 3;
    assert n - 1 == 3 * q + t;
    if k < |g| {
      GroupedAt(front, k);
    } else if k == |g| && Separator(n - 1) == " " {
      assert t == 0 && q >= 1;
      assert |g| == 4 * q - 1;
    } else {
      assert k == |Grouped(d)| - 1;
      assert k == 4 * q + t;
    }
  }

  /**
   * The digit with index `i` sits at position `i + i / 3`, and a space stands
   * immediately before it iff `i` is a non-zero multiple of 3.
   */
  lemma DigitPlacement(d: string, i: nat)
    requires AllDigits(d) && i < |d|
    ensures i + i / 3 < |Grouped(d)|
    ensures Grouped(d)[i + i / 3] == d[i]
    ensures i > 0 ==> (Grouped(d)[i + i / 3 - 1] == ' ' <==> i % 3 == 0)
  {
    GroupedLength(d);
    var q, t := i / 3, i % 3;
    assert i + i / 3 == 4 * q + t;
    GroupedAt(d, i + i / 3);
    if i > 0 {
      GroupedAt(d, i + i / 3 - 1);
    }
  }

  /** No leading, trailing or doubled space. */
  lemma NoStraySpaces(d: string)
    requires AllDigits(d)
    ensures var r := Grouped(d);
      && (r != [] ==> r[0] != ' ' && r[|r| - 1] != ' ')
      && (forall k :: 0 <= k < |r| - 1 ==> !(r[k] == ' ' && r[k + 1] == ' '))
  {
    var r := Grouped(d);
    GroupedLength(d);
    if r != [] {
      GroupedAt(d, 0);
      var n := |d|;
      var q, t := (n - 1) / 3, (n - 1) % 3;
      assert |r| - 1 == 4 * q + t;
      GroupedAt(d, |r| - 1);
    }
    forall k | 0 <= k < |r| - 1
      ensures !(r[k] == ' ' && r[k + 1] == ' ')
    {
      GroupedAt(d, k);
      GroupedAt(d, k + 1);
    }
  }

  /** Removing the spaces, or keeping only the digits, gives the digit string back. */
  lemma {:induction false} GroupedStrips(d: string)
    requires AllDigits(d)
    ensures RemoveSpaces(Grouped(d)) == d
    ensures Digits(Grouped(d)) == d
  {
    if d != [] {
      var front := d[..|d| - 1];
      GroupedStrips(front);
      var sep := Separator(|d| - 1);
      var last := [d[|d| - 1]];
      RemoveSpacesAppend(Grouped(front) + sep, last);
      RemoveSpacesAppend(Grouped(front), sep);
      DigitsAppend(Grouped(front) + sep, last);
      DigitsAppend(Grouped(front), sep);
      assert front + last == d;
    }
  }

  /**
   * The formatted phone holds exactly the first `maxDigits` digits of the
   * input, in order: removing its spaces gives them back, and so does
   * filtering its digits.
   */
  lemma FormattedKeepsDigits(input: string, maxDigits: nat)
    ensures RemoveSpaces(Formatted(input, maxDigits)) == Prefix(Digits(input), maxDigits)
    ensures Digits(Formatted(input, maxDigits)) == Prefix(Digits(input), maxDigits)
    ensures |Digits(Formatted(input, maxDigits))| <= maxDigits
  {
    GroupedStrips(Prefix(Digits(input), maxDigits));
  }

  /** Only the digits of the input matter: every other character is dropped. */
  lemma FormattedDependsOnDigitsOnly(input: string, maxDigits: nat)
    ensures Formatted(input, maxDigits) == Formatted(Digits(input), maxDigits)
  {
    DigitsIdempotent(input);
  }

  /** Formatting a formatted phone changes nothing. */
  lemma FormattedIdempotent(input: string, maxDigits: nat)
    ensures Formatted(Formatted(input, maxDigits), maxDigits) == Formatted(input, maxDigits)
  {
    FormattedKeepsDigits(input, maxDigits);
  }

  /** Appending one digit appends its separator and the digit. */
  lemma GroupedSnoc(s: string, c: char)
    ensures Grouped(s + [c]) == Grouped(s) + Separator(|s|) + [c]
  {
    assert (s + [c])[..|s|] == s;
  }

  /** Shifting an index by whole groups keeps its separator. */
  lemma SeparatorShift(shift: nat, i: nat)
    requires shift % 3 == 0 && i > 0
    ensures Separator(shift + i) == Separator(i)
  {
    var m := shift / 3;
    assert shift + i == 3 * m + i;
  }

  /** Appending a single digit after whole groups starts a new group. */
  lemma GroupedConcatOne(a: string, c: char)
    requires a != [] && |a| % 3 == 0
    ensures Grouped(a + [c]) == Grouped(a) + " " + Grouped([c])
  {
    GroupedSnoc(a, c);
    GroupedSnoc([], c);
  }

  lemma SeparatorOfSum(a: string, front: string)
    requires |a| % 3 == 0 && front != []
    ensures Separator(|a + front|) == Separator(|front|)
  {
    SeparatorShift(|a|, |front|);
  }

  lemma RegroupTail(g: string, ga: string, gf: string, sep: string, c: char)
    requires g == ga + " " + gf
    ensures g + sep + [c] == ga + " " + (gf + sep + [c])
  {
  }

  /** Moving the last digit of `b` out of a concatenation already split at `a`. */
  lemma GroupedConcatStep(a: string, front: string, c: char)
    requires a != [] && |a| % 3 == 0 && front != []
    requires Grouped(a + front) == Grouped(a) + " " + Grouped(front)
    ensures Grouped(a + (front + [c])) == Grouped(a) + " " + Grouped(front + [c])
  {
    var x := a + front;
    assert a + (front + [c]) == x + [c];
    GroupedSnoc(x, c);
    SeparatorOfSum(a, front);
    RegroupTail(Grouped(x), Grouped(a), Grouped(front), Separator(|front|), c);
    GroupedSnoc(front, c);
  }

  /** A run of whole groups followed by more digits: the two renderings joined by one space. */
  lemma {:induction false} GroupedConcat(a: string, b: string)
    requires a != [] && |a| % 3 == 0 && b != []
    ensures Grouped(a + b) == Grouped(a) + " " + Grouped(b)
  {
    var front, c := b[..|b| - 1], b[|b| - 1];
    assert b == front + [c];
    if front == [] {
      GroupedConcatOne(a, c);
    } else {
      GroupedConcat(a, front);
      GroupedConcatStep(a, front, c);
    }
  }

  class PhoneField {
    const state: InputState
    const helperText: Option<string>
    /** Digits kept, not counting a country prefix; at least one. */
    const maxDigits: nat
    /** The bound phone. */
    var phone: string
    var isFocused: bool

    /** `init`: `maxDigits` is clamped to at least 1. */
    constructor (phone: string, state: InputState, helperText: Option<string>, maxDigits: int)
      ensures this.maxDigits == if maxDigits < 1 then 1 else maxDigits
      ensures this.phone == phone && this.state == state && this.helperText == helperText && !isFocused
    {
      this.phone := phone;
      this.state := state;
      this.helperText := helperText;
      this.maxDigits := if maxDigits < 1 then 1 else maxDigits;
      this.isFocused := false;
    }

    function EffectiveState(): InputState
      reads this
    {
      Resolve(state, isFocused)
    }

    /**
     * The border drawn for the effective state: error and disabled as
     * declared, and focus turns only a normal field's border into the
     * primary action role.
     */
    function BorderRole(): (r: Color.ColorRole)
      reads this
      ensures r == Color.Error <==> state.Error?
      ensures r == Color.Divider <==> state.Disabled?
      ensures r == Color.ActionPrimary <==> state.Focused? || (state.Normal? && isFocused)
      ensures r == Color.Border <==> state.Normal? && !isFocused
    {
      BorderColor(EffectiveState())
    }

    /** The hint announced for the effective state: focus never changes it. */
    function Hint(): (hint: string)
      reads this
      ensures hint == AccessibilityHint(state)
    {
      AccessibilityHint(EffectiveState())
    }

    /** The caption shown for the effective state: focus never changes it. */
    function FooterShown(): (f: Footer)
      reads this
      ensures f == FooterFor(state, helperText)
    {
      FooterFor(EffectiveState(), helperText)
    }

    /**
     * The bound phone becomes `newValue` and the change handler runs: an
     * enabled field reformats it, a disabled one keeps it as given. The
     * handler's own write re-fires it; on an enabled field the phone it
     * stores is already formatted, so that second run leaves it as it is.
     */
    method PhoneChanged(newValue: string)
      modifies this
      ensures isFocused == old(isFocused)
      ensures EffectiveState().IsDisabled() ==> phone == newValue
      ensures !EffectiveState().IsDisabled() ==> phone == Formatted(newValue, maxDigits)
      ensures !EffectiveState().IsDisabled() ==> Formatted(phone, maxDigits) == phone
    {
      phone := newValue;
      if !EffectiveState().IsDisabled() {
        phone := FormatPhone(newValue, maxDigits);
        FormattedIdempotent(newValue, maxDigits);
      }
    }

    /** The clear button is shown iff there is a phone and the field is not disabled. */
    function ShowsClearButton(): (shown: bool)
      reads this
      ensures shown <==> phone != "" && !state.IsDisabled()
    {
      phone != "" && !EffectiveState().IsDisabled()
    }

    /** Tapping the clear button empties the phone, which hides the button. */
    method ClearTapped()
      modifies this
      ensures phone == "" && isFocused == old(isFocused)
      ensures !ShowsClearButton()
    {
      phone := "";
    }
  }
}
