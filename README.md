# WPCUILibrary input and style logic in Dafny

WPCUILibrary is a SwiftUI design-system library. It provides buttons, six text
inputs and a token-based theme. This project models the parts of it that are
logic rather than rendering, and proves what they promise:

- **The declared input state** `WPCInputState`, and the effective-state
  logic repeated word for word in the text, secure, phone, search and
  text-area fields. All five copy `resolveState`, `borderColor(for:)` and
  `accessibilityHint(for:)`; all but the search field also copy
  `footer(for:)`. The model defines these once in `FieldStates`. Each field
  class applies them to its effective state in `BorderRole`, `Hint` and
  `FooterShown`, whose contracts state the result in terms of the declared
  state and the focus flag. The one-time-code field has none of these
  helpers: it uses its declared state directly, with its own cell border and
  hint.
- **The one-time-code field** `WPCOTPField`. It is a class over an `array` of
  one-character cells, updated in place by `HandleChange`, whether a key is
  typed or a code is pasted. A focused cell moves forward or back, and the
  joined code is written back to the caller. `SyncFromCode` rebuilds the
  cells from the bound code.
- **The phone field** `WPCPhoneField`. `FormatPhone` is the formatting loop,
  proved against `Formatted`. That function keeps the digits, cuts them to
  `maxDigits` and groups them in threes with one space between groups. The
  field class reformats on change unless disabled, and has a clear action.
- **The text area** `WPCTextArea`: the line-count clamps, the `maxLength`
  guard and the "count/limit" counter.
- **The text, secure and search fields**: clear buttons, the trailing-view
  precedence, the reveal toggle and the masked accessibility value.
- **The button** `WPCButton`, modelled as an action guard, and **its style**
  `WPCButtonStyle` as lookup tables from variant, size and pressed state to
  colour roles and metrics.
- **The hex colour initialiser** `Color(hex:alpha:)`. It cleans the input,
  falls back to black when the cleaned length is not 6, and extracts the
  channels with 64-bit masks and shifts. The palette literals are checked
  against its format.

Colours are the semantic role names of `SemanticColors`, not colour values.
Callbacks are values that methods return. `HandleChange` returns the code that
`onComplete` receives, if any. The search field's `ClearTapped` returns the
query `onClear` observes, which records that the reset happens before the
callback.

Three behaviours of the one-time-code field's change handler
(`WPCOTPField.swift:81-115`) are easy to misread, so the model states them
explicitly:

- After a paste, focus moves one cell past the edited cell, not past the
  pasted run (`WPCOTPField.swift:98-103`). `FocusFollowsInput` and
  `PasteIntoSecondOfFour` state this. Pasting "12345" into the second cell of
  a four-cell row leaves focus on the third cell; it does not clear focus.
- `onComplete` fires on every change that ends with a full code, not once per
  transition into completeness (`WPCOTPField.swift:112-114`). `HandleChange`
  states this.
- A paste shorter than the remaining cells leaves the later cells as they
  were (`WPCOTPField.swift:90-94`). `PasteFillsRun` states this.

## Model

| member | source | states |
|---|---|---|
| Chars.Digits | Sources/WPCUILibrary/Components/Input/WPCOTPField.swift:85 | the filter keeps only digits and never lengthens the string |
| Chars.DigitsOfChar | Sources/WPCUILibrary/Components/Input/WPCOTPField.swift:85 | one character passes the filter iff it is a digit, so a non-digit contributes nothing; with `DigitsAppend` this fixes the filter on every string |
| Chars.DigitsOfAllDigits | Sources/WPCUILibrary/Components/Input/WPCPhoneField.swift:149 | a string made only of digits passes the filter whole |
| Chars.DigitsAppend | Sources/WPCUILibrary/Components/Input/WPCPhoneField.swift:149 | filtering a concatenation concatenates the filtered parts, so order is kept |
| Chars.DigitsIdempotent | Sources/WPCUILibrary/Components/Input/WPCPhoneField.swift:149 | filtering twice is filtering once |
| Chars.Prefix | Sources/WPCUILibrary/Components/Input/WPCOTPField.swift:91 | `prefix(n)` is a prefix of the input of length `n`, or the whole input when it is shorter |
| InputStates.AccessorsCharacterise | Sources/WPCUILibrary/Components/Input/WPCInputState.swift:9-17 | `isDisabled` holds exactly for `.disabled`; `errorMessage` is `m` exactly for `.error(m)` and nil for the other cases; no state is both disabled and in error |
| InputStates.ErrorEquality | Sources/WPCUILibrary/Components/Input/WPCInputState.swift:3-7 | equality is structural: two error states are equal iff their messages are, and an error state differs from the three other cases |
| FieldStates.Resolve | Sources/WPCUILibrary/Components/Input/WPCTextField.swift:160-171 | the effective state is disabled iff the declared one is, and carries the same error message; disabled, error and focused are kept as declared; normal becomes focused iff the field has focus |
| FieldStates.ResolveTwice | Sources/WPCUILibrary/Components/Input/WPCTextField.swift:160-171 | resolving an effective state again against another focus flag equals resolving the declared state against either flag, so resolution is idempotent |
| FieldStates.BorderColor | Sources/WPCUILibrary/Components/Input/WPCTextField.swift:173-184 | a total map: border iff normal, primary action iff focused, divider iff disabled, error iff error |
| FieldStates.BorderColorSeparatesVariants | Sources/WPCUILibrary/Components/Input/WPCSearchField.swift:92-99 | two states share a border colour exactly when they are the same variant |
| FieldStates.AccessibilityHint | Sources/WPCUILibrary/Components/Input/WPCTextArea.swift:195-201 | the hint is the error message for an error, "Campo deshabilitado" when disabled, and empty otherwise |
| FieldStates.FooterFor | Sources/WPCUILibrary/Components/Input/WPCTextField.swift:146-157 | the footer shows the error message if there is one, else a non-empty helper text, else nothing |
| OtpFields.JoinLength | Sources/WPCUILibrary/Components/Input/WPCOTPField.swift:109-112 | with at most one character per cell the joined code is no longer than the row, and has the row's length iff every cell is filled |
| OtpFields.CellsFromCode | Sources/WPCUILibrary/Components/Input/WPCOTPField.swift:117-125 | the rebuilt row has `length` cells; the first ones hold the code's digits in order, the rest are empty, so the row is left-packed |
| OtpFields.LeftPackedIsCellsOfJoin | Sources/WPCUILibrary/Components/Input/WPCOTPField.swift:109-124 | a left-packed row is all digits when joined, and is the row built from its own joined code |
| OtpFields.SyncRoundTrip | Sources/WPCUILibrary/Components/Input/WPCOTPField.swift:117-124 | rebuilding the cells from the joined code of a left-packed row restores the same cells |
| OtpFields.SyncThenJoin | Sources/WPCUILibrary/Components/Input/WPCOTPField.swift:117-124 | joining a rebuilt row gives the code's digits cut to the row length |
| OtpFields.SingleKeyChangesOneCell | Sources/WPCUILibrary/Components/Input/WPCOTPField.swift:85-88 | when the new value has at most one digit, only cell `index` changes, and it becomes that filtered value |
| OtpFields.PasteFillsRun | Sources/WPCUILibrary/Components/Input/WPCOTPField.swift:90-94 | a paste of several digits writes the first `k = min(digits, length - index)` of them into cells `index .. index+k-1`, and every other cell keeps its value |
| OtpFields.DistributedKeepsCellsOk | Sources/WPCUILibrary/Components/Input/WPCOTPField.swift:87-95 | writing filtered digits, by key or by paste, leaves every cell empty or a single digit |
| OtpFields.EditedCell | Sources/WPCUILibrary/Components/Input/WPCOTPField.swift:85-94 | after the change, the edited cell holds the first digit of the new value, or is empty when the value has no digit |
| OtpFields.FocusFollowsInput | Sources/WPCUILibrary/Components/Input/WPCOTPField.swift:98-106 | a value with a digit moves focus to the next cell or clears it on the last cell; a value without one moves focus back, except on the first cell, where focus stays |
| OtpFields.PasteIntoEmptyRow | Sources/WPCUILibrary/Components/Input/WPCOTPField.swift:90-112 | pasting digits into an empty row at the first cell leaves the row left-packed with the pasted code; the row is complete iff they fill it; focus goes to the second cell |
| OtpFields.PasteIntoSecondOfFour | Sources/WPCUILibrary/Components/Input/WPCOTPField.swift:90-103 | pasting "12345" at the second of four cells writes "1","2","3" after the unchanged first cell, and focus moves to the third cell |
| OtpFields.SafeSubscript | Sources/WPCUILibrary/Components/Input/WPCOTPField.swift:134-138 | the element is returned exactly when the index is in range, nil otherwise |
| OtpFields.OtpField.constructor | Sources/WPCUILibrary/Components/Input/WPCOTPField.swift:28-35 | the length is clamped to at least 1, the row has that many cells, all empty, and no cell is focused |
| OtpFields.OtpField.CellAt | Sources/WPCUILibrary/Components/Input/WPCOTPField.swift:72-79 | a cell's binding reads the cell when the index is in range and "" otherwise |
| OtpFields.OtpField.WriteDigits | Sources/WPCUILibrary/Components/Input/WPCOTPField.swift:87-95 | the cells become `Distributed` of the old cells: one filtered value written to its cell, or a paste written one digit per cell as far as the row reaches |
| OtpFields.OtpField.HandleChange | Sources/WPCUILibrary/Components/Input/WPCOTPField.swift:81-115 | a disabled field changes nothing and signals nothing; otherwise the cells become the distributed digits, focus moves by the focus rule, the code becomes the joined cells, and completion signals that code whenever it is full; every cell stays empty or a single digit, so the code is never longer than the row and is full exactly when every cell holds a digit |
| OtpFields.OtpField.SyncFromCode | Sources/WPCUILibrary/Components/Input/WPCOTPField.swift:117-125 | the cells become `CellsFromCode(code, length)`; the code and the focus are unchanged, and nothing is signalled |
| OtpFields.OtpField.CellBorderColor | Sources/WPCUILibrary/Components/Input/WPCOTPField.swift:127-131 | the error role in an error state whatever the focus; otherwise the primary action role exactly for the focused cell, the border for the others |
| OtpFields.OtpField.AccessibilityHint | Sources/WPCUILibrary/Components/Input/WPCOTPField.swift:69 | "Campo deshabilitado" exactly when disabled, empty otherwise |
| PhoneFields.FormatPhone | Sources/WPCUILibrary/Components/Input/WPCPhoneField.swift:147-159 | the loop's result is `Formatted(input, maxDigits)`, about which the lemmas below hold |
| PhoneFields.GroupedLength | Sources/WPCUILibrary/Components/Input/WPCPhoneField.swift:153-157 | `n` digits render as `n + (n-1)/3` characters, none for no digit |
| PhoneFields.GroupedAt | Sources/WPCUILibrary/Components/Input/WPCPhoneField.swift:153-157 | position `k` holds a space iff `k % 4 == 3`, and otherwise the digit with index `k - k/4` |
| PhoneFields.DigitPlacement | Sources/WPCUILibrary/Components/Input/WPCPhoneField.swift:153-157 | digit `i` sits at position `i + i/3`, and a space stands right before it iff `i` is a non-zero multiple of 3 |
| PhoneFields.NoStraySpaces | Sources/WPCUILibrary/Components/Input/WPCPhoneField.swift:153-157 | the rendering has no leading, trailing or doubled space |
| PhoneFields.GroupedStrips | Sources/WPCUILibrary/Components/Input/WPCPhoneField.swift:149-157 | removing the spaces, or keeping the digits, of a rendering gives the digit string back |
| PhoneFields.GroupedConcat | Sources/WPCUILibrary/Components/Input/WPCPhoneField.swift:153-157 | after whole groups of three, the rest renders as its own grouping joined by one space |
| PhoneFields.FormattedKeepsDigits | Sources/WPCUILibrary/Components/Input/WPCPhoneField.swift:149-157 | the formatted phone without its spaces is exactly the first `maxDigits` digits of the input in order, so it holds at most `maxDigits` digits |
| PhoneFields.FormattedDependsOnDigitsOnly | Sources/WPCUILibrary/Components/Input/WPCPhoneField.swift:149 | non-digits are dropped: formatting the input equals formatting its digits |
| PhoneFields.FormattedIdempotent | Sources/WPCUILibrary/Components/Input/WPCPhoneField.swift:147-159 | formatting a formatted phone changes nothing |
| PhoneFields.PhoneField.constructor | Sources/WPCUILibrary/Components/Input/WPCPhoneField.swift:40 | `maxDigits` is clamped to at least 1; the phone, state and helper text are stored as given |
| PhoneFields.PhoneField.PhoneChanged | Sources/WPCUILibrary/Components/Input/WPCPhoneField.swift:73-76 | a disabled field keeps the new value as given; an enabled one stores its formatted form, which formatting leaves unchanged, so the handler re-fired by its own write changes nothing |
| PhoneFields.PhoneField.BorderRole | Sources/WPCUILibrary/Components/Input/WPCPhoneField.swift:130-137 | the border of the effective state: the error role iff the declared state is an error, the divider iff disabled, the primary action role iff declared focused or normal with focus, the plain border iff normal without focus |
| PhoneFields.PhoneField.Hint | Sources/WPCUILibrary/Components/Input/WPCPhoneField.swift:139-145 | the hint of the effective state equals the declared state's hint, so focus never changes what is announced |
| PhoneFields.PhoneField.FooterShown | Sources/WPCUILibrary/Components/Input/WPCPhoneField.swift:109-119 | the caption of the effective state equals the declared state's caption with the field's helper text, so focus never changes it |
| PhoneFields.PhoneField.ShowsClearButton | Sources/WPCUILibrary/Components/Input/WPCPhoneField.swift:78 | the clear button is shown iff the phone is non-empty and the field is not disabled |
| PhoneFields.PhoneField.ClearTapped | Sources/WPCUILibrary/Components/Input/WPCPhoneField.swift:78-79 | the phone becomes empty, which hides the clear button |
| TextAreas.LengthGuard | Sources/WPCUILibrary/Components/Input/WPCTextArea.swift:113-118 | without a limit the text is unchanged; with one, the result is a prefix of the input no longer than the limit, equal to it when short enough and exactly as long as the limit otherwise |
| TextAreas.LengthGuardIdempotent | Sources/WPCUILibrary/Components/Input/WPCTextArea.swift:115-117 | guarding an already guarded text changes nothing |
| TextAreas.NaturalText | Sources/WPCUILibrary/Components/Input/WPCTextArea.swift:132 | the decimal rendering of a count is a non-empty string of digits, "0" exactly for zero and otherwise without a leading zero |
| TextAreas.NaturalTextRoundTrip | Sources/WPCUILibrary/Components/Input/WPCTextArea.swift:132 | reading a rendered number back gives the number |
| TextAreas.CounterLabelReadsBack | Sources/WPCUILibrary/Components/Input/WPCTextArea.swift:130-136 | the counter is the count, one '/', then the limit: both parts read back to the numbers they render |
| TextAreas.TextArea.constructor | Sources/WPCUILibrary/Components/Input/WPCTextArea.swift:42-44 | `minLines` is at least 1 and `maxLines` at least `minLines`, each clamped from the given value |
| TextAreas.TextArea.TextChanged | Sources/WPCUILibrary/Components/Input/WPCTextArea.swift:113-118 | the stored text is the guarded new value |
| TextAreas.TextArea.CounterText | Sources/WPCUILibrary/Components/Input/WPCTextArea.swift:130-136 | the counter is shown iff a limit is set, as the current count over the limit |
| TextAreas.TextArea.BorderRole | Sources/WPCUILibrary/Components/Input/WPCTextArea.swift:182-193 | the border of the effective state: the error role iff the declared state is an error, the divider iff disabled, the primary action role iff declared focused or normal with focus, the plain border iff normal without focus |
| TextAreas.TextArea.Hint | Sources/WPCUILibrary/Components/Input/WPCTextArea.swift:195-201 | the hint of the effective state equals the declared state's hint, so focus never changes what is announced |
| TextAreas.TextArea.FooterShown | Sources/WPCUILibrary/Components/Input/WPCTextArea.swift:155-165 | the caption of the effective state equals the declared state's caption with the field's helper text, so focus never changes it |
| TextFields.TextField.ShouldShowClearButton | Sources/WPCUILibrary/Components/Input/WPCTextField.swift:186-191 | the clear button shows iff it is configured, the state is not disabled and the text is not empty |
| TextFields.TextField.TrailingView | Sources/WPCUILibrary/Components/Input/WPCTextField.swift:119-144 | the clear button takes precedence; otherwise a configured right icon, enabled iff there is an action and the state is not disabled; otherwise nothing |
| TextFields.TextField.ClearTapped | Sources/WPCUILibrary/Components/Input/WPCTextField.swift:121-124 | the text becomes empty, after which no state shows the clear button |
| TextFields.TextField.BorderRole | Sources/WPCUILibrary/Components/Input/WPCTextField.swift:173-184 | the border of the effective state: the error role iff the declared state is an error, the divider iff disabled, the primary action role iff declared focused or normal with focus, the plain border iff normal without focus |
| TextFields.TextField.Hint | Sources/WPCUILibrary/Components/Input/WPCTextField.swift:193-202 | the hint of the effective state equals the declared state's hint, so focus never changes what is announced |
| TextFields.TextField.FooterShown | Sources/WPCUILibrary/Components/Input/WPCTextField.swift:147-158 | the caption of the effective state equals the declared state's caption with the field's helper text, so focus never changes it |
| SecureFields.AccessibilityValue | Sources/WPCUILibrary/Components/Input/WPCSecureField.swift:103 | empty iff the text is empty, otherwise the fixed mask of four bullets |
| SecureFields.MaskHidesSecret | Sources/WPCUILibrary/Components/Input/WPCSecureField.swift:103 | any two non-empty secrets have the same accessibility value, whatever their content or length |
| SecureFields.SecureField.constructor | Sources/WPCUILibrary/Components/Input/WPCSecureField.swift:21 | a new field is not revealed and shows the masked field |
| SecureFields.SecureField.FieldShown | Sources/WPCUILibrary/Components/Input/WPCSecureField.swift:59-63 | the plain field is shown iff revealing is allowed and the secret is revealed |
| SecureFields.SecureField.ToggleDisabled | Sources/WPCUILibrary/Components/Input/WPCSecureField.swift:84 | the toggle is disabled exactly when the field is disabled |
| SecureFields.SecureField.ToggleLabel | Sources/WPCUILibrary/Components/Input/WPCSecureField.swift:85 | "Ocultar contraseña" iff revealed, "Mostrar contraseña" otherwise |
| SecureFields.SecureField.ToggleOffered | Sources/WPCUILibrary/Components/Input/WPCSecureField.swift:75 | the reveal toggle is offered exactly when revealing is allowed |
| SecureFields.SecureField.ToggleTapped | Sources/WPCUILibrary/Components/Input/WPCSecureField.swift:75-86 | an offered, enabled toggle negates `isRevealed`; otherwise nothing changes |
| SecureFields.SecureField.BorderRole | Sources/WPCUILibrary/Components/Input/WPCSecureField.swift:130-137 | the border of the effective state: the error role iff the declared state is an error, the divider iff disabled, the primary action role iff declared focused or normal with focus, the plain border iff normal without focus |
| SecureFields.SecureField.Hint | Sources/WPCUILibrary/Components/Input/WPCSecureField.swift:139-145 | the hint of the effective state equals the declared state's hint, so focus never changes what is announced |
| SecureFields.SecureField.FooterShown | Sources/WPCUILibrary/Components/Input/WPCSecureField.swift:109-119 | the caption of the effective state equals the declared state's caption with the field's helper text, so focus never changes it |
| SearchFields.SearchField.ShowsClearButton | Sources/WPCUILibrary/Components/Input/WPCSearchField.swift:54 | the clear button is shown iff the query is non-empty and the field is not disabled |
| SearchFields.SearchField.ClearTapped | Sources/WPCUILibrary/Components/Input/WPCSearchField.swift:54-57 | the query becomes empty; `onClear`, when present, runs after the reset and observes the empty query |
| SearchFields.SearchField.BorderRole | Sources/WPCUILibrary/Components/Input/WPCSearchField.swift:92-99 | the border of the effective state: the error role iff the declared state is an error, the divider iff disabled, the primary action role iff declared focused or normal with focus, the plain border iff normal without focus |
| SearchFields.SearchField.Hint | Sources/WPCUILibrary/Components/Input/WPCSearchField.swift:101-107 | the hint of the effective state equals the declared state's hint, so focus never changes what is announced |
| Buttons.Button.Tap | Sources/WPCUILibrary/Components/Button/WPCButton.swift:43-44 | the action runs iff the button is neither disabled nor loading |
| Buttons.Button.ControlDisabled | Sources/WPCUILibrary/Components/Button/WPCButton.swift:70 | the control is disabled iff it is disabled or loading |
| Buttons.Button.AccessibilityHint | Sources/WPCUILibrary/Components/Button/WPCButton.swift:72 | "Cargando" iff loading, empty otherwise |
| Buttons.Button.AccessibilityLabelText | Sources/WPCUILibrary/Components/Button/WPCButton.swift:60 | the supplied label when there is one, the title otherwise |
| Buttons.GuardMatchesDisabledControl | Sources/WPCUILibrary/Components/Button/WPCButton.swift:43-72 | a tap runs the action exactly when the control is enabled, and a loading button never runs it and announces loading |
| ButtonStyles.MetricsForSize | Sources/WPCUILibrary/Components/Button/WPCButtonStyle.swift:76-85 | heights 40/48/56; padding from spacing lg/xl/xl and radius from radius md/lg/xl of the theme; border width 1 |
| ButtonStyles.MetricsGrowWithSize | Sources/WPCUILibrary/Components/Button/WPCButtonStyle.swift:76-85 | a larger size is strictly taller in every theme; with the default tokens it is never less padded and strictly more rounded |
| ButtonStyles.BackgroundColor | Sources/WPCUILibrary/Components/Button/WPCButtonStyle.swift:89-98 | clear iff tertiary; primary and secondary switch to their pressed role iff pressed |
| ButtonStyles.ForegroundColor | Sources/WPCUILibrary/Components/Button/WPCButtonStyle.swift:100-109 | the on-primary and on-secondary roles for filled variants; tertiary uses the primary text role iff pressed, else the primary action role |
| ButtonStyles.BorderColor | Sources/WPCUILibrary/Components/Button/WPCButtonStyle.swift:111-120 | the border role iff secondary, clear otherwise |
| ButtonStyles.PressedEffects | Sources/WPCUILibrary/Components/Button/WPCButtonStyle.swift:89-120 | pressing changes the background iff the variant is filled, the foreground iff it is tertiary, and never the border |
| HexColors.TrimStart | Sources/WPCUILibrary/Tokens/Colors/ColorTokens.swift:54 | the result is a suffix of the input, everything dropped is whitespace, and it does not start with whitespace |
| HexColors.TrimEnd | Sources/WPCUILibrary/Tokens/Colors/ColorTokens.swift:54 | the result is a prefix of the input, everything dropped is whitespace, and it does not end with whitespace |
| HexColors.TrimRemovesPadding | Sources/WPCUILibrary/Tokens/Colors/ColorTokens.swift:54 | trimming whitespace around a string that neither starts nor ends with whitespace gives exactly that string |
| HexColors.RemoveHash | Sources/WPCUILibrary/Tokens/Colors/ColorTokens.swift:55 | no '#' is left, the result is never longer, and a string without '#' is unchanged |
| HexColors.RemoveHashOfChar | Sources/WPCUILibrary/Tokens/Colors/ColorTokens.swift:55 | a single character is removed iff it is '#' |
| HexColors.RemoveHashAppend | Sources/WPCUILibrary/Tokens/Colors/ColorTokens.swift:55 | removal distributes over concatenation, so the surviving characters keep their order and multiplicity; with `RemoveHashOfChar` this fixes the result on every string |
| HexColors.RemoveHashKeepsOthers | Sources/WPCUILibrary/Tokens/Colors/ColorTokens.swift:55 | every character other than '#' occurs in the result exactly when it occurs in the input |
| HexColors.Upper | Sources/WPCUILibrary/Tokens/Colors/ColorTokens.swift:56 | upper-cases character by character, leaving no lower-case letter |
| HexColors.TrimStartUpper | Sources/WPCUILibrary/Tokens/Colors/ColorTokens.swift:54-56 | trimming leading whitespace commutes with upper-casing |
| HexColors.TrimEndUpper | Sources/WPCUILibrary/Tokens/Colors/ColorTokens.swift:54-56 | trimming trailing whitespace commutes with upper-casing |
| HexColors.RemoveHashUpper | Sources/WPCUILibrary/Tokens/Colors/ColorTokens.swift:55-56 | removing '#' commutes with upper-casing |
| HexColors.Clean | Sources/WPCUILibrary/Tokens/Colors/ColorTokens.swift:53-56 | the cleaned string holds no '#' and no lower-case letter |
| HexColors.CleanOfPlain | Sources/WPCUILibrary/Tokens/Colors/ColorTokens.swift:53-56 | a string with no surrounding whitespace, no '#' and no lower-case letter is left unchanged by cleaning |
| HexColors.ColorFromHex | Sources/WPCUILibrary/Tokens/Colors/ColorTokens.swift:52-71 | the alpha is passed through, every channel is within 0..255, and a cleaned length other than 6 gives black |
| HexColors.PartlyHexIsNotBlack | Sources/WPCUILibrary/Tokens/Colors/ColorTokens.swift:51-68 | the fallback to black covers only a wrong cleaned length: "12GGGG" is scanned up to its first 'G' and gives red 0, green 0, blue 0x12 |
| HexColors.HexPrefix | Sources/WPCUILibrary/Tokens/Colors/ColorTokens.swift:64 | the scanner reads a prefix of the string made only of hex digits, and stops only at the end or at a character that is not one |
| HexColors.ScanSixDigits | Sources/WPCUILibrary/Tokens/Colors/ColorTokens.swift:63-64 | scanning six hex digits packs their six nibbles, most significant first |
| HexColors.Unpack | Sources/WPCUILibrary/Tokens/Colors/ColorTokens.swift:66-68 | the masks and shifts recover the three bytes from the packed value |
| HexColors.ChannelsOfHexDigits | Sources/WPCUILibrary/Tokens/Colors/ColorTokens.swift:58-68 | for six cleaned hex digits, red, green and blue are the bytes spelled by the first, middle and last pairs of digits |
| HexColors.CleanOfLiteral | Sources/WPCUILibrary/Tokens/Colors/ColorTokens.swift:53-56 | cleaning "#RRGGBB" with upper-case digits only strips the '#' |
| HexColors.FormatHex | Sources/WPCUILibrary/Tokens/Colors/ColorTokens.swift:50 | three bytes render as '#' plus six upper-case hex digits |
| HexColors.HexRoundTrip | Sources/WPCUILibrary/Tokens/Colors/ColorTokens.swift:50-68 | parsing the "#RRGGBB" form of three bytes returns the same three bytes and the given alpha |
| HexColors.CleanOfUpper | Sources/WPCUILibrary/Tokens/Colors/ColorTokens.swift:53-56 | upper-casing the input first leaves the cleaned string unchanged |
| HexColors.CaseInsensitive | Sources/WPCUILibrary/Tokens/Colors/ColorTokens.swift:53-68 | two inputs that agree once upper-cased parse to the same colour |
| HexColors.PaletteWellFormed | Sources/WPCUILibrary/Tokens/Colors/ColorTokens.swift:11-45 | every palette literal is '#' plus six hex digits, so its cleaned length is 6 and none falls back to black |

## Left out

- Rendering is not modelled: the SwiftUI view bodies, layout, opacity, fonts, animation, previews and actual colour values. Colours are role names.
- Re-entrancy is not modelled. SwiftUI's `@State`, `@Binding`, `@FocusState` and `.onChange` re-fire a handler when it writes the value it observes. Each handler is one atomic step here. `PhoneChanged` states why the phone field's second run changes nothing.
- OtpFields.OtpField.HandleChange: the binding's raw write of the typed value into the cell (`WPCOTPField.swift:76`) is folded into the handler, which always overwrites that cell. The OTP field uses its declared state as its effective state, as the source does.
- Character classes are ASCII only. `Character.isNumber` is the digits '0'..'9', and `whitespacesAndNewlines` is the ASCII whitespace. Upper-casing touches only 'a'..'z'. Strings are sequences of characters rather than grapheme clusters.
- HexColors.ColorFromHex: `Scanner.scanHexInt64` is modelled as reading the longest prefix of hex digits. Its skipping of leading whitespace and its optional "0x" prefix are not modelled. The channels are stated exactly only for a cleaned string of six hex digits. The initialiser's doc comment (`ColorTokens.swift:51`) says an invalid input falls back to black, but the code does so only for a cleaned length other than 6. Six characters that are not all hex digits are scanned up to the first non-hex one, as `PartlyHexIsNotBlack` shows, and the model keeps that behaviour.
- HexColors.ColorFromHex: channels are kept as 0..255 byte values. The floating-point division by 255 is not modelled.
- The text area's minimum height (`CGFloat(minLines) * 22 + 2 * verticalPadding`) is floating point and not modelled.
- TextAreas.LengthGuard requires a non-negative limit, because `String.prefix` traps on a negative count.
- TextAreas.CounterLabelReadsBack reads back the limit only when it is non-negative; a negative limit renders with a leading '-'.
- Theme injection through the environment is not modelled. The typography, elevation and input-style tables are not modelled either; they are constant tables. Button metrics take the spacing and radius scales as parameters, with the default token values as constants.
- Accessibility labels other than the hint and label selection rules are not modelled. This covers the OTP cell label ("Dígito i de n") and the clear-button labels.
- The button's pressed-state styling beyond the colour and metric tables is not modelled: full width, the label's opacity while loading, and the progress view.
