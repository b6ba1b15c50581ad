/**
 * The one-time-code field (`WPCOTPField`): a fixed row of one-character
 * cells, updated in place on every keystroke or paste, a focused cell that
 * moves forward or back, and the joined code written back to the caller.
 *
 * A keystroke is one atomic `HandleChange` step; the completion callback is
 * modelled as the value `HandleChange` returns for it.
 */
module OtpFields {
  import opened Options
  import opened Chars
  import opened InputStates
  import FieldStates
  import Color = SemanticColors

  /** `digits.joined()`: the cells concatenated in order. */
  function Join(cells: seq<string>): string
  {
    if cells == [] then "" else Join(cells[..|cells| - 1]) + cells[|cells| - 1]
  }

  /** Every cell holds at most one character. */
  predicate AtMostOneEach(cells: seq<string>) {
    forall i :: 0 <= i < |cells| ==> |cells[i]| <= 1
  }

  /** With at most one character per cell, the joined code is no longer than the row. */
  lemma {:induction false} JoinLength(cells: seq<string>)
    requires AtMostOneEach(cells)
    ensures |Join(cells)| <= |cells|
    ensures |Join(cells)| == |cells| <==> forall i :: 0 <= i < |cells| ==> |cells[i]| == 1
  {
    if cells != [] {
      JoinLength(cells[..|cells| - 1]);
    }
  }

  /** The row of `n` cells holding `chars` one per cell from the first, then empty cells. */
  function CellsOf(chars: string, n: nat): seq<string>
    requires |chars| <= n
  {
    seq(n, i requires 0 <= i < n => if i < |chars| then [chars[i]] else "")
  }

  /** A cell holds nothing or a single digit. */
  predicate CellOk(cell: string) {
    cell == "" || (|cell| == 1 && IsDigit(cell[0]))
  }

  /** Single digits from the first cell on, then only empty cells. */
  predicate LeftPacked(cells: seq<string>) {
    && (forall i :: 0 <= i < |cells| ==> CellOk(cells[i]))
    && (forall i, j :: 0 <= i < j < |cells| && cells[i] == "" ==> cells[j] == "")
  }

  /**
   * The cells `syncFromCode` builds from an external code: its digits, cut to
   * the row length, one per cell from the first, the rest empty.
   */
  function CellsFromCode(code: string, length: nat): (cells: seq<string>)
    ensures |cells| == length
    ensures forall i :: 0 <= i < length && i < |Digits(code)| ==> cells[i] == [Digits(code)[i]]
    ensures forall i :: |Digits(code)| <= i < length ==> cells[i] == ""
    ensures LeftPacked(cells)
  {
    CellsOf(Prefix(Digits(code), length), length)
  }

  /** Dropping the last cell of a row built from `chars` gives the row of one cell fewer. */
  lemma CellsOfFront(chars: string, n: nat)
    requires |chars| <= n && n > 0
    ensures var front := if |chars| == n then chars[..n - 1] else chars;
      CellsOf(chars, n)[..n - 1] == CellsOf(front, n - 1)
  {
  }

  /** Joining the row built from `chars` gives `chars` back. */
  lemma {:induction false} JoinCellsOf(chars: string, n: nat)
    requires |chars| <= n
    ensures Join(CellsOf(chars, n)) == chars
  {
    if n > 0 {
      var front := if |chars| == n then chars[..n - 1] else chars;
      var cells := CellsOf(chars, n);
      CellsOfFront(chars, n);
      JoinCellsOf(front, n - 1);
      assert Join(cells) == front + cells[n - 1];
      if |chars| == n {
        assert chars == front + [chars[n - 1]];
      }
    }
  }

  /** A row ending in an empty cell: its front builds it, padded with one empty cell. */
  lemma LeftPackedEndsEmpty(cells: seq<string>, j: string)
    requires cells != [] && cells[|cells| - 1] == ""
    requires |j| <= |cells| - 1 && cells[..|cells| - 1] == CellsOf(j, |cells| - 1)
    ensures cells == CellsOf(j, |cells|)
  {
    var n := |cells|;
    forall i | 0 <= i < n
      ensures cells[i] == CellsOf(j, n)[i]
    {
      if i < n - 1 {
        assert cells[i] == cells[..n - 1][i];
      }
    }
  }

  /** A row ending in a filled cell: every cell is filled, so the code adds the last digit. */
  lemma LeftPackedEndsFilled(cells: seq<string>, j: string)
    requires LeftPacked(cells) && cells != [] && cells[|cells| - 1] != ""
    requires |j| <= |cells| - 1 && cells[..|cells| - 1] == CellsOf(j, |cells| - 1)
    ensures |j| == |cells| - 1
    ensures cells == CellsOf(j + cells[|cells| - 1], |cells|)
  {
    var n := |cells|;
    var front := cells[..n - 1];
    if n >= 2 {
      assert cells[n - 2] != "";
      assert front[n - 2] == CellsOf(j, n - 1)[n - 2];
    }
    var last := cells[n - 1];
    assert last == [last[0]];
    forall i | 0 <= i < n
      ensures cells[i] == CellsOf(j + last, n)[i]
    {
      if i < n - 1 {
        assert cells[i] == front[i];
        assert front[i] != "";
      }
    }
  }

  /** A left-packed row is the row built from its own joined code. */
  lemma {:induction false} LeftPackedIsCellsOfJoin(cells: seq<string>)
    requires LeftPacked(cells)
    ensures |Join(cells)| <= |cells|
    ensures AllDigits(Join(cells))
    ensures cells == CellsOf(Join(cells), |cells|)
  {
    if cells != [] {
      var n := |cells|;
      var front := cells[..n - 1];
      assert LeftPacked(front);
      LeftPackedIsCellsOfJoin(front);
      var j := Join(front);
      assert Join(cells) == j + cells[n - 1];
      if cells[n - 1] == "" {
        LeftPackedEndsEmpty(cells, j);
      } else {
        LeftPackedEndsFilled(cells, j);
      }
    }
  }

  /**
   * Round trip: for a left-packed row, rebuilding the cells from their joined
   * code restores the same cells.
   */
  lemma SyncRoundTrip(cells: seq<string>)
    requires LeftPacked(cells)
    ensures CellsFromCode(Join(cells), |cells|) == cells
  {
    LeftPackedIsCellsOfJoin(cells);
    DigitsOfAllDigits(Join(cells));
  }

  /** The other direction: the code read back from a synced row is the code's digits cut to the row length. */
  lemma SyncThenJoin(code: string, length: nat)
    ensures Join(CellsFromCode(code, length)) == Prefix(Digits(code), length)
  {
    JoinCellsOf(Prefix(Digits(code), length), length);
  }

  /**
   * The cells after `handleChange` at `index`, given the new value already
   * reduced to its digits: at most one digit replaces cell `index`; more
   * digits (a paste) are written one per cell from `index` on, as many as
   * fit, and every other cell keeps its value.
   */
  function Distributed(cells: seq<string>, index: nat, filtered: string): seq<string>
    requires index < |cells|
  {
    if |filtered| <= 1 then cells[index := filtered]
    else
      var chars := Prefix(filtered, |cells| - index);
      seq(|cells|, i requires 0 <= i < |cells| =>
        if index <= i < index + |chars| then [chars[i - index]] else cells[i])
  }

  /** Single key: only cell `index` changes, and it becomes the filtered value. */
  lemma SingleKeyChangesOneCell(cells: seq<string>, index: nat, newValue: string)
    requires index < |cells| && |Digits(newValue)| <= 1
    ensures |Distributed(cells, index, Digits(newValue))| == |cells|
    ensures Distributed(cells, index, Digits(newValue))[index] == Digits(newValue)
    ensures forall i :: 0 <= i < |cells| && i != index ==> Distributed(cells, index, Digits(newValue))[i] == cells[i]
  {
  }

  /**
   * Paste: with `k` the number of pasted digits that fit before the end of
   * the row, cells `index .. index + k - 1` receive those digits one each and
   * every cell before `index` or from `index + k` on keeps its value.
   */
  lemma PasteFillsRun(cells: seq<string>, index: nat, newValue: string)
    requires index < |cells| && |Digits(newValue)| > 1
    ensures var f := Digits(newValue);
      var k := if |f| < |cells| - index then |f| else |cells| - index;
      var r := Distributed(cells, index, f);
      && k >= 1 && |r| == |cells|
      && (forall i :: index <= i < index + k ==> r[i] == [f[i - index]])
      && (forall i :: 0 <= i < |cells| && !(index <= i < index + k) ==> r[i] == cells[i])
  {
    var f := Digits(newValue);
    var chars := Prefix(f, |cells| - index);
    var r := Distributed(cells, index, f);
    assert r == seq(|cells|, i requires 0 <= i < |cells| =>
      if index <= i < index + |chars| then [chars[i - index]] else cells[i]);
  }

  /** Writing filtered digits keeps every cell empty or a single digit. */
  lemma DistributedKeepsCellsOk(cells: seq<string>, index: nat, filtered: string)
    requires index < |cells| && AllDigits(filtered)
    requires forall i :: 0 <= i < |cells| ==> CellOk(cells[i])
    ensures |Distributed(cells, index, filtered)| == |cells|
    ensures forall i :: 0 <= i < |cells| ==> CellOk(Distributed(cells, index, filtered)[i])
  {
    if |filtered| > 1 {
      var chars := Prefix(filtered, |cells| - index);
      var r := Distributed(cells, index, filtered);
      forall i | 0 <= i < |cells|
        ensures CellOk(r[i])
      {
        if index <= i < index + |chars| {
          assert chars[i - index] == filtered[i - index];
        }
      }
    }
  }

  /** What cell `index` holds after the change: the first digit of the new value, or nothing. */
  lemma EditedCell(cells: seq<string>, index: nat, newValue: string)
    requires index < |cells|
    ensures Distributed(cells, index, Digits(newValue))[index] ==
      if Digits(newValue) == "" then "" else [Digits(newValue)[0]]
  {
  }

  /** Where focus goes after a change that left `cell` in the edited position. */
  function NextFocus(cell: string, index: nat, length: nat, focus: Option<nat>): Option<nat>
  {
    if |cell| == 1 then
      (if index < length - 1 then Some(index + 1) else None)
    else if cell == "" then
      (if index > 0 then Some(index - 1) else focus)
    else focus
  }

  /**
   * The focus rule in terms of the input: a new value with a digit moves
   * focus to the next cell (or clears it on the last cell); a value with no
   * digit empties the cell and moves focus back, except on the first cell,
   * where focus stays. A paste moves focus only one cell on, not past the
   * pasted run.
   */
  lemma FocusFollowsInput(cells: seq<string>, index: nat, newValue: string, focus: Option<nat>)
    requires index < |cells|
    ensures NextFocus(Distributed(cells, index, Digits(newValue))[index], index, |cells|, focus) ==
      if Digits(newValue) != "" then (if index < |cells| - 1 then Some(index + 1) else None)
      else if index > 0 then Some(index - 1)
      else focus
  {
    EditedCell(cells, index, newValue);
  }

  /**
   * Pasting `k > 1` digits into an empty row at the first cell fills the first
   * `k` cells, leaves a left-packed row whose code is the pasted digits, and
   * completes the code iff they fill the row; focus moves to the second cell
   * (or clears when the row has one cell).
   */
  lemma PasteIntoEmptyRow(length: nat, pasted: string, focus: Option<nat>)
    requires length >= 1 && AllDigits(pasted) && 1 < |pasted| <= length
    ensures var r := Distributed(CellsOf("", length), 0, Digits(pasted));
      && r == CellsOf(pasted, length)
      && LeftPacked(r)
      && Join(r) == pasted
      && (|Join(r)| == length <==> |pasted| == length)
      && NextFocus(r[0], 0, length, focus) == if length > 1 then Some(1) else None
  {
    DigitsOfAllDigits(pasted);
    var r := Distributed(CellsOf("", length), 0, Digits(pasted));
    assert r == CellsOf(pasted, length);
    JoinCellsOf(pasted, length);
  }

  /**
   * Pasting "12345" into the second cell of a four-cell row writes "1", "2"
   * and "3" into the last three cells, keeps the first, and moves focus to
   * the third cell rather than clearing it.
   */
  lemma PasteIntoSecondOfFour(first: string, b: string, c: string, d: string, focus: Option<nat>)
    ensures Distributed([first, b, c, d], 1, Digits("12345")) == [first, "1", "2", "3"]
    ensures NextFocus("1", 1, 4, focus) == Some(2)
  {
    assert Digits("12345") == "12345" by {
      DigitsOfAllDigits("12345");
    }
    assert Prefix("12345", 3) == "123";
  }

  /** `subscript(safe:)`: the element at `index` when it is in range, nil otherwise. */
  function SafeSubscript(cells: seq<string>, index: int): (r: Option<string>)
    ensures r.Some? <==> 0 <= index < |cells|
    ensures r.Some? ==> r.value == cells[index]
  {
    if 0 <= index < |cells| then Some(cells[index]) else None
  }

  class OtpField {
    /** Number of cells, at least one. */
    const length: nat
    /** Declared state; the OTP field uses it as its effective state. */
    const state: InputState
    /** The bound code. */
    var code: string
    /** The cells (`@State digits`). */
    var digits: array<string>
    /** The focused cell (`@FocusState focusedIndex`), nil when none. */
    var focusedIndex: Option<nat>

    /** The row has `length` cells, each empty or a single digit. */
    ghost predicate Valid()
      reads this, digits
    {
      && length >= 1 && digits.Length == length
      && forall i :: 0 <= i < length ==> CellOk(digits[i])
    }

    /** `init`: the length is clamped to at least 1 and every cell starts empty. */
    constructor (length: int, code: string, state: InputState)
      ensures Valid() && fresh(digits)
      ensures this.length == if length < 1 then 1 else length
      ensures forall i :: 0 <= i < this.length ==> digits[i] == ""
      ensures this.code == code && this.state == state && focusedIndex == None
    {
      var n := if length < 1 then 1 else length;
      this.length := n;
      this.code := code;
      this.state := state;
      this.focusedIndex := None;
      this.digits := new string[n](_ => "");
    }

    /** The text a cell's binding reads: the cell when in range, "" otherwise. */
    function CellAt(index: int): (s: string)
      reads this, digits
      ensures 0 <= index < digits.Length ==> s == digits[index]
      ensures !(0 <= index < digits.Length) ==> s == ""
    {
      SafeSubscript(digits[..], index).GetOr("")
    }

    /**
     * The writing part of `handleChange`: a filtered value of at most one
     * digit replaces cell `index`; a longer one is written one digit per
     * cell from `index` on, as many as fit.
     */
    method WriteDigits(index: nat, filtered: string)
      requires Valid() && index < length
      modifies digits
      ensures digits[..] == Distributed(old(digits[..]), index, filtered)
    {
      ghost var before := digits[..];
      if |filtered| <= 1 {
        digits[index] := filtered;
        assert digits[..] == before[index := filtered];
      } else {
        var chars := Prefix(filtered, length - index);
        for offset := 0 to |chars|
          invariant forall i :: 0 <= i < length ==>
            digits[i] == if index <= i < index + offset then [chars[i - index]] else before[i]
        {
          digits[index + offset] := [chars[offset]];
        }
        ghost var after := Distributed(before, index, filtered);
        assert forall i :: 0 <= i < length ==> digits[..][i] == after[i];
      }
    }

    /**
     * `handleChange(at:newValue:)`. A disabled field changes nothing and
     * signals nothing. Otherwise the filtered value is written (one cell, or
     * one digit per cell for a paste), focus moves by `NextFocus`, the bound
     * code becomes the joined cells, and the completion callback receives
     * that code whenever it has `length` characters, on every such change.
     */
    method HandleChange(index: nat, newValue: string) returns (completed: Option<string>)
      requires Valid() && index < length
      modifies this, digits
      ensures Valid() && digits == old(digits)
      ensures state.IsDisabled() ==>
        && digits[..] == old(digits[..]) && code == old(code)
        && focusedIndex == old(focusedIndex) && completed == None
      ensures !state.IsDisabled() ==>
        && digits[..] == Distributed(old(digits[..]), index, Digits(newValue))
        && focusedIndex == NextFocus(digits[index], index, length, old(focusedIndex))
        && code == Join(digits[..])
        && completed == if |code| == length then Some(code) else None
      ensures !state.IsDisabled() ==>
        && |code| <= length
        && (|code| == length <==> forall i :: 0 <= i < length ==> |digits[i]| == 1)
    {
      if state.IsDisabled() {
        return None;
      }
      ghost var before := digits[..];
      WriteDigits(index, Digits(newValue));
      DistributedKeepsCellsOk(before, index, Digits(newValue));

      if |digits[index]| == 1 {
        if index < length - 1 {
          focusedIndex := Some(index + 1);
        } else {
          focusedIndex := None;
        }
      } else if digits[index] == "" {
        if index > 0 {
          focusedIndex := Some(index - 1);
        }
      }

      var joined := Join(digits[..]);
      JoinLength(digits[..]);
      code := joined;
      if |joined| == length {
        completed := Some(joined);
      } else {
        completed := None;
      }
    }

    /**
     * `syncFromCode`: rebuild the cells from the bound code. The code and the
     * focus are untouched, and no completion is signalled.
     */
    method SyncFromCode()
      requires Valid()
      modifies this
      ensures Valid() && fresh(digits)
      ensures digits[..] == CellsFromCode(code, length)
      ensures code == old(code) && focusedIndex == old(focusedIndex)
    {
      var chars := Prefix(Digits(code), length);
      var next := new string[length](_ => "");
      for i := 0 to |chars|
        modifies next
        invariant forall j :: 0 <= j < length ==> next[j] == if j < i then [chars[j]] else ""
      {
        next[i] := [chars[i]];
      }
      digits := next;
      assert digits[..] == CellsFromCode(code, length);
    }

    /**
     * `cellBorderColor(index:state:)`: the error role in an error state,
     * whatever the focus; otherwise the primary action role exactly for the
     * focused cell and the plain border for the others.
     */
    function CellBorderColor(index: nat, s: InputState): (r: Color.ColorRole)
      reads this
      ensures s.Error? ==> r == Color.Error
      ensures !s.Error? ==> (r == Color.ActionPrimary <==> focusedIndex == Some(index))
      ensures !s.Error? ==> (r == Color.Border <==> focusedIndex != Some(index))
    {
      if s.Error? then Color.Error
      else if focusedIndex == Some(index) then Color.ActionPrimary
      else Color.Border
    }

    /**
     * The row's accessibility hint: the disabled text for a disabled field
     * and nothing otherwise; unlike the other fields, an error message is not
     * announced.
     */
    function AccessibilityHint(): (hint: string)
      reads this
      ensures hint == FieldStates.DisabledHint <==> state.IsDisabled()
      ensures !state.IsDisabled() ==> hint == ""
    {
      if state.IsDisabled() then FieldStates.DisabledHint else ""
    }
  }
}
