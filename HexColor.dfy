/**
 * The hex colour initialiser `Color(hex:alpha:)` and the palette literals it
 * is applied to. The input is cleaned (trimmed, '#' removed, upper-cased);
 * a cleaned string whose length is not 6 gives black channels, with the
 * caller's alpha; any other is scanned as a hexadecimal number whose three low bytes are the
 * red, green and blue channels. Channels are kept as the 0..255 byte values,
 * before the division by 255.
 */
module HexColors {

  /** The whitespace and newline characters trimmed from both ends (their ASCII members). */
  predicate IsWhitespace(c: char) {
    c == ' ' || c == '\t' || c == '\n' || c == '\r' || c == '\U{000B}' || c == '\U{000C}'
  }

  /** Drops the leading whitespace: what is left is a suffix that does not start with whitespace. */
  function TrimStart(s: string): (r: string)
    ensures |r| <= |s| && r == s[|s| - |r|..]
    ensures forall i :: 0 <= i < |s| - |r| ==> IsWhitespace(s[i])
    ensures r != [] ==> !IsWhitespace(r[0])
  {
    if s != [] && IsWhitespace(s[0]) then
      var r := TrimStart(s[1..]);
      assert s[1..][|s| - 1 - |r|..] == s[|s| - |r|..];
      assert forall i :: 1 <= i < |s| - |r| ==> s[i] == s[1..][i - 1];
      r
    else s
  }

  /** Drops the trailing whitespace: what is left is a prefix that does not end with whitespace. */
  function TrimEnd(s: string): (r: string)
    ensures |r| <= |s| && r == s[..|r|]
    ensures forall i :: |r| <= i < |s| ==> IsWhitespace(s[i])
    ensures r != [] ==> !IsWhitespace(r[|r| - 1])
  {
    if s != [] && IsWhitespace(s[|s| - 1]) then
      var r := TrimEnd(s[..|s| - 1]);
      assert s[..|s| - 1][..|r|] == s[..|r|];
      r
    else s
  }

  /** `trimmingCharacters(in: .whitespacesAndNewlines)`. */
  function Trim(s: string): (r: string)
    ensures |r| <= |s|
    ensures r != [] ==> !IsWhitespace(r[0]) && !IsWhitespace(r[|r| - 1])
  {
    TrimEnd(TrimStart(s))
  }

  /** `replacingOccurrences(of: "#", with: "")`: every '#' goes, every other character stays in order. */
  function RemoveHash(s: string): (r: string)
    ensures |r| <= |s|
    ensures '#' !in r
    ensures '#' !in s ==> r == s
  {
    if s == [] then []
    else (if s[0] == '#' then [] else [s[0]]) + RemoveHash(s[1..])
  }

  /** A single character is removed iff it is '#'. */
  lemma RemoveHashOfChar(c: char)
    ensures RemoveHash([c]) == if c == '#' then [] else [c]
  {
    assert [c][1..] == [];
  }

  /** Removal distributes over concatenation: what survives keeps its order and multiplicity. */
  lemma {:induction false} RemoveHashAppend(a: string, b: string)
    ensures RemoveHash(a + b) == RemoveHash(a) + RemoveHash(b)
  {
    if a == [] {
      assert a + b == b;
    } else {
      assert (a + b)[1..] == a[1..] + b;
      RemoveHashAppend(a[1..], b);
    }
  }

  /** Every character other than '#' survives the removal, and none is invented. */
  lemma {:induction false} RemoveHashKeepsOthers(s: string, c: char)
    requires c != '#'
    ensures c in RemoveHash(s) <==> c in s
  {
    if s != [] {
      RemoveHashKeepsOthers(s[1..], c);
      assert s == [s[0]] + s[1..];
    }
  }

  function UpperChar(c: char): char {
    if 'a' <= c <= 'z' then (c as int - 32) as char else c
  }

  /** `uppercased()`, on ASCII letters: character by character, and no lower-case letter is left. */
  function Upper(s: string): (r: string)
    ensures |r| == |s|
    ensures forall i :: 0 <= i < |r| ==> r[i] == UpperChar(s[i]) && !('a' <= r[i] <= 'z')
  {
    seq(|s|, i requires 0 <= i < |s| => UpperChar(s[i]))
  }

  /** The cleaned string: no '#' and no lower-case letter survives. */
  function Clean(hex: string): (cleaned: string)
    ensures '#' !in cleaned
    ensures forall i :: 0 <= i < |cleaned| ==> !('a' <= cleaned[i] <= 'z')
  {
    var kept := RemoveHash(Trim(hex));
    var cleaned := Upper(kept);
    assert forall i :: 0 <= i < |cleaned| ==> cleaned[i] != '#' by {
      forall i | 0 <= i < |cleaned| ensures cleaned[i] != '#' {
        assert kept[i] in kept;
      }
    }
    cleaned
  }

  predicate IsHexDigit(c: char) {
    '0' <= c <= '9' || 'A' <= c <= 'F'
  }

  /** The value of an upper-case hex digit; the scanner never reads any other character. */
  function HexValue(c: char): (n: bv8)
    ensures n < 16
  {
    match c
    case '0' => 0 case '1' => 1 case '2' => 2 case '3' => 3
    case '4' => 4 case '5' => 5 case '6' => 6 case '7' => 7
    case '8' => 8 case '9' => 9 case 'A' => 10 case 'B' => 11
    case 'C' => 12 case 'D' => 13 case 'E' => 14 case 'F' => 15
    case _ => 0
  }

  /** One scanner step: the accumulated value moves up a nibble and takes the next digit. */
  function Shift(acc: bv64, nibble: bv64): bv64 {
    (acc << 4) | nibble
  }

  /** The characters `scanHexInt64` reads: the longest prefix of hex digits. */
  function HexPrefix(s: string): (p: string)
    ensures |p| <= |s| && p == s[..|p|]
    ensures forall i :: 0 <= i < |p| ==> IsHexDigit(p[i])
    ensures |p| < |s| ==> !IsHexDigit(s[|p|])
  {
    if s == [] || !IsHexDigit(s[0]) then []
    else
      var rest := HexPrefix(s[1..]);
      assert s[1..][..|rest|] == s[1..|rest| + 1];
      [s[0]] + rest
  }

  /** The value accumulated from hex digits, most significant first. */
  function PackDigits(d: string): bv64 {
    if d == [] then 0 else Shift(PackDigits(d[..|d| - 1]), HexValue(d[|d| - 1]) as bv64)
  }

  /** `scanHexInt64`: the value of the longest prefix of hex digits (0 when there is none). */
  function ScanHex(s: string): bv64 {
    PackDigits(HexPrefix(s))
  }

  /** The byte written by two hex digits. */
  function HexPair(hi: char, lo: char): bv64 {
    ((HexValue(hi) as bv64) << 4) | HexValue(lo) as bv64
  }

  datatype Rgba = Rgba(red: bv64, green: bv64, blue: bv64, alpha: real)

  /** `Color(hex:alpha:)`, with the channels as bytes. */
  function ColorFromHex(hex: string, alpha: real): (c: Rgba)
    ensures c.alpha == alpha
    ensures c.red <= 0xFF && c.green <= 0xFF && c.blue <= 0xFF
    ensures |Clean(hex)| != 6 ==> c.red == 0 && c.green == 0 && c.blue == 0
  {
    var cleaned := Clean(hex);
    if |cleaned| != 6 then Rgba(0, 0, 0, alpha)
    else
      var v := ScanHex(cleaned);
      Rgba((v & 0xFF0000) >> 16, (v & 0x00FF00) >> 8, v & 0x0000FF, alpha)
  }

  /** The value the scanner accumulates from six nibbles, most significant first. */
  function Pack(n0: bv64, n1: bv64, n2: bv64, n3: bv64, n4: bv64, n5: bv64): bv64 {
    Shift(Shift(Shift(Shift(Shift(n0, n1), n2), n3), n4), n5)
  }

  /** Six nibbles packed by the scanner unpack into the three bytes they spell. */
  lemma Unpack(n0: bv64, n1: bv64, n2: bv64, n3: bv64, n4: bv64, n5: bv64)
    requires n0 < 16 && n1 < 16 && n2 < 16 && n3 < 16 && n4 < 16 && n5 < 16
    ensures (Pack(n0, n1, n2, n3, n4, n5) & 0xFF0000) >> 16 == (n0 << 4) | n1
    ensures (Pack(n0, n1, n2, n3, n4, n5) & 0x00FF00) >> 8 == (n2 << 4) | n3
    ensures Pack(n0, n1, n2, n3, n4, n5) & 0x0000FF == (n4 << 4) | n5
  {
  }

  /** A string of hex digits is read whole. */
  lemma HexPrefixOfHexDigits(s: string)
    requires forall i :: 0 <= i < |s| ==> IsHexDigit(s[i])
    ensures HexPrefix(s) == s
  {
  }

  /** Taking one more digit shifts it into the accumulated value. */
  lemma PackStep(d: string, k: nat)
    requires 0 < k <= |d|
    ensures PackDigits(d[..k]) == Shift(PackDigits(d[..k - 1]), HexValue(d[k - 1]) as bv64)
  {
    assert d[..k][..k - 1] == d[..k - 1];
  }

  lemma ShiftFromZero(n: bv64)
    ensures Shift(0, n) == n
  {
  }

  /** Scanning six hex digits packs their six nibbles. */
  lemma ScanSixDigits(s: string)
    requires |s| == 6 && forall i :: 0 <= i < 6 ==> IsHexDigit(s[i])
    ensures ScanHex(s) == Pack(HexValue(s[0]) as bv64, HexValue(s[1]) as bv64, HexValue(s[2]) as bv64,
                               HexValue(s[3]) as bv64, HexValue(s[4]) as bv64, HexValue(s[5]) as bv64)
  {
    HexPrefixOfHexDigits(s);
    var n0 := HexValue(s[0]) as bv64;
    assert s[..0] == [];
    ShiftFromZero(n0);
    PackStep(s, 1);
    PackStep(s, 2);
    PackStep(s, 3);
    PackStep(s, 4);
    PackStep(s, 5);
    PackStep(s, 6);
    assert s[..6] == s;
  }

  /**
   * When the cleaned string is six hex digits, each channel is the byte its
   * pair of digits spells: red the first two, green the middle two, blue the
   * last two.
   */
  lemma ChannelsOfHexDigits(hex: string, alpha: real)
    requires |Clean(hex)| == 6
    requires forall i :: 0 <= i < 6 ==> IsHexDigit(Clean(hex)[i])
    ensures var s := Clean(hex);
      ColorFromHex(hex, alpha) == Rgba(HexPair(s[0], s[1]), HexPair(s[2], s[3]), HexPair(s[4], s[5]), alpha)
  {
    var s := Clean(hex);
    ScanSixDigits(s);
    Unpack(HexValue(s[0]) as bv64, HexValue(s[1]) as bv64, HexValue(s[2]) as bv64,
           HexValue(s[3]) as bv64, HexValue(s[4]) as bv64, HexValue(s[5]) as bv64);
  }

  /** A string without padding, '#' or lower-case letters is already clean. */
  lemma CleanOfPlain(s: string)
    requires s != [] && !IsWhitespace(s[0]) && !IsWhitespace(s[|s| - 1]) && '#' !in s
    requires forall i :: 0 <= i < |s| ==> !('a' <= s[i] <= 'z')
    ensures Clean(s) == s
  {
    assert TrimStart(s) == s;
    assert TrimEnd(s) == s;
    assert Upper(s) == s;
  }

  /** The scanner stops at the first 'G' of "12GGGG", having read 0x12. */
  lemma ScanStopsAtG()
    ensures ScanHex("12GGGG") == 0x12
  {
    var s := "12GGGG";
    assert !IsHexDigit(s[2]);
    assert HexPrefix(s[2..]) == [];
    assert HexPrefix(s[1..]) == "2";
    assert HexPrefix(s) == "12";
    assert "12"[..1] == "1" && "1"[..0] == [];
    ShiftFromZero(1);
  }

  /**
   * Six cleaned characters that are not all hex digits do not fall back to
   * black: the scanner reads the hex digits before the first other character
   * and stops there, so "12GGGG" gives the blue channel 0x12.
   */
  lemma PartlyHexIsNotBlack()
    ensures ColorFromHex("12GGGG", 1.0) == Rgba(0, 0, 0x12, 1.0)
  {
    CleanOfPlain("12GGGG");
    ScanStopsAtG();
  }

  /** A palette literal: '#' followed by six upper-case hex digits. */
  predicate IsHexLiteral(s: string) {
    |s| == 7 && s[0] == '#' && forall i :: 1 <= i < 7 ==> IsHexDigit(s[i])
  }

  lemma LiteralHasNoPadding(s: string)
    requires IsHexLiteral(s)
    ensures Trim(s) == s
  {
    assert TrimStart(s) == s;
    assert !IsWhitespace(s[6]);
  }

  lemma LiteralHashRemoved(s: string)
    requires IsHexLiteral(s)
    ensures RemoveHash(s) == s[1..]
  {
    assert s == [s[0]] + s[1..];
    assert '#' !in s[1..];
  }

  lemma LiteralDigitsUpper(s: string)
    requires IsHexLiteral(s)
    ensures Upper(s[1..]) == s[1..]
  {
  }

  /** Cleaning a well-formed literal only strips its '#'. */
  lemma CleanOfLiteral(s: string)
    requires IsHexLiteral(s)
    ensures Clean(s) == s[1..]
  {
    LiteralHasNoPadding(s);
    LiteralHashRemoved(s);
    LiteralDigitsUpper(s);
  }

  const HexDigitChars: string := "0123456789ABCDEF"

  function NibbleChar(n: bv8): (c: char)
    requires n < 16
    ensures IsHexDigit(c) && HexValue(c) == n
  {
    HexDigitChars[n as int]
  }

  /** Upper-case "#RRGGBB" notation of three bytes. */
  function FormatHex(r: bv8, g: bv8, b: bv8): (s: string)
    ensures IsHexLiteral(s)
  {
    ['#', NibbleChar(r >> 4), NibbleChar(r & 15), NibbleChar(g >> 4), NibbleChar(g & 15),
     NibbleChar(b >> 4), NibbleChar(b & 15)]
  }

  lemma ByteFromNibbles(b: bv8)
    ensures ((b >> 4) as bv64 << 4) | (b & 15) as bv64 == b as bv64
  {
  }

  /** Formatting three bytes as "#RRGGBB" and parsing the result gives back the same bytes. */
  lemma HexRoundTrip(r: bv8, g: bv8, b: bv8, alpha: real)
    ensures ColorFromHex(FormatHex(r, g, b), alpha) == Rgba(r as bv64, g as bv64, b as bv64, alpha)
  {
    var s := FormatHex(r, g, b);
    CleanOfLiteral(s);
    ChannelsOfHexDigits(s, alpha);
    ByteFromNibbles(r);
    ByteFromNibbles(g);
    ByteFromNibbles(b);
  }

  /** Upper-casing turns no character into whitespace or '#', nor either of them into anything else. */
  lemma UpperCharKeepsClass(c: char)
    ensures IsWhitespace(UpperChar(c)) == IsWhitespace(c)
    ensures UpperChar(c) == '#' <==> c == '#'
  {
  }

  lemma {:induction false} TrimStartUpper(s: string)
    ensures TrimStart(Upper(s)) == Upper(TrimStart(s))
  {
    if s != [] {
      var u := Upper(s);
      assert u[0] == UpperChar(s[0]);
      UpperCharKeepsClass(s[0]);
      if IsWhitespace(s[0]) {
        assert u[1..] == Upper(s[1..]);
        TrimStartUpper(s[1..]);
      }
    }
  }

  lemma {:induction false} TrimEndUpper(s: string)
    ensures TrimEnd(Upper(s)) == Upper(TrimEnd(s))
  {
    if s != [] {
      var u := Upper(s);
      assert u[|s| - 1] == UpperChar(s[|s| - 1]);
      UpperCharKeepsClass(s[|s| - 1]);
      if IsWhitespace(s[|s| - 1]) {
        assert u[..|s| - 1] == Upper(s[..|s| - 1]);
        TrimEndUpper(s[..|s| - 1]);
      }
    }
  }

  lemma UpperAppend(a: string, b: string)
    ensures Upper(a + b) == Upper(a) + Upper(b)
  {
  }

  lemma {:induction false} RemoveHashUpper(s: string)
    ensures RemoveHash(Upper(s)) == Upper(RemoveHash(s))
  {
    if s != [] {
      var u := Upper(s);
      assert u[0] == UpperChar(s[0]);
      UpperCharKeepsClass(s[0]);
      assert u[1..] == Upper(s[1..]);
      RemoveHashUpper(s[1..]);
      var head := if s[0] == '#' then [] else [s[0]];
      assert RemoveHash(s) == head + RemoveHash(s[1..]);
      assert RemoveHash(u) == Upper(head) + RemoveHash(Upper(s[1..]));
      UpperAppend(head, RemoveHash(s[1..]));
    }
  }

  lemma UpperIdempotent(s: string)
    ensures Upper(Upper(s)) == Upper(s)
  {
  }

  /** Cleaning already upper-cases, so upper-casing the input first changes nothing. */
  lemma CleanOfUpper(s: string)
    ensures Clean(Upper(s)) == Clean(s)
  {
    var t := TrimStart(s);
    var k := RemoveHash(Trim(s));
    calc {
      Clean(Upper(s));
      Upper(RemoveHash(TrimEnd(TrimStart(Upper(s)))));
      { TrimStartUpper(s); }
      Upper(RemoveHash(TrimEnd(Upper(t))));
      { TrimEndUpper(t); }
      Upper(RemoveHash(Upper(Trim(s))));
      { RemoveHashUpper(Trim(s)); }
      Upper(Upper(k));
      { UpperIdempotent(k); }
      Upper(k);
      Clean(s);
    }
  }

  /** Parsing ignores letter case: inputs that agree once upper-cased give the same colour. */
  lemma CaseInsensitive(s: string, t: string, alpha: real)
    requires Upper(s) == Upper(t)
    ensures ColorFromHex(s, alpha) == ColorFromHex(t, alpha)
  {
    CleanOfUpper(s);
    CleanOfUpper(t);
  }

  lemma {:induction false} TrimStartSkips(lead: string, x: string)
    requires forall i :: 0 <= i < |lead| ==> IsWhitespace(lead[i])
    requires x != [] && !IsWhitespace(x[0])
    ensures TrimStart(lead + x) == x
  {
    if lead == [] {
      assert lead + x == x;
    } else {
      var y := lead + x;
      assert y[0] == lead[0];
      assert y[1..] == lead[1..] + x;
      assert forall i :: 0 <= i < |lead| - 1 ==> lead[1..][i] == lead[i + 1];
      TrimStartSkips(lead[1..], x);
    }
  }

  lemma {:induction false} TrimEndSkips(x: string, trail: string)
    requires forall i :: 0 <= i < |trail| ==> IsWhitespace(trail[i])
    requires x != [] && !IsWhitespace(x[|x| - 1])
    ensures TrimEnd(x + trail) == x
  {
    if trail != [] {
      var front := trail[..|trail| - 1];
      assert (x + trail)[..|x + trail| - 1] == x + front;
      TrimEndSkips(x, front);
    }
  }

  /** Whitespace around a string that neither starts nor ends with whitespace is trimmed away, and nothing else. */
  lemma TrimRemovesPadding(lead: string, s: string, trail: string)
    requires forall i :: 0 <= i < |lead| ==> IsWhitespace(lead[i])
    requires forall i :: 0 <= i < |trail| ==> IsWhitespace(trail[i])
    requires s != [] && !IsWhitespace(s[0]) && !IsWhitespace(s[|s| - 1])
    ensures Trim(lead + s + trail) == s
  {
    assert lead + s + trail == lead + (s + trail);
    TrimStartSkips(lead, s + trail);
    TrimEndSkips(s, trail);
  }

  /** The hex literals of the palette, in declaration order (gray, brand, then feedback). */
  const Palette: seq<string> := [
    "#FAFAFA", "#F5F6F7", "#E6E8EB", "#D0D5DD", "#98A2B3",
    "#667085", "#475467", "#344054", "#1D2939", "#101828",
    "#EEF4FF", "#D9E6FF", "#B4CCFF", "#84ADFF", "#528BFF",
    "#2E6BFF", "#1F4FE0", "#173DB0", "#112F86", "#0C215F",
    "#ECFDF3", "#12B76A", "#FFFAEB", "#F79009",
    "#FEF3F2", "#F04438", "#EFF8FF", "#2E90FA"]

  /** Every palette literal is well formed, so none falls back to black by its length. */
  lemma PaletteWellFormed()
    ensures forall i :: 0 <= i < |Palette| ==> IsHexLiteral(Palette[i]) && |Clean(Palette[i])| == 6
  {
    forall i | 0 <= i < |Palette|
      ensures IsHexLiteral(Palette[i]) && |Clean(Palette[i])| == 6
    {
      assert IsHexLiteral(Palette[i]);
      CleanOfLiteral(Palette[i]);
    }
  }
}
