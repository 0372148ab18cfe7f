/** Quoted strings: the browser's client hints are unquoted with two replacements
    in a row, log values are quoted with two. */
module Quoting {

  /** Replace every occurrence, from the left, without overlap. */
  function Replace(text: string, pattern: string, replacement: string): string
    requires pattern != []
  {
    if |text| < |pattern| then text
    else if text[..|pattern|] == pattern then replacement + Replace(text[|pattern|..], pattern, replacement)
    else [text[0]] + Replace(text[1..], pattern, replacement)
  }

  const QUOTE: char := '"'
  const SLASH: char := '\\'

  /** What a quoted string may hold between its quotes: a backslash escapes a
      quote or a backslash, nothing else, and no other quote occurs (section
      3.3.3 of RFC 8941). */
  predicate WellFormed(inner: string) {
    if inner == [] then true
    else if inner[0] == SLASH then |inner| >= 2 && inner[1] in {QUOTE, SLASH} && WellFormed(inner[2..])
    else inner[0] != QUOTE && WellFormed(inner[1..])
  }

  /** Unescape from left to right, as section 4.2.5 of RFC 8941 has it. */
  function Unescape(inner: string): string
    requires WellFormed(inner)
  {
    if inner == [] then []
    else if inner[0] == SLASH then [inner[1]] + Unescape(inner[2..])
    else [inner[0]] + Unescape(inner[1..])
  }

  /** Escape from left to right. */
  function Escape(value: string): string {
    if value == [] then []
    else (if value[0] in {QUOTE, SLASH} then [SLASH, value[0]] else [value[0]]) + Escape(value[1..])
  }

  /** The first replacement on the way in, written from left to right. */
  function QuotesUnescaped(inner: string): string
    requires WellFormed(inner)
  {
    if inner == [] then []
    else if inner[0] == SLASH then
      (if inner[1] == QUOTE then [QUOTE] else [SLASH, SLASH]) + QuotesUnescaped(inner[2..])
    else [inner[0]] + QuotesUnescaped(inner[1..])
  }

  lemma {:induction false} FirstPass(inner: string)
    requires WellFormed(inner)
    ensures Replace(inner, [SLASH, QUOTE], [QUOTE]) == QuotesUnescaped(inner)
    ensures inner != [] && inner[0] != SLASH ==> inner[0] != QUOTE
    decreases |inner|
  {
    hide Replace;
    var pattern, replacement := [SLASH, QUOTE], [QUOTE];
    if inner == [] {
      ReplaceNothing(pattern, replacement);
    } else if inner[0] == SLASH {
      var rest := inner[2..];
      FirstPass(rest);
      if inner[1] == QUOTE {
        assert inner == pattern + rest;
        ReplaceFirst(rest, pattern, replacement);
      } else {
        assert inner == [SLASH] + ([SLASH] + rest);
        PassOver([SLASH] + rest);
        PassOver(rest);
      }
    } else {
      FirstPass(inner[1..]);
      assert inner == [inner[0]] + inner[1..];
      SkipFirst(inner[0], inner[1..], pattern, replacement);
    }
  }

  /** An escaped backslash is not taken for the start of an escaped quote,
      since no bare quote follows it. */
  lemma PassOver(rest: string)
    requires rest == [] || rest[0] != QUOTE
    ensures Replace([SLASH] + rest, [SLASH, QUOTE], [QUOTE]) == [SLASH] + Replace(rest, [SLASH, QUOTE], [QUOTE])
  {
    var text, pattern := [SLASH] + rest, [SLASH, QUOTE];
    assert text[1..] == rest;
    if rest != [] {
      assert text[..2] != pattern by { assert text[..2][1] != pattern[1]; }
    }
  }

  lemma {:induction false} SecondPass(inner: string)
    requires WellFormed(inner)
    ensures Replace(QuotesUnescaped(inner), [SLASH, SLASH], [SLASH]) == Unescape(inner)
    decreases |inner|
  {
    hide Replace;
    var pattern, replacement := [SLASH, SLASH], [SLASH];
    if inner == [] {
      ReplaceNothing(pattern, replacement);
    } else if inner[0] == SLASH {
      SecondPass(inner[2..]);
      var rest := QuotesUnescaped(inner[2..]);
      if inner[1] == QUOTE {
        SkipFirst(QUOTE, rest, pattern, replacement);
      } else {
        ReplaceFirst(rest, pattern, replacement);
      }
    } else {
      SecondPass(inner[1..]);
      SkipFirst(inner[0], QuotesUnescaped(inner[1..]), pattern, replacement);
    }
  }

  /** A character that does not start the pattern is copied. */
  lemma Skip(text: string, pattern: string, replacement: string)
    requires pattern != [] && text != [] && text[0] != pattern[0]
    ensures Replace(text, pattern, replacement) == [text[0]] + Replace(text[1..], pattern, replacement)
  {
    if |text| < |pattern| {
      assert text == [text[0]] + text[1..];
    } else {
      assert text[..|pattern|] != pattern by { assert text[..|pattern|][0] != pattern[0]; }
    }
  }

  /** What the two replacements make of the text between the quotes. */
  function TwoPasses(inner: string): string {
    Replace(Replace(inner, [SLASH, QUOTE], [QUOTE]), [SLASH, SLASH], [SLASH])
  }

  /** Main result.  On every well-formed quoted string the two replacements in a
      row do what unescaping from left to right does. */
  lemma TwoPassesUnescape(inner: string)
    requires WellFormed(inner)
    ensures TwoPasses(inner) == Unescape(inner)
  {
    hide Replace, Unescape, QuotesUnescaped;
    FirstPass(inner);
    SecondPass(inner);
  }

  // ---- Log values ---------------------------------------------------------------------

  lemma {:induction false} EscapeInverts(value: string)
    ensures WellFormed(Escape(value)) && Unescape(Escape(value)) == value
  {
    if value != [] {
      EscapeInverts(value[1..]);
      var escaped, rest := Escape(value), Escape(value[1..]);
      if value[0] in {QUOTE, SLASH} {
        assert escaped[0] == SLASH && escaped[1] == value[0] && escaped[2..] == rest;
      } else {
        assert escaped[0] == value[0] && escaped[1..] == rest;
      }
    }
  }

  /** The backslashes doubled, written from left to right. */
  function SlashesDoubled(value: string): string {
    if value == [] then []
    else (if value[0] == SLASH then [SLASH, SLASH] else [value[0]]) + SlashesDoubled(value[1..])
  }

  lemma {:induction false} DoublePass(value: string)
    ensures Replace(value, [SLASH], [SLASH, SLASH]) == SlashesDoubled(value)
  {
    if value != [] {
      DoublePass(value[1..]);
      assert value[..1] == [value[0]];
    }
  }

  lemma {:induction false} QuotePass(value: string)
    ensures Replace(SlashesDoubled(value), [QUOTE], [SLASH, QUOTE]) == Escape(value)
  {
    hide Replace;
    if value == [] {
      ReplaceNothing([QUOTE], [SLASH, QUOTE]);
    } else {
      QuotePass(value[1..]);
      var rest := SlashesDoubled(value[1..]);
      if value[0] == SLASH {
        assert SlashesDoubled(value) == [SLASH] + ([SLASH] + rest);
        SkipFirst(SLASH, [SLASH] + rest, [QUOTE], [SLASH, QUOTE]);
        SkipFirst(SLASH, rest, [QUOTE], [SLASH, QUOTE]);
      } else if value[0] == QUOTE {
        assert SlashesDoubled(value) == [QUOTE] + rest;
        ReplaceFirst(rest, [QUOTE], [SLASH, QUOTE]);
      } else {
        assert SlashesDoubled(value) == [value[0]] + rest;
        SkipFirst(value[0], rest, [QUOTE], [SLASH, QUOTE]);
      }
    }
  }

  lemma ReplaceNothing(pattern: string, replacement: string)
    requires pattern != []
    ensures Replace([], pattern, replacement) == []
  {
  }

  lemma ReplaceFirst(rest: string, pattern: string, replacement: string)
    requires pattern != []
    ensures Replace(pattern + rest, pattern, replacement) == replacement + Replace(rest, pattern, replacement)
  {
    assert (pattern + rest)[..|pattern|] == pattern && (pattern + rest)[|pattern|..] == rest;
  }

  lemma SkipFirst(first: char, rest: string, pattern: string, replacement: string)
    requires pattern != [] && first != pattern[0]
    ensures Replace([first] + rest, pattern, replacement) == [first] + Replace(rest, pattern, replacement)
  {
    assert ([first] + rest)[1..] == rest;
    Skip([first] + rest, pattern, replacement);
  }

  // ---- The two functions ----------------------------------------------------------------

  function FormatLogValue(value: string): string {
    if value == [] || value == "-" then "-"
    else [QUOTE] + Replace(Replace(value, [SLASH], [SLASH, SLASH]), [QUOTE], [SLASH, QUOTE]) + [QUOTE]
  }

  predicate Space(c: char) {
    '\t' <= c <= '\r' || '\U{1C}' <= c <= ' ' || c == '\U{85}' || c == '\U{A0}' || c == '\U{1680}'
    || '\U{2000}' <= c <= '\U{200A}' || c == '\U{2028}' || c == '\U{2029}' || c == '\U{202F}' || c == '\U{205F}'
    || c == '\U{3000}'
  }

  function StripLeft(text: string): string {
    if text != [] && Space(text[0]) then StripLeft(text[1..]) else text
  }

  function StripRight(text: string): string {
    if text != [] && Space(text[|text| - 1]) then StripRight(text[..|text| - 1]) else text
  }

  function ParseHint(value: string): string {
    var stripped := StripRight(StripLeft(value));
    if |stripped| >= 2 && stripped[0] == QUOTE && stripped[|stripped| - 1] == QUOTE
    then TwoPasses(stripped[1..|stripped| - 1])
    else stripped
  }

  /** Quoting escapes exactly what unquoting expects. */
  lemma FormatEscapes(value: string)
    requires value != [] && value != "-"
    ensures FormatLogValue(value) == [QUOTE] + Escape(value) + [QUOTE]
  {
    hide Replace, Escape, SlashesDoubled;
    DoublePass(value);
    QuotePass(value);
  }

  lemma ParseQuoted(inner: string)
    requires WellFormed(inner)
    ensures ParseHint([QUOTE] + inner + [QUOTE]) == Unescape(inner)
  {
    hide TwoPasses, Unescape, WellFormed;
    var text := [QUOTE] + inner + [QUOTE];
    assert StripLeft(text) == text && StripRight(text) == text;
    assert text[1..|text| - 1] == inner;
    TwoPassesUnescape(inner);
  }

  /** Main result.  Parsing a formatted value gives the value back, except that
      nothing is formatted as a dash. */
  lemma FormatParsesBack(value: string)
    ensures ParseHint(FormatLogValue(value)) == value <==> value != []
  {
    if value == [] || value == "-" {
      assert StripLeft("-") == "-" && StripRight("-") == "-";
    } else {
      hide ParseHint, FormatLogValue, Escape, Unescape;
      FormatEscapes(value);
      EscapeInverts(value);
      ParseQuoted(Escape(value));
    }
  }

  // ---- Around the quotes -----------------------------------------------------------------

  const SPACES: set<char> := {
    '\t', '\n', '\U{0B}', '\U{0C}', '\r', '\U{1C}', '\U{1D}', '\U{1E}', '\U{1F}', ' ', '\U{85}', '\U{A0}',
    '\U{1680}', '\U{2000}', '\U{2001}', '\U{2002}', '\U{2003}', '\U{2004}', '\U{2005}', '\U{2006}', '\U{2007}',
    '\U{2008}', '\U{2009}', '\U{200A}', '\U{2028}', '\U{2029}', '\U{202F}', '\U{205F}', '\U{3000}'
  }

  lemma SpaceIs(c: char)
    ensures Space(c) <==> c in SPACES
  {
    var n := c as int;
    assert Space(c) <==> || 9 <= n <= 13 || 28 <= n <= 32 || 0x2000 <= n <= 0x200A
                         || n in {0x85, 0xA0, 0x1680, 0x2028, 0x2029, 0x202F, 0x205F, 0x3000};
  }

  predicate Blank(text: string) {
    forall i :: 0 <= i < |text| ==> text[i] in SPACES
  }

  /** No white space at either end. */
  predicate Trim(text: string) {
    text != [] ==> text[0] !in SPACES && text[|text| - 1] !in SPACES
  }

  lemma {:induction false} StripsLeft(blank: string, text: string)
    requires Blank(blank) && (text != [] ==> text[0] !in SPACES)
    ensures StripLeft(blank + text) == text
  {
    hide Space;
    if blank == [] {
      assert blank + text == text;
      if text != [] {
        SpaceIs(text[0]);
      }
    } else {
      SpaceIs(blank[0]);
      StripsLeft(blank[1..], text);
      assert (blank + text)[1..] == blank[1..] + text;
    }
  }

  lemma {:induction false} StripsRight(text: string, blank: string)
    requires Blank(blank) && (text != [] ==> text[|text| - 1] !in SPACES)
    ensures StripRight(text + blank) == text
    decreases |blank|
  {
    hide Space;
    if blank == [] {
      assert text + blank == text;
      if text != [] {
        SpaceIs(text[|text| - 1]);
      }
    } else {
      SpaceIs(blank[|blank| - 1]);
      StripsRight(text, blank[..|blank| - 1]);
      assert (text + blank)[..|text + blank| - 1] == text + blank[..|blank| - 1];
    }
  }

  lemma {:induction false} BlankLeft(blank: string)
    requires Blank(blank)
    ensures StripLeft(blank) == []
  {
    StripsLeft(blank, []);
    assert blank + [] == blank;
  }

  /** Main result.  White space around a value does not matter, and a value that
      is not in quotes is returned as it is. */
  lemma ParseHintTrims(left: string, text: string, right: string)
    requires Blank(left) && Blank(right) && Trim(text)
    ensures ParseHint(left + text + right)
            == if |text| >= 2 && text[0] == '"' && text[|text| - 1] == '"' then TwoPasses(text[1..|text| - 1])
               else text
  {
    hide TwoPasses, StripLeft, StripRight;
    var all := left + text + right;
    if text == [] {
      assert all == left + right;
      BlankLeft(all);
      StripsRight([], []);
      var nothing: string := [];
      assert nothing + nothing == nothing;
    } else {
      assert all == left + (text + right);
      StripsLeft(left, text + right);
      StripsRight(text, right);
    }
  }

  /** Nothing and a dash are written as a dash. */
  lemma DashForNothing(value: string)
    ensures FormatLogValue(value) == "-" <==> value == [] || value == "-"
  {
    hide Replace;
    if value != [] && value != "-" {
      assert FormatLogValue(value)[0] == '"';
    }
  }
}
