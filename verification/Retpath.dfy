/** The check of a return path: decode it again and again until nothing changes,
    and accept it only if every form on the way is a local path. */
module Retpath {
  import opened Bytes
  import opened Utf8
  import opened Wrappers

  // ---- Percent decoding ------------------------------------------------------------

  function HexValue(c: char): Option<byte> {
    if '0' <= c <= '9' then Some((c as int) - 48)
    else if 'A' <= c <= 'F' then Some((c as int) - 55)
    else if 'a' <= c <= 'f' then Some((c as int) - 87)
    else None
  }

  predicate Ascii(c: char) {
    c < '\U{80}'
  }

  predicate AllAscii(text: string) {
    forall i :: 0 <= i < |text| ==> Ascii(text[i])
  }

  /** The byte of an escape at the start of some text (section 2.1 of RFC 3986). */
  function Escape(text: string): Option<byte> {
    if |text| < 3 || text[0] != '%' then None
    else
      var high, low := HexValue(text[1]), HexValue(text[2]);
      if high.None? || low.None? || high.value >= 16 || low.value >= 16 then None
      else Some(16 * (high.value as int) + (low.value as int))
  }

  function Unescape(text: string): Bytes
    requires AllAscii(text)
  {
    if text == [] then []
    else
      var escape := Escape(text);
      if escape.Some? then [escape.value] + Unescape(text[3..])
      else [text[0] as byte] + Unescape(text[1..])
  }

  /** The length of the ASCII run at the start. */
  function AsciiRun(text: string): (n: nat)
    ensures n <= |text| && AllAscii(text[..n])
    ensures text != [] && Ascii(text[0]) ==> n > 0
  {
    if text == [] || !Ascii(text[0]) then 0 else
      var n := AsciiRun(text[1..]);
      assert forall i :: 0 < i < n + 1 ==> text[i] == text[1..][..n][i - 1];
      n + 1
  }

  /** Decode every run of ASCII text on its own; None if that is not UTF-8. */
  function Unquote(text: string): Option<string> {
    if text == [] then Some([])
    else if !Ascii(text[0]) then
      var rest := Unquote(text[1..]);
      if rest.None? then None else Some([text[0]] + rest.value)
    else
      var n := AsciiRun(text);
      var run, rest := DecodeStrict(Unescape(text[..n])), Unquote(text[n..]);
      if run.None? || rest.None? then None else Some(run.value + rest.value)
  }

  /** Without an escape nothing changes, with one the text gets shorter by two
      or more. */
  predicate Shrinks(text: string, decoded: string) {
    decoded == text || |decoded| + 2 <= |text|
  }

  lemma {:induction false} UnescapeShrinks(text: string)
    requires AllAscii(text)
    ensures |Unescape(text)| + 2 <= |text|
            || (|Unescape(text)| == |text| && forall i :: 0 <= i < |text| ==> Unescape(text)[i] == text[i] as int)
  {
    hide Escape;
    if text != [] {
      if Escape(text).Some? {
        EscapeIsThree(text);
        UnescapeShrinks(text[3..]);
      } else {
        UnescapeShrinks(text[1..]);
        assert Unescape(text) == [text[0] as byte] + Unescape(text[1..]);
      }
    }
  }

  lemma EscapeIsThree(text: string)
    requires Escape(text).Some?
    ensures |text| >= 3
  {
  }

  lemma RunShrinks(text: string)
    requires AllAscii(text)
    ensures DecodeStrict(Unescape(text)).Some? ==> Shrinks(text, DecodeStrict(Unescape(text)).value)
  {
    hide Unescape, DecodeStrict;
    var bytes := Unescape(text);
    UnescapeShrinks(text);
    StrictIsNoLonger(bytes);
    if |bytes| + 2 > |text| {
      forall i | 0 <= i < |bytes|
        ensures bytes[i] < 128 && text[i] == bytes[i] as char
      {
        assert Ascii(text[i]) && bytes[i] == text[i] as int;
      }
      StrictKeepsAscii(bytes, text);
    }
  }

  lemma {:induction false} UnquoteShrinks(text: string)
    ensures Unquote(text).Some? ==> Shrinks(text, Unquote(text).value)
    decreases |text|
  {
    hide AsciiRun, Unescape, DecodeStrict, Ascii;
    if text != [] && Unquote(text).Some? {
      if !Ascii(text[0]) {
        UnquoteShrinks(text[1..]);
        assert text == [text[0]] + text[1..];
      } else {
        var n := AsciiRun(text);
        RunShrinks(text[..n]);
        UnquoteShrinks(text[n..]);
        assert text == text[..n] + text[n..];
      }
    }
  }

  // ---- Local paths ------------------------------------------------------------------

  predicate Forbidden(c: char) {
    c < ' ' || c == '\U{7F}' || c == '\\'
  }

  /** One slash at the start, and no control character or backslash. */
  predicate Local(value: string) {
    && 0 < |value| && value[0] == '/' && !(1 < |value| && value[1] == '/')
    && forall i :: 0 <= i < |value| ==> !Forbidden(value[i])
  }

  predicate Letter(c: char) {
    'a' <= c <= 'z' || 'A' <= c <= 'Z'
  }

  /** The URL parser finds a scheme only behind a letter and a host only behind
      two slashes. */
  predicate MayNameHost(value: string) {
    (0 < |value| && Letter(value[0]) && ':' in value) || (1 < |value| && value[0] == value[1] == '/')
  }

  /** The form a value has after some rounds of decoding. */
  function Form(value: string, rounds: nat): Option<string>
    decreases rounds
  {
    if rounds == 0 then Some(value)
    else
      var decoded := Unquote(value);
      if decoded.None? then None else Form(decoded.value, rounds - 1)
  }

  ghost predicate LocalForever(value: string) {
    forall rounds: nat :: Form(value, rounds).Some? && Local(Form(value, rounds).value)
  }

  /** What the loop computes. */
  predicate Accepts(value: string)
    decreases |value|
  {
    UnquoteShrinks(value);
    Local(value)
    && var decoded := Unquote(value);
       decoded.Some? && (decoded.value == value || Accepts(decoded.value))
  }

  lemma {:induction false} AcceptedForms(value: string, rounds: nat)
    requires Accepts(value)
    ensures Form(value, rounds).Some? && Local(Form(value, rounds).value)
    decreases rounds
  {
    hide Unquote, Local;
    if rounds > 0 {
      AcceptedForms(Unquote(value).value, rounds - 1);
    }
  }

  lemma {:induction false} LocalFormsAreAccepted(value: string)
    requires LocalForever(value)
    ensures Accepts(value)
    decreases |value|
  {
    hide Unquote, Local;
    assert Local(value) by { assert Form(value, 0) == Some(value); }
    assert Unquote(value).Some? by { assert Form(value, 1).Some?; }
    var decoded := Unquote(value).value;
    UnquoteShrinks(value);
    if decoded != value {
      forall rounds: nat
        ensures Form(decoded, rounds).Some? && Local(Form(decoded, rounds).value)
      {
        assert Form(value, rounds + 1) == Form(decoded, rounds);
      }
      LocalFormsAreAccepted(decoded);
    }
  }

  /** How often the loop goes around. */
  function Rounds(value: string): nat
    decreases |value|
  {
    UnquoteShrinks(value);
    if !Local(value) || Unquote(value).None? || Unquote(value).value == value then 1
    else 1 + Rounds(Unquote(value).value)
  }

  lemma {:induction false} RoundsBound(value: string)
    ensures 2 * Rounds(value) <= |value| + 2
    decreases |value|
  {
    hide Unquote, Local;
    UnquoteShrinks(value);
    if Local(value) && Unquote(value).Some? && Unquote(value).value != value {
      RoundsBound(Unquote(value).value);
    }
  }

  // ---- The function -------------------------------------------------------------------

  const LONGEST: nat := 2048

  /** The value if it is short and a local path however often it is decoded,
      else the root. */
  ghost function Safe(value: string): string {
    if |value| <= LONGEST && LocalForever(value) then value else "/"
  }

  method SafeRetpath(value: string) returns (path: string)
    ensures path == Safe(value)
  {
    hide Unquote, Local, MayNameHost;
    if |value| > LONGEST {
      return "/";
    }
    var current := value;
    ghost var rounds := 0;
    AcceptsExactly(value);
    while true
      invariant Accepts(value) <==> Accepts(current)
      invariant rounds + Rounds(current) == Rounds(value) <= 1025
      decreases |current|
    {
      if !Local(current) {
        return "/";
      }
      LocalNamesNoHost(current);
      if MayNameHost(current) {
        return "/";
      }
      var decoded := Unquote(current);
      if decoded.None? {
        return "/";
      }
      UnquoteShrinks(current);
      if decoded.value == current {
        return value;
      }
      current := decoded.value;
      rounds := rounds + 1;
    }
  }

  lemma {:induction false} AcceptsExactly(value: string)
    ensures LocalForever(value) <==> Accepts(value)
    ensures |value| <= LONGEST ==> Rounds(value) <= 1025
  {
    hide Accepts, Form, Local;
    RoundsBound(value);
    if Accepts(value) {
      forall rounds: nat
        ensures Form(value, rounds).Some? && Local(Form(value, rounds).value)
      {
        AcceptedForms(value, rounds);
      }
    }
    if LocalForever(value) {
      LocalFormsAreAccepted(value);
    }
  }

  lemma LocalNamesNoHost(value: string)
    requires Local(value)
    ensures !MayNameHost(value)
  {
  }

  /** Checking a checked path changes nothing, and a checked path may be decoded
      as often as one likes and stays local: behind one slash, without control
      characters and backslashes. */
  lemma SafeIsSafe(value: string, rounds: nat)
    ensures Safe(Safe(value)) == Safe(value)
    ensures Form(Safe(value), rounds).Some?
    ensures var form := Form(Safe(value), rounds).value;
            && Local(form) && form != [] && form[0] == '/' && (|form| > 1 ==> form[1] != '/')
            && forall i :: 0 <= i < |form| ==> form[i] as int >= 32 && form[i] as int != 127 && form[i] != '\\'
  {
    hide Form;
    if Safe(value) == "/" {
      RootIsLocal();
    }
  }

  lemma RootIsLocal()
    ensures LocalForever("/")
  {
    var root := "/";
    assert Unquote(root) == Some(root) by {
      assert AsciiRun(root) == 1 && root[..1] == root && root[1..] == [];
      assert Unescape(root) == [47];
      StrictKeepsAscii([47], root);
      assert root + [] == root;
    }
    assert Accepts(root);
    AcceptsExactly(root);
  }

  // ---- What decoding does --------------------------------------------------------------

  const HEX_LOWER := "0123456789abcdef"
  const HEX_UPPER := "0123456789ABCDEF"

  function Digit(value: nat, upper: bool): char
    requires value < 16
  {
    if upper then HEX_UPPER[value] else HEX_LOWER[value]
  }

  /** How a byte is written: as its character, or as an escape with either case
      of each digit. */
  datatype Spelling = Plain | Escaped(upperHigh: bool, upperLow: bool)

  /** Percent signs and bytes outside ASCII must be escaped. */
  predicate Spells(bytes: Bytes, spellings: seq<Spelling>) {
    && |bytes| == |spellings|
    && forall i :: 0 <= i < |bytes| && spellings[i].Plain? ==> bytes[i] < 128 && bytes[i] != 37
  }

  function SpelledByte(b: byte, spelling: Spelling): string
    requires spelling.Plain? ==> b < 128
  {
    match spelling
    case Plain => [b as char]
    case Escaped(upperHigh, upperLow) => ['%', Digit(b / 16, upperHigh), Digit(b % 16, upperLow)]
  }

  function Spelled(bytes: Bytes, spellings: seq<Spelling>): string
    requires Spells(bytes, spellings)
  {
    if bytes == [] then [] else SpelledByte(bytes[0], spellings[0]) + Spelled(bytes[1..], spellings[1..])
  }

  lemma DigitValue(value: nat, upper: bool)
    requires value < 16
    ensures HexValue(Digit(value, upper)) == Some(value) && Ascii(Digit(value, upper))
  {
  }

  lemma EscapeOfSpelled(b: byte, upperHigh: bool, upperLow: bool, rest: string)
    ensures Escape(SpelledByte(b, Escaped(upperHigh, upperLow)) + rest) == Some(b)
    ensures AllAscii(SpelledByte(b, Escaped(upperHigh, upperLow)))
  {
    hide HexValue, Digit, Ascii;
    DigitValue(b / 16, upperHigh);
    DigitValue(b % 16, upperLow);
    assert Ascii('%') by { PercentIsAscii(); }
  }

  lemma PercentIsAscii()
    ensures Ascii('%')
  {
  }

  lemma {:induction false} SpelledBack(bytes: Bytes, spellings: seq<Spelling>)
    requires Spells(bytes, spellings)
    ensures AllAscii(Spelled(bytes, spellings)) && Unescape(Spelled(bytes, spellings)) == bytes
  {
    hide Escape;
    if bytes != [] {
      var front, rest := SpelledByte(bytes[0], spellings[0]), Spelled(bytes[1..], spellings[1..]);
      SpelledBack(bytes[1..], spellings[1..]);
      if spellings[0].Plain? {
        PlainIsNoEscape(front + rest);
        assert (front + rest)[1..] == rest;
      } else {
        EscapeOfSpelled(bytes[0], spellings[0].upperHigh, spellings[0].upperLow, rest);
        assert (front + rest)[3..] == rest;
      }
    }
  }

  lemma PlainIsNoEscape(text: string)
    requires text != [] && text[0] != '%'
    ensures Escape(text).None?
  {
  }

  lemma {:induction false} RunEnds(run: string, rest: string)
    requires AllAscii(run) && (rest == [] || !Ascii(rest[0]))
    ensures AsciiRun(run + rest) == |run|
  {
    if run == [] {
      assert run + rest == rest;
    } else {
      assert Ascii(run[0]);
      RunEnds(run[1..], rest);
      assert (run + rest)[1..] == run[1..] + rest;
    }
  }

  lemma UnquoteRun(run: string, rest: string)
    requires run != [] && AllAscii(run) && (rest == [] || !Ascii(rest[0]))
    ensures Unquote(run + rest)
            == var decoded, more := DecodeStrict(Unescape(run)), Unquote(rest);
               if decoded.None? || more.None? then None else Some(decoded.value + more.value)
  {
    hide AsciiRun, Unescape, DecodeStrict;
    assert Ascii(run[0]);
    RunEnds(run, rest);
    assert (run + rest)[..|run|] == run && (run + rest)[|run|..] == rest;
  }

  /** Main result.  Whatever bytes are escaped, and in whatever case, decoding
      gives back the text whose encoding they are, and fails if there is none. */
  lemma DecodesSpelled(bytes: Bytes, spellings: seq<Spelling>, rest: string, text: string)
    requires Spells(bytes, spellings) && (rest == [] || !Ascii(rest[0]))
    ensures Unquote(rest).Some? ==>
              (Unquote(Spelled(bytes, spellings) + rest) == Some(text + Unquote(rest).value) <==> bytes == Encode(text))
    ensures Unquote(Spelled(bytes, spellings) + rest).Some? <==> DecodeStrict(bytes).Some? && Unquote(rest).Some?
  {
    hide Unquote, DecodeStrict, Encode, Unescape, SpelledByte;
    var run := Spelled(bytes, spellings);
    SpelledBack(bytes, spellings);
    StrictExactly(bytes, text);
    if bytes == [] {
      assert run + rest == rest;
      NothingStrict();
    } else {
      SpelledIsSome(bytes, spellings);
      UnquoteRun(run, rest);
    }
    if Unquote(rest).Some? && DecodeStrict(bytes).Some? {
      SameTail(DecodeStrict(bytes).value, text, Unquote(rest).value);
      assert [] + Unquote(rest).value == Unquote(rest).value;
    }
  }

  lemma NothingStrict()
    ensures DecodeStrict([]) == Some([])
  {
  }

  lemma SpelledIsSome(bytes: Bytes, spellings: seq<Spelling>)
    requires Spells(bytes, spellings) && bytes != []
    ensures Spelled(bytes, spellings) != []
  {
  }

  lemma SameTail(a: string, b: string, tail: string)
    ensures a + tail == b + tail <==> a == b
  {
    if a + tail == b + tail {
      assert a == (a + tail)[..|a + tail| - |tail|] && b == (b + tail)[..|b + tail| - |tail|];
    }
  }

  /** A character outside ASCII is kept. */
  lemma KeepsOthers(c: char, rest: string)
    requires !Ascii(c)
    ensures Unquote([c] + rest) == if Unquote(rest).Some? then Some([c] + Unquote(rest).value) else None
  {
    assert ([c] + rest)[1..] == rest;
  }

  predicate HexDigit(c: char) {
    c in HEX_LOWER || c in HEX_UPPER
  }

  /** No percent sign is followed by two hexadecimal digits. */
  predicate NoEscapes(text: string) {
    forall i :: 0 <= i < |text| - 2 && text[i] == '%' ==> !HexDigit(text[i + 1]) || !HexDigit(text[i + 2])
  }

  lemma HexDigits(c: char)
    ensures HexValue(c).Some? ==> HexDigit(c) && HexValue(c).value < 16
  {
    if HexValue(c).Some? {
      var value := HexValue(c).value;
      assert HEX_LOWER[value] == c || HEX_UPPER[value] == c;
    }
  }

  lemma {:induction false} NothingToUnescape(text: string)
    requires AllAscii(text) && NoEscapes(text)
    ensures |Unescape(text)| == |text|
    ensures forall i :: 0 <= i < |text| ==> Unescape(text)[i] == text[i] as int
  {
    hide HexValue, HexDigit;
    if text != [] {
      if |text| >= 3 {
        HexDigits(text[1]);
        HexDigits(text[2]);
      }
      assert Escape(text).None?;
      assert NoEscapes(text[1..]) by {
        assert forall i :: 0 <= i < |text| - 1 ==> text[1..][i] == text[i + 1];
      }
      NothingToUnescape(text[1..]);
    }
  }

  /** Main result.  A text without escapes is decoded to itself. */
  lemma {:induction false} NothingToDecode(text: string)
    requires NoEscapes(text)
    ensures Unquote(text) == Some(text)
    decreases |text|
  {
    hide AsciiRun, Unescape, DecodeStrict, NoEscapes, AllAscii;
    if text != [] {
      if !Ascii(text[0]) {
        NoEscapesInRest(text, 1);
        NothingToDecode(text[1..]);
        assert text == [text[0]] + text[1..];
      } else {
        var n := AsciiRun(text);
        NoEscapesInRest(text, n);
        PlainRun(text[..n]);
        NothingToDecode(text[n..]);
        assert text == text[..n] + text[n..];
      }
    }
  }

  lemma PlainRun(run: string)
    requires AllAscii(run) && NoEscapes(run)
    ensures DecodeStrict(Unescape(run)) == Some(run)
  {
    hide Unescape, DecodeStrict, NoEscapes;
    NothingToUnescape(run);
    assert forall i :: 0 <= i < |run| ==> Ascii(run[i]);
    StrictKeepsAscii(Unescape(run), run);
  }

  lemma NoEscapesInRest(text: string, n: nat)
    requires n <= |text| && NoEscapes(text)
    ensures NoEscapes(text[..n]) && NoEscapes(text[n..])
  {
    hide HexDigit;
    assert forall i :: 0 <= i < |text| - n ==> text[n..][i] == text[i + n];
  }

  // ---- What is refused and what is kept --------------------------------------------------

  /** Main result.  However a text is escaped, wholly or in part, once or many
      times, its encoding is refused if the text is no local path or does not
      stay one. */
  lemma EscapingDoesNotHelp(text: string, spellings: seq<Spelling>)
    requires Spells(Encode(text), spellings) && !LocalForever(text)
    ensures Safe(Spelled(Encode(text), spellings)) == "/"
    ensures !LocalForever(Spelled(Encode(text), spellings))
  {
    hide Unquote, Local, Encode, Spelled, LocalForever;
    var value := Spelled(Encode(text), spellings);
    DecodesSpelled(Encode(text), spellings, [], text);
    assert Unquote([]) == Some([]) by { NothingUnquoted(); }
    assert value + [] == value && text + [] == text;
    if LocalForever(value) {
      FirstForm(value);
      assert false;
    }
  }

  lemma NothingUnquoted()
    ensures Unquote([]) == Some([])
  {
  }

  lemma FirstForm(value: string)
    requires Unquote(value).Some? && LocalForever(value)
    ensures LocalForever(Unquote(value).value)
  {
    hide Unquote, Local;
    var decoded := Unquote(value).value;
    forall rounds: nat
      ensures Form(decoded, rounds).Some? && Local(Form(decoded, rounds).value)
    {
      assert Form(value, rounds + 1) == Form(decoded, rounds);
    }
  }

  lemma NotLocalNow(text: string)
    requires !Local(text)
    ensures !LocalForever(text)
  {
    hide Local;
    assert Form(text, 0) == Some(text);
  }

  /** Main result.  A short path behind one slash, without control characters,
      backslashes and escapes, is kept. */
  lemma PlainPathIsKept(value: string)
    requires 0 < |value| <= 2048 && value[0] == '/' && (|value| > 1 ==> value[1] != '/')
    requires forall i :: 0 <= i < |value| ==> value[i] as int >= 32 && value[i] as int != 127 && value[i] != '\\'
    requires NoEscapes(value)
    ensures Safe(value) == value
  {
    assert Local(value);
    hide Unquote, Local, NoEscapes;
    NothingToDecode(value);
    assert Accepts(value);
    AcceptsExactly(value);
  }

  /** Main result.  A path is refused only because it is too long, or because
      some number of decodings fails or gives no local path. */
  lemma RefusedForCause(value: string) returns (rounds: nat)
    requires Safe(value) != value
    ensures |value| > 2048 || Form(value, rounds).None? || !Local(Form(value, rounds).value)
  {
    hide Form, Local;
    rounds := 0;
    if |value| <= 2048 {
      rounds :| !(Form(value, rounds).Some? && Local(Form(value, rounds).value));
    }
  }

  /** The commonest spelling of a second slash. */
  lemma EscapedSlashIsRefused()
    ensures Safe("/%2fa") == Safe("/%2Fa") == "/"
  {
    var text, bytes := "//a", [47, 47, 97];
    assert Encode(text) == bytes by {
      assert text[1..] == "/a" && text[1..][1..] == "a" && text[1..][1..][1..] == "";
    }
    assert !Local(text);
    NotLocalNow(text);
    SpelledSlash(false);
    SpelledSlash(true);
    hide Local, Spelled, Encode, Safe;
    EscapingDoesNotHelp(text, [Plain, Escaped(false, false), Plain]);
    EscapingDoesNotHelp(text, [Plain, Escaped(false, true), Plain]);
  }

  lemma SpelledSlash(upper: bool)
    ensures Spelled([47, 47, 97], [Plain, Escaped(false, upper), Plain]) == if upper then "/%2Fa" else "/%2fa"
  {
    var spellings := [Plain, Escaped(false, upper), Plain];
    assert [47, 47, 97][1..] == [47, 97] && [47, 97][1..] == [97] && [97][1..] == [];
    assert spellings[1..] == [Escaped(false, upper), Plain] && spellings[1..][1..] == [Plain];
    assert Spelled([97], [Plain]) == "a";
    assert SpelledByte(47, Escaped(false, upper)) == if upper then "%2F" else "%2f";
    assert Spelled([47, 97], [Escaped(false, upper), Plain]) == SpelledByte(47, Escaped(false, upper)) + "a";
  }
}
