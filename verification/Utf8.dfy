/** Decoding UTF-8, strictly or with a replacement character for each ill-formed
    piece, as Python's decoder cuts the pieces. */
module Utf8 {
  import opened Bytes
  import opened Wrappers

  const REPLACEMENT: char := '\U{FFFD}'

  /** The first piece of some bytes: its length, and its character if well-formed. */
  datatype Piece = Piece(length: nat, character: Option<char>)

  predicate Within(bytes: Bytes, i: nat, low: int, high: int) {
    i < |bytes| && low <= bytes[i] <= high
  }

  /** The payload of a continuation byte. */
  function Tail(b: byte): int {
    (b as int) - 0x80
  }

  function First(bytes: Bytes): (piece: Piece)
    requires bytes != []
    ensures 1 <= piece.length <= |bytes|
  {
    var lead: int := bytes[0];
    if lead < 0x80 then Piece(1, Some(lead as char))
    else if 0xC2 <= lead <= 0xDF then
      if !Within(bytes, 1, 0x80, 0xBF) then Piece(1, None)
      else Piece(2, Some(((lead - 0xC0) * 0x40 + Tail(bytes[1])) as char))
    else if 0xE0 <= lead <= 0xEF then
      if !Within(bytes, 1, if lead == 0xE0 then 0xA0 else 0x80, if lead == 0xED then 0x9F else 0xBF) then
        Piece(1, None)
      else if !Within(bytes, 2, 0x80, 0xBF) then Piece(2, None)
      else Piece(3, Some(((lead - 0xE0) * 0x1000 + Tail(bytes[1]) * 0x40 + Tail(bytes[2])) as char))
    else if 0xF0 <= lead <= 0xF4 then
      if !Within(bytes, 1, if lead == 0xF0 then 0x90 else 0x80, if lead == 0xF4 then 0x8F else 0xBF) then
        Piece(1, None)
      else if !Within(bytes, 2, 0x80, 0xBF) then Piece(2, None)
      else if !Within(bytes, 3, 0x80, 0xBF) then Piece(3, None)
      else Piece(4, Some(((lead - 0xF0) * 0x4_0000 + Tail(bytes[1]) * 0x1000 + Tail(bytes[2]) * 0x40
                          + Tail(bytes[3])) as char))
    else Piece(1, None)
  }

  /** Decode with a replacement character for every ill-formed piece. */
  function Decode(bytes: Bytes): string {
    if bytes == [] then []
    else
      var piece := First(bytes);
      [if piece.character.Some? then piece.character.value else REPLACEMENT] + Decode(bytes[piece.length..])
  }

  /** Decode well-formed bytes only. */
  function DecodeStrict(bytes: Bytes): Option<string> {
    if bytes == [] then Some([])
    else
      var piece := First(bytes);
      var rest := DecodeStrict(bytes[piece.length..]);
      if piece.character.Some? && rest.Some? then Some([piece.character.value] + rest.value) else None
  }

  /** A newline never continues a piece, so it cuts the decoding in two. */
  lemma FirstStopsAtNewline(bytes: Bytes, rest: Bytes)
    requires bytes != []
    ensures First(bytes + [10] + rest) == First(bytes)
  {
    var all := bytes + [10] + rest;
    assert forall i :: 0 <= i < |bytes| ==> all[i] == bytes[i];
    assert all[|bytes|] == 10;
    assert forall i: nat, low, high :: 1 <= i <= |bytes| && low >= 0x80 ==>
        (Within(all, i, low, high) <==> Within(bytes, i, low, high));
  }

  lemma FirstIsAscii(bytes: Bytes)
    requires bytes != [] && bytes[0] < 0x80
    ensures First(bytes) == Piece(1, Some(bytes[0] as char))
  {
  }

  lemma {:induction false} DecodeAtNewline(bytes: Bytes, rest: Bytes)
    ensures Decode(bytes + [10] + rest) == Decode(bytes) + ['\n'] + Decode(rest)
    decreases |bytes|
  {
    hide First, Decode;
    var all := bytes + [10] + rest;
    if bytes == [] {
      assert all == [10] + rest && all[1..] == rest;
      FirstIsAscii(all);
      DecodeFirst(all);
      DecodeNothing();
    } else {
      FirstStopsAtNewline(bytes, rest);
      var n := First(bytes).length;
      DecodeAtNewline(bytes[n..], rest);
      assert all[n..] == bytes[n..] + [10] + rest;
      DecodeFirst(all);
      DecodeFirst(bytes);
    }
  }

  lemma DecodeNothing()
    ensures Decode([]) == []
  {
  }

  lemma DecodeFirst(bytes: Bytes)
    requires bytes != []
    ensures var piece := First(bytes);
            Decode(bytes) == [if piece.character.Some? then piece.character.value else REPLACEMENT]
                             + Decode(bytes[piece.length..])
  {
    hide First;
  }

  /** Strict decoding never lengthens, and leaves ASCII as it is. */
  lemma {:induction false} StrictIsNoLonger(bytes: Bytes)
    ensures DecodeStrict(bytes).Some? ==> |DecodeStrict(bytes).value| <= |bytes|
  {
    if bytes != [] {
      StrictIsNoLonger(bytes[First(bytes).length..]);
    }
  }

  lemma {:induction false} StrictKeepsAscii(bytes: Bytes, text: string)
    requires |bytes| == |text|
    requires forall i :: 0 <= i < |bytes| ==> bytes[i] < 128 && text[i] == bytes[i] as char
    ensures DecodeStrict(bytes) == Some(text)
  {
    if bytes != [] {
      StrictKeepsAscii(bytes[1..], text[1..]);
      assert text == [text[0]] + text[1..];
    }
  }

  // ---- Encoding ----------------------------------------------------------------------

  /** The bytes of a character (section 3 of RFC 3629). */
  function EncodeChar(c: char): (bytes: Bytes)
    ensures 1 <= |bytes| <= 4
  {
    var n := c as int;
    if n < 0x80 then [n]
    else if n < 0x800 then [0xC0 + n / 0x40, 0x80 + n % 0x40]
    else if n < 0x1_0000 then [0xE0 + n / 0x1000, 0x80 + n / 0x40 % 0x40, 0x80 + n % 0x40]
    else [0xF0 + n / 0x4_0000, 0x80 + n / 0x1000 % 0x40, 0x80 + n / 0x40 % 0x40, 0x80 + n % 0x40]
  }

  function Encode(text: string): Bytes {
    if text == [] then [] else EncodeChar(text[0]) + Encode(text[1..])
  }

  /** Digits to base 64: three or four of them, the first unbounded. */
  lemma Join(n: nat)
    ensures n / 0x40 * 0x40 + n % 0x40 == n
    ensures n / 0x1000 * 0x1000 + n / 0x40 % 0x40 * 0x40 + n % 0x40 == n
    ensures n / 0x4_0000 * 0x4_0000 + n / 0x1000 % 0x40 * 0x1000 + n / 0x40 % 0x40 * 0x40 + n % 0x40 == n
  {
    var m := n / 0x40;
    assert n / 0x1000 == m / 0x40 && n / 0x4_0000 == m / 0x40 / 0x40;
  }

  lemma Split2(a: nat, b: nat)
    requires b < 0x40
    ensures var n := a * 0x40 + b;
            n / 0x40 == a && n % 0x40 == b
  {
  }

  lemma Split3(a: nat, b: nat, c: nat)
    requires b < 0x40 && c < 0x40
    ensures var n := a * 0x1000 + b * 0x40 + c;
            n / 0x1000 == a && n / 0x40 % 0x40 == b && n % 0x40 == c
  {
    var n := a * 0x1000 + b * 0x40 + c;
    Split2(a * 0x40 + b, c);
    Split2(a, b);
    assert n / 0x1000 == n / 0x40 / 0x40;
  }

  lemma Split4(a: nat, b: nat, c: nat, d: nat)
    requires b < 0x40 && c < 0x40 && d < 0x40
    ensures var n := a * 0x4_0000 + b * 0x1000 + c * 0x40 + d;
            n / 0x4_0000 == a && n / 0x1000 % 0x40 == b && n / 0x40 % 0x40 == c && n % 0x40 == d
  {
    var n := a * 0x4_0000 + b * 0x1000 + c * 0x40 + d;
    Split2(a * 0x1000 + b * 0x40 + c, d);
    Split3(a, b, c);
    var m := a * 0x1000 + b * 0x40 + c;
    assert n / 0x4_0000 == n / 0x40 / 0x1000;
    assert n / 0x1000 == n / 0x40 / 0x40;
  }

  lemma Decodes2(bytes: Bytes, c: char)
    requires |bytes| >= 2 && 0x80 <= c as int < 0x800
    requires bytes[0] == 0xC0 + c as int / 0x40 && bytes[1] == 0x80 + c as int % 0x40
    ensures First(bytes) == Piece(2, Some(c))
  {
    Join(c as int);
  }

  lemma Decodes3(bytes: Bytes, c: char)
    requires |bytes| >= 3 && 0x800 <= c as int < 0x1_0000
    requires bytes[0] == 0xE0 + c as int / 0x1000 && bytes[1] == 0x80 + c as int / 0x40 % 0x40
    requires bytes[2] == 0x80 + c as int % 0x40
    ensures First(bytes) == Piece(3, Some(c))
  {
    Join(c as int);
  }

  lemma Decodes4(bytes: Bytes, c: char)
    requires |bytes| >= 4 && 0x1_0000 <= c as int
    requires bytes[0] == 0xF0 + c as int / 0x4_0000 && bytes[1] == 0x80 + c as int / 0x1000 % 0x40
    requires bytes[2] == 0x80 + c as int / 0x40 % 0x40 && bytes[3] == 0x80 + c as int % 0x40
    ensures First(bytes) == Piece(4, Some(c))
  {
    Join(c as int);
  }

  /** The piece at the front of an encoded text is its first character. */
  lemma FirstDecodes(c: char, rest: Bytes)
    ensures First(EncodeChar(c) + rest) == Piece(|EncodeChar(c)|, Some(c))
  {
    hide First;
    var n, all := c as int, EncodeChar(c) + rest;
    assert forall i :: 0 <= i < |EncodeChar(c)| ==> all[i] == EncodeChar(c)[i];
    if n < 0x80 {
      FirstIsAscii(all);
    } else if n < 0x800 {
      Decodes2(all, c);
    } else if n < 0x1_0000 {
      Decodes3(all, c);
    } else {
      Decodes4(all, c);
    }
  }

  /** And no other bytes give a character. */
  lemma FirstEncodes(bytes: Bytes)
    requires bytes != [] && First(bytes).character.Some?
    ensures bytes[..First(bytes).length] == EncodeChar(First(bytes).character.value)
  {
    var lead := bytes[0] as int;
    if lead < 0x80 {
    } else if lead < 0xE0 {
      Split2(lead - 0xC0, Tail(bytes[1]));
    } else if lead < 0xF0 {
      Split3(lead - 0xE0, Tail(bytes[1]), Tail(bytes[2]));
    } else {
      Split4(lead - 0xF0, Tail(bytes[1]), Tail(bytes[2]), Tail(bytes[3]));
    }
  }

  lemma {:induction false} StrictDecodes(text: string)
    ensures DecodeStrict(Encode(text)) == Some(text)
  {
    hide First, EncodeChar;
    if text != [] {
      var front, behind := EncodeChar(text[0]), Encode(text[1..]);
      StrictDecodes(text[1..]);
      FirstDecodes(text[0], behind);
      assert (front + behind)[|front|..] == behind;
      assert [text[0]] + text[1..] == text;
    }
  }

  lemma {:induction false} StrictEncodes(bytes: Bytes)
    requires DecodeStrict(bytes).Some?
    ensures Encode(DecodeStrict(bytes).value) == bytes
  {
    hide First, EncodeChar;
    if bytes != [] {
      var piece := First(bytes);
      FirstEncodes(bytes);
      StrictEncodes(bytes[piece.length..]);
      assert bytes == bytes[..piece.length] + bytes[piece.length..];
      var text := DecodeStrict(bytes).value;
      assert text[0] == piece.character.value && text[1..] == DecodeStrict(bytes[piece.length..]).value;
    }
  }

  /** Main result.  Strict decoding gives back what was encoded and accepts
      nothing else: overlong forms, surrogates and cut characters are refused. */
  lemma {:induction false} StrictExactly(bytes: Bytes, text: string)
    ensures DecodeStrict(bytes) == Some(text) <==> bytes == Encode(text)
  {
    hide DecodeStrict, Encode;
    StrictDecodes(text);
    if DecodeStrict(bytes) == Some(text) {
      StrictEncodes(bytes);
    }
  }

  /** Main result.  Decoding with replacement gives back what was encoded, up to
      where other bytes follow. */
  lemma {:induction false} ReplacingDecodes(text: string, rest: Bytes)
    ensures Decode(Encode(text) + rest) == text + Decode(rest)
  {
    hide First, EncodeChar, Decode;
    if text == [] {
      assert Encode(text) + rest == rest && text + Decode(rest) == Decode(rest);
    } else {
      var front, behind := EncodeChar(text[0]), Encode(text[1..]) + rest;
      ReplacingDecodes(text[1..], rest);
      FirstDecodes(text[0], behind);
      assert Encode(text) + rest == front + behind;
      DecodeFirst(front + behind);
      assert (front + behind)[|front|..] == behind;
      assert text + Decode(rest) == [text[0]] + (text[1..] + Decode(rest));
    }
  }

  /** Main result.  An ill-formed piece is as long as it can be: no character
      goes on as the bytes do, and if it has more than one byte, some character
      starts with it. */
  lemma IllFormedIsMaximal(bytes: Bytes, c: char) returns (sample: char)
    requires bytes != [] && First(bytes).character.None?
    ensures var n := First(bytes).length;
            && (n < |bytes| ==> !(bytes[..n + 1] <= EncodeChar(c)))
            && !(EncodeChar(c) <= bytes)
            && (n > 1 ==> bytes[..n] <= EncodeChar(sample))
  {
    sample := c;
    hide First, EncodeChar;
    if EncodeChar(c) <= bytes {
      WholeIsWellFormed(bytes, c);
      assert false;
    }
    if First(bytes).length < |bytes| {
      NoneGoesOn(bytes, c);
    }
    if First(bytes).length > 1 {
      sample := Continues(bytes);
    }
  }

  lemma WholeIsWellFormed(bytes: Bytes, c: char)
    requires EncodeChar(c) <= bytes
    ensures bytes != [] && First(bytes).character.Some?
  {
    hide First;
    FirstDecodes(c, bytes[|EncodeChar(c)|..]);
    assert EncodeChar(c) + bytes[|EncodeChar(c)|..] == bytes;
  }

  /** A character that starts as a longer ill-formed piece does. */
  lemma Continues(bytes: Bytes) returns (sample: char)
    requires bytes != [] && First(bytes).character.None? && First(bytes).length > 1
    ensures bytes[..First(bytes).length] <= EncodeChar(sample)
  {
    var lead, n := bytes[0] as int, First(bytes).length;
    if lead < 0xF0 {
      sample := Starts3(lead - 0xE0, Tail(bytes[1]));
    } else {
      sample := Starts4(lead - 0xF0, Tail(bytes[1]), if n == 3 then Tail(bytes[2]) else 0);
    }
    hide EncodeChar;
    assert forall i :: 0 <= i < n ==> EncodeChar(sample)[i] == bytes[i];
  }

  lemma Starts3(a: nat, b: nat) returns (sample: char)
    requires a < 0x10 && b < 0x40 && (a == 0 ==> b >= 0x20) && (a == 0xD ==> b < 0x20)
    ensures |EncodeChar(sample)| == 3 && EncodeChar(sample)[0] == 0xE0 + a && EncodeChar(sample)[1] == 0x80 + b
  {
    Split3(a, b, 0);
    sample := (a * 0x1000 + b * 0x40 + 0) as char;
  }

  lemma Starts4(a: nat, b: nat, c: nat) returns (sample: char)
    requires a < 5 && b < 0x40 && c < 0x40 && (a == 0 ==> b >= 0x10) && (a == 4 ==> b < 0x10)
    ensures |EncodeChar(sample)| == 4 && EncodeChar(sample)[0] == 0xF0 + a && EncodeChar(sample)[1] == 0x80 + b
    ensures EncodeChar(sample)[2] == 0x80 + c
  {
    Split4(a, b, c, 0);
    sample := (a * 0x4_0000 + b * 0x1000 + c * 0x40 + 0) as char;
  }

  predicate Continuation(b: byte) {
    0x80 <= b <= 0xBF
  }

  /** What the bytes of a character look like. */
  lemma EncodedShape(c: char)
    ensures var code := EncodeChar(c);
            var n := |code|;
            && (n == 1 ==> code[0] < 0x80) && (n == 2 ==> 0xC2 <= code[0] <= 0xDF)
            && (n == 3 ==> 0xE0 <= code[0] <= 0xEF) && (n == 4 ==> 0xF0 <= code[0] <= 0xF4)
            && (forall i :: 1 <= i < n ==> Continuation(code[i]))
            && (code[0] == 0xE0 ==> code[1] >= 0xA0) && (code[0] == 0xED ==> code[1] <= 0x9F)
            && (code[0] == 0xF0 ==> code[1] >= 0x90) && (code[0] == 0xF4 ==> code[1] <= 0x8F)
  {
  }

  lemma NoneGoesOn(bytes: Bytes, c: char)
    requires bytes != [] && First(bytes).character.None? && First(bytes).length < |bytes|
    ensures !(bytes[..First(bytes).length + 1] <= EncodeChar(c))
  {
    hide EncodeChar;
    EncodedShape(c);
    var n, code := First(bytes).length, EncodeChar(c);
    if bytes[..n + 1] <= code {
      assert forall i :: 0 <= i <= n ==> bytes[i] == code[i];
    }
  }
}
