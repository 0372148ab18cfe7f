/** Reading the last lines of a file backwards, block by block. */
module TailLines {
  import opened Bytes
  import opened Utf8

  // ---- Lines ---------------------------------------------------------------------

  /** The characters that end a line of text. */
  predicate IsBreak(c: char) {
    '\n' <= c <= '\r' || '\U{1C}' <= c <= '\U{1E}' || c == '\U{85}' || c == '\U{2028}' || c == '\U{2029}'
  }

  function LineEnd(text: string): (n: nat)
    ensures n <= |text|
    ensures forall i :: 0 <= i < n ==> !IsBreak(text[i])
    ensures n < |text| ==> IsBreak(text[n])
  {
    if text == [] || IsBreak(text[0]) then 0 else 1 + LineEnd(text[1..])
  }

  /** Where the next line starts; a carriage return and a newline break once. */
  function NextLine(text: string): (n: nat)
    requires LineEnd(text) < |text|
    ensures LineEnd(text) < n <= |text|
  {
    var n := LineEnd(text);
    if text[n] == '\r' && n + 1 < |text| && text[n + 1] == '\n' then n + 2 else n + 1
  }

  function Lines(text: string): seq<string> {
    if text == [] then []
    else if LineEnd(text) == |text| then [text]
    else [text[..LineEnd(text)]] + Lines(text[NextLine(text)..])
  }

  function LastN(lines: seq<string>, n: nat): seq<string> {
    if |lines| <= n then lines else lines[|lines| - n..]
  }

  /** The last lines of a file. */
  function Shown(file: Bytes, n: nat): seq<string> {
    LastN(Lines(Decode(file)), n)
  }

  function Newlines(text: string): nat {
    if text == [] then 0 else (if text[0] == '\n' then 1 else 0) + Newlines(text[1..])
  }

  function NewlineBytes(bytes: Bytes): nat {
    if bytes == [] then 0 else (if bytes[0] == 10 then 1 else 0) + NewlineBytes(bytes[1..])
  }

  // ---- A newline separates lines ----------------------------------------------------

  lemma LineEndIs(text: string, n: nat)
    requires n <= |text| && forall i :: 0 <= i < n ==> !IsBreak(text[i])
    requires n < |text| ==> IsBreak(text[n])
    ensures LineEnd(text) == n
  {
  }

  /** What follows a newline has no part in the first line and its break. */
  lemma FirstLineAtNewline(before: string, after: string)
    ensures var all, head := before + ['\n'] + after, before + ['\n'];
            && LineEnd(all) == LineEnd(head) < |head| && NextLine(all) == NextLine(head)
            && all[..LineEnd(head)] == head[..LineEnd(head)]
            && (NextLine(head) <= |before| ==>
                  && all[NextLine(head)..] == before[NextLine(head)..] + ['\n'] + after
                  && head[NextLine(head)..] == before[NextLine(head)..] + ['\n'])
            && (NextLine(head) > |before| ==> all[NextLine(head)..] == after && head[NextLine(head)..] == [])
  {
    var all, head := before + ['\n'] + after, before + ['\n'];
    var n := LineEnd(before);
    hide LineEnd;
    assert forall i :: 0 <= i < |before| ==> all[i] == head[i] == before[i];
    assert all[|before|] == head[|before|] == '\n';
    LineEndIs(all, n);
    LineEndIs(head, n);
  }

  /** Text behind a newline is split on its own. */
  lemma {:induction false} LinesAtNewline(before: string, after: string)
    ensures Lines(before + ['\n'] + after) == Lines(before + ['\n']) + Lines(after)
    decreases |before|
  {
    hide LineEnd, NextLine;
    var all, head := before + ['\n'] + after, before + ['\n'];
    FirstLineAtNewline(before, after);
    var line, next := head[..LineEnd(head)], NextLine(head);
    assert Lines(all) == [line] + Lines(all[next..]);
    assert Lines(head) == [line] + Lines(head[next..]);
    if next <= |before| {
      LinesAtNewline(before[next..], after);
      assert [line] + (Lines(head[next..]) + Lines(after)) == [line] + Lines(head[next..]) + Lines(after);
    } else {
      assert [line] + [] == [line];
    }
  }

  lemma {:induction false} NewlinesAppend(a: string, b: string)
    ensures Newlines(a + b) == Newlines(a) + Newlines(b)
  {
    if a == [] {
      assert a + b == b;
    } else {
      assert (a + b)[1..] == a[1..] + b;
      NewlinesAppend(a[1..], b);
    }
  }

  lemma {:induction false} NoNewlineInLine(text: string)
    requires forall i :: 0 <= i < |text| ==> !IsBreak(text[i])
    ensures Newlines(text) == 0
  {
    if text != [] {
      NoNewlineInLine(text[1..]);
    }
  }

  /** There are at least as many lines as newlines. */
  lemma {:induction false} LinesPerNewline(text: string)
    ensures Newlines(text) <= |Lines(text)|
    decreases |text|
  {
    if text != [] {
      var n := LineEnd(text);
      NoNewlineInLine(text[..n]);
      if n < |text| {
        var next := NextLine(text);
        LinesPerNewline(text[next..]);
        assert text == text[..n] + text[n..next] + text[next..];
        NewlinesAppend(text[..n] + text[n..next], text[next..]);
        NewlinesAppend(text[..n], text[n..next]);
        BreakHasOneNewline(text);
      } else {
        assert text[..n] == text;
      }
    }
  }

  lemma {:induction false} BreakHasOneNewline(text: string)
    requires LineEnd(text) < |text|
    ensures Newlines(text[LineEnd(text)..NextLine(text)]) <= 1
  {
    hide LineEnd, Newlines;
    var n, piece := LineEnd(text), text[LineEnd(text)..NextLine(text)];
    if |piece| != 1 {
      assert NextLine(text) == n + 2 && piece[0] == text[n] && piece[1] == text[n + 1];
      assert piece == ['\r', '\n'];
    }
    ShortNewlines(piece);
  }

  lemma ShortNewlines(piece: string)
    requires |piece| == 1 || piece == ['\r', '\n']
    ensures Newlines(piece) <= 1
  {
    assert |piece[1..]| == |piece| - 1;
    if |piece| == 2 {
      assert piece[1..][1..] == [];
    }
  }

  // ---- What the lines of a text are -------------------------------------------------

  /** Everything that ends a line of text. */
  const BREAKS: set<string> := {
    "\n", "\r\n", "\r", "\U{0B}", "\U{0C}", "\U{1C}", "\U{1D}", "\U{1E}", "\U{85}", "\U{2028}", "\U{2029}"
  }

  /** A last line that is not empty may go without a break; a carriage return
      right before a newline would be one break with it. */
  predicate Joins(lines: seq<string>, breaks: seq<string>) {
    && |lines| == |breaks|
    && (lines != [] ==>
          && (forall i :: 0 <= i < |lines[0]| ==> [lines[0][i]] !in BREAKS)
          && (breaks[0] in BREAKS || (breaks[0] == [] && |lines| == 1 && lines[0] != []))
          && (breaks[0] == "\r" && |lines| > 1 ==> lines[1] != [] || breaks[1] != "\n")
          && Joins(lines[1..], breaks[1..]))
  }

  function Joined(lines: seq<string>, breaks: seq<string>): string
    requires |lines| == |breaks|
  {
    if lines == [] then [] else lines[0] + breaks[0] + Joined(lines[1..], breaks[1..])
  }

  lemma BreaksAreBreaks(c: char)
    ensures IsBreak(c) <==> [c] in BREAKS
  {
    assert forall text :: text in BREAKS && |text| == 1 ==> IsBreak(text[0]);
    assert [c][0] == c;
    if IsBreak(c) {
      assert c in ['\n', '\U{0B}', '\U{0C}', '\r', '\U{1C}', '\U{1D}', '\U{1E}', '\U{85}', '\U{2028}', '\U{2029}'];
    }
  }

  lemma BreakStarts(text: string)
    requires text in BREAKS
    ensures text == "\r\n" || (|text| == 1 && IsBreak(text[0]))
  {
  }

  lemma JoinedStartsWithLine(lines: seq<string>, breaks: seq<string>)
    requires Joins(lines, breaks) && lines != [] && lines[0] != []
    ensures Joined(lines, breaks) != [] && Joined(lines, breaks)[0] != '\n'
  {
    BreaksAreBreaks(lines[0][0]);
    assert Joined(lines, breaks)[0] == lines[0][0];
  }

  lemma JoinedStartsWithNewline(lines: seq<string>, breaks: seq<string>)
    requires Joins(lines, breaks) && Joined(lines, breaks) != [] && Joined(lines, breaks)[0] == '\n'
    ensures lines[0] == [] && breaks[0] == "\n"
  {
    if lines[0] != [] {
      JoinedStartsWithLine(lines, breaks);
      assert false;
    } else {
      BreakStarts(breaks[0]);
      assert Joined(lines, breaks)[0] == breaks[0][0];
    }
  }

  /** What follows a carriage return does not start with a newline. */
  lemma NoNewlineBehind(first: string, lines: seq<string>, breaks: seq<string>)
    requires Joins([first] + lines, ["\r"] + breaks)
    ensures |lines| == |breaks| && (Joined(lines, breaks) == [] || Joined(lines, breaks)[0] != '\n')
  {
    hide IsBreak;
    var all, ends := [first] + lines, ["\r"] + breaks;
    assert all[1..] == lines && ends[1..] == breaks;
    assert lines != [] ==> all[1] == lines[0] && ends[1] == breaks[0];
    if Joined(lines, breaks) != [] && Joined(lines, breaks)[0] == '\n' {
      JoinedStartsWithNewline(lines, breaks);
      assert false;
    }
  }

  /** Main result.  The lines of a text are what its breaks separate, the text
      behind the last break being a line if there is any. */
  lemma {:induction false} LinesAreJoined(lines: seq<string>, breaks: seq<string>)
    requires Joins(lines, breaks)
    ensures Lines(Joined(lines, breaks)) == lines
  {
    hide LineEnd, NextLine, IsBreak;
    if lines != [] {
      var first, rest := lines[0], Joined(lines[1..], breaks[1..]);
      var text := Joined(lines, breaks);
      LinesAreJoined(lines[1..], breaks[1..]);
      assert text == first + (breaks[0] + rest);
      FirstLineIs(first, breaks[0], lines[1..], breaks[1..]);
      assert text[..|first|] == first;
      if breaks[0] == [] {
        assert lines[1..] == [] && text == first && lines == [first];
      } else {
        assert text[|first| + |breaks[0]|..] == rest;
        assert Lines(text) == [first] + Lines(rest);
        assert lines == [first] + lines[1..];
      }
    }
  }

  lemma FirstLineIs(first: string, ending: string, lines: seq<string>, breaks: seq<string>)
    requires Joins([first] + lines, [ending] + breaks)
    ensures |lines| == |breaks|
    ensures var text := first + (ending + Joined(lines, breaks));
            && LineEnd(text) == |first|
            && (ending == [] ==> text == first)
            && (ending != [] ==> |first| < |text| && NextLine(text) == |first| + |ending|)
  {
    hide LineEnd;
    var all, ends := [first] + lines, [ending] + breaks;
    assert all[1..] == lines && ends[1..] == breaks && Joins(lines, breaks);
    var rest := Joined(lines, breaks);
    var text := first + (ending + rest);
    forall i | 0 <= i < |first|
      ensures !IsBreak(text[i])
    {
      assert [all[0][i]] !in BREAKS;
      BreaksAreBreaks(first[i]);
    }
    if ending == [] {
      assert lines == [] && rest == [];
      LineEndIs(text, |first|);
    } else {
      BreakStarts(ending);
      assert text[|first|] == ending[0];
      LineEndIs(text, |first|);
      if ending == "\r\n" {
        assert text[|first| + 1] == '\n';
      } else if ending == "\r" {
        NoNewlineBehind(first, lines, breaks);
        assert rest != [] ==> text[|first| + 1] == rest[0];
      }
    }
  }

  lemma JoinMore(first: string, ending: string, lines: seq<string>, breaks: seq<string>)
    requires |lines| == |breaks| && Joins(lines, breaks) && ending in BREAKS
    requires forall i :: 0 <= i < |first| ==> [first[i]] !in BREAKS
    requires ending == "\r" && lines != [] ==> lines[0] != [] || breaks[0] != "\n"
    ensures Joins([first] + lines, [ending] + breaks)
    ensures Joined([first] + lines, [ending] + breaks) == first + ending + Joined(lines, breaks)
  {
    var all, ends := [first] + lines, [ending] + breaks;
    assert all[1..] == lines && ends[1..] == breaks;
    assert lines != [] ==> all[1] == lines[0] && ends[1] == breaks[0];
  }

  lemma JoinLast(first: string)
    requires first != [] && forall i :: 0 <= i < |first| ==> [first[i]] !in BREAKS
    ensures Joins([first], [[]]) && Joined([first], [[]]) == first
  {
    var ends: seq<string> := [[]];
    assert [first][1..] == [] && ends[1..] == [];
    assert first + [] + [] == first;
  }

  /** Main result.  And every text is joined from its lines. */
  lemma {:induction false} EveryTextIsJoined(text: string) returns (breaks: seq<string>)
    ensures Joins(Lines(text), breaks) && Joined(Lines(text), breaks) == text
    decreases |text|
  {
    hide LineEnd, IsBreak, NextLine, Joins, Joined;
    if text == [] {
      breaks := [];
      NothingJoined();
    } else {
      var n := LineEnd(text);
      NoBreaksBefore(text);
      if n == |text| {
        breaks := [[]];
        assert text[..n] == text;
        JoinLast(text);
      } else {
        var next := NextLine(text);
        var more := EveryTextIsJoined(text[next..]);
        breaks := [text[n..next]] + more;
        assert |Lines(text[next..])| == |more| by { JoinsLengths(Lines(text[next..]), more); }
        OneBreak(text, Lines(text[next..]), more);
        JoinMore(text[..n], text[n..next], Lines(text[next..]), more);
        assert text == text[..n] + text[n..next] + text[next..];
      }
    }
  }

  lemma NothingJoined()
    ensures Joins([], []) && Joined([], []) == []
  {
  }

  lemma JoinsLengths(lines: seq<string>, breaks: seq<string>)
    requires Joins(lines, breaks)
    ensures |lines| == |breaks|
  {
  }

  lemma NoBreaksBefore(text: string)
    ensures forall i :: 0 <= i < LineEnd(text) ==> [text[..LineEnd(text)][i]] !in BREAKS
  {
    hide LineEnd, IsBreak;
    forall i | 0 <= i < LineEnd(text)
      ensures [text[..LineEnd(text)][i]] !in BREAKS
    {
      BreaksAreBreaks(text[i]);
    }
  }

  lemma NewlineFirst(lines: seq<string>, breaks: seq<string>)
    requires |lines| == |breaks| && lines != [] && lines[0] == [] && breaks[0] == "\n"
    ensures Joined(lines, breaks) != [] && Joined(lines, breaks)[0] == '\n'
  {
  }

  lemma OneBreak(text: string, lines: seq<string>, breaks: seq<string>)
    requires LineEnd(text) < |text| && |lines| == |breaks| && Joined(lines, breaks) == text[NextLine(text)..]
    ensures text[LineEnd(text)..NextLine(text)] in BREAKS
    ensures text[LineEnd(text)..NextLine(text)] == "\r" && lines != [] ==> lines[0] != [] || breaks[0] != "\n"
  {
    hide LineEnd, IsBreak, Joined;
    var n, next := LineEnd(text), NextLine(text);
    BreaksAreBreaks(text[n]);
    if next == n + 2 {
      assert text[n..next] == "\r\n";
    } else {
      assert text[n..next] == [text[n]];
      assert next < |text| ==> text[next..][0] == text[next];
      if text[n] == '\r' && lines != [] && lines[0] == [] && breaks[0] == "\n" {
        NewlineFirst(lines, breaks);
        assert false;
      }
    }
  }

  /** The last lines are the end of the lines, as many as asked for or all. */
  lemma LastNIsTheEnd(before: seq<string>, last: seq<string>, n: nat)
    requires |last| == n || (|last| < n && before == [])
    ensures LastN(before + last, n) == last
  {
    assert [] + last == last;
  }

  // ---- Bytes ------------------------------------------------------------------------

  /** The first newline of some bytes splits them in two. */
  lemma {:induction false} FirstNewline(bytes: Bytes) returns (k: nat)
    requires NewlineBytes(bytes) > 0
    ensures k < |bytes| && bytes[k] == 10
    ensures bytes == bytes[..k] + [10] + bytes[k + 1..]
    ensures NewlineBytes(bytes[k + 1..]) == NewlineBytes(bytes) - 1
  {
    if bytes[0] == 10 {
      k := 0;
    } else {
      var rest := FirstNewline(bytes[1..]);
      k := rest + 1;
      assert bytes[k + 1..] == bytes[1..][rest + 1..];
    }
  }

  /** Decoding keeps every newline. */
  lemma {:induction false} DecodeKeepsNewlines(bytes: Bytes)
    ensures NewlineBytes(bytes) <= Newlines(Decode(bytes))
    decreases |bytes|
  {
    if NewlineBytes(bytes) > 0 {
      hide Decode, NewlineBytes;
      var k := FirstNewline(bytes);
      DecodeAtNewline(bytes[..k], bytes[k + 1..]);
      DecodeKeepsNewlines(bytes[k + 1..]);
      var before, after := Decode(bytes[..k]), Decode(bytes[k + 1..]);
      NewlinesAppend(before + ['\n'], after);
      NewlinesAppend(before, ['\n']);
      assert Newlines(['\n']) == 1 by { assert ['\n'][1..] == []; }
    }
  }

  /** The end of a file behind a newline shows the same last lines as the file,
      as many as it has newlines. */
  lemma SameLastLines(before: Bytes, after: Bytes, n: nat)
    requires n <= NewlineBytes(after)
    ensures Shown(before + [10] + after, n) == Shown(after, n)
    ensures n <= |Lines(Decode(after))|
  {
    hide Decode, NewlineBytes, Lines;
    DecodeAtNewline(before, after);
    LinesAtNewline(Decode(before), Decode(after));
    DecodeKeepsNewlines(after);
    LinesPerNewline(Decode(after));
    var head, tail := Lines(Decode(before) + ['\n']), Lines(Decode(after));
    assert (head + tail)[|head| + |tail| - n..] == tail[|tail| - n..];
    assert tail[0..] == tail;
  }

  /** Main result.  A tail of the file with more newlines than lines are asked
      for shows the same last lines as the whole file, wherever it starts: in
      the middle of a line, of a character, or of a line break. */
  lemma {:induction false} TailSuffices(file: Bytes, position: nat, n: nat)
    requires position <= |file| && n < NewlineBytes(file[position..])
    ensures Shown(file[position..], n) == Shown(file, n)
  {
    hide Decode, NewlineBytes, Lines;
    var tail := file[position..];
    var k := FirstNewline(tail);
    var after := tail[k + 1..];
    assert file == file[..position + k] + [10] + after;
    SameLastLines(file[..position + k], after, n);
    SameLastLines(tail[..k], after, n);
  }

  /** As many newlines as lines are not enough. */
  lemma EqualNewlinesAreNotEnough()
    ensures var file: Bytes := [97, 98, 10];
            NewlineBytes(file[1..]) == 1 && Shown(file[1..], 1) != Shown(file, 1)
  {
    hide Lines, Decode, NewlineBytes;
    var file: Bytes := [97, 98, 10];
    assert file == [97, 98] + [10] && file[1..] == [98] + [10];
    OneNewline(98);
    LineDecodes([98], "b");
    LineDecodes([97, 98], "ab");
    assert ["b"][0] != ["ab"][0] by { assert |"b"| != |"ab"|; }
  }

  lemma OneNewline(b: byte)
    requires b != 10
    ensures NewlineBytes([b] + [10]) == 1
  {
    assert ([b] + [10])[1..] == [10] && [10][1..] == [];
  }

  lemma LineDecodes(bytes: Bytes, text: string)
    requires |bytes| == |text| && 0 < |text| <= 2
    requires forall i :: 0 <= i < |bytes| ==> 97 <= bytes[i] <= 98 && text[i] == bytes[i] as char
    ensures Decode(bytes + [10]) == text + ['\n']
    ensures Lines(Decode(bytes + [10])) == [text]
  {
    hide Lines;
    DecodeAtNewline(bytes, []);
    assert bytes + [10] + [] == bytes + [10];
    if |bytes| == 2 {
      assert bytes[1..] == [bytes[1]] && bytes[1..][1..] == [];
    } else {
      assert bytes[1..] == [];
    }
    assert Decode(bytes) == text;
    OneLine(text);
  }

  lemma OneLine(text: string)
    requires forall i :: 0 <= i < |text| ==> !IsBreak(text[i])
    ensures Lines(text + ['\n']) == [text]
  {
    hide LineEnd;
    var line := text + ['\n'];
    LineEndIs(line, |text|);
    assert line[..|text|] == text && line[NextLine(line)..] == [];
  }

  // ---- The loop ---------------------------------------------------------------------

  datatype File = Missing | Contents(bytes: Bytes)

  /** Read blocks from the end until there are more newlines than lines asked for. */
  method ReadTailLines(file: File, lineCount: int, blockSize: nat) returns (lines: seq<string>)
    requires blockSize > 0
    ensures lines == if lineCount <= 0 || file.Missing? then [] else Shown(file.bytes, lineCount)
  {
    hide Decode, Lines, NewlineBytes;
    if lineCount <= 0 || file.Missing? {
      return [];
    }
    var bytes := file.bytes;
    var data: Bytes := [];
    var position := |bytes|;
    var newlineCount := 0;
    assert bytes[position..] == [];
    NoNewlines();
    while position > 0 && newlineCount <= lineCount
      invariant 0 <= position <= |bytes| && data == bytes[position..]
      invariant newlineCount == NewlineBytes(data)
      decreases position
    {
      var readSize := if blockSize < position then blockSize else position;
      position := position - readSize;
      var chunk := bytes[position..position + readSize];
      data := chunk + data;
      newlineCount := NewlineBytes(data);
    }
    lines := LastN(Lines(Decode(data)), lineCount);
    if newlineCount > lineCount {
      TailSuffices(bytes, position, lineCount);
    } else {
      assert data == bytes;
    }
  }

  lemma NoNewlines()
    ensures NewlineBytes([]) == 0
  {
  }
}
