/** Printed patches read back: what the parser makes of the text form of any hunk list. */
module PatchPrint {
  import opened Basics
  import opened Text
  import opened Wrappers
  import opened PatchApply
  import opened PatchGrammar
  import opened PatchParse

  ghost predicate AllPrintable(hunks: seq<Hunk>) {
    forall k | 0 <= k < |hunks| :: Printable(hunks[k]) && hunks[k].WellFormed()
  }

  function Headers(hunks: seq<Hunk>): (headers: seq<string>)
    requires forall k | 0 <= k < |hunks| :: Printable(hunks[k])
    ensures |headers| == |hunks|
  {
    seq(|hunks|, k requires 0 <= k < |hunks| && Printable(hunks[k]) => PrintHeader(hunks[k]))
  }

  function FileHeader(from: string, to: string): (lines: seq<string>)
    ensures |lines| == 2
  {
    ["--- " + from, "+++ " + to]
  }

  /** The text form of a patch: a file header pair, then every hunk, all lines ended. */
  function Print(from: string, to: string, hunks: seq<Hunk>): string
    requires forall k | 0 <= k < |hunks| :: Printable(hunks[k])
  {
    Join(FileHeader(from, to) + Assembled(Headers(hunks), hunks))
  }

  // ----- line endings

  function StripCR(line: string): string {
    if line != [] && line[|line| - 1] == '\r' then line[..|line| - 1] else line
  }

  function StripAll(lines: seq<string>): (stripped: seq<string>)
    ensures |stripped| == |lines|
  {
    seq(|lines|, k requires 0 <= k < |lines| => StripCR(lines[k]))
  }

  lemma ToLFFirst(s: string)
    requires s != [] && !(|s| >= 2 && s[0] == '\r' && s[1] == '\n')
    ensures ToLF(s) == [s[0]] + ToLF(s[1..])
  {
  }

  lemma StripCRFirst(line: string)
    requires line != [] && line != ['\r']
    ensures StripCR(line) == [line[0]] + StripCR(line[1..])
  {
  }

  lemma {:induction false} ToLFOfLine(line: string, rest: string)
    requires OneLine(line)
    ensures ToLF(line + ['\n'] + rest) == StripCR(line) + ['\n'] + ToLF(rest)
  {
    var text := line + ['\n'] + rest;
    if line == [] {
      assert text[1..] == rest;
    } else if line == ['\r'] {
      assert text[2..] == rest;
    } else {
      var tail := line[1..];
      assert text[1..] == tail + ['\n'] + rest;
      assert text[0] == line[0] && (tail != [] ==> text[1] == line[1] && line[1] in line);
      ToLFFirst(text);
      StripCRFirst(line);
      hide ToLF, StripCR;
      ToLFOfLine(tail, rest);
      assert [line[0]] + (StripCR(tail) + ['\n'] + ToLF(rest)) == [line[0]] + StripCR(tail) + ['\n'] + ToLF(rest);
    }
  }

  lemma {:induction false} ToLFOfJoin(lines: seq<string>)
    requires Lines(lines)
    ensures ToLF(Join(lines + [[]])) == Join(StripAll(lines) + [[]])
  {
    if lines == [] {
      assert lines + [[]] == [[]] && StripAll(lines) + [[]] == [[]];
    } else {
      ToLFOfJoin(lines[1..]);
      assert (lines + [[]])[1..] == lines[1..] + [[]];
      assert (StripAll(lines) + [[]])[1..] == StripAll(lines[1..]) + [[]];
      ToLFOfLine(lines[0], Join(lines[1..] + [[]]));
    }
  }

  // ----- recognising printed lines

  lemma BodyLinesTell()
    ensures UNIFIED.Telling()
  {
    forall line: PatchLine | line[0] in {' ', '-', '+'}
      ensures UNIFIED.header(line).None? && !UNIFIED.isMarker(line)
    {
      assert NO_NEWLINE_MARKER[0] == '\\';
      assert "@@ -"[0] == '@';
    }
  }

  lemma LastPieceEndsBody()
    ensures UNIFIED.EndsBody([[]])
  {
  }

  lemma PrintedHeaderHeads(hunk: Hunk)
    requires Printable(hunk)
    ensures UNIFIED.Heads(PrintHeader(hunk), hunk)
  {
    MatchPrintedHeader(hunk);
    assert PrintHeader(hunk)[0] == '@';
  }

  lemma ParsePrintedHunks(hunks: seq<Hunk>)
    requires AllPrintable(hunks) && |hunks| <= MAX_PATCH_HUNKS
    ensures UNIFIED.ParseHunks(Assembled(Headers(hunks), hunks), 3, 0)
         == if UNIFIED.AnyMisread(hunks) then Err(MultiFile) else Ok(hunks)
  {
    BodyLinesTell();
    LastPieceEndsBody();
    forall k | 0 <= k < |hunks|
      ensures UNIFIED.Heads(Headers(hunks)[k], hunks[k])
    {
      PrintedHeaderHeads(hunks[k]);
    }
    UNIFIED.ParseOfAll(Headers(hunks), hunks, 3, 0);
  }

  // ----- the text form read back

  ghost predicate Prefixed(lines: seq<PatchLine>) {
    forall k | 0 <= k < |lines| :: lines[k][0] in {' ', '-', '+'}
  }

  /** A body line whose line ending is normalized; its prefix stays. */
  function StripLine(line: PatchLine): PatchLine
    requires line[0] in {' ', '-', '+'}
  {
    StripCR(line)
  }

  function StripBody(lines: seq<PatchLine>): (stripped: seq<PatchLine>)
    requires Prefixed(lines)
    ensures |stripped| == |lines|
  {
    seq(|lines|, k requires 0 <= k < |lines| && lines[k][0] in {' ', '-', '+'} => StripLine(lines[k]))
  }

  function Stripped(hunk: Hunk): Hunk
    requires Prefixed(hunk.lines)
  {
    hunk.(lines := StripBody(hunk.lines))
  }

  function StrippedAll(hunks: seq<Hunk>): (stripped: seq<Hunk>)
    requires forall k | 0 <= k < |hunks| :: Prefixed(hunks[k].lines)
    ensures |stripped| == |hunks|
  {
    seq(|hunks|, k requires 0 <= k < |hunks| && Prefixed(hunks[k].lines) => Stripped(hunks[k]))
  }

  lemma {:induction false} StrippedSides(lines: seq<PatchLine>)
    requires Prefixed(lines)
    ensures |OldSide(StripBody(lines))| == |OldSide(lines)| && |NewSide(StripBody(lines))| == |NewSide(lines)|
  {
    if lines != [] {
      StrippedSides(lines[..|lines| - 1]);
      assert StripBody(lines)[..|lines| - 1] == StripBody(lines[..|lines| - 1]);
    }
  }

  lemma StrippedKeeps(hunks: seq<Hunk>)
    requires AllPrintable(hunks)
    ensures AllPrintable(StrippedAll(hunks)) && Headers(StrippedAll(hunks)) == Headers(hunks)
    ensures UNIFIED.AnyMisread(StrippedAll(hunks)) <==> UNIFIED.AnyMisread(hunks)
  {
    forall k | 0 <= k < |hunks|
      ensures StrippedAll(hunks)[k].WellFormed()
      ensures UNIFIED.Misread(StrippedAll(hunks)[k].lines) <==> UNIFIED.Misread(hunks[k].lines)
    {
      StrippedSides(hunks[k].lines);
      StrippedMisread(hunks[k].lines);
      assert forall i | 0 <= i < |hunks[k].lines| :: OneLine(hunks[k].lines[i]);
    }
  }

  lemma StrippedMisread(lines: seq<PatchLine>)
    requires Prefixed(lines)
    ensures UNIFIED.Misread(StripBody(lines)) <==> UNIFIED.Misread(lines)
  {
    forall k | 0 <= k < |lines|
      ensures StartsFile(StripBody(lines)[k]) <==> StartsFile(lines[k])
    {
      assert "--- "[3] == ' ' && "+++ "[3] == ' ';
    }
  }

  ghost predicate Plain(line: string) {
    OneLine(line) && StripCR(line) == line
  }

  lemma PrintedHeaderIsPlain(hunk: Hunk)
    requires Printable(hunk)
    ensures Plain(PrintHeader(hunk))
  {
    var old_, new_ := PrintRange(hunk.oldStart, hunk.oldCount), PrintRange(hunk.newStart, hunk.newCount);
    assert OneLine(old_) && OneLine(new_);
    assert PrintHeader(hunk) == "@@ -" + old_ + " +" + new_ + " @@";
    assert " @@"[2] == '@';
  }

  /** Normalizing the line endings of assembled lines strips the bodies. */
  lemma {:induction false} AssembledFront(headers: seq<string>, hunks: seq<Hunk>) returns (front: seq<string>)
    requires |headers| == |hunks| && AllPrintable(hunks)
    requires forall k | 0 <= k < |headers| :: Plain(headers[k])
    ensures Assembled(headers, hunks) == front + [[]] && Lines(front)
    ensures StripAll(front) + [[]] == Assembled(headers, StrippedAll(hunks))
  {
    if hunks == [] {
      front := [];
    } else {
      var rest := AssembledFront(headers[1..], hunks[1..]);
      var body := hunks[0].lines;
      front := [headers[0]] + body + rest;
      assert StrippedAll(hunks)[1..] == StrippedAll(hunks[1..]);
      assert StripAll([headers[0]]) == [headers[0]] && StripAll(body) == StripBody(body);
      assert Lines(body) && OneLine(headers[0]);
      StripAllOfConcat([headers[0]], body);
      StripAllOfConcat([headers[0]] + body, rest);
    }
  }

  lemma FileHeaderIsPlain(from: string, to: string)
    requires Plain(from) && Plain(to)
    ensures Lines(FileHeader(from, to)) && StripAll(FileHeader(from, to)) == FileHeader(from, to)
  {
    assert "--- "[3] == ' ' && "+++ "[3] == ' ';
    assert OneLine("--- ") && OneLine("+++ ");
    assert Plain("--- " + from) && Plain("+++ " + to);
  }

  /** The lines of a printed patch after its line endings are normalized. */
  lemma PrintedLines(from: string, to: string, hunks: seq<Hunk>)
    requires AllPrintable(hunks) && Plain(from) && Plain(to)
    ensures Split(ToLF(Print(from, to, hunks))) == FileHeader(from, to) + Assembled(Headers(hunks), StrippedAll(hunks))
  {
    forall k | 0 <= k < |hunks|
      ensures Plain(Headers(hunks)[k])
    {
      PrintedHeaderIsPlain(hunks[k]);
    }
    var headers, files := Headers(hunks), FileHeader(from, to);
    var front := AssembledFront(headers, hunks);
    FileHeaderIsPlain(from, to);
    StripAllOfConcat(files, front);
    NormalizedLines(files + front);
    assert files + Assembled(headers, hunks) == (files + front) + [[]];
    assert files + Assembled(headers, StrippedAll(hunks)) == StripAll(files + front) + [[]];
  }

  lemma StripAllOfConcat(files: seq<string>, front: seq<string>)
    ensures StripAll(files + front) == StripAll(files) + StripAll(front)
  {
  }

  lemma StrippedLines(lines: seq<string>)
    requires Lines(lines)
    ensures Lines(StripAll(lines))
  {
    forall k | 0 <= k < |lines|
      ensures OneLine(StripAll(lines)[k])
    {
      assert OneLine(lines[k]);
    }
  }

  lemma NormalizedLines(lines: seq<string>)
    requires Lines(lines)
    ensures Split(ToLF(Join(lines + [[]]))) == StripAll(lines) + [[]]
  {
    ToLFOfJoin(lines);
    StrippedLines(lines);
    SplitOfJoin(StripAll(lines) + [[]]);
  }

  /** The parser past its file header. */
  lemma ParsePastHeader(text: string, names: string -> bool, maxBytes: int, from: string, to: string, rest: seq<string>)
    requires text != [] && !IsBlank(text[0]) && |text| <= maxBytes && names(from) && names(to) && rest != []
    requires Split(ToLF(text)) == FileHeader(from, to) + rest
    ensures UNIFIED.ParseHunks(rest, 3, 0) == Err(MultiFile) ==> Parse(text, names, maxBytes) == Err(MultiFile)
    ensures UNIFIED.ParseHunks(rest, 3, 0).Ok? && UNIFIED.ParseHunks(rest, 3, 0).value != []
            ==> Parse(text, names, maxBytes) == UNIFIED.ParseHunks(rest, 3, 0)
  {
    var lines := Split(ToLF(text));
    assert lines[0] == "--- " + from && lines[1] == "+++ " + to;
    assert lines[2..] == rest && lines[0][4..] == from && lines[1][4..] == to;
  }

  /** The text form of any printable hunk list, read back: refused when a body line reads as the start
      of another file, otherwise the same hunks up to a carriage return at the end of a line. */
  lemma PrintedReadsBack(from: string, to: string, hunks: seq<Hunk>, names: string -> bool, maxBytes: int)
    requires AllPrintable(hunks) && 0 < |hunks| <= MAX_PATCH_HUNKS
    requires Plain(from) && Plain(to) && names(from) && names(to)
    requires |Print(from, to, hunks)| <= maxBytes
    ensures Parse(Print(from, to, hunks), names, maxBytes)
         == if UNIFIED.AnyMisread(hunks) then Err(MultiFile) else Ok(StrippedAll(hunks))
  {
    var text, stripped := Print(from, to, hunks), StrippedAll(hunks);
    PrintedLines(from, to, hunks);
    StrippedKeeps(hunks);
    ParsePrintedHunks(stripped);
    PrintedStartsWithHeader(from, to, hunks);
    ParsePastHeader(text, names, maxBytes, from, to, Assembled(Headers(hunks), stripped));
  }

  lemma PrintedStartsWithHeader(from: string, to: string, hunks: seq<Hunk>)
    requires forall k | 0 <= k < |hunks| :: Printable(hunks[k])
    ensures Print(from, to, hunks) != [] && !IsBlank(Print(from, to, hunks)[0])
  {
    var lines := FileHeader(from, to) + Assembled(Headers(hunks), hunks);
    assert lines[0] == "--- " + from && lines[0][0] == '-';
  }

  /** Parsing undoes printing exactly when no body line starts like a file header or ends in a carriage
      return. */
  lemma ParsingUndoesPrinting(from: string, to: string, hunks: seq<Hunk>, names: string -> bool, maxBytes: int)
    requires AllPrintable(hunks) && 0 < |hunks| <= MAX_PATCH_HUNKS
    requires Plain(from) && Plain(to) && names(from) && names(to)
    requires |Print(from, to, hunks)| <= maxBytes
    ensures Parse(Print(from, to, hunks), names, maxBytes) == Ok(hunks)
       <==> forall k, i | 0 <= k < |hunks| && 0 <= i < |hunks[k].lines| ::
              var line: string := hunks[k].lines[i];
              !("--- " <= line) && !("+++ " <= line) && line[|line| - 1] != '\r'
  {
    PrintedReadsBack(from, to, hunks, names, maxBytes);
    var clean := forall k, i | 0 <= k < |hunks| && 0 <= i < |hunks[k].lines| ::
                   !StartsFile(hunks[k].lines[i]) && StripCR(hunks[k].lines[i]) == hunks[k].lines[i];
    if clean {
      forall k | 0 <= k < |hunks|
        ensures StrippedAll(hunks)[k] == hunks[k]
      {
        assert Stripped(hunks[k]).lines == hunks[k].lines;
      }
      assert StrippedAll(hunks) == hunks;
      assert !UNIFIED.AnyMisread(hunks);
    } else {
      var k, i :| 0 <= k < |hunks| && 0 <= i < |hunks[k].lines|
                  && (StartsFile(hunks[k].lines[i]) || StripCR(hunks[k].lines[i]) != hunks[k].lines[i]);
      if StartsFile(hunks[k].lines[i]) {
        assert UNIFIED.Misread(hunks[k].lines);
      } else {
        assert StrippedAll(hunks)[k].lines[i] != hunks[k].lines[i];
      }
    }
  }

  // ----- two hunks that are not read back

  lemma OneLineHunk(line: PatchLine, hunk: Hunk)
    requires OneLine(line) && line[0] in {' ', '-'}
    requires hunk == if line[0] == ' ' then Hunk(1, 1, 1, 1, [line]) else Hunk(1, 1, 0, 0, [line])
    ensures AllPrintable([hunk])
  {
    SidesOfOne(line);
  }

  /** Deleting the line `-- x` prints as the start of another file, and is refused. */
  lemma MisreadLineIsRefused(hunks: seq<Hunk>, text: string)
    requires hunks == [Hunk(1, 1, 0, 0, ["--- x"])]
    ensures AllPrintable(hunks)
    ensures text == Print("f", "f", hunks) ==> Parse(text, _ => true, |text|) == Err(MultiFile)
  {
    var line := "--- x";
    assert line[0] == '-' && line[1] == '-' && line[2] == '-' && line[3] == ' ' && line[4] == 'x';
    OneLineHunk(line, hunks[0]);
    assert UNIFIED.Misread(hunks[0].lines) by {
      assert StartsFile(hunks[0].lines[0]);
    }
    PrintedReadsBack("f", "f", hunks, _ => true, |Print("f", "f", hunks)|);
  }

  /** A carriage return at the end of a line is lost. */
  lemma CarriageReturnIsLost(hunks: seq<Hunk>, text: string)
    requires hunks == [Hunk(1, 1, 1, 1, [" x\r"])]
    ensures AllPrintable(hunks)
    ensures text == Print("f", "f", hunks) ==> Parse(text, _ => true, |text|) == Ok([Hunk(1, 1, 1, 1, [" x"])])
  {
    var line := " x\r";
    assert line[0] == ' ' && line[1] == 'x' && line[2] == '\r';
    OneLineHunk(line, hunks[0]);
    assert StripCR(line) == " x";
    assert !StartsFile(hunks[0].lines[0]);
    assert !UNIFIED.AnyMisread(hunks);
    assert Stripped(hunks[0]).lines == [" x"];
    assert StrippedAll(hunks) == [Hunk(1, 1, 1, 1, [" x"])];
    PrintedReadsBack("f", "f", hunks, _ => true, |Print("f", "f", hunks)|);
  }
}
