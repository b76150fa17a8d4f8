/** Renumbering the text of a diff and parsing it, carriage returns included: filetoolsserver/handler/edit_file.go
    and filetoolsserver/handler/edit_patch.go together.
 */
module RenumberText {
  import opened Basics
  import opened Text
  import opened Wrappers
  import opened PatchApply
  import opened PatchShift
  import opened PatchGrammar
  import opened PatchParse
  import opened PatchPrint
  import opened DiffRenumber
  import opened HeaderShift
  import opened DiffShift
  import WindowDiff

  // ----- adjusted lines stay single lines

  lemma DigitsAreNot(s: string, c: char)
    requires Digits(s) && !IsDigit(c)
    ensures c !in s
  {
  }

  lemma CutKeeps(line: string, c: char)
    requires Cut(line).Some? && c !in line
    ensures c !in Cut(line).value.between && c !in Cut(line).value.tail
  {
  }

  lemma AdjustedWithout(line: string, c: char, oldOffset: nat, newOffset: nat)
    requires c !in line && !IsDigit(c) && AdjustLine(line, oldOffset, newOffset).Some?
    ensures c !in AdjustLine(line, oldOffset, newOffset).value
  {
    hide Cut, Itoa, Number;
    if IsHunkHeader(line) {
      var p := Cut(line).value;
      var first, second := Itoa(Number(p.oldDigits) + oldOffset), Itoa(Number(p.newDigits) + newOffset);
      CutKeeps(line, c);
      DigitsAreNot(first, c);
      DigitsAreNot(second, c);
      HeadIsNot(line, c);
      NotIn(c, second, p.tail);
      NotIn(c, p.between, second + p.tail);
      NotIn(c, first, p.between + (second + p.tail));
      NotIn(c, "@@ -", first + (p.between + (second + p.tail)));
    }
  }

  lemma HeadIsNot(line: string, c: char)
    requires IsHunkHeader(line) && c !in line
    ensures c !in "@@ -"
  {
    HeaderShift.Prefixed("@@ -", line);
  }

  lemma NotIn(c: char, front: string, back: string)
    requires c !in front && c !in back
    ensures c !in front + back
  {
  }

  ghost predicate Without(c: char, lines: seq<string>) {
    forall k | 0 <= k < |lines| :: c !in lines[k]
  }

  lemma {:induction false} AdjustedLinesWithout(lines: seq<string>, c: char, oldOffset: nat, newOffset: nat)
    requires Without(c, lines) && !IsDigit(c) && AdjustLines(lines, oldOffset, newOffset).Some?
    ensures Without(c, AdjustLines(lines, oldOffset, newOffset).value)
  {
    hide AdjustLine;
    if lines != [] {
      AdjustedLinesWithout(lines[1..], c, oldOffset, newOffset);
      AdjustedWithout(lines[0], c, oldOffset, newOffset);
    }
  }

  lemma SplitWithoutNewline(lines: seq<string>)
    requires Lines(lines)
    ensures Without('\n', lines)
  {
  }

  lemma WithoutNewlineLines(lines: seq<string>)
    requires Without('\n', lines)
    ensures Lines(lines)
  {
  }

  // ----- line endings

  /** The lines of a text once its line endings are normalized: only the last one, which no newline ends, can
      keep a trailing carriage return. */
  function StripEnded(lines: seq<string>): (stripped: seq<string>)
    requires lines != []
    ensures |stripped| == |lines|
  {
    if |lines| == 1 then lines else [StripCR(lines[0])] + StripEnded(lines[1..])
  }

  lemma {:induction false} ToLFOfLast(line: string)
    requires OneLine(line)
    ensures ToLF(line) == line
  {
    if line != [] {
      assert |line| > 1 ==> line[1] in line;
      ToLFOfLast(line[1..]);
    }
  }

  lemma {:induction false} ToLFOfLines(lines: seq<string>)
    requires lines != [] && Lines(lines)
    ensures ToLF(Join(lines)) == Join(StripEnded(lines)) && Lines(StripEnded(lines))
  {
    if |lines| == 1 {
      ToLFOfLast(lines[0]);
    } else {
      ToLFOfLines(lines[1..]);
      hide ToLF;
      ToLFOfLine(lines[0], Join(lines[1..]));
      StrippedIsLine(lines[0]);
      var stripped := StripEnded(lines);
      assert stripped[1..] == StripEnded(lines[1..]) && stripped[0] == StripCR(lines[0]);
    }
  }

  lemma StrippedIsLine(line: string)
    requires OneLine(line)
    ensures OneLine(StripCR(line))
  {
  }

  /** The lines a parser sees of joined lines. */
  lemma LinesSeen(lines: seq<string>)
    requires lines != [] && Lines(lines)
    ensures Split(ToLF(Join(lines))) == StripEnded(lines)
  {
    hide ToLF, Join, Split, StripEnded;
    ToLFOfLines(lines);
    StripEndedSome(lines);
    SplitOfJoin(StripEnded(lines));
  }

  lemma StripEndedSome(lines: seq<string>)
    requires lines != []
    ensures StripEnded(lines) != []
  {
  }

  // ----- adjusting commutes with stripping

  lemma HeadBeforeReturn(line: string)
    requires IsHunkHeader(line + ['\r'])
    ensures IsHunkHeader(line)
  {
    var ended := line + ['\r'];
    assert ended[..4] == "@@ -";
    assert ended[3] == '-';
    assert |line| >= 4;
    assert ended[..4] == line[..4];
  }

  /** A header with a carriage return after it is adjusted like the header. */
  lemma AdjustEndedHeader(line: string, oldOffset: nat, newOffset: nat)
    requires MatchHeader(line).Some?
    ensures AdjustHeader(line, oldOffset, newOffset).Some?
    ensures AdjustHeader(line + ['\r'], oldOffset, newOffset) == Some(AdjustHeader(line, oldOffset, newOffset).value + ['\r'])
    ensures StripCR(AdjustHeader(line, oldOffset, newOffset).value) == AdjustHeader(line, oldOffset, newOffset).value
            <==> StripCR(line) == line
  {
    hide MatchHeader, AdjustHeader, Digits, Middle, PatchInt, Number, Itoa, Line, StripCR, Tail;
    var h := MatchHeader(line).value;
    var oldDigits, oldMiddle, newDigits, newMiddle, tail := HeaderParts(line);
    var first, second := Itoa(Number(oldDigits) + oldOffset), Itoa(Number(newDigits) + newOffset);
    TailStartsBlank(tail);
    AdjustLineOfParts(oldDigits, oldMiddle, h.oldCount, newDigits, newMiddle, h.newCount, tail, oldOffset, newOffset);
    AdjustLineOfParts(oldDigits, oldMiddle, h.oldCount, newDigits, newMiddle, h.newCount, tail + ['\r'], oldOffset, newOffset);
    LineEnded(oldDigits, oldMiddle, newDigits, newMiddle, tail);
    LineEnded(first, oldMiddle, second, newMiddle, tail);
  }

  lemma TailStartsBlank(tail: string)
    requires Tail(tail)
    ensures StartsBlank(tail) && StartsBlank(tail + ['\r'])
  {
  }

  /** The end of a header line is the end of its tail. */
  lemma LineEnded(oldDigits: string, oldMiddle: string, newDigits: string, newMiddle: string, tail: string)
    requires tail != []
    ensures Line(oldDigits, oldMiddle, newDigits, newMiddle, tail + ['\r'])
         == Line(oldDigits, oldMiddle, newDigits, newMiddle, tail) + ['\r']
    ensures StripCR(Line(oldDigits, oldMiddle, newDigits, newMiddle, tail)) == Line(oldDigits, oldMiddle, newDigits, newMiddle, tail)
            <==> tail[|tail| - 1] != '\r'
  {
    var old_, new_ := oldDigits + oldMiddle, newDigits + newMiddle;
    Regrouped(new_, tail, ['\r']);
    Regrouped(" +", new_ + tail, ['\r']);
    Regrouped(old_, " +" + (new_ + tail), ['\r']);
    Regrouped("@@ -", old_ + (" +" + (new_ + tail)), ['\r']);
    LastOf(new_, tail);
    LastOf(" +", new_ + tail);
    LastOf(old_, " +" + (new_ + tail));
    LastOf("@@ -", old_ + (" +" + (new_ + tail)));
    StripCRMeans(Line(oldDigits, oldMiddle, newDigits, newMiddle, tail));
  }

  lemma LastOf(front: string, back: string)
    requires back != []
    ensures front + back != [] && (front + back)[|front + back| - 1] == back[|back| - 1]
  {
  }

  lemma StripCRMeans(line: string)
    ensures StripCR(line) == line <==> line == [] || line[|line| - 1] != '\r'
    ensures StripCR(line) != line ==> line == StripCR(line) + ['\r']
  {
  }

  lemma StripCRTwice(line: string)
    ensures StripCR(line + ['\r']) == line
  {
  }

  /** Adjusting a line and stripping its carriage return can be done in either order. */
  lemma AdjustThenStrip(line: string, oldOffset: nat, newOffset: nat)
    requires Ready(StripCR(line), oldOffset, newOffset)
    ensures AdjustLine(line, oldOffset, newOffset).Some?
    ensures Some(StripCR(AdjustLine(line, oldOffset, newOffset).value)) == AdjustLine(StripCR(line), oldOffset, newOffset)
  {
    hide MatchHeader, AdjustHeader, IsHunkHeader, StripCR, Movable;
    StripCRMeans(line);
    var bare := StripCR(line);
    if line == bare {
      if IsHunkHeader(line) {
        AdjustEndedHeader(line, oldOffset, newOffset);
      }
    } else if IsHunkHeader(line) {
      HeadBeforeReturn(bare);
      AdjustEndedHeader(bare, oldOffset, newOffset);
      StripCRTwice(AdjustHeader(bare, oldOffset, newOffset).value);
    } else {
      HeadAfterReturn(bare);
    }
  }

  lemma HeadAfterReturn(line: string)
    requires !IsHunkHeader(line + ['\r'])
    ensures !IsHunkHeader(line)
  {
    assert |line| >= 4 ==> (line + ['\r'])[..4] == line[..4];
  }

  /** The last line keeps its carriage return, and is adjusted all the same. */
  lemma AdjustLast(line: string, oldOffset: nat, newOffset: nat)
    requires Ready(line, oldOffset, newOffset)
    ensures AdjustLine(line, oldOffset, newOffset).Some?
  {
    hide MatchHeader, AdjustHeader, Movable;
    if IsHunkHeader(line) {
      AdjustEndedHeader(line, oldOffset, newOffset);
    }
  }

  lemma {:induction false} AdjustedLinesSeen(lines: seq<string>, oldOffset: nat, newOffset: nat)
    requires lines != [] && AllReady(StripEnded(lines), oldOffset, newOffset)
    ensures AdjustLines(lines, oldOffset, newOffset).Some? && AdjustLines(lines, oldOffset, newOffset).value != []
    ensures Some(StripEnded(AdjustLines(lines, oldOffset, newOffset).value)) == AdjustLines(StripEnded(lines), oldOffset, newOffset)
  {
    hide Ready, AdjustLine, StripCR;
    var stripped := StripEnded(lines);
    if |lines| == 1 {
      AdjustLast(lines[0], oldOffset, newOffset);
      assert lines[1..] == [];
    } else {
      assert stripped[0] == StripCR(lines[0]) && stripped[1..] == StripEnded(lines[1..]);
      AdjustThenStrip(lines[0], oldOffset, newOffset);
      assert forall k | 0 <= k < |stripped| - 1 :: stripped[1..][k] == stripped[k + 1];
      AdjustedLinesSeen(lines[1..], oldOffset, newOffset);
      var rest := AdjustLines(lines[1..], oldOffset, newOffset).value;
      var after := AdjustLines(lines, oldOffset, newOffset).value;
      assert after == [AdjustLine(lines[0], oldOffset, newOffset).value] + rest && after[1..] == rest;
    }
  }

  /** The lines a parser sees of an adjusted text are the adjusted lines it sees of the text. */
  lemma AdjustedTextLines(text: string, oldOffset: nat, newOffset: nat)
    requires AllReady(Split(ToLF(text)), oldOffset, newOffset)
    ensures AdjustText(text, oldOffset, newOffset).Some?
    ensures Some(Split(ToLF(AdjustText(text, oldOffset, newOffset).value))) == AdjustLines(Split(ToLF(text)), oldOffset, newOffset)
  {
    hide Split, Join, ToLF, AdjustLines, AllReady, StripEnded;
    var lines := Split(text);
    JoinOfSplit(text);
    LinesSeen(lines);
    AdjustedLinesSeen(lines, oldOffset, newOffset);
    var after := AdjustLines(lines, oldOffset, newOffset).value;
    SplitWithoutNewline(lines);
    AdjustedLinesWithout(lines, '\n', oldOffset, newOffset);
    WithoutNewlineLines(after);
    LinesSeen(after);
  }

  // ----- patch texts

  lemma FileHeaderIsNoHunk(lines: seq<string>)
    requires HasFileHeader(lines)
    ensures |lines| >= 3 && !IsHunkHeader(lines[0]) && !IsHunkHeader(lines[1])
  {
    assert lines[0][0] == '-' && lines[1][0] == '+';
  }

  lemma AdjustFileHeader(lines: seq<string>, oldOffset: nat, newOffset: nat)
    requires |lines| >= 2 && !IsHunkHeader(lines[0]) && !IsHunkHeader(lines[1])
    requires AdjustLines(lines[2..], oldOffset, newOffset).Some?
    ensures AdjustLines(lines, oldOffset, newOffset)
         == Some([lines[0], lines[1]] + AdjustLines(lines[2..], oldOffset, newOffset).value)
  {
    hide AdjustLines, IsHunkHeader;
    var later := lines[1..];
    assert later[0] == lines[1] && later[1..] == lines[2..];
    AdjustFirst(later, oldOffset, newOffset);
    AdjustFirst(lines, oldOffset, newOffset);
    var rest := AdjustLines(lines[2..], oldOffset, newOffset).value;
    assert [lines[0]] + ([lines[1]] + rest) == [lines[0], lines[1]] + rest;
  }

  lemma AdjustFirst(lines: seq<string>, oldOffset: nat, newOffset: nat)
    requires lines != [] && !IsHunkHeader(lines[0]) && AdjustLines(lines[1..], oldOffset, newOffset).Some?
    ensures AdjustLines(lines, oldOffset, newOffset) == Some([lines[0]] + AdjustLines(lines[1..], oldOffset, newOffset).value)
  {
  }

  lemma MovedNowhere(hunks: seq<Hunk>)
    ensures ShiftedAll(hunks, 0, 0) == hunks
  {
  }

  /** A patch text that parses has something that is not blank, and its lines say what. */
  lemma ParseOfLines(text: string, names: string -> bool, maxBytes: int, lines: seq<string>)
    requires Split(ToLF(text)) == lines && |text| <= maxBytes
    requires HasFileHeader(lines) && names(lines[0][4..]) && names(lines[1][4..])
    requires exists c :: c in text && !IsBlank(c)
    requires UNIFIED.ParseHunks(lines[2..], 3, 0).Ok? && UNIFIED.ParseHunks(lines[2..], 3, 0).value != []
    ensures Parse(text, names, maxBytes) == UNIFIED.ParseHunks(lines[2..], 3, 0)
  {
    hide ToLF, Split, Grammar.ParseHunks, HasFileHeader, IsBlank;
  }

  /** Renumbering a printed diff and then parsing it is parsing it and then moving the hunks. */
  lemma RenumberingCommutesWithParsing(text: string,
                                       names: string -> bool, maxBytes: int, oldOffset: nat, newOffset: nat)
    requires Parse(text, names, maxBytes).Ok?
    requires AllMovable(Parse(text, names, maxBytes).value, oldOffset, newOffset)
    ensures AdjustDiff(text, oldOffset, newOffset).Some?
    ensures var renumbered := AdjustDiff(text, oldOffset, newOffset).value;
            |renumbered| <= maxBytes ==>
              Parse(renumbered, names, maxBytes) == Ok(ShiftedAll(Parse(text, names, maxBytes).value, oldOffset, newOffset))
  {
    hide ToLF, Split, Join, AdjustLines, Grammar.ParseHunks, AllMovable, AllReady, IsBlank;
    var hunks := Parse(text, names, maxBytes).value;
    if oldOffset == 0 && newOffset == 0 {
      MovedNowhere(hunks);
    } else {
      var lines := Split(ToLF(text));
      RenumberedLinesParse(lines[2..], 3, 0, oldOffset, newOffset);
      FileHeaderIsNoHunk(lines);
      AdjustFileHeader(lines, oldOffset, newOffset);
      ReadyPatch(lines, oldOffset, newOffset);
      AdjustedTextLines(text, oldOffset, newOffset);
      var after := AdjustLines(lines, oldOffset, newOffset).value;
      var renumbered := AdjustText(text, oldOffset, newOffset).value;
      assert after[2..] == AdjustLines(lines[2..], oldOffset, newOffset).value;
      FirstNotBlank(renumbered, after);
      if |renumbered| <= maxBytes {
        ParseOfLines(renumbered, names, maxBytes, after);
      }
    }
  }

  /** What looks like a hunk header below the file header is one, and the file header is none. */
  lemma ReadyPatch(lines: seq<string>, oldOffset: nat, newOffset: nat)
    requires |lines| >= 2 && !IsHunkHeader(lines[0]) && !IsHunkHeader(lines[1])
    requires UNIFIED.ParseHunks(lines[2..], 3, 0).Ok?
    requires AllMovable(UNIFIED.ParseHunks(lines[2..], 3, 0).value, oldOffset, newOffset)
    ensures AllReady(lines, oldOffset, newOffset)
  {
    NoHunkIsReady(lines[0], oldOffset, newOffset);
    NoHunkIsReady(lines[1], oldOffset, newOffset);
    hide Ready, IsHunkHeader, Grammar.ParseHunks, AllMovable;
    ParsedIsReady(lines[2..], 3, 0, oldOffset, newOffset);
    assert lines[..2] == [lines[0], lines[1]];
    AllReadyFrom(lines, oldOffset, newOffset, 2);
  }

  lemma NoHunkIsReady(line: string, oldOffset: nat, newOffset: nat)
    requires !IsHunkHeader(line)
    ensures Ready(line, oldOffset, newOffset)
  {
  }

  /** A text that starts with a file header is not blank. */
  lemma FirstNotBlank(text: string, lines: seq<string>)
    requires Split(ToLF(text)) == lines && |lines| > 1 && "--- " <= lines[0]
    ensures exists c :: c in text && !IsBlank(c)
  {
    hide Split;
    JoinOfSplit(ToLF(text));
    assert lines[0][0] == '-';
    assert Join(lines)[0] == '-';
    assert ToLF(text)[0] == '-';
    assert text[0] == '-' && '-' in text && !IsBlank('-');
  }

  /** The bounded diff from end to end: when the printed diff of the window parses to hunks that take the
      old window to the new one, the renumbered text is a patch that takes the whole original to the
      whole modified text. */
  lemma RenumberedDiffPatchesTheFile(original: string, modified: string, b: WindowDiff.Bounds, diff: string,
                                     names: string -> bool, maxBytes: int)
    requires WindowDiff.Cuts(original, modified, b)
    requires Parse(diff, names, maxBytes).Ok?
    requires WindowDiff.Confined(original, b, Parse(diff, names, maxBytes).value)
    requires Apply(original[b.start..b.oldEnd], Parse(diff, names, maxBytes).value) == Accepted(modified[b.start..b.newEnd])
    requires AllMovable(Parse(diff, names, maxBytes).value, Newlines(original[..b.start]), Newlines(modified[..b.start]))
    ensures var renumbered := AdjustDiff(diff, Newlines(original[..b.start]), Newlines(modified[..b.start]));
            && renumbered.Some?
            && (|renumbered.value| <= maxBytes ==>
                  && Parse(renumbered.value, names, maxBytes).Ok?
                  && Apply(original, Parse(renumbered.value, names, maxBytes).value) == Accepted(modified))
  {
    hide Parse, AdjustDiff, Newlines, Apply, AllMovable, WindowDiff.Confined;
    RenumberingCommutesWithParsing(diff, names, maxBytes, Newlines(original[..b.start]), Newlines(modified[..b.start]));
    WindowDiff.WindowedHunksPatchTheFile(original, modified, b, Parse(diff, names, maxBytes).value);
  }
}
