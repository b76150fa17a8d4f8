/** The diff that looks only at a window around the change, filetoolsserver/handler/edit_file.go: how
    the window is cut, and why its hunks, renumbered, patch the whole file.
 */
module WindowDiff {
  import opened Basics
  import opened Text
  import opened PatchApply
  import opened PatchShift

  const CONTEXT_LINES := 3
  const MAX_WINDOW_BYTES := 512 * 1024

  // ----- lines by position

  predicate LineStart(text: string, at: nat)
    requires at <= |text|
  {
    at == 0 || text[at - 1] == '\n'
  }

  /** Position of the first newline, or -1. */
  function FirstNewline(text: string): (at: int)
    ensures -1 <= at < |text|
    ensures at >= 0 ==> text[at] == '\n'
    ensures forall k | 0 <= k < |text| && (at < 0 || k < at) :: text[k] != '\n'
  {
    if text == [] then -1
    else if text[0] == '\n' then 0
    else
      var rest := FirstNewline(text[1..]);
      assert forall k | 1 <= k < |text| :: text[k] == text[1..][k - 1];
      if rest < 0 then -1 else rest + 1
  }

  /** Position of the last newline, or -1. */
  function LastNewline(text: string): (at: int)
    ensures -1 <= at < |text|
    ensures at >= 0 ==> text[at] == '\n'
    ensures forall k | at < k < |text| :: text[k] != '\n'
  {
    if text == [] then -1
    else if text[|text| - 1] == '\n' then |text| - 1
    else LastNewline(text[..|text| - 1])
  }

  lemma {:induction false} NewlinesOfConcat(a: string, b: string)
    ensures Newlines(a + b) == Newlines(a) + Newlines(b)
  {
    if a == [] {
      assert a + b == b;
    } else {
      NewlinesOfConcat(a[1..], b);
      assert (a + b)[1..] == a[1..] + b;
    }
  }

  lemma NewlinesBetween(text: string, from: nat, middle: nat, to: nat)
    requires from <= middle <= to <= |text|
    ensures Newlines(text[from..to]) == Newlines(text[from..middle]) + Newlines(text[middle..to])
  {
    NewlinesOfConcat(text[from..middle], text[middle..to]);
    assert text[from..to] == text[from..middle] + text[middle..to];
  }

  lemma {:induction false} NewlinesOfLine(text: string)
    requires OneLine(text)
    ensures Newlines(text) == 0
  {
    if text != [] {
      NewlinesOfLine(text[1..]);
    }
  }

  /** One line further: what one step of the context walks adds. */
  lemma OneMoreLine(text: string, from: nat, newline: nat)
    requires from <= newline < |text| && text[newline] == '\n' && OneLine(text[from..newline])
    ensures Newlines(text[from..newline + 1]) == 1
  {
    NewlinesOfLine(text[from..newline]);
    assert text[newline..newline + 1] == ['\n'];
    NewlinesBetween(text, from, newline, newline + 1);
  }

  // ----- the context walks

  /** Up to `lines` whole lines back from a line start. */
  method ContextStart(text: string, lineStart: nat, lines: nat) returns (position: nat)
    requires lineStart <= |text| && LineStart(text, lineStart)
    ensures position <= lineStart && LineStart(text, position)
    ensures Newlines(text[position..lineStart]) == Min(lines, Newlines(text[..lineStart]))
    ensures Newlines(text[position..lineStart]) < lines ==> position == 0
  {
    position := lineStart;
    assert text[lineStart..lineStart] == [];
    for step := 0 to lines
      invariant position <= lineStart && LineStart(text, position)
      invariant Newlines(text[position..lineStart]) == step
    {
      if position == 0 {
        break;
      }
      var newline := LastNewline(text[..position - 1]);
      ghost var from := newline + 1;
      assert text[..position - 1][from..] == text[from..position - 1];
      OneMoreLine(text, from, position - 1);
      NewlinesBetween(text, from, position, lineStart);
      if newline < 0 {
        position := 0;
        break;
      }
      position := newline + 1;
    }
    NewlinesBetween(text, 0, position, lineStart);
    assert text[0..lineStart] == text[..lineStart];
    if position == 0 {
      assert text[0..0] == [];
    }
  }

  /** Length of the first `lines` lines of a text, newlines included, or of all of it. */
  function LinesLength(text: string, lines: nat): (length: nat)
    ensures length <= |text|
    decreases lines
  {
    if lines == 0 || text == [] then 0
    else
      var newline := FirstNewline(text);
      if newline < 0 then |text| else newline + 1 + LinesLength(text[newline + 1..], lines - 1)
  }

  lemma FirstLineCounts(text: string, newline: nat, rest: nat)
    requires newline < |text| && text[newline] == '\n' && OneLine(text[..newline])
    requires newline + 1 + rest <= |text|
    ensures Newlines(text[..newline + 1 + rest]) == 1 + Newlines(text[newline + 1..][..rest])
  {
    var end := newline + 1 + rest;
    assert text[newline + 1..][..rest] == text[newline + 1..end];
    assert text[0..newline] == text[..newline];
    OneMoreLine(text, 0, newline);
    NewlinesBetween(text, 0, newline + 1, end);
    assert text[0..end] == text[..end];
  }

  lemma {:induction false} LinesLengthCounts(text: string, lines: nat, length: nat)
    requires length == LinesLength(text, lines)
    ensures Newlines(text[..length]) <= lines
    ensures length < |text| ==> Newlines(text[..length]) == lines
    ensures 0 < length < |text| ==> text[length - 1] == '\n'
    ensures 0 < lines && text != [] ==> 0 < length
    decreases lines
  {
    if lines != 0 && text != [] {
      var newline := FirstNewline(text);
      if newline < 0 {
        NewlinesOfLine(text);
        assert text[..|text|] == text;
      } else {
        var tail, rest := text[newline + 1..], length - newline - 1;
        assert rest == LinesLength(tail, lines - 1) && OneLine(text[..newline]);
        hide LinesLength, FirstNewline, Newlines;
        LinesLengthCounts(tail, lines - 1, rest);
        FirstLineCounts(text, newline, rest);
        assert text[newline + rest] == if rest == 0 then '\n' else tail[rest - 1];
      }
    } else {
      assert text[..length] == [];
    }
  }

  /** Up to `lines` whole lines forward from a line start. */
  method ContextEnd(text: string, lineStart: nat, lines: nat) returns (position: nat)
    requires lineStart <= |text|
    ensures position == lineStart + LinesLength(text[lineStart..], lines)
  {
    position := lineStart;
    for step := 0 to lines
      invariant position <= |text|
      invariant position + LinesLength(text[position..], lines - step) == lineStart + LinesLength(text[lineStart..], lines)
    {
      if position >= |text| {
        break;
      }
      var newline := FirstNewline(text[position..]);
      if newline < 0 {
        return |text|;
      }
      assert text[position..][newline + 1..] == text[position + newline + 1..];
      position := position + newline + 1;
    }
  }

  // ----- the window

  datatype Bounds = Bounds(start: nat, oldEnd: nat, newEnd: nat)

  /** The part before a window boundary is whole lines; so is the window, unless nothing comes after it. */
  ghost predicate Cuts(original: string, modified: string, b: Bounds) {
    && b.start <= b.oldEnd <= |original| && b.start <= b.newEnd <= |modified|
    && original[..b.start] == modified[..b.start] && LineStart(original, b.start)
    && original[b.oldEnd..] == modified[b.newEnd..]
    && (b.oldEnd < |original| ==> b.start < b.oldEnd && original[b.oldEnd - 1] == '\n'
                                  && b.start < b.newEnd && modified[b.newEnd - 1] == '\n')
    && (0 < b.start ==> b.start < b.newEnd)
  }

  /** How far two texts agree from their starts. */
  function CommonPrefix(a: string, b: string): (n: nat)
    ensures n <= |a| && n <= |b| && a[..n] == b[..n]
    ensures n < |a| && n < |b| ==> a[n] != b[n]
  {
    if a == [] || b == [] || a[0] != b[0] then 0 else 1 + CommonPrefix(a[1..], b[1..])
  }

  method ScanPrefix(original: string, modified: string) returns (commonPrefix: nat)
    ensures commonPrefix == CommonPrefix(original, modified)
  {
    var commonLimit := Min(|original|, |modified|);
    commonPrefix := 0;
    while commonPrefix < commonLimit && original[commonPrefix] == modified[commonPrefix]
      invariant commonPrefix <= commonLimit
      invariant CommonPrefix(original, modified)
             == commonPrefix + CommonPrefix(original[commonPrefix..], modified[commonPrefix..])
    {
      assert original[commonPrefix..][1..] == original[commonPrefix + 1..];
      assert modified[commonPrefix..][1..] == modified[commonPrefix + 1..];
      commonPrefix := commonPrefix + 1;
    }
  }

  /** This is how far two texts agree from their ends, outside their common prefix. */
  predicate LongestSuffix(original: string, modified: string, commonPrefix: nat, commonSuffix: nat) {
    && commonPrefix + commonSuffix <= |original| && commonPrefix + commonSuffix <= |modified|
    && original[|original| - commonSuffix..] == modified[|modified| - commonSuffix..]
    && (commonPrefix + commonSuffix < |original| && commonPrefix + commonSuffix < |modified| ==>
          original[|original| - commonSuffix - 1] != modified[|modified| - commonSuffix - 1])
  }

  method ScanSuffix(original: string, modified: string, commonPrefix: nat) returns (commonSuffix: nat)
    requires commonPrefix <= |original| && commonPrefix <= |modified|
    ensures LongestSuffix(original, modified, commonPrefix, commonSuffix)
  {
    var maxSuffix := Min(|original| - commonPrefix, |modified| - commonPrefix);
    commonSuffix := 0;
    while commonSuffix < maxSuffix
          && original[|original| - 1 - commonSuffix] == modified[|modified| - 1 - commonSuffix]
      invariant commonSuffix <= maxSuffix
      invariant original[|original| - commonSuffix..] == modified[|modified| - commonSuffix..]
    {
      var i, j := |original| - 1 - commonSuffix, |modified| - 1 - commonSuffix;
      assert original[i..] == [original[i]] + original[i + 1..];
      assert modified[j..] == [modified[j]] + modified[j + 1..];
      commonSuffix := commonSuffix + 1;
    }
  }

  /** Move the suffix to a line start of both texts, or to their ends. */
  method SnapSuffix(original: string, modified: string, commonSuffix: nat) returns (oldStart: nat, newStart: nat)
    requires commonSuffix <= |original| && commonSuffix <= |modified|
    requires original[|original| - commonSuffix..] == modified[|modified| - commonSuffix..]
    ensures |original| - commonSuffix <= oldStart <= |original| && |original| - oldStart == |modified| - newStart
    ensures newStart <= |modified| && original[oldStart..] == modified[newStart..]
    ensures oldStart < |original| ==> LineStart(original, oldStart) && LineStart(modified, newStart)
    ensures LineStart(original, |original| - commonSuffix) && LineStart(modified, |modified| - commonSuffix) ==>
              oldStart == |original| - commonSuffix
    ensures Newlines(original[|original| - commonSuffix..oldStart]) <= 1
  {
    oldStart, newStart := |original| - commonSuffix, |modified| - commonSuffix;
    ghost var suffixStart := oldStart;
    assert original[oldStart..oldStart] == [];
    assert Newlines(original[oldStart..oldStart]) == 0;
    hide Newlines, FirstNewline;
    if commonSuffix > 0 && !(LineStart(original, oldStart) && LineStart(modified, newStart)) {
      var newline := FirstNewline(original[oldStart..]);
      if newline < 0 {
        NewlinesOfLine(original[oldStart..]);
        assert original[oldStart..] == original[oldStart..|original|];
        oldStart, newStart := |original|, |modified|;
      } else {
        assert original[oldStart..][newline] == modified[newStart..][newline];
        assert original[oldStart..][..newline] == original[oldStart..oldStart + newline];
        OneMoreLine(original, oldStart, oldStart + newline);
        oldStart, newStart := oldStart + newline + 1, newStart + newline + 1;
        assert original[oldStart..] == original[suffixStart..][newline + 1..];
        assert modified[newStart..] == modified[|modified| - commonSuffix..][newline + 1..];
      }
    }
  }

  /** The first boundary: three lines before the line where the texts first differ. */
  method WindowStart(original: string, commonPrefix: nat) returns (start: nat)
    requires commonPrefix <= |original|
    ensures start <= commonPrefix && LineStart(original, start)
    ensures Newlines(original[start..commonPrefix]) == Min(CONTEXT_LINES, Newlines(original[..commonPrefix]))
    ensures Newlines(original[start..commonPrefix]) < CONTEXT_LINES ==> start == 0
  {
    var changeLineStart := 0;
    if commonPrefix > 0 {
      var newline := LastNewline(original[..commonPrefix]);
      if newline >= 0 {
        changeLineStart := newline + 1;
      }
      assert OneLine(original[..commonPrefix][newline + 1..]);
    }
    start := ContextStart(original, changeLineStart, CONTEXT_LINES);
    assert original[..commonPrefix][changeLineStart..] == original[changeLineStart..commonPrefix];
    NewlinesOfLine(original[changeLineStart..commonPrefix]);
    NewlinesBetween(original, start, changeLineStart, commonPrefix);
    NewlinesBetween(original, 0, changeLineStart, commonPrefix);
    assert original[0..changeLineStart] == original[..changeLineStart] && original[0..commonPrefix] == original[..commonPrefix];
  }

  /** The other boundary: three lines after the change, the same distance from both ends. */
  method WindowEnds(original: string, modified: string, oldStart: nat, newStart: nat) returns (oldEnd: nat, newEnd: nat)
    requires oldStart <= |original| && newStart <= |modified| && original[oldStart..] == modified[newStart..]
    ensures oldStart <= oldEnd <= |original| && newEnd - newStart == oldEnd - oldStart && newEnd <= |modified|
    ensures original[oldEnd..] == modified[newEnd..]
    ensures Newlines(original[oldStart..oldEnd]) <= CONTEXT_LINES
    ensures oldEnd < |original| ==>
              && oldStart < oldEnd && original[oldEnd - 1] == '\n' && modified[newEnd - 1] == '\n'
              && Newlines(original[oldStart..oldEnd]) == CONTEXT_LINES
  {
    oldEnd := ContextEnd(original, oldStart, CONTEXT_LINES);
    newEnd := ContextEnd(modified, newStart, CONTEXT_LINES);
    ghost var length := oldEnd - oldStart;
    LinesLengthCounts(original[oldStart..], CONTEXT_LINES, length);
    assert original[oldStart..][..length] == original[oldStart..oldEnd];
    assert original[oldStart..][length..] == original[oldEnd..] && modified[newStart..][length..] == modified[newEnd..];
    if 0 < length {
      assert original[oldStart..][length - 1] == original[oldEnd - 1] && modified[newStart..][length - 1] == modified[newEnd - 1];
    }
  }

  datatype Window = Identical | TooLarge | Cut(bounds: Bounds)

  /** The bounds that go with the longest common suffix: three lines before the first difference, and after the
      last one the rest of its line and three more lines, as far as there are so many. */
  ghost predicate IsWindow(original: string, modified: string, commonSuffix: nat, b: Bounds) {
    var prefix := CommonPrefix(original, modified);
    && LongestSuffix(original, modified, prefix, commonSuffix)
    && Cuts(original, modified, b) && b.start <= prefix
    && Newlines(original[b.start..prefix]) == Min(CONTEXT_LINES, Newlines(original[..prefix]))
    && |original| - commonSuffix <= b.oldEnd && |original| - b.oldEnd == |modified| - b.newEnd
    && var after := Newlines(original[|original| - commonSuffix..b.oldEnd]);
       after <= CONTEXT_LINES + 1 && (b.oldEnd < |original| ==> CONTEXT_LINES <= after)
  }

  function WindowBytes(b: Bounds): int {
    (b.oldEnd - b.start) + (b.newEnd - b.start)
  }

  lemma WholeLinesAround(original: string, modified: string, prefix: nat, b: Bounds)
    requires b.start <= prefix <= |original| && prefix <= |modified| && original[..prefix] == modified[..prefix]
    requires LineStart(original, b.start) && prefix <= b.oldEnd <= |original| && prefix <= b.newEnd <= |modified|
    requires original[b.oldEnd..] == modified[b.newEnd..]
    requires b.oldEnd < |original| ==> prefix < b.oldEnd && prefix < b.newEnd && original[b.oldEnd - 1] == '\n' && modified[b.newEnd - 1] == '\n'
    requires 0 < b.start ==> b.start < prefix
    ensures Cuts(original, modified, b)
  {
    assert original[..b.start] == original[..prefix][..b.start] == modified[..b.start];
  }

  /** The scans, the move to a line start and the context walks find the window. */
  lemma WindowIs(original: string, modified: string, prefix: nat, suffix: nat, oldStart: nat, newStart: nat, b: Bounds)
    requires prefix == CommonPrefix(original, modified) && b.start <= prefix && LineStart(original, b.start)
    requires Newlines(original[b.start..prefix]) == Min(CONTEXT_LINES, Newlines(original[..prefix]))
    requires Newlines(original[b.start..prefix]) < CONTEXT_LINES ==> b.start == 0
    requires LongestSuffix(original, modified, prefix, suffix)
    requires |original| - suffix <= oldStart <= |original| && |original| - oldStart == |modified| - newStart
    requires newStart <= |modified| && Newlines(original[|original| - suffix..oldStart]) <= 1
    requires oldStart <= b.oldEnd <= |original| && b.newEnd - newStart == b.oldEnd - oldStart && b.newEnd <= |modified|
    requires original[b.oldEnd..] == modified[b.newEnd..] && Newlines(original[oldStart..b.oldEnd]) <= CONTEXT_LINES
    requires b.oldEnd < |original| ==>
               && oldStart < b.oldEnd && original[b.oldEnd - 1] == '\n' && modified[b.newEnd - 1] == '\n'
               && Newlines(original[oldStart..b.oldEnd]) == CONTEXT_LINES
    ensures IsWindow(original, modified, suffix, b)
  {
    assert b.start == prefix ==> original[b.start..prefix] == [];
    assert prefix + suffix <= |original| && prefix + suffix <= |modified|;
    hide CommonPrefix, LineStart, LongestSuffix;
    NewlinesBetween(original, |original| - suffix, oldStart, b.oldEnd);
    assert 0 < b.start ==> b.start < prefix;
    hide Newlines, Cuts;
    WholeLinesAround(original, modified, prefix, b);
  }

  /** Cut the window around the change, or fall back to the whole texts when that window is too large. */
  method BoundedWindow(original: string, modified: string) returns (window: Window, ghost b: Bounds, ghost commonSuffix: nat)
    ensures window == Identical <==> original == modified
    ensures original != modified ==>
              && IsWindow(original, modified, commonSuffix, b)
              && window == if WindowBytes(b) > MAX_WINDOW_BYTES then TooLarge else Cut(b)
  {
    b, commonSuffix := Bounds(0, 0, 0), 0;
    hide *;
    if original == modified {
      return Identical, b, commonSuffix;
    }
    var commonPrefix := ScanPrefix(original, modified);
    var start := WindowStart(original, commonPrefix);
    var suffix := ScanSuffix(original, modified, commonPrefix);
    var oldStart, newStart := SnapSuffix(original, modified, suffix);
    var oldEnd, newEnd := WindowEnds(original, modified, oldStart, newStart);
    b, commonSuffix := Bounds(start, oldEnd, newEnd), suffix;
    WindowIs(original, modified, commonPrefix, suffix, oldStart, newStart, b);
    if (oldEnd - start) + (newEnd - start) > MAX_WINDOW_BYTES {
      return TooLarge, b, commonSuffix;
    }
    return Cut(Bounds(start, oldEnd, newEnd)), b, commonSuffix;
  }

  // ----- why the window is enough

  /** No hunk reaches past the window's own complete lines. When text follows the window, its last
      piece is empty and belongs to the line after it. */
  predicate Confined(original: string, b: Bounds, hunks: seq<Hunk>)
    requires b.start <= b.oldEnd <= |original|
  {
    b.oldEnd < |original| ==> End(hunks) <= Newlines(original[b.start..b.oldEnd])
  }

  /** The middle part when nothing follows it. */
  lemma LastPartPatches(head: string, oldPart: string, newPart: string, hunks: seq<Hunk>)
    requires head == [] || (head[|head| - 1] == '\n' && newPart != [])
    requires Apply(oldPart, hunks) == Accepted(newPart)
    ensures Apply(head + oldPart, ShiftedAll(hunks, Newlines(head), Newlines(head))) == Accepted(head + newPart)
  {
    var pre, source := Split(head)[..Newlines(head)], Split(oldPart);
    var output := Patched(source, hunks);
    SplitAtLineStart(head, oldPart);
    ShiftedPatches(pre, source, [], hunks);
    assert pre + source + [] == pre + source && pre + output + [] == pre + output;
    if output == [] {
      assert head == [] && pre == [];
    } else {
      JoinOfConcat(pre, output);
      JoinOfSplit(head);
    }
  }

  /** Dropping the empty last piece of an ended text from both sides of a patch. */
  lemma WithoutLastPiece(oldPart: string, newPart: string, hunks: seq<Hunk>)
    requires oldPart != [] && oldPart[|oldPart| - 1] == '\n'
    requires Apply(oldPart, hunks) == Accepted(newPart) && End(hunks) <= Newlines(oldPart)
    ensures var source := Split(oldPart)[..Newlines(oldPart)];
            Fits(source, hunks) && Join(Patched(source, hunks) + [[]]) == newPart
  {
    hide Fits, End, LastOldEnd, Drift, Produced, Split, Join, Newlines;
    var source: seq<string>, tail: seq<string> := Split(oldPart)[..Newlines(oldPart)], [[]];
    SplitAtLineStart(oldPart, []);
    assert Split(oldPart) == source + tail;
    FitsBounds(source + tail, hunks);
    TailUntouched(source, tail, hunks);
    assert (source + tail)[End(hunks)..] == source[End(hunks)..] + tail;
    assert Patched(source + tail, hunks) == Patched(source, hunks) + tail;
  }

  /** The complete lines of an ended text. */
  function CompleteLines(text: string): seq<string> {
    Split(text)[..Newlines(text)]
  }

  lemma SplitOfThree(head: string, middle: string, tail: string)
    requires head == [] || head[|head| - 1] == '\n'
    requires middle == [] || middle[|middle| - 1] == '\n'
    ensures Split(head + middle + tail) == CompleteLines(head) + CompleteLines(middle) + Split(tail)
  {
    SplitAtLineStart(head, middle + tail);
    SplitAtLineStart(middle, tail);
    assert head + middle + tail == head + (middle + tail);
  }

  lemma JoinOfThree(head: string, middle: seq<string>, tail: string)
    requires head == [] || head[|head| - 1] == '\n'
    ensures Join(CompleteLines(head) + middle + Split(tail)) == head + Join(middle + [[]]) + tail
  {
    var pre, post := CompleteLines(head), Split(tail);
    JoinOfConcat(pre, middle + post);
    JoinOfConcat(middle, post);
    SplitAtLineStart(head, []);
    JoinOfSplit(head);
    JoinOfSplit(tail);
    assert pre + middle + post == pre + (middle + post);
  }

  /** The middle part when more text follows. */
  lemma MiddlePartPatches(head: string, oldPart: string, newPart: string, tail: string, hunks: seq<Hunk>)
    requires head == [] || head[|head| - 1] == '\n'
    requires oldPart != [] && oldPart[|oldPart| - 1] == '\n'
    requires Apply(oldPart, hunks) == Accepted(newPart) && End(hunks) <= Newlines(oldPart)
    ensures Apply(head + oldPart + tail, ShiftedAll(hunks, Newlines(head), Newlines(head))) == Accepted(head + newPart + tail)
  {
    var pre, source, post := CompleteLines(head), CompleteLines(oldPart), Split(tail);
    WithoutLastPiece(oldPart, newPart, hunks);
    SplitOfThree(head, oldPart, tail);
    ShiftedPatches(pre, source, post, hunks);
    JoinOfThree(head, Patched(source, hunks), tail);
  }

  /** The windowed diff is sound: hunks that take the old window to the new one, renumbered by the
      lines before the window, take the whole original to the whole modified text. */
  lemma WindowedHunksPatchTheFile(original: string, modified: string, b: Bounds, hunks: seq<Hunk>)
    requires Cuts(original, modified, b) && Confined(original, b, hunks)
    requires Apply(original[b.start..b.oldEnd], hunks) == Accepted(modified[b.start..b.newEnd])
    ensures var before := Newlines(original[..b.start]);
            Apply(original, ShiftedAll(hunks, before, before)) == Accepted(modified)
  {
    var head, oldPart, newPart := original[..b.start], original[b.start..b.oldEnd], modified[b.start..b.newEnd];
    var tail := original[b.oldEnd..];
    assert original == head + oldPart + tail && modified == head + newPart + tail;
    if b.oldEnd == |original| {
      assert head + oldPart + tail == head + oldPart && head + newPart + tail == head + newPart;
      LastPartPatches(head, oldPart, newPart, hunks);
    } else {
      MiddlePartPatches(head, oldPart, newPart, tail, hunks);
    }
  }
}
