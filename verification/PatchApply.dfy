/** Applying the hunks of a unified patch, filetoolsserver/handler/edit_patch.go: when a hunk list
    fits a text, what it makes of it, and when the reversed list undoes it.
 */
module PatchApply {
  import opened Text
  import opened Wrappers

  /** A body line is never empty: its first character says what it is. */
  type PatchLine = line: string | line != [] witness [' ']

  datatype Hunk = Hunk(oldStart: int, oldCount: int, newStart: int, newCount: int, lines: seq<PatchLine>) {

    /** How many lines of the old text come before the hunk's old side. */
    function OldIndex(): int {
      if oldCount == 0 then oldStart else oldStart - 1
    }

    function NewIndex(): int {
      if newCount == 0 then newStart else newStart - 1
    }

    function OldEnd(): int {
      OldIndex() + |OldSide(lines)|
    }

    /** Zero line numbers are for empty ranges only. */
    predicate RangesAreValid() {
      0 <= oldStart && 0 <= newStart && (oldStart == 0 ==> oldCount == 0) && (newStart == 0 ==> newCount == 0)
    }

    /** What the parser guarantees: the header counts are those of the body, and the body is made of lines. */
    ghost predicate WellFormed() {
      oldCount == |OldSide(lines)| && newCount == |NewSide(lines)| && Lines(lines) &&
      forall k | 0 <= k < |lines| :: lines[k][0] in {' ', '-', '+'}
    }
  }

  datatype ApplyError =
    | ZeroLineNumber
    | Misplaced
    | WrongNewStart(want: int)
    | ContextMismatch(line: nat)
    | DeletionMismatch(line: nat)

  function OldSide(lines: seq<PatchLine>): (side: seq<string>) {
    if lines == [] then []
    else
      var last := lines[|lines| - 1];
      OldSide(lines[..|lines| - 1]) + if last[0] in {' ', '-'} then [last[1..]] else []
  }

  function NewSide(lines: seq<PatchLine>): (side: seq<string>) {
    if lines == [] then []
    else
      var last := lines[|lines| - 1];
      NewSide(lines[..|lines| - 1]) + if last[0] in {' ', '+'} then [last[1..]] else []
  }

  // ----- when a hunk list fits

  /** Where the last hunk of `hunks` leaves the old text. */
  function End(hunks: seq<Hunk>): int {
    if hunks == [] then 0 else hunks[|hunks| - 1].OldEnd()
  }

  function LastOldEnd(hunks: seq<Hunk>): int {
    if hunks == [] then 0 else hunks[|hunks| - 1].oldStart + hunks[|hunks| - 1].oldCount
  }

  /** By how many lines the text grows. */
  function Drift(hunks: seq<Hunk>): int {
    if hunks == [] then 0
    else
      var last := hunks[|hunks| - 1];
      Drift(hunks[..|hunks| - 1]) + |NewSide(last.lines)| - |OldSide(last.lines)|
  }

  /** `hunk` starts inside the text and after the hunks before it. */
  predicate Placed(source: seq<string>, before: seq<Hunk>, hunk: Hunk) {
    End(before) <= hunk.OldIndex() <= |source| && LastOldEnd(before) <= hunk.oldStart
  }

  /** The text holds the hunk's old side where the hunk says. */
  predicate Matches(source: seq<string>, hunk: Hunk) {
    0 <= hunk.OldIndex() && hunk.OldEnd() <= |source| &&
    source[hunk.OldIndex()..hunk.OldEnd()] == OldSide(hunk.lines)
  }

  predicate HunkFits(source: seq<string>, before: seq<Hunk>, hunk: Hunk) {
    && hunk.RangesAreValid()
    && Placed(source, before, hunk)
    && hunk.NewIndex() == hunk.OldIndex() + Drift(before)
    && Matches(source, hunk)
  }

  predicate Fits(source: seq<string>, hunks: seq<Hunk>) {
    hunks == [] || (Fits(source, hunks[..|hunks| - 1]) && HunkFits(source, hunks[..|hunks| - 1], hunks[|hunks| - 1]))
  }

  lemma {:induction false} FitsBounds(source: seq<string>, hunks: seq<Hunk>)
    requires Fits(source, hunks)
    ensures 0 <= End(hunks) <= |source| && 0 <= End(hunks) + Drift(hunks)
  {
    if hunks != [] {
      FitsBounds(source, hunks[..|hunks| - 1]);
    }
  }

  /** The output after the hunks so far: gaps copied, old sides replaced by new sides. */
  function Produced(source: seq<string>, hunks: seq<Hunk>): (output: seq<string>)
    requires Fits(source, hunks)
    ensures |output| == End(hunks) + Drift(hunks)
  {
    if hunks == [] then []
    else
      var before, last := hunks[..|hunks| - 1], hunks[|hunks| - 1];
      FitsBounds(source, before);
      Produced(source, before) + source[End(before)..last.OldIndex()] + NewSide(last.lines)
  }

  /** The whole patched text. */
  function Patched(source: seq<string>, hunks: seq<Hunk>): (output: seq<string>)
    requires Fits(source, hunks)
    ensures |output| == |source| + Drift(hunks)
  {
    FitsBounds(source, hunks);
    Produced(source, hunks) + source[End(hunks)..]
  }

  /** What applying a hunk list to a text gives; `None` stands for every error. */
  datatype Applied = Rejected | Accepted(text: string)

  function Apply(content: string, hunks: seq<Hunk>): Applied {
    if Fits(Split(content), hunks) then Accepted(Join(Patched(Split(content), hunks))) else Rejected
  }

  lemma {:induction false} FitsPrefix(source: seq<string>, hunks: seq<Hunk>, count: nat)
    requires count <= |hunks| && Fits(source, hunks)
    ensures Fits(source, hunks[..count])
  {
    if count == |hunks| {
      assert hunks[..count] == hunks;
    } else {
      FitsPrefix(source, hunks[..|hunks| - 1], count);
      assert hunks[..|hunks| - 1][..count] == hunks[..count];
    }
  }

  // ----- the loops

  /** The error a hunk that does not fit is refused with: the first guard it fails. */
  ghost predicate Explains(source: seq<string>, before: seq<Hunk>, hunk: Hunk, error: ApplyError) {
    if !hunk.RangesAreValid() then error == ZeroLineNumber
    else if !Placed(source, before, hunk) then error == Misplaced
    else if hunk.NewIndex() != hunk.OldIndex() + Drift(before) then error.WrongNewStart?
    else !Matches(source, hunk) && (error.ContextMismatch? || error.DeletionMismatch?)
  }

  /** The old side can only match if all its prefixes do. */
  lemma {:induction false} SidePrefix(lines: seq<PatchLine>, count: nat)
    requires count <= |lines|
    ensures OldSide(lines[..count]) <= OldSide(lines)
  {
    if count == |lines| {
      assert lines[..count] == lines;
    } else {
      SidePrefix(lines[..|lines| - 1], count);
      assert lines[..|lines| - 1][..count] == lines[..count];
    }
  }

  /** Walk one hunk's body over the source, collecting the output lines. */
  method WalkBody(source: seq<string>, start: nat, lines: seq<PatchLine>)
    returns (end: nat, output: seq<string>, failure: Result<(), ApplyError>)
    requires start <= |source|
    ensures failure.Ok? <==> start + |OldSide(lines)| <= |source| && source[start..start + |OldSide(lines)|] == OldSide(lines)
    ensures failure.Ok? ==> end == start + |OldSide(lines)| && output == NewSide(lines)
    ensures failure.Err? ==> failure.error.ContextMismatch? || failure.error.DeletionMismatch?
  {
    end, output := start, [];
    for index := 0 to |lines|
      invariant end == start + |OldSide(lines[..index])| <= |source|
      invariant source[start..end] == OldSide(lines[..index])
      invariant output == NewSide(lines[..index])
    {
      var line := lines[index];
      var text := line[1..];
      assert lines[..index + 1][..index] == lines[..index];
      if line[0] == ' ' || line[0] == '-' {
        if end >= |source| || source[end] != text {
          SidePrefix(lines, index + 1);
          ghost var side := OldSide(lines);
          assert side[end - start] == text;
          return end, output, Err(if line[0] == ' ' then ContextMismatch(end + 1) else DeletionMismatch(end + 1));
        }
        end := end + 1;
      }
      if line[0] == ' ' || line[0] == '+' {
        output := output + [text];
      }
    }
    assert lines[..|lines|] == lines;
    failure := Ok(());
  }

  lemma RefusedHunk(source: seq<string>, hunks: seq<Hunk>, at: nat)
    requires at < |hunks| && !HunkFits(source, hunks[..at], hunks[at])
    ensures !Fits(source, hunks)
  {
    assert hunks[..at + 1][..at] == hunks[..at];
    if Fits(source, hunks) {
      FitsPrefix(source, hunks, at + 1);
    }
  }

  lemma AcceptedHunk(source: seq<string>, hunks: seq<Hunk>, at: nat)
    requires at < |hunks| && Fits(source, hunks[..at]) && HunkFits(source, hunks[..at], hunks[at])
    ensures Fits(source, hunks[..at + 1])
    ensures 0 <= End(hunks[..at]) <= hunks[at].OldIndex() <= |source|
    ensures Produced(source, hunks[..at + 1])
         == Produced(source, hunks[..at]) + source[End(hunks[..at])..hunks[at].OldIndex()] + NewSide(hunks[at].lines)
  {
    FitsBounds(source, hunks[..at]);
    assert hunks[..at + 1][..at] == hunks[..at];
  }

  /** One hunk of the loop: its guards in order, the gap before it, its body. */
  method ApplyHunk(source: seq<string>, hunk: Hunk, output: seq<string>, sourceIndex: nat, lastOldEnd: int,
                   ghost before: seq<Hunk>)
    returns (newOutput: seq<string>, newIndex: nat, failure: Result<(), ApplyError>)
    requires sourceIndex == End(before) <= |source| && lastOldEnd == LastOldEnd(before)
    requires |output| == End(before) + Drift(before)
    ensures failure.Ok? <==> HunkFits(source, before, hunk)
    ensures failure.Err? ==> Explains(source, before, hunk, failure.error)
    ensures failure.Ok? ==> newIndex == hunk.OldEnd()
    ensures failure.Ok? ==> newOutput == output + source[sourceIndex..hunk.OldIndex()] + NewSide(hunk.lines)
  {
    hide OldSide, NewSide, End, LastOldEnd, Drift;
    newOutput, newIndex := output, sourceIndex;
    if hunk.oldStart < 0 || hunk.newStart < 0 || (hunk.oldStart == 0 && hunk.oldCount != 0)
       || (hunk.newStart == 0 && hunk.newCount != 0) {
      return newOutput, newIndex, Err(ZeroLineNumber);
    }
    var hunkIndex := hunk.oldStart - 1;
    if hunk.oldCount == 0 {
      hunkIndex := hunk.oldStart;
    }
    if hunkIndex < sourceIndex || hunk.oldStart < lastOldEnd || hunkIndex > |source| {
      return newOutput, newIndex, Err(Misplaced);
    }
    newOutput := output + source[sourceIndex..hunkIndex];
    var expectedNewStart := |newOutput| + 1;
    if hunk.newCount == 0 {
      expectedNewStart := |newOutput|;
    }
    if hunk.newStart != expectedNewStart {
      return newOutput, newIndex, Err(WrongNewStart(expectedNewStart));
    }
    var body;
    assert Placed(source, before, hunk) && hunk.NewIndex() == hunk.OldIndex() + Drift(before) && hunkIndex == hunk.OldIndex();
    hide Placed;
    newIndex, body, failure := WalkBody(source, hunkIndex, hunk.lines);
    newOutput := newOutput + body;
  }

  /** Apply the hunks in order; `at` is the one that was refused. */
  method ApplyPatchHunks(content: string, hunks: seq<Hunk>) returns (result: Result<string, ApplyError>, ghost at: nat)
    ensures result.Ok? ==> Apply(content, hunks) == Accepted(result.value)
    ensures result.Err? ==> Apply(content, hunks) == Rejected
    ensures result.Err? ==> at < |hunks| && Fits(Split(content), hunks[..at])
                            && Explains(Split(content), hunks[..at], hunks[at], result.error)
  {
    var source := Split(content);
    var output, sourceIndex, lastOldEnd := [], 0, 0;
    for index := 0 to |hunks|
      invariant Fits(source, hunks[..index])
      invariant output == Produced(source, hunks[..index])
      invariant 0 <= sourceIndex == End(hunks[..index]) <= |source| && lastOldEnd == LastOldEnd(hunks[..index])
    {
      ghost var before := hunks[..index];
      var newOutput, newIndex, failure := ApplyHunk(source, hunks[index], output, sourceIndex, lastOldEnd, before);
      if failure.Err? {
        RefusedHunk(source, hunks, index);
        return Err(failure.error), index;
      }
      AcceptedHunk(source, hunks, index);
      FitsBounds(source, hunks[..index + 1]);
      output, sourceIndex, lastOldEnd := newOutput, newIndex, hunks[index].oldStart + hunks[index].oldCount;
    }
    assert hunks[..|hunks|] == hunks;
    return Ok(Join(output + source[sourceIndex..])), |hunks|;
  }

  // ----- taking a patch back

  function ReversedLine(line: PatchLine): (r: PatchLine)
    ensures |r| == |line| && r[1..] == line[1..]
  {
    if line[0] == '-' then ['+'] + line[1..] else if line[0] == '+' then ['-'] + line[1..] else line
  }

  /** The same hunk read the other way: sides, starts and counts swapped. */
  function Reversed(hunk: Hunk): Hunk {
    Hunk(hunk.newStart, hunk.newCount, hunk.oldStart, hunk.oldCount,
         seq(|hunk.lines|, k requires 0 <= k < |hunk.lines| => ReversedLine(hunk.lines[k])))
  }

  function ReversedAll(hunks: seq<Hunk>): seq<Hunk> {
    seq(|hunks|, k requires 0 <= k < |hunks| => Reversed(hunks[k]))
  }

  lemma {:induction false} SidesSwap(lines: seq<PatchLine>, reversed: seq<PatchLine>)
    requires |reversed| == |lines| && forall k | 0 <= k < |lines| :: reversed[k] == ReversedLine(lines[k])
    ensures OldSide(reversed) == NewSide(lines) && NewSide(reversed) == OldSide(lines)
  {
    if lines != [] {
      SidesSwap(lines[..|lines| - 1], reversed[..|lines| - 1]);
    }
  }

  lemma ReversedSides(hunk: Hunk)
    ensures OldSide(Reversed(hunk).lines) == NewSide(hunk.lines)
    ensures NewSide(Reversed(hunk).lines) == OldSide(hunk.lines)
  {
    SidesSwap(hunk.lines, Reversed(hunk).lines);
  }

  ghost predicate AllWellFormed(hunks: seq<Hunk>) {
    forall k | 0 <= k < |hunks| :: hunks[k].WellFormed()
  }

  /** The reversed list starts no hunk before the stated end of the one before it: the guard of the
      loop, read on the new side. */
  predicate Reversible(hunks: seq<Hunk>) {
    forall k | 0 < k < |hunks| :: hunks[k - 1].newStart + hunks[k - 1].newCount <= hunks[k].newStart
  }

  lemma ReversedEnds(hunks: seq<Hunk>)
    requires hunks != []
    ensures var before, last := hunks[..|hunks| - 1], hunks[|hunks| - 1];
            ReversedAll(hunks)[..|hunks| - 1] == ReversedAll(before) && ReversedAll(hunks)[|hunks| - 1] == Reversed(last)
    ensures var before, last := hunks[..|hunks| - 1], hunks[|hunks| - 1];
            Reversible(hunks) <==> Reversible(before) && (before != [] ==> LastOldEnd(ReversedAll(before)) <= last.newStart)
  {
    var before := hunks[..|hunks| - 1];
    assert forall k | 0 <= k < |before| :: before[k] == hunks[k];
    if before != [] {
      assert ReversedAll(before)[|before| - 1] == Reversed(hunks[|hunks| - 2]);
    }
  }

  /** The hunks in front of the last one, and the last one: how every function here unfolds. */
  lemma Unfolded(source: seq<string>, hunks: seq<Hunk>, before: seq<Hunk>, last: Hunk)
    requires hunks == before + [last]
    ensures Fits(source, hunks) <==> Fits(source, before) && HunkFits(source, before, last)
    ensures End(hunks) == last.OldEnd() && LastOldEnd(hunks) == last.oldStart + last.oldCount
    ensures Drift(hunks) == Drift(before) + |NewSide(last.lines)| - |OldSide(last.lines)|
    ensures Fits(source, hunks) ==>
              && 0 <= End(before) <= last.OldIndex() <= last.OldEnd() <= |source|
              && Produced(source, hunks)
                 == Produced(source, before) + source[End(before)..last.OldIndex()] + NewSide(last.lines)
  {
    assert hunks[..|hunks| - 1] == before;
    if Fits(source, hunks) {
      FitsBounds(source, before);
    }
  }

  lemma Pieces(output: seq<string>, gap: seq<string>, inserted: seq<string>, target: seq<string>)
    requires output + gap + inserted <= target
    ensures target[|output|..|output| + |gap|] == gap
    ensures target[|output| + |gap|..|output| + |gap| + |inserted|] == inserted
  {
    var start := output + gap + inserted;
    assert forall k | 0 <= k < |start| :: target[k] == start[k];
  }

  /** The guards of one hunk over plain numbers and its old side. */
  predicate SideFits(source: seq<string>, end: int, lastOldEnd: int, drift: int,
                     oldStart: int, oldCount: int, newStart: int, newCount: int, side: seq<string>) {
    var oldIndex, newIndex := if oldCount == 0 then oldStart else oldStart - 1, if newCount == 0 then newStart else newStart - 1;
    && 0 <= oldStart && 0 <= newStart && (oldStart == 0 ==> oldCount == 0) && (newStart == 0 ==> newCount == 0)
    && end <= oldIndex <= |source| && lastOldEnd <= oldStart
    && newIndex == oldIndex + drift
    && oldIndex + |side| <= |source| && source[oldIndex..oldIndex + |side|] == side
  }

  lemma HunkFitsBySide(source: seq<string>, before: seq<Hunk>, hunk: Hunk, side: seq<string>)
    requires side == OldSide(hunk.lines)
    ensures HunkFits(source, before, hunk)
       <==> SideFits(source, End(before), LastOldEnd(before), Drift(before),
                     hunk.oldStart, hunk.oldCount, hunk.newStart, hunk.newCount, side)
  {
  }

  /** Swapping the sides of a fitting hunk, on a text that starts as the output does. */
  lemma SwappedSideFits(source: seq<string>, end: nat, lastOldEnd: int, drift: int,
                        oldStart: int, newStart: int, side: seq<string>, newSide: seq<string>,
                        output: seq<string>, target: seq<string>, lastNewEnd: int)
    requires SideFits(source, end, lastOldEnd, drift, oldStart, |side|, newStart, |newSide|, side)
    requires |output| == end + drift
    requires var oldIndex := if |side| == 0 then oldStart else oldStart - 1;
             output + source[end..oldIndex] + newSide <= target
    ensures SideFits(target, |output|, lastNewEnd, -drift, newStart, |newSide|, oldStart, |side|, newSide)
       <==> lastNewEnd <= newStart
  {
    Pieces(output, source[end..if |side| == 0 then oldStart else oldStart - 1], newSide, target);
  }

  /** One accepted hunk, read the other way on a text that starts as the output does. */
  lemma HunkReverses(source: seq<string>, before: seq<Hunk>, hunk: Hunk, output: seq<string>,
                     target: seq<string>, reversedBefore: seq<Hunk>)
    requires HunkFits(source, before, hunk) && hunk.WellFormed() && 0 <= End(before)
    requires |output| == End(before) + Drift(before)
    requires End(reversedBefore) == |output| && Drift(reversedBefore) == -Drift(before)
    requires output + source[End(before)..hunk.OldIndex()] + NewSide(hunk.lines) <= target
    ensures HunkFits(target, reversedBefore, Reversed(hunk)) <==> LastOldEnd(reversedBefore) <= hunk.newStart
    ensures Reversed(hunk).OldIndex() == hunk.NewIndex() && Reversed(hunk).OldEnd() == hunk.NewIndex() + |NewSide(hunk.lines)|
  {
    var side, newSide := OldSide(hunk.lines), NewSide(hunk.lines);
    ReversedSides(hunk);
    HunkFitsBySide(source, before, hunk, side);
    HunkFitsBySide(target, reversedBefore, Reversed(hunk), newSide);
    SwappedSideFits(source, End(before), LastOldEnd(before), Drift(before), hunk.oldStart, hunk.newStart, side, newSide,
                    output, target, LastOldEnd(reversedBefore));
  }

  /** The gap and the old side it writes back. */
  lemma HunkWritesBack(source: seq<string>, from: nat, hunk: Hunk, output: seq<string>, target: seq<string>)
    requires from <= hunk.OldIndex() && Matches(source, hunk) && hunk.NewIndex() == |output| + hunk.OldIndex() - from
    requires output + source[from..hunk.OldIndex()] + NewSide(hunk.lines) <= target
    ensures source[..from] + target[|output|..hunk.NewIndex()] + OldSide(hunk.lines) == source[..hunk.OldEnd()]
  {
    Pieces(output, source[from..hunk.OldIndex()], NewSide(hunk.lines), target);
    assert source[..hunk.OldEnd()]
        == source[..from] + source[from..hunk.OldIndex()] + source[hunk.OldIndex()..hunk.OldEnd()];
  }

  /** One more hunk, on both sides. */
  lemma ReversedStep(source: seq<string>, before: seq<Hunk>, last: Hunk, target: seq<string>, reversedBefore: seq<Hunk>)
    requires Fits(source, before + [last]) && last.WellFormed() && Produced(source, before + [last]) <= target
    requires End(reversedBefore) == End(before) + Drift(before) && Drift(reversedBefore) == -Drift(before)
    requires 0 <= End(before) <= |source|
    requires Fits(target, reversedBefore) ==> Produced(target, reversedBefore) == source[..End(before)]
    ensures var reversed := reversedBefore + [Reversed(last)];
            && (Fits(target, reversed) <==> Fits(target, reversedBefore) && LastOldEnd(reversedBefore) <= last.newStart)
            && End(reversed) == last.OldEnd() + Drift(before + [last]) && Drift(reversed) == -Drift(before + [last])
            && 0 <= last.OldEnd() <= |source|
            && (Fits(target, reversed) ==> Produced(target, reversed) == source[..last.OldEnd()])
  {
    Unfolded(source, before + [last], before, last);
    var output := Produced(source, before);
    HunkReverses(source, before, last, output, target, reversedBefore);
    HunkWritesBack(source, End(before), last, output, target);
    ReversedSides(last);
    Unfolded(target, reversedBefore + [Reversed(last)], reversedBefore, Reversed(last));
  }

  // ----- what the patched text holds, position by position

  lemma {:induction false} ProducedPrefix(source: seq<string>, hunks: seq<Hunk>, count: nat)
    requires Fits(source, hunks) && count <= |hunks|
    ensures Fits(source, hunks[..count]) && Produced(source, hunks[..count]) <= Produced(source, hunks)
  {
    if count == |hunks| {
      assert hunks[..count] == hunks;
    } else {
      var before, last := hunks[..|hunks| - 1], hunks[|hunks| - 1];
      assert hunks == before + [last];
      ProducedGrows(source, before, last);
      ProducedPrefix(source, before, count);
      assert before[..count] == hunks[..count];
    }
  }

  lemma ProducedStarts(source: seq<string>, hunks: seq<Hunk>, count: nat)
    requires Fits(source, hunks) && count <= |hunks|
    ensures Fits(source, hunks[..count]) && Produced(source, hunks[..count]) <= Patched(source, hunks)
  {
    ProducedPrefix(source, hunks, count);
    FitsBounds(source, hunks);
  }

  lemma LastHunkLands(source: seq<string>, before: seq<Hunk>, hunk: Hunk, target: seq<string>)
    requires Fits(source, before + [hunk]) && Produced(source, before + [hunk]) <= target
    ensures LandsAt(source, End(before), hunk, target)
  {
    Unfolded(source, before + [hunk], before, hunk);
    Pieces(Produced(source, before), source[End(before)..hunk.OldIndex()], NewSide(hunk.lines), target);
  }

  /** `target` holds the hunk's new side at the new line number its header states, right after an
      unchanged copy of the source lines since `from`. */
  predicate LandsAt(source: seq<string>, from: int, hunk: Hunk, target: seq<string>) {
    var at, length, gap := hunk.NewIndex(), |NewSide(hunk.lines)|, hunk.OldIndex() - from;
    && 0 <= from <= hunk.OldIndex() <= |source| && 0 <= gap <= at && at + length <= |target|
    && target[at..at + length] == NewSide(hunk.lines)
    && target[at - gap..at] == source[from..hunk.OldIndex()]
  }

  /** Every accepted hunk lands where its header says, after a copy of the lines since the hunk before. */
  lemma HunkLandsWhereItSays(source: seq<string>, hunks: seq<Hunk>, k: nat)
    requires Fits(source, hunks) && k < |hunks|
    ensures LandsAt(source, End(hunks[..k]), hunks[k], Patched(source, hunks))
  {
    ProducedStarts(source, hunks, k + 1);
    assert hunks[..k + 1] == hunks[..k] + [hunks[k]];
    LastHunkLands(source, hunks[..k], hunks[k], Patched(source, hunks));
  }

  /** When the reversed hunks fit any text that starts as the output does, and what they make of it:
      the original, hunk by hunk. */
  lemma {:induction false} ReversedPrefix(source: seq<string>, hunks: seq<Hunk>, target: seq<string>)
    requires Fits(source, hunks) && AllWellFormed(hunks) && Produced(source, hunks) <= target
    ensures Fits(target, ReversedAll(hunks)) <==> Reversible(hunks)
    ensures End(ReversedAll(hunks)) == End(hunks) + Drift(hunks) && Drift(ReversedAll(hunks)) == -Drift(hunks)
    ensures 0 <= End(hunks) <= |source|
    ensures Fits(target, ReversedAll(hunks)) ==> Produced(target, ReversedAll(hunks)) == source[..End(hunks)]
  {
    if hunks != [] {
      var before, last := hunks[..|hunks| - 1], hunks[|hunks| - 1];
      assert hunks == before + [last];
      assert forall k | 0 <= k < |before| :: before[k] == hunks[k];
      ProducedGrows(source, before, last);
      ReversedPrefix(source, before, target);
      ReversedEnds(hunks);
      assert ReversedAll(hunks) == ReversedAll(before) + [Reversed(last)];
      ReversedStep(source, before, last, target, ReversedAll(before));
    }
  }

  lemma ProducedGrows(source: seq<string>, before: seq<Hunk>, last: Hunk)
    requires Fits(source, before + [last])
    ensures Fits(source, before) && Produced(source, before) <= Produced(source, before + [last])
  {
    Unfolded(source, before + [last], before, last);
  }

  lemma {:induction false} ProducedLines(source: seq<string>, hunks: seq<Hunk>)
    requires Fits(source, hunks) && AllWellFormed(hunks) && Lines(source)
    ensures Lines(Produced(source, hunks))
  {
    if hunks != [] {
      var before, last := hunks[..|hunks| - 1], hunks[|hunks| - 1];
      assert hunks == before + [last];
      Unfolded(source, hunks, before, last);
      assert forall k | 0 <= k < |before| :: before[k] == hunks[k];
      ProducedLines(source, before);
      SideLines(last.lines);
    }
  }

  lemma {:induction false} SideLines(lines: seq<PatchLine>)
    requires Lines(lines)
    ensures Lines(NewSide(lines))
  {
    if lines != [] {
      SideLines(lines[..|lines| - 1]);
    }
  }

  lemma ReversedWellFormed(hunks: seq<Hunk>)
    requires AllWellFormed(hunks)
    ensures AllWellFormed(ReversedAll(hunks))
  {
    forall k | 0 <= k < |hunks|
      ensures Reversed(hunks[k]).WellFormed()
    {
      ReversedSides(hunks[k]);
      var lines, reversed := hunks[k].lines, Reversed(hunks[k]).lines;
      forall i | 0 <= i < |lines|
        ensures OneLine(reversed[i])
      {
        assert OneLine(lines[i]);
      }
    }
  }

  /** A line is left after the patch. Only a text without a final newline can lose its last line. */
  predicate LeavesALine(content: string, hunks: seq<Hunk>) {
    0 < |Split(content)| + Drift(hunks)
  }

  /** With no line left the empty text is read back as one empty line, which then stays at the end. */
  lemma TakingBackFromNothing(content: string, hunks: seq<Hunk>, patched: string)
    requires AllWellFormed(hunks) && Apply(content, hunks) == Accepted(patched)
    requires Patched(Split(content), hunks) == []
    ensures Apply(patched, ReversedAll(hunks)) != Accepted(content)
  {
    var source := Split(content);
    FitsBounds(source, hunks);
    ReversedPrefix(source, hunks, []);
    if Fits(Split(patched), ReversedAll(hunks)) {
      var back := Patched(Split(patched), ReversedAll(hunks));
      assert |back| == |source| + 1;
      ReversedWellFormed(hunks);
      ProducedLines(Split(patched), ReversedAll(hunks));
      FitsBounds(Split(patched), ReversedAll(hunks));
      SplitOfJoin(back);
    }
  }

  lemma TakingBackFromSomething(source: seq<string>, hunks: seq<Hunk>)
    requires AllWellFormed(hunks) && Fits(source, hunks)
    ensures Fits(Patched(source, hunks), ReversedAll(hunks)) <==> Reversible(hunks)
    ensures Reversible(hunks) ==> Patched(Patched(source, hunks), ReversedAll(hunks)) == source
  {
    var target, output := Patched(source, hunks), Produced(source, hunks);
    FitsBounds(source, hunks);
    assert output <= target;
    ReversedPrefix(source, hunks, target);
    if Reversible(hunks) {
      var end := End(hunks);
      assert target[|output|..] == source[end..];
      assert source == source[..end] + source[end..];
    }
  }

  lemma PatchedLines(source: seq<string>, hunks: seq<Hunk>)
    requires Fits(source, hunks) && AllWellFormed(hunks) && Lines(source)
    ensures Lines(Patched(source, hunks))
  {
    FitsBounds(source, hunks);
    ProducedLines(source, hunks);
  }

  /** Taking back an accepted patch restores the text exactly when the reversed list keeps the order
      guard and the patch left at least one line. */
  lemma TakingBackRestores(content: string, hunks: seq<Hunk>, patched: string)
    requires AllWellFormed(hunks) && Apply(content, hunks) == Accepted(patched)
    ensures Apply(patched, ReversedAll(hunks)) == Accepted(content) <==> Reversible(hunks) && LeavesALine(content, hunks)
  {
    var source := Split(content);
    var target := Patched(source, hunks);
    if target == [] {
      TakingBackFromNothing(content, hunks, patched);
    } else {
      PatchedLines(source, hunks);
      SplitOfJoin(target);
      TakingBackFromSomething(source, hunks);
      JoinOfSplit(content);
    }
  }

  /** An unchanged line between two hunks keeps the second from starting before the end of the first. */
  lemma GapKeepsOrder(source: seq<string>, before: seq<Hunk>, previous: Hunk, last: Hunk)
    requires HunkFits(source, before, previous) && HunkFits(source, before + [previous], last)
    requires previous.WellFormed() && last.WellFormed() && previous.OldEnd() < last.OldIndex()
    ensures previous.newStart + previous.newCount <= last.newStart
  {
    Unfolded(source, before + [previous], before, previous);
  }

  lemma FitsAt(source: seq<string>, hunks: seq<Hunk>, k: nat)
    requires Fits(source, hunks) && k < |hunks|
    ensures HunkFits(source, hunks[..k], hunks[k])
  {
    FitsPrefix(source, hunks, k + 1);
    assert hunks[..k + 1] == hunks[..k] + [hunks[k]];
    Unfolded(source, hunks[..k + 1], hunks[..k], hunks[k]);
  }

  /** An unchanged line between consecutive hunks is enough for the order guard. */
  lemma GapsMakeReversible(source: seq<string>, hunks: seq<Hunk>)
    requires Fits(source, hunks) && AllWellFormed(hunks)
    requires forall k | 0 < k < |hunks| :: hunks[k - 1].OldEnd() < hunks[k].OldIndex()
    ensures Reversible(hunks)
  {
    forall k | 0 < k < |hunks|
      ensures hunks[k - 1].newStart + hunks[k - 1].newCount <= hunks[k].newStart
    {
      FitsAt(source, hunks, k - 1);
      FitsAt(source, hunks, k);
      assert hunks[..k] == hunks[..k - 1] + [hunks[k - 1]];
      GapKeepsOrder(source, hunks[..k - 1], hunks[k - 1], hunks[k]);
    }
  }

  // ----- two patches that cannot be taken back

  lemma SidesOfOne(line: PatchLine)
    ensures OldSide([line]) == if line[0] in {' ', '-'} then [line[1..]] else []
    ensures NewSide([line]) == if line[0] in {' ', '+'} then [line[1..]] else []
  {
    assert [line][..0] == [];
  }

  /** Deleting the only line of a text without a final newline leaves no line at all, ... */
  lemma OnlyLineDeleted(x: string, there: Hunk)
    requires there == Hunk(1, 1, 0, 0, [['-'] + x])
    ensures Fits([x], [there]) && Patched([x], [there]) == []
  {
    SidesOfOne(['-'] + x);
    assert [x][0..1] == [x];
    HunkFitsBySide([x], [], there, [x]);
    Unfolded([x], [there], [], there);
  }

  /** ... and since the empty text is read back as one empty line, that line stays at the end. */
  lemma OnlyLineWrittenBack(x: string, back: Hunk, nothing: string)
    requires back == Hunk(0, 0, 1, 1, [['+'] + x]) && nothing == []
    ensures Fits([nothing], [back]) && Patched([nothing], [back]) == [x, nothing]
  {
    SidesOfOne(['+'] + x);
    HunkFitsBySide([nothing], [], back, []);
    Unfolded([nothing], [back], [], back);
  }

  lemma LastLineIsNotRestored(x: string, there: Hunk, empty: string)
    requires OneLine(x) && there == Hunk(1, 1, 0, 0, [['-'] + x]) && empty == []
    ensures Apply(x, [there]) == Accepted(empty)
    ensures Apply(empty, ReversedAll([there])) == Accepted(x + ['\n'])
  {
    var back := Hunk(0, 0, 1, 1, [['+'] + x]);
    SplitOfLine(x);
    SplitOfLine(empty);
    OnlyLineDeleted(x, there);
    OnlyLineWrittenBack(x, back, empty);
    assert (['-'] + x)[1..] == x;
    assert ReversedLine(['-'] + x) == ['+'] + x;
    assert Reversed(there).lines == back.lines;
    assert ReversedAll([there]) == [back];
    assert Join([x, empty]) == x + ['\n'];
  }

  /** Where some line is left, the reversed hunks are refused exactly when a new start lies inside the new side
      of the hunk before it. */
  lemma TakingBackIsRefused(content: string, hunks: seq<Hunk>, patched: string)
    requires AllWellFormed(hunks) && Apply(content, hunks) == Accepted(patched) && LeavesALine(content, hunks)
    ensures Apply(patched, ReversedAll(hunks)) == Rejected <==> !Reversible(hunks)
  {
    var source := Split(content);
    PatchedLines(source, hunks);
    SplitOfJoin(Patched(source, hunks));
    assert Split(patched) == Patched(source, hunks);
    TakingBackFromSomething(source, hunks);
  }

  lemma AdjacentHunks(hunks: seq<Hunk>)
    requires hunks == [Hunk(1, 1, 1, 1, [" a"]), Hunk(2, 1, 1, 0, ["-b"])]
    ensures AllWellFormed(hunks) && !Reversible(hunks)
  {
    SidesOfOne(" a");
    SidesOfOne("-b");
    assert !Reversible(hunks) by {
      assert hunks[0].newStart + hunks[0].newCount > hunks[1].newStart;
    }
  }

  /** A hunk that only deletes, right after one that leaves lines ... */
  lemma AdjacentDeletion(source: seq<string>, hunks: seq<Hunk>)
    requires source == ["a", "b", "c"] && hunks == [Hunk(1, 1, 1, 1, [" a"]), Hunk(2, 1, 1, 0, ["-b"])]
    ensures Fits(source, hunks) && Patched(source, hunks) == ["a", "c"]
  {
    var first, second := hunks[0], hunks[1];
    SidesOfOne(" a");
    SidesOfOne("-b");
    assert source[0..1] == ["a"] && source[1..2] == ["b"];
    HunkFitsBySide(source, [], first, ["a"]);
    Unfolded(source, [first], [], first);
    HunkFitsBySide(source, [first], second, ["b"]);
    assert hunks == [first] + [second];
    Unfolded(source, hunks, [first], second);
    assert source[2..] == ["c"];
  }

  /** ... is accepted, and refused when it is to be taken back. */
  lemma AdjacentDeletionIsNotReversible(hunks: seq<Hunk>)
    requires hunks == [Hunk(1, 1, 1, 1, [" a"]), Hunk(2, 1, 1, 0, ["-b"])]
    ensures Apply(Join(["a", "b", "c"]), hunks) == Accepted(Join(["a", "c"]))
    ensures Apply(Join(["a", "c"]), ReversedAll(hunks)) == Rejected
  {
    var source := ["a", "b", "c"];
    AdjacentDeletion(source, hunks);
    AdjacentHunks(hunks);
    SplitOfJoin(source);
    hide Fits, Patched, AllWellFormed, Reversible, Join, Split, ReversedAll;
    TakingBackIsRefused(Join(source), hunks, Join(["a", "c"]));
  }
}
