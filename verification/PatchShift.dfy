/** Moving a patch to a larger text: the hunks of a window of lines, renumbered, patch the whole. */
module PatchShift {
  import opened Text
  import opened PatchApply

  function Shifted(hunk: Hunk, oldOffset: int, newOffset: int): Hunk {
    hunk.(oldStart := hunk.oldStart + oldOffset, newStart := hunk.newStart + newOffset)
  }

  /** The hunks with their line numbers moved. */
  function ShiftedAll(hunks: seq<Hunk>, oldOffset: int, newOffset: int): seq<Hunk> {
    seq(|hunks|, k requires 0 <= k < |hunks| => Shifted(hunks[k], oldOffset, newOffset))
  }

  lemma InnerSlice(pre: seq<string>, source: seq<string>, post: seq<string>, from: nat, to: nat)
    requires from <= to <= |source|
    ensures |pre| + to <= |pre + source + post| && (pre + source + post)[|pre| + from..|pre| + to] == source[from..to]
  {
  }

  /** A side that fits a stretch of lines fits it, moved, inside a larger text. */
  lemma ShiftedSideFits(pre: seq<string>, source: seq<string>, post: seq<string>, end: nat, lastOldEnd: int, drift: int,
                        hunk: Hunk, side: seq<string>, movedEnd: int, movedLast: int)
    requires SideFits(source, end, lastOldEnd, drift, hunk.oldStart, hunk.oldCount, hunk.newStart, hunk.newCount, side)
    requires movedEnd <= |pre| + end && movedLast <= |pre| + lastOldEnd
    ensures SideFits(pre + source + post, movedEnd, movedLast, drift,
                     hunk.oldStart + |pre|, hunk.oldCount, hunk.newStart + |pre|, hunk.newCount, side)
  {
    InnerSlice(pre, source, post, hunk.OldIndex(), hunk.OldIndex() + |side|);
  }

  /** A hunk that fits a stretch of lines fits it, moved, inside a larger text. */
  lemma ShiftedHunkFits(pre: seq<string>, source: seq<string>, post: seq<string>,
                        before: seq<Hunk>, hunk: Hunk, shiftedBefore: seq<Hunk>)
    requires HunkFits(source, before, hunk) && 0 <= End(before)
    requires End(shiftedBefore) <= |pre| + End(before) && LastOldEnd(shiftedBefore) <= |pre| + LastOldEnd(before)
    requires Drift(shiftedBefore) == Drift(before)
    ensures HunkFits(pre + source + post, shiftedBefore, Shifted(hunk, |pre|, |pre|))
  {
    var side := OldSide(hunk.lines);
    HunkFitsBySide(source, before, hunk, side);
    ShiftedSideFits(pre, source, post, End(before), LastOldEnd(before), Drift(before), hunk, side,
                    End(shiftedBefore), LastOldEnd(shiftedBefore));
    HunkFitsBySide(pre + source + post, shiftedBefore, Shifted(hunk, |pre|, |pre|), side);
  }

  lemma Reassembled(pre: seq<string>, source: seq<string>, post: seq<string>, output: seq<string>, from: nat, to: nat,
                    moved: seq<string>, end: nat, inserted: seq<string>)
    requires from <= to <= |source| && end <= |pre| + from
    requires moved + (pre + source + post)[end..|pre| + from] == pre + output
    ensures moved + (pre + source + post)[end..|pre| + to] + inserted == pre + (output + source[from..to] + inserted)
  {
    var whole := pre + source + post;
    assert whole[end..|pre| + to] == whole[end..|pre| + from] + whole[|pre| + from..|pre| + to];
    InnerSlice(pre, source, post, from, to);
    assert moved + (whole[end..|pre| + from] + source[from..to]) == pre + output + source[from..to];
  }

  /** How the moved hunks stand in the larger text after as many hunks as `before`. */
  ghost predicate InStep(pre: seq<string>, source: seq<string>, post: seq<string>, before: seq<Hunk>,
                         moved: seq<Hunk>) {
    && Fits(source, before) && 0 <= End(before) <= |source| && Fits(pre + source + post, moved)
    && Drift(moved) == Drift(before)
    && 0 <= End(moved) <= |pre| + End(before) && LastOldEnd(moved) <= |pre| + LastOldEnd(before)
  }

  /** What both have produced, up to the same line. */
  ghost predicate SameOutput(pre: seq<string>, source: seq<string>, post: seq<string>, before: seq<Hunk>,
                             moved: seq<Hunk>)
    requires InStep(pre, source, post, before, moved)
  {
    Produced(pre + source + post, moved) + (pre + source + post)[End(moved)..|pre| + End(before)]
    == pre + Produced(source, before)
  }

  lemma StepFits(pre: seq<string>, source: seq<string>, post: seq<string>, before: seq<Hunk>, last: Hunk,
                 moved: seq<Hunk>)
    requires Fits(source, before + [last]) && InStep(pre, source, post, before, moved)
    ensures InStep(pre, source, post, before + [last], moved + [Shifted(last, |pre|, |pre|)])
  {
    Unfolded(source, before + [last], before, last);
    ShiftedHunkFits(pre, source, post, before, last, moved);
    Unfolded(pre + source + post, moved + [Shifted(last, |pre|, |pre|)], moved, Shifted(last, |pre|, |pre|));
  }

  lemma StepProduces(pre: seq<string>, source: seq<string>, post: seq<string>, before: seq<Hunk>, last: Hunk,
                     moved: seq<Hunk>)
    requires Fits(source, before + [last]) && InStep(pre, source, post, before, moved)
    requires InStep(pre, source, post, before + [last], moved + [Shifted(last, |pre|, |pre|)])
    requires SameOutput(pre, source, post, before, moved)
    ensures SameOutput(pre, source, post, before + [last], moved + [Shifted(last, |pre|, |pre|)])
  {
    hide OldSide, NewSide;
    var whole, shifted := pre + source + post, Shifted(last, |pre|, |pre|);
    var output, movedOutput, inserted := Produced(source, before), Produced(whole, moved), NewSide(last.lines);
    Unfolded(source, before + [last], before, last);
    var from, to, end, stop := End(before), last.OldIndex(), End(moved), |pre| + last.OldEnd();
    Reassembled(pre, source, post, output, from, to, movedOutput, end, inserted);
    Unfolded(whole, moved + [shifted], moved, shifted);
    assert Produced(whole, moved + [shifted]) == movedOutput + whole[end..|pre| + to] + inserted;
    Nothing(Produced(whole, moved + [shifted]), whole, stop);
  }

  lemma Nothing(output: seq<string>, whole: seq<string>, at: nat)
    requires at <= |whole|
    ensures output + whole[at..at] == output
  {
  }

  lemma {:induction false} ShiftedInStep(pre: seq<string>, source: seq<string>, post: seq<string>, hunks: seq<Hunk>)
    requires Fits(source, hunks)
    ensures InStep(pre, source, post, hunks, ShiftedAll(hunks, |pre|, |pre|))
    ensures SameOutput(pre, source, post, hunks, ShiftedAll(hunks, |pre|, |pre|))
  {
    if hunks == [] {
      assert (pre + source + post)[0..|pre|] == pre;
    } else {
      var before, last := hunks[..|hunks| - 1], hunks[|hunks| - 1];
      assert hunks == before + [last];
      ShiftedInStep(pre, source, post, before);
      assert ShiftedAll(hunks, |pre|, |pre|) == ShiftedAll(before, |pre|, |pre|) + [Shifted(last, |pre|, |pre|)];
      StepFits(pre, source, post, before, last, ShiftedAll(before, |pre|, |pre|));
      StepProduces(pre, source, post, before, last, ShiftedAll(before, |pre|, |pre|));
    }
  }

  /** Hunks that fit a stretch of lines patch it, with moved line numbers, inside a larger text. */
  lemma ShiftedPatches(pre: seq<string>, source: seq<string>, post: seq<string>, hunks: seq<Hunk>)
    requires Fits(source, hunks)
    ensures Fits(pre + source + post, ShiftedAll(hunks, |pre|, |pre|))
    ensures Patched(pre + source + post, ShiftedAll(hunks, |pre|, |pre|)) == pre + Patched(source, hunks) + post
  {
    var whole, moved, end := pre + source + post, ShiftedAll(hunks, |pre|, |pre|), End(hunks);
    ShiftedInStep(pre, source, post, hunks);
    Rest(pre, source, post, Produced(source, hunks), Produced(whole, moved), End(moved), end);
  }

  lemma Rest(pre: seq<string>, source: seq<string>, post: seq<string>, output: seq<string>,
             moved: seq<string>, movedEnd: nat, end: nat)
    requires end <= |source| && movedEnd <= |pre| + end
    requires moved + (pre + source + post)[movedEnd..|pre| + end] == pre + output
    ensures moved + (pre + source + post)[movedEnd..] == pre + (output + source[end..]) + post
  {
    var whole := pre + source + post;
    assert whole[movedEnd..] == whole[movedEnd..|pre| + end] + whole[|pre| + end..];
    assert whole[|pre| + end..] == source[end..] + post;
    assert moved + whole[movedEnd..] == (moved + whole[movedEnd..|pre| + end]) + (source[end..] + post);
  }

  /** Lines that no hunk reaches can be left off. */
  lemma {:induction false} TailUntouched(source: seq<string>, tail: seq<string>, hunks: seq<Hunk>)
    requires Fits(source + tail, hunks) && End(hunks) <= |source|
    ensures Fits(source, hunks) && Produced(source, hunks) == Produced(source + tail, hunks)
  {
    if hunks != [] {
      var before, last := hunks[..|hunks| - 1], hunks[|hunks| - 1];
      assert hunks == before + [last];
      Unfolded(source + tail, hunks, before, last);
      TailUntouched(source, tail, before);
      HunkWithoutTail(source, tail, before, last);
      Unfolded(source, hunks, before, last);
      assert (source + tail)[End(before)..last.OldIndex()] == source[End(before)..last.OldIndex()];
    }
  }

  lemma HunkWithoutTail(source: seq<string>, tail: seq<string>, before: seq<Hunk>, hunk: Hunk)
    requires HunkFits(source + tail, before, hunk) && hunk.OldEnd() <= |source|
    ensures HunkFits(source, before, hunk)
  {
    var side := OldSide(hunk.lines);
    HunkFitsBySide(source + tail, before, hunk, side);
    HunkFitsBySide(source, before, hunk, side);
    assert (source + tail)[hunk.OldIndex()..hunk.OldEnd()] == source[hunk.OldIndex()..hunk.OldEnd()];
  }
}
