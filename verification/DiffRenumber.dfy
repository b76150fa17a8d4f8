/** Renumbering a printed diff, filetoolsserver/handler/edit_file.go: moving the line numbers in the text
    is moving them in the parsed hunks.
 */
module DiffRenumber {
  import opened Basics
  import opened Text
  import opened Wrappers
  import opened PatchApply
  import opened PatchShift
  import opened PatchGrammar
  import opened PatchParse
  import WindowDiff

  // ----- one header line

  /** Where ` +` first occurs, or -1. */
  function PlusIndex(s: string): (at: int)
    ensures -1 <= at < |s|
    ensures at >= 0 ==> at + 2 <= |s| && s[at] == ' ' && s[at + 1] == '+'
    ensures forall k | 0 <= k < |s| - 1 && (at < 0 || k < at) :: !(s[k] == ' ' && s[k + 1] == '+')
  {
    if |s| < 2 then -1
    else if s[0] == ' ' && s[1] == '+' then 0
    else
      var rest := PlusIndex(s[1..]);
      assert forall k | 1 <= k < |s| :: s[k] == s[1..][k - 1];
      if rest < 0 then -1 else rest + 1
  }

  predicate IsHunkHeader(line: string) {
    "@@ -" <= line
  }

  /** A header line cut at its two line numbers. */
  datatype Pieces = Pieces(oldDigits: string, between: string, newDigits: string, tail: string)

  /** The second half of the cut: what follows the old number. */
  function CutRest(oldDigits: string, u: string): Option<Pieces> {
    var plus := PlusIndex(u);
    if plus < 0 then None
    else
      var t := u[plus + 2..];
      var m := DigitsLength(t);
      if m == 0 then None else Some(Pieces(oldDigits, u[..plus + 2], t[..m], t[m..]))
  }

  function Cut(line: string): Option<Pieces> {
    if !IsHunkHeader(line) then None
    else
      var s := line[4..];
      var n := DigitsLength(s);
      if n == 0 then None else CutRest(s[..n], s[n..])
  }

  /** The header with both line numbers moved; everything else is copied. */
  function AdjustHeader(line: string, oldOffset: nat, newOffset: nat): Option<string> {
    match Cut(line)
    case None => None
    case Some(p) => Some("@@ -" + (Itoa(Number(p.oldDigits) + oldOffset)
                                   + (p.between + (Itoa(Number(p.newDigits) + newOffset) + p.tail))))
  }

  /** The number a digit string stands for. */
  function Number(digits: string): nat {
    if Value(digits) < 0 then 0 else Value(digits)
  }

  lemma {:induction false} ValueIsNatural(digits: string)
    requires forall k | 0 <= k < |digits| :: IsDigit(digits[k])
    ensures Value(digits) >= 0
  {
    if digits != [] {
      ValueIsNatural(digits[..|digits| - 1]);
    }
  }

  /** The digit loop: the value so far and where the digits end. */
  method ParseLineNumber(line: string, start: int) returns (value: int, end: int, ok: bool)
    ensures ok <==> 0 <= start < |line| && IsDigit(line[start])
    ensures 0 <= start <= |line| ==> (ok <==> DigitsLength(line[start..]) > 0)
    ensures ok ==> 0 <= start < end <= |line| && end - start == DigitsLength(line[start..])
                   && value == Value(line[start..end]) && value == Number(line[start..end])
  {
    if start < 0 || start >= |line| || !IsDigit(line[start]) {
      return 0, start, false;
    }
    value, end := 0, start;
    while end < |line| && IsDigit(line[end])
      invariant start <= end <= |line| && value == Value(line[start..end])
      invariant forall k | start <= k < end :: IsDigit(line[k])
      invariant end == start ==> end < |line| && IsDigit(line[end])
    {
      assert line[start..end + 1][..end - start] == line[start..end];
      value := value * 10 + (line[end] as int - '0' as int);
      end := end + 1;
    }
    ValueIsNatural(line[start..end]);
    DigitsLengthOf(line[start..end], line[end..]);
    assert line[start..] == line[start..end] + line[end..];
    ok := true;
  }

  lemma SliceOfSlice(line: string, from: nat, to: nat)
    requires from <= to <= |line|
    ensures line[from..][..to - from] == line[from..to] && line[from..][to - from..] == line[to..]
  {
  }

  method AdjustHunkHeader(line: string, oldOffset: nat, newOffset: nat) returns (adjusted: Option<string>)
    ensures adjusted == AdjustHeader(line, oldOffset, newOffset)
  {
    NeverCut(line);
    hide DigitsLength, Value, Itoa, PlusIndex, Cut;
    if !IsHunkHeader(line) {
      return None;
    }
    var oldStart, oldEnd, ok := ParseLineNumber(line, 4);
    if !ok {
      return None;
    }
    CutsAt(line, oldEnd);
    var plusRelative := PlusIndex(line[oldEnd..]);
    if plusRelative < 0 {
      return None;
    }
    var newNumberAt := oldEnd + plusRelative + 2;
    var newStart, newEnd, more := ParseLineNumber(line, newNumberAt);
    CutRestAt(line[4..oldEnd], line, oldEnd, newNumberAt, newEnd);
    if !more {
      return None;
    }
    return Some("@@ -" + (Itoa(oldStart + oldOffset)
                          + (line[oldEnd..newNumberAt] + (Itoa(newStart + newOffset) + line[newEnd..]))));
  }

  lemma NeverCut(line: string)
    ensures !IsHunkHeader(line) || DigitsLength(line[4..]) == 0 ==> Cut(line) == None
  {
  }

  lemma CutsAt(line: string, oldEnd: nat)
    requires IsHunkHeader(line) && 4 < oldEnd <= |line| && oldEnd - 4 == DigitsLength(line[4..])
    ensures Cut(line) == CutRest(line[4..oldEnd], line[oldEnd..])
  {
    hide CutRest;
    SliceOfSlice(line, 4, oldEnd);
  }

  lemma CutRestAt(oldDigits: string, line: string, oldEnd: nat, newNumberAt: nat, newEnd: int)
    requires oldEnd <= |line| && PlusIndex(line[oldEnd..]) == newNumberAt - oldEnd - 2 && newNumberAt >= oldEnd + 2
    ensures newNumberAt <= |line|
    ensures DigitsLength(line[newNumberAt..]) == 0 ==> CutRest(oldDigits, line[oldEnd..]) == None
    ensures 0 < DigitsLength(line[newNumberAt..]) == newEnd - newNumberAt ==>
              CutRest(oldDigits, line[oldEnd..])
              == Some(Pieces(oldDigits, line[oldEnd..newNumberAt], line[newNumberAt..newEnd], line[newEnd..]))
  {
    hide DigitsLength, PlusIndex;
    SliceOfSlice(line, oldEnd, newNumberAt);
    if 0 < DigitsLength(line[newNumberAt..]) == newEnd - newNumberAt {
      SliceOfSlice(line, newNumberAt, newEnd);
    }
  }

  // ----- the whole diff

  function AdjustLine(line: string, oldOffset: nat, newOffset: nat): Option<string> {
    if IsHunkHeader(line) then AdjustHeader(line, oldOffset, newOffset) else Some(line)
  }

  function AdjustLines(lines: seq<string>, oldOffset: nat, newOffset: nat): (adjusted: Option<seq<string>>)
    ensures adjusted.Some? ==> |adjusted.value| == |lines|
  {
    if lines == [] then Some([])
    else
      match (AdjustLine(lines[0], oldOffset, newOffset), AdjustLines(lines[1..], oldOffset, newOffset))
      case (Some(line), Some(rest)) => Some([line] + rest)
      case _ => None
  }

  /** Line by line. */
  function AdjustText(text: string, oldOffset: nat, newOffset: nat): Option<string> {
    var lines := AdjustLines(Split(text), oldOffset, newOffset);
    if lines.Some? then Some(Join(lines.value)) else None
  }

  function AdjustDiff(diff: string, oldOffset: nat, newOffset: nat): Option<string> {
    if diff == [] || (oldOffset == 0 && newOffset == 0) then Some(diff) else AdjustText(diff, oldOffset, newOffset)
  }

  function After(output: string, more: Option<string>): Option<string> {
    if more.Some? then Some(output + more.value) else None
  }

  lemma AdjustEndedLine(line: string, rest: string, oldOffset: nat, newOffset: nat)
    requires OneLine(line)
    ensures AdjustText(line + ['\n'] + rest, oldOffset, newOffset)
         == var adjusted := AdjustLine(line, oldOffset, newOffset);
            if adjusted.None? then None else After(adjusted.value + ['\n'], AdjustText(rest, oldOffset, newOffset))
  {
    SplitAfterNewline(line, rest);
    var lines := [line] + Split(rest);
    assert lines[1..] == Split(rest);
  }

  lemma AdjustLastLine(line: string, oldOffset: nat, newOffset: nat)
    requires OneLine(line)
    ensures AdjustText(line, oldOffset, newOffset) == AdjustLine(line, oldOffset, newOffset)
  {
    SplitOfLine(line);
    assert [line][1..] == [];
    var adjusted := AdjustLine(line, oldOffset, newOffset);
    if adjusted.Some? {
      assert AdjustLines([line], oldOffset, newOffset) == Some([adjusted.value] + []);
      assert [adjusted.value] + [] == [adjusted.value];
    }
  }

  /** The loop over the diff's lines. */
  method AdjustDiffOffsets(diff: string, oldOffset: nat, newOffset: nat) returns (adjusted: Option<string>)
    ensures adjusted == AdjustDiff(diff, oldOffset, newOffset)
  {
    if diff == [] || (oldOffset == 0 && newOffset == 0) {
      return Some(diff);
    }
    var output, start := [], 0;
    ghost var goal := AdjustText(diff, oldOffset, newOffset);
    assert diff[0..] == diff && (goal.Some? ==> [] + goal.value == goal.value);
    while start < |diff|
      invariant start <= |diff|
      invariant goal == After(output, AdjustText(diff[start..], oldOffset, newOffset))
    {
      var written, next := AdjustNextLine(diff, start, oldOffset, newOffset);
      if written.None? {
        return None;
      }
      AfterTwice(output, written.value, AdjustText(diff[next..], oldOffset, newOffset));
      output := output + written.value;
      start := next;
    }
    AdjustLastLine([], oldOffset, newOffset);
    assert output + [] == output;
    return Some(output);
  }

  lemma AfterTwice(output: string, line: string, more: Option<string>)
    ensures After(output, After(line, more)) == After(output + line, more)
  {
    if more.Some? {
      assert output + (line + more.value) == output + line + more.value;
    }
  }

  /** One line of the diff with its newline, adjusted. */
  method AdjustNextLine(diff: string, start: nat, oldOffset: nat, newOffset: nat)
    returns (written: Option<string>, next: nat)
    requires start < |diff|
    ensures start < next <= |diff|
    ensures AdjustText(diff[start..], oldOffset, newOffset)
         == if written.None? then None else After(written.value, AdjustText(diff[next..], oldOffset, newOffset))
  {
    hide AdjustHeader, AdjustText;
    var lineEnd := WindowDiff.FirstNewline(diff[start..]);
    var hasNewline := lineEnd >= 0;
    lineEnd := if hasNewline then lineEnd + start else |diff|;
    var line := diff[start..lineEnd];
    assert forall k | start <= k < lineEnd :: diff[k] == diff[start..][k - start];
    assert OneLine(line);
    written := Some(line);
    if IsHunkHeader(line) {
      written := AdjustHunkHeader(line, oldOffset, newOffset);
    }
    next := lineEnd;
    if hasNewline {
      next := lineEnd + 1;
      assert diff[start..] == line + ['\n'] + diff[next..];
      AdjustEndedLine(line, diff[next..], oldOffset, newOffset);
      written := if written.None? then None else Some(written.value + ['\n']);
    } else {
      assert diff[start..] == line && diff[next..] == [];
      AdjustLastLine(line, oldOffset, newOffset);
      AdjustLastLine([], oldOffset, newOffset);
      assert written.Some? ==> written.value + [] == written.value;
    }
  }
}
