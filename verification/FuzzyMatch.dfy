/** The opt-in fuzzy edit of filetoolsserver/handler/edit_fuzzy.go: one unique best window of lines,
    within a fixed comparison budget, is replaced by the new text.
 */
module FuzzyMatch {
  import opened Basics
  import opened EditDistance
  import opened Normalization
  import opened Text
  import opened Wrappers

  const MIN_SIMILARITY: real := 0.5
  const MAX_CANDIDATE_WINDOWS := 10000
  const MAX_RUNES := 4096
  const MAX_WORK_CELLS := 2_000_000
  const TOLERANCE: real := 0.000000000001

  datatype Outcome =
    | BadThreshold
    | NoMatch
    | TooManyWindows
    | OldTextTooLong
    | BudgetExceeded
    | Ambiguous
    | Replaced(text: string)

  // ----- indentation

  predicate IsIndent(c: char) {
    c == ' ' || c == '\t'
  }

  /** Leading blanks and tabs; the whole line if there is nothing else. */
  function Indent(s: string): (indent: string)
    ensures indent <= s
  {
    if s == [] || !IsIndent(s[0]) then [] else [s[0]] + Indent(s[1..])
  }

  function TrimIndent(s: string): string {
    s[|Indent(s)|..]
  }

  function AdjustIndent(oldLines: seq<string>, newLine: string, index: nat, base: string): string {
    if index >= |oldLines| then newLine
    else
      var relative := |Indent(newLine)| - |Indent(oldLines[index])|;
      var content := TrimIndent(newLine);
      if relative > 0 then base + seq(relative, _ => ' ') + content
      else if relative < 0 then
        if -relative >= |base| then content else base[..|base| + relative] + content
      else base + content
  }

  ghost predicate AllIndent(s: string) {
    forall k | 0 <= k < |s| :: IsIndent(s[k])
  }

  lemma {:induction false} IndentIsIndent(s: string)
    ensures AllIndent(Indent(s)) && (TrimIndent(s) == [] || !IsIndent(TrimIndent(s)[0]))
    ensures Indent(s) + TrimIndent(s) == s
  {
    if s != [] && IsIndent(s[0]) {
      IndentIsIndent(s[1..]);
      assert TrimIndent(s) == TrimIndent(s[1..]);
    }
  }

  /** The indentation is the blanks and tabs a line starts with. */
  lemma IndentMeans(s: string)
    ensures Indent(s) + TrimIndent(s) == s && forall c | c in Indent(s) :: c == ' ' || c == '\t'
    ensures TrimIndent(s) != [] ==> TrimIndent(s)[0] != ' ' && TrimIndent(s)[0] != '\t'
  {
    IndentIsIndent(s);
    hide Indent, TrimIndent;
    forall c | c in Indent(s) ensures IsIndent(c) {
      var k :| 0 <= k < |Indent(s)| && Indent(s)[k] == c;
    }
  }

  lemma {:induction false} IndentOf(base: string, content: string)
    requires AllIndent(base) && (content == [] || !IsIndent(content[0]))
    ensures Indent(base + content) == base && TrimIndent(base + content) == content
  {
    if base == [] {
      assert base + content == content;
    } else {
      IndentOf(base[1..], content);
      assert (base + content)[1..] == base[1..] + content;
    }
  }

  lemma AdjustedParts(oldLines: seq<string>, newLine: string, index: nat, base: string) returns (indent: string)
    requires index < |oldLines| && AllIndent(base)
    ensures AdjustIndent(oldLines, newLine, index, base) == indent + TrimIndent(newLine) && AllIndent(indent)
    ensures |indent| == Max(0, |base| + |Indent(newLine)| - |Indent(oldLines[index])|)
  {
    var relative, content := |Indent(newLine)| - |Indent(oldLines[index])|, TrimIndent(newLine);
    hide Indent, TrimIndent;
    if relative > 0 {
      indent := base + seq(relative, _ => ' ');
    } else if relative < 0 && -relative >= |base| {
      indent := [];
      assert [] + content == content;
    } else {
      indent := base[..|base| + relative];
      assert relative == 0 ==> indent == base;
    }
  }

  /** An adjusted line keeps its content, and stands as far from the base indentation as it stood from the
      indentation of the old line, or at the margin. */
  lemma RelativeIndentKept(oldLines: seq<string>, newLine: string, index: nat, base: string)
    requires index < |oldLines| && AllIndent(base)
    ensures var adjusted := AdjustIndent(oldLines, newLine, index, base);
            && TrimIndent(adjusted) == TrimIndent(newLine)
            && |Indent(adjusted)| == Max(0, |base| + |Indent(newLine)| - |Indent(oldLines[index])|)
  {
    IndentIsIndent(newLine);
    hide Indent, TrimIndent, AdjustIndent;
    var indent := AdjustedParts(oldLines, newLine, index, base);
    IndentOf(indent, TrimIndent(newLine));
  }

  /** The lines that go in place of the window starting at `start`. */
  function ReplacementLines(contentLines: seq<string>, oldLines: seq<string>, newText: string,
                            start: nat): (lines: seq<string>)
    requires start < |contentLines|
    ensures |lines| == |Split(newText)|
  {
    var base, newLines := Indent(contentLines[start]), Split(newText);
    seq(|newLines|, k requires 0 <= k < |newLines| =>
      if k == 0 then if newLines[0] == [] then [] else base + TrimIndent(newLines[0])
      else AdjustIndent(oldLines, newLines[k], k, base))
  }

  lemma ReplacementAt(contentLines: seq<string>, oldLines: seq<string>, newText: string, start: nat, k: nat)
    requires start < |contentLines| && k < |Split(newText)|
    ensures var base, new_ := Indent(contentLines[start]), Split(newText)[k];
            var line := if k == 0 then if new_ == [] then [] else base + TrimIndent(new_)
                        else AdjustIndent(oldLines, new_, k, base);
            ReplacementLines(contentLines, oldLines, newText, start)[k] == line
  {
    hide Split, Indent, TrimIndent, AdjustIndent;
  }

  /** A replacement line keeps the content of its line of the new text. The first stands at the base indentation,
      unless it is empty; later ones keep their distance from the old line; past the old lines they are as they
      were. */
  ghost predicate Placed(line: string, newLine: string, oldLines: seq<string>, base: string, k: nat) {
    if k == 0 then line == if newLine == [] then [] else base + TrimIndent(newLine)
    else if k >= |oldLines| then line == newLine
    else TrimIndent(line) == TrimIndent(newLine)
         && |Indent(line)| == Max(0, |base| + |Indent(newLine)| - |Indent(oldLines[k])|)
  }

  lemma AdjustedIsPlaced(newLine: string, oldLines: seq<string>, base: string, k: nat)
    requires 0 < k && AllIndent(base)
    ensures Placed(AdjustIndent(oldLines, newLine, k, base), newLine, oldLines, base, k)
  {
    if k < |oldLines| {
      RelativeIndentKept(oldLines, newLine, k, base);
    }
  }

  /** Every replacement line stands as it should, measured from where the window started. */
  lemma ReplacedLine(contentLines: seq<string>, oldLines: seq<string>, newText: string, start: nat, k: nat)
    requires start < |contentLines| && k < |Split(newText)|
    ensures Placed(ReplacementLines(contentLines, oldLines, newText, start)[k], Split(newText)[k], oldLines,
                   Indent(contentLines[start]), k)
  {
    IndentIsIndent(contentLines[start]);
    ReplacementAt(contentLines, oldLines, newText, start, k);
    if 0 < k {
      hide Placed, AllIndent, Indent, TrimIndent, AdjustIndent, Split, ReplacementLines;
      AdjustedIsPlaced(Split(newText)[k], oldLines, Indent(contentLines[start]), k);
    }
  }

  function ReplaceLineWindow(contentLines: seq<string>, oldLines: seq<string>, newText: string, start: nat): string
    requires start + |oldLines| <= |contentLines| && oldLines != []
  {
    Join(contentLines[..start] + ReplacementLines(contentLines, oldLines, newText, start)
         + contentLines[start + |oldLines|..])
  }

  // ----- scores and budget

  function Score(distance: int, length: nat): real
    requires 0 < length
  {
    1.0 - distance as real / length as real
  }

  /** What a threshold allows over `length` runes, as the code rounds it. */
  function MaximumDistance(threshold: real, length: nat): int {
    ((1.0 - threshold) * length as real).Floor
  }

  /** One search: where the lines `oldLines` are looked for, and how similar a window has to be. */
  datatype Query = Query(contentLines: seq<string>, oldLines: seq<string>, threshold: real) {

    function Wanted(): string {
      Normalize(oldLines)
    }

    function WindowCount(): int {
      |contentLines| - |oldLines| + 1
    }

    /** The normalized window that starts at line `index`. */
    function Candidate(index: int): string
      requires 0 <= index < WindowCount()
    {
      Normalize(contentLines[index..index + |oldLines|])
    }

    function Length(index: int): nat
      requires 0 <= index < WindowCount()
    {
      Max(|Wanted()|, |Candidate(index)|)
    }

    /** Windows that are too long, or empty like the wanted text, are passed over. */
    predicate Comparable(index: int)
      requires 0 <= index < WindowCount()
    {
      |Candidate(index)| <= MAX_RUNES && 0 < Length(index)
    }

    ghost function Gap(index: int): nat
      requires 0 <= index < WindowCount()
    {
      Distance(Wanted(), Candidate(index), |Wanted()|, |Candidate(index)|)
    }

    ghost function Similarity(index: int): real
      requires 0 <= index < WindowCount() && Comparable(index)
    {
      Score(Gap(index), Length(index))
    }

    /** The score of a window that is similar enough; nothing for the others. */
    ghost function Entry(index: int): Option<real>
      requires 0 <= index < WindowCount()
    {
      if Comparable(index) && Similarity(index) >= threshold then Some(Similarity(index)) else None
    }

    ghost function Entries(): seq<Option<real>>
      requires 0 <= WindowCount()
    {
      seq(WindowCount(), index requires 0 <= index < WindowCount() => Entry(index))
    }

    function Work(index: int): int
      requires 0 <= index < WindowCount()
    {
      Max(|Wanted()| * (2 * MaximumDistance(threshold, Length(index)) + 1), Length(index))
    }

    /** How many table entries comparing one window visits. */
    ghost predicate Visits(index: int, cells: nat)
      requires 0 <= index < WindowCount()
    {
      if Comparable(index) then CellsVisited(Wanted(), Candidate(index), MaximumDistance(threshold, Length(index)), cells)
      else cells == 0
    }

    /** ... and the first windows one after another. */
    ghost predicate VisitsFirst(cells: seq<nat>) {
      |cells| <= WindowCount() && forall k | 0 <= k < |cells| :: Visits(k, cells[k])
    }

    lemma NotVisited(index: int)
      requires 0 <= index < WindowCount() && !Comparable(index)
      ensures Visits(index, 0)
    {
    }

    lemma VisitsOneMore(cells: seq<nat>, next: nat)
      requires VisitsFirst(cells) && |cells| < WindowCount() && Visits(|cells|, next)
      ensures VisitsFirst(cells + [next]) && Total(cells + [next]) == Total(cells) + next
    {
      hide Visits;
      assert (cells + [next])[..|cells|] == cells;
    }

    /** What looking at one window is charged. */
    function Fee(index: int): nat
      requires 0 <= index < WindowCount()
    {
      if Comparable(index) then Work(index) else 0
    }

    function Fees(): seq<nat>
      requires 0 <= WindowCount()
    {
      seq(WindowCount(), index requires 0 <= index < WindowCount() => Fee(index))
    }
  }

  function Total(fees: seq<nat>): nat {
    if fees == [] then 0 else Total(fees[..|fees| - 1]) + fees[|fees| - 1]
  }

  lemma {:induction false} TotalGrows(fees: seq<nat>, count: nat)
    requires count <= |fees|
    ensures Total(fees[..count]) <= Total(fees)
  {
    if count == |fees| {
      assert fees[..count] == fees;
    } else {
      TotalGrows(fees[..|fees| - 1], count);
      assert fees[..|fees| - 1][..count] == fees[..count];
    }
  }

  /** The rounded distance test accepts exactly the scores that reach the threshold. */
  lemma RoundedTestIsExact(distance: nat, length: nat, threshold: real)
    requires 0 < length
    ensures distance <= MaximumDistance(threshold, length) <==> Score(distance, length) >= threshold
  {
    var allowed, ratio := (1.0 - threshold) * length as real, distance as real / length as real;
    assert ratio * length as real == distance as real;
    assert (1.0 - threshold - ratio) * length as real == allowed - distance as real;
    assert distance <= allowed.Floor <==> 0.0 <= allowed - distance as real;
    SameSign(1.0 - threshold - ratio, length as real);
  }

  lemma SameSign(x: real, positive: real)
    requires 0.0 < positive
    ensures 0.0 <= x * positive <==> 0.0 <= x
    ensures 0.0 < x * positive <==> 0.0 < x
  {
  }

  /** From one half on, the threshold never allows deleting everything, so the distance is exact. */
  lemma ThresholdExcludesEmptyBand(first: string, second: string, threshold: real)
    requires MIN_SIMILARITY <= threshold
    ensures !EmptyBand(first, second, MaximumDistance(threshold, Max(|first|, |second|)))
  {
    var length := Max(|first|, |second|) as real;
    assert (1.0 - threshold) * length <= 0.5 * length;
  }

  /** A non-zero fraction with a denominator up to 4096 * 4096 is larger than the tolerance. */
  lemma Separated(difference: real, product: real, numerator: int)
    requires difference * product == numerator as real && 0.0 < product <= 16777216.0
    ensures difference > TOLERANCE <==> difference > 0.0
  {
    SameSign(difference, product);
    SameSign(16777216.0 - product, TOLERANCE);
    SameSign(difference - TOLERANCE, product);
    assert (difference - TOLERANCE) * product == numerator as real - TOLERANCE * product;
  }

  lemma CrossMultiplied(d0: int, m0: nat, d1: int, m1: nat)
    requires 0 < m0 && 0 < m1
    ensures (Score(d0, m0) - Score(d1, m1)) * (m0 as real * m1 as real) == (d1 * m0 - d0 * m1) as real
  {
    var x, y, p, q := Score(d0, m0), Score(d1, m1), m0 as real, m1 as real;
    assert x * p == p - d0 as real && y * q == q - d1 as real;
    calc {
      (x - y) * (p * q);
      (x * p) * q - (y * q) * p;
      (p - d0 as real) * q - (q - d1 as real) * p;
      d1 as real * p - d0 as real * q;
    }
  }

  lemma ProductBound(m0: nat, m1: nat)
    requires 0 < m0 <= MAX_RUNES && 0 < m1 <= MAX_RUNES
    ensures 0.0 < m0 as real * m1 as real <= 16777216.0
  {
    assert m0 as real * m1 as real <= 4096.0 * m1 as real;
  }

  /** Scores over lengths up to 4096 differ by more than the tolerance or not at all. */
  lemma ToleranceIsExact(d0: int, m0: nat, d1: int, m1: nat)
    requires 0 < m0 <= MAX_RUNES && 0 < m1 <= MAX_RUNES
    ensures Score(d0, m0) > Score(d1, m1) + TOLERANCE <==> Score(d0, m0) > Score(d1, m1)
    ensures -TOLERANCE <= Score(d0, m0) - Score(d1, m1) <= TOLERANCE <==> Score(d0, m0) == Score(d1, m1)
  {
    ProductBound(m0, m1);
    ProductBound(m1, m0);
    CrossMultiplied(d0, m0, d1, m1);
    CrossMultiplied(d1, m1, d0, m0);
    Separated(Score(d0, m0) - Score(d1, m1), m0 as real * m1 as real, d1 * m0 - d0 * m1);
    Separated(Score(d1, m1) - Score(d0, m0), m1 as real * m0 as real, d0 * m1 - d1 * m0);
  }

  // ----- the search

  /** `index` has a score and none is higher. */
  ghost predicate Best(entries: seq<Option<real>>, index: int) {
    0 <= index < |entries| && entries[index].Some? &&
    forall j | 0 <= j < |entries| && entries[j].Some? :: entries[j].value <= entries[index].value
  }

  /** `index` alone attains the highest score. */
  ghost predicate Winner(entries: seq<Option<real>>, index: int) {
    Best(entries, index) && forall j | Best(entries, j) :: j == index
  }

  ghost predicate NoEntry(entries: seq<Option<real>>) {
    forall j | 0 <= j < |entries| :: entries[j] == None
  }

  /** What the search must answer once its guards have passed: the one best window, or why not. */
  ghost predicate Answers(q: Query, newText: string, outcome: Outcome)
    requires 0 < q.WindowCount() && q.oldLines != []
  {
    var entries := q.Entries();
    if Total(q.Fees()) > MAX_WORK_CELLS then outcome == BudgetExceeded
    else match outcome
      case Replaced(text) =>
        exists i :: Winner(entries, i) && text == ReplaceLineWindow(q.contentLines, q.oldLines, newText, i)
      case NoMatch => NoEntry(entries)
      case Ambiguous => !NoEntry(entries) && forall i :: !Winner(entries, i)
      case _ => false
  }

  /** The running best after the windows in `entries`. */
  ghost predicate Leads(entries: seq<Option<real>>, bestIndex: int, bestScore: real, ambiguous: bool) {
    if bestIndex < 0 then bestScore == -1.0 && !ambiguous && NoEntry(entries)
    else
      Best(entries, bestIndex) && bestScore == entries[bestIndex].value &&
      (ambiguous <==> exists j :: Best(entries, j) && j != bestIndex)
  }

  lemma SameBest(entries: seq<Option<real>>, entry: Option<real>, bestIndex: int, j: int)
    requires Best(entries, bestIndex)
    requires entry.Some? ==> entry.value < entries[bestIndex].value
    ensures Best(entries + [entry], j) <==> Best(entries, j)
  {
    var next := entries + [entry];
    assert next[bestIndex] == entries[bestIndex];
    if Best(next, j) {
      assert j < |entries|;
      assert forall k | 0 <= k < |entries| :: next[k] == entries[k];
    }
  }

  /** A window that cannot be chosen changes nothing. */
  lemma PassedOver(entries: seq<Option<real>>, entry: Option<real>, bestIndex: int, bestScore: real, ambiguous: bool)
    requires Leads(entries, bestIndex, bestScore, ambiguous)
    requires entry.Some? ==> 0 <= bestIndex && entry.value < bestScore
    ensures Leads(entries + [entry], bestIndex, bestScore, ambiguous)
  {
    var next := entries + [entry];
    if 0 <= bestIndex {
      SameBest(entries, entry, bestIndex, bestIndex);
      if ambiguous {
        var j :| Best(entries, j) && j != bestIndex;
        SameBest(entries, entry, bestIndex, j);
      } else if j :| Best(next, j) && j != bestIndex {
        SameBest(entries, entry, bestIndex, j);
      }
    }
  }

  lemma TakesTheLead(entries: seq<Option<real>>, score: real, bestIndex: int, bestScore: real, ambiguous: bool)
    requires Leads(entries, bestIndex, bestScore, ambiguous) && bestScore < score
    ensures Leads(entries + [Some(score)], |entries|, score, false)
  {
  }

  lemma TiesTheLead(entries: seq<Option<real>>, score: real, bestIndex: int, bestScore: real, ambiguous: bool)
    requires Leads(entries, bestIndex, bestScore, ambiguous) && 0 <= bestIndex && bestScore == score
    ensures Leads(entries + [Some(score)], bestIndex, bestScore, true)
  {
    assert Best(entries + [Some(score)], |entries|);
  }

  /** `value` is the score of a window of at most 4096 runes. */
  ghost predicate IsScore(value: real) {
    exists d: nat, m: nat :: 0 < m <= MAX_RUNES && value == Score(d, m)
  }

  /** Compare one window within the threshold; accepted windows are scored. */
  method Compare(q: Query, index: int) returns (entry: Option<real>, ghost cells: nat)
    requires MIN_SIMILARITY <= q.threshold <= 1.0 && 0 <= index < q.WindowCount()
    requires |q.Wanted()| <= MAX_RUNES && q.Comparable(index)
    ensures entry == q.Entry(index)
    ensures entry.Some? ==> MIN_SIMILARITY <= entry.value && IsScore(entry.value)
    ensures cells <= q.Work(index) && q.Visits(index, cells)
  {
    var wanted, candidate := q.Wanted(), q.Candidate(index);
    var maximumLength := Max(|wanted|, |candidate|);
    var maximumDistance := MaximumDistance(q.threshold, maximumLength);
    ThresholdExcludesEmptyBand(wanted, candidate, q.threshold);
    RoundedTestIsExact(q.Gap(index), maximumLength, q.threshold);
    var distance, visited := BoundedLevenshtein(wanted, candidate, maximumDistance);
    cells := visited;
    if distance > maximumDistance {
      return None, cells;
    }
    assert IsScore(Score(distance, maximumLength));
    return Some(Score(distance, maximumLength)), cells;
  }

  /** Weigh one accepted score against the running best, ties within the tolerance. */
  method Weigh(ghost entries: seq<Option<real>>, index: nat, score: real, bestIndex: int, bestScore: real,
               ambiguous: bool)
    returns (newIndex: int, newScore: real, newAmbiguous: bool)
    requires index == |entries| && MIN_SIMILARITY <= score && IsScore(score) && (0 <= bestIndex ==> IsScore(bestScore))
    requires Leads(entries, bestIndex, bestScore, ambiguous)
    ensures Leads(entries + [Some(score)], newIndex, newScore, newAmbiguous)
    ensures 0 <= newIndex ==> IsScore(newScore)
  {
    if bestIndex >= 0 {
      ghost var d0: nat, m0: nat :| 0 < m0 <= MAX_RUNES && score == Score(d0, m0);
      ghost var d1: nat, m1: nat :| 0 < m1 <= MAX_RUNES && bestScore == Score(d1, m1);
      ToleranceIsExact(d0, m0, d1, m1);
    }
    if score > bestScore + TOLERANCE {
      TakesTheLead(entries, score, bestIndex, bestScore, ambiguous);
      return index, score, false;
    } else if -TOLERANCE <= score - bestScore <= TOLERANCE {
      TiesTheLead(entries, score, bestIndex, bestScore, ambiguous);
      return bestIndex, bestScore, true;
    }
    PassedOver(entries, Some(score), bestIndex, bestScore, ambiguous);
    return bestIndex, bestScore, ambiguous;
  }

  /** Compare one window and weigh it if it was accepted. */
  method Visit(q: Query, index: int, ghost seen: seq<Option<real>>, bestIndex: int, bestScore: real, ambiguous: bool)
    returns (newIndex: int, newScore: real, newAmbiguous: bool, ghost cells: nat)
    requires MIN_SIMILARITY <= q.threshold <= 1.0 && 0 <= index < q.WindowCount() && |seen| == index
    requires |q.Wanted()| <= MAX_RUNES && q.Comparable(index)
    requires Leads(seen, bestIndex, bestScore, ambiguous) && (0 <= bestIndex ==> IsScore(bestScore))
    ensures Leads(seen + [q.Entry(index)], newIndex, newScore, newAmbiguous) && (0 <= newIndex ==> IsScore(newScore))
    ensures cells <= q.Work(index) && q.Visits(index, cells)
  {
    var entry, visited := Compare(q, index);
    cells := visited;
    if entry.Some? {
      newIndex, newScore, newAmbiguous := Weigh(seen, index, entry.value, bestIndex, bestScore, ambiguous);
    } else {
      PassedOver(seen, None, bestIndex, bestScore, ambiguous);
      newIndex, newScore, newAmbiguous := bestIndex, bestScore, ambiguous;
    }
  }

  lemma NextWindow(q: Query, index: nat)
    requires index < q.WindowCount()
    ensures |q.Entries()| == |q.Fees()| == q.WindowCount()
    ensures q.Entries()[..index + 1] == q.Entries()[..index] + [q.Entry(index)]
    ensures Total(q.Fees()[..index + 1]) == Total(q.Fees()[..index]) + if q.Comparable(index) then q.Work(index) else 0
    ensures !q.Comparable(index) ==> q.Entry(index) == None
  {
    hide Query.Comparable, Query.Work, Query.Similarity;
    assert q.Fees()[..index + 1][..index] == q.Fees()[..index];
  }

  /** The two checks that pass over a window. */
  method IsCompared(q: Query, index: int) returns (compared: bool)
    requires 0 <= index < q.WindowCount()
    ensures compared == q.Comparable(index)
  {
    var oldLength, candidateLength := |q.Wanted()|, |q.Candidate(index)|;
    if candidateLength > MAX_RUNES {
      return false;
    }
    compared := Max(oldLength, candidateLength) != 0;
  }

  /** What comparing one window is charged before it is compared. */
  method EstimatedWork(q: Query, index: int) returns (work: int)
    requires 0 <= index < q.WindowCount()
    ensures work == q.Work(index)
  {
    var oldLength, candidateLength := |q.Wanted()|, |q.Candidate(index)|;
    var maximumLength := Max(oldLength, candidateLength);
    var maximumDistance := MaximumDistance(q.threshold, maximumLength);
    work := oldLength * (2 * maximumDistance + 1);
    if work < maximumLength {
      work := maximumLength;
    }
  }

  lemma NobodyLeads()
    ensures Leads([], -1, -1.0, false)
  {
  }

  /** The scan over all windows. `cells` counts the distance-table entries computed, `each` window by window. */
  method Select(q: Query)
    returns (overBudget: bool, bestIndex: int, ambiguous: bool, ghost cells: nat, ghost each: seq<nat>)
    requires MIN_SIMILARITY <= q.threshold <= 1.0 && 0 < q.WindowCount() && |q.Wanted()| <= MAX_RUNES
    ensures overBudget <==> Total(q.Fees()) > MAX_WORK_CELLS
    ensures !overBudget ==> exists score :: Leads(q.Entries(), bestIndex, score, ambiguous)
    ensures cells <= MAX_WORK_CELLS
    ensures q.VisitsFirst(each) && cells == Total(each) && (!overBudget ==> |each| == q.WindowCount())
  {
    var bestScore, workUsed, windowCount := -1.0, 0, q.WindowCount();
    overBudget, bestIndex, ambiguous, cells, each := false, -1, false, 0, [];
    ghost var entries, fees := q.Entries(), q.Fees();
    NobodyLeads();
    assert q.VisitsFirst([]);
    assert entries[..0] == [] && fees[..0] == [] && |entries| == |fees| == windowCount && Total([]) == 0;
    hide Query.Visits, Query.VisitsFirst;
    hide Leads, IsScore, Query.Comparable, Query.Work, Query.Entries, Query.Fees, Query.Entry, Query.Wanted, Total;
    for index := 0 to windowCount
      invariant Leads(entries[..index], bestIndex, bestScore, ambiguous) && (0 <= bestIndex ==> IsScore(bestScore))
      invariant workUsed == Total(fees[..index]) <= MAX_WORK_CELLS && cells <= workUsed
      invariant q.VisitsFirst(each) && |each| == index && cells == Total(each)
    {
      NextWindow(q, index);
      var compared := IsCompared(q, index);
      if !compared {
        PassedOver(entries[..index], None, bestIndex, bestScore, ambiguous);
        q.NotVisited(index);
        q.VisitsOneMore(each, 0);
        each := each + [0];
        continue;
      }
      var estimatedWork := EstimatedWork(q, index);
      workUsed := workUsed + estimatedWork;
      if workUsed > MAX_WORK_CELLS {
        TotalGrows(fees, index + 1);
        return true, -1, false, cells, each;
      }
      ghost var visited;
      bestIndex, bestScore, ambiguous, visited := Visit(q, index, entries[..index], bestIndex, bestScore, ambiguous);
      q.VisitsOneMore(each, visited);
      cells, each := cells + visited, each + [visited];
    }
    assert entries[..windowCount] == entries && fees[..windowCount] == fees;
  }

  // ----- windows that differ in white space only

  /** The window at line `index` has the words of the wanted lines, line by line. */
  ghost predicate ExactAt(contentLines: seq<string>, oldLines: seq<string>, index: int) {
    0 <= index <= |contentLines| - |oldLines| && SameWordsInLines(contentLines[index..index + |oldLines|], oldLines)
  }

  /** There is something to look for: a word, or more than one line. */
  ghost predicate HasWords(oldLines: seq<string>) {
    |oldLines| > 1 || (|oldLines| == 1 && Marks(oldLines[0], false) != [])
  }

  lemma {:induction false} NoDistanceToItself(a: string, i: nat)
    requires i <= |a|
    ensures Distance(a, a, i, i) == 0
  {
    if i > 0 {
      NoDistanceToItself(a, i - 1);
    }
  }

  lemma {:induction false} NoDistanceIsEqual(a: string, b: string, i: nat, j: nat)
    requires i <= |a| && j <= |b| && Distance(a, b, i, j) == 0
    ensures a[..i] == b[..j]
  {
    if i > 0 && j > 0 {
      NoDistanceIsEqual(a, b, i - 1, j - 1);
      assert a[..i] == a[..i - 1] + [a[i - 1]] && b[..j] == b[..j - 1] + [b[j - 1]];
    }
  }

  lemma NoDistance(a: string, b: string)
    ensures Distance(a, b, |a|, |b|) == 0 <==> a == b
  {
    assert a[..|a|] == a && b[..|b|] == b;
    NoDistanceToItself(a, |a|);
    if Distance(a, b, |a|, |b|) == 0 {
      NoDistanceIsEqual(a, b, |a|, |b|);
    }
  }

  lemma FullScore(distance: nat, length: nat)
    requires 0 < length
    ensures Score(distance, length) <= 1.0 && (Score(distance, length) == 1.0 <==> distance == 0)
  {
    var ratio := distance as real / length as real;
    assert ratio * length as real == distance as real;
    SameSign(ratio, length as real);
  }

  lemma ExactIsEqual(q: Query, index: int)
    requires 0 <= index < q.WindowCount() && q.oldLines != []
    ensures q.Candidate(index) == q.Wanted() <==> ExactAt(q.contentLines, q.oldLines, index)
    ensures HasWords(q.oldLines) <==> q.Wanted() != []
  {
    hide Normalize;
    NormalizedAlike(q.contentLines[index..index + |q.oldLines|], q.oldLines);
    NormalizedToNothing(q.oldLines);
  }

  /** A window scores 1.0 exactly when it differs from the wanted lines in white space only, and never more. */
  lemma ExactScoresFull(q: Query, index: int)
    requires 0 <= index < q.WindowCount() && q.oldLines != [] && q.threshold <= 1.0
    requires |q.Wanted()| <= MAX_RUNES && HasWords(q.oldLines)
    ensures q.Entry(index) == Some(1.0) <==> ExactAt(q.contentLines, q.oldLines, index)
    ensures q.Entry(index).Some? ==> q.Entry(index).value <= 1.0
  {
    ExactIsEqual(q, index);
    var wanted, candidate := q.Wanted(), q.Candidate(index);
    hide Query.Wanted, Query.Candidate, Distance, Score, ExactAt, HasWords;
    if q.Comparable(index) {
      FullScore(q.Gap(index), q.Length(index));
    }
    NoDistance(wanted, candidate);
  }

  lemma FullIsBest(entries: seq<Option<real>>, index: nat)
    requires index < |entries| && entries[index] == Some(1.0)
    requires forall j | 0 <= j < |entries| && entries[j].Some? :: entries[j].value <= 1.0
    ensures forall j :: Best(entries, j) <==> 0 <= j < |entries| && entries[j] == Some(1.0)
  {
  }

  /** With the best windows known, the answer is the sole one of them or that there are several. */
  lemma AnswerIsBest(q: Query, newText: string, outcome: Outcome, index: int)
    requires 0 < q.WindowCount() && q.oldLines != [] && Answers(q, newText, outcome) && outcome != BudgetExceeded
    requires Best(q.Entries(), index)
    ensures (forall j | Best(q.Entries(), j) :: j == index) ==>
              outcome == Replaced(ReplaceLineWindow(q.contentLines, q.oldLines, newText, index))
    ensures (exists j :: Best(q.Entries(), j) && j != index) ==> outcome == Ambiguous
  {
    var entries := q.Entries();
    hide Query.Entries, Total, Query.Fees, ReplaceLineWindow;
    assert !NoEntry(entries);
    if forall j | Best(entries, j) :: j == index {
      assert Winner(entries, index);
    } else {
      var j :| Best(entries, j) && j != index;
      assert forall i :: !Winner(entries, i);
    }
  }

  /** What the search finds where windows differ from the wanted lines in white space only: the window if it is
      the only one, at every threshold, unless a guard or the budget stops the search. */
  ghost predicate FindsExact(lines: seq<string>, oldLines: seq<string>, newText: string, outcome: Outcome)
    requires oldLines != []
  {
    forall i | ExactAt(lines, oldLines, i) && HasWords(oldLines) ::
      || outcome in {BadThreshold, TooManyWindows, OldTextTooLong, BudgetExceeded}
      || outcome == if exists j :: j != i && ExactAt(lines, oldLines, j) then Ambiguous
                    else Replaced(ReplaceLineWindow(lines, oldLines, newText, i))
  }

  lemma ExactIsFound(q: Query, newText: string, outcome: Outcome)
    requires 0 < q.WindowCount() && q.oldLines != [] && q.threshold <= 1.0 && |q.Wanted()| <= MAX_RUNES
    requires Answers(q, newText, outcome)
    ensures FindsExact(q.contentLines, q.oldLines, newText, outcome)
  {
    hide Answers, HasWords, SameWordsInLines, Query.Wanted, Query.Entry, ReplaceLineWindow, Total, Query.Fees;
    forall i | ExactAt(q.contentLines, q.oldLines, i) && HasWords(q.oldLines) && outcome != BudgetExceeded
      ensures outcome == if exists j :: j != i && ExactAt(q.contentLines, q.oldLines, j) then Ambiguous
                         else Replaced(ReplaceLineWindow(q.contentLines, q.oldLines, newText, i))
    {
      ExactAreBest(q, i);
      AnswerIsBest(q, newText, outcome, i);
    }
  }

  lemma ExactAreBest(q: Query, index: int)
    requires 0 < q.WindowCount() && q.oldLines != [] && q.threshold <= 1.0 && |q.Wanted()| <= MAX_RUNES
    requires HasWords(q.oldLines) && ExactAt(q.contentLines, q.oldLines, index)
    ensures forall j :: Best(q.Entries(), j) <==> ExactAt(q.contentLines, q.oldLines, j)
  {
    hide HasWords, SameWordsInLines, Query.Wanted, Query.Entry;
    forall j | 0 <= j < q.WindowCount()
      ensures q.Entries()[j] == Some(1.0) <==> ExactAt(q.contentLines, q.oldLines, j)
      ensures q.Entries()[j].Some? ==> q.Entries()[j].value <= 1.0
    {
      ExactScoresFull(q, j);
    }
    FullIsBest(q.Entries(), index);
    hide Best;
  }

  /** The search past its guards. */
  method Search(q: Query, newText: string) returns (outcome: Outcome, ghost cells: nat)
    requires MIN_SIMILARITY <= q.threshold <= 1.0 && 0 < q.WindowCount() && q.oldLines != [] && |q.Wanted()| <= MAX_RUNES
    ensures Answers(q, newText, outcome)
    ensures cells <= MAX_WORK_CELLS
    ensures exists each :: q.VisitsFirst(each) && cells == Total(each) && (outcome != BudgetExceeded ==> |each| == q.WindowCount())
  {
    var overBudget, bestIndex, ambiguous, visited, each := Select(q);
    cells := visited;
    if overBudget {
      return BudgetExceeded, cells;
    }
    ghost var entries := q.Entries();
    ghost var score :| Leads(entries, bestIndex, score, ambiguous);
    if bestIndex < 0 {
      return NoMatch, cells;
    }
    if ambiguous {
      ghost var j :| Best(entries, j) && j != bestIndex;
      return Ambiguous, cells;
    }
    assert Winner(entries, bestIndex);
    outcome := Replaced(ReplaceLineWindow(q.contentLines, q.oldLines, newText, bestIndex));
  }

  method TryFuzzyMatch(content: string, oldText: string, newText: string, threshold: real)
    returns (outcome: Outcome, ghost cells: nat)
    ensures var q := Query(Split(content), Split(oldText), threshold);
            if threshold < MIN_SIMILARITY || threshold > 1.0 then outcome == BadThreshold
            else if q.WindowCount() <= 0 then outcome == NoMatch
            else if q.WindowCount() > MAX_CANDIDATE_WINDOWS then outcome == TooManyWindows
            else if |q.Wanted()| > MAX_RUNES then outcome == OldTextTooLong
            else Answers(q, newText, outcome)
    ensures FindsExact(Split(content), Split(oldText), newText, outcome)
    ensures cells <= MAX_WORK_CELLS
  {
    cells := 0;
    hide FindsExact, Answers;
    NotSearched(Split(content), Split(oldText), newText);
    if threshold < MIN_SIMILARITY || threshold > 1.0 {
      return BadThreshold, cells;
    }
    var contentLines, oldLines := Split(content), Split(oldText);
    if |oldLines| == 0 || |contentLines| < |oldLines| {
      return NoMatch, cells;
    }
    var windowCount := |contentLines| - |oldLines| + 1;
    if windowCount > MAX_CANDIDATE_WINDOWS {
      return TooManyWindows, cells;
    }
    var q := Query(contentLines, oldLines, threshold);
    if |q.Wanted()| > MAX_RUNES {
      return OldTextTooLong, cells;
    }
    outcome, cells := Search(q, newText);
    ExactIsFound(q, newText, outcome);
  }

  lemma NotSearched(lines: seq<string>, oldLines: seq<string>, newText: string)
    requires oldLines != []
    ensures FindsExact(lines, oldLines, newText, BadThreshold)
    ensures FindsExact(lines, oldLines, newText, TooManyWindows) && FindsExact(lines, oldLines, newText, OldTextTooLong)
    ensures |lines| < |oldLines| ==> FindsExact(lines, oldLines, newText, NoMatch)
  {
  }

  // ----- what a replacement leaves alone

  lemma ReplacementIsLines(contentLines: seq<string>, oldLines: seq<string>, newText: string, start: nat)
    requires start < |contentLines| && Lines(contentLines)
    ensures Lines(ReplacementLines(contentLines, oldLines, newText, start))
  {
    var base, newLines := Indent(contentLines[start]), Split(newText);
    forall k | 0 <= k < |newLines|
      ensures OneLine(ReplacementLines(contentLines, oldLines, newText, start)[k])
    {
      assert OneLine(newLines[k]) && OneLine(contentLines[start]);
    }
  }

  lemma SplitOfSpliced(lines: seq<string>, middle: seq<string>, start: nat, window: nat)
    requires Lines(lines) && Lines(middle) && middle != [] && start + window <= |lines|
    ensures Split(Join(lines[..start] + middle + lines[start + window..]))
         == lines[..start] + middle + lines[start + window..]
  {
    SplitOfJoin(lines[..start] + middle + lines[start + window..]);
  }

  /** A replacement keeps every line outside its window, in its place, and puts as many lines into the
      window as the new text has. */
  lemma OutsideWindowUnchanged(content: string, oldText: string, newText: string, start: nat)
    requires start + |Split(oldText)| <= |Split(content)|
    ensures var lines, window, inserted := Split(content), |Split(oldText)|, |Split(newText)|;
            var after := Split(ReplaceLineWindow(lines, Split(oldText), newText, start));
            && |after| == |lines| - window + inserted
            && after[..start] == lines[..start]
            && after[start..start + inserted] == ReplacementLines(lines, Split(oldText), newText, start)
            && after[start + inserted..] == lines[start + window..]
  {
    var lines, oldLines := Split(content), Split(oldText);
    var middle := ReplacementLines(lines, oldLines, newText, start);
    ReplacementIsLines(lines, oldLines, newText, start);
    SplitOfSpliced(lines, middle, start, |oldLines|);
  }
}
