/** What a search of one file should find, filetoolsserver/handler/grep.go: stated on the whole sequence
    of lines, with the bytes a result holds.
 */
module GrepMatch {
  import opened Basics
  import opened Wrappers

  const GREP_MATCH_OVERHEAD := 256
  const GREP_LINE_OVERHEAD := 32

  datatype Match = Match(path: string, line: nat, column: nat, text: string, encoding: string,
                         before: seq<string>, after: seq<string>)

  // ----- retained bytes

  function SaturatingAdd(first: int, second: int): int {
    if second > 0 && first > MAX_INT64 - second then MAX_INT64 else first + second
  }

  function LineCost(line: string): nat {
    GREP_LINE_OVERHEAD + |line|
  }

  function LinesCost(lines: seq<string>): nat {
    if lines == [] then 0 else LinesCost(lines[..|lines| - 1]) + LineCost(lines[|lines| - 1])
  }

  function MatchCost(m: Match): nat {
    GREP_MATCH_OVERHEAD + |m.path| + |m.encoding| + |m.text| + LinesCost(m.before) + LinesCost(m.after)
  }

  function Cost(matches: seq<Match>): nat {
    if matches == [] then 0 else Cost(matches[..|matches| - 1]) + MatchCost(matches[|matches| - 1])
  }

  lemma LinesCostStep(lines: seq<string>, line: string)
    ensures LinesCost(lines + [line]) == LinesCost(lines) + LineCost(line)
  {
    assert (lines + [line])[..|lines|] == lines;
  }

  lemma {:induction false} LinesCostFirst(lines: seq<string>)
    requires lines != []
    ensures LinesCost(lines) == LineCost(lines[0]) + LinesCost(lines[1..])
  {
    if |lines| > 1 {
      LinesCostFirst(lines[..|lines| - 1]);
      assert lines[..|lines| - 1][1..] == lines[1..][..|lines| - 2];
    } else {
      assert lines == [] + [lines[0]] && lines[1..] == [];
      LinesCostStep([], lines[0]);
    }
  }

  lemma CostStep(matches: seq<Match>, m: Match)
    ensures Cost(matches + [m]) == Cost(matches) + MatchCost(m)
  {
    assert (matches + [m])[..|matches|] == matches;
  }

  lemma {:induction false} CostOfConcat(front: seq<Match>, back: seq<Match>)
    ensures Cost(front + back) == Cost(front) + Cost(back)
  {
    hide MatchCost;
    if back == [] {
      assert front + back == front;
    } else {
      var init, last := back[..|back| - 1], back[|back| - 1];
      CostOfConcat(front, init);
      CostStep(front + init, last);
      CostStep(init, last);
      assert front + back == front + init + [last] && back == init + [last];
    }
  }

  /** The loop over one match's context lines. */
  method AddLines(total: int, lines: seq<string>) returns (sum: int)
    requires 0 <= total
    ensures sum == if lines == [] then total else Min(MAX_INT64, total + LinesCost(lines))
  {
    sum := total;
    for k := 0 to |lines|
      invariant 0 <= sum == if k == 0 then total else Min(MAX_INT64, total + LinesCost(lines[..k]))
    {
      assert lines[..k + 1] == lines[..k] + [lines[k]];
      LinesCostStep(lines[..k], lines[k]);
      sum := SaturatingAdd(sum, GREP_LINE_OVERHEAD + |lines[k]|);
    }
    assert lines[..|lines|] == lines;
  }

  /** The bytes a list of matches holds, up to the largest 64-bit number. */
  method GrepMatchesRetainedBytes(matches: seq<Match>) returns (total: int)
    ensures total == Min(MAX_INT64, Cost(matches))
  {
    total := 0;
    for k := 0 to |matches|
      invariant 0 <= total == Min(MAX_INT64, Cost(matches[..k])) <= MAX_INT64
    {
      assert matches[..k + 1] == matches[..k] + [matches[k]];
      CostStep(matches[..k], matches[k]);
      var m := matches[k];
      total := SaturatingAdd(total, GREP_MATCH_OVERHEAD + |m.path| + |m.encoding| + |m.text|);
      total := AddLines(total, m.before);
      total := AddLines(total, m.after);
    }
    assert matches[..|matches|] == matches;
  }

  // ----- the answer

  /** One file's search. `find` gives the column of the first match in a line. */
  datatype Query = Query(path: string, encoding: string, find: string -> Option<nat>,
                         maxMatches: int, contextBefore: int, contextAfter: int, budget: int) {

    function Before(): nat { Max(0, contextBefore) }

    function After(): nat { Max(0, contextAfter) }

    function Limit(): nat { Max(0, maxMatches) }

    /** The indices of the matching lines, in order. */
    function Hits(lines: seq<string>): (hits: seq<nat>)
      ensures |hits| <= |lines|
      ensures forall j | 0 <= j < |hits| :: hits[j] < |lines| && find(lines[hits[j]]).Some?
    {
      if lines == [] then []
      else
        var last := |lines| - 1;
        Hits(lines[..last]) + if find(lines[last]).Some? then [last] else []
    }

    /** The lines just before line `k`. */
    function Recent(lines: seq<string>, k: nat): seq<string>
      requires k <= |lines|
    {
      lines[Max(0, k - Before())..k]
    }

    /** A match with the lines around it. */
    function MatchAt(lines: seq<string>, k: nat): Match
      requires k < |lines| && find(lines[k]).Some?
    {
      Match(path, k + 1, find(lines[k]).value + 1, lines[k], encoding,
            Recent(lines, k), lines[k + 1..Min(|lines|, k + 1 + After())])
    }

    /** Every match of the lines, with its context. */
    function All(lines: seq<string>): (all: seq<Match>)
      ensures |all| == |Hits(lines)|
    {
      var hits := Hits(lines);
      seq(|hits|, j requires 0 <= j < |hits| => MatchAt(lines, hits[j]))
    }

    /** The first matches of the lines, as many as are asked for. */
    function Answer(lines: seq<string>): (answer: seq<Match>)
      ensures |answer| == Min(|Hits(lines)|, Limit())
    {
      All(lines)[..Min(|All(lines)|, Limit())]
    }

    predicate More(lines: seq<string>) {
      |Hits(lines)| > Limit()
    }

    /** A match that has not got all of its following lines. */
    predicate Open(m: Match) {
      |m.after| < After()
    }

    /** A further match was seen, and none of those kept waits for another line. */
    predicate Settled(lines: seq<string>) {
      More(lines) && forall m | m in Answer(lines) :: !Open(m)
    }

    /** The bytes held by the answer so far and the buffered lines. */
    function Held(answered: seq<string>, buffered: seq<string>): nat {
      Cost(Answer(answered)) + LinesCost(Recent(buffered, |buffered|))
    }

    /** Reading `line` stays within the budget: first as part of the answer, then in the buffer. */
    predicate Fits(lines: seq<string>, line: string) {
      Held(lines + [line], lines) <= budget && Held(lines + [line], lines + [line]) <= budget
    }

    /** Reading the lines stays within the budget up to where the search is settled. */
    ghost predicate Affordable(lines: seq<string>) {
      forall k | 0 <= k < |lines| && Unsettled(lines, k) :: Fits(lines[..k], lines[k])
    }

    /** Line `k` is read: nothing before it settled the search. */
    ghost predicate Unsettled(lines: seq<string>, k: nat)
      requires k <= |lines|
    {
      forall j | 0 < j <= k :: !Settled(lines[..j])
    }

    // ----- one more line

    lemma {:induction false} HitsAreAll(lines: seq<string>, k: nat)
      requires k < |lines| && find(lines[k]).Some?
      ensures k in Hits(lines)
    {
      var last := |lines| - 1;
      if k < last {
        assert lines[..last][k] == lines[k];
        HitsAreAll(lines[..last], k);
      } else {
        assert Hits(lines)[|Hits(lines)| - 1] == k;
      }
    }

    lemma {:induction false} HitsIncrease(lines: seq<string>, i: nat, j: nat)
      requires i < j < |Hits(lines)|
      ensures Hits(lines)[i] < Hits(lines)[j]
    {
      var last := |lines| - 1;
      var earlier := Hits(lines[..last]);
      if j < |earlier| {
        HitsIncrease(lines[..last], i, j);
      }
    }

    lemma HitsStep(lines: seq<string>, line: string)
      ensures Hits(lines + [line]) == Hits(lines) + if find(line).Some? then [|lines|] else []
    {
      assert (lines + [line])[..|lines|] == lines;
    }

    /** A match after one more line has been read. */
    function WithLine(m: Match, line: string): Match {
      if Open(m) then m.(after := m.after + [line]) else m
    }

    function Extended(matches: seq<Match>, line: string): seq<Match> {
      seq(|matches|, j requires 0 <= j < |matches| => WithLine(matches[j], line))
    }

    lemma AfterStep(lines: seq<string>, line: string, k: nat)
      requires k < |lines|
      ensures var was, now := lines[k + 1..Min(|lines|, k + 1 + After())],
                              (lines + [line])[k + 1..Min(|lines| + 1, k + 1 + After())];
              now == was + if |was| < After() then [line] else []
    {
    }

    lemma MatchStep(lines: seq<string>, line: string, k: nat)
      requires k < |lines| && find(lines[k]).Some?
      ensures MatchAt(lines + [line], k) == WithLine(MatchAt(lines, k), line)
    {
      AfterStep(lines, line, k);
      assert Recent(lines + [line], k) == Recent(lines, k);
    }

    /** The new match when the line just read is one. */
    function Fresh(lines: seq<string>, line: string): Match
      requires find(line).Some?
    {
      Match(path, |lines| + 1, find(line).value + 1, line, encoding, Recent(lines, |lines|), [])
    }

    function NewMatches(lines: seq<string>, line: string): seq<Match> {
      if find(line).Some? && |Hits(lines)| < Limit() then [Fresh(lines, line)] else []
    }

    lemma FreshMatch(lines: seq<string>, line: string)
      requires find(line).Some?
      ensures MatchAt(lines + [line], |lines|) == Fresh(lines, line)
    {
      assert Recent(lines + [line], |lines|) == Recent(lines, |lines|);
    }

    /** The answer after one more line. */
    lemma AnswerStep(lines: seq<string>, line: string)
      ensures Answer(lines + [line]) == Extended(Answer(lines), line) + NewMatches(lines, line)
    {
      HitsStep(lines, line);
      hide Hits, MatchAt, WithLine, Fresh;
      var hits, was, now := Hits(lines + [line]), Answer(lines), Answer(lines + [line]);
      forall j | 0 <= j < |was| ensures now[j] == Extended(was, line)[j] {
        MatchStep(lines, line, hits[j]);
      }
      if find(line).Some? {
        FreshMatch(lines, line);
      }
    }

    lemma RecentStep(lines: seq<string>, line: string)
      ensures var was := Recent(lines, |lines|);
              Recent(lines + [line], |lines| + 1)
              == if Before() == 0 then [] else (if |was| == Before() then was[1..] else was) + [line]
    {
    }

    // ----- the bytes of one more line

    lemma WithLineCost(m: Match, line: string)
      requires Open(m)
      ensures MatchCost(WithLine(m, line)) == MatchCost(m) + LineCost(line)
    {
      LinesCostStep(m.after, line);
    }

    lemma ExtendedStep(matches: seq<Match>, m: Match, line: string)
      ensures Extended(matches + [m], line) == Extended(matches, line) + [WithLine(m, line)]
    {
    }

    lemma {:induction false} ExtendedOpenCost(matches: seq<Match>, line: string)
      requires forall m | m in matches :: Open(m)
      ensures Cost(Extended(matches, line)) == Cost(matches) + |matches| * LineCost(line)
    {
      hide MatchCost, WithLine, Extended, Open, LineCost;
      if matches == [] {
        NothingExtended(line);
      } else {
        var init, last := matches[..|matches| - 1], matches[|matches| - 1];
        assert last in matches && matches == init + [last];
        ExtendedOpenCost(init, line);
        ExtendedStep(init, last, line);
        WithLineCost(last, line);
        CostStep(Extended(init, line), WithLine(last, line));
        Times(|init|, LineCost(line));
      }
    }

    lemma NothingExtended(line: string)
      ensures Extended([], line) == []
    {
    }

    lemma Times(n: nat, c: int)
      ensures (n + 1) * c == n * c + c
    {
    }

    lemma ExtendedClosed(matches: seq<Match>, line: string)
      requires forall m | m in matches :: !Open(m)
      ensures Extended(matches, line) == matches
    {
    }

    lemma ExtendedConcat(front: seq<Match>, back: seq<Match>, line: string)
      ensures Extended(front + back, line) == Extended(front, line) + Extended(back, line)
    {
    }

    // ----- once settled, always settled

    lemma SettledStep(lines: seq<string>, line: string)
      requires Settled(lines)
      ensures Settled(lines + [line]) && Answer(lines + [line]) == Answer(lines)
    {
      AnswerStep(lines, line);
      HitsStep(lines, line);
      ExtendedClosed(Answer(lines), line);
    }

    /** The early stop changes nothing: the lines that are not read would not change the answer. */
    lemma {:induction false} EarlyStop(lines: seq<string>, rest: seq<string>)
      requires Settled(lines)
      ensures Answer(lines + rest) == Answer(lines) && More(lines + rest)
      decreases |rest|
    {
      if rest == [] {
        assert lines + rest == lines;
      } else {
        SettledStep(lines, rest[0]);
        EarlyStop(lines + [rest[0]], rest[1..]);
        assert lines + [rest[0]] + rest[1..] == lines + rest;
      }
    }
  }
}
