/** The search of a whole file, filetoolsserver/handler/grep.go: physical lines, the carriage returns
    inside them, the early stop and the budget. The result is the answer stated on all of the lines.
 */
module GrepFile {
  import opened Basics
  import opened Wrappers
  import opened GrepMatch
  import opened GrepScan

  // ----- logical lines

  /** Where the first carriage return is, or -1. */
  function SeparatorIndex(data: string): (at: int)
    ensures -1 <= at < |data|
    ensures at >= 0 ==> data[at] == '\r' && '\r' !in data[..at]
    ensures at < 0 ==> '\r' !in data
  {
    if data == [] then -1
    else if data[0] == '\r' then 0
    else
      var rest := SeparatorIndex(data[1..]);
      assert data == [data[0]] + data[1..] && (rest >= 0 ==> data[..rest + 1] == [data[0]] + data[1..][..rest]);
      if rest < 0 then -1 else rest + 1
  }

  /** The parts of a physical line between its carriage returns. */
  function Segments(data: string): seq<string>
    decreases |data|
  {
    var at := SeparatorIndex(data);
    if at < 0 then [data] else [data[..at]] + Segments(data[at + 1..])
  }

  function JoinedCR(parts: seq<string>): string {
    if parts == [] then [] else if |parts| == 1 then parts[0] else parts[0] + ['\r'] + JoinedCR(parts[1..])
  }

  /** The segments are the line, cut at every carriage return and nowhere else. */
  lemma {:induction false} SegmentsOfLine(data: string)
    ensures Segments(data) != [] && JoinedCR(Segments(data)) == data
    ensures forall k | 0 <= k < |Segments(data)| :: '\r' !in Segments(data)[k]
    decreases |data|
  {
    var at := SeparatorIndex(data);
    if at >= 0 {
      SegmentsOfLine(data[at + 1..]);
      var rest := Segments(data[at + 1..]);
      assert ([data[..at]] + rest)[1..] == rest;
      assert data == data[..at] + ['\r'] + data[at + 1..];
    }
  }

  function LogicalLines(physical: seq<string>): seq<string> {
    if physical == [] then [] else Segments(physical[0]) + LogicalLines(physical[1..])
  }

  lemma {:induction false} LogicalLinesOfConcat(first: seq<string>, second: seq<string>)
    ensures LogicalLines(first + second) == LogicalLines(first) + LogicalLines(second)
  {
    hide Segments;
    if first == [] {
      assert first + second == second;
    } else {
      LogicalLinesOfConcat(first[1..], second);
      assert (first + second)[1..] == first[1..] + second;
    }
  }

  /** The logical lines are those of each physical line in turn: cut at carriage returns, they rejoin to it. */
  lemma LogicalLinesOf(physical: seq<string>, i: nat) returns (from: nat, to: nat)
    requires i < |physical|
    ensures from == |LogicalLines(physical[..i])| && to == |LogicalLines(physical[..i + 1])|
    ensures from < to <= |LogicalLines(physical)|
    ensures JoinedCR(LogicalLines(physical)[from..to]) == physical[i]
    ensures forall k | from <= k < to :: '\r' !in LogicalLines(physical)[k]
    ensures LogicalLines(physical[..|physical|]) == LogicalLines(physical) && LogicalLines(physical[..0]) == []
  {
    var before, line, after := physical[..i], [physical[i]], physical[i + 1..];
    SegmentsOfLine(physical[i]);
    assert line[1..] == [];
    assert LogicalLines(line) == Segments(physical[i]);
    assert physical[..i + 1] == before + line && physical == before + line + after && physical[..|physical|] == physical;
    LogicalLinesOfConcat(before, line);
    LogicalLinesOfConcat(before + line, after);
    hide Segments, JoinedCR;
    from, to := |LogicalLines(before)|, |LogicalLines(before + line)|;
    assert LogicalLines(physical)[from..to] == Segments(physical[i]);
  }

  // ----- reading until the search stops

  datatype Walked = Walked(signal: Signal, seen: seq<string>)

  /** How far the lines are read, and why the reading ends. */
  function Walk(query: Query, seen: seq<string>, lines: seq<string>): Walked
    decreases |lines|
  {
    if lines == [] then Walked(Continue, seen)
    else if !query.Fits(seen, lines[0]) then Walked(Exceeded, seen)
    else if query.Settled(seen + [lines[0]]) then Walked(Stop, seen + [lines[0]])
    else Walk(query, seen + [lines[0]], lines[1..])
  }

  lemma {:induction false} WalkConcat(query: Query, seen: seq<string>, first: seq<string>, second: seq<string>)
    ensures Walk(query, seen, first + second)
         == if Walk(query, seen, first).signal == Continue then Walk(query, Walk(query, seen, first).seen, second)
            else Walk(query, seen, first)
    decreases |first|
  {
    hide Query.Fits, Query.Settled;
    if first == [] {
      assert first + second == second;
    } else {
      assert (first + second)[1..] == first[1..] + second;
      WalkConcat(query, seen + [first[0]], first[1..], second);
    }
  }

  lemma WalkOne(query: Query, seen: seq<string>, line: string)
    ensures Walk(query, seen, [line])
         == if !query.Fits(seen, line) then Walked(Exceeded, seen)
            else Walked(if query.Settled(seen + [line]) then Stop else Continue, seen + [line])
  {
    hide Query.Fits, Query.Settled;
    assert [line][1..] == [];
  }

  /** Where a reading ends, in terms of the whole sequence of lines. */
  lemma {:induction false} WalkOf(query: Query, lines: seq<string>, k: nat)
    requires k <= |lines| && query.Unsettled(lines, k)
    requires forall j | 0 <= j < k :: query.Fits(lines[..j], lines[j])
    ensures var w := Walk(query, lines[..k], lines[k..]);
            && (w.signal == Exceeded <==> !query.Affordable(lines))
            && (w.signal == Stop ==> w.seen <= lines && query.Settled(w.seen))
            && (w.signal == Continue ==> w.seen == lines)
    decreases |lines| - k
  {
    hide Query.Fits, Query.Settled;
    if k == |lines| {
      assert lines[..k] == lines;
    } else {
      assert lines[..k] + [lines[k]] == lines[..k + 1];
      assert lines[k..][0] == lines[k] && lines[k..][1..] == lines[k + 1..];
      if query.Fits(lines[..k], lines[k]) {
        if query.Settled(lines[..k + 1]) {
          SettledIsAffordable(query, lines, k);
        } else {
          WalkOf(query, lines, k + 1);
        }
      }
    }
  }

  lemma SettledIsAffordable(query: Query, lines: seq<string>, k: nat)
    requires k < |lines| && query.Settled(lines[..k + 1])
    requires forall j | 0 <= j <= k :: query.Fits(lines[..j], lines[j])
    ensures query.Affordable(lines)
  {
    hide Query.Fits, Query.Settled;
    forall j | 0 <= j < |lines| && query.Unsettled(lines, j) ensures query.Fits(lines[..j], lines[j]) {
      ReadUpTo(query, lines, k, j);
    }
  }

  lemma ReadUpTo(query: Query, lines: seq<string>, k: nat, j: nat)
    requires k < |lines| && query.Settled(lines[..k + 1]) && j <= |lines| && query.Unsettled(lines, j)
    ensures j <= k
  {
  }

  // ----- the pass

  /** Every part of one physical line, until one ends the reading. */
  method ForEachCRSegment(scanner: Scanner, data: string) returns (signal: Signal)
    requires scanner.Valid()
    modifies scanner
    ensures signal == Walk(scanner.query, old(scanner.seen), Segments(data)).signal
    ensures signal != Exceeded ==> scanner.Valid() && scanner.seen == Walk(scanner.query, old(scanner.seen), Segments(data)).seen
  {
    hide Query.Fits, Query.Settled, Walk, Scanner.Valid;
    var rest := data;
    while true
      invariant scanner.Valid()
      invariant Walk(scanner.query, scanner.seen, Segments(rest)) == Walk(scanner.query, old(scanner.seen), Segments(data))
      decreases |rest|
    {
      var separator := SeparatorIndex(rest);
      var line := if separator < 0 then rest else rest[..separator];
      WalkOne(scanner.query, scanner.seen, line);
      WalkConcat(scanner.query, scanner.seen, [line], if separator < 0 then [] else Segments(rest[separator + 1..]));
      signal := scanner.ProcessLine(line);
      if separator < 0 || signal != Continue {
        return;
      }
      rest := rest[separator + 1..];
    }
  }

  datatype FileResult = Found(matches: seq<Match>, truncated: bool) | BudgetExceeded

  /** Every physical line, until one ends the reading. */
  method ScanLines(scanner: Scanner, physical: seq<string>) returns (signal: Signal)
    requires scanner.Valid()
    modifies scanner
    ensures signal == Walk(scanner.query, old(scanner.seen), LogicalLines(physical)).signal
    ensures signal != Exceeded ==>
              scanner.Valid() && scanner.seen == Walk(scanner.query, old(scanner.seen), LogicalLines(physical)).seen
  {
    hide Query.Fits, Query.Settled, Walk, Scanner.Valid, Segments;
    signal := Continue;
    ghost var goal := Walk(scanner.query, scanner.seen, LogicalLines(physical));
    assert physical[0..] == physical;
    for i := 0 to |physical|
      invariant signal == Continue && scanner.Valid()
      invariant goal == Walk(scanner.query, scanner.seen, LogicalLines(physical[i..]))
    {
      WalkConcat(scanner.query, scanner.seen, Segments(physical[i]), LogicalLines(physical[i + 1..]));
      assert physical[i..][1..] == physical[i + 1..];
      signal := ForEachCRSegment(scanner, physical[i]);
      if signal != Continue {
        return;
      }
    }
    WalkNothing(scanner.query, scanner.seen);
  }

  /** The matches made and those still queued, in order. */
  method Flush(scanner: Scanner) returns (matches: seq<Match>)
    ensures matches == scanner.matches + Unwrapped(scanner.pending)
  {
    matches := scanner.matches;
    for j := 0 to |scanner.pending|
      invariant matches == scanner.matches + Unwrapped(scanner.pending[..j])
    {
      UnwrappedConcat(scanner.pending[..j], [scanner.pending[j]]);
      assert scanner.pending[..j + 1] == scanner.pending[..j] + [scanner.pending[j]];
      assert Unwrapped([scanner.pending[j]]) == [scanner.pending[j].m];
      matches := matches + [scanner.pending[j].m];
    }
    assert scanner.pending[..|scanner.pending|] == scanner.pending;
  }

  /** One pass over the physical lines of a file. */
  method SearchSingleFile(query: Query, physical: seq<string>) returns (result: FileResult)
    requires 0 < query.budget <= MAX_INT64
    ensures query.maxMatches <= 0 ==> result == Found([], false)
    ensures query.maxMatches > 0 ==>
              var lines := LogicalLines(physical);
              result == if query.Affordable(lines) then Found(query.Answer(lines), query.More(lines)) else BudgetExceeded
    ensures result.Found? ==> Cost(result.matches) <= query.budget
  {
    hide Query.Affordable, Query.Answer, Query.More, Walk, Query.Settled, LogicalLines, Scanned;
    if query.maxMatches <= 0 {
      NoCost();
      return Found([], false);
    }
    var scanner := new Scanner(query);
    ghost var lines := LogicalLines(physical);
    WalkFromStart(query, lines);
    var signal := ScanLines(scanner, physical);
    if signal == Exceeded {
      return BudgetExceeded;
    }
    if signal == Stop {
      query.EarlyStop(scanner.seen, lines[|scanner.seen|..]);
      assert scanner.seen + lines[|scanner.seen|..] == lines;
    }
    Final(query, scanner.seen, scanner.Now());
    var matches := Flush(scanner);
    return Found(matches, scanner.truncated);
  }

  lemma NoCost()
    ensures Cost([]) == 0
  {
  }

  lemma WalkFromStart(query: Query, lines: seq<string>)
    ensures var w := Walk(query, [], lines);
            && (w.signal == Exceeded <==> !query.Affordable(lines))
            && (w.signal == Stop ==> w.seen <= lines && query.Settled(w.seen) && query.More(w.seen))
            && (w.signal == Continue ==> w.seen == lines)
  {
    assert lines[..0] == [] && lines[0..] == lines;
    WalkOf(query, lines, 0);
  }

  lemma WalkNothing(query: Query, seen: seq<string>)
    ensures Walk(query, seen, []) == Walked(Continue, seen) && LogicalLines([]) == []
  {
  }

  /** What the state holds when the reading ends. */
  lemma Final(query: Query, seen: seq<string>, st: State)
    requires Scanned(query, seen, st)
    ensures st.matches + Unwrapped(st.pending) == query.Answer(seen)
    ensures Cost(query.Answer(seen)) <= query.budget
    ensures st.truncated <==> query.More(seen)
  {
  }
}
