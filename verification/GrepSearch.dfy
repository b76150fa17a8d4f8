/** Searching many files, filetoolsserver/handler/grep.go: workers read the remaining match count before
    their own turn, possibly long before, and their results are committed in file order.
 */
module GrepSearch {
  import opened Basics
  import opened Wrappers
  import opened GrepMatch
  import opened GrepFile
  import OrderedCommit

  /** A file as the search meets it: unreadable, or physical lines with the planned worst case in bytes. */
  datatype File = Unreadable(path: string) | File(path: string, encoding: string, physical: seq<string>, worst: int)

  /** What every file is searched for, and whether one worker runs at a time. */
  datatype Search = Search(find: string -> Option<nat>, contextBefore: int, contextAfter: int,
                           maxMatches: nat, maxOutputBytes: int, oneWorker: bool) {

    function QueryOf(file: File, limit: int, budget: int): Query
      requires file.File?
    {
      Query(file.path, file.encoding, find, limit, contextBefore, contextAfter, budget)
    }

    /** Every match of one file; an unreadable one has none. */
    function MatchesOf(file: File): seq<Match> {
      if file.Unreadable? then [] else QueryOf(file, 0, 0).All(LogicalLines(file.physical))
    }

    /** What the matches of a file are: one for every matching line, in order, with its place, its text and the
        lines around it as far as there are so many. */
    lemma MatchesAre(file: File) returns (hits: seq<nat>)
      requires file.File?
      ensures forall i, j | 0 <= i < j < |hits| :: hits[i] < hits[j]
      ensures var lines := LogicalLines(file.physical);
              forall k: nat :: k in hits <==> k < |lines| && find(lines[k]).Some?
      ensures |MatchesOf(file)| == |hits|
      ensures var lines := LogicalLines(file.physical);
              forall j | 0 <= j < |hits| ::
                var k, m := hits[j], MatchesOf(file)[j];
                && k < |lines| && find(lines[k]).Some?
                && m.path == file.path && m.encoding == file.encoding
                && m.line == k + 1 && m.column == find(lines[k]).value + 1 && m.text == lines[k]
                && m.before == lines[Max(0, k - Max(0, contextBefore))..k]
                && m.after == lines[k + 1..Min(|lines|, k + 1 + Max(0, contextAfter))]
    {
      var q, lines := QueryOf(file, 0, 0), LogicalLines(file.physical);
      hits := q.Hits(lines);
      hide Query.Hits;
      forall i, j | 0 <= i < j < |hits| ensures hits[i] < hits[j] {
        q.HitsIncrease(lines, i, j);
      }
      forall k: nat ensures k in hits <==> k < |lines| && find(lines[k]).Some? {
        if k < |lines| && find(lines[k]).Some? {
          q.HitsAreAll(lines, k);
        }
      }
    }

    /** The concatenation of the files' matches. */
    function Total(files: seq<File>): seq<Match> {
      if files == [] then [] else Total(files[..|files| - 1]) + MatchesOf(files[|files| - 1])
    }

    function First(files: seq<File>): (first: seq<Match>)
      ensures |first| == Min(|Total(files)|, maxMatches)
    {
      Total(files)[..Min(|Total(files)|, maxMatches)]
    }

    function Left(files: seq<File>): nat {
      maxMatches - |First(files)|
    }

    lemma TotalStep(files: seq<File>, i: nat)
      requires i < |files|
      ensures Total(files[..i + 1]) == Total(files[..i]) + MatchesOf(files[i])
    {
      assert files[..i + 1][..i] == files[..i];
    }

    lemma {:induction false} TotalGrows(files: seq<File>, i: nat)
      requires i <= |files|
      ensures |Total(files[..i])| <= |Total(files)| && Total(files[..i]) == Total(files)[..|Total(files[..i])|]
    {
      hide MatchesOf;
      if i == |files| {
        assert files[..i] == files;
      } else {
        var n := |files| - 1;
        TotalGrows(files[..n], i);
        assert files[..n][..i] == files[..i];
      }
    }

    /** Where the commits end, the answer is the one for all files. */
    lemma Ended(files: seq<File>, i: nat)
      requires i <= |files| && (i == |files| || |Total(files[..i])| > maxMatches)
      ensures First(files[..i]) == First(files)
      ensures |Total(files[..i])| > maxMatches <==> |Total(files)| > maxMatches
    {
      TotalGrows(files, i);
      hide Total;
      if i == |files| {
        assert files[..i] == files;
      }
    }

    /** Fewer matches are left the more files are committed. */
    lemma LeftShrinks(files: seq<File>, i: nat, j: nat)
      requires i <= j <= |files|
      ensures Left(files[..j]) <= Left(files[..i])
    {
      TotalGrows(files[..j], i);
      assert files[..j][..i] == files[..i];
    }

    /** The limit changes how many matches are kept, not which come first. */
    lemma LimitTakesFirst(file: File, limit: int, budget: int)
      requires file.File? && limit > 0
      ensures var q, lines, all := QueryOf(file, limit, budget), LogicalLines(file.physical), MatchesOf(file);
              q.Answer(lines) == all[..Min(|all|, limit)] && (q.More(lines) <==> |all| > limit)
    {
      SameAll(QueryOf(file, limit, budget), QueryOf(file, 0, 0), LogicalLines(file.physical));
    }

    /** Taking from a limited result what is left is taking from all of the file's matches. */
    lemma CommitStep(files: seq<File>, i: nat, limit: nat, found: seq<Match>, more: bool)
      requires i < |files| && Max(1, Left(files[..i])) <= limit
      requires found == MatchesOf(files[i])[..Min(|MatchesOf(files[i])|, limit)]
      requires more <==> |MatchesOf(files[i])| > limit
      ensures var take := Min(Left(files[..i]), |found|);
              && First(files[..i + 1]) == First(files[..i]) + found[..take]
              && (|Total(files[..i + 1])| > maxMatches
                  <==> |Total(files[..i])| > maxMatches || (found != [] && (more || take < |found|)))
    {
      TotalStep(files, i);
      hide Total, MatchesOf;
      var total, all := Total(files[..i]), MatchesOf(files[i]);
      Taken(total, all, maxMatches, limit);
    }

    lemma SkipStep(files: seq<File>, i: nat)
      requires i < |files| && files[i].Unreadable?
      ensures Total(files[..i + 1]) == Total(files[..i]) && First(files[..i + 1]) == First(files[..i])
    {
      TotalStep(files, i);
    }

    /** The search of a file under some limit and budget runs out of the budget. */
    ghost predicate Fails(file: File, limit: nat, budget: int) {
      budget <= 0 || (file.File? && !QueryOf(file, limit, budget).Affordable(LogicalLines(file.physical)))
    }

    /** The limit a worker reads after some commits: what is left then, and at least one. */
    function LimitAfter(files: seq<File>, commits: nat): nat
      requires commits <= |files|
    {
      Max(1, Left(files[..commits]))
    }

    /** The output bytes left after some commits. */
    function OutputAfter(files: seq<File>, commits: nat): int
      requires commits <= |files|
    {
      maxOutputBytes - Cost(First(files[..commits]))
    }

    /** A lone worker searches within what is left, others within their own file's worst case. */
    function BudgetOf(file: File, output: int): int {
      var worst := if file.File? then file.worst else MAX_INT64;
      if oneWorker || worst <= 0 then output else worst
    }

    /** The search of file `i` fails under what its worker reads. */
    ghost predicate FailsAt(files: seq<File>, schedule: seq<Reads>, i: nat)
      requires Schedule(schedule, files, oneWorker) && i < |files|
    {
      Fails(files[i], LimitAfter(files, schedule[i].matchesAfter), BudgetOf(files[i], OutputAfter(files, schedule[i].outputAfter)))
    }
  }

  lemma SameAll(q: Query, r: Query, lines: seq<string>)
    requires q.(maxMatches := r.maxMatches, budget := r.budget) == r
    ensures q.All(lines) == r.All(lines) && q.Hits(lines) == r.Hits(lines)
  {
    SameHits(q, r, lines);
    forall j | 0 <= j < |q.Hits(lines)| ensures q.All(lines)[j] == r.All(lines)[j] {
    }
  }

  lemma {:induction false} SameHits(q: Query, r: Query, lines: seq<string>)
    requires q.(maxMatches := r.maxMatches, budget := r.budget) == r
    ensures q.Hits(lines) == r.Hits(lines)
  {
    if lines != [] {
      SameHits(q, r, lines[..|lines| - 1]);
    }
  }

  lemma Taken(total: seq<Match>, all: seq<Match>, max: nat, limit: nat)
    requires limit >= Max(1, max - Min(|total|, max))
    ensures var found := all[..Min(|all|, limit)];
            var take := Min(max - Min(|total|, max), |found|);
            && (total + all)[..Min(|total + all|, max)] == total[..Min(|total|, max)] + found[..take]
            && (|total + all| > max <==> |total| > max || (found != [] && (|all| > limit || take < |found|)))
  {
    var found := all[..Min(|all|, limit)];
    var take := Min(max - Min(|total|, max), |found|);
    assert found[..take] == all[..take];
  }

  /** When a worker reads the two shared counters: after how many commits. */
  datatype Reads = Reads(matchesAfter: nat, outputAfter: nat)

  datatype Summary = Summary(matches: seq<Match>, filesScanned: nat, committed: nat, scanComplete: bool,
                             truncated: bool, failed: bool)

  /** The number of readable files. */
  function Readable(files: seq<File>): nat {
    if files == [] then 0 else Readable(files[..|files| - 1]) + if files[|files| - 1].File? then 1 else 0
  }

  /** A worker runs before its own turn, and, when it is the only one, just before it. */
  ghost predicate Schedule(schedule: seq<Reads>, files: seq<File>, oneWorker: bool) {
    && |schedule| == |files|
    && forall i | 0 <= i < |schedule| ::
         && schedule[i].matchesAfter <= i && schedule[i].outputAfter <= i
         && (oneWorker ==> schedule[i] == Reads(i, i))
  }

  /** The pool gives such a schedule: a worker reads after its item was dispatched and before its own commit.
      A pool that stops early dispatches some of the items only; what the others would read does not matter. */
  lemma PoolSchedules(dispatchedAfter: seq<nat>, workers: nat, seen: seq<Reads>, files: seq<File>)
    returns (schedule: seq<Reads>)
    requires OrderedCommit.Timely(dispatchedAfter, workers)
    requires |seen| == |dispatchedAfter| <= |files|
    requires forall i | 0 <= i < |seen| ::
               && dispatchedAfter[i] <= seen[i].matchesAfter <= i
               && dispatchedAfter[i] <= seen[i].outputAfter <= i
    ensures Schedule(schedule, files, workers == 1) && seen <= schedule
  {
    schedule := seq(|files|, i requires 0 <= i < |files| => if i < |seen| then seen[i] else Reads(i, i));
    forall i | 0 <= i < |seen| && workers == 1 ensures dispatchedAfter[i] == i {
      OrderedCommit.OneWorkerIsNeverStale(dispatchedAfter, i);
    }
  }

  datatype Outcome = Searched(matches: seq<Match>, truncated: bool) | CannotRead | OutOfBudget

  /** The search of a readable file within a limit and a budget. */
  method WorkOn(search: Search, file: File, limit: nat, budget: int) returns (outcome: Outcome)
    requires file.File? && 0 < limit && 0 < budget <= MAX_INT64
    ensures outcome == OutOfBudget <==> search.Fails(file, limit, budget)
    ensures outcome != CannotRead
    ensures outcome.Searched? ==>
              var all := search.MatchesOf(file);
              && outcome.matches == all[..Min(|all|, limit)] && (outcome.truncated <==> |all| > limit)
              && Cost(outcome.matches) <= budget
  {
    var query := Query(file.path, file.encoding, search.find, limit, search.contextBefore, search.contextAfter, budget);
    assert query == search.QueryOf(file, limit, budget);
    assert query.maxMatches == limit && query.budget == budget;
    search.LimitTakesFirst(file, limit, budget);
    hide Query.Affordable, Query.Answer, Query.All, Query.More, Search.MatchesOf, Search.QueryOf, LogicalLines, Cost;
    var result := SearchSingleFile(query, file.physical);
    outcome := match result
      case BudgetExceeded => OutOfBudget
      case Found(matches, truncated) => Searched(matches, truncated);
  }

  /** One worker's result for a file, from the counters it read. */
  method Work(search: Search, file: File, remaining: int, output: int) returns (outcome: Outcome)
    requires output <= MAX_INT64 && (file.File? ==> file.worst <= MAX_INT64)
    ensures outcome == OutOfBudget <==> search.Fails(file, Max(1, remaining), search.BudgetOf(file, output))
    ensures outcome == CannotRead ==> file.Unreadable?
    ensures outcome.Searched? ==>
              var all := search.MatchesOf(file);
              var limit := Max(1, remaining);
              && file.File? && outcome.matches == all[..Min(|all|, limit)] && (outcome.truncated <==> |all| > limit)
              && Cost(outcome.matches) <= search.BudgetOf(file, output)
  {
    var matchLimit := remaining;
    if matchLimit <= 0 {
      matchLimit := 1;
    }
    var fileBudget := if file.File? then file.worst else MAX_INT64;
    if search.oneWorker || fileBudget <= 0 {
      fileBudget := output;
    }
    if fileBudget <= 0 {
      return OutOfBudget;
    }
    if file.Unreadable? {
      return CannotRead;
    }
    outcome := WorkOn(search, file, matchLimit, fileBudget);
  }

  /** The search of the files, one commit after another, whatever the workers read when. */
  method SearchFiles(search: Search, files: seq<File>, schedule: seq<Reads>) returns (s: Summary)
    requires Schedule(schedule, files, search.oneWorker) && 0 < search.maxOutputBytes <= MAX_INT64
    requires forall i | 0 <= i < |files| && files[i].File? :: files[i].worst <= MAX_INT64
    ensures !s.failed ==> s.matches == search.First(files) && (s.truncated <==> |search.Total(files)| > search.maxMatches)
    ensures s.truncated ==> |s.matches| == search.maxMatches
    ensures s.scanComplete <==> !s.failed && !s.truncated
    ensures s.committed <= |files| && (s.scanComplete ==> s.committed == |files|)
    ensures !s.failed ==> s.filesScanned == Readable(files[..s.committed])
    ensures s.failed <==> s.committed > 0 && search.FailsAt(files, schedule, s.committed - 1)
    ensures forall i | 0 <= i < s.committed - 1 :: !search.FailsAt(files, schedule, i)
    ensures search.oneWorker ==> Cost(s.matches) <= search.maxOutputBytes
  {
    hide Search.Total, Search.First, Search.MatchesOf, Readable, Search.Fails, Cost;
    var remaining, output, matches: seq<Match>, filesScanned, truncated, i := search.maxMatches, search.maxOutputBytes, [], 0, false, 0;
    var remainingAt, outputAt := [remaining], [output];
    Nothing(search, files);
    while i < |files|
      invariant i <= |files| && |remainingAt| == |outputAt| == i + 1
      invariant matches == search.First(files[..i]) && remaining == search.Left(files[..i])
      invariant forall j | 0 <= j <= i :: remainingAt[j] == search.Left(files[..j]) && outputAt[j] == search.OutputAfter(files, j)
      invariant output == outputAt[i] == search.maxOutputBytes - Cost(matches) && (search.oneWorker ==> output >= 0)
      invariant forall j | 0 <= j < i :: !search.FailsAt(files, schedule, j)
      invariant truncated <==> |search.Total(files[..i])| > search.maxMatches
      invariant filesScanned == Readable(files[..i])
      invariant !(remaining == 0 && truncated)
    {
      var outcome := Work(search, files[i], remainingAt[schedule[i].matchesAfter], outputAt[schedule[i].outputAfter]);
      search.LeftShrinks(files, schedule[i].matchesAfter, i);
      ReadableStep(files, i);
      match outcome {
        case OutOfBudget =>
          return Summary(matches, filesScanned, i + 1, false, truncated, true);
        case CannotRead =>
          search.SkipStep(files, i);
        case Searched(found, more) =>
          search.CommitStep(files, i, search.LimitAfter(files, schedule[i].matchesAfter), found, more);
          filesScanned := filesScanned + 1;
          if |found| > 0 {
            var take := Min(remaining, |found|);
            CostOfConcat(matches, found[..take]);
            CostOfPart(found, take);
            matches := matches + found[..take];
            remaining := remaining - take;
            var bytes := GrepMatchesRetainedBytes(found[..take]);
            output := output - bytes;
            if more || take < |found| {
              truncated := true;
            }
          } else {
            assert matches + found[..0] == matches;
          }
      }
      i := i + 1;
      remainingAt, outputAt := remainingAt + [remaining], outputAt + [output];
      if remaining == 0 && truncated {
        break;
      }
    }
    search.Ended(files, i);
    return Summary(matches, filesScanned, i, !truncated, truncated, false);
  }

  lemma Nothing(search: Search, files: seq<File>)
    ensures files[..0] == [] && search.Total([]) == [] && search.First([]) == [] && Readable([]) == 0 && Cost([]) == 0
  {
  }

  lemma ReadableStep(files: seq<File>, i: nat)
    requires i < |files|
    ensures Readable(files[..i + 1]) == Readable(files[..i]) + if files[i].File? then 1 else 0
  {
    assert files[..i + 1][..i] == files[..i];
  }

  lemma CostOfPart(found: seq<Match>, take: nat)
    requires take <= |found|
    ensures Cost(found[..take]) <= Cost(found)
  {
    hide Cost;
    CostOfConcat(found[..take], found[take..]);
    assert found[..take] + found[take..] == found;
  }
}
