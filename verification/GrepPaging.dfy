/** Paging over the matches of a search, filetoolsserver/handler/grep.go: each page scans one match further
    than it shows, and following the next offsets partitions the matches.
 */
module GrepPaging {
  import opened Basics
  import opened Wrappers
  import opened GrepMatch
  import opened GrepFile
  import opened GrepSearch

  const DEFAULT_MAX_MATCHES := 1000

  datatype Reply =
    | NegativeOffset
    | LimitExceeded
    | SearchFailed
    | Page(matches: seq<Match>, truncated: bool, nextOffset: nat, coverageComplete: bool)

  /** The page size when the request names none. */
  function PageSize(maxMatches: int, limit: int): int {
    if maxMatches <= 0 then Min(DEFAULT_MAX_MATCHES, limit) else maxMatches
  }

  function PageBounds(length: nat, offset: nat, size: nat): (bounds: (nat, nat))
    ensures bounds.0 <= bounds.1 <= length
  {
    var start := Min(offset, length);
    (start, Min(length, start + size))
  }

  /** The matches a page shows. */
  function Shown<T>(all: seq<T>, offset: nat, size: nat): seq<T> {
    all[Min(offset, |all|)..Min(|all|, offset + size)]
  }

  /** Scanning one match past the page shows the same page as scanning everything. */
  lemma ScanningAhead<T>(all: seq<T>, offset: nat, size: nat)
    ensures var found := all[..Min(|all|, offset + size + 1)];
            var (start, end) := PageBounds(|found|, offset, size);
            && found[start..end] == Shown(all, offset, size)
            && (|all| > offset + size ==> end == offset + size)
            && (|all| > offset + size + 1 || end < |found| <==> |all| > offset + size)
  {
    var found := all[..Min(|all|, offset + size + 1)];
    var (start, end) := PageBounds(|found|, offset, size);
    assert found[start..end] == all[start..end];
  }

  lemma {:induction false} SameTotal(search: Search, maxMatches: nat, files: seq<File>)
    ensures search.(maxMatches := maxMatches).Total(files) == search.Total(files)
  {
    if files != [] {
      SameTotal(search, maxMatches, files[..|files| - 1]);
      SameMatches(search, maxMatches, files[|files| - 1]);
    }
  }

  lemma SameMatches(search: Search, maxMatches: nat, file: File)
    ensures search.(maxMatches := maxMatches).MatchesOf(file) == search.MatchesOf(file)
  {
    if file.File? {
      assert search.(maxMatches := maxMatches).QueryOf(file, 0, 0) == search.QueryOf(file, 0, 0);
    }
  }

  lemma {:induction false} AllReadable(files: seq<File>)
    ensures Readable(files) <= |files|
    ensures Readable(files) == |files| <==> forall i | 0 <= i < |files| :: files[i].File?
  {
    if files != [] {
      var init := files[..|files| - 1];
      AllReadable(init);
      assert forall i | 0 <= i < |init| :: files[i] == init[i];
    }
  }

  /** The search of some file runs out of the budget its worker reads. */
  ghost predicate SomeScanFails(scan: Search, files: seq<File>, schedule: seq<Reads>)
    requires Schedule(schedule, files, scan.oneWorker)
  {
    exists i :: 0 <= i < |files| && scan.FailsAt(files, schedule, i)
  }

  /** The search for a page fails: it looks one match past the page. */
  ghost predicate PageFails(search: Search, files: seq<File>, offset: nat, size: nat, schedule: seq<Reads>)
    requires Schedule(schedule, files, search.oneWorker)
  {
    SomeScanFails(search.(maxMatches := offset + size + 1), files, schedule)
  }

  /** Search as far as a page needs. */
  method ScanFor(scan: Search, files: seq<File>, schedule: seq<Reads>) returns (s: Summary)
    requires Schedule(schedule, files, scan.oneWorker) && 0 < scan.maxOutputBytes <= MAX_INT64
    requires forall i | 0 <= i < |files| && files[i].File? :: files[i].worst <= MAX_INT64
    ensures s.failed ==> SomeScanFails(scan, files, schedule)
    ensures !s.failed ==>
              && s.matches == scan.First(files) && (s.truncated <==> |scan.Total(files)| > scan.maxMatches)
              && (s.scanComplete <==> !s.truncated) && s.committed <= |files| && (s.scanComplete ==> s.committed == |files|)
              && s.filesScanned == Readable(files[..s.committed])
  {
    hide Search.Total, Search.First, Search.FailsAt, Readable;
    s := SearchFiles(scan, files, schedule);
  }

  /** The page of the matches from `offset` on, and whether and where there are more. */
  ghost predicate IsPage(search: Search, files: seq<File>, offset: nat, size: nat, reply: Reply) {
    var all := search.Total(files);
    && reply.Page? && reply.matches == Shown(all, offset, size)
    && (reply.truncated <==> |all| > offset + size)
    && reply.nextOffset == (if reply.truncated then offset + size else 0)
    && (reply.coverageComplete <==> |all| <= offset + size + 1 && forall i | 0 <= i < |files| :: files[i].File?)
  }

  /** An accepted request: scan one match past the page and cut the page out. */
  method PageOf(search: Search, files: seq<File>, offset: nat, size: nat, schedule: seq<Reads>) returns (reply: Reply)
    requires Schedule(schedule, files, search.oneWorker) && 0 < search.maxOutputBytes <= MAX_INT64
    requires forall i | 0 <= i < |files| && files[i].File? :: files[i].worst <= MAX_INT64
    ensures reply == SearchFailed || reply.Page?
    ensures if reply == SearchFailed then PageFails(search, files, offset, size, schedule)
            else IsPage(search, files, offset, size, reply)
  {
    if |files| == 0 {
      NoFiles(search, files, offset, size);
      return Page([], false, 0, true);
    }
    hide Search.Total, Search.First, SomeScanFails, Readable, Shown, PageBounds;
    var s := ScanFor(search.(maxMatches := offset + size + 1), files, schedule);
    if s.failed {
      return SearchFailed;
    }
    PageOfSummary(search, files, offset, size, s);
    var (start, end) := PageBounds(|s.matches|, offset, size);
    var truncated := s.truncated || end < |s.matches|;
    return Page(s.matches[start..end], truncated, if truncated then end else 0,
                s.scanComplete && s.filesScanned == |files|);
  }

  /** One request for a page of matches. */
  method HandleGrep(search: Search, files: seq<File>, offset: int, maxMatches: int, limit: int, schedule: seq<Reads>)
    returns (reply: Reply)
    requires Schedule(schedule, files, search.oneWorker) && 0 < search.maxOutputBytes <= MAX_INT64 && 0 < limit
    requires forall i | 0 <= i < |files| && files[i].File? :: files[i].worst <= MAX_INT64
    ensures reply == NegativeOffset <==> offset < 0
    ensures reply == LimitExceeded <==> offset >= 0 && offset + PageSize(maxMatches, limit) > limit
    ensures offset >= 0 && offset + PageSize(maxMatches, limit) <= limit ==>
              var size := PageSize(maxMatches, limit);
              && 0 < size
              && if reply == SearchFailed then PageFails(search, files, offset, size, schedule)
                 else IsPage(search, files, offset, size, reply)
  {
    hide IsPage, PageFails, Schedule;
    if offset < 0 {
      return NegativeOffset;
    }
    var size := maxMatches;
    if size <= 0 {
      size := Min(DEFAULT_MAX_MATCHES, limit);
    }
    if size > limit || offset > limit - size {
      return LimitExceeded;
    }
    reply := PageOf(search, files, offset, size, schedule);
  }

  /** What a finished scan says about the page. */
  lemma PageOfSummary(search: Search, files: seq<File>, offset: nat, size: nat, s: Summary)
    requires s.matches == search.(maxMatches := offset + size + 1).First(files)
    requires s.truncated <==> |search.(maxMatches := offset + size + 1).Total(files)| > offset + size + 1
    requires (s.scanComplete <==> !s.truncated) && (s.scanComplete ==> s.committed == |files|)
    requires s.committed <= |files| && s.filesScanned == Readable(files[..s.committed])
    ensures var all, (start, end) := search.Total(files), PageBounds(|s.matches|, offset, size);
            && s.matches[start..end] == Shown(all, offset, size)
            && (s.truncated || end < |s.matches| <==> |all| > offset + size)
            && (|all| > offset + size ==> end == offset + size)
            && (s.scanComplete && s.filesScanned == |files|
                <==> |all| <= offset + size + 1 && forall i | 0 <= i < |files| :: files[i].File?)
  {
    hide Search.Total, Shown, PageBounds, Readable;
    SameTotal(search, offset + size + 1, files);
    ScanningAhead(search.Total(files), offset, size);
    AllReadable(files);
    assert files[..|files|] == files;
  }

  lemma NoFiles(search: Search, files: seq<File>, offset: nat, size: nat)
    requires |files| == 0
    ensures search.Total(files) == [] && Shown(search.Total(files), offset, size) == []
  {
  }

  // ----- following the offsets

  /** How many matches some whole pages show, if there are enough. */
  function OnPages(pages: nat, size: nat): nat {
    pages * size
  }

  /** The whole pages that fit under the limit. */
  function WholePages(size: nat, limit: nat): nat
    requires 0 < size
  {
    limit / size
  }

  /** How many matches following the pages can show at most. */
  function Reach(size: nat, limit: nat): nat
    requires 0 < size
  {
    OnPages(WholePages(size, limit), size)
  }

  /** One more page fits under the limit exactly when it is one of the whole pages. */
  lemma OneMorePage(size: nat, limit: nat, page: nat)
    requires 0 < size
    ensures OnPages(page, size) + size == OnPages(page + 1, size)
    ensures OnPages(page, size) + size <= limit <==> page < WholePages(size, limit)
    ensures page < WholePages(size, limit) ==> OnPages(page + 1, size) <= Reach(size, limit)
    ensures page == WholePages(size, limit) ==> OnPages(page, size) == Reach(size, limit)
    ensures OnPages(0, size) == 0
  {
    assert (page + 1) * size == page * size + size;
    if page < limit / size {
      Monotone(page + 1, limit / size, size);
    } else {
      Monotone(limit / size, page, size);
    }
  }

  lemma Monotone(a: nat, b: nat, size: nat)
    requires a <= b
    ensures a * size <= b * size
  {
  }

  /** What a page adds to the matches collected so far, and where the next one is. */
  lemma PageAdds(search: Search, files: seq<File>, offset: nat, size: nat, reply: Reply)
    requires IsPage(search, files, offset, size, reply)
    ensures var all := search.Total(files);
            && all[..Min(|all|, offset)] + reply.matches == all[..Min(|all|, offset + size)]
            && (reply.truncated <==> |all| > offset + size)
            && (reply.truncated ==> reply.nextOffset == offset + size)
  {
    hide Search.Total;
  }

  /** How following the pages ended: after the last match, where the limit refuses the next page, or where a
      search failed. */
  datatype Ending = AllShown | LimitReached | Failed

  /** What was collected when following the pages ended, `pages` pages having been shown in full. */
  ghost predicate Ended(all: seq<Match>, size: nat, limit: nat, pages: nat, collected: seq<Match>, ending: Ending)
    requires 0 < size
  {
    match ending
    case AllShown => collected == all && |all| <= Reach(size, limit)
    case LimitReached => collected == all[..Min(|all|, Reach(size, limit))] && (|all| > Reach(size, limit) || size > limit)
    case Failed => collected == all[..Min(|all|, OnPages(pages, size))]
  }

  /** Some matches have been shown, a whole number of pages, and there are more. */
  ghost predicate Following(all: seq<Match>, size: nat, limit: nat, pages: nat, collected: seq<Match>, offset: nat)
    requires 0 < size
  {
    && offset == OnPages(pages, size) && pages <= WholePages(size, limit) && (pages == 0 || offset < |all|)
    && collected == all[..Min(|all|, offset)]
  }

  lemma NothingShown(all: seq<Match>, size: nat, limit: nat)
    requires 0 < size
    ensures Following(all, size, limit, 0, [], 0)
  {
  }

  /** One more request. */
  lemma PageStep(search: Search, files: seq<File>, all: seq<Match>, size: nat, limit: nat, pages: nat,
                 collected: seq<Match>, offset: nat, reply: Reply)
    requires 0 < size && all == search.Total(files) && Following(all, size, limit, pages, collected, offset)
    ensures Ended(all, size, limit, pages, collected, Failed)
    ensures offset + size > limit ==> Ended(all, size, limit, pages, collected, LimitReached)
    ensures offset + size <= limit && IsPage(search, files, offset, size, reply) ==>
              if reply.truncated
              then pages < WholePages(size, limit)
                   && Following(all, size, limit, pages + 1, collected + reply.matches, reply.nextOffset)
              else Ended(all, size, limit, pages, collected + reply.matches, AllShown)
  {
    OneMorePage(size, limit, pages);
    hide Search.Total, Reach, OnPages, WholePages;
    if offset + size <= limit && IsPage(search, files, offset, size, reply) {
      PageAdds(search, files, offset, size, reply);
      hide IsPage;
      if !reply.truncated {
        assert all[..Min(|all|, offset + size)] == all;
      }
    }
  }

  /** Ask for page after page, each at the offset the reply before named, until a page is not truncated or a
      request is not answered. Every request may find its workers scheduled differently. It ends, and collects
      the matches from the first on with no gap and no repeat; it reaches the last one exactly when the whole
      pages under the limit hold them all. */
  method FollowPages(search: Search, files: seq<File>, maxMatches: int, limit: nat, schedules: nat -> seq<Reads>)
    returns (collected: seq<Match>, ending: Ending, pages: nat)
    requires 0 < limit && 0 < search.maxOutputBytes <= MAX_INT64
    requires forall k: nat :: Schedule(schedules(k), files, search.oneWorker)
    requires forall i | 0 <= i < |files| && files[i].File? :: files[i].worst <= MAX_INT64
    ensures var size := PageSize(maxMatches, limit);
            && Ended(search.Total(files), size, limit, pages, collected, ending)
            && (ending == Failed ==>
                  PageFails(search, files, OnPages(pages, size), size, schedules(pages)))
  {
    collected, pages := [], 0;
    var offset := 0;
    ghost var all, size: nat := search.Total(files), PageSize(maxMatches, limit);
    NothingShown(all, size, limit);
    hide Search.Total, PageFails, Reach, Schedule, IsPage, PageSize, WholePages, Ended;
    while true
      invariant Following(all, size, limit, pages, collected, offset)
      decreases WholePages(size, limit) - pages
    {
      var reply := HandleGrep(search, files, offset, maxMatches, limit, schedules(pages));
      PageStep(search, files, all, size, limit, pages, collected, offset, reply);
      match reply {
        case LimitExceeded =>
          return collected, LimitReached, pages;
        case Page(matches, truncated, nextOffset, _) =>
          collected := collected + matches;
          if !truncated {
            return collected, AllShown, pages;
          }
          offset, pages := nextOffset, pages + 1;
        case _ =>
          return collected, Failed, pages;
      }
    }
  }

  /** Following the pages shows every match exactly when the whole pages under the limit hold them all. */
  lemma AllShownExactly(all: seq<Match>, size: nat, limit: nat, pages: nat, collected: seq<Match>, ending: Ending)
    requires 0 < size <= limit && ending != Failed && Ended(all, size, limit, pages, collected, ending)
    ensures collected == all[..Min(|all|, Reach(size, limit))]
    ensures collected == all <==> ending == AllShown
    ensures ending == AllShown <==> |all| <= limit / size * size
  {
    assert Reach(size, limit) == limit / size * size;
    hide Reach;
    assert |all| <= Reach(size, limit) ==> all[..Min(|all|, Reach(size, limit))] == all;
  }

  // ----- an input that is not shown to its end

  function EveryLine(): Search {
    Search((line: string) => Some(0), 0, 0, 0, MAX_INT64, false)
  }

  function OneLineFile(): File {
    File("f", [], ["x"], MAX_INT64)
  }

  lemma OneLineOneMatch(limit: nat)
    requires 0 < limit
    ensures |EveryLine().MatchesOf(OneLineFile())| == 1
    ensures !EveryLine().Fails(OneLineFile(), limit, MAX_INT64)
  {
    var q := EveryLine().QueryOf(OneLineFile(), limit, MAX_INT64);
    assert SeparatorIndex("x") < 0;
    assert LogicalLines(["x"]) == ["x"];
    var lines := ["x"];
    SmallAnswer(q, lines);
    SmallAnswer(EveryLine().QueryOf(OneLineFile(), 0, 0), lines);
    assert lines[..0] == [] && lines[..0] + [lines[0]] == lines;
  }

  lemma SmallAnswer(q: Query, lines: seq<string>)
    requires lines == ["x"] && q.contextBefore == q.contextAfter == 0 && |q.path| <= 1 && q.encoding == []
    requires q.find("x").Some?
    ensures |q.Hits(lines)| == 1 && q.Held(lines, []) <= 1000 && q.Held(lines, lines) <= 1000
  {
    OneHit(q, lines);
    SmallMatch(q, lines);
    hide Query.Hits, Query.All, Query.MatchAt, MatchCost, Cost;
    assert q.Recent(lines, 1) == [] && q.Recent([], 0) == [];
    var all := q.All(lines);
    assert all[..1] == [] + [all[0]] && all[..0] == [];
    CostStep([], all[0]);
  }

  lemma OneHit(q: Query, lines: seq<string>)
    requires |lines| == 1 && q.find(lines[0]).Some?
    ensures |q.Hits(lines)| == 1 && q.Hits(lines)[0] == 0 && |q.All(lines)| == 1 && Cost([]) == 0
  {
    assert lines[..0] == [];
    assert q.Hits([]) == [];
  }

  lemma SmallMatch(q: Query, lines: seq<string>)
    requires lines == ["x"] && q.contextBefore == q.contextAfter == 0 && |q.path| <= 1 && q.encoding == []
    requires |q.Hits(lines)| == 1 && q.Hits(lines)[0] == 0
    ensures |q.All(lines)| == 1 && MatchCost(q.All(lines)[0]) <= 1000
  {
    hide Query.Hits;
    assert q.Recent(lines, 0) == [] && lines[1..1] == [];
  }

  /** Three matches, pages of two, a limit of three: the second page is refused and the third match not shown. */
  method LastPageCanBeOutOfReach(schedules: nat -> seq<Reads>) returns (collected: seq<Match>, ending: Ending)
    requires forall k: nat :: Schedule(schedules(k), [OneLineFile(), OneLineFile(), OneLineFile()], false)
    ensures var all := EveryLine().Total([OneLineFile(), OneLineFile(), OneLineFile()]);
            |all| == 3 && collected == all[..2] && ending == LimitReached
  {
    var search, files := EveryLine(), [OneLineFile(), OneLineFile(), OneLineFile()];
    var pages;
    collected, ending, pages := FollowPages(search, files, 2, 3, schedules);
    ThreeMatches(search, files);
    NeverFails(search, files, OnPages(pages, 2), 2, schedules(pages));
    assert 3 / 2 == 1;
    assert Reach(2, 3) == 2;
  }

  lemma ThreeMatches(search: Search, files: seq<File>)
    requires search == EveryLine() && files == [OneLineFile(), OneLineFile(), OneLineFile()]
    ensures |search.Total(files)| == 3
  {
    OneLineOneMatch(1);
    hide Search.MatchesOf;
    assert files[..2] == [OneLineFile(), OneLineFile()] && files[..2][..1] == [OneLineFile()] && files[..2][..1][..0] == [];
    assert |search.Total(files[..2][..1])| == 1;
    assert |search.Total(files[..2])| == 2;
  }

  lemma NeverFails(search: Search, files: seq<File>, offset: nat, size: nat, schedule: seq<Reads>)
    requires search == EveryLine() && (forall i | 0 <= i < |files| :: files[i] == OneLineFile())
    requires Schedule(schedule, files, false)
    ensures !PageFails(search, files, offset, size, schedule)
  {
    var scan := search.(maxMatches := offset + size + 1);
    forall i | 0 <= i < |files| ensures !scan.FailsAt(files, schedule, i) {
      var limit := scan.LimitAfter(files, schedule[i].matchesAfter);
      OneLineOneMatch(limit);
      assert scan.QueryOf(OneLineFile(), limit, MAX_INT64) == search.QueryOf(OneLineFile(), limit, MAX_INT64);
    }
  }
}
