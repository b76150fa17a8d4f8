/** The streaming search of one file, filetoolsserver/handler/grep.go: one pass with a buffer of earlier
    lines, a queue of matches waiting for later lines, and a ledger of the bytes held.
 */
module GrepScan {
  import opened Basics
  import opened Wrappers
  import opened GrepMatch

  datatype Pending = Pending(m: Match, remainingAfter: int)

  function Unwrapped(queue: seq<Pending>): seq<Match> {
    seq(|queue|, j requires 0 <= j < |queue| => queue[j].m)
  }

  lemma UnwrappedConcat(front: seq<Pending>, back: seq<Pending>)
    ensures Unwrapped(front + back) == Unwrapped(front) + Unwrapped(back)
  {
  }

  /** Every queued match still waits, and the ones queued earlier wait for less. */
  ghost predicate Waiting(query: Query, queue: seq<Pending>) {
    && (forall j | 0 <= j < |queue| :: 0 < queue[j].remainingAfter == query.After() - |queue[j].m.after|)
    && (forall i, j | 0 <= i < j < |queue| :: queue[i].remainingAfter < queue[j].remainingAfter)
  }

  ghost predicate AllClosed(query: Query, matches: seq<Match>) {
    forall m | m in matches :: !query.Open(m)
  }

  /** A queued match after one more line. */
  function Fed(p: Pending, line: string): Pending {
    Pending(p.m.(after := p.m.after + [line]), p.remainingAfter - 1)
  }

  // ----- compacting the queue

  /** The first `i` queued matches have had the line: the complete ones are among the matches, the others
      are kept. */
  ghost predicate Compacting(query: Query, was: seq<Match>, queue: seq<Pending>, i: nat, line: string,
                             matches: seq<Match>, kept: seq<Pending>) {
    && i <= |queue| && Waiting(query, queue) && AllClosed(query, matches) && Waiting(query, kept)
    && matches + Unwrapped(kept) == query.Extended(was + Unwrapped(queue[..i]), line)
    && (forall j | 0 <= j < |kept| :: kept[j].remainingAfter < query.After())
    && (kept != [] ==> 0 < i && kept[|kept| - 1].remainingAfter == queue[i - 1].remainingAfter - 1)
  }

  lemma FedIsWithLine(query: Query, p: Pending, line: string)
    requires 0 < p.remainingAfter == query.After() - |p.m.after|
    ensures Fed(p, line).m == query.WithLine(p.m, line)
    ensures query.Open(Fed(p, line).m) <==> 0 < Fed(p, line).remainingAfter
    ensures Fed(p, line).remainingAfter == query.After() - |Fed(p, line).m.after|
  {
  }

  lemma ExtendedNext(query: Query, was: seq<Match>, queue: seq<Pending>, i: nat, line: string)
    requires i < |queue| && 0 < queue[i].remainingAfter == query.After() - |queue[i].m.after|
    ensures query.Extended(was + Unwrapped(queue[..i + 1]), line)
         == query.Extended(was + Unwrapped(queue[..i]), line) + [Fed(queue[i], line).m]
  {
    assert queue[..i + 1] == queue[..i] + [queue[i]];
    assert was + Unwrapped(queue[..i + 1]) == was + Unwrapped(queue[..i]) + [queue[i].m];
    query.ExtendedStep(was + Unwrapped(queue[..i]), queue[i].m, line);
    FedIsWithLine(query, queue[i], line);
  }

  /** A complete match finds no kept one before it, so the order stays. */
  lemma CompactClosed(query: Query, was: seq<Match>, queue: seq<Pending>, i: nat, line: string,
                      matches: seq<Match>, kept: seq<Pending>)
    requires Compacting(query, was, queue, i, line, matches, kept) && i < |queue| && queue[i].remainingAfter == 1
    ensures Compacting(query, was, queue, i + 1, line, matches + [Fed(queue[i], line).m], kept)
  {
    hide Query.Extended, Query.Open, Query.WithLine;
    FedIsWithLine(query, queue[i], line);
    ExtendedNext(query, was, queue, i, line);
    assert kept == [];
    assert matches + Unwrapped(kept) + [Fed(queue[i], line).m] == matches + [Fed(queue[i], line).m] + Unwrapped(kept);
  }

  lemma CompactKept(query: Query, was: seq<Match>, queue: seq<Pending>, i: nat, line: string,
                    matches: seq<Match>, kept: seq<Pending>)
    requires Compacting(query, was, queue, i, line, matches, kept) && i < |queue| && queue[i].remainingAfter > 1
    ensures Compacting(query, was, queue, i + 1, line, matches, kept + [Fed(queue[i], line)])
  {
    hide Query.Extended, Query.Open, Query.WithLine, AllClosed;
    FedIsWithLine(query, queue[i], line);
    ExtendedNext(query, was, queue, i, line);
    UnwrappedConcat(kept, [Fed(queue[i], line)]);
    assert Unwrapped([Fed(queue[i], line)]) == [Fed(queue[i], line).m];
    assert matches + Unwrapped(kept) + [Fed(queue[i], line).m] == matches + (Unwrapped(kept) + [Fed(queue[i], line).m]);
  }

  lemma QueueFront(query: Query, queue: seq<Pending>, i: nat)
    requires Waiting(query, queue) && i < |queue|
    ensures 0 < queue[i].remainingAfter
  {
  }

  lemma CompactedAll(query: Query, was: seq<Match>, queue: seq<Pending>, line: string, matches: seq<Match>,
                     kept: seq<Pending>)
    requires Compacting(query, was, queue, |queue|, line, matches, kept)
    ensures matches + Unwrapped(kept) == query.Extended(was + Unwrapped(queue), line)
    ensures AllClosed(query, matches) && Waiting(query, kept)
    ensures forall j | 0 <= j < |kept| :: kept[j].remainingAfter < query.After()
  {
    assert queue[..|queue|] == queue;
  }

  /** What `n` queued matches take for the line. */
  function QueueBytes(n: nat, line: string): nat {
    n * LineCost(line)
  }

  lemma OneMoreReserved(i: nat, n: nat, line: string)
    requires i < n
    ensures QueueBytes(i + 1, line) == QueueBytes(i, line) + LineCost(line) <= QueueBytes(n, line)
    ensures QueueBytes(0, line) == 0
  {
    TimesMonotone(i, n, LineCost(line));
  }

  lemma TimesMonotone(i: nat, n: nat, c: nat)
    requires i < n
    ensures (i + 1) * c == i * c + c <= n * c
  {
  }

  lemma CompactNothing(query: Query, was: seq<Match>, queue: seq<Pending>, line: string)
    requires AllClosed(query, was) && Waiting(query, queue)
    ensures Compacting(query, was, queue, 0, line, was, [])
  {
    query.ExtendedClosed(was, line);
    assert was + Unwrapped([]) == was && queue[..0] == [];
  }

  // ----- the ledger

  function RequiredBytes(query: Query, before: seq<string>, line: string): int {
    var own := GREP_MATCH_OVERHEAD + |query.path| + |query.encoding| + |line|;
    if before == [] then own else Min(MAX_INT64, own + LinesCost(before))
  }

  lemma CostlyBuffer(before: seq<string>)
    requires before != []
    ensures LinesCost(before) > 0
  {
  }

  /** Saturating at the largest number lets no match in: what is held already counts against it. */
  lemma RequiredIsCost(query: Query, seen: seq<string>, line: string, before: seq<string>, retained: int)
    requires query.find(line).Some? && before == query.Recent(seen, |seen|)
    requires query.budget <= MAX_INT64 && retained >= LinesCost(before)
    ensures MatchCost(query.Fresh(seen, line)) == GREP_MATCH_OVERHEAD + |query.path| + |query.encoding| + |line| + LinesCost(before)
    ensures RequiredBytes(query, before, line) <= query.budget - retained
            <==> MatchCost(query.Fresh(seen, line)) <= query.budget - retained
    ensures RequiredBytes(query, before, line) <= query.budget - retained
            ==> RequiredBytes(query, before, line) == MatchCost(query.Fresh(seen, line))
    ensures 0 <= RequiredBytes(query, before, line)
  {
    if before != [] {
      CostlyBuffer(before);
    }
  }

  /** What the answer with the line costs, before the buffer takes it in. */
  lemma AnswerBytes(query: Query, seen: seq<string>, line: string)
    ensures query.Held(seen + [line], seen)
         == Cost(query.Extended(query.Answer(seen), line)) + Cost(query.NewMatches(seen, line)) + LinesCost(query.Recent(seen, |seen|))
    ensures query.Answer(seen + [line]) == query.Extended(query.Answer(seen), line) + query.NewMatches(seen, line)
    ensures query.find(line).Some? ==> Cost([query.Fresh(seen, line)]) == MatchCost(query.Fresh(seen, line))
    ensures Cost([]) == 0
  {
    query.AnswerStep(seen, line);
    CostOfConcat(query.Extended(query.Answer(seen), line), query.NewMatches(seen, line));
    if query.find(line).Some? {
      CostStep([], query.Fresh(seen, line));
      assert [] + [query.Fresh(seen, line)] == [query.Fresh(seen, line)];
    }
  }

  /** The room left is told by the matches made and queued. */
  lemma CountSelected(query: Query, seen: seq<string>, line: string, matches: seq<Match>, pending: seq<Pending>)
    requires 0 < query.maxMatches && matches + Unwrapped(pending) == query.Extended(query.Answer(seen), line)
    ensures |matches| + |pending| < query.maxMatches <==> |query.Hits(seen)| < query.Limit()
    ensures query.More(seen + [line]) <==> query.More(seen) || (query.find(line).Some? && |query.Hits(seen)| >= query.Limit())
    ensures query.NewMatches(seen, line)
         == if query.find(line).Some? && |matches| + |pending| < query.maxMatches then [query.Fresh(seen, line)] else []
  {
    assert |matches + Unwrapped(pending)| == |matches| + |pending|;
    query.HitsStep(seen, line);
  }

  lemma WaitingNeedsAfter(query: Query, pending: seq<Pending>)
    requires Waiting(query, pending) && pending != []
    ensures query.contextAfter > 0
  {
    assert pending[0].remainingAfter > 0;
  }

  lemma AppendMatch(query: Query, matches: seq<Match>, pending: seq<Pending>, m: Match)
    requires m.after == [] && AllClosed(query, matches) && Waiting(query, pending)
    requires forall j | 0 <= j < |pending| :: pending[j].remainingAfter < query.After()
    ensures query.contextAfter > 0 ==>
              && matches + Unwrapped(pending + [Pending(m, query.contextAfter)]) == matches + Unwrapped(pending) + [m]
              && Waiting(query, pending + [Pending(m, query.contextAfter)])
    ensures query.contextAfter <= 0 ==>
              && matches + [m] + Unwrapped(pending) == matches + Unwrapped(pending) + [m]
              && AllClosed(query, matches + [m])
  {
    if pending != [] {
      WaitingNeedsAfter(query, pending);
    }
    if query.contextAfter > 0 {
      UnwrappedConcat(pending, [Pending(m, query.contextAfter)]);
      assert Unwrapped([Pending(m, query.contextAfter)]) == [m];
      assert matches + (Unwrapped(pending) + [m]) == matches + Unwrapped(pending) + [m];
    } else {
      assert matches + [m] + Unwrapped(pending) == matches + Unwrapped(pending) + [m];
    }
  }

  /** What the buffer with the line costs. */
  lemma BufferStep(query: Query, seen: seq<string>, line: string, before: seq<string>)
    requires before == query.Recent(seen, |seen|)
    ensures query.contextBefore <= 0 ==> query.Recent(seen + [line], |seen| + 1) == before
    ensures query.contextBefore > 0 && |before| == query.contextBefore ==>
              && query.Recent(seen + [line], |seen| + 1) == before[1..] + [line]
              && query.Held(seen + [line], seen + [line]) == query.Held(seen + [line], seen) - LineCost(before[0]) + LineCost(line)
              && LineCost(before[0]) <= query.Held(seen + [line], seen)
    ensures query.contextBefore > 0 && |before| != query.contextBefore ==>
              && query.Recent(seen + [line], |seen| + 1) == before + [line]
              && query.Held(seen + [line], seen + [line]) == query.Held(seen + [line], seen) + LineCost(line)
  {
    hide Query.Answer;
    query.RecentStep(seen, line);
    if query.contextBefore <= 0 {
      assert before == [];
    } else if |before| == query.contextBefore {
      LinesCostFirst(before);
      LinesCostStep(before[1..], line);
    } else {
      LinesCostStep(before, line);
    }
  }

  /** What the queued matches take from the ledger. */
  lemma PendingBytes(query: Query, seen: seq<string>, line: string, matches: seq<Match>, pending: seq<Pending>)
    requires AllClosed(query, matches) && Waiting(query, pending) && matches + Unwrapped(pending) == query.Answer(seen)
    ensures Cost(query.Extended(query.Answer(seen), line)) == Cost(query.Answer(seen)) + QueueBytes(|pending|, line)
    ensures Cost(query.Extended(query.Answer(seen), line)) + LinesCost(query.Recent(seen, |seen|)) <= query.Held(seen + [line], seen)
  {
    var open := Unwrapped(pending);
    query.ExtendedConcat(matches, open, line);
    query.ExtendedClosed(matches, line);
    AllOpen(query, pending);
    query.ExtendedOpenCost(open, line);
    CostOfConcat(matches, open);
    CostOfConcat(matches, query.Extended(open, line));
    AnswerBytes(query, seen, line);
  }

  lemma AllOpen(query: Query, pending: seq<Pending>)
    requires Waiting(query, pending)
    ensures forall m | m in Unwrapped(pending) :: query.Open(m)
  {
  }

  lemma SettledWhenEmpty(query: Query, seen: seq<string>, st: State)
    requires Scanned(query, seen, st)
    ensures query.Settled(seen) <==> st.truncated && st.pending == []
  {
    AllOpen(query, st.pending);
    if st.pending != [] {
      var m := st.pending[0].m;
      assert Unwrapped(st.pending)[0] == m;
      assert m in st.matches + Unwrapped(st.pending);
    } else {
      assert st.matches + Unwrapped(st.pending) == st.matches;
    }
  }

  lemma QueueIsSound(query: Query, seen: seq<string>, st: State)
    requires Scanned(query, seen, st)
    ensures AllClosed(query, st.matches) && Waiting(query, st.pending) && 0 <= st.retainedBytes <= query.budget
  {
  }

  // ----- the state of the pass

  datatype State = State(matches: seq<Match>, pending: seq<Pending>, before: seq<string>, logicalLine: nat,
                         retainedBytes: int, truncated: bool)

  /** The state is the answer for the lines read so far, and the ledger is exact. */
  ghost predicate Scanned(query: Query, seen: seq<string>, st: State) {
    && st.logicalLine == |seen|
    && AllClosed(query, st.matches) && Waiting(query, st.pending)
    && st.matches + Unwrapped(st.pending) == query.Answer(seen)
    && st.before == query.Recent(seen, |seen|)
    && 0 <= st.retainedBytes == query.Held(seen, seen) <= query.budget
    && (st.truncated <==> query.More(seen))
  }

  /** The queue has had the line; the line's own match is still to come. */
  ghost predicate Between(query: Query, seen: seq<string>, line: string, st: State) {
    && st.logicalLine == |seen| + 1
    && AllClosed(query, st.matches) && Waiting(query, st.pending)
    && (forall j | 0 <= j < |st.pending| :: st.pending[j].remainingAfter < query.After())
    && st.matches + Unwrapped(st.pending) == query.Extended(query.Answer(seen), line)
    && st.before == query.Recent(seen, |seen|)
    && 0 <= st.retainedBytes == Cost(query.Extended(query.Answer(seen), line)) + LinesCost(st.before) <= query.budget
    && (st.truncated <==> query.More(seen))
  }

  /** The answer includes the line; the buffer is still to take it in. */
  ghost predicate Answered(query: Query, seen: seq<string>, line: string, st: State) {
    && st.logicalLine == |seen| + 1
    && AllClosed(query, st.matches) && Waiting(query, st.pending)
    && st.matches + Unwrapped(st.pending) == query.Answer(seen + [line])
    && st.before == query.Recent(seen, |seen|)
    && 0 <= st.retainedBytes == query.Held(seen + [line], seen) <= query.budget
    && (st.truncated <==> query.More(seen + [line]))
  }

  lemma FeedStep(query: Query, seen: seq<string>, line: string, st: State, matches: seq<Match>, pending: seq<Pending>)
    requires Scanned(query, seen, st)
    ensures st.retainedBytes + QueueBytes(|st.pending|, line) > query.budget ==> !query.Fits(seen, line)
    ensures
      && matches + Unwrapped(pending) == query.Extended(st.matches + Unwrapped(st.pending), line)
      && AllClosed(query, matches) && Waiting(query, pending)
      && (forall j | 0 <= j < |pending| :: pending[j].remainingAfter < query.After())
      && st.retainedBytes + QueueBytes(|st.pending|, line) <= query.budget
      ==> Between(query, seen, line, State(matches, pending, st.before, st.logicalLine + 1,
                                          st.retainedBytes + QueueBytes(|st.pending|, line), st.truncated))
  {
    hide Query.Answer, Query.Extended, Query.Recent, Waiting, AllClosed, Unwrapped, QueueBytes;
    PendingBytes(query, seen, line, st.matches, st.pending);
  }

  /** The state after a match of the line is made. */
  function Taken(query: Query, line: string, column: nat, required: int, st: State): State {
    var m := Match(query.path, st.logicalLine, column + 1, line, query.encoding, st.before, []);
    if query.contextAfter > 0
    then st.(pending := st.pending + [Pending(m, query.contextAfter)], retainedBytes := st.retainedBytes + required)
    else st.(matches := st.matches + [m], retainedBytes := st.retainedBytes + required)
  }

  lemma TakeStep(query: Query, seen: seq<string>, line: string, st: State)
    requires 0 < query.maxMatches && query.budget <= MAX_INT64
    requires Between(query, seen, line, st) && query.find(line).Some? && |st.matches| + |st.pending| < query.maxMatches
    ensures var required := RequiredBytes(query, st.before, line);
            && 0 <= required
            && (required <= query.budget - st.retainedBytes <==> query.Held(seen + [line], seen) <= query.budget)
            && (required <= query.budget - st.retainedBytes ==>
                  Answered(query, seen, line, Taken(query, line, query.find(line).value, required, st)))
  {
    hide Query.Answer, Query.Hits, Query.Recent, Query.Extended, Query.Held, Unwrapped, Waiting, AllClosed;
    AnswerBytes(query, seen, line);
    CountSelected(query, seen, line, st.matches, st.pending);
    RequiredIsCost(query, seen, line, st.before, st.retainedBytes);
    AppendMatch(query, st.matches, st.pending, query.Fresh(seen, line));
  }

  /** A line with no match to make: no further one is counted unless there is no room for it. */
  lemma PassStep(query: Query, seen: seq<string>, line: string, st: State)
    requires 0 < query.maxMatches && Between(query, seen, line, st)
    requires query.find(line).None? || |st.matches| + |st.pending| >= query.maxMatches
    ensures query.Held(seen + [line], seen) <= query.budget
    ensures Answered(query, seen, line, st.(truncated := st.truncated || query.find(line).Some?))
  {
    hide Query.Answer, Query.Hits, Query.Recent, Query.Extended, Query.Held, Unwrapped, Waiting, AllClosed;
    AnswerBytes(query, seen, line);
    CountSelected(query, seen, line, st.matches, st.pending);
    assert query.Extended(query.Answer(seen), line) + [] == query.Extended(query.Answer(seen), line);
  }

  /** The bytes the buffer keeps while it makes room, and the lines it keeps. */
  function Kept(query: Query, st: State): State {
    if query.contextBefore > 0 && |st.before| == query.contextBefore
    then st.(before := st.before[1..], retainedBytes := st.retainedBytes - LineCost(st.before[0])) else st
  }

  lemma RememberStep(query: Query, seen: seq<string>, line: string, st: State)
    requires Answered(query, seen, line, st)
    ensures query.contextBefore <= 0 ==>
              query.Held(seen + [line], seen + [line]) <= query.budget && Scanned(query, seen + [line], st)
    ensures var kept := Kept(query, st);
            query.contextBefore > 0 ==>
              && 0 <= kept.retainedBytes
              && (LineCost(line) <= query.budget - kept.retainedBytes
                  <==> query.Held(seen + [line], seen + [line]) <= query.budget)
              && (LineCost(line) <= query.budget - kept.retainedBytes ==>
                    Scanned(query, seen + [line],
                            kept.(before := kept.before + [line], retainedBytes := kept.retainedBytes + LineCost(line))))
  {
    BufferStep(query, seen, line, st.before);
    hide Query.Answer, Query.Recent, Query.More, Unwrapped, LineCost, AllClosed, Waiting;
  }

  datatype Signal = Continue | Stop | Exceeded

  class Scanner {
    const query: Query
    var matches: seq<Match>
    var pending: seq<Pending>
    var before: seq<string>
    var logicalLine: nat
    var retainedBytes: int
    var truncated: bool
    /** The lines read so far. */
    ghost var seen: seq<string>

    function Now(): State
      reads this
    {
      State(matches, pending, before, logicalLine, retainedBytes, truncated)
    }

    ghost predicate Valid()
      reads this
    {
      0 < query.maxMatches && query.budget <= MAX_INT64 && Scanned(query, seen, Now())
    }

    constructor (query: Query)
      requires 0 < query.maxMatches && 0 <= query.budget <= MAX_INT64
      ensures Valid() && this.query == query && seen == [] && !truncated
    {
      this.query := query;
      matches, pending, before, logicalLine, retainedBytes, truncated, seen := [], [], [], 0, 0, false, [];
    }

    method Reserve(amount: int) returns (ok: bool)
      modifies this`retainedBytes
      ensures ok <==> 0 <= amount <= query.budget - old(retainedBytes)
      ensures retainedBytes == old(retainedBytes) + if ok then amount else 0
    {
      if amount < 0 || amount > query.budget - retainedBytes {
        return false;
      }
      retainedBytes := retainedBytes + amount;
      ok := true;
    }

    /** The clamp at zero never acts. */
    method Release(amount: int)
      requires amount <= retainedBytes
      modifies this`retainedBytes
      ensures retainedBytes == old(retainedBytes) - amount
    {
      retainedBytes := Max(0, retainedBytes - amount);
    }

    /** Charge for one more line that is held. */
    method ReserveLine(line: string) returns (ok: bool)
      modifies this`retainedBytes
      ensures ok <==> LineCost(line) <= query.budget - old(retainedBytes)
      ensures retainedBytes == old(retainedBytes) + if ok then LineCost(line) else 0
    {
      ok := Reserve(GREP_LINE_OVERHEAD + |line|);
    }

    /** Give back what a line that is let go was charged. */
    method ReleaseLine(line: string)
      requires LineCost(line) <= retainedBytes
      modifies this`retainedBytes
      ensures retainedBytes == old(retainedBytes) - LineCost(line)
    {
      Release(GREP_LINE_OVERHEAD + |line|);
    }

    /** Give the line to every queued match. The survivors are written back over the queue's own slots. */
    method FeedPending(line: string) returns (ok: bool)
      requires AllClosed(query, matches) && Waiting(query, pending) && 0 <= retainedBytes <= query.budget
      modifies this`matches, this`pending, this`retainedBytes
      ensures ok <==> old(retainedBytes) + QueueBytes(|old(pending)|, line) <= query.budget
      ensures ok ==>
                && retainedBytes == old(retainedBytes) + QueueBytes(|old(pending)|, line)
                && matches + Unwrapped(pending) == query.Extended(old(matches) + Unwrapped(old(pending)), line)
                && AllClosed(query, matches) && Waiting(query, pending)
                && forall j | 0 <= j < |pending| :: pending[j].remainingAfter < query.After()
    {
      ghost var queue, was := pending, matches;
      var slots, kept := pending, 0;
      CompactNothing(query, matches, queue, line);
      assert QueueBytes(0, line) == 0;
      hide Compacting, LineCost, AllClosed, Waiting, Query.Extended, QueueBytes;
      for i := 0 to |slots|
        invariant kept <= i <= |slots| == |queue| && slots[i..] == queue[i..] && pending == queue
        invariant 0 <= retainedBytes == old(retainedBytes) + QueueBytes(i, line) <= query.budget
        invariant Compacting(query, was, queue, i, line, matches, slots[..kept])
      {
        var current := slots[i];
        ghost var before := slots[..kept];
        assert slots[i] == slots[i..][0];
        QueueFront(query, queue, i);
        OneMoreReserved(i, |queue|, line);
        if current.remainingAfter > 0 {
          var reserved := ReserveLine(line);
          if !reserved {
            return false;
          }
          current := Fed(current, line);
        }
        if current.remainingAfter == 0 {
          CompactClosed(query, was, queue, i, line, matches, before);
          matches := matches + [current.m];
        } else {
          CompactKept(query, was, queue, i, line, matches, before);
          slots := slots[kept := current];
          assert slots[..kept + 1] == before + [current];
          kept := kept + 1;
        }
      }
      CompactedAll(query, was, queue, line, matches, slots[..kept]);
      pending := slots[..kept];
      ok := true;
    }

    /** The line's own match, when there is one and there is room for it. */
    method TakeMatch(line: string) returns (ok: bool)
      requires 0 < query.maxMatches && query.budget <= MAX_INT64 && Between(query, seen, line, Now())
      modifies this`matches, this`pending, this`retainedBytes, this`truncated
      ensures ok <==> query.Held(seen + [line], seen) <= query.budget
      ensures ok ==> Answered(query, seen, line, Now())
    {
      hide Between, Answered, Query.Held;
      ghost var was := Now();
      var loc := query.find(line);
      if loc.Some? {
        if |matches| + |pending| < query.maxMatches {
          TakeStep(query, seen, line, was);
          var required := AddLines(GREP_MATCH_OVERHEAD + |query.path| + |query.encoding| + |line|, before);
          assert required == RequiredBytes(query, was.before, line);
          ok := Reserve(required);
          if !ok {
            return;
          }
          var m := Match(query.path, logicalLine, loc.value + 1, line, query.encoding, before, []);
          if query.contextAfter > 0 {
            pending := pending + [Pending(m, query.contextAfter)];
          } else {
            matches := matches + [m];
          }
          assert Now() == Taken(query, line, loc.value, required, was);
          return;
        }
        truncated := true;
      }
      PassStep(query, seen, line, was);
      ok := true;
    }

    /** The line enters the buffer of earlier lines, and the oldest one leaves a full buffer. */
    method Remember(line: string) returns (ok: bool)
      requires Answered(query, seen, line, Now())
      modifies this`before, this`retainedBytes, this`seen
      ensures ok <==> query.Held(old(seen) + [line], old(seen) + [line]) <= query.budget
      ensures ok ==> Scanned(query, seen, Now()) && seen == old(seen) + [line]
    {
      hide Scanned, Answered, Query.Held, LineCost;
      RememberStep(query, seen, line, Now());
      if query.contextBefore > 0 {
        if |before| == query.contextBefore {
          ReleaseLine(before[0]);
          before := before[1..];
        }
        ok := ReserveLine(line);
        if !ok {
          return;
        }
        before := before + [line];
      }
      seen := seen + [line];
      ok := true;
    }

    method FeedLine(line: string) returns (ok: bool)
      requires Valid()
      modifies this`matches, this`pending, this`retainedBytes, this`logicalLine
      ensures !ok ==> !query.Fits(seen, line)
      ensures ok ==> Between(query, seen, line, Now())
    {
      ghost var was := Now();
      QueueIsSound(query, seen, was);
      hide Scanned, Between, Query.Fits, Query.Extended, Waiting, AllClosed, Unwrapped, QueueBytes;
      logicalLine := logicalLine + 1;
      ok := FeedPending(line);
      FeedStep(query, seen, line, was, matches, pending);
    }

    /** One line of the pass. The search may stop when the answer is settled. */
    method ProcessLine(line: string) returns (signal: Signal)
      requires Valid()
      modifies this
      ensures signal == Exceeded <==> !query.Fits(old(seen), line)
      ensures signal != Exceeded ==> Valid() && seen == old(seen) + [line]
      ensures signal != Exceeded ==> (signal == Stop <==> query.Settled(seen))
    {
      hide Scanned, Between, Answered, Query.Held, Query.Settled;
      var fed := FeedLine(line);
      if !fed {
        return Exceeded;
      }
      var taken := TakeMatch(line);
      if !taken {
        return Exceeded;
      }
      var remembered := Remember(line);
      if !remembered {
        return Exceeded;
      }
      SettledWhenEmpty(query, seen, Now());
      signal := if truncated && pending == [] then Stop else Continue;
    }
  }
}
