/** Renumbering a printed diff and parsing it is parsing it and moving the hunks. */
module DiffShift {
  import opened Basics
  import opened Text
  import opened Wrappers
  import opened PatchApply
  import opened PatchShift
  import opened PatchGrammar
  import opened PatchParse
  import opened DiffRenumber
  import opened HeaderShift

  // ----- any grammar

  function MovedHeader(h: Header, oldOffset: nat, newOffset: nat): Header {
    h.(oldStart := h.oldStart + oldOffset, newStart := h.newStart + newOffset)
  }

  /** A line whose header, if it is one, says moved line numbers. */
  ghost predicate Moved(g: Grammar, line: string, after: string, oldOffset: nat, newOffset: nat) {
    match g.header(line)
    case None => after == line
    case Some(h) => after != [] && line != [] && !g.startsFile(after) && g.header(after) == Some(MovedHeader(h, oldOffset, newOffset))
  }

  ghost predicate AllMoved(g: Grammar, lines: seq<string>, after: seq<string>, oldOffset: nat, newOffset: nat) {
    |lines| == |after| && forall k | 0 <= k < |lines| :: Moved(g, lines[k], after[k], oldOffset, newOffset)
  }

  lemma AllMovedFrom(g: Grammar, lines: seq<string>, after: seq<string>, oldOffset: nat, newOffset: nat, from: nat)
    requires AllMoved(g, lines, after, oldOffset, newOffset) && from <= |lines|
    ensures AllMoved(g, lines[from..], after[from..], oldOffset, newOffset)
  {
    hide Moved;
    assert forall k | 0 <= k < |lines| - from :: lines[from..][k] == lines[k + from] && after[from..][k] == after[k + from];
  }

  lemma {:induction false} MovedBody(g: Grammar, lines: seq<string>, after: seq<string>, oldOffset: nat,
                                     newOffset: nat, number: nat)
    requires AllMoved(g, lines, after, oldOffset, newOffset) && g.ParseBody(lines, number).Ok?
    ensures var body := g.ParseBody(lines, number).value;
            var from := |lines| - |body.rest|;
            body.rest == lines[from..] && g.ParseBody(after, number) == Ok(Body(body.lines, after[from..], body.number))
  {
    if lines == [] || g.header(lines[0]).Some? {
    } else if lines[0] == [] {
    } else {
      AllMovedFrom(g, lines, after, oldOffset, newOffset, 1);
      MovedBody(g, lines[1..], after[1..], oldOffset, newOffset, number + 1);
    }
  }

  predicate BodyLine(line: string) {
    line != [] && line[0] in {' ', '-', '+'}
  }

  /** A parsed body is the lines it takes from the front. */
  lemma {:induction false} BodyConsumes(g: Grammar, lines: seq<string>, number: nat)
    requires g.ParseBody(lines, number).Ok?
    ensures var body := g.ParseBody(lines, number).value;
            var from := |lines| - |body.rest|;
            body.rest == lines[from..] && forall k | 0 <= k < from :: BodyLine(lines[k])
  {
    if lines == [] || g.header(lines[0]).Some? || lines[0] == [] {
    } else {
      BodyConsumes(g, lines[1..], number + 1);
      var body := g.ParseBody(lines, number).value;
      assert g.ParseBody(lines[1..], number + 1).value.rest == body.rest;
      FromSecond(lines, |lines| - |body.rest|);
    }
  }

  lemma FromSecond(lines: seq<string>, from: nat)
    requires 1 <= from <= |lines| && BodyLine(lines[0]) && forall k | 0 <= k < from - 1 :: BodyLine(lines[1..][k])
    ensures lines[1..][from - 1..] == lines[from..] && forall k | 0 <= k < from :: BodyLine(lines[k])
  {
    hide BodyLine;
    forall k | 0 <= k < from ensures BodyLine(lines[k]) {
      if k > 0 {
        assert lines[k] == lines[1..][k - 1];
      }
    }
  }

  lemma Inner<T>(s: seq<T>, from: nat, to: nat)
    requires from <= to <= |s|
    ensures s[from..][to - from..] == s[to..]
  {
  }

  lemma MovedHunk(g: Grammar, lines: seq<string>, after: seq<string>, oldOffset: nat, newOffset: nat, number: nat,
                  seen: nat)
    requires AllMoved(g, lines, after, oldOffset, newOffset) && lines != [] && g.ParseHunk(lines, number, seen).Ok?
    ensures after[0] != [] && lines[0] != []
    ensures var (hunk, body) := g.ParseHunk(lines, number, seen).value;
            var from := |lines| - |body.rest|;
            body.rest == lines[from..]
            && g.ParseHunk(after, number, seen)
               == Ok((Shifted(hunk, oldOffset, newOffset), Body(body.lines, after[from..], body.number)))
  {
    hide Grammar.ParseBody, OldSide, NewSide;
    AllMovedFrom(g, lines, after, oldOffset, newOffset, 1);
    assert Moved(g, lines[0], after[0], oldOffset, newOffset);
    MovedBody(g, lines[1..], after[1..], oldOffset, newOffset, number + 1);
    var body := g.ParseBody(lines[1..], number + 1).value;
    Inner(lines, 1, |lines| - |body.rest|);
    Inner(after, 1, |lines| - |body.rest|);
  }

  /** Moving every header moves every hunk. */
  lemma {:induction false} MovedHunks(g: Grammar, lines: seq<string>, after: seq<string>, oldOffset: nat,
                                      newOffset: nat,
                                      number: nat, seen: nat)
    requires AllMoved(g, lines, after, oldOffset, newOffset) && g.ParseHunks(lines, number, seen).Ok?
    requires g.header([]).None?
    ensures g.ParseHunks(after, number, seen) == Ok(ShiftedAll(g.ParseHunks(lines, number, seen).value, oldOffset, newOffset))
    decreases |lines|
  {
    if lines == [] {
      assert ShiftedAll([], oldOffset, newOffset) == [];
    } else if lines[0] == [] {
      AllMovedFrom(g, lines, after, oldOffset, newOffset, 1);
      assert Moved(g, lines[0], after[0], oldOffset, newOffset);
      g.BlankStep(lines, number, seen);
      g.BlankStep(after, number, seen);
      MovedHunks(g, lines[1..], after[1..], oldOffset, newOffset, number + 1, seen);
    } else {
      var parsed := g.ParseHunk(lines, number, seen);
      g.HunkStep(lines, number, seen, parsed);
      var (hunk, body) := parsed.value;
      var from := |lines| - |body.rest|;
      MovedHunk(g, lines, after, oldOffset, newOffset, number, seen);
      g.HunkStep(after, number, seen, g.ParseHunk(after, number, seen));
      AllMovedFrom(g, lines, after, oldOffset, newOffset, from);
      MovedHunks(g, body.rest, after[from..], oldOffset, newOffset, body.number, seen + 1);
      ShiftedFirst(hunk, g.ParseHunks(body.rest, body.number, seen + 1).value, oldOffset, newOffset);
    }
  }

  lemma ShiftedFirst(hunk: Hunk, hunks: seq<Hunk>, oldOffset: nat, newOffset: nat)
    ensures ShiftedAll([hunk] + hunks, oldOffset, newOffset) == [Shifted(hunk, oldOffset, newOffset)] + ShiftedAll(hunks, oldOffset, newOffset)
  {
  }

  // ----- unified patches

  /** Every hunk can be moved. */
  ghost predicate AllMovable(hunks: seq<Hunk>, oldOffset: nat, newOffset: nat) {
    forall k | 0 <= k < |hunks| :: Movable(hunks[k].oldStart, hunks[k].newStart, oldOffset, newOffset)
  }

  /** What looks like a hunk header is one, and can be moved. */
  ghost predicate Ready(line: string, oldOffset: nat, newOffset: nat) {
    IsHunkHeader(line) ==>
      MatchHeader(line).Some? && Movable(MatchHeader(line).value.oldStart, MatchHeader(line).value.newStart, oldOffset, newOffset)
  }

  ghost predicate AllReady(lines: seq<string>, oldOffset: nat, newOffset: nat) {
    forall k | 0 <= k < |lines| :: Ready(lines[k], oldOffset, newOffset)
  }

  lemma AllReadyFrom(lines: seq<string>, oldOffset: nat, newOffset: nat, from: nat)
    requires from <= |lines| && AllReady(lines[..from], oldOffset, newOffset) && AllReady(lines[from..], oldOffset, newOffset)
    ensures AllReady(lines, oldOffset, newOffset)
  {
    hide Ready;
    forall k | 0 <= k < |lines| ensures Ready(lines[k], oldOffset, newOffset) {
      assert lines[k] == if k < from then lines[..from][k] else lines[from..][k - from];
    }
  }

  lemma BodyLineReady(line: string, oldOffset: nat, newOffset: nat)
    requires BodyLine(line)
    ensures Ready(line, oldOffset, newOffset)
  {
  }

  lemma ReadyBody(lines: seq<string>, number: nat, oldOffset: nat, newOffset: nat)
    requires UNIFIED.ParseBody(lines, number).Ok?
    ensures var from := |lines| - |UNIFIED.ParseBody(lines, number).value.rest|;
            UNIFIED.ParseBody(lines, number).value.rest == lines[from..] && AllReady(lines[..from], oldOffset, newOffset)
  {
    hide Grammar.ParseBody, Ready;
    var from := |lines| - |UNIFIED.ParseBody(lines, number).value.rest|;
    BodyConsumes(UNIFIED, lines, number);
    forall k | 0 <= k < from ensures Ready(lines[..from][k], oldOffset, newOffset) {
      assert BodyLine(lines[k]);
      BodyLineReady(lines[k], oldOffset, newOffset);
    }
  }

  /** In a patch that parses, what looks like a hunk header is the header of a hunk. */
  lemma {:induction false} ParsedIsReady(lines: seq<string>, number: nat, seen: nat, oldOffset: nat, newOffset: nat)
    requires UNIFIED.ParseHunks(lines, number, seen).Ok?
    requires AllMovable(UNIFIED.ParseHunks(lines, number, seen).value, oldOffset, newOffset)
    ensures AllReady(lines, oldOffset, newOffset)
    decreases |lines|
  {
    hide MatchHeader, Grammar.ParseBody, OldSide, NewSide, Movable;
    if lines == [] {
    } else if lines[0] == [] {
      UNIFIED.BlankStep(lines, number, seen);
      ParsedIsReady(lines[1..], number + 1, seen, oldOffset, newOffset);
      AllReadyFrom(lines, oldOffset, newOffset, 1);
    } else {
      var parsed := UNIFIED.ParseHunk(lines, number, seen);
      UNIFIED.HunkStep(lines, number, seen, parsed);
      var (hunk, body) := parsed.value;
      var from := |lines| - |body.rest|;
      var hunks := UNIFIED.ParseHunks(body.rest, body.number, seen + 1).value;
      assert ([hunk] + hunks)[0] == hunk && ([hunk] + hunks)[1..] == hunks;
      assert AllMovable(hunks, oldOffset, newOffset);
      ReadyBody(lines[1..], number + 1, oldOffset, newOffset);
      Inner(lines, 1, from);
      ParsedIsReady(body.rest, body.number, seen + 1, oldOffset, newOffset);
      assert lines[..from][..1] == [lines[0]] && lines[..from][1..] == lines[1..][..from - 1];
      AllReadyFrom(lines[..from], oldOffset, newOffset, 1);
      AllReadyFrom(lines, oldOffset, newOffset, from);
    }
  }

  lemma AdjustedLineMoved(line: string, oldOffset: nat, newOffset: nat)
    requires Ready(line, oldOffset, newOffset)
    ensures AdjustLine(line, oldOffset, newOffset).Some?
    ensures Moved(UNIFIED, line, AdjustLine(line, oldOffset, newOffset).value, oldOffset, newOffset)
  {
    hide MatchHeader, AdjustHeader, Movable, IsHunkHeader, StartsFile;
    UnifiedLine(line);
    if IsHunkHeader(line) {
      OnlyHunkHeaders(line);
      AdjustedHeader(line, oldOffset, newOffset);
      var after := AdjustHeader(line, oldOffset, newOffset).value;
      OnlyHunkHeaders(after);
      UnifiedLine(after);
    }
  }

  lemma UnifiedLine(line: string)
    ensures UNIFIED.header(line) == MatchHeader(line) && UNIFIED.startsFile(line) == StartsFile(line)
    ensures !IsHunkHeader(line) ==> MatchHeader(line) == None
  {
  }

  /** A header line is no file header. */
  lemma OnlyHunkHeaders(line: string)
    requires MatchHeader(line).Some?
    ensures line != [] && IsHunkHeader(line) && !StartsFile(line)
  {
    assert line[0] == '@';
  }

  lemma {:induction false} AdjustedLinesMoved(lines: seq<string>, oldOffset: nat, newOffset: nat)
    requires AllReady(lines, oldOffset, newOffset)
    ensures AdjustLines(lines, oldOffset, newOffset).Some?
    ensures AllMoved(UNIFIED, lines, AdjustLines(lines, oldOffset, newOffset).value, oldOffset, newOffset)
  {
    hide Ready, Moved, AdjustLine;
    if lines != [] {
      AdjustedLineMoved(lines[0], oldOffset, newOffset);
      AdjustedLinesMoved(lines[1..], oldOffset, newOffset);
    }
  }

  /** Renumbering the lines of a patch and parsing them is parsing them and moving the hunks. */
  lemma RenumberedLinesParse(lines: seq<string>, number: nat, seen: nat, oldOffset: nat, newOffset: nat)
    requires UNIFIED.ParseHunks(lines, number, seen).Ok?
    requires AllMovable(UNIFIED.ParseHunks(lines, number, seen).value, oldOffset, newOffset)
    ensures AdjustLines(lines, oldOffset, newOffset).Some?
    ensures UNIFIED.ParseHunks(AdjustLines(lines, oldOffset, newOffset).value, number, seen)
         == Ok(ShiftedAll(UNIFIED.ParseHunks(lines, number, seen).value, oldOffset, newOffset))
  {
    hide AdjustLines, AllReady, AllMoved, Grammar.ParseHunks, ShiftedAll, AllMovable;
    ParsedIsReady(lines, number, seen, oldOffset, newOffset);
    AdjustedLinesMoved(lines, oldOffset, newOffset);
    MovedHunks(UNIFIED, lines, AdjustLines(lines, oldOffset, newOffset).value, oldOffset, newOffset, number, seen);
  }
}
