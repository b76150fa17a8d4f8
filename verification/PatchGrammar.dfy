/** The grammar of a unified patch below its file header, filetoolsserver/handler/edit_patch.go: hunk
    headers, bodies, counts and the errors, over any way of recognising single lines.
 */
module PatchGrammar {
  import opened Text
  import opened Wrappers
  import opened PatchApply

  const MAX_PATCH_HUNKS := 1000

  datatype ParseError =
    | EmptyPatch
    | TooLarge
    | NoFileHeader
    | WrongFile
    | MultiFile
    | BadHunkHeader(line: nat)
    | NoNewlineMarker
    | MissingPrefix(line: nat)
    | BadPrefix(line: nat)
    | CountMismatch
    | TooManyHunks
    | NoHunks

  predicate OfHunks(error: ParseError) {
    error !in {EmptyPatch, TooLarge, NoFileHeader, WrongFile, NoHunks}
  }

  type Parsed<+T> = Result<T, ParseError>

  datatype Header = Header(oldStart: int, oldCount: int, newStart: int, newCount: int)

  datatype Body = Body(lines: seq<PatchLine>, rest: seq<string>, number: nat)

  function Prepended(front: seq<PatchLine>, parsed: Parsed<Body>): Parsed<Body> {
    var body :- parsed;
    Ok(Body(front + body.lines, body.rest, body.number))
  }

  function PrependedHunks(front: seq<Hunk>, parsed: Parsed<seq<Hunk>>): Parsed<seq<Hunk>> {
    var hunks :- parsed;
    Ok(front + hunks)
  }

  lemma PrependedNone(parsed: Parsed<Body>)
    ensures Prepended([], parsed) == parsed
  {
    if parsed.Ok? {
      assert [] + parsed.value.lines == parsed.value.lines;
    }
  }

  lemma PrependedTwice(front: seq<PatchLine>, line: PatchLine, parsed: Parsed<Body>)
    ensures Prepended(front, Prepended([line], parsed)) == Prepended(front + [line], parsed)
  {
    if parsed.Ok? {
      assert front + ([line] + parsed.value.lines) == front + [line] + parsed.value.lines;
    }
  }

  lemma PrependedHunksTwice(front: seq<Hunk>, hunk: Hunk, parsed: Parsed<seq<Hunk>>)
    ensures PrependedHunks(front, PrependedHunks([hunk], parsed)) == PrependedHunks(front + [hunk], parsed)
  {
    if parsed.Ok? {
      assert front + ([hunk] + parsed.value) == front + [hunk] + parsed.value;
    }
  }

  lemma SidesOfAppended(body: seq<PatchLine>, line: PatchLine)
    ensures OldSide(body + [line]) == OldSide(body) + if line[0] in {' ', '-'} then [line[1..]] else []
    ensures NewSide(body + [line]) == NewSide(body) + if line[0] in {' ', '+'} then [line[1..]] else []
  {
    assert (body + [line])[..|body|] == body;
  }

  /** The lines of a patch below its file header: every hunk under its header line, and the empty piece
      after the last newline. */
  function Assembled(headers: seq<string>, hunks: seq<Hunk>): (lines: seq<string>)
    requires |headers| == |hunks|
    ensures lines != []
  {
    if hunks == [] then [[]] else [headers[0]] + hunks[0].lines + Assembled(headers[1..], hunks[1..])
  }

  /** How single lines are recognised; `UNIFIED` is the only grammar in use. */
  datatype Grammar = Grammar(header: string -> Option<Header>, startsFile: string -> bool, isMarker: string -> bool) {

    /** The body lines up to the next header or the end; `number` counts patch lines from 1. */
    function ParseBody(lines: seq<string>, number: nat): (parsed: Parsed<Body>)
      ensures parsed.Ok? ==> |parsed.value.rest| <= |lines|
    {
      if lines == [] || header(lines[0]).Some? then Ok(Body([], lines, number))
      else
        var line := lines[0];
        if startsFile(line) then Err(MultiFile)
        else if isMarker(line) then Err(NoNewlineMarker)
        else if line == [] then if |lines| == 1 then Ok(Body([], lines, number)) else Err(MissingPrefix(number))
        else if line[0] !in {' ', '-', '+'} then Err(BadPrefix(number))
        else Prepended([line], ParseBody(lines[1..], number + 1))
    }

    /** The header, body and counts of one hunk. */
    function ParseHunk(lines: seq<string>, number: nat, seen: nat): (parsed: Parsed<(Hunk, Body)>)
      requires lines != []
      ensures parsed.Ok? ==> |parsed.value.1.rest| < |lines|
    {
      if startsFile(lines[0]) then Err(MultiFile)
      else
        match header(lines[0])
        case None => Err(BadHunkHeader(number))
        case Some(h) =>
          var body :- ParseBody(lines[1..], number + 1);
          if |OldSide(body.lines)| != h.oldCount || |NewSide(body.lines)| != h.newCount then Err(CountMismatch)
          else if seen + 1 > MAX_PATCH_HUNKS then Err(TooManyHunks)
          else Ok((Hunk(h.oldStart, h.oldCount, h.newStart, h.newCount, body.lines), body))
    }

    /** All hunks of the remaining lines, after `seen` of them. */
    function ParseHunks(lines: seq<string>, number: nat, seen: nat): Parsed<seq<Hunk>>
      decreases |lines|
    {
      if lines == [] then Ok([])
      else if lines[0] == [] then ParseHunks(lines[1..], number + 1, seen)
      else
        var parsed :- ParseHunk(lines, number, seen);
        PrependedHunks([parsed.0], ParseHunks(parsed.1.rest, parsed.1.number, seen + 1))
    }

    /** Below the file header only what is below it is refused. */
    lemma {:induction false} BodyErrors(lines: seq<string>, number: nat)
      ensures ParseBody(lines, number).Err? ==> OfHunks(ParseBody(lines, number).error)
    {
      if lines != [] {
        BodyErrors(lines[1..], number + 1);
      }
    }

    lemma {:induction false} HunkErrors(lines: seq<string>, number: nat, seen: nat)
      ensures ParseHunks(lines, number, seen).Err? ==> OfHunks(ParseHunks(lines, number, seen).error)
      decreases |lines|
    {
      if lines != [] {
        if lines[0] == [] {
          HunkErrors(lines[1..], number + 1, seen);
        } else {
          BodyErrors(lines[1..], number + 1);
          hide ParseBody;
          var parsed := ParseHunk(lines, number, seen);
          if parsed.Ok? {
            HunkErrors(parsed.value.1.rest, parsed.value.1.number, seen + 1);
          }
        }
      }
    }

    lemma BodyStops(lines: seq<string>, number: nat, body: seq<PatchLine>)
      requires lines == [] || header(lines[0]).Some? || (lines == [[]] && !startsFile([]) && !isMarker([]))
      ensures Prepended(body, ParseBody(lines, number)) == Ok(Body(body, lines, number))
    {
      assert body + [] == body;
    }

    lemma BodyStep(lines: seq<string>, number: nat, body: seq<PatchLine>)
      requires lines != [] && header(lines[0]).None? && !startsFile(lines[0]) && !isMarker(lines[0])
      requires lines[0] != [] && lines[0][0] in {' ', '-', '+'}
      ensures Prepended(body, ParseBody(lines, number)) == Prepended(body + [lines[0]], ParseBody(lines[1..], number + 1))
      ensures OldSide(body + [lines[0]]) == OldSide(body) + if lines[0][0] in {' ', '-'} then [lines[0][1..]] else []
      ensures NewSide(body + [lines[0]]) == NewSide(body) + if lines[0][0] in {' ', '+'} then [lines[0][1..]] else []
    {
      PrependedTwice(body, lines[0], ParseBody(lines[1..], number + 1));
      SidesOfAppended(body, lines[0]);
    }

    lemma NoSides()
      ensures OldSide([]) == [] && NewSide([]) == []
    {
    }

    /** The loop over one hunk's body. */
    method ParseBodyLoop(lines: seq<string>, start: nat)
      returns (failure: Option<ParseError>, body: seq<PatchLine>, index: nat, oldSeen: nat, newSeen: nat)
      requires start <= |lines|
      ensures start <= index <= |lines| && oldSeen == |OldSide(body)| && newSeen == |NewSide(body)|
      ensures ParseBody(lines[start..], start + 1)
           == if failure.Some? then Err(failure.value) else Ok(Body(body, lines[index..], index + 1))
    {
      NoSides();
      hide OldSide, NewSide;
      index, body, oldSeen, newSeen := start, [], 0, 0;
      ghost var rest := lines[start..];
      ghost var goal := ParseBody(rest, start + 1);
      PrependedNone(goal);
      while index < |lines| && header(lines[index]).None?
        invariant start <= index <= |lines| && rest == lines[index..]
        invariant oldSeen == |OldSide(body)| && newSeen == |NewSide(body)|
        invariant goal == Prepended(body, ParseBody(rest, index + 1))
      {
        var line := lines[index];
        if startsFile(line) {
          return Some(MultiFile), body, index, oldSeen, newSeen;
        }
        if isMarker(line) {
          return Some(NoNewlineMarker), body, index, oldSeen, newSeen;
        }
        if line == [] && index == |lines| - 1 {
          break;
        }
        if line == [] {
          return Some(MissingPrefix(index + 1)), body, index, oldSeen, newSeen;
        }
        if line[0] !in {' ', '-', '+'} {
          return Some(BadPrefix(index + 1)), body, index, oldSeen, newSeen;
        }
        BodyStep(rest, index + 1, body);
        if line[0] in {' ', '-'} { oldSeen := oldSeen + 1; }
        if line[0] in {' ', '+'} { newSeen := newSeen + 1; }
        rest := rest[1..];
        body := body + [line];
        index := index + 1;
      }
      BodyStops(rest, index + 1, body);
      failure := None;
    }

    /** One hunk: its header, its body, its counts. */
    method ParseHunkAt(lines: seq<string>, index: nat, seen: nat)
      returns (failure: Option<ParseError>, hunk: Hunk, next: nat)
      requires index < |lines|
      ensures failure.None? ==> index < next <= |lines|
      ensures ParseHunk(lines[index..], index + 1, seen)
           == if failure.Some? then Err(failure.value) else Ok((hunk, Body(hunk.lines, lines[next..], next + 1)))
    {
      hunk, next := Hunk(0, 0, 0, 0, []), index;
      if startsFile(lines[index]) {
        return Some(MultiFile), hunk, next;
      }
      var matched := header(lines[index]);
      if matched.None? {
        return Some(BadHunkHeader(index + 1)), hunk, next;
      }
      var h := matched.value;
      assert lines[index..][1..] == lines[index + 1..];
      var body, oldSeen, newSeen;
      failure, body, next, oldSeen, newSeen := ParseBodyLoop(lines, index + 1);
      if failure.Some? {
        return failure, hunk, next;
      }
      if oldSeen != h.oldCount || newSeen != h.newCount {
        return Some(CountMismatch), hunk, next;
      }
      hunk := Hunk(h.oldStart, h.oldCount, h.newStart, h.newCount, body);
      if seen + 1 > MAX_PATCH_HUNKS {
        return Some(TooManyHunks), hunk, next;
      }
      return None, hunk, next;
    }

    lemma HunkStep(lines: seq<string>, number: nat, seen: nat, parsed: Parsed<(Hunk, Body)>)
      requires lines != [] && lines[0] != [] && parsed == ParseHunk(lines, number, seen)
      ensures ParseHunks(lines, number, seen)
           == if parsed.Err? then Err(parsed.error)
              else PrependedHunks([parsed.value.0], ParseHunks(parsed.value.1.rest, parsed.value.1.number, seen + 1))
    {
    }

    /** One hunk parsed onto those before it. */
    method NextHunk(lines: seq<string>, index: nat, hunks: seq<Hunk>)
      returns (failure: Option<ParseError>, hunk: Hunk, next: nat)
      requires index < |lines| && lines[index] != []
      ensures failure.None? ==> index < next <= |lines|
      ensures PrependedHunks(hunks, ParseHunks(lines[index..], index + 1, |hunks|))
           == if failure.Some? then Err(failure.value)
              else PrependedHunks(hunks + [hunk], ParseHunks(lines[next..], next + 1, |hunks + [hunk]|))
    {
      failure, hunk, next := ParseHunkAt(lines, index, |hunks|);
      HunkStep(lines[index..], index + 1, |hunks|, ParseHunk(lines[index..], index + 1, |hunks|));
      if failure.None? {
        PrependedHunksTwice(hunks, hunk, ParseHunks(lines[next..], next + 1, |hunks| + 1));
      }
    }

    lemma BlankStep(lines: seq<string>, number: nat, seen: nat)
      requires lines != [] && lines[0] == []
      ensures ParseHunks(lines, number, seen) == ParseHunks(lines[1..], number + 1, seen)
    {
    }

    /** The loop over the hunks. */
    method ParseHunksLoop(lines: seq<string>, start: nat) returns (result: Parsed<seq<Hunk>>)
      requires start <= |lines|
      ensures result == ParseHunks(lines[start..], start + 1, 0)
    {
      hide ParseBody, ParseHunk, OldSide, NewSide;
      var hunks: seq<Hunk> := [];
      var index := start;
      ghost var rest := lines[start..];
      ghost var goal := ParseHunks(rest, start + 1, 0);
      assert goal.Ok? ==> [] + goal.value == goal.value;
      while index < |lines|
        invariant start <= index <= |lines| && rest == lines[index..]
        invariant goal == PrependedHunks(hunks, ParseHunks(rest, index + 1, |hunks|))
      {
        if lines[index] == [] {
          BlankStep(rest, index + 1, |hunks|);
          rest := rest[1..];
          index := index + 1;
          continue;
        }
        var failure, hunk, next := NextHunk(lines, index, hunks);
        if failure.Some? {
          return Err(failure.value);
        }
        rest := lines[next..];
        hunks, index := hunks + [hunk], next;
      }
      assert hunks + [] == hunks;
      return Ok(hunks);
    }

    // ----- reading back assembled patches

    /** A body line that reads as the start of another file. */
    ghost predicate Misread(lines: seq<PatchLine>) {
      exists k :: 0 <= k < |lines| && startsFile(lines[k])
    }

    /** Whatever may follow a body: the last empty piece of the text, or another header. */
    ghost predicate EndsBody(rest: seq<string>) {
      (rest == [[]] && !startsFile([]) && !isMarker([])) || (rest != [] && header(rest[0]).Some?)
    }

    /** Body lines are told from headers and markers by their prefix. */
    ghost predicate Telling() {
      forall line: PatchLine | line[0] in {' ', '-', '+'} :: header(line).None? && !isMarker(line)
    }

    lemma {:induction false} ParseOfBody(lines: seq<PatchLine>, rest: seq<string>, number: nat)
      requires Telling() && EndsBody(rest) && forall k | 0 <= k < |lines| :: lines[k][0] in {' ', '-', '+'}
      ensures ParseBody(lines + rest, number)
           == if Misread(lines) then Err(MultiFile) else Ok(Body(lines, rest, number + |lines|))
    {
      if lines == [] {
        assert lines + rest == rest;
      } else {
        var first, whole := lines[0], lines + rest;
        assert whole[1..] == lines[1..] + rest && whole[0] == first;
        assert header(first).None? && !isMarker(first);
        hide Telling, EndsBody, Misread;
        if startsFile(first) {
          FirstMisread(lines);
        } else {
          ParseOfBody(lines[1..], rest, number + 1);
          MisreadTail(lines);
          assert [first] + lines[1..] == lines;
        }
      }
    }

    lemma FirstMisread(lines: seq<PatchLine>)
      requires lines != [] && startsFile(lines[0])
      ensures Misread(lines)
    {
    }

    lemma MisreadTail(lines: seq<PatchLine>)
      requires lines != [] && !startsFile(lines[0])
      ensures Misread(lines) <==> Misread(lines[1..])
    {
      if Misread(lines) {
        var k :| 0 <= k < |lines| && startsFile(lines[k]);
        assert lines[1..][k - 1] == lines[k];
      }
    }

    /** `line` is a header line for `hunk`. */
    ghost predicate Heads(line: string, hunk: Hunk) {
      line != [] && !startsFile(line)
      && header(line) == Some(Header(hunk.oldStart, hunk.oldCount, hunk.newStart, hunk.newCount))
    }

    lemma ParseOfHunk(line: string, hunk: Hunk, rest: seq<string>, number: nat, seen: nat)
      requires Telling() && EndsBody(rest) && Heads(line, hunk) && hunk.WellFormed() && seen < MAX_PATCH_HUNKS
      ensures ParseHunks([line] + hunk.lines + rest, number, seen)
           == if Misread(hunk.lines) then Err(MultiFile)
              else PrependedHunks([hunk], ParseHunks(rest, number + 1 + |hunk.lines|, seen + 1))
    {
      var lines := [line] + hunk.lines + rest;
      hide ParseBody, ParseHunks, Misread, OldSide, NewSide;
      assert lines[1..] == hunk.lines + rest;
      ParseOfBody(hunk.lines, rest, number + 1);
      HunkStep(lines, number, seen, ParseHunk(lines, number, seen));
    }

    ghost predicate AnyMisread(hunks: seq<Hunk>) {
      exists k :: 0 <= k < |hunks| && Misread(hunks[k].lines)
    }

    lemma AnyMisreadTail(hunks: seq<Hunk>)
      requires hunks != [] && !Misread(hunks[0].lines)
      ensures AnyMisread(hunks) <==> AnyMisread(hunks[1..])
    {
      if AnyMisread(hunks) {
        var k :| 0 <= k < |hunks| && Misread(hunks[k].lines);
        assert hunks[1..][k - 1] == hunks[k];
      }
    }

    /** Assembled hunks are read back as they are, unless a body line starts another file. */
    lemma {:induction false} ParseOfAll(headers: seq<string>, hunks: seq<Hunk>, number: nat, seen: nat)
      requires Telling() && EndsBody([[]]) && |headers| == |hunks| && |hunks| + seen <= MAX_PATCH_HUNKS
      requires forall k | 0 <= k < |hunks| :: Heads(headers[k], hunks[k]) && hunks[k].WellFormed()
      ensures ParseHunks(Assembled(headers, hunks), number, seen)
           == if AnyMisread(hunks) then Err(MultiFile) else Ok(hunks)
    {
      hide ParseHunks, ParseHunk, ParseBody, OldSide, NewSide, Misread, AnyMisread;
      if hunks != [] {
        var rest := Assembled(headers[1..], hunks[1..]);
        if |hunks| > 1 {
          assert rest[0] == headers[1];
        }
        ParseOfHunk(headers[0], hunks[0], rest, number, seen);
        if !Misread(hunks[0].lines) {
          ParseOfAll(headers[1..], hunks[1..], number + 1 + |hunks[0].lines|, seen + 1);
        }
        AnyMisreadFirst(hunks);
        if !Misread(hunks[0].lines) {
          AnyMisreadTail(hunks);
          assert [hunks[0]] + hunks[1..] == hunks;
        }
      } else {
        ParseOfNothing(number, seen);
        assert !AnyMisread([]) by {
          NothingMisread();
        }
      }
    }

    lemma NothingMisread()
      ensures !AnyMisread([])
    {
    }

    lemma AnyMisreadFirst(hunks: seq<Hunk>)
      requires hunks != []
      ensures Misread(hunks[0].lines) ==> AnyMisread(hunks)
    {
    }

    lemma ParseOfNothing(number: nat, seen: nat)
      ensures ParseHunks([[]], number, seen) == Ok([])
    {
    }

    /** What the parser accepts is well formed, so it can be applied and taken back. */
    lemma {:induction false} ParsedBodyIsWellFormed(lines: seq<string>, number: nat)
      requires Lines(lines) && ParseBody(lines, number).Ok?
      ensures var body := ParseBody(lines, number).value;
              && Lines(body.rest) && Lines(body.lines)
              && forall k | 0 <= k < |body.lines| :: body.lines[k][0] in {' ', '-', '+'}
    {
      if !(lines == [] || header(lines[0]).Some? || (lines[0] == [] && |lines| == 1)) {
        ParsedBodyIsWellFormed(lines[1..], number + 1);
      }
    }

    lemma {:induction false} ParsedHunksAreWellFormed(lines: seq<string>, number: nat, seen: nat)
      requires Lines(lines) && ParseHunks(lines, number, seen).Ok?
      ensures AllWellFormed(ParseHunks(lines, number, seen).value)
      decreases |lines|
    {
      if lines != [] {
        if lines[0] == [] {
          ParsedHunksAreWellFormed(lines[1..], number + 1, seen);
        } else {
          var parsed := ParseHunk(lines, number, seen).value;
          ParsedBodyIsWellFormed(lines[1..], number + 1);
          ParsedHunksAreWellFormed(parsed.1.rest, parsed.1.number, seen + 1);
        }
      }
    }
  }
}
