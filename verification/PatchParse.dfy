/** The text form of unified hunks, filetoolsserver/handler/edit_patch.go: numbers, headers, and the whole
    parse with its guards.
 */
module PatchParse {
  import opened Basics
  import opened Text
  import opened Wrappers
  import opened PatchApply
  import opened PatchGrammar

  // ----- decimal numbers

  ghost predicate Digits(s: string) {
    s != [] && forall k | 0 <= k < |s| :: IsDigit(s[k])
  }

  function DigitsLength(s: string): (n: nat)
    ensures n <= |s|
    ensures forall k | 0 <= k < n :: IsDigit(s[k])
    ensures n < |s| ==> !IsDigit(s[n])
  {
    if s == [] || !IsDigit(s[0]) then 0 else 1 + DigitsLength(s[1..])
  }

  function Value(digits: string): int {
    if digits == [] then 0
    else Value(digits[..|digits| - 1]) * 10 + (digits[|digits| - 1] as int - '0' as int)
  }

  function Itoa(n: nat): (s: string)
    ensures Digits(s)
  {
    if n < 10 then [('0' as int + n) as char] else Itoa(n / 10) + [('0' as int + n % 10) as char]
  }

  lemma {:induction false} ValueOfItoa(n: nat)
    ensures Value(Itoa(n)) == n
  {
    if n >= 10 {
      ValueOfItoa(n / 10);
      assert Itoa(n)[..|Itoa(n)| - 1] == Itoa(n / 10);
    } else {
      assert Itoa(n)[..0] == [];
    }
  }

  /** No number but zero is printed with a leading zero. */
  lemma {:induction false} NoLeadingZero(n: nat)
    ensures Itoa(n)[0] == '0' ==> n == 0
  {
    if n >= 10 {
      NoLeadingZero(n / 10);
    }
  }

  /** The digits end where the text goes on with something else. */
  lemma {:induction false} DigitsLengthOf(digits: string, rest: string)
    requires forall k | 0 <= k < |digits| :: IsDigit(digits[k])
    requires rest == [] || !IsDigit(rest[0])
    ensures DigitsLength(digits + rest) == |digits|
  {
    if digits == [] {
      assert digits + rest == rest;
    } else {
      DigitsLengthOf(digits[1..], rest);
      assert (digits + rest)[1..] == digits[1..] + rest;
    }
  }

  /** A machine integer: out-of-range digits give the largest one, and the parser ignores the error. */
  function PatchInt(digits: string): int {
    if Value(digits) > MAX_INT64 then MAX_INT64 else Value(digits)
  }

  lemma PatchIntMeans(digits: string)
    ensures PatchInt(digits) == Min(Value(digits), 9223372036854775807)
  {
  }

  // ----- hunk headers

  datatype Range = Range(start: int, count: int, rest: string)

  /** `start` or `start,count`; the count of a lone start is 1. */
  function ReadRange(s: string): Option<Range> {
    var n := DigitsLength(s);
    if n == 0 then None
    else if n < |s| && s[n] == ',' then
      var m := DigitsLength(s[n + 1..]);
      if m == 0 then None
      else Some(Range(PatchInt(s[..n]), PatchInt(s[n + 1..n + 1 + m]), s[n + 1 + m..]))
    else Some(Range(PatchInt(s[..n]), 1, s[n..]))
  }

  /** `@@ -old +new @@`, with anything after a further blank. */
  function MatchHeader(line: string): Option<Header> {
    if !("@@ -" <= line) then None
    else
      match ReadRange(line[4..])
      case None => None
      case Some(old_) =>
        if !(" +" <= old_.rest) then None
        else
          match ReadRange(old_.rest[2..])
          case None => None
          case Some(new_) =>
            if " @@" <= new_.rest && (|new_.rest| == 3 || new_.rest[3] == ' ')
            then Some(Header(old_.start, old_.count, new_.start, new_.count)) else None
  }

  function PrintRange(start: nat, count: nat): string {
    Itoa(start) + if count == 1 then [] else [','] + Itoa(count)
  }

  /** A header around the text of its two ranges. */
  function HeaderText(old_: string, new_: string, tail: string): string {
    "@@ -" + (old_ + (" +" + (new_ + tail)))
  }

  function PrintHeader(hunk: Hunk): string
    requires 0 <= hunk.oldStart && 0 <= hunk.oldCount && 0 <= hunk.newStart && 0 <= hunk.newCount
  {
    HeaderText(PrintRange(hunk.oldStart, hunk.oldCount), PrintRange(hunk.newStart, hunk.newCount), " @@")
  }

  lemma ReadLoneStart(digits: string, rest: string)
    requires Digits(digits) && rest != [] && !IsDigit(rest[0]) && rest[0] != ','
    ensures ReadRange(digits + rest) == Some(Range(PatchInt(digits), 1, rest))
  {
    DigitsLengthOf(digits, rest);
  }

  lemma ReadStartAndCount(digits: string, count: string, rest: string)
    requires Digits(digits) && Digits(count) && rest != [] && !IsDigit(rest[0])
    ensures ReadRange(digits + ([','] + (count + rest))) == Some(Range(PatchInt(digits), PatchInt(count), rest))
  {
    var s := digits + ([','] + (count + rest));
    DigitsLengthOf(digits, [','] + (count + rest));
    DigitsLengthOf(count, rest);
    assert s[|digits| + 1..] == count + rest;
    assert s[|digits| + 1 + |count|..] == rest;
    assert s[..|digits|] == digits && s[|digits| + 1..|digits| + 1 + |count|] == count;
  }

  lemma ReadPrintedRange(start: nat, count: nat, rest: string)
    requires start <= MAX_INT64 && count <= MAX_INT64 && rest != [] && !IsDigit(rest[0]) && rest[0] != ','
    ensures ReadRange(PrintRange(start, count) + rest) == Some(Range(start, count, rest))
  {
    ValueOfItoa(start);
    if count == 1 {
      assert PrintRange(start, count) + rest == Itoa(start) + rest;
      ReadLoneStart(Itoa(start), rest);
    } else {
      ValueOfItoa(count);
      assert PrintRange(start, count) + rest == Itoa(start) + ([','] + (Itoa(count) + rest));
      ReadStartAndCount(Itoa(start), Itoa(count), rest);
    }
  }

  lemma MatchHeaderText(old_: string, new_: string, tail: string, first: Range, second: Range)
    requires ReadRange(old_ + (" +" + (new_ + tail))) == Some(first) && first.rest == " +" + (new_ + tail)
    requires ReadRange(new_ + tail) == Some(second) && second.rest == tail
    requires " @@" <= tail && (|tail| == 3 || tail[3] == ' ')
    ensures MatchHeader(HeaderText(old_, new_, tail)) == Some(Header(first.start, first.count, second.start, second.count))
  {
    var line := HeaderText(old_, new_, tail);
    assert line[4..] == old_ + (" +" + (new_ + tail));
    assert first.rest[2..] == new_ + tail;
  }

  ghost predicate Printable(hunk: Hunk) {
    && 0 <= hunk.oldStart <= MAX_INT64 && 0 <= hunk.oldCount <= MAX_INT64
    && 0 <= hunk.newStart <= MAX_INT64 && 0 <= hunk.newCount <= MAX_INT64
  }

  lemma MatchPrintedHeader(hunk: Hunk)
    requires Printable(hunk)
    ensures MatchHeader(PrintHeader(hunk)) == Some(Header(hunk.oldStart, hunk.oldCount, hunk.newStart, hunk.newCount))
  {
    var old_, new_ := PrintRange(hunk.oldStart, hunk.oldCount), PrintRange(hunk.newStart, hunk.newCount);
    ReadPrintedRange(hunk.oldStart, hunk.oldCount, " +" + (new_ + " @@"));
    ReadPrintedRange(hunk.newStart, hunk.newCount, " @@");
    MatchHeaderText(old_, new_, " @@", Range(hunk.oldStart, hunk.oldCount, " +" + (new_ + " @@")),
                    Range(hunk.newStart, hunk.newCount, " @@"));
  }

  /** The text of a range: a start, or a start and a count after a comma. */
  ghost predicate IsRange(text: string, start: int, count: int) {
    || (Digits(text) && start == PatchInt(text) && count == 1)
    || exists a: string, b: string :: IsPair(text, a, b) && start == PatchInt(a) && count == PatchInt(b)
  }

  ghost predicate IsPair(text: string, a: string, b: string) {
    Digits(a) && Digits(b) && text == a + [','] + b
  }

  lemma ReadRangeMeans(s: string)
    ensures ReadRange(s).Some? ==>
              var r := ReadRange(s).value;
              |r.rest| <= |s| && s == s[..|s| - |r.rest|] + r.rest && IsRange(s[..|s| - |r.rest|], r.start, r.count)
  {
    var n := DigitsLength(s);
    if n > 0 && n < |s| && s[n] == ',' {
      var m := DigitsLength(s[n + 1..]);
      if m > 0 {
        var a, b := s[..n], s[n + 1..n + 1 + m];
        assert forall k | 0 <= k < m :: b[k] == s[n + 1..][k];
        assert s[..n + 1 + m] == a + [','] + b;
        assert IsPair(s[..n + 1 + m], a, b);
      }
    }
  }

  lemma ReadRangeOf(text: string, start: int, count: int, rest: string)
    requires IsRange(text, start, count) && rest != [] && !IsDigit(rest[0]) && rest[0] != ','
    ensures ReadRange(text + rest) == Some(Range(start, count, rest))
  {
    hide ReadRange, Digits, PatchInt;
    if Digits(text) && start == PatchInt(text) && count == 1 {
      ReadLoneStart(text, rest);
    } else {
      var a, b :| IsPair(text, a, b) && start == PatchInt(a) && count == PatchInt(b);
      ReadStartAndCount(a, b, rest);
      CommaRegrouped(a, b, [','], rest);
    }
  }

  lemma CommaRegrouped(a: string, b: string, comma: string, rest: string)
    ensures a + comma + b + rest == a + (comma + (b + rest))
  {
  }

  /** A line is the header of a hunk when it has this form. */
  ghost predicate IsHeader(line: string, h: Header, old_: string, new_: string, tail: string) {
    && line == HeaderText(old_, new_, tail) && (tail == " @@" || " @@ " <= tail)
    && IsRange(old_, h.oldStart, h.oldCount) && IsRange(new_, h.newStart, h.newCount)
  }

  /** A hunk header is matched exactly when it has the form of one, with the numbers it names. */
  lemma MatchHeaderMeans(line: string, h: Header)
    ensures MatchHeader(line) == Some(h) <==> exists old_, new_, tail :: IsHeader(line, h, old_, new_, tail)
  {
    if MatchHeader(line) == Some(h) {
      HeaderHasForm(line, h);
    }
    if old_, new_, tail :| IsHeader(line, h, old_, new_, tail) {
      FormIsHeader(line, h, old_, new_, tail);
    }
  }

  /** Two ranges read one after the other, with something between them. */
  lemma TwoRanges(body: string, between: string, first: Range, second: Range) returns (old_: string, new_: string)
    requires ReadRange(body) == Some(first) && between <= first.rest && ReadRange(first.rest[|between|..]) == Some(second)
    ensures body == old_ + (between + (new_ + second.rest))
    ensures IsRange(old_, first.start, first.count) && IsRange(new_, second.start, second.count)
  {
    var next := first.rest[|between|..];
    ReadRangeMeans(body);
    ReadRangeMeans(next);
    hide ReadRange, IsRange;
    old_, new_ := body[..|body| - |first.rest|], next[..|next| - |second.rest|];
    assert first.rest == between + next && body == old_ + first.rest && next == new_ + second.rest;
  }

  lemma HeaderTail(rest: string)
    requires " @@" <= rest && (|rest| == 3 || rest[3] == ' ')
    ensures rest == " @@" || " @@ " <= rest
  {
  }

  lemma HeaderHasForm(line: string, h: Header)
    requires MatchHeader(line) == Some(h)
    ensures exists old_, new_, tail :: IsHeader(line, h, old_, new_, tail)
  {
    var first := ReadRange(line[4..]).value;
    var second := ReadRange(first.rest[2..]).value;
    HeaderTail(second.rest);
    assert |" +"| == 2;
    hide ReadRange, IsRange;
    var old_, new_ := TwoRanges(line[4..], " +", first, second);
    assert line == "@@ -" + line[4..];
    assert IsHeader(line, h, old_, new_, second.rest);
  }

  lemma NoDigitNext(tail: string)
    requires tail == " @@" || " @@ " <= tail
    ensures tail != [] && !IsDigit(tail[0]) && tail[0] != ',' && " @@" <= tail && (|tail| == 3 || tail[3] == ' ')
  {
  }

  lemma NoDigitBetween(rest: string)
    ensures " +" + rest != [] && !IsDigit((" +" + rest)[0]) && (" +" + rest)[0] != ','
  {
  }

  lemma FormIsHeader(line: string, h: Header, old_: string, new_: string, tail: string)
    requires IsHeader(line, h, old_, new_, tail)
    ensures MatchHeader(line) == Some(h)
  {
    NoDigitNext(tail);
    NoDigitBetween(new_ + tail);
    hide ReadRange, IsRange, MatchHeader, HeaderText, IsDigit;
    ReadRangeOf(old_, h.oldStart, h.oldCount, " +" + (new_ + tail));
    ReadRangeOf(new_, h.newStart, h.newCount, tail);
    MatchHeaderText(old_, new_, tail, Range(h.oldStart, h.oldCount, " +" + (new_ + tail)), Range(h.newStart, h.newCount, tail));
  }

  /** The form of a header, spelled out. */
  lemma HeaderTextIs(old_: string, new_: string, tail: string)
    ensures HeaderText(old_, new_, tail) == "@@ -" + old_ + " +" + new_ + tail
  {
  }

  // ----- bodies and hunks

  /** Lines that would start another file. */
  predicate StartsFile(line: string) {
    "--- " <= line || "+++ " <= line
  }

  const NO_NEWLINE_MARKER := "\\ No newline at end of file"

  predicate IsMarker(line: string) {
    line == NO_NEWLINE_MARKER
  }

  /** The lines a unified patch is told apart by. */
  lemma UnifiedTells(line: string)
    ensures UNIFIED.startsFile(line) <==> "--- " <= line || "+++ " <= line
    ensures UNIFIED.isMarker(line) <==> line == "\\ No newline at end of file"
  {
  }

  const UNIFIED := Grammar(MatchHeader, StartsFile, IsMarker)

  // ----- the patch text

  /** Windows line endings become plain newlines. */
  function ToLF(s: string): string {
    if s == [] then []
    else if |s| >= 2 && s[0] == '\r' && s[1] == '\n' then ['\n'] + ToLF(s[2..])
    else [s[0]] + ToLF(s[1..])
  }

  predicate IsBlank(c: char) {
    c in {' ', '\t', '\n', '\r', '\U{000B}', '\U{000C}'}
  }

  /** One file header pair comes first. */
  predicate HasFileHeader(lines: seq<string>) {
    |lines| >= 3 && "--- " <= lines[0] && "+++ " <= lines[1]
  }

  /** The refusals of a patch before its hunks are read. */
  lemma RefusedPatches(text: string, names: string -> bool, maxBytes: int)
    ensures Parse(text, names, maxBytes) == Err(EmptyPatch)
       <==> forall k | 0 <= k < |text| :: text[k] in {' ', '\t', '\n', '\r', '\U{000B}', '\U{000C}'}
    ensures Parse(text, names, maxBytes) == Err(TooLarge) <==> Parse(text, names, maxBytes) != Err(EmptyPatch) && |text| > maxBytes
    ensures var lines, parsed := Split(ToLF(text)), Parse(text, names, maxBytes);
            parsed == Err(NoFileHeader)
            <==> parsed != Err(EmptyPatch) && parsed != Err(TooLarge)
                 && (|lines| < 3 || !("--- " <= lines[0]) || !("+++ " <= lines[1]))
  {
    var lines := Split(ToLF(text));
    hide ToLF, Split, Grammar.ParseHunks;
    if HasFileHeader(lines) {
      UNIFIED.HunkErrors(lines[2..], 3, 0);
    }
    assert (forall c | c in text :: IsBlank(c)) <==> forall k | 0 <= k < |text| :: IsBlank(text[k]) by {
      assert forall k | 0 <= k < |text| :: text[k] in text;
    }
  }

  /** The whole patch text. `names` says whether a file header line names the target. */
  function Parse(text: string, names: string -> bool, maxBytes: int): Parsed<seq<Hunk>> {
    if forall c | c in text :: IsBlank(c) then Err(EmptyPatch)
    else if |text| > maxBytes then Err(TooLarge)
    else
      var lines := Split(ToLF(text));
      if !HasFileHeader(lines) then Err(NoFileHeader)
      else if !names(lines[0][4..]) || !names(lines[1][4..]) then Err(WrongFile)
      else
        var hunks :- UNIFIED.ParseHunks(lines[2..], 3, 0);
        if hunks == [] then Err(NoHunks) else Ok(hunks)
  }

  /** Text that is too long, blank, or not headed by a pair of file headers that both name the target, is refused. */
  lemma AcceptedIsHeaded(text: string, names: string -> bool, maxBytes: int) returns (from: string, to: string)
    requires Parse(text, names, maxBytes).Ok?
    ensures |text| <= maxBytes && exists c :: c in text && c !in " \t\n\r\U{000B}\U{000C}"
    ensures names(from) && names(to)
    ensures var lines := Split(ToLF(text)); |lines| >= 3 && lines[0] == "--- " + from && lines[1] == "+++ " + to
  {
    var lines := Split(ToLF(text));
    from, to := lines[0][4..], lines[1][4..];
    var c :| c in text && !IsBlank(c);
    assert c !in " \t\n\r\U{000B}\U{000C}";
  }

  method ParseUnifiedPatch(text: string, names: string -> bool, maxBytes: int) returns (result: Parsed<seq<Hunk>>)
    ensures result == Parse(text, names, maxBytes)
  {
    if forall c | c in text :: IsBlank(c) {
      return Err(EmptyPatch);
    }
    if |text| > maxBytes {
      return Err(TooLarge);
    }
    var lines := Split(ToLF(text));
    if |lines| < 3 || !("--- " <= lines[0]) || !("+++ " <= lines[1]) {
      return Err(NoFileHeader);
    }
    if !names(lines[0][4..]) || !names(lines[1][4..]) {
      return Err(WrongFile);
    }
    result := UNIFIED.ParseHunksLoop(lines, 2);
    if result.Ok? && |result.value| == 0 {
      result := Err(NoHunks);
    }
  }

  /** What the parser accepts is well formed, so it can be applied and taken back. */
  lemma ParsedIsWellFormed(text: string, names: string -> bool, maxBytes: int)
    requires Parse(text, names, maxBytes).Ok?
    ensures AllWellFormed(Parse(text, names, maxBytes).value) && 0 < |Parse(text, names, maxBytes).value|
  {
    UNIFIED.ParsedHunksAreWellFormed(Split(ToLF(text))[2..], 3, 0);
  }
}
