/** Header lines under renumbering: the adjusted line is a header with both starts moved. */
module HeaderShift {
  import opened Basics
  import opened Wrappers
  import opened PatchGrammar
  import opened PatchParse
  import opened DiffRenumber

  // ----- concatenations

  lemma Halves<T>(front: seq<T>, back: seq<T>)
    ensures (front + back)[..|front|] == front && (front + back)[|front|..] == back && front <= front + back
  {
  }

  lemma Regrouped<T>(a: seq<T>, b: seq<T>, c: seq<T>)
    ensures a + b + c == a + (b + c)
  {
  }

  // ----- the parts of a range

  /** What comes between a range's first digits and its rest: nothing, or a comma and a count. */
  ghost predicate Middle(middle: string, count: int) {
    (middle == [] && count == 1) || (middle != [] && middle[0] == ',' && Digits(middle[1..]) && count == PatchInt(middle[1..]))
  }

  lemma LoneParts(s: string, n: nat)
    requires n == DigitsLength(s) && n > 0 && !(n < |s| && s[n] == ',')
    ensures ReadRange(s) == Some(Range(PatchInt(s[..n]), 1, s[n..]))
  {
    hide DigitsLength, PatchInt;
  }

  lemma Halved<T>(s: seq<T>, n: nat)
    requires n <= |s|
    ensures s == s[..n] + ([] + s[n..])
  {
    assert [] + s[n..] == s[n..];
  }

  lemma CountedParts(s: string, n: nat, m: nat)
    requires n == DigitsLength(s) && n > 0 && n < |s| && s[n] == ',' && m == DigitsLength(s[n + 1..]) && m > 0
    ensures ReadRange(s) == Some(Range(PatchInt(s[..n]), PatchInt(s[n + 1..n + 1 + m]), s[n + 1 + m..]))
    ensures Digits(s[n + 1..n + 1 + m])
  {
    hide DigitsLength, PatchInt, Digits;
    Inner(s, n + 1, m);
    LeadingDigits(s[n + 1..]);
  }

  lemma LeadingDigits(s: string)
    requires DigitsLength(s) > 0
    ensures Digits(s[..DigitsLength(s)])
  {
  }

  lemma Inner<T>(s: seq<T>, from: nat, length: nat)
    requires from + length <= |s|
    ensures s[from..][..length] == s[from..from + length]
  {
  }

  lemma Rejoined(s: string, n: nat, m: nat)
    requires n + 1 + m <= |s| && s[n] == ','
    ensures s == s[..n] + (([','] + s[n + 1..n + 1 + m]) + s[n + 1 + m..])
  {
  }

  lemma RangeParts(s: string, r: Range) returns (digits: string, middle: string)
    requires ReadRange(s) == Some(r)
    ensures s == digits + (middle + r.rest)
    ensures Digits(digits) && r.start == PatchInt(digits) && Middle(middle, r.count)
  {
    var n := DigitsLength(s);
    digits := s[..n];
    if n < |s| && s[n] == ',' {
      var m := DigitsLength(s[n + 1..]);
      CountedParts(s, n, m);
      Rejoined(s, n, m);
      middle := [','] + s[n + 1..n + 1 + m];
      Halves([','], s[n + 1..n + 1 + m]);
    } else {
      LoneParts(s, n);
      Halved(s, n);
      middle := [];
    }
  }

  lemma PartsRange(digits: string, middle: string, count: int, rest: string)
    requires Digits(digits) && Middle(middle, count) && rest != [] && rest[0] == ' '
    ensures ReadRange(digits + (middle + rest)) == Some(Range(PatchInt(digits), count, rest))
    ensures ' ' !in middle && (middle == [] || !IsDigit(middle[0]))
  {
    if middle == [] {
      assert middle + rest == rest;
      ReadLoneStart(digits, rest);
    } else {
      assert middle == [','] + middle[1..];
      Regrouped([','], middle[1..], rest);
      ReadStartAndCount(digits, middle[1..], rest);
    }
  }

  // ----- the parts of a header

  /** A header line by its parts. */
  function Line(oldDigits: string, oldMiddle: string, newDigits: string, newMiddle: string, tail: string): string {
    HeaderText(oldDigits + oldMiddle, newDigits + newMiddle, tail)
  }

  predicate StartsBlank(tail: string) {
    tail != [] && tail[0] == ' '
  }

  ghost predicate Tail(tail: string) {
    " @@" <= tail && (|tail| == 3 || tail[3] == ' ')
  }

  lemma HeaderOfParts(oldDigits: string, oldMiddle: string, oldCount: int,
                      newDigits: string, newMiddle: string, newCount: int, tail: string)
    requires Digits(oldDigits) && Middle(oldMiddle, oldCount) && Digits(newDigits) && Middle(newMiddle, newCount) && Tail(tail)
    ensures MatchHeader(Line(oldDigits, oldMiddle, newDigits, newMiddle, tail))
         == Some(Header(PatchInt(oldDigits), oldCount, PatchInt(newDigits), newCount))
  {
    var inner := " +" + ((newDigits + newMiddle) + tail);
    PartsRange(newDigits, newMiddle, newCount, tail);
    PartsRange(oldDigits, oldMiddle, oldCount, inner);
    Regrouped(newDigits, newMiddle, tail);
    Regrouped(oldDigits, oldMiddle, inner);
    MatchHeaderText(oldDigits + oldMiddle, newDigits + newMiddle, tail,
                    Range(PatchInt(oldDigits), oldCount, inner), Range(PatchInt(newDigits), newCount, tail));
  }

  /** The parts of a header line. */
  lemma HeaderRanges(line: string) returns (first: Range, second: Range)
    requires MatchHeader(line).Some?
    ensures "@@ -" <= line && ReadRange(line[4..]) == Some(first)
    ensures " +" <= first.rest && ReadRange(first.rest[2..]) == Some(second) && Tail(second.rest)
    ensures MatchHeader(line) == Some(Header(first.start, first.count, second.start, second.count))
  {
    first := ReadRange(line[4..]).value;
    second := ReadRange(first.rest[2..]).value;
  }

  lemma Prefixed<T>(front: seq<T>, s: seq<T>)
    requires front <= s
    ensures s == front + s[|front|..]
  {
  }

  lemma HeaderParts(line: string)
    returns (oldDigits: string, oldMiddle: string, newDigits: string, newMiddle: string, tail: string)
    requires MatchHeader(line).Some?
    ensures line == Line(oldDigits, oldMiddle, newDigits, newMiddle, tail) && Tail(tail)
    ensures Digits(oldDigits) && PatchInt(oldDigits) == MatchHeader(line).value.oldStart
    ensures Digits(newDigits) && PatchInt(newDigits) == MatchHeader(line).value.newStart
    ensures Middle(oldMiddle, MatchHeader(line).value.oldCount) && Middle(newMiddle, MatchHeader(line).value.newCount)
  {
    var first, second := HeaderRanges(line);
    oldDigits, oldMiddle := RangeParts(line[4..], first);
    newDigits, newMiddle := RangeParts(first.rest[2..], second);
    tail := second.rest;
    Regrouped(newDigits, newMiddle, tail);
    Prefixed(" +", first.rest);
    Regrouped(oldDigits, oldMiddle, first.rest);
    Prefixed("@@ -", line);
  }

  // ----- cutting a header

  lemma {:induction false} PlusIndexAfter(middle: string, rest: string)
    requires ' ' !in middle && " +" <= rest
    ensures PlusIndex(middle + rest) == |middle|
  {
    if middle == [] {
      assert middle + rest == rest;
    } else {
      PlusIndexAfter(middle[1..], rest);
      assert (middle + rest)[1..] == middle[1..] + rest;
      assert middle[0] != ' ';
    }
  }

  /** The part of a header from its second number on. */
  lemma CutNew(newDigits: string, after: string)
    requires Digits(newDigits) && (after == [] || !IsDigit(after[0]))
    ensures DigitsLength(newDigits + after) == |newDigits|
    ensures (newDigits + after)[..|newDigits|] == newDigits && (newDigits + after)[|newDigits|..] == after
  {
    DigitsLengthOf(newDigits, after);
  }

  lemma CutMiddle(middle: string, t: string)
    requires ' ' !in middle
    ensures var u := middle + (" +" + t);
            PlusIndex(u) == |middle| && u[..|middle| + 2] == middle + " +" && u[|middle| + 2..] == t
  {
    PlusIndexAfter(middle, " +" + t);
    Regrouped(middle, " +", t);
    Halves(middle + " +", t);
  }

  lemma CutOf(oldDigits: string, middle: string, newDigits: string, after: string)
    requires Digits(oldDigits) && Digits(newDigits) && ' ' !in middle && (middle == [] || !IsDigit(middle[0]))
    requires after == [] || !IsDigit(after[0])
    ensures Cut("@@ -" + (oldDigits + (middle + (" +" + (newDigits + after)))))
         == Some(Pieces(oldDigits, middle + " +", newDigits, after))
  {
    var t := newDigits + after;
    var u := middle + (" +" + t);
    Halves("@@ -", oldDigits + u);
    CutNew(oldDigits, u);
    CutMiddle(middle, t);
    CutNew(newDigits, after);
  }

  lemma Unnested(oldDigits: string, oldMiddle: string, newDigits: string, newMiddle: string, tail: string)
    ensures Line(oldDigits, oldMiddle, newDigits, newMiddle, tail)
         == "@@ -" + (oldDigits + (oldMiddle + (" +" + (newDigits + (newMiddle + tail)))))
  {
    Regrouped(newDigits, newMiddle, tail);
    Regrouped(oldDigits, oldMiddle, " +" + (newDigits + (newMiddle + tail)));
  }

  lemma CutOfLine(oldDigits: string, oldMiddle: string, oldCount: int, newDigits: string, newMiddle: string,
                  newCount: int, tail: string)
    requires Digits(oldDigits) && Middle(oldMiddle, oldCount) && Digits(newDigits) && Middle(newMiddle, newCount) && StartsBlank(tail)
    ensures Cut(Line(oldDigits, oldMiddle, newDigits, newMiddle, tail))
         == Some(Pieces(oldDigits, oldMiddle + " +", newDigits, newMiddle + tail))
  {
    hide ReadRange, PatchInt, Cut;
    var after := newMiddle + tail;
    PartsRange(newDigits, newMiddle, newCount, tail);
    PartsRange(oldDigits, oldMiddle, oldCount, " +" + (newDigits + after));
    assert after[0] == if newMiddle == [] then ' ' else newMiddle[0];
    CutOf(oldDigits, oldMiddle, newDigits, after);
    Unnested(oldDigits, oldMiddle, newDigits, newMiddle, tail);
  }

  lemma AdjustLineOfParts(oldDigits: string, oldMiddle: string, oldCount: int, newDigits: string, newMiddle: string,
                          newCount: int, tail: string, oldOffset: nat, newOffset: nat)
    requires Digits(oldDigits) && Middle(oldMiddle, oldCount) && Digits(newDigits) && Middle(newMiddle, newCount) && StartsBlank(tail)
    ensures AdjustHeader(Line(oldDigits, oldMiddle, newDigits, newMiddle, tail), oldOffset, newOffset)
         == Some(Line(Itoa(Number(oldDigits) + oldOffset), oldMiddle, Itoa(Number(newDigits) + newOffset), newMiddle, tail))
  {
    hide Itoa, Number, Cut, Digits, Middle, Line;
    CutOfLine(oldDigits, oldMiddle, oldCount, newDigits, newMiddle, newCount, tail);
    AsLine(Itoa(Number(oldDigits) + oldOffset), oldMiddle, Itoa(Number(newDigits) + newOffset), newMiddle, tail);
  }

  lemma AsLine(oldDigits: string, oldMiddle: string, newDigits: string, newMiddle: string, tail: string)
    ensures "@@ -" + (oldDigits + ((oldMiddle + " +") + (newDigits + (newMiddle + tail))))
         == Line(oldDigits, oldMiddle, newDigits, newMiddle, tail)
  {
    Regrouped(newDigits, newMiddle, tail);
    var inner := newDigits + newMiddle + tail;
    Regrouped(oldMiddle, " +", inner);
    Regrouped(oldDigits, oldMiddle, " +" + inner);
  }

  // ----- the moved header

  /** The line numbers of a hunk stay machine integers when they move. */
  predicate Movable(oldStart: int, newStart: int, oldOffset: nat, newOffset: nat) {
    oldStart < MAX_INT64 && newStart < MAX_INT64 && oldStart + oldOffset <= MAX_INT64 && newStart + newOffset <= MAX_INT64
  }

  lemma UnclampedNumber(digits: string)
    requires Digits(digits) && PatchInt(digits) < MAX_INT64
    ensures Number(digits) == PatchInt(digits) == Value(digits)
  {
    ValueIsNatural(digits);
  }

  lemma MovedNumber(digits: string, offset: nat)
    requires Digits(digits) && PatchInt(digits) < MAX_INT64 && PatchInt(digits) + offset <= MAX_INT64
    ensures PatchInt(Itoa(Number(digits) + offset)) == PatchInt(digits) + offset
  {
    UnclampedNumber(digits);
    ValueOfItoa(Number(digits) + offset);
  }

  /** An adjusted header is a header, with the numbers moved. */
  lemma AdjustedHeader(line: string, oldOffset: nat, newOffset: nat)
    requires MatchHeader(line).Some?
    requires Movable(MatchHeader(line).value.oldStart, MatchHeader(line).value.newStart, oldOffset, newOffset)
    ensures AdjustHeader(line, oldOffset, newOffset).Some?
    ensures var h := MatchHeader(line).value;
            MatchHeader(AdjustHeader(line, oldOffset, newOffset).value)
            == Some(h.(oldStart := h.oldStart + oldOffset, newStart := h.newStart + newOffset))
  {
    hide AdjustHeader, MatchHeader, Line, Digits, Middle, Tail, PatchInt, Number, Itoa;
    var h := MatchHeader(line).value;
    var oldDigits, oldMiddle, newDigits, newMiddle, tail := HeaderParts(line);
    AdjustLineOfParts(oldDigits, oldMiddle, h.oldCount, newDigits, newMiddle, h.newCount, tail, oldOffset, newOffset);
    MovedNumber(oldDigits, oldOffset);
    MovedNumber(newDigits, newOffset);
    HeaderOfParts(Itoa(Number(oldDigits) + oldOffset), oldMiddle, h.oldCount,
                  Itoa(Number(newDigits) + newOffset), newMiddle, h.newCount, tail);
  }
}
