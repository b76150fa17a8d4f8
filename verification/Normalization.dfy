/** The white-space normalization of the fuzzy edit, filetoolsserver/handler/edit_fuzzy.go: every line becomes
    its words with single spaces between them. What that means is said by marking each character of a text that
    is not white space with whether it starts a word.
 */
module Normalization {
  import opened Text

  predicate IsSpace(c: char) {
    || c in "\t\n\U{000B}\U{000C}\r "
    || c in "\U{0085}\U{00A0}\U{1680}\U{2028}\U{2029}\U{202F}\U{205F}\U{3000}"
    || '\U{2000}' <= c <= '\U{200A}'
  }

  /** The code points of Unicode's White_Space property. */
  lemma WhiteSpaceCodes(c: char)
    ensures IsSpace(c) <==>
              || 9 <= c as int <= 13 || c as int in {32, 0x85, 0xA0, 0x1680, 0x2028, 0x2029, 0x202F, 0x205F, 0x3000}
              || 0x2000 <= c as int <= 0x200A
  {
    assert IsSpace(c) <==>
             || c == '\t' || c == '\n' || c == '\U{000B}' || c == '\U{000C}' || c == '\r' || c == ' '
             || c == '\U{0085}' || c == '\U{00A0}' || c == '\U{1680}' || c == '\U{2028}' || c == '\U{2029}'
             || c == '\U{202F}' || c == '\U{205F}' || c == '\U{3000}' || '\U{2000}' <= c <= '\U{200A}';
  }

  /** Length of the longest prefix without white space. */
  function WordLength(s: string): (n: nat)
    ensures n <= |s| && forall k | 0 <= k < n :: !IsSpace(s[k])
    ensures n < |s| ==> IsSpace(s[n])
  {
    if s == [] || IsSpace(s[0]) then 0 else 1 + WordLength(s[1..])
  }

  function Fields(s: string): seq<string>
    decreases |s|
  {
    if s == [] then []
    else if IsSpace(s[0]) then Fields(s[1..])
    else [s[..WordLength(s)]] + Fields(s[WordLength(s)..])
  }

  function JoinWithSpaces(words: seq<string>): string {
    if |words| == 0 then []
    else if |words| == 1 then words[0]
    else words[0] + [' '] + JoinWithSpaces(words[1..])
  }

  function NormalizedLines(lines: seq<string>): seq<string> {
    seq(|lines|, k requires 0 <= k < |lines| => JoinWithSpaces(Fields(lines[k])))
  }

  function Normalize(lines: seq<string>): string {
    Join(NormalizedLines(lines))
  }

  // ----- the words of a line

  /** The characters that are not white space, in order, each with whether it starts a word. */
  function Marks(s: string, inWord: bool): seq<(char, bool)> {
    if s == [] then []
    else if IsSpace(s[0]) then Marks(s[1..], false)
    else [(s[0], !inWord)] + Marks(s[1..], true)
  }

  /** No white space but single spaces between other characters. */
  ghost predicate Tidy(s: string, inWord: bool) {
    forall k | 0 <= k < |s| && IsSpace(s[k]) :: SingleSpace(s, inWord, k)
  }

  predicate SingleSpace(s: string, inWord: bool, k: nat)
    requires k < |s|
  {
    && s[k] == ' ' && k + 1 < |s| && !IsSpace(s[k + 1])
    && (if k == 0 then inWord else !IsSpace(s[k - 1]))
  }

  /** Two lines have the same words. */
  ghost predicate SameWords(a: string, b: string) {
    Marks(a, false) == Marks(b, false)
  }

  ghost predicate IsWord(word: string) {
    word != [] && forall k | 0 <= k < |word| :: !IsSpace(word[k])
  }

  lemma {:induction false} MarksAfterWord(word: string, rest: string, inWord: bool)
    requires forall k | 0 <= k < |word| :: !IsSpace(word[k])
    requires rest == [] || IsSpace(rest[0])
    ensures Marks(word + rest, inWord) == Marks(word, inWord) + Marks(rest, false)
  {
    if word == [] {
      assert word + rest == rest;
    } else {
      MarksAfterWord(word[1..], rest, true);
      assert (word + rest)[1..] == word[1..] + rest;
    }
  }

  ghost predicate AreWords(words: seq<string>) {
    forall k | 0 <= k < |words| :: IsWord(words[k])
  }

  lemma {:induction false} FieldsAreWords(s: string)
    ensures AreWords(Fields(s))
    decreases |s|
  {
    if s != [] {
      if IsSpace(s[0]) {
        FieldsAreWords(s[1..]);
      } else {
        FieldsAreWords(s[WordLength(s)..]);
      }
    }
  }

  lemma {:induction false} JoinedIsTidy(words: seq<string>)
    requires AreWords(words)
    ensures var s := JoinWithSpaces(words);
            Tidy(s, false) && (s == [] <==> words == []) && (s != [] ==> !IsSpace(s[0]))
  {
    if |words| > 1 {
      var word, rest := words[0], JoinWithSpaces(words[1..]);
      JoinedIsTidy(words[1..]);
      assert IsWord(word);
      var s := word + [' '] + rest;
      assert s == JoinWithSpaces(words);
      forall k | 0 <= k < |s| && IsSpace(s[k])
        ensures SingleSpace(s, false, k)
      {
        if k > |word| {
          assert SingleSpace(rest, false, k - |word| - 1);
        }
      }
    }
  }

  lemma {:induction false} MarksOfFields(s: string)
    ensures Marks(JoinWithSpaces(Fields(s)), false) == Marks(s, false)
    decreases |s|
  {
    if s != [] {
      if IsSpace(s[0]) {
        MarksOfFields(s[1..]);
      } else {
        var n := WordLength(s);
        var word, rest := s[..n], s[n..];
        assert s == word + rest;
        MarksOfFields(rest);
        MarksAfterWord(word, rest, false);
        var joined := JoinWithSpaces(Fields(rest));
        if Fields(rest) != [] {
          MarksAfterWord(word, [' '] + joined, false);
          assert ([' '] + joined)[1..] == joined;
          assert word + [' '] + joined == word + ([' '] + joined);
          assert Fields(s)[1..] == Fields(rest);
        }
      }
    }
  }

  /** A normalized line has the words of the line, and nothing else but single spaces between them. */
  lemma NormalizedLine(line: string)
    ensures SameWords(JoinWithSpaces(Fields(line)), line) && Tidy(JoinWithSpaces(Fields(line)), false)
  {
    FieldsAreWords(line);
    JoinedIsTidy(Fields(line));
    MarksOfFields(line);
  }

  lemma MarksOfTidy(s: string)
    requires Tidy(s, true) && s != [] && IsSpace(s[0])
    ensures |s| > 1 && Marks(s, true) == [(s[1], true)] + Marks(s[2..], true)
  {
    assert SingleSpace(s, true, 0);
    assert s[1..][1..] == s[2..];
  }

  lemma FirstMark(s: string, inWord: bool)
    requires Tidy(s, inWord) && s != []
    ensures Marks(s, inWord) != [] && (IsSpace(s[0]) <==> inWord && Marks(s, inWord)[0].1)
  {
    if IsSpace(s[0]) {
      assert SingleSpace(s, inWord, 0);
      MarksOfTidy(s);
    } else {
      assert Marks(s, inWord)[0] == (s[0], !inWord);
    }
  }

  /** There is only one such text. */
  lemma {:induction false} TidyIsUnique(s: string, t: string, inWord: bool)
    requires Tidy(s, inWord) && Tidy(t, inWord) && Marks(s, inWord) == Marks(t, inWord)
    ensures s == t
  {
    if s != [] {
      FirstMark(s, inWord);
    }
    if t != [] {
      FirstMark(t, inWord);
    }
    if s != [] && t != [] {
      if IsSpace(s[0]) {
        MarksOfTidy(s);
        MarksOfTidy(t);
        assert s == [' '] + [s[1]] + s[2..] && t == [' '] + [t[1]] + t[2..];
        TidyTail(s, inWord, 2);
        TidyTail(t, inWord, 2);
        assert Marks(s[2..], true) == Marks(s, true)[1..] == Marks(t, true)[1..] == Marks(t[2..], true);
        TidyIsUnique(s[2..], t[2..], true);
      } else {
        assert s == [s[0]] + s[1..] && t == [t[0]] + t[1..];
        TidyTail(s, inWord, 1);
        TidyTail(t, inWord, 1);
        assert Marks(s[1..], true) == Marks(s, inWord)[1..] == Marks(t, inWord)[1..] == Marks(t[1..], true);
        TidyIsUnique(s[1..], t[1..], true);
      }
    }
  }

  lemma TidyTail(s: string, inWord: bool, n: nat)
    requires Tidy(s, inWord) && 0 < n <= |s| && !IsSpace(s[n - 1])
    ensures Tidy(s[n..], true)
  {
    var tail := s[n..];
    forall k | 0 <= k < |tail| && IsSpace(tail[k])
      ensures SingleSpace(tail, true, k)
    {
      assert SingleSpace(s, inWord, n + k);
    }
  }

  // ----- the lines of a text

  ghost predicate SameWordsInLines(a: seq<string>, b: seq<string>) {
    |a| == |b| && forall k | 0 <= k < |a| :: SameWords(a[k], b[k])
  }

  /** Normalizing keeps the lines apart, each with its own words. */
  lemma NormalizedText(lines: seq<string>)
    requires lines != []
    ensures Split(Normalize(lines)) == NormalizedLines(lines)
    ensures SameWordsInLines(Split(Normalize(lines)), lines)
    ensures forall k | 0 <= k < |lines| :: Tidy(Split(Normalize(lines))[k], false)
  {
    var normalized := NormalizedLines(lines);
    forall k | 0 <= k < |lines| ensures OneLine(normalized[k]) && SameWords(normalized[k], lines[k]) && Tidy(normalized[k], false) {
      NormalizedLine(lines[k]);
      assert IsSpace('\n');
    }
    SplitOfJoin(normalized);
  }

  /** Two texts of as many lines are normalized alike exactly when their lines have the same words. */
  lemma NormalizedAlike(a: seq<string>, b: seq<string>)
    requires |a| == |b| && a != []
    ensures Normalize(a) == Normalize(b) <==> SameWordsInLines(a, b)
  {
    NormalizedText(a);
    NormalizedText(b);
    if SameWordsInLines(a, b) {
      forall k | 0 <= k < |a| ensures NormalizedLines(a)[k] == NormalizedLines(b)[k] {
        assert SameWords(a[k], b[k]) && SameWords(NormalizedLines(a)[k], a[k]) && SameWords(NormalizedLines(b)[k], b[k]);
        TidyIsUnique(NormalizedLines(a)[k], NormalizedLines(b)[k], false);
      }
      assert NormalizedLines(a) == NormalizedLines(b);
    } else if Normalize(a) == Normalize(b) {
      forall k | 0 <= k < |a| ensures SameWords(a[k], b[k]) {
        assert SameWords(NormalizedLines(a)[k], a[k]) && SameWords(NormalizedLines(b)[k], b[k]);
      }
    }
  }

  /** A line without words, and no second line, is all that normalizes to nothing. */
  lemma NormalizedToNothing(lines: seq<string>)
    requires lines != []
    ensures Normalize(lines) == [] <==> |lines| == 1 && Marks(lines[0], false) == []
  {
    NormalizedText(lines);
    if Normalize(lines) == [] {
      assert Split([]) == [[]];
      assert SameWords([], lines[0]);
    } else if |lines| == 1 && Marks(lines[0], false) == [] {
      assert SameWords(NormalizedLines(lines)[0], lines[0]);
      assert Tidy([], false);
      TidyIsUnique(NormalizedLines(lines)[0], [], false);
    }
  }
}
