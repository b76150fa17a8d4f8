/** Splitting text at newlines and joining it again, as every text operation here does. */
module Text {

  ghost predicate OneLine(line: string) {
    '\n' !in line
  }

  ghost predicate Lines(lines: seq<string>) {
    forall k | 0 <= k < |lines| :: OneLine(lines[k])
  }

  /** The pieces of `s` between its newlines: always at least one. */
  function Split(s: string): (lines: seq<string>)
    ensures lines != [] && Lines(lines)
    ensures |lines| == Newlines(s) + 1
  {
    if s == [] then [[]]
    else
      var rest := Split(s[1..]);
      if s[0] == '\n' then [[]] + rest else [[s[0]] + rest[0]] + rest[1..]
  }

  function Newlines(s: string): nat {
    if s == [] then 0 else (if s[0] == '\n' then 1 else 0) + Newlines(s[1..])
  }

  function Join(lines: seq<string>): string {
    if |lines| == 0 then []
    else if |lines| == 1 then lines[0]
    else lines[0] + ['\n'] + Join(lines[1..])
  }

  lemma {:induction false} JoinOfSplit(s: string)
    ensures Join(Split(s)) == s
  {
    if s != [] {
      JoinOfSplit(s[1..]);
      var rest, lines := Split(s[1..]), Split(s);
      if s[0] == '\n' {
        assert lines[1..] == rest;
      } else if |rest| == 1 {
        assert lines == [[s[0]] + rest[0]];
      } else {
        assert lines[1..] == rest[1..];
        assert lines[0] + ['\n'] + Join(lines[1..]) == [s[0]] + (rest[0] + ['\n'] + Join(rest[1..]));
      }
    }
  }

  /** The pieces of a concatenation: the last piece of one part runs on into the first of the other. */
  function Glue(x: seq<string>, y: seq<string>): (r: seq<string>)
    requires x != [] && y != []
    ensures |r| == |x| + |y| - 1
  {
    x[..|x| - 1] + [x[|x| - 1] + y[0]] + y[1..]
  }

  lemma GlueHead(c: char, x: seq<string>, y: seq<string>)
    requires x != [] && y != []
    ensures Glue([[]] + x, y) == [[]] + Glue(x, y)
    ensures Glue([[c] + x[0]] + x[1..], y) == [[c] + Glue(x, y)[0]] + Glue(x, y)[1..]
  {
    var shifted, started := [[]] + x, [[c] + x[0]] + x[1..];
    assert shifted[..|shifted| - 1] == [[]] + x[..|x| - 1];
    if |x| == 1 {
      assert [c] + (x[0] + y[0]) == started[0] + y[0];
    } else {
      assert Glue(x, y)[0] == x[0];
      assert started[..|started| - 1] == [[c] + x[0]] + x[1..|x| - 1];
    }
  }

  lemma {:induction false} SplitOfConcat(a: string, b: string)
    ensures Split(a + b) == Glue(Split(a), Split(b))
  {
    if a == [] {
      assert a + b == b;
      assert [] + Split(b)[0] == Split(b)[0];
    } else {
      SplitOfConcat(a[1..], b);
      assert (a + b)[1..] == a[1..] + b;
      GlueHead(a[0], Split(a[1..]), Split(b));
    }
  }

  lemma {:induction false} SplitOfLine(line: string)
    requires OneLine(line)
    ensures Split(line) == [line]
  {
    if line != [] {
      SplitOfLine(line[1..]);
      assert [line[0]] + line[1..] == line;
    }
  }

  /** A text that ends its lines splits apart from whatever follows it. */
  lemma SplitAfterNewline(line: string, rest: string)
    requires OneLine(line)
    ensures Split(line + ['\n'] + rest) == [line] + Split(rest)
  {
    SplitOfLine(line);
    SplitOfConcat(line, ['\n'] + rest);
    assert (['\n'] + rest)[1..] == rest;
    assert line + ['\n'] + rest == line + (['\n'] + rest);
    assert Split(['\n'] + rest) == [[]] + Split(rest);
    assert line + [] == line;
  }

  lemma {:induction false} SplitOfJoin(lines: seq<string>)
    requires lines != [] && Lines(lines)
    ensures Split(Join(lines)) == lines
  {
    if |lines| == 1 {
      SplitOfLine(lines[0]);
    } else {
      SplitOfJoin(lines[1..]);
      SplitAfterNewline(lines[0], Join(lines[1..]));
      assert lines == [lines[0]] + lines[1..];
    }
  }

  /** A text whose last line is ended has an empty last piece, ... */
  lemma {:induction false} LastPieceOfEnded(a: string)
    requires a == [] || a[|a| - 1] == '\n'
    ensures Split(a)[Newlines(a)] == []
  {
    if |a| > 1 {
      LastPieceOfEnded(a[1..]);
    } else if a != [] {
      assert a[1..] == [];
    }
  }

  /** ... so what follows it starts a line of its own. */
  lemma SplitAtLineStart(a: string, b: string)
    requires a == [] || a[|a| - 1] == '\n'
    ensures Split(a) == Split(a)[..Newlines(a)] + [[]]
    ensures Split(a + b) == Split(a)[..Newlines(a)] + Split(b)
  {
    LastPieceOfEnded(a);
    SplitOfConcat(a, b);
    GlueAfterEmpty(Split(a), Split(b));
  }

  lemma GlueAfterEmpty(x: seq<string>, y: seq<string>)
    requires x != [] && y != [] && x[|x| - 1] == []
    ensures x == x[..|x| - 1] + [[]] && Glue(x, y) == x[..|x| - 1] + y
  {
    assert [] + y[0] == y[0];
    assert y == [y[0]] + y[1..];
  }

  /** Joining line lists end to end. */
  lemma {:induction false} JoinOfConcat(front: seq<string>, rest: seq<string>)
    requires rest != []
    ensures Join(front + rest) == Join(front + [[]]) + Join(rest)
  {
    if front == [] {
      assert front + rest == rest && front + [[]] == [[]];
    } else {
      JoinOfConcat(front[1..], rest);
      assert (front + rest)[1..] == front[1..] + rest && (front + [[]])[1..] == front[1..] + [[]];
      assert front[0] + ['\n'] + (Join(front[1..] + [[]]) + Join(rest))
          == (front[0] + ['\n'] + Join(front[1..] + [[]])) + Join(rest);
    }
  }
}
