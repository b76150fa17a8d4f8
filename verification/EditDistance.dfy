/** The edit distance of filetoolsserver/handler/edit_fuzzy.go: the full recurrence, its meaning as
    a cheapest edit script, and the banded two-row loop with its early cutoff.
 */
module EditDistance {
  import opened Basics
  import opened Wrappers

  /** Entry (i, j) of the full table: how far a[..i] is from b[..j]. */
  function Distance(a: string, b: string, i: nat, j: nat): (d: nat)
    requires i <= |a| && j <= |b|
    ensures i - j <= d && j - i <= d
    decreases i + j
  {
    if i == 0 then j
    else if j == 0 then i
    else Min(Min(Distance(a, b, i - 1, j) + 1, Distance(a, b, i, j - 1) + 1),
             Distance(a, b, i - 1, j - 1) + Cost(a[i - 1], b[j - 1]))
  }

  function Cost(x: char, y: char): nat {
    if x == y then 0 else 1
  }

  // ----- the table is the price of the cheapest edit script

  /** One edit, read from the end of the text towards its start. */
  datatype Edit = Keep | Replace(with: char) | Insert(c: char) | Delete

  /** `script` turns the text `a` into `b`. */
  ghost predicate Turns(script: seq<Edit>, a: string, b: string)
    decreases |script|
  {
    if script == [] then a == [] && b == []
    else
      var rest := script[..|script| - 1];
      match script[|script| - 1]
      case Keep => a != [] && b != [] && a[|a| - 1] == b[|b| - 1] && Turns(rest, a[..|a| - 1], b[..|b| - 1])
      case Replace(c) => a != [] && b != [] && b[|b| - 1] == c && Turns(rest, a[..|a| - 1], b[..|b| - 1])
      case Insert(c) => b != [] && b[|b| - 1] == c && Turns(rest, a, b[..|b| - 1])
      case Delete => a != [] && Turns(rest, a[..|a| - 1], b)
  }

  /** The text a script leaves when it is carried out from the end of the text, or none if it does not fit. */
  function Outcome(script: seq<Edit>, a: string): Option<string>
    decreases |script|
  {
    if script == [] then if a == [] then Some([]) else None
    else
      var rest, edit := script[..|script| - 1], script[|script| - 1];
      if edit.Insert? then Ended(Outcome(rest, a), [edit.c])
      else if a == [] then None
      else
        var shorter, last := a[..|a| - 1], a[|a| - 1];
        match edit
        case Keep => Ended(Outcome(rest, shorter), [last])
        case Replace(with) => Ended(Outcome(rest, shorter), [with])
        case Delete => Outcome(rest, shorter)
        case Insert(_) => None
  }

  function Ended(text: Option<string>, end: string): Option<string> {
    match text
    case None => None
    case Some(t) => Some(t + end)
  }

  /** A script turns one text into another exactly when carrying it out leaves the other. */
  lemma {:induction false} TurnsIsOutcome(script: seq<Edit>, a: string, b: string)
    ensures Turns(script, a, b) <==> Outcome(script, a) == Some(b)
    decreases |script|
  {
    if script != [] {
      var rest, edit := script[..|script| - 1], script[|script| - 1];
      var shorterA := if edit.Insert? || a == [] then a else a[..|a| - 1];
      if edit.Delete? {
        TurnsIsOutcome(rest, shorterA, b);
      } else {
        assert b != [] ==> b == b[..|b| - 1] + [b[|b| - 1]];
        if b != [] {
          TurnsIsOutcome(rest, shorterA, b[..|b| - 1]);
        }
        if t :| Outcome(rest, shorterA) == Some(t) {
          assert forall c: char :: (t + [c])[..|t|] == t && (t + [c])[|t|] == c;
        }
      }
    }
  }

  ghost function Price(script: seq<Edit>): nat {
    if script == [] then 0
    else Price(script[..|script| - 1]) + if script[|script| - 1].Keep? then 0 else 1
  }

  /** No script is cheaper than the table entry. */
  lemma {:induction false} NoCheaperScript(script: seq<Edit>, a: string, b: string, i: nat, j: nat)
    requires i <= |a| && j <= |b| && Turns(script, a[..i], b[..j])
    ensures Distance(a, b, i, j) <= Price(script)
    decreases |script|
  {
    if script != [] {
      var rest := script[..|script| - 1];
      if i > 0 { assert a[..i][..i - 1] == a[..i - 1]; }
      if j > 0 { assert b[..j][..j - 1] == b[..j - 1]; }
      match script[|script| - 1]
      case Keep => NoCheaperScript(rest, a, b, i - 1, j - 1);
      case Replace(_) => NoCheaperScript(rest, a, b, i - 1, j - 1);
      case Insert(_) => NoCheaperScript(rest, a, b, i, j - 1);
      case Delete => NoCheaperScript(rest, a, b, i - 1, j);
    }
  }

  /** One more edit at the end. */
  lemma OneMoreEdit(script: seq<Edit>, edit: Edit, a: string, b: string, i: nat, j: nat)
    requires i <= |a| && j <= |b|
    requires (edit.Insert? || 0 < i) && (edit.Delete? || 0 < j)
    requires edit.Keep? ==> a[i - 1] == b[j - 1]
    requires (edit.Insert? ==> edit.c == b[j - 1]) && (edit.Replace? ==> edit.with == b[j - 1])
    requires Turns(script, a[..if edit.Insert? then i else i - 1], b[..if edit.Delete? then j else j - 1])
    ensures Turns(script + [edit], a[..i], b[..j])
    ensures Price(script + [edit]) == Price(script) + if edit.Keep? then 0 else 1
  {
    assert (script + [edit])[..|script|] == script;
    assert 0 < i ==> a[..i][..i - 1] == a[..i - 1];
    assert 0 < j ==> b[..j][..j - 1] == b[..j - 1];
  }

  /** Some script costs exactly the table entry. */
  lemma {:induction false} CheapestScript(a: string, b: string, i: nat, j: nat) returns (script: seq<Edit>)
    requires i <= |a| && j <= |b|
    ensures Turns(script, a[..i], b[..j]) && Price(script) == Distance(a, b, i, j)
    decreases i + j
  {
    if i == 0 && j == 0 {
      assert Turns([], a[..i], b[..j]) && Price([]) == 0;
      return [];
    }
    hide Turns, Price;
    var edit: Edit;
    if i == 0 || (j > 0 && Distance(a, b, i, j) == Distance(a, b, i, j - 1) + 1) {
      edit := Insert(b[j - 1]);
      script := CheapestScript(a, b, i, j - 1);
    } else if j == 0 || Distance(a, b, i, j) == Distance(a, b, i - 1, j) + 1 {
      edit := Delete;
      script := CheapestScript(a, b, i - 1, j);
    } else {
      edit := if a[i - 1] == b[j - 1] then Keep else Replace(b[j - 1]);
      script := CheapestScript(a, b, i - 1, j - 1);
    }
    OneMoreEdit(script, edit, a, b, i, j);
    script := script + [edit];
  }

  // ----- the banded computation

  /** `value` stands for `exact` as far as the bound can tell. */
  predicate Stands(value: int, exact: nat, maximum: int) {
    if exact <= maximum then value == exact else value > maximum
  }

  /** Column 1 of row i is at most i, so a row whose columns from 1 on are all over the bound also
      has its column 0 over the bound. */
  lemma FirstColumn(a: string, b: string, i: nat)
    requires 0 < i <= |a| && 0 < |b|
    ensures Distance(a, b, i, 1) <= i
  {
    assert Distance(a, b, i - 1, 0) == i - 1;
  }

  /** Once a whole row is over the bound, so is every later entry. */
  lemma {:induction false} RowsBelow(a: string, b: string, row: nat, maximum: int, i: nat, j: nat)
    requires row <= i <= |a| && j <= |b|
    requires forall k: nat | k <= |b| :: Distance(a, b, row, k) > maximum
    ensures Distance(a, b, i, j) > maximum
    decreases i + j
  {
    if row < i {
      if j == 0 {
        RowsBelow(a, b, row, maximum, i - 1, 0);
      } else {
        RowsBelow(a, b, row, maximum, i - 1, j);
        RowsBelow(a, b, row, maximum, i, j - 1);
        RowsBelow(a, b, row, maximum, i - 1, j - 1);
      }
    }
  }

  /** The one family of inputs on which the cutoff misfires: nothing to compare against, so every row
      has an empty band, although deleting all of `first` is within the bound. */
  predicate EmptyBand(first: string, second: string, maximum: int) {
    first != [] && second == [] && |first| <= maximum
  }

  /** Entries of the band in rows 1 to `rows`: what the inner loop visits. */
  function BandCells(length: nat, maximum: nat, rows: nat): (cells: nat)
    ensures cells <= rows * (2 * maximum + 1)
  {
    if rows == 0 then 0
    else
      var start, end := Max(1, rows - maximum), Min(length, rows + maximum);
      BandCells(length, maximum, rows - 1) + if start <= end then end - start + 1 else 0
  }

  lemma {:induction false} BandCellsGrow(length: nat, maximum: nat, rows: nat, more: nat)
    requires rows <= more
    ensures BandCells(length, maximum, rows) <= BandCells(length, maximum, more)
  {
    if rows < more {
      BandCellsGrow(length, maximum, rows, more - 1);
    }
  }

  /** Row i of the full table. */
  ghost function TableRow(first: string, second: string, i: nat): (row: seq<nat>)
    requires i <= |first|
  {
    seq(|second| + 1, k requires 0 <= k <= |second| => Distance(first, second, i, k))
  }

  /** `exact[j]` follows from its neighbours in `exact` and in the row above. */
  ghost predicate Follows(x: char, second: string, above: seq<nat>, exact: seq<nat>, j: nat)
    requires 0 < j <= |second| && |above| == |exact| == |second| + 1
  {
    exact[j] == Min(Min(above[j] + 1, exact[j - 1] + 1), above[j - 1] + Cost(x, second[j - 1]))
  }

  /** What the inner loop needs to know about row i of the full table and the row above it. */
  ghost predicate NextRow(x: char, second: string, i: nat, above: seq<nat>, exact: seq<nat>) {
    |above| == |exact| == |second| + 1 && exact[0] == i &&
    (forall k | 0 <= k <= |second| :: i - k <= exact[k] && k - i <= exact[k]) &&
    (forall j {:trigger Follows(x, second, above, exact, j)} | 1 <= j <= |second| :: Follows(x, second, above, exact, j))
  }

  /** The first `columns` entries of `row` stand for those of the exact row. */
  ghost predicate StandsFor(row: seq<int>, exact: seq<nat>, maximum: int, columns: nat) {
    |row| == |exact| && columns <= |row| &&
    forall k | 0 <= k < columns :: Stands(row[k], exact[k], maximum)
  }

  /** The row before the band is walked: over the bound everywhere but perhaps in column 0. */
  method ResetRow(maximum: nat, i: nat, current: array<int>)
    requires current.Length > 0
    modifies current
    ensures current[0] == if i <= maximum then i else maximum + 1
    ensures forall k | 1 <= k < current.Length :: current[k] == maximum + 1
  {
    for index := 0 to current.Length
      invariant forall k | 0 <= k < index :: current[k] == maximum + 1
    {
      current[index] := maximum + 1;
    }
    if i <= maximum {
      current[0] := i;
    }
  }

  /** One more entry, computed from neighbours that are exact or only over the bound. */
  lemma EntryStands(x: char, second: string, maximum: nat, above: seq<nat>, exact: seq<nat>,
                    before: seq<int>, row: seq<int>, j: nat)
    requires 0 < j <= |second| && |above| == |exact| == |second| + 1 && Follows(x, second, above, exact, j)
    requires StandsFor(before, above, maximum, |second| + 1) && StandsFor(row, exact, maximum, j)
    ensures StandsFor(row[j := Min(Min(before[j] + 1, row[j - 1] + 1), before[j - 1] + Cost(x, second[j - 1]))],
                      exact, maximum, j + 1)
  {
    assert Stands(before[j], above[j], maximum) && Stands(before[j - 1], above[j - 1], maximum);
    assert Stands(row[j - 1], exact[j - 1], maximum);
  }

  /** Everything from column 1 on is over the bound. */
  predicate AllOver(row: seq<int>, maximum: int) {
    forall k | 1 <= k < |row| :: row[k] > maximum
  }

  /** The inner loop: one row of the band, written over `current`. */
  method FillRow(x: char, second: string, maximum: nat, i: nat, previous: array<int>, current: array<int>,
                 ghost above: seq<nat>, ghost exact: seq<nat>)
    returns (rowMinimum: int, ghost cells: nat)
    requires 0 < i <= |second| + maximum && previous != current && previous.Length == current.Length == |second| + 1
    requires NextRow(x, second, i, above, exact)
    requires StandsFor(previous[..], above, maximum, |second| + 1)
    modifies current
    ensures StandsFor(current[..], exact, maximum, |second| + 1)
    ensures rowMinimum > maximum <==> AllOver(current[..], maximum)
    ensures BandCells(|second|, maximum, i) == BandCells(|second|, maximum, i - 1) + cells
  {
    var m := |second|;
    ResetRow(maximum, i, current);
    var start, end := Max(1, i - maximum), Min(m, i + maximum);
    rowMinimum, cells := maximum + 1, 0;
    ghost var before, row := previous[..], current[..];
    var j := start;
    while j <= end
      invariant start <= j <= end + 1 && |row| == m + 1
      invariant previous[..] == before && current[..] == row
      invariant StandsFor(row, exact, maximum, j)
      invariant forall k | j <= k <= m :: row[k] == maximum + 1
      invariant rowMinimum > maximum ==> forall k | 1 <= k <= m :: row[k] > maximum
      invariant rowMinimum <= maximum ==> exists k :: 1 <= k < j && row[k] <= maximum
      invariant cells == j - start
    {
      var cost := if x != second[j - 1] then 1 else 0;
      EntryStands(x, second, maximum, above, exact, before, row, j);
      current[j] := Min(Min(previous[j] + 1, current[j - 1] + 1), previous[j - 1] + cost);
      ghost var until := row;
      row := row[j := current[j]];
      assert forall k | 1 <= k < j :: row[k] == until[k];
      rowMinimum := Min(rowMinimum, current[j]);
      cells := cells + 1;
      j := j + 1;
    }
  }

  lemma TableRowsFollow(first: string, second: string, i: nat)
    requires 0 < i <= |first|
    ensures NextRow(first[i - 1], second, i, TableRow(first, second, i - 1), TableRow(first, second, i))
  {
    var above, exact := TableRow(first, second, i - 1), TableRow(first, second, i);
    forall j {:trigger Follows(first[i - 1], second, above, exact, j)} | 1 <= j <= |second|
      ensures Follows(first[i - 1], second, above, exact, j)
    {
      assert exact[j] == Distance(first, second, i, j);
    }
  }

  /** Nothing in columns 1 on is within the bound, so neither is the final distance. */
  lemma RowOver(first: string, second: string, maximum: int, i: nat, row: seq<int>)
    requires 0 < i <= |first| && second != []
    requires StandsFor(row, TableRow(first, second, i), maximum, |second| + 1)
    requires AllOver(row, maximum)
    ensures Distance(first, second, |first|, |second|) > maximum
  {
    FirstColumn(first, second, i);
    forall k: nat | k <= |second|
      ensures Distance(first, second, i, k) > maximum
    {
      assert Stands(row[k], TableRow(first, second, i)[k], maximum);
      assert Stands(row[1], TableRow(first, second, i)[1], maximum);
    }
    RowsBelow(first, second, i, maximum, |first|, |second|);
  }

  /** Row 0: the distances from the empty text. */
  method FirstRow(first: string, second: string, maximum: nat) returns (previous: array<int>)
    ensures fresh(previous) && previous.Length == |second| + 1
    ensures StandsFor(previous[..], TableRow(first, second, 0), maximum, |second| + 1)
  {
    var m := |second|;
    previous := new int[m + 1];
    for index := 0 to m + 1
      invariant forall k | 0 <= k < index :: previous[k] == if k <= maximum then k else maximum + 1
    {
      previous[index] := if index <= maximum then index else maximum + 1;
    }
  }

  /** No column of the row from 1 on is within the bound. */
  ghost predicate IsRowOver(first: string, second: string, maximum: int, i: nat)
    requires i <= |first|
  {
    forall k | 1 <= k <= |second| :: Distance(first, second, i, k) > maximum
  }

  /** The table entries one comparison visits: the band of every row up to the first that is over the bound, and
      none if the lengths alone are too far apart. */
  ghost predicate CellsVisited(first: string, second: string, maximum: int, cells: nat) {
    if |first| - |second| > maximum || |second| - |first| > maximum then cells == 0
    else exists rows: nat :: rows <= |first| && IsCutoff(first, second, maximum, rows) && cells == BandCells(|second|, maximum, rows)
  }

  ghost predicate IsCutoff(first: string, second: string, maximum: int, rows: nat)
    requires rows <= |first|
  {
    && (forall r | 1 <= r < rows :: !IsRowOver(first, second, maximum, r))
    && (rows < |first| ==> 0 < rows && IsRowOver(first, second, maximum, rows))
  }

  lemma RowIsOver(first: string, second: string, maximum: int, i: nat, row: seq<int>)
    requires i <= |first| && StandsFor(row, TableRow(first, second, i), maximum, |second| + 1)
    ensures IsRowOver(first, second, maximum, i) <==> AllOver(row, maximum)
  {
    forall k | 1 <= k <= |second| ensures Distance(first, second, i, k) > maximum <==> row[k] > maximum {
      assert Stands(row[k], TableRow(first, second, i)[k], maximum);
    }
  }

  lemma CutoffAt(first: string, second: string, maximum: int, rows: nat)
    requires rows <= |first| && |first| - |second| <= maximum && |second| - |first| <= maximum
    requires forall r | 1 <= r < rows :: !IsRowOver(first, second, maximum, r)
    requires rows < |first| ==> 0 < rows && IsRowOver(first, second, maximum, rows)
    ensures CellsVisited(first, second, maximum, BandCells(|second|, maximum, rows))
  {
    hide IsRowOver;
    assert IsCutoff(first, second, maximum, rows);
  }

  lemma NoCells(first: string, second: string, maximum: int)
    requires |first| - |second| > maximum || |second| - |first| > maximum
    ensures CellsVisited(first, second, maximum, 0)
  {
  }

  /** The banded two-row loop. `cells` counts the entries the inner loop computes. */
  method BoundedLevenshtein(first: string, second: string, maximum: int) returns (distance: int, ghost cells: nat)
    ensures Stands(distance, Distance(first, second, |first|, |second|), maximum)
       <==> !EmptyBand(first, second, maximum)
    ensures EmptyBand(first, second, maximum) ==> distance == maximum + 1
    ensures cells <= if maximum < 0 then 0 else |first| * (2 * maximum + 1)
    ensures CellsVisited(first, second, maximum, cells)
  {
    cells := 0;
    var n, m := |first|, |second|;
    if (if n < m then m - n else n - m) > maximum {
      return maximum + 1, 0;
    }
    var previous := FirstRow(first, second, maximum);
    var current := new int[m + 1];
    ghost var exact := TableRow(first, second, 0);
    var i := 1;
    while i <= n
      invariant 1 <= i <= n + 1 && previous.Length == current.Length == m + 1 && previous != current
      invariant fresh(previous) && fresh(current)
      invariant m == 0 ==> i == 1
      invariant exact == TableRow(first, second, i - 1)
      invariant StandsFor(previous[..], exact, maximum, m + 1)
      invariant cells == BandCells(m, maximum, i - 1)
      invariant forall r | 1 <= r < i :: !IsRowOver(first, second, maximum, r)
    {
      TableRowsFollow(first, second, i);
      ghost var next := TableRow(first, second, i);
      var rowMinimum, visited := FillRow(first[i - 1], second, maximum, i, previous, current, exact, next);
      exact, cells := next, cells + visited;
      RowIsOver(first, second, maximum, i, current[..]);
      if rowMinimum > maximum {
        BandCellsGrow(m, maximum, i, n);
        if m > 0 {
          RowOver(first, second, maximum, i, current[..]);
        } else {
          assert Distance(first, second, n, m) == n;
        }
        CutoffAt(first, second, maximum, i);
        return maximum + 1, cells;
      }
      previous, current := current, previous;
      i := i + 1;
    }
    distance := previous[m];
    CutoffAt(first, second, maximum, n);
    assert Stands(previous[..][m], exact[m], maximum);
  }

  /** One deletion is all it takes, and the bound allows it. */
  method EmptyBandIsReportedOver() returns (distance: int)
    ensures distance == 2 && Distance("a", "", 1, 0) == 1
  {
    ghost var cells;
    distance, cells := BoundedLevenshtein("a", "", 1);
  }
}
