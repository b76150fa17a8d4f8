/** What several parts of the model need of numbers, characters and finite sets. */
module Basics {

  const MAX_INT64 := 0x7FFF_FFFF_FFFF_FFFF

  function Min(a: int, b: int): int {
    if a < b then a else b
  }

  function Max(a: int, b: int): int {
    if a < b then b else a
  }

  predicate IsDigit(c: char) {
    '0' <= c <= '9'
  }

  predicate IsLowerHex(c: char) {
    IsDigit(c) || 'a' <= c <= 'f'
  }

  predicate IsHex(c: char) {
    IsLowerHex(c) || 'A' <= c <= 'F'
  }

  /** The form of preview and backup identifiers: 32 bytes in hexadecimal, in either case. */
  predicate ValidPreviewID(id: string) {
    |id| == 64 && forall c | c in id :: IsHex(c)
  }

  lemma ValidPreviewIDMeans(id: string)
    ensures ValidPreviewID(id) <==>
              |id| == 64
              && forall k | 0 <= k < 64 :: '0' <= id[k] <= '9' || 'a' <= id[k] <= 'f' || 'A' <= id[k] <= 'F'
  {
    if |id| == 64 {
      forall c | c in id && forall k | 0 <= k < 64 :: '0' <= id[k] <= '9' || 'a' <= id[k] <= 'f' || 'A' <= id[k] <= 'F'
        ensures IsHex(c) {
        var k :| 0 <= k < 64 && id[k] == c;
      }
      forall k | 0 <= k < 64 && ValidPreviewID(id) ensures IsHex(id[k]) {
        assert id[k] in id;
      }
    }
  }

  function Elements<T>(s: seq<T>): set<T> {
    set x | x in s
  }

  /** A list without repetition has as many elements as it is long. */
  lemma {:induction false} DistinctSize<T>(s: seq<T>)
    requires forall i, j | 0 <= i < j < |s| :: s[i] != s[j]
    ensures |Elements(s)| == |s|
  {
    if s != [] {
      var init, last := s[..|s| - 1], s[|s| - 1];
      DistinctSize(init);
      assert last !in init;
      assert Elements(s) == Elements(init) + {last};
    }
  }

  /** A subset is no larger, and as large only if it is all of the set. */
  lemma {:induction false} SubsetSize<T>(small: set<T>, large: set<T>)
    requires small <= large
    ensures |small| <= |large| && (|small| == |large| ==> small == large)
  {
    if small != {} {
      var x :| x in small;
      SubsetSize(small - {x}, large - {x});
    }
  }
}
