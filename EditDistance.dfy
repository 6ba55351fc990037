/** Levenshtein distance between two protein sequences (minimumEditDistance). */
module EditDistance {

  /** The least of three numbers. */
  function Min3(x: nat, y: nat, z: nat): (m: nat)
    ensures m <= x && m <= y && m <= z
    ensures m == x || m == y || m == z
  {
    if x <= y && x <= z then x else if y <= z then y else z
  }

  /** The textbook Levenshtein distance: the least number of single-character
      insertions, deletions and substitutions that turn `a` into `b`, defined by
      recursion on the last characters of both strings. */
  function Levenshtein(a: string, b: string): nat
    decreases |a| + |b|
  {
    if |a| == 0 then |b|
    else if |b| == 0 then |a|
    else
      var a', b' := a[..|a| - 1], b[..|b| - 1];
      Min3(Levenshtein(a', b') + (if a[|a| - 1] == b[|b| - 1] then 0 else 1),
           Levenshtein(a', b) + 1,
           Levenshtein(a, b') + 1)
  }

  /** Appending a character to the first string costs at most one edit. */
  lemma {:induction false} AppendLeftCostsAtMostOne(x: string, d: char, y: string)
    ensures Levenshtein(x + [d], y) <= Levenshtein(x, y) + 1
  {
    if |y| > 0 {
      assert (x + [d])[..|x|] == x;
    }
  }

  /** Appending a character to the second string costs at most one edit. */
  lemma {:induction false} AppendRightCostsAtMostOne(x: string, y: string, e: char)
    ensures Levenshtein(x, y + [e]) <= Levenshtein(x, y) + 1
  {
    if |x| > 0 {
      assert (y + [e])[..|y|] == y;
    }
  }

  /** Dropping the last character of the first string saves at most one edit. */
  lemma {:induction false} DropLeftSavesAtMostOne(x: string, d: char, y: string)
    ensures Levenshtein(x, y) <= Levenshtein(x + [d], y) + 1
    decreases |y|
  {
    if |y| > 0 {
      var y', e := y[..|y| - 1], y[|y| - 1];
      assert y == y' + [e];
      assert (x + [d])[..|x|] == x;
      AppendRightCostsAtMostOne(x, y', e);
      DropLeftSavesAtMostOne(x, d, y');
    }
  }

  /** Dropping the last character of the second string saves at most one edit. */
  lemma {:induction false} DropRightSavesAtMostOne(x: string, y: string, e: char)
    ensures Levenshtein(x, y) <= Levenshtein(x, y + [e]) + 1
    decreases |x|
  {
    if |x| > 0 {
      var x', d := x[..|x| - 1], x[|x| - 1];
      assert x == x' + [d];
      assert (y + [e])[..|y|] == y;
      AppendLeftCostsAtMostOne(x', d, y);
      DropRightSavesAtMostOne(x', y, e);
    }
  }

  /** When the last characters agree, the distance is that of the two prefixes:
      the shortcut the rolling-row table takes on a match. */
  lemma MatchingLastCharacters(a: string, b: string)
    requires |a| > 0 && |b| > 0 && a[|a| - 1] == b[|b| - 1]
    ensures Levenshtein(a, b) == Levenshtein(a[..|a| - 1], b[..|b| - 1])
  {
    var a', b' := a[..|a| - 1], b[..|b| - 1];
    assert a == a' + [a[|a| - 1]];
    assert b == b' + [b[|b| - 1]];
    DropLeftSavesAtMostOne(a', a[|a| - 1], b');
    DropRightSavesAtMostOne(a', b', b[|b| - 1]);
  }

  /** One cell of the table: the distance between `a[..i+1]` and `b[..j+1]` in terms
      of its three neighbours, in the order the source reads them. */
  lemma TableCell(a: string, b: string, i: nat, j: nat)
    requires i < |a| && j < |b|
    ensures Levenshtein(a[..i + 1], b[..j + 1]) ==
      if a[i] == b[j] then Levenshtein(a[..i], b[..j])
      else 1 + Min3(Levenshtein(a[..i], b[..j]), Levenshtein(a[..i + 1], b[..j]),
                    Levenshtein(a[..i], b[..j + 1]))
  {
    var x, y := a[..i + 1], b[..j + 1];
    assert x[..i] == a[..i];
    assert y[..j] == b[..j];
    if a[i] == b[j] {
      MatchingLastCharacters(x, y);
    }
  }

  /** The distance does not depend on the order of its arguments. */
  lemma {:induction false} Symmetric(a: string, b: string)
    ensures Levenshtein(a, b) == Levenshtein(b, a)
    decreases |a| + |b|
  {
    if |a| > 0 && |b| > 0 {
      var a', b' := a[..|a| - 1], b[..|b| - 1];
      Symmetric(a', b');
      Symmetric(a', b);
      Symmetric(a, b');
    }
  }

  /** The distance is zero exactly for identical strings. */
  lemma {:induction false} ZeroIffIdentical(a: string, b: string)
    ensures Levenshtein(a, b) == 0 <==> a == b
    decreases |a| + |b|
  {
    if |a| > 0 && |b| > 0 {
      var a', b' := a[..|a| - 1], b[..|b| - 1];
      ZeroIffIdentical(a', b');
      assert a == a' + [a[|a| - 1]];
      assert b == b' + [b[|b| - 1]];
      if a == b {
        assert a' == b';
      }
    }
  }

  /** The distance is at most the length of the longer string and at least the
      difference of the two lengths. */
  lemma {:induction false} Bounds(a: string, b: string)
    ensures Levenshtein(a, b) <= if |a| >= |b| then |a| else |b|
    ensures Levenshtein(a, b) >= if |a| >= |b| then |a| - |b| else |b| - |a|
    decreases |a| + |b|
  {
    if |a| > 0 && |b| > 0 {
      var a', b' := a[..|a| - 1], b[..|b| - 1];
      Bounds(a', b');
      Bounds(a', b);
      Bounds(a, b');
    }
  }

  /** One pass of the outer loop of minimumEditDistance: from the row of distances of
      the prefixes of `a` to `b[..j]`, the row of distances to `b[..j + 1]`. */
  method NextRow(a: string, b: string, j: nat, distances: seq<int>) returns (newDistances: seq<int>)
    requires j < |b| && |distances| == |a| + 1
    requires forall i :: 0 <= i <= |a| ==> distances[i] == Levenshtein(a[..i], b[..j])
    ensures |newDistances| == |a| + 1
    ensures forall k :: 0 <= k <= |a| ==> newDistances[k] == Levenshtein(a[..k], b[..j + 1])
  {
    newDistances := [j + 1];
    assert b[..j + 1][..0] == [];
    for i := 0 to |a|
      invariant |newDistances| == i + 1
      invariant forall k :: 0 <= k <= i ==> newDistances[k] == Levenshtein(a[..k], b[..j + 1])
    {
      TableCell(a, b, i, j);
      if a[i] == b[j] {
        newDistances := newDistances + [distances[i]];
      } else {
        newDistances := newDistances + [1 + Min3(distances[i], distances[i + 1], newDistances[|newDistances| - 1])];
      }
    }
  }

  /** minimumEditDistance: a single row of the table is rebuilt for every character
      of the longer string, after swapping so that `s1` is the shorter one; the last
      entry is the Levenshtein distance of the two strings. */
  method MinimumEditDistance(s1: string, s2: string) returns (d: nat)
    ensures d == Levenshtein(s1, s2)
  {
    var a, b := s1, s2;
    if |a| > |b| {
      a, b := s2, s1;
    }
    var distances: seq<int> := seq(|a| + 1, i => i);
    for j := 0 to |b|
      invariant |distances| == |a| + 1
      invariant forall i :: 0 <= i <= |a| ==> distances[i] == Levenshtein(a[..i], b[..j])
    {
      distances := NextRow(a, b, j, distances);
    }
    assert a[..|a|] == a && b[..|b|] == b;
    d := distances[|a|];
    Symmetric(s1, s2);
  }
}
