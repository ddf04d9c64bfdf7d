/**
 * Edit distance between strings. The recursive function is the definition;
 * the method fills the distance table one row at a time, as a table-driven
 * implementation does, and is proved to agree with it.
 */
module SimilarSearch {

  function Min3(x: nat, y: nat, z: nat): (r: nat)
    ensures r <= x && r <= y && r <= z
    ensures r == x || r == y || r == z
  {
    if x <= y && x <= z then x else if y <= z then y else z
  }

  function Max(a: nat, b: nat): nat {
    if a >= b then a else b
  }

  /** Cost of aligning the last characters of `a` and `b`. */
  function LastCost(a: string, b: string): nat
    requires |a| > 0 && |b| > 0
  {
    if a[|a| - 1] == b[|b| - 1] then 0 else 1
  }

  /**
   * The Levenshtein distance: the least number of single-character
   * insertions, deletions and substitutions turning `a` into `b`.
   */
  function Levenshtein(a: string, b: string): nat
    decreases |a| + |b|
  {
    if |a| == 0 then |b|
    else if |b| == 0 then |a|
    else Min3(Levenshtein(a[..|a| - 1], b) + 1,
              Levenshtein(a, b[..|b| - 1]) + 1,
              Levenshtein(a[..|a| - 1], b[..|b| - 1]) + LastCost(a, b))
  }

  /** Number of positions at which two strings of equal length differ. */
  function Hamming(a: string, b: string): nat
    requires |a| == |b|
  {
    if |a| == 0 then 0
    else Hamming(a[..|a| - 1], b[..|b| - 1]) + LastCost(a, b)
  }

  /** The distance never exceeds the longer length. */
  lemma {:induction false} LevenshteinAtMostMaxLength(a: string, b: string)
    ensures Levenshtein(a, b) <= Max(|a|, |b|)
    decreases |a| + |b|
  {
    if |a| > 0 && |b| > 0 {
      LevenshteinAtMostMaxLength(a[..|a| - 1], b[..|b| - 1]);
    }
  }

  /** The distance is at least the difference of the lengths. */
  lemma {:induction false} LevenshteinAtLeastLengthDifference(a: string, b: string)
    ensures Levenshtein(a, b) >= |a| - |b| && Levenshtein(a, b) >= |b| - |a|
    decreases |a| + |b|
  {
    if |a| > 0 && |b| > 0 {
      LevenshteinAtLeastLengthDifference(a[..|a| - 1], b);
      LevenshteinAtLeastLengthDifference(a, b[..|b| - 1]);
      LevenshteinAtLeastLengthDifference(a[..|a| - 1], b[..|b| - 1]);
    }
  }

  /** The distance is zero exactly for equal strings. */
  lemma {:induction false} LevenshteinZeroIffEqual(a: string, b: string)
    ensures Levenshtein(a, b) == 0 <==> a == b
    decreases |a| + |b|
  {
    if |a| > 0 && |b| > 0 {
      var a', b' := a[..|a| - 1], b[..|b| - 1];
      assert a == a' + [a[|a| - 1]];
      assert b == b' + [b[|b| - 1]];
      LevenshteinZeroIffEqual(a', b');
    }
  }

  /** The distance does not depend on the order of its arguments. */
  lemma {:induction false} LevenshteinSymmetric(a: string, b: string)
    ensures Levenshtein(a, b) == Levenshtein(b, a)
    decreases |a| + |b|
  {
    if |a| > 0 && |b| > 0 {
      LevenshteinSymmetric(a[..|a| - 1], b);
      LevenshteinSymmetric(a, b[..|b| - 1]);
      LevenshteinSymmetric(a[..|a| - 1], b[..|b| - 1]);
    }
  }

  /** For equal lengths, substituting every differing character is one way to edit. */
  lemma {:induction false} LevenshteinAtMostHamming(a: string, b: string)
    requires |a| == |b|
    ensures Levenshtein(a, b) <= Hamming(a, b)
    decreases |a|
  {
    if |a| > 0 {
      LevenshteinAtMostHamming(a[..|a| - 1], b[..|b| - 1]);
    }
  }

  /** Between strings of equal length, one edit can only be a single substitution. */
  lemma {:induction false} OneEditIsOneSubstitution(a: string, b: string)
    requires |a| == |b| && Levenshtein(a, b) <= 1
    ensures Hamming(a, b) <= 1
    decreases |a|
  {
    if |a| > 0 {
      var a', b' := a[..|a| - 1], b[..|b| - 1];
      LevenshteinZeroIffEqual(a', b);
      LevenshteinZeroIffEqual(a, b');
      if Levenshtein(a', b') == 0 {
        LevenshteinZeroIffEqual(a', b');
        HammingOfEqual(a');
      } else {
        OneEditIsOneSubstitution(a', b');
      }
    }
  }

  lemma {:induction false} HammingOfEqual(a: string)
    ensures Hamming(a, a) == 0
    decreases |a|
  {
    if |a| > 0 {
      HammingOfEqual(a[..|a| - 1]);
    }
  }

  /** Strings that differ at exactly one position are one substitution apart. */
  lemma {:induction false} HammingOneDifference(a: string, b: string, k: nat)
    requires |a| == |b| && k < |a| && a[k] != b[k]
    requires forall i :: 0 <= i < |a| && i != k ==> a[i] == b[i]
    ensures Hamming(a, b) == 1
    decreases |a|
  {
    var n := |a| - 1;
    if k == n {
      assert a[..n] == b[..n];
      HammingOfEqual(a[..n]);
    } else {
      HammingOneDifference(a[..n], b[..n], k);
    }
  }

  /** Strings that differ at exactly two positions are two substitutions apart. */
  lemma {:induction false} HammingTwoDifferences(a: string, b: string, k1: nat, k2: nat)
    requires |a| == |b| && k1 < k2 < |a| && a[k1] != b[k1] && a[k2] != b[k2]
    requires forall i :: 0 <= i < |a| && i != k1 && i != k2 ==> a[i] == b[i]
    ensures Hamming(a, b) == 2
    decreases |a|
  {
    var n := |a| - 1;
    if k2 == n {
      HammingOneDifference(a[..n], b[..n], k1);
    } else {
      HammingTwoDifferences(a[..n], b[..n], k1, k2);
    }
  }

  /** One differing position: distance exactly one. */
  lemma LevenshteinOneSubstitution(a: string, b: string, k: nat)
    requires |a| == |b| && k < |a| && a[k] != b[k]
    requires forall i :: 0 <= i < |a| && i != k ==> a[i] == b[i]
    ensures Levenshtein(a, b) == 1
  {
    HammingOneDifference(a, b, k);
    LevenshteinAtMostHamming(a, b);
    LevenshteinZeroIffEqual(a, b);
  }

  /** Two differing positions: distance exactly two, since one edit could fix at most one of them. */
  lemma LevenshteinTwoSubstitutions(a: string, b: string, k1: nat, k2: nat)
    requires |a| == |b| && k1 < k2 < |a| && a[k1] != b[k1] && a[k2] != b[k2]
    requires forall i :: 0 <= i < |a| && i != k1 && i != k2 ==> a[i] == b[i]
    ensures Levenshtein(a, b) == 2
  {
    HammingTwoDifferences(a, b, k1, k2);
    LevenshteinAtMostHamming(a, b);
    if Levenshtein(a, b) <= 1 {
      OneEditIsOneSubstitution(a, b);
      assert false;
    }
  }

  /**
   * A string one character longer than `a`, agreeing with it except at `a`'s
   * last position, where neither of its last two characters matches, is
   * exactly two edits away: substitute the last character, then append one.
   */
  lemma {:induction false} LevenshteinSubstituteAndAppend(a: string, b: string)
    requires |a| >= 1 && |b| == |a| + 1
    requires a[..|a| - 1] == b[..|a| - 1]
    requires a[|a| - 1] != b[|a| - 1] && a[|a| - 1] != b[|a|]
    ensures Levenshtein(a, b) == 2
  {
    var n := |a|;
    var a', b' := a[..n - 1], b[..n];
    assert b'[..n - 1] == a';
    forall i | 0 <= i < n && i != n - 1 ensures a[i] == b'[i] {
      assert a[i] == a'[i] == b'[i];
    }
    LevenshteinOneSubstitution(a, b', n - 1);
    LevenshteinAtLeastLengthDifference(a', b);
    LevenshteinAtLeastLengthDifference(a', b');
    assert LastCost(a, b) == 1;
  }

  // ---------------------------------------------------------------------------
  // A lower bound from characters that have no partner

  /** How many characters of `a`, from position `i` on, occur nowhere in `b`. */
  function Unmatched(a: string, b: string, i: nat): nat
    requires i <= |a|
    decreases |a| - i
  {
    if i == |a| then 0 else (if a[i] in b then 0 else 1) + Unmatched(a, b, i + 1)
  }

  /** Dropping the last character of `a` drops it from the count when it occurs nowhere in `b`. */
  lemma {:induction false} UnmatchedLast(a: string, b: string, i: nat)
    requires |a| > 0 && i <= |a| - 1
    ensures Unmatched(a, b, i) == Unmatched(a[..|a| - 1], b, i) + (if a[|a| - 1] in b then 0 else 1)
    decreases |a| - i
  {
    if i < |a| - 1 {
      UnmatchedLast(a, b, i + 1);
    }
  }

  /** Against a string holding every character of `b'`, no more characters are unmatched than against `b'`. */
  lemma {:induction false} UnmatchedWider(a: string, b: string, b': string, i: nat)
    requires i <= |a|
    requires forall x :: x in b' ==> x in b
    ensures Unmatched(a, b, i) <= Unmatched(a, b', i)
    decreases |a| - i
  {
    if i < |a| {
      UnmatchedWider(a, b, b', i + 1);
    }
  }

  /** The unmatched characters of `a`, plus however much longer `b` is. */
  function UnmatchedBound(a: string, b: string): nat {
    Unmatched(a, b, 0) + (if |b| > |a| then |b| - |a| else 0)
  }

  /**
   * Editing `a` into `b` keeps at most the characters of `a` that occur in
   * `b`; every other position costs an edit. So the distance is at least the
   * number of characters of `a` occurring nowhere in `b`, plus however much
   * longer `b` is.
   */
  lemma {:induction false} LevenshteinAtLeastUnmatched(a: string, b: string)
    ensures Levenshtein(a, b) >= UnmatchedBound(a, b)
    decreases |a| + |b|
  {
    if |a| > 0 {
      var a' := a[..|a| - 1];
      UnmatchedLast(a, b, 0);
      if |b| == 0 {
        LevenshteinAtLeastUnmatched(a', b);
        assert Levenshtein(a, b) == Levenshtein(a', b) + 1;
      } else {
        var b' := b[..|b| - 1];
        assert forall x :: x in b' ==> x in b;
        UnmatchedWider(a, b, b', 0);
        UnmatchedWider(a', b, b', 0);
        LevenshteinAtLeastUnmatched(a', b);
        LevenshteinAtLeastUnmatched(a, b');
        LevenshteinAtLeastUnmatched(a', b');
        if a[|a| - 1] == b[|b| - 1] {
          assert a[|a| - 1] in b;
        }
      }
    }
  }

  /** The same bound with the roles swapped: the distance is symmetric. */
  lemma LevenshteinAtLeastUnmatchedOfSecond(a: string, b: string)
    ensures Levenshtein(a, b) >= UnmatchedBound(b, a)
  {
    LevenshteinAtLeastUnmatched(b, a);
    LevenshteinSymmetric(a, b);
  }

  /** One cell of the distance table, from its three neighbours. */
  lemma {:induction false} TableCell(x: string, b: string, j: nat)
    requires |x| > 0 && 1 <= j <= |b|
    ensures Levenshtein(x, b[..j]) ==
      Min3(Levenshtein(x[..|x| - 1], b[..j]) + 1,
           Levenshtein(x, b[..j - 1]) + 1,
           Levenshtein(x[..|x| - 1], b[..j - 1]) + (if x[|x| - 1] == b[j - 1] then 0 else 1))
  {
    var y := b[..j];
    assert y[..|y| - 1] == b[..j - 1];
  }

  /**
   * The next row of the distance table: from the distances of `x` without its
   * last character to every prefix of `b`, the distances of `x` itself.
   */
  method NextRow(x: string, b: string, prev: seq<nat>) returns (row: seq<nat>)
    requires |x| > 0 && |prev| == |b| + 1
    requires forall j {:trigger prev[j]} :: 0 <= j <= |b| ==> prev[j] == Levenshtein(x[..|x| - 1], b[..j])
    ensures |row| == |b| + 1
    ensures forall j {:trigger row[j]} :: 0 <= j <= |b| ==> row[j] == Levenshtein(x, b[..j])
  {
    assert b[..0] == [];
    row := [|x|];
    var j := 1;
    while j <= |b|
      invariant 1 <= j <= |b| + 1
      invariant |row| == j
      invariant forall m {:trigger row[m]} :: 0 <= m < j ==> row[m] == Levenshtein(x, b[..m])
    {
      var cost := if x[|x| - 1] == b[j - 1] then 0 else 1;
      var cell := Min3(prev[j] + 1, row[j - 1] + 1, prev[j - 1] + cost);
      assert cell == Levenshtein(x, b[..j]) by {
        // the three neighbours, as the row invariants give them
        var up, left, diag := prev[j], row[j - 1], prev[j - 1];
        TableCell(x, b, j);
      }
      row := row + [cell];
      j := j + 1;
    }
  }

  /**
   * The distance computed with a table, one row per prefix of `a`: row `i`
   * holds the distances from `a[..i]` to every prefix of `b`.
   */
  method LevenshteinDistance(a: string, b: string) returns (d: nat)
    ensures d == Levenshtein(a, b)
  {
    var prev: seq<nat> := [];
    var k := 0;
    while k <= |b|
      invariant 0 <= k <= |b| + 1
      invariant |prev| == k
      invariant forall j :: 0 <= j < k ==> prev[j] == Levenshtein(a[..0], b[..j])
    {
      prev := prev + [k];
      k := k + 1;
    }
    var i := 0;
    while i < |a|
      invariant 0 <= i <= |a|
      invariant |prev| == |b| + 1
      invariant forall j :: 0 <= j <= |b| ==> prev[j] == Levenshtein(a[..i], b[..j])
    {
      assert a[..i + 1][..i] == a[..i];
      prev := NextRow(a[..i + 1], b, prev);
      i := i + 1;
    }
    assert a[..|a|] == a && b[..|b|] == b;
    d := prev[|b|];
  }
}
