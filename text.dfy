/** Character-level helpers shared by the locale helpers and the entity finder. */
module Text {

  /** True for the ASCII capital letters, the only characters the model folds. */
  predicate IsUpper(c: char) {
    'A' <= c <= 'Z'
  }

  /** ASCII lower-casing of one character; every other character is kept. */
  function LowerChar(c: char): (r: char)
    ensures !IsUpper(r)
    ensures IsUpper(c) ==> r != c && ('a' <= r <= 'z')
    ensures !IsUpper(c) ==> r == c
  {
    if IsUpper(c) then (c as int - 'A' as int + 'a' as int) as char else c
  }

  /** ASCII lower-casing of a string, character by character. */
  function Lower(s: string): (r: string)
    ensures |r| == |s|
    ensures forall i :: 0 <= i < |s| ==> r[i] == LowerChar(s[i])
  {
    seq(|s|, i requires 0 <= i < |s| => LowerChar(s[i]))
  }

  /** A string that lower-casing leaves alone. */
  predicate IsLowerCase(s: string) {
    forall i :: 0 <= i < |s| ==> !IsUpper(s[i])
  }

  /** Lower-casing produces a lower-case string and is idempotent. */
  lemma {:induction false} LowerIsLowerCase(s: string)
    ensures IsLowerCase(Lower(s))
    ensures Lower(Lower(s)) == Lower(s)
  {
  }

  /** The strings that lower-casing leaves unchanged are exactly the lower-case ones. */
  lemma {:induction false} LowerFixedPoints(s: string)
    ensures Lower(s) == s <==> IsLowerCase(s)
  {
    if Lower(s) == s {
      forall i | 0 <= i < |s| ensures !IsUpper(s[i]) {
        assert s[i] == Lower(s)[i] == LowerChar(s[i]);
      }
    }
  }

  /** Lower-casing commutes with taking a slice. */
  lemma {:induction false} LowerSlice(s: string, i: nat, j: nat)
    requires i <= j <= |s|
    ensures Lower(s[i..j]) == Lower(s)[i..j]
  {
    var l, r := Lower(s[i..j]), Lower(s)[i..j];
    assert |l| == |r|;
    forall k | 0 <= k < |l| ensures l[k] == r[k] {
      assert l[k] == LowerChar(s[i + k]);
    }
  }

  /** The characters of `u` from position `s` on, from the `i`-th, are those of `a`. */
  function SpellsAt(u: string, s: nat, a: string, i: nat): bool
    requires i <= |a| && s + |a| <= |u|
    decreases |a| - i
  {
    i == |a| || (u[s + i] == a[i] && SpellsAt(u, s, a, i + 1))
  }

  /** The characters of `u` from position `s` on, from the `i`-th, lower-case to those of `a`. */
  function FoldsToAt(u: string, s: nat, a: string, i: nat): bool
    requires i <= |a| && s + |a| <= |u|
    decreases |a| - i
  {
    i == |a| || (LowerChar(u[s + i]) == a[i] && FoldsToAt(u, s, a, i + 1))
  }

  /** Spelling `a` at `s` means the slice of `u` there is `a`. */
  lemma {:induction false} SpellsSlice(u: string, s: nat, a: string)
    requires s + |a| <= |u| && SpellsAt(u, s, a, 0)
    ensures u[s..s + |a|] == a
  {
    SpellsFrom(u, s, a, 0);
    var w := u[s..s + |a|];
    forall k | 0 <= k < |a| ensures w[k] == a[k] {
      assert w[k] == u[s + k];
    }
  }

  lemma {:induction false} SpellsFrom(u: string, s: nat, a: string, i: nat)
    requires i <= |a| && s + |a| <= |u| && SpellsAt(u, s, a, i)
    ensures forall k :: i <= k < |a| ==> u[s + k] == a[k]
    decreases |a| - i
  {
    if i < |a| {
      SpellsFrom(u, s, a, i + 1);
    }
  }

  /** Folding to `a` at `s` means the lower-cased slice of `u` there is `a`. */
  lemma {:induction false} FoldsToSlice(u: string, s: nat, a: string)
    requires s + |a| <= |u| && FoldsToAt(u, s, a, 0)
    ensures Lower(u[s..s + |a|]) == a
  {
    FoldsToFrom(u, s, a, 0);
    var l := Lower(u[s..s + |a|]);
    forall k | 0 <= k < |a| ensures l[k] == a[k] {
      assert u[s..s + |a|][k] == u[s + k];
    }
  }

  lemma {:induction false} FoldsToFrom(u: string, s: nat, a: string, i: nat)
    requires i <= |a| && s + |a| <= |u| && FoldsToAt(u, s, a, i)
    ensures forall k :: i <= k < |a| ==> LowerChar(u[s + k]) == a[k]
    decreases |a| - i
  {
    if i < |a| {
      FoldsToFrom(u, s, a, i + 1);
    }
  }

  /** A whole string folding to `a` lower-cases to `a`. */
  lemma FoldsToWhole(t: string, a: string)
    requires |t| == |a| && FoldsToAt(t, 0, a, 0)
    ensures Lower(t) == a
  {
    FoldsToSlice(t, 0, a);
    assert t[0..|a|] == t;
  }
}
