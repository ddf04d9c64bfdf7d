/**
 * Sequence operations the registry relies on: the first position of a value
 * (JavaScript's `indexOf`), removing the first occurrence of a value
 * (`indexOf` followed by `splice(i, 1)`), and the subsequence order used to
 * say that removals keep the order of what remains.
 */
module Sequences {

  /** The first index of `x` in `s`, or -1 when `x` does not occur. */
  function IndexOf<T(==)>(s: seq<T>, x: T): (r: int)
    ensures -1 <= r < |s|
    ensures r == -1 <==> x !in s
    ensures r >= 0 ==> s[r] == x && x !in s[..r]
  {
    if s == [] then -1
    else if s[0] == x then 0
    else
      var p := IndexOf(s[1..], x);
      if p < 0 then -1 else p + 1
  }

  /** No value occurs twice. */
  predicate Distinct<T(==)>(s: seq<T>) {
    forall i, j :: 0 <= i < j < |s| ==> s[i] != s[j]
  }

  /** How many times `x` occurs in `s`. */
  function Count<T(==)>(s: seq<T>, x: T): nat {
    if s == [] then 0 else (if s[0] == x then 1 else 0) + Count(s[1..], x)
  }

  /** A value that does not occur has count zero. */
  lemma {:induction false} CountAbsent<T>(s: seq<T>, x: T)
    requires x !in s
    ensures Count(s, x) == 0
  {
    if s != [] {
      assert x !in s[1..];
      CountAbsent(s[1..], x);
    }
  }

  /** A value occurs once in a sequence without repetitions that holds it, and never when absent. */
  lemma {:induction false} CountDistinct<T>(s: seq<T>, x: T)
    requires Distinct(s)
    ensures Count(s, x) == if x in s then 1 else 0
  {
    if s != [] {
      assert Distinct(s[1..]) by {
        forall i, j | 0 <= i < j < |s[1..]| ensures s[1..][i] != s[1..][j] {
          assert s[1..][i] == s[i + 1] && s[1..][j] == s[j + 1];
        }
      }
      CountDistinct(s[1..], x);
      if s[0] == x {
        assert x !in s[1..] by {
          forall i | 0 <= i < |s[1..]| ensures s[1..][i] != x {
            assert s[1..][i] == s[i + 1];
          }
        }
      }
    }
  }

  /** In a sequence without repetitions, the first index of an element is its index. */
  lemma IndexOfDistinct<T>(s: seq<T>, k: nat)
    requires Distinct(s) && k < |s|
    ensures IndexOf(s, s[k]) == k
  {
  }

  /** Appending a value does not move the first index of any value already present. */
  lemma IndexOfAppend<T>(s: seq<T>, y: T, x: T)
    ensures IndexOf(s + [y], x) ==
      if x in s then IndexOf(s, x) else if x == y then |s| else -1
  {
    if x in s {
      var p := IndexOf(s, x);
      assert (s + [y])[p] == x;
      assert (s + [y])[..p] == s[..p];
    } else if x == y {
      assert (s + [y])[|s|] == x;
      assert (s + [y])[..|s|] == s;
    }
  }

  /** `s` with its first occurrence of `x` taken out; `s` itself when `x` does not occur. */
  function RemoveFirst<T(==)>(s: seq<T>, x: T): (r: seq<T>)
    ensures x !in s ==> r == s
    ensures x in s ==> r == s[..IndexOf(s, x)] + s[IndexOf(s, x) + 1..]
  {
    if s == [] then []
    else if s[0] == x then s[1..]
    else
      var rest := RemoveFirst(s[1..], x);
      RemoveFirstOrder(s, x, rest);
      [s[0]] + rest
  }

  /** Removing the first occurrence takes exactly one `x` out of the multiset, if there is one. */
  lemma {:induction false} RemoveFirstMultiset<T>(s: seq<T>, x: T)
    ensures multiset(RemoveFirst(s, x)) == multiset(s) - multiset{x}
    decreases |s|
  {
    if s != [] {
      assert s == [s[0]] + s[1..];
      if s[0] == x {
        MultisetAddRemove(multiset(s[1..]), x);
      } else {
        RemoveFirstMultiset(s[1..], x);
        MultisetKeepOther(multiset(s[1..]), s[0], x);
      }
    }
  }

  lemma MultisetAddRemove<T>(m: multiset<T>, x: T)
    ensures (multiset{x} + m) - multiset{x} == m
  {
    forall z ensures ((multiset{x} + m) - multiset{x})[z] == m[z] {}
  }

  lemma MultisetKeepOther<T>(m: multiset<T>, y: T, x: T)
    requires y != x
    ensures multiset{y} + (m - multiset{x}) == (multiset{y} + m) - multiset{x}
  {
    forall z ensures (multiset{y} + (m - multiset{x}))[z] == ((multiset{y} + m) - multiset{x})[z] {}
  }

  lemma RemoveFirstOrder<T>(s: seq<T>, x: T, rest: seq<T>)
    requires s != [] && s[0] != x
    requires x !in s[1..] ==> rest == s[1..]
    requires x in s[1..] ==> rest == s[1..][..IndexOf(s[1..], x)] + s[1..][IndexOf(s[1..], x) + 1..]
    ensures x !in s ==> [s[0]] + rest == s
    ensures x in s ==> [s[0]] + rest == s[..IndexOf(s, x)] + s[IndexOf(s, x) + 1..]
  {
    var t := s[1..];
    assert s == [s[0]] + t;
    if x in s {
      var p := IndexOf(t, x);
      assert IndexOf(s, x) == p + 1;
      ConsSplice(s[0], t, p);
    }
  }

  /** Cutting position `p` out of `t` and then putting `h` in front cuts position `p + 1` out of `[h] + t`. */
  lemma ConsSplice<T>(h: T, t: seq<T>, p: nat)
    requires p < |t|
    ensures [h] + (t[..p] + t[p + 1..]) == ([h] + t)[..p + 1] + ([h] + t)[p + 2..]
  {
    var s := [h] + t;
    assert s[..p + 1] == [h] + t[..p];
    assert s[p + 2..] == t[p + 1..];
  }

  /** Removes, in order, the first occurrence of each value of `xs`. */
  function RemoveEach<T(==)>(s: seq<T>, xs: seq<T>): (r: seq<T>)
    decreases |xs|
  {
    if xs == [] then s else RemoveEach(RemoveFirst(s, xs[0]), xs[1..])
  }

  /** Where the elements after a dropped position end up. */
  lemma RemoveAtIndex<T>(s: seq<T>, p: nat, k: nat)
    requires p < |s| && k < |s| - 1
    ensures (s[..p] + s[p + 1..])[k] == if k < p then s[k] else s[k + 1]
  {
  }

  /** Dropping one element of a duplicate-free sequence keeps it duplicate-free and loses that value. */
  lemma RemoveAtDistinct<T>(s: seq<T>, p: nat)
    requires Distinct(s) && p < |s|
    ensures Distinct(s[..p] + s[p + 1..])
    ensures s[p] !in s[..p] + s[p + 1..]
    ensures forall k :: 0 <= k < |s| - 1 ==> (s[..p] + s[p + 1..])[k] == if k < p then s[k] else s[k + 1]
  {
    var t := s[..p] + s[p + 1..];
    assert forall k :: 0 <= k < |t| ==> t[k] == if k < p then s[k] else s[k + 1];
  }

  /** Each value of `xs` removes at most one element, only as many as `s` has. */
  lemma {:induction false} RemoveEachMultiset<T>(s: seq<T>, xs: seq<T>)
    ensures multiset(RemoveEach(s, xs)) == multiset(s) - multiset(xs)
    decreases |xs|
  {
    if xs != [] {
      var x, rest := xs[0], xs[1..];
      var s1 := RemoveFirst(s, x);
      calc {
        multiset(RemoveEach(s, xs));
        multiset(RemoveEach(s1, rest));
        { RemoveEachMultiset(s1, rest); }
        multiset(s1) - multiset(rest);
        { RemoveFirstMultiset(s, x); }
        (multiset(s) - multiset{x}) - multiset(rest);
        { MultisetDifferenceTwice(multiset(s), multiset{x}, multiset(rest)); }
        multiset(s) - (multiset{x} + multiset(rest));
        { assert xs == [x] + rest; }
        multiset(s) - multiset(xs);
      }
    }
  }

  lemma MultisetDifferenceTwice<T>(m: multiset<T>, a: multiset<T>, b: multiset<T>)
    ensures (m - a) - b == m - (a + b)
  {
    forall z ensures ((m - a) - b)[z] == (m - (a + b))[z] {}
  }

  /** Removing the values of `a` and then those of `b` is removing those of `a + b`. */
  lemma {:induction false} RemoveEachConcat<T>(s: seq<T>, a: seq<T>, b: seq<T>)
    ensures RemoveEach(RemoveEach(s, a), b) == RemoveEach(s, a + b)
    decreases |a|
  {
    if a != [] {
      assert (a + b)[0] == a[0] && (a + b)[1..] == a[1..] + b;
      RemoveEachConcat(RemoveFirst(s, a[0]), a[1..], b);
    } else {
      assert a + b == b;
    }
  }

  /** `x` is `y` with some elements left out, the rest in their order. */
  predicate Subsequence<T(==)>(x: seq<T>, y: seq<T>)
    decreases |y|
  {
    if x == [] then true
    else if y == [] then false
    else (x[0] == y[0] && Subsequence(x[1..], y[1..])) || Subsequence(x, y[1..])
  }

  lemma {:induction false} SubsequenceReflexive<T>(s: seq<T>)
    ensures Subsequence(s, s)
    decreases |s|
  {
    if s != [] { SubsequenceReflexive(s[1..]); }
  }

  lemma {:induction false} SubsequenceTransitive<T>(x: seq<T>, y: seq<T>, z: seq<T>)
    requires Subsequence(x, y) && Subsequence(y, z)
    ensures Subsequence(x, z)
    decreases |z|
  {
    if x != [] && z != [] {
      if y[0] == z[0] && Subsequence(y[1..], z[1..]) {
        if x[0] == y[0] && Subsequence(x[1..], y[1..]) {
          SubsequenceTransitive(x[1..], y[1..], z[1..]);
        } else {
          SubsequenceTransitive(x, y[1..], z[1..]);
        }
      } else {
        SubsequenceTransitive(x, y, z[1..]);
      }
    }
  }

  /** Removing one element keeps the order of the others. */
  lemma {:induction false} RemoveFirstSubsequence<T>(s: seq<T>, x: T)
    ensures Subsequence(RemoveFirst(s, x), s)
    decreases |s|
  {
    if s != [] {
      if s[0] == x {
        SubsequenceReflexive(s[1..]);
        SubsequenceAddFront(s[1..], s[1..], s[0]);
      } else {
        RemoveFirstSubsequence(s[1..], x);
      }
    } 
  }

  lemma SubsequenceAddFront<T>(x: seq<T>, y: seq<T>, a: T)
    requires Subsequence(x, y)
    ensures Subsequence(x, [a] + y)
  {
    assert ([a] + y)[1..] == y;
  }

  /** Removing several values keeps the order of what remains. */
  lemma {:induction false} RemoveEachSubsequence<T>(s: seq<T>, xs: seq<T>)
    ensures Subsequence(RemoveEach(s, xs), s)
    decreases |xs|
  {
    if xs == [] {
      SubsequenceReflexive(s);
    } else {
      RemoveFirstSubsequence(s, xs[0]);
      RemoveEachSubsequence(RemoveFirst(s, xs[0]), xs[1..]);
      SubsequenceTransitive(RemoveEach(s, xs), RemoveFirst(s, xs[0]), s);
    }
  }
}
