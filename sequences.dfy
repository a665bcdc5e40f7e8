/** Python's `sum(f(x) for x in xs)` and `[f(x) for x in xs]`, with the facts about
    them the model relies on. */
module Sequences {

  function Sum<T>(s: seq<T>, f: T -> int): int
    decreases |s|
  {
    if |s| == 0 then 0 else f(s[0]) + Sum(s[1..], f)
  }

  lemma {:induction false} SumAppend<T>(s: seq<T>, t: seq<T>, f: T -> int)
    ensures Sum(s + t, f) == Sum(s, f) + Sum(t, f)
    decreases |s|
  {
    if |s| > 0 {
      assert (s + t)[1..] == s[1..] + t;
      SumAppend(s[1..], t, f);
    } else {
      assert s + t == t;
    }
  }

  /** A sum over a suffix peels off its first term. */
  lemma SumSuffix<T>(s: seq<T>, i: int, f: T -> int)
    requires 0 <= i < |s|
    ensures Sum(s[i..], f) == f(s[i]) + Sum(s[i + 1..], f)
  {
    assert s[i..][1..] == s[i + 1..];
  }

  /** Replacing one element changes the sum by the difference of the two terms. */
  lemma {:induction false} SumUpdate<T>(s: seq<T>, i: int, x: T, f: T -> int)
    requires 0 <= i < |s|
    ensures Sum(s[i := x], f) == Sum(s, f) - f(s[i]) + f(x)
    decreases |s|
  {
    if i > 0 {
      assert s[i := x][1..] == s[1..][i - 1 := x];
      SumUpdate(s[1..], i - 1, x, f);
    } else {
      assert s[i := x][1..] == s[1..];
    }
  }

  /** The order of the terms does not matter. */
  lemma {:induction false} SumPermutation<T>(s: seq<T>, t: seq<T>, f: T -> int)
    requires multiset(s) == multiset(t)
    ensures Sum(s, f) == Sum(t, f)
    decreases |s|
  {
    if |s| == 0 {
      assert multiset(t) == multiset{};
    } else {
      var k := MatchFirst(s, t);
      var rest := t[..k] + t[k + 1..];
      SumPermutation(s[1..], rest, f);
      RemoveTerm(t, k, f);
    }
  }

  /** In a reordering `t` of `s`, the first element of `s` sits at some position
      `k` of `t`, and the rest of `s` is a reordering of `t` without position `k`. */
  lemma MatchFirst<T>(s: seq<T>, t: seq<T>) returns (k: int)
    requires multiset(s) == multiset(t) && |s| > 0
    ensures 0 <= k < |t| && t[k] == s[0]
    ensures multiset(s[1..]) == multiset(t[..k] + t[k + 1..])
  {
    assert s[0] in multiset(s);
    assert s[0] in t;
    k :| 0 <= k < |t| && t[k] == s[0];
    var rest := t[..k] + t[k + 1..];
    MultisetWithout(t, k);
    assert s == [s[0]] + s[1..];
    var a, b, c := multiset{s[0]}, multiset(s[1..]), multiset(rest);
    assert multiset(s) == a + b;
    assert multiset(t) == a + c;
    MultisetCancel(a, b, c);
  }

  lemma MultisetCancel<T>(a: multiset<T>, b: multiset<T>, c: multiset<T>)
    requires a + b == a + c
    ensures b == c
  {
    forall x
      ensures b[x] == c[x]
    {
      assert (a + b)[x] == a[x] + b[x];
      assert (a + c)[x] == a[x] + c[x];
    }
  }

  /** Taking out the term at position k. */
  lemma RemoveTerm<T>(t: seq<T>, k: int, f: T -> int)
    requires 0 <= k < |t|
    ensures Sum(t, f) == f(t[k]) + Sum(t[..k] + t[k + 1..], f)
  {
    var a, b := t[..k], t[k + 1..];
    assert t == a + [t[k]] + b;
    SplitSum(a, t[k], b, f);
  }

  lemma SplitSum<T>(a: seq<T>, x: T, b: seq<T>, f: T -> int)
    ensures Sum(a + [x] + b, f) == f(x) + Sum(a + b, f)
  {
    assert a + [x] + b == a + ([x] + b);
    SumAppend(a, [x] + b, f);
    assert ([x] + b)[1..] == b;
    SumAppend(a, b, f);
  }

  /** The multiset of a sequence, split around position k. */
  lemma MultisetWithout<T>(t: seq<T>, k: int)
    requires 0 <= k < |t|
    ensures multiset(t) == multiset{t[k]} + multiset(t[..k] + t[k + 1..])
  {
    var a, b := t[..k], t[k + 1..];
    assert t == a + [t[k]] + b;
    assert multiset(t) == multiset(a) + multiset([t[k]]) + multiset(b);
    assert multiset(a + b) == multiset(a) + multiset(b);
    assert multiset([t[k]]) == multiset{t[k]};
  }

  function Map<T, U>(s: seq<T>, f: T -> U): (r: seq<U>)
    ensures |r| == |s|
    ensures forall k :: 0 <= k < |s| ==> r[k] == f(s[k])
  {
    seq(|s|, k requires 0 <= k < |s| => f(s[k]))
  }

  /** Mapping two orderings of the same elements gives two orderings of the same images. */
  lemma {:induction false} MapPermutation<T, U>(s: seq<T>, t: seq<T>, f: T -> U)
    requires multiset(s) == multiset(t)
    ensures multiset(Map(s, f)) == multiset(Map(t, f))
    decreases |s|
  {
    if |s| == 0 {
      assert multiset(t) == multiset{};
    } else {
      var k := MatchFirst(s, t);
      var rest := t[..k] + t[k + 1..];
      MapPermutation(s[1..], rest, f);
      MapWithout(t, k, f);
      MapFirst(s, f);
      var x := f(s[0]);
      assert f(t[k]) == x;
      calc {
        multiset(Map(s, f));
        multiset{x} + multiset(Map(s[1..], f));
        multiset{x} + multiset(Map(rest, f));
        multiset(Map(t, f));
      }
    }
  }

  lemma MapFirst<T, U>(s: seq<T>, f: T -> U)
    requires |s| > 0
    ensures multiset(Map(s, f)) == multiset{f(s[0])} + multiset(Map(s[1..], f))
  {
    var m := Map(s, f);
    assert m == [f(s[0])] + Map(s[1..], f);
  }

  lemma MapWithout<T, U>(t: seq<T>, k: int, f: T -> U)
    requires 0 <= k < |t|
    ensures multiset(Map(t, f)) == multiset{f(t[k])} + multiset(Map(t[..k] + t[k + 1..], f))
  {
    MultisetWithout(Map(t, f), k);
    assert Map(t, f)[..k] + Map(t, f)[k + 1..] == Map(t[..k] + t[k + 1..], f);
  }

  /** Two sequences whose terms agree position by position have the same sum. */
  lemma {:induction false} SumPointwise<T, U>(s: seq<T>, f: T -> int, t: seq<U>, g: U -> int)
    requires |s| == |t|
    requires forall k :: 0 <= k < |s| ==> f(s[k]) == g(t[k])
    ensures Sum(s, f) == Sum(t, g)
    decreases |s|
  {
    if |s| > 0 {
      SumPointwise(s[1..], f, t[1..], g);
    }
  }

  /** A sum of non-negative terms is at least each of its terms. */
  lemma {:induction false} SumBoundsTerm<T>(s: seq<T>, f: T -> int, k: int)
    requires forall j :: 0 <= j < |s| ==> f(s[j]) >= 0
    requires 0 <= k < |s|
    ensures Sum(s, f) >= f(s[k]) >= 0
    decreases |s|
  {
    SumNonNegative(s[1..], f);
    if k > 0 {
      SumBoundsTerm(s[1..], f, k - 1);
    }
  }

  lemma {:induction false} SumNonNegative<T>(s: seq<T>, f: T -> int)
    requires forall j :: 0 <= j < |s| ==> f(s[j]) >= 0
    ensures Sum(s, f) >= 0
    decreases |s|
  {
    if |s| > 0 {
      SumNonNegative(s[1..], f);
    }
  }

  /** A sum with no positive term is at most 0; a positive sum therefore has a positive term. */
  lemma {:induction false} SumPositiveTerm<T>(s: seq<T>, f: T -> int)
    requires Sum(s, f) > 0
    ensures exists k :: 0 <= k < |s| && f(s[k]) > 0
    decreases |s|
  {
    if f(s[0]) <= 0 {
      SumPositiveTerm(s[1..], f);
      var k :| 0 <= k < |s[1..]| && f(s[1..][k]) > 0;
      assert f(s[k + 1]) > 0;
    }
  }

  /** A sum whose terms are all 0 is 0. */
  lemma {:induction false} SumZero<T>(s: seq<T>, f: T -> int)
    requires forall k :: 0 <= k < |s| ==> f(s[k]) == 0
    ensures Sum(s, f) == 0
    decreases |s|
  {
    if |s| > 0 {
      SumZero(s[1..], f);
    }
  }
}
