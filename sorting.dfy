/** Python's ordering of integer tuples, and the in-place `list.sort(key=...)` the scheduler uses. */
module Tuples {

  /** `x < y` on tuples of integers: the first differing position decides, and a
      proper prefix is smaller than the tuple it starts. */
  predicate LexLess(x: seq<int>, y: seq<int>)
    decreases |x|
  {
    if |x| == 0 then |y| > 0
    else if |y| == 0 then false
    else x[0] < y[0] || (x[0] == y[0] && LexLess(x[1..], y[1..]))
  }

  lemma {:induction false} LexLessIrreflexive(x: seq<int>)
    ensures !LexLess(x, x)
    decreases |x|
  {
    if |x| > 0 {
      LexLessIrreflexive(x[1..]);
    }
  }

  lemma {:induction false} LexLessTransitive(x: seq<int>, y: seq<int>, z: seq<int>)
    requires LexLess(x, y) && LexLess(y, z)
    ensures LexLess(x, z)
    decreases |x|
  {
    if |x| > 0 && x[0] == y[0] && y[0] == z[0] {
      LexLessTransitive(x[1..], y[1..], z[1..]);
    }
  }

  /** Any two different tuples are ordered one way or the other. */
  lemma {:induction false} LexLessTotal(x: seq<int>, y: seq<int>)
    ensures x == y || LexLess(x, y) || LexLess(y, x)
    decreases |x|
  {
    if |x| > 0 && |y| > 0 && x[0] == y[0] {
      LexLessTotal(x[1..], y[1..]);
      if x[1..] == y[1..] {
        assert x == [x[0]] + x[1..] && y == [y[0]] + y[1..];
      }
    }
  }

  /** "Not greater than" is transitive, which is what a sorted list relies on. */
  lemma NotLessTransitive(x: seq<int>, y: seq<int>, z: seq<int>)
    requires !LexLess(y, x) && !LexLess(z, y)
    ensures !LexLess(z, x)
  {
    if LexLess(z, x) {
      LexLessTotal(x, y);
      if LexLess(x, y) {
        LexLessTransitive(z, x, y);
      }
    }
  }
}

module Sorting {
  import opened Tuples

  /** Ascending by key: no element is smaller than an element before it. */
  ghost predicate SortedBy<T>(s: seq<T>, key: T -> seq<int>)
  {
    forall p, q :: 0 <= p < q < |s| ==> !LexLess(key(s[q]), key(s[p]))
  }

  /** Exchanges two neighbouring elements. */
  method SwapDown<T>(a: array<T>, j: int)
    requires 0 < j < a.Length
    modifies a
    ensures a[j - 1] == old(a[j]) && a[j] == old(a[j - 1])
    ensures forall k :: 0 <= k < a.Length && k != j - 1 && k != j ==> a[k] == old(a[k])
    ensures multiset(a[..]) == multiset(old(a[..]))
  {
    a[j - 1], a[j] := a[j], a[j - 1];
  }

  /** In-place sort of `a` ascending by `key` (insertion by adjacent exchanges). */
  method SortByKey<T>(a: array<T>, key: T -> seq<int>)
    modifies a
    ensures SortedBy(a[..], key)
    ensures multiset(a[..]) == multiset(old(a[..]))
  {
    var i := 0;
    while i < a.Length
      invariant 0 <= i <= a.Length
      invariant forall p, q :: 0 <= p < q < i ==> !LexLess(key(a[q]), key(a[p]))
      invariant multiset(a[..]) == multiset(old(a[..]))
    {
      Insert(a, key, i);
      i := i + 1;
    }
  }

  /** Moves a[i] down into the sorted prefix a[..i]. */
  method Insert<T>(a: array<T>, key: T -> seq<int>, i: int)
    requires 0 <= i < a.Length
    requires forall p, q :: 0 <= p < q < i ==> !LexLess(key(a[q]), key(a[p]))
    modifies a
    ensures forall p, q :: 0 <= p < q <= i ==> !LexLess(key(a[q]), key(a[p]))
    ensures multiset(a[..]) == multiset(old(a[..]))
  {
    var j := i;
    assert Hole(a[..], key, j, i);
    while j > 0 && LexLess(key(a[j]), key(a[j - 1]))
      invariant 0 <= j <= i
      invariant multiset(a[..]) == multiset(old(a[..]))
      invariant Hole(a[..], key, j, i)
    {
      ghost var before := a[..];
      SwapDown(a, j);
      assert a[..] == before[j - 1 := before[j]][j := before[j - 1]];
      InsertStep(before, key, j, i);
      j := j - 1;
    }
    InsertDone(a[..], key, j, i);
  }

  /** Positions 0..i of s are sorted except that s[j] may be smaller than what precedes it. */
  ghost predicate Hole<T>(s: seq<T>, key: T -> seq<int>, j: int, i: int)
    requires 0 <= j <= i < |s|
  {
    (forall p, q :: 0 <= p < q < j ==> !LexLess(key(s[q]), key(s[p]))) &&
    (forall p, q :: j <= p < q <= i ==> !LexLess(key(s[q]), key(s[p]))) &&
    (forall p, q :: 0 <= p < j < q <= i ==> !LexLess(key(s[q]), key(s[p])))
  }

  /** Once the new element stops moving down, the first i + 1 elements are sorted. */
  lemma InsertDone<T>(s: seq<T>, key: T -> seq<int>, j: int, i: int)
    requires 0 <= j <= i < |s|
    requires j == 0 || !LexLess(key(s[j]), key(s[j - 1]))
    requires Hole(s, key, j, i)
    ensures forall p, q :: 0 <= p < q <= i ==> !LexLess(key(s[q]), key(s[p]))
  {
    forall p, q | 0 <= p < q <= i
      ensures !LexLess(key(s[q]), key(s[p]))
    {
      if p < j - 1 && q == j {
        NotLessTransitive(key(s[p]), key(s[j - 1]), key(s[j]));
      }
    }
  }

  /** Exchanging positions j-1 and j of s, when s[j] < s[j-1], moves the hole one place down. */
  lemma InsertStep<T>(s: seq<T>, key: T -> seq<int>, j: int, i: int)
    requires 0 < j <= i < |s|
    requires LexLess(key(s[j]), key(s[j - 1]))
    requires Hole(s, key, j, i)
    ensures Hole(s[j - 1 := s[j]][j := s[j - 1]], key, j - 1, i)
  {
    LexLessIrreflexive(key(s[j]));
    if LexLess(key(s[j - 1]), key(s[j])) {
      LexLessTransitive(key(s[j]), key(s[j - 1]), key(s[j]));
    }
    assert forall q :: j < q <= i ==> !LexLess(key(s[q]), key(s[j]));
  }
}
