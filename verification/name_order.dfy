/** Python's ordering of `str` values and the `list.sort` used on file names: strings
    compare character by character by code point, and a proper prefix sorts first. */
module NameOrder {

  /** `a <= b` on Python strings. */
  predicate NotAfter(a: string, b: string)
    decreases |a|
  {
    |a| == 0 || (|b| > 0 && (a[0] < b[0] || (a[0] == b[0] && NotAfter(a[1..], b[1..]))))
  }

  lemma {:induction false} NotAfterReflexive(a: string)
    ensures NotAfter(a, a)
    decreases |a|
  {
    if |a| > 0 {
      NotAfterReflexive(a[1..]);
    }
  }

  lemma {:induction false} NotAfterTotal(a: string, b: string)
    ensures NotAfter(a, b) || NotAfter(b, a)
    decreases |a|
  {
    if |a| > 0 && |b| > 0 && a[0] == b[0] {
      NotAfterTotal(a[1..], b[1..]);
    }
  }

  lemma {:induction false} NotAfterAntisymmetric(a: string, b: string)
    requires NotAfter(a, b) && NotAfter(b, a)
    ensures a == b
    decreases |a|
  {
    if |a| > 0 {
      NotAfterAntisymmetric(a[1..], b[1..]);
      assert a == [a[0]] + a[1..];
      assert b == [b[0]] + b[1..];
    }
  }

  lemma {:induction false} NotAfterTransitive(a: string, b: string, c: string)
    requires NotAfter(a, b) && NotAfter(b, c)
    ensures NotAfter(a, c)
    decreases |a|
  {
    if |a| > 0 && a[0] == b[0] && b[0] == c[0] {
      NotAfterTransitive(a[1..], b[1..], c[1..]);
    }
  }

  /** Ascending order. */
  predicate Sorted(s: seq<string>)
  {
    forall i, j :: 0 <= i < j < |s| ==> NotAfter(s[i], s[j])
  }

  /** `x` is not after any element of `s`. */
  predicate LowerBound(x: string, s: seq<string>)
  {
    forall j :: 0 <= j < |s| ==> NotAfter(x, s[j])
  }

  lemma LowerBoundOfSorted(x: string, s: seq<string>)
    requires Sorted(s) && |s| > 0 && NotAfter(x, s[0])
    ensures LowerBound(x, s)
  {
    forall j | 0 < j < |s|
      ensures NotAfter(x, s[j])
    {
      NotAfterTransitive(x, s[0], s[j]);
    }
  }

  lemma PrependSorted(x: string, s: seq<string>)
    requires Sorted(s) && LowerBound(x, s)
    ensures Sorted([x] + s)
  {
  }

  /** A lower bound of `u` and of `x` bounds every arrangement of `u` plus `x`. */
  lemma LowerBoundOfMultiset(b: string, x: string, u: seq<string>, t: seq<string>)
    requires LowerBound(b, u) && NotAfter(b, x)
    requires multiset(t) == multiset(u) + multiset{x}
    ensures LowerBound(b, t)
  {
    forall j | 0 <= j < |t|
      ensures NotAfter(b, t[j])
    {
      assert t[j] in multiset(t);
      if t[j] != x {
        assert t[j] in multiset(u);
        var i :| 0 <= i < |u| && u[i] == t[j];
      }
    }
  }

  /** Inserts `x` into sorted `s` before the first element not below it. */
  function Insert(x: string, s: seq<string>): (r: seq<string>)
    requires Sorted(s)
    ensures Sorted(r)
    ensures |r| == |s| + 1
    ensures multiset(r) == multiset(s) + multiset{x}
  {
    if |s| == 0 then [x]
    else if NotAfter(x, s[0]) then
      LowerBoundOfSorted(x, s);
      PrependSorted(x, s);
      [x] + s
    else
      NotAfterTotal(x, s[0]);
      var tail := Insert(x, s[1..]);
      assert s == [s[0]] + s[1..];
      NotAfterReflexive(s[0]);
      LowerBoundOfSorted(s[0], s);
      assert LowerBound(s[0], s[1..]);
      LowerBoundOfMultiset(s[0], x, s[1..], tail);
      PrependSorted(s[0], tail);
      [s[0]] + tail
  }

  /** `list.sort()` on names: an ascending permutation of the input. */
  function Sort(s: seq<string>): (r: seq<string>)
    ensures Sorted(r)
    ensures |r| == |s|
    ensures multiset(r) == multiset(s)
  {
    if |s| == 0 then []
    else
      assert s == [s[0]] + s[1..];
      Insert(s[0], Sort(s[1..]))
  }

  /** The head of an ascending sequence is not after any of its elements. */
  lemma HeadIsLeast(a: seq<string>, y: string)
    requires Sorted(a) && y in multiset(a)
    ensures NotAfter(a[0], y)
  {
    var i :| 0 <= i < |a| && a[i] == y;
    if i == 0 {
      NotAfterReflexive(y);
    }
  }

  /** A sorted arrangement is unique: two ascending sequences with the same elements
      are equal. */
  lemma {:induction false} SortedUnique(a: seq<string>, b: seq<string>)
    requires Sorted(a) && Sorted(b)
    requires multiset(a) == multiset(b)
    ensures a == b
    decreases |a|
  {
    assert |a| == |multiset(a)| == |multiset(b)| == |b|;
    if |a| > 0 {
      assert a[0] in multiset(a) && b[0] in multiset(b);
      HeadIsLeast(a, b[0]);
      HeadIsLeast(b, a[0]);
      NotAfterAntisymmetric(a[0], b[0]);
      TailMultiset(a);
      TailMultiset(b);
      SortedUnique(a[1..], b[1..]);
      assert a == [a[0]] + a[1..];
      assert b == [b[0]] + b[1..];
    }
  }

  lemma SortedTail(a: seq<string>)
    requires Sorted(a) && |a| > 0
    ensures Sorted(a[1..])
  {
  }

  lemma TailMultiset(a: seq<string>)
    requires |a| > 0
    ensures multiset(a[1..]) == multiset(a) - multiset{a[0]}
  {
    assert a == [a[0]] + a[1..];
  }
}
