/** The ascending sort that ConvertToBW applies to its list of luminances
    (`ArrayList.sort(Double::compareTo)`), given by an insertion sort whose
    result is proved ascending and a permutation of its input, and the
    counting facts the median threshold rests on. Luminances are never NaN
    and never -0.0, so Double.compareTo is the numeric order here. */
module Sorting {

  predicate Ascending(s: seq<real>)
  {
    forall i, j :: 0 <= i < j < |s| ==> s[i] <= s[j]
  }

  /** s with x inserted before the first element not below it. */
  function Insert(x: real, s: seq<real>): (r: seq<real>)
    requires Ascending(s)
    ensures Ascending(r)
    ensures multiset(r) == multiset(s) + multiset{x}
    ensures forall k :: 0 <= k < |r| ==> r[k] == x || r[k] in s
  {
    if s == [] then [x]
    else if x <= s[0] then [x] + s
    else
      var rest := Insert(x, s[1..]);
      assert s == [s[0]] + s[1..];
      HeadBelowAll(s, x, rest);
      AscendingCons(s[0], rest);
      [s[0]] + rest
  }

  /** The head of an ascending list is below every later element and below x. */
  lemma HeadBelowAll(s: seq<real>, x: real, rest: seq<real>)
    requires Ascending(s) && s != [] && s[0] < x
    requires forall k :: 0 <= k < |rest| ==> rest[k] == x || rest[k] in s[1..]
    ensures forall k :: 0 <= k < |rest| ==> s[0] <= rest[k]
  {
    forall k | 0 <= k < |rest|
      ensures s[0] <= rest[k]
    {
      if rest[k] != x {
        var m :| 0 <= m < |s[1..]| && s[1..][m] == rest[k];
        assert s[m + 1] == rest[k];
      }
    }
  }

  lemma AscendingCons(h: real, t: seq<real>)
    requires Ascending(t) && forall k :: 0 <= k < |t| ==> h <= t[k]
    ensures Ascending([h] + t)
  {
    forall i, j | 0 <= i < j < |[h] + t|
      ensures ([h] + t)[i] <= ([h] + t)[j]
    {
      if i > 0 {
        assert ([h] + t)[i] == t[i - 1];
      }
      assert ([h] + t)[j] == t[j - 1];
    }
  }

  /** The ascending arrangement of s. */
  function Sort(s: seq<real>): (r: seq<real>)
    ensures Ascending(r)
    ensures multiset(r) == multiset(s)
    ensures |r| == |s|
  {
    if s == [] then []
    else
      assert s == [s[0]] + s[1..];
      Insert(s[0], Sort(s[1..]))
  }

  /** How many elements of s are at least t. */
  function CountAtLeast(s: seq<real>, t: real): (c: nat)
    ensures c <= |s|
  {
    if s == [] then 0 else (if s[0] >= t then 1 else 0) + CountAtLeast(s[1..], t)
  }

  lemma {:induction false} CountAppend(a: seq<real>, b: seq<real>, t: real)
    ensures CountAtLeast(a + b, t) == CountAtLeast(a, t) + CountAtLeast(b, t)
  {
    if a != [] {
      assert (a + b)[0] == a[0];
      assert (a + b)[1..] == a[1..] + b;
      CountAppend(a[1..], b, t);
    } else {
      assert a + b == b;
    }
  }

  /** Removing the element at position i removes its contribution to the count. */
  lemma CountRemove(b: seq<real>, i: int, t: real)
    requires 0 <= i < |b|
    ensures CountAtLeast(b, t) == CountAtLeast(b[..i] + b[i + 1..], t) + (if b[i] >= t then 1 else 0)
  {
    assert b == b[..i] + ([b[i]] + b[i + 1..]);
    CountAppend(b[..i], [b[i]] + b[i + 1..], t);
    CountAppend(b[..i], b[i + 1..], t);
    assert ([b[i]] + b[i + 1..])[1..] == b[i + 1..];
  }

  /** Taking the first element off a and an equal element off b keeps the two equal as multisets. */
  lemma RemoveMatching(a: seq<real>, b: seq<real>, i: int)
    requires multiset(a) == multiset(b) && a != [] && 0 <= i < |b| && b[i] == a[0]
    ensures multiset(b[..i] + b[i + 1..]) == multiset(a[1..])
  {
    var x := a[0];
    assert a == [x] + a[1..];
    assert b == b[..i] + [x] + b[i + 1..];
    calc {
      multiset(b[..i] + b[i + 1..]);
      multiset(b[..i]) + multiset(b[i + 1..]);
      multiset(b[..i] + [x] + b[i + 1..]) - multiset{x};
      multiset(a) - multiset{x};
      multiset([x] + a[1..]) - multiset{x};
      multiset(a[1..]);
    }
  }

  /** The count depends only on which values occur how often, not on their order. */
  lemma {:induction false} CountPermutation(a: seq<real>, b: seq<real>, t: real)
    requires multiset(a) == multiset(b)
    ensures CountAtLeast(a, t) == CountAtLeast(b, t)
  {
    if a == [] {
      assert |b| == |multiset(b)| == 0;
    } else {
      var x := a[0];
      assert x in multiset(b) by {
        assert x in multiset(a);
      }
      var i :| 0 <= i < |b| && b[i] == x;
      var rest := b[..i] + b[i + 1..];
      RemoveMatching(a, b, i);
      CountPermutation(a[1..], rest, t);
      CountRemove(b, i, t);
    }
  }

  /** When every element is at least t, all of them are counted. */
  lemma {:induction false} CountAllAtLeast(s: seq<real>, t: real)
    requires forall k :: 0 <= k < |s| ==> s[k] >= t
    ensures CountAtLeast(s, t) == |s|
  {
    if s != [] {
      CountAllAtLeast(s[1..], t);
    }
  }

  /** In an ascending sequence at least |s| - k elements are not below s[k]:
      s[k] and everything after it. */
  lemma SuffixAtLeast(s: seq<real>, k: int)
    requires Ascending(s) && 0 <= k < |s|
    ensures CountAtLeast(s, s[k]) >= |s| - k
  {
    assert s == s[..k] + s[k..];
    CountAppend(s[..k], s[k..], s[k]);
    CountAllAtLeast(s[k..], s[k]);
  }

  /** Sorting a sequence whose elements all equal v leaves only v at every position. */
  lemma SortConstant(s: seq<real>, v: real, k: int)
    requires forall i :: 0 <= i < |s| ==> s[i] == v
    requires 0 <= k < |s|
    ensures Sort(s)[k] == v
  {
    var r := Sort(s);
    assert r[k] in multiset(r);
    assert r[k] in multiset(s);
  }
}
