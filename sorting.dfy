/**
 * Ordering and sorting of path strings as `list.sort()` does it: code point
 * by code point, a proper prefix before any longer string.
 */
module Sorting {

  /** `a <= b` for strings. */
  function Le(a: string, b: string): (r: bool)
    ensures |a| <= |b| && a == b[..|a|] ==> r
    decreases |a|
  {
    a == [] || (b != [] && (a[0] < b[0] || (a[0] == b[0] && Le(a[1..], b[1..]))))
  }

  lemma {:induction false} LeReflexive(a: string)
    ensures Le(a, a)
    decreases |a|
  {
    if a != [] {
      LeReflexive(a[1..]);
    }
  }

  lemma {:induction false} LeTotal(a: string, b: string)
    ensures Le(a, b) || Le(b, a)
    decreases |a|
  {
    if a != [] && b != [] && a[0] == b[0] {
      LeTotal(a[1..], b[1..]);
    }
  }

  lemma {:induction false} LeAntisymmetric(a: string, b: string)
    requires Le(a, b) && Le(b, a)
    ensures a == b
    decreases |a|
  {
    if a != [] {
      LeAntisymmetric(a[1..], b[1..]);
      assert a == [a[0]] + a[1..] && b == [b[0]] + b[1..];
    }
  }

  lemma {:induction false} LeTransitive(a: string, b: string, c: string)
    requires Le(a, b) && Le(b, c)
    ensures Le(a, c)
    decreases |a|
  {
    if a != [] && a[0] == b[0] && b[0] == c[0] {
      LeTransitive(a[1..], b[1..], c[1..]);
    }
  }

  ghost predicate Sorted(s: seq<string>)
  {
    forall i, j :: 0 <= i < j < |s| ==> Le(s[i], s[j])
  }

  /** Insert `x` into a sorted list, before the first element it does not exceed. */
  function Insert(x: string, s: seq<string>): (r: seq<string>)
    requires Sorted(s)
    ensures Sorted(r)
    ensures multiset(r) == multiset(s) + multiset{x}
  {
    if s == [] then [x]
    else if Le(x, s[0]) then
      assert forall y :: y in s ==> Le(x, y) by {
        forall y | y in s ensures Le(x, y) {
          var j :| 0 <= j < |s| && s[j] == y;
          if j > 0 { LeTransitive(x, s[0], s[j]); }
        }
      }
      ConsSorted(x, s);
      [x] + s
    else
      LeTotal(x, s[0]);
      TailFacts(s);
      var t := Insert(x, s[1..]);
      InsertAboveHead(x, s, t);
      ConsSorted(s[0], t);
      assert multiset([s[0]] + t) == multiset{s[0]} + multiset(t);
      [s[0]] + t
  }

  /** A list is sorted when its head is below everything in a sorted tail. */
  lemma ConsSorted(h: string, t: seq<string>)
    requires Sorted(t)
    requires forall y :: y in t ==> Le(h, y)
    ensures Sorted([h] + t)
  {
    var r := [h] + t;
    forall i, j | 0 <= i < j < |r|
      ensures Le(r[i], r[j])
    {
      assert r[j] == t[j - 1];
      if 0 < i { assert r[i] == t[i - 1]; }
    }
  }

  /** Inserting past the head only adds elements above the head. */
  lemma InsertAboveHead(x: string, s: seq<string>, t: seq<string>)
    requires Sorted(s) && s != [] && Le(s[0], x)
    requires multiset(t) == multiset(s[1..]) + multiset{x}
    ensures forall y :: y in t ==> Le(s[0], y)
  {
    var tail := s[1..];
    forall y | y in t
      ensures Le(s[0], y)
    {
      assert y in multiset(t);
      if y != x {
        assert y in multiset(tail);
        var k :| 0 <= k < |tail| && tail[k] == y;
        assert s[k + 1] == y;
      }
    }
  }

  /** `sorted(s)`: a sorted permutation of `s` (insertion sort). */
  function Sort(s: seq<string>): (r: seq<string>)
    ensures Sorted(r)
    ensures multiset(r) == multiset(s)
  {
    if s == [] then []
    else
      assert s == [s[0]] + s[1..];
      Insert(s[0], Sort(s[1..]))
  }

  /** The tail of a non-empty sorted list is sorted and holds the rest of its multiset. */
  lemma TailFacts(a: seq<string>)
    requires Sorted(a) && a != []
    ensures Sorted(a[1..])
    ensures multiset(a[1..]) == multiset(a) - multiset{a[0]}
  {
    var t := a[1..];
    assert a == [a[0]] + t;
    forall x, y | 0 <= x < y < |t| ensures Le(t[x], t[y]) { assert t[x] == a[x + 1] && t[y] == a[y + 1]; }
  }

  /** Two sorted arrangements of one multiset start with the same string. */
  lemma SortedHeadsAgree(a: seq<string>, b: seq<string>)
    requires Sorted(a) && Sorted(b)
    requires multiset(a) == multiset(b)
    requires a != [] && b != []
    ensures a[0] == b[0]
  {
    assert a[0] in multiset(b) && b[0] in multiset(a);
    var i :| 0 <= i < |b| && b[i] == a[0];
    var j :| 0 <= j < |a| && a[j] == b[0];
    assert Le(b[0], a[0]) by { if i > 0 { assert Le(b[0], b[i]); } else { LeReflexive(a[0]); } }
    assert Le(a[0], b[0]) by { if j > 0 { assert Le(a[0], a[j]); } else { LeReflexive(a[0]); } }
    LeAntisymmetric(a[0], b[0]);
  }

  /** There is one sorted arrangement of a multiset of strings, so `Sort` is Python's `sorted`. */
  lemma {:induction false} SortedIsUnique(a: seq<string>, b: seq<string>)
    requires Sorted(a) && Sorted(b)
    requires multiset(a) == multiset(b)
    ensures a == b
    decreases |a|
  {
    if a == [] {
      assert |b| == |multiset(b)| == 0;
    } else {
      assert b != [] by { assert a[0] in multiset(b); }
      SortedHeadsAgree(a, b);
      var a', b' := a[1..], b[1..];
      TailFacts(a);
      TailFacts(b);
      SortedIsUnique(a', b');
      assert a == [a[0]] + a' && b == [b[0]] + b';
    }
  }
}
