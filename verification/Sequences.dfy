/** Sorted sequences, permutations and concatenation: the vocabulary in which the
    parallel sort is specified. */
module Sequences {

  const U32_MAX: int := 0xFFFF_FFFF

  type u32 = x: int | 0 <= x <= 0xFFFF_FFFF

  ghost predicate Sorted(s: seq<int>) {
    forall i, j :: 0 <= i < j < |s| ==> s[i] <= s[j]
  }

  ghost predicate AllSorted(ss: seq<seq<int>>) {
    forall i :: 0 <= i < |ss| ==> Sorted(ss[i])
  }

  /** All of `a` comes before all of `b` in the order. */
  ghost predicate AllLeq(a: multiset<int>, b: multiset<int>) {
    forall x, y :: x in a && y in b ==> x <= y
  }

  function Concat<T>(ss: seq<seq<T>>): seq<T> {
    if ss == [] then [] else ss[0] + Concat(ss[1..])
  }

  lemma {:induction false} ConcatAppend<T>(a: seq<seq<T>>, b: seq<seq<T>>)
    ensures Concat(a + b) == Concat(a) + Concat(b)
  {
    if a == [] {
      assert a + b == b;
    } else {
      ConcatAppend(a[1..], b);
      assert (a + b)[1..] == a[1..] + b;
      assert Concat(a + b) == a[0] + Concat(a[1..] + b);
    }
  }

  lemma ConcatCons<T>(s: seq<T>, rest: seq<seq<T>>)
    ensures Concat([s] + rest) == s + Concat(rest)
  {
    assert ([s] + rest)[1..] == rest;
  }

  lemma ConcatOne<T>(s: seq<T>)
    ensures Concat([s]) == s
  {
    assert Concat([s]) == s + Concat([]);
  }

  lemma ConcatSnoc<T>(a: seq<seq<T>>, s: seq<T>)
    ensures Concat(a + [s]) == Concat(a) + s
  {
    ConcatAppend(a, [s]);
    ConcatOne(s);
  }

  /** Counting in a concatenation given as `c`, so that callers need no sequence algebra. */
  lemma CountAppend<T>(a: seq<T>, b: seq<T>, c: seq<T>, x: T)
    requires c == a + b
    ensures multiset(c)[x] == multiset(a)[x] + multiset(b)[x]
  {
  }

  /** If only part `b` holds `x`, and holds it `n` times, so does the concatenation. */
  lemma {:induction false} CountInOnePart<T>(parts: seq<seq<T>>, b: int, n: nat, x: T)
    requires forall j :: 0 <= j < |parts| ==> multiset(parts[j])[x] == if j == b then n else 0
    ensures multiset(Concat(parts))[x] == if 0 <= b < |parts| then n else 0
    decreases |parts|
  {
    if parts != [] {
      var k := |parts| - 1;
      CountInOnePart(parts[..k], b, n, x);
      assert parts == parts[..k] + [parts[k]];
      ConcatSnoc(parts[..k], parts[k]);
      CountAppend(Concat(parts[..k]), parts[k], Concat(parts), x);
    }
  }

  /** The insertion sort that stands for the library's `sort`; which algorithm sorts does
      not matter, because a sorted permutation is unique (`SortedUnique`). */
  function Insert(x: int, s: seq<int>): seq<int> {
    if s == [] || x <= s[0] then [x] + s else [s[0]] + Insert(x, s[1..])
  }

  lemma {:induction false} InsertPermutes(x: int, s: seq<int>)
    ensures multiset(Insert(x, s)) == multiset(s) + multiset{x}
  {
    if s != [] && x > s[0] {
      InsertPermutes(x, s[1..]);
      assert s == [s[0]] + s[1..];
    }
  }

  lemma {:induction false} InsertSorts(x: int, s: seq<int>)
    requires Sorted(s)
    ensures Sorted(Insert(x, s))
  {
    if s == [] {
    } else if x <= s[0] {
      forall y | y in multiset(s)
        ensures x <= y
      {
        HeadIsLeast(s, y);
      }
      SortedAppend([x], s);
    } else {
      SortedTail(s);
      InsertSorts(x, s[1..]);
      InsertPermutes(x, s[1..]);
      TailMultiset(s);
      forall y | y in multiset(Insert(x, s[1..]))
        ensures s[0] <= y
      {
        if y != x {
          assert y in multiset(s);
          HeadIsLeast(s, y);
        }
      }
      SortedAppend([s[0]], Insert(x, s[1..]));
    }
  }

  function SortOf(s: seq<int>): (r: seq<int>)
    ensures Sorted(r)
    ensures multiset(r) == multiset(s)
    ensures |r| == |s|
  {
    if s == [] then
      []
    else
      var t := SortOf(s[1..]);
      InsertPermutes(s[0], t);
      InsertSorts(s[0], t);
      TailMultiset(s);
      assert |multiset(Insert(s[0], t))| == |multiset(s)|;
      Insert(s[0], t)
  }

  lemma TailMultiset<T>(s: seq<T>)
    requires s != []
    ensures multiset(s[1..]) == multiset(s) - multiset{s[0]}
  {
    assert s == [s[0]] + s[1..];
  }

  lemma HeadIsLeast(s: seq<int>, x: int)
    requires Sorted(s) && x in multiset(s)
    ensures s != [] && s[0] <= x
  {
    var i :| 0 <= i < |s| && s[i] == x;
  }

  lemma SortedTail(s: seq<int>)
    requires Sorted(s) && s != []
    ensures Sorted(s[1..])
  {
    forall i, j | 0 <= i < j < |s[1..]|
      ensures s[1..][i] <= s[1..][j]
    {
      assert s[1..][i] == s[i + 1] && s[1..][j] == s[j + 1];
    }
  }

  lemma SameHeads(a: seq<int>, b: seq<int>)
    requires Sorted(a) && Sorted(b) && a != []
    requires multiset(a) == multiset(b)
    ensures b != [] && a[0] == b[0]
  {
    assert a[0] in multiset(b);
    HeadIsLeast(b, a[0]);
    assert b[0] in multiset(a);
    HeadIsLeast(a, b[0]);
  }

  /** There is only one sorted permutation. */
  lemma {:induction false} SortedUnique(a: seq<int>, b: seq<int>)
    requires Sorted(a) && Sorted(b)
    requires multiset(a) == multiset(b)
    ensures a == b
  {
    if a == [] {
      assert |multiset(b)| == 0;
    } else {
      SameHeads(a, b);
      TailMultiset(a);
      TailMultiset(b);
      SortedTail(a);
      SortedTail(b);
      SortedUnique(a[1..], b[1..]);
      assert a == [a[0]] + a[1..] && b == [b[0]] + b[1..];
    }
  }

  lemma SortOfIs(s: seq<int>, r: seq<int>)
    requires Sorted(r) && multiset(r) == multiset(s)
    ensures r == SortOf(s)
  {
    SortedUnique(r, SortOf(s));
  }

  lemma SortedAppend(a: seq<int>, b: seq<int>)
    requires Sorted(a) && Sorted(b)
    requires AllLeq(multiset(a), multiset(b))
    ensures Sorted(a + b)
  {
    forall i, j | 0 <= i < j < |a + b|
      ensures (a + b)[i] <= (a + b)[j]
    {
      if i < |a| <= j {
        assert a[i] in multiset(a) && b[j - |a|] in multiset(b);
      }
    }
  }
}
