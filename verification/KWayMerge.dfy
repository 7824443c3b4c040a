/** What the two k-way merges share: each source array is consumed from the front, and
    `pos[i]` says how much of array `i` is gone. */
module KWayMerge {
  import opened Sequences

  ghost predicate Positions(arrays: seq<seq<int>>, pos: seq<nat>) {
    |pos| == |arrays| && forall i :: 0 <= i < |arrays| ==> pos[i] <= |arrays[i]|
  }

  /** The elements not yet consumed. */
  ghost function Remaining(arrays: seq<seq<int>>, pos: seq<nat>): multiset<int>
    requires Positions(arrays, pos)
  {
    if arrays == [] then multiset{}
    else multiset(arrays[0][pos[0]..]) + Remaining(arrays[1..], pos[1..])
  }

  /** `m` is a lower bound of the front elements of all unfinished arrays. */
  ghost predicate BelowHeads(arrays: seq<seq<int>>, pos: seq<nat>, m: int)
    requires Positions(arrays, pos)
  {
    forall i :: 0 <= i < |arrays| && pos[i] < |arrays[i]| ==> m <= arrays[i][pos[i]]
  }

  lemma {:induction false} RemainingAtStart(arrays: seq<seq<int>>, pos: seq<nat>)
    requires Positions(arrays, pos)
    requires forall i :: 0 <= i < |pos| ==> pos[i] == 0
    ensures Remaining(arrays, pos) == multiset(Concat(arrays))
  {
    if arrays != [] {
      RemainingAtStart(arrays[1..], pos[1..]);
      assert arrays[0][0..] == arrays[0];
    }
  }

  /** Consuming the front of array `i` removes exactly that element. */
  lemma {:induction false} TakeHead(arrays: seq<seq<int>>, pos: seq<nat>, i: nat)
    requires Positions(arrays, pos)
    requires i < |arrays| && pos[i] < |arrays[i]|
    ensures Positions(arrays, pos[i := pos[i] + 1])
    ensures Remaining(arrays, pos)
         == Remaining(arrays, pos[i := pos[i] + 1]) + multiset{arrays[i][pos[i]]}
  {
    var pos' := pos[i := pos[i] + 1];
    if i == 0 {
      DropFirst(arrays[0], pos[0]);
      assert pos'[1..] == pos[1..];
    } else {
      TakeHead(arrays[1..], pos[1..], i - 1);
      assert pos[1..][i - 1 := pos[i] + 1] == pos'[1..];
    }
  }

  lemma DropFirst(s: seq<int>, k: nat)
    requires k < |s|
    ensures multiset(s[k..]) == multiset(s[k + 1..]) + multiset{s[k]}
  {
    assert s[k..] == [s[k]] + s[k + 1..];
  }

  /** In sorted arrays a lower bound of the fronts bounds everything that remains. */
  lemma {:induction false} HeadsBoundRemaining(arrays: seq<seq<int>>, pos: seq<nat>, m: int, y: int)
    requires Positions(arrays, pos)
    requires AllSorted(arrays)
    requires BelowHeads(arrays, pos, m)
    requires y in Remaining(arrays, pos)
    ensures m <= y
  {
    if y in multiset(arrays[0][pos[0]..]) {
      var k :| 0 <= k < |arrays[0][pos[0]..]| && arrays[0][pos[0]..][k] == y;
      assert Sorted(arrays[0]);
      assert arrays[0][pos[0]] <= arrays[0][pos[0] + k];
    } else {
      forall i | 0 <= i < |arrays[1..]| && pos[1..][i] < |arrays[1..][i]|
        ensures m <= arrays[1..][i][pos[1..][i]]
      {
        assert arrays[1..][i] == arrays[i + 1];
      }
      HeadsBoundRemaining(arrays[1..], pos[1..], m, y);
    }
  }

  /** The output is sorted and comes before everything that remains. */
  ghost predicate Ordered(arrays: seq<seq<int>>, pos: seq<nat>, out: seq<int>)
    requires Positions(arrays, pos)
  {
    Sorted(out) && AllLeq(multiset(out), Remaining(arrays, pos))
  }

  /** What has been consumed of array `i` is sorted and is in the output. */
  ghost predicate InOrder(arrays: seq<seq<int>>, pos: seq<nat>, out: seq<int>, i: nat)
    requires Positions(arrays, pos) && i < |arrays|
  {
    Sorted(arrays[i][..pos[i]]) && forall k :: 0 <= k < pos[i] ==> arrays[i][k] in out
  }

  ghost predicate AllInOrder(arrays: seq<seq<int>>, pos: seq<nat>, out: seq<int>)
    requires Positions(arrays, pos)
  {
    forall i :: 0 <= i < |arrays| ==> InOrder(arrays, pos, out, i)
  }

  /** The loop invariant of a merge that has written `out` so far, for any arrays. */
  ghost predicate Merged(arrays: seq<seq<int>>, pos: seq<nat>, out: seq<int>)
    requires Positions(arrays, pos)
  {
    && multiset(out) + Remaining(arrays, pos) == multiset(Concat(arrays))
    && (AllSorted(arrays) ==> Ordered(arrays, pos, out))
    && (Sorted(out) ==> AllInOrder(arrays, pos, out))
  }

  lemma MergedAtStart(arrays: seq<seq<int>>, pos: seq<nat>)
    requires Positions(arrays, pos)
    requires forall i :: 0 <= i < |pos| ==> pos[i] == 0
    ensures Merged(arrays, pos, [])
  {
    RemainingAtStart(arrays, pos);
  }

  /** Emitting a least front element keeps the invariant. */
  lemma MergeStep(arrays: seq<seq<int>>, pos: seq<nat>, out: seq<int>, i: nat)
    requires Positions(arrays, pos)
    requires Merged(arrays, pos, out)
    requires i < |arrays| && pos[i] < |arrays[i]|
    requires BelowHeads(arrays, pos, arrays[i][pos[i]])
    ensures Positions(arrays, pos[i := pos[i] + 1])
    ensures Merged(arrays, pos[i := pos[i] + 1], out + [arrays[i][pos[i]]])
    ensures |Remaining(arrays, pos[i := pos[i] + 1])| < |Remaining(arrays, pos)|
    ensures |out| < |Concat(arrays)|
  {
    hide Remaining, BelowHeads, Ordered, AllInOrder, Sorted, AllSorted, Concat;
    var m, pos' := arrays[i][pos[i]], pos[i := pos[i] + 1];
    TakeHead(arrays, pos, i);
    MoveOne(out, m, Remaining(arrays, pos'), Remaining(arrays, pos), multiset(Concat(arrays)));
    assert |multiset(Concat(arrays))| == |Concat(arrays)|;
    if AllSorted(arrays) {
      OrderedStep(arrays, pos, out, i);
    }
    if Sorted(out + [m]) {
      SortedPrefix(out, m);
      InOrderStep(arrays, pos, out, i);
    }
  }

  lemma MoveOne(out: seq<int>, m: int, rest: multiset<int>, was: multiset<int>, all: multiset<int>)
    requires was == rest + multiset{m} && multiset(out) + was == all
    ensures multiset(out + [m]) + rest == all && |out| < |all| && |rest| < |was|
  {
  }

  lemma SortedPrefix(out: seq<int>, m: int)
    requires Sorted(out + [m])
    ensures Sorted(out) && forall x :: x in out ==> x <= m
  {
    var longer := out + [m];
    assert forall k :: 0 <= k < |out| ==> longer[k] == out[k];
    assert longer[|out|] == m;
  }

  lemma OrderedStep(arrays: seq<seq<int>>, pos: seq<nat>, out: seq<int>, i: nat)
    requires Positions(arrays, pos) && AllSorted(arrays) && Ordered(arrays, pos, out)
    requires i < |arrays| && pos[i] < |arrays[i]| && BelowHeads(arrays, pos, arrays[i][pos[i]])
    ensures Positions(arrays, pos[i := pos[i] + 1])
    ensures Ordered(arrays, pos[i := pos[i] + 1], out + [arrays[i][pos[i]]])
  {
    hide Remaining, BelowHeads, AllSorted, Sorted, AllLeq;
    var m := arrays[i][pos[i]];
    TakeHead(arrays, pos, i);
    var was, rest := Remaining(arrays, pos), Remaining(arrays, pos[i := pos[i] + 1]);
    forall y | y in was
      ensures m <= y
    {
      HeadsBoundRemaining(arrays, pos, m, y);
    }
    MovedLeast(out, m, rest, was);
  }

  lemma InOrderStep(arrays: seq<seq<int>>, pos: seq<nat>, out: seq<int>, i: nat)
    requires Positions(arrays, pos) && AllInOrder(arrays, pos, out)
    requires i < |arrays| && pos[i] < |arrays[i]| && forall x :: x in out ==> x <= arrays[i][pos[i]]
    ensures Positions(arrays, pos[i := pos[i] + 1])
    ensures AllInOrder(arrays, pos[i := pos[i] + 1], out + [arrays[i][pos[i]]])
  {
    var m, pos' := arrays[i][pos[i]], pos[i := pos[i] + 1];
    forall j | 0 <= j < |arrays|
      ensures InOrder(arrays, pos', out + [m], j)
    {
      assert InOrder(arrays, pos, out, j);
      if j == i {
        SortedSnoc(arrays[i][..pos[i]], m, arrays[i][..pos'[i]]);
      }
    }
  }

  lemma SortedSnoc(a: seq<int>, m: int, longer: seq<int>)
    requires Sorted(a) && longer == a + [m] && forall k :: 0 <= k < |a| ==> a[k] <= m
    ensures Sorted(longer)
  {
  }

  /** A finished merge is a permutation of its input, and sorted exactly when every array is. */
  lemma MergedDone(arrays: seq<seq<int>>, pos: seq<nat>, out: seq<int>)
    requires Positions(arrays, pos) && Merged(arrays, pos, out)
    requires forall i :: 0 <= i < |arrays| ==> pos[i] == |arrays[i]|
    ensures multiset(out) == multiset(Concat(arrays)) && |out| == |Concat(arrays)|
    ensures Sorted(out) <==> AllSorted(arrays)
  {
    hide Remaining, Concat;
    NothingRemains(arrays, pos);
    assert |multiset(out)| == |multiset(Concat(arrays))|;
    if Sorted(out) {
      forall i | 0 <= i < |arrays|
        ensures Sorted(arrays[i])
      {
        assert InOrder(arrays, pos, out, i);
        assert arrays[i][..pos[i]] == arrays[i];
      }
    }
  }

  lemma MovedLeast(out: seq<int>, m: int, rest: multiset<int>, was: multiset<int>)
    requires Sorted(out) && AllLeq(multiset(out), was)
    requires was == rest + multiset{m}
    requires forall y :: y in was ==> m <= y
    ensures Sorted(out + [m])
    ensures AllLeq(multiset(out + [m]), rest)
    ensures multiset(out + [m]) + rest == multiset(out) + was
  {
    assert m in was;
    SortedAppend(out, [m]);
    assert forall y :: y in rest ==> y in was;
  }

  lemma {:induction false} NothingRemains(arrays: seq<seq<int>>, pos: seq<nat>)
    requires Positions(arrays, pos)
    requires forall i :: 0 <= i < |arrays| ==> pos[i] == |arrays[i]|
    ensures Remaining(arrays, pos) == multiset{}
  {
    if arrays != [] {
      NothingRemains(arrays[1..], pos[1..]);
    }
  }
}
