/** The Rust merger: a k-way merge that scans all partitions for the least front element.
    The scan starts from `u32::MAX` with a strict comparison, so it never picks an element
    equal to `u32::MAX`, and what comes after one in its partition is never reached. */
module LinearMerge {
  import opened Sequences
  import opened KWayMerge
  import opened Options

  function BelowMax(s: seq<int>): seq<int> {
    if s == [] then []
    else if s[0] < U32_MAX then [s[0]] + BelowMax(s[1..])
    else BelowMax(s[1..])
  }

  lemma {:induction false} BelowMaxCount(s: seq<int>, x: int)
    ensures multiset(BelowMax(s))[x] == if x < U32_MAX then multiset(s)[x] else 0
  {
    if s != [] {
      BelowMaxCount(s[1..], x);
      assert s == [s[0]] + s[1..];
    }
  }

  /** The scan finds the least front element below `u32::MAX`, or reports that there is none. */
  method FindMin(partitions: seq<seq<u32>>, indices: seq<nat>) returns (minValue: u32, minPartition: Option<nat>)
    requires Positions(partitions, indices)
    ensures BelowHeads(partitions, indices, minValue)
    ensures minPartition.None? ==> minValue == U32_MAX
    ensures minPartition.Some? ==>
      var i := minPartition.value;
      && i < |partitions| && indices[i] < |partitions[i]|
      && partitions[i][indices[i]] == minValue < U32_MAX
  {
    minValue, minPartition := U32_MAX, None;
    for i := 0 to |indices|
      invariant minPartition.None? ==> minValue == U32_MAX
      invariant minPartition.Some? ==>
        var p := minPartition.value;
        p < i && indices[p] < |partitions[p]| && partitions[p][indices[p]] == minValue < U32_MAX
      invariant forall j :: 0 <= j < i && indices[j] < |partitions[j]| ==> minValue <= partitions[j][indices[j]]
    {
      if indices[i] < |partitions[i]| && partitions[i][indices[i]] < minValue {
        minValue := partitions[i][indices[i]];
        minPartition := Some(i);
      }
    }
  }

  /** The elements before the first `u32::MAX`. */
  function CutAtMax(s: seq<int>): seq<int> {
    if s == [] || s[0] >= U32_MAX then [] else [s[0]] + CutAtMax(s[1..])
  }

  /** `c` is `s` up to its first `u32::MAX`. */
  ghost predicate IsCut(s: seq<int>, c: seq<int>) {
    && c <= s
    && (forall k :: 0 <= k < |c| ==> s[k] < U32_MAX)
    && (|c| < |s| ==> s[|c|] >= U32_MAX)
  }

  lemma {:induction false} CutAtMaxIs(s: seq<int>)
    ensures IsCut(s, CutAtMax(s))
  {
    if s != [] && s[0] < U32_MAX {
      CutAtMaxIs(s[1..]);
      assert s == [s[0]] + s[1..];
    }
  }

  function CutAll(partitions: seq<seq<int>>): seq<seq<int>> {
    if partitions == [] then [] else [CutAtMax(partitions[0])] + CutAll(partitions[1..])
  }

  lemma {:induction false} CutAllAt(partitions: seq<seq<int>>, i: nat)
    requires i < |partitions|
    ensures |CutAll(partitions)| == |partitions| && CutAll(partitions)[i] == CutAtMax(partitions[i])
  {
    if i > 0 {
      CutAllAt(partitions[1..], i - 1);
    } else if |partitions| > 1 {
      CutAllAt(partitions[1..], 0);
    }
  }

  /** Within the cut partitions the scan finds a least front element, or they are finished. */
  lemma ScanOfCut(partitions: seq<seq<int>>, indices: seq<nat>, minValue: int)
    requires |CutAll(partitions)| == |partitions|
    requires Positions(partitions, indices) && Positions(CutAll(partitions), indices)
    requires BelowHeads(partitions, indices, minValue)
    ensures BelowHeads(CutAll(partitions), indices, minValue)
    ensures minValue == U32_MAX ==> forall i :: 0 <= i < |partitions| ==> indices[i] == |CutAll(partitions)[i]|
    ensures forall i :: 0 <= i < |partitions| && indices[i] < |partitions[i]| && partitions[i][indices[i]] < U32_MAX ==>
      indices[i] < |CutAll(partitions)[i]| && CutAll(partitions)[i][indices[i]] == partitions[i][indices[i]]
  {
    hide CutAll, CutAtMax, IsCut;
    var cut := CutAll(partitions);
    forall i | 0 <= i < |partitions|
      ensures IsCut(partitions[i], cut[i])
    {
      CutAllAt(partitions, i);
      CutAtMaxIs(partitions[i]);
    }
    forall i | 0 <= i < |partitions|
      ensures indices[i] < |cut[i]| ==> minValue <= cut[i][indices[i]]
      ensures minValue == U32_MAX ==> indices[i] == |cut[i]|
      ensures indices[i] < |partitions[i]| && partitions[i][indices[i]] < U32_MAX ==>
        indices[i] < |cut[i]| && cut[i][indices[i]] == partitions[i][indices[i]]
    {
      ScanAt(partitions[i], cut[i], indices[i], minValue);
    }
  }

  lemma ScanAt(s: seq<int>, c: seq<int>, p: nat, minValue: int)
    requires IsCut(s, c) && p <= |c| && (p < |s| ==> minValue <= s[p])
    ensures p < |c| ==> minValue <= c[p]
    ensures minValue == U32_MAX ==> p == |c|
    ensures p < |s| && s[p] < U32_MAX ==> p < |c| && c[p] == s[p]
  {
  }

  lemma CutLength(partitions: seq<seq<int>>)
    ensures |CutAll(partitions)| == |partitions|
  {
    if partitions != [] {
      CutAllAt(partitions, 0);
    }
  }

  /** For any partitions: the result is a permutation of what comes before the first
      `u32::MAX` of each partition, and sorted exactly when these parts are. */
  method MergePartitions(partitions: seq<seq<u32>>) returns (dst: seq<u32>)
    ensures multiset(dst) == multiset(Concat(CutAll(partitions)))
    ensures Sorted(dst) <==> AllSorted(CutAll(partitions))
  {
    hide CutAll, Concat, Sorted, AllSorted, Merged, Remaining, BelowHeads;
    ghost var cut := CutAll(partitions);
    var indices: seq<nat> := seq(|partitions|, _ => 0);
    dst := [];
    CutLength(partitions);
    CutPositions(partitions, indices);
    MergedAtStart(cut, indices);
    while true
      invariant Positions(partitions, indices) && Positions(cut, indices)
      invariant Merged(cut, indices, dst)
      decreases |Remaining(cut, indices)|
    {
      var minValue, minPartition := FindMin(partitions, indices);
      ScanOfCut(partitions, indices, minValue);
      match minPartition
      case Some(p) =>
        MergeStep(cut, indices, dst, p);
        dst := dst + [minValue];
        indices := indices[p := indices[p] + 1];
        CutPositions(partitions, indices);
      case None =>
        break;
    }
    MergedDone(cut, indices, dst);
  }

  lemma CutPositions(partitions: seq<seq<int>>, indices: seq<nat>)
    requires |CutAll(partitions)| == |partitions| == |indices|
    requires (forall i :: 0 <= i < |indices| ==> indices[i] == 0) || Positions(CutAll(partitions), indices)
    ensures Positions(partitions, indices) && Positions(CutAll(partitions), indices)
  {
    hide CutAll, CutAtMax;
    forall i | 0 <= i < |partitions|
      ensures indices[i] <= |CutAll(partitions)[i]| <= |partitions[i]|
    {
      CutAllAt(partitions, i);
      CutAtMaxIs(partitions[i]);
    }
  }

  // ---------- sorted partitions ----------

  lemma {:induction false} BelowMaxAppend(a: seq<int>, b: seq<int>)
    ensures BelowMax(a + b) == BelowMax(a) + BelowMax(b)
  {
    if a == [] {
      assert a + b == b;
    } else {
      assert (a + b)[1..] == a[1..] + b;
      BelowMaxAppend(a[1..], b);
    }
  }

  lemma {:induction false} NothingBelowMax(s: seq<int>)
    requires forall k :: 0 <= k < |s| ==> s[k] >= U32_MAX
    ensures BelowMax(s) == []
  {
    if s != [] {
      NothingBelowMax(s[1..]);
    }
  }

  lemma {:induction false} CutOfSorted(s: seq<int>)
    requires Sorted(s)
    ensures CutAtMax(s) == BelowMax(s) && Sorted(CutAtMax(s))
  {
    if s != [] {
      if s[0] >= U32_MAX {
        NothingBelowMax(s);
      } else {
        CutOfSorted(s[1..]);
        CutAtMaxIs(s);
      }
    }
  }

  lemma SortedCons(s: seq<int>, rest: seq<seq<int>>)
    requires Sorted(s) && AllSorted(rest)
    ensures AllSorted([s] + rest)
  {
  }

  /** From sorted partitions the merge takes everything below `u32::MAX`. */
  lemma {:induction false} CutAllOfSorted(partitions: seq<seq<int>>)
    requires AllSorted(partitions)
    ensures Concat(CutAll(partitions)) == BelowMax(Concat(partitions))
    ensures AllSorted(CutAll(partitions))
  {
    if partitions != [] {
      hide CutAtMax, BelowMax, Sorted;
      var first, rest := partitions[0], partitions[1..];
      assert Sorted(first) && AllSorted(rest);
      CutOfSorted(first);
      CutAllOfSorted(rest);
      hide Concat;
      BelowMaxAppend(first, Concat(rest));
      ConcatCons(CutAtMax(first), CutAll(rest));
      ConcatCons(first, rest);
      assert partitions == [first] + rest;
      SortedCons(CutAtMax(first), CutAll(rest));
    }
  }

  /** So the result is the sorted permutation of everything below `u32::MAX`. */
  lemma SortedPartitions(partitions: seq<seq<int>>, dst: seq<int>)
    requires AllSorted(partitions)
    requires multiset(dst) == multiset(Concat(CutAll(partitions))) && (Sorted(dst) <==> AllSorted(CutAll(partitions)))
    ensures dst == SortOf(BelowMax(Concat(partitions)))
  {
    hide CutAll, Concat, BelowMax, Sorted, SortOf;
    CutAllOfSorted(partitions);
    SortOfIs(BelowMax(Concat(partitions)), dst);
  }

  // ---------- what is lost ----------

  lemma NothingLost(s: seq<int>)
    requires forall x :: x in multiset(s) ==> x < U32_MAX
    ensures multiset(BelowMax(s)) == multiset(s)
  {
    forall x
      ensures multiset(BelowMax(s))[x] == multiset(s)[x]
    {
      BelowMaxCount(s, x);
    }
  }

  /** Leaving out `u32::MAX` loses nothing exactly when it does not occur. */
  lemma KeepsAllIff(s: seq<int>)
    requires forall x :: x in multiset(s) ==> x <= U32_MAX
    ensures SortOf(BelowMax(s)) == SortOf(s) <==> U32_MAX !in multiset(s)
  {
    hide SortOf, BelowMax;
    if U32_MAX !in multiset(s) {
      NothingLost(s);
      SortedUnique(SortOf(BelowMax(s)), SortOf(s));
    } else {
      BelowMaxCount(s, U32_MAX);
      assert multiset(SortOf(s)) != multiset(SortOf(BelowMax(s)));
    }
  }

  /** The single value `u32::MAX` is lost. */
  lemma MaximumIsLost()
    ensures SortOf(BelowMax(Concat([[U32_MAX]]))) == [] && SortOf(Concat([[U32_MAX]])) == [U32_MAX]
  {
    ConcatOne([U32_MAX]);
  }

  /** The C++ merger holds its values in a signed 32-bit integer. On the values that both
      mergers can hold they give the same result. */
  lemma MergesAgree(partitions: seq<seq<int>>, fromRust: seq<int>, fromCpp: seq<int>)
    requires AllSorted(partitions) && forall x :: x in multiset(Concat(partitions)) ==> 0 <= x <= 0x7FFF_FFFF
    requires multiset(fromRust) == multiset(Concat(CutAll(partitions))) &&
      (Sorted(fromRust) <==> AllSorted(CutAll(partitions)))
    requires multiset(fromCpp) == multiset(Concat(partitions)) && (Sorted(fromCpp) <==> AllSorted(partitions))
    ensures fromRust == fromCpp == SortOf(Concat(partitions))
  {
    hide CutAll, Concat, BelowMax, Sorted, SortOf;
    SortedPartitions(partitions, fromRust);
    KeepsAllIff(Concat(partitions));
    SortOfIs(Concat(partitions), fromCpp);
  }
}
