/** The two splitters: the Rust one cuts a sorted sequence at the pivots, the C++ one
    classifies element by element. */
module Splitting {
  import opened Sequences
  import opened Options

  /** The bucket of `x`: how many leading pivots are at most `x`. */
  function Bucket(x: int, pivots: seq<int>): (b: nat)
    ensures b <= |pivots|
  {
    if pivots == [] || x < pivots[0] then 0 else 1 + Bucket(x, pivots[1..])
  }

  /** The elements of bucket `j`, in their original order. */
  function InBucket(numbers: seq<int>, pivots: seq<int>, j: nat): seq<int> {
    if numbers == [] then []
    else if Bucket(numbers[0], pivots) == j then [numbers[0]] + InBucket(numbers[1..], pivots, j)
    else InBucket(numbers[1..], pivots, j)
  }

  /** Bucket `j` is the half-open interval from pivot `j - 1` to pivot `j`. */
  lemma {:induction false} BucketInterval(x: int, pivots: seq<int>, j: nat)
    requires Sorted(pivots) && j <= |pivots|
    ensures Bucket(x, pivots) == j <==>
              (j == 0 || pivots[j - 1] <= x) && (j == |pivots| || x < pivots[j])
  {
    if pivots != [] {
      SortedTail(pivots);
      if j == 0 {
      } else if x < pivots[0] {
        assert pivots[0] <= pivots[j - 1];
      } else {
        BucketInterval(x, pivots[1..], j - 1);
      }
    }
  }

  lemma {:induction false} BucketMonotone(x: int, y: int, pivots: seq<int>)
    requires x <= y
    ensures Bucket(x, pivots) <= Bucket(y, pivots)
  {
    if pivots != [] && x >= pivots[0] {
      BucketMonotone(x, y, pivots[1..]);
    }
  }

  lemma {:induction false} InBucketMembers(numbers: seq<int>, pivots: seq<int>, j: nat, x: int)
    ensures multiset(InBucket(numbers, pivots, j))[x] == if Bucket(x, pivots) == j then multiset(numbers)[x] else 0
  {
    if numbers != [] {
      InBucketMembers(numbers[1..], pivots, j, x);
      assert numbers == [numbers[0]] + numbers[1..];
    }
  }

  lemma {:induction false} InBucketAppend(a: seq<int>, b: seq<int>, pivots: seq<int>, j: nat)
    ensures InBucket(a + b, pivots, j) == InBucket(a, pivots, j) + InBucket(b, pivots, j)
  {
    hide Bucket, InBucket;
    if a == [] {
      assert a + b == b;
      InNoBucket(pivots, j);
    } else {
      InBucketAppend(a[1..], b, pivots, j);
      assert (a + b)[1..] == a[1..] + b && (a + b)[0] == a[0];
      InBucketStep(a, pivots, j);
      InBucketStep(a + b, pivots, j);
    }
  }

  lemma InNoBucket(pivots: seq<int>, j: nat)
    ensures InBucket([], pivots, j) == []
  {
  }

  lemma InBucketStep(numbers: seq<int>, pivots: seq<int>, j: nat)
    requires numbers != []
    ensures InBucket(numbers, pivots, j)
         == (if Bucket(numbers[0], pivots) == j then [numbers[0]] else []) + InBucket(numbers[1..], pivots, j)
  {
    hide Bucket;
  }

  // ---------- the C++ splitter ----------

  method RowOf(x: int, pivots: seq<int>) returns (row: nat)
    ensures row == Bucket(x, pivots)
  {
    row := 0;
    for j := 0 to |pivots|
      invariant row == j
      invariant Bucket(x, pivots) == j + Bucket(x, pivots[j..])
    {
      if x >= pivots[j] {
        row := row + 1;
        assert pivots[j..][1..] == pivots[j + 1..];
      } else {
        break;
      }
    }
  }

  /** Every element is appended to the row of its bucket; `arrays` has one row per merger. */
  method Classify(numbers: seq<int>, pivots: seq<int>, mergerNum: nat) returns (arrays: seq<seq<int>>)
    requires |pivots| < mergerNum
    ensures |arrays| == mergerNum
    ensures forall j :: 0 <= j < mergerNum ==> arrays[j] == InBucket(numbers, pivots, j)
  {
    arrays := seq(mergerNum, _ => []);
    assert numbers[..0] == [];
    for i := 0 to |numbers|
      invariant |arrays| == mergerNum
      invariant forall j :: 0 <= j < mergerNum ==> arrays[j] == InBucket(numbers[..i], pivots, j)
    {
      var row := RowOf(numbers[i], pivots);
      ghost var before := arrays;
      arrays := arrays[row := arrays[row] + [numbers[i]]];
      forall j | 0 <= j < mergerNum
        ensures arrays[j] == InBucket(numbers[..i + 1], pivots, j)
      {
        InBucketAppend(numbers[..i], [numbers[i]], pivots, j);
        assert numbers[..i + 1] == numbers[..i] + [numbers[i]];
        assert InBucket([numbers[i]], pivots, j) == if j == row then [numbers[i]] else [];
      }
    }
    assert numbers[..|numbers|] == numbers;
  }

  // ---------- the Rust splitter ----------

  /** The longest prefix below `pivot`. */
  function PrefixBelow(numbers: seq<int>, pivot: int): (p: seq<int>)
    ensures |p| <= |numbers|
  {
    if numbers == [] || numbers[0] >= pivot then [] else [numbers[0]] + PrefixBelow(numbers[1..], pivot)
  }

  lemma {:induction false} PrefixBelowIs(numbers: seq<int>, pivot: int)
    ensures var p := PrefixBelow(numbers, pivot);
      && p == numbers[..|p|]
      && (forall i :: 0 <= i < |p| ==> numbers[i] < pivot)
      && (|p| < |numbers| ==> numbers[|p|] >= pivot)
  {
    if numbers != [] && numbers[0] < pivot {
      PrefixBelowIs(numbers[1..], pivot);
    }
  }

  /** Cut at the pivots in turn; stop as soon as the numbers run out. */
  function Split(numbers: seq<int>, pivots: seq<int>): (parts: seq<seq<int>>)
    ensures parts != []
    decreases pivots
  {
    if pivots == [] then [numbers]
    else
      var p := PrefixBelow(numbers, pivots[0]);
      if |p| >= |numbers| then [p] + [[]]
      else [p] + Split(numbers[|p|..], pivots[1..])
  }

  /** The same, from index `start` of the numbers and index `i` of the pivots. */
  function SplitFrom(numbers: seq<int>, pivots: seq<int>, start: nat, i: nat): seq<seq<int>>
    requires start <= |numbers| && i <= |pivots|
    decreases |pivots| - i
  {
    if i == |pivots| then [numbers[start..]]
    else
      var p := PrefixBelow(numbers[start..], pivots[i]);
      if start + |p| >= |numbers| then [p] + [[]]
      else [p] + SplitFrom(numbers, pivots, start + |p|, i + 1)
  }

  lemma {:induction false} SplitFromIsSplit(numbers: seq<int>, pivots: seq<int>, start: nat, i: nat)
    requires start <= |numbers| && i <= |pivots|
    ensures SplitFrom(numbers, pivots, start, i) == Split(numbers[start..], pivots[i..])
    decreases |pivots| - i
  {
    if i < |pivots| {
      var ns, ps := numbers[start..], pivots[i..];
      var p := PrefixBelow(ns, ps[0]);
      if |p| < |ns| {
        assert Split(ns, ps) == [p] + Split(ns[|p|..], ps[1..]);
        assert ps[1..] == pivots[i + 1..];
        assert ns[|p|..] == numbers[start + |p|..];
        SplitFromIsSplit(numbers, pivots, start + |p|, i + 1);
      } else {
        assert Split(ns, ps) == [p] + [[]];
      }
    }
  }

  method SplitNumbers(numbers: seq<int>, pivots: seq<int>) returns (result: seq<seq<int>>)
    ensures result == Split(numbers, pivots)
  {
    hide SplitFrom, Split, PrefixBelow;
    result := [];
    var currentStart := 0;
    for i := 0 to |pivots|
      invariant 0 <= currentStart <= |numbers|
      invariant SplitFrom(numbers, pivots, 0, 0) == result + SplitFrom(numbers, pivots, currentStart, i)
    {
      var currentPartition := NumbersBelow(numbers[currentStart..], pivots[i]);
      SplitFromStep(numbers, pivots, currentStart, i, currentPartition, result);
      result := result + [currentPartition];
      currentStart := currentStart + |currentPartition|;
      if currentStart >= |numbers| {
        assert numbers[currentStart..] == [];
        break;
      }
    }
    SplitFromEnd(numbers, pivots, currentStart);
    result := result + [numbers[currentStart..]];
    SplitFromIsSplit(numbers, pivots, 0, 0);
    assert numbers[0..] == numbers && pivots[0..] == pivots;
  }

  lemma SplitFromStep(numbers: seq<int>, pivots: seq<int>, start: nat, i: nat, p: seq<int>, before: seq<seq<int>>)
    requires start <= |numbers| && i < |pivots| && p == PrefixBelow(numbers[start..], pivots[i])
    ensures var after := before + [p];
      before + SplitFrom(numbers, pivots, start, i) ==
        if start + |p| >= |numbers| then after + [[]] else after + SplitFrom(numbers, pivots, start + |p|, i + 1)
  {
    hide PrefixBelow;
    if start + |p| < |numbers| {
      var rest := SplitFrom(numbers, pivots, start + |p|, i + 1);
      assert before + ([p] + rest) == before + [p] + rest;
    } else {
      assert before + ([p] + [[]]) == before + [p] + [[]];
    }
  }

  lemma SplitFromEnd(numbers: seq<int>, pivots: seq<int>, start: nat)
    requires start <= |numbers|
    ensures SplitFrom(numbers, pivots, start, |pivots|) == [numbers[start..]]
  {
  }

  /** The inner loop of `split_numbers`. */
  method NumbersBelow(numbers: seq<int>, pivot: int) returns (partition: seq<int>)
    ensures partition == PrefixBelow(numbers, pivot)
  {
    partition := [];
    for i := 0 to |numbers|
      invariant partition == numbers[..i]
      invariant forall k :: 0 <= k < i ==> numbers[k] < pivot
    {
      if numbers[i] < pivot {
        partition := partition + [numbers[i]];
      } else {
        break;
      }
    }
    PrefixBelowIs(numbers, pivot);
  }

  /** Nothing is lost or reordered, whatever the numbers and pivots. */
  lemma {:induction false} SplitConcat(numbers: seq<int>, pivots: seq<int>)
    ensures Concat(Split(numbers, pivots)) == numbers
    decreases pivots
  {
    if pivots == [] {
      ConcatOne(numbers);
    } else {
      var p := PrefixBelow(numbers, pivots[0]);
      PrefixBelowIs(numbers, pivots[0]);
      if |p| >= |numbers| {
        ConcatCons(p, [[]]);
        ConcatOne<int>([]);
      } else {
        SplitConcat(numbers[|p|..], pivots[1..]);
        ConcatCons(p, Split(numbers[|p|..], pivots[1..]));
      }
    }
  }

  lemma {:induction false} AllInBucketZero(numbers: seq<int>, pivots: seq<int>, j: nat)
    requires pivots != [] && forall i :: 0 <= i < |numbers| ==> numbers[i] < pivots[0]
    ensures InBucket(numbers, pivots, j) == if j == 0 then numbers else []
  {
    if numbers != [] {
      AllInBucketZero(numbers[1..], pivots, j);
    }
  }

  lemma {:induction false} BucketsShift(numbers: seq<int>, pivots: seq<int>, j: nat)
    requires pivots != [] && forall i :: 0 <= i < |numbers| ==> numbers[i] >= pivots[0]
    ensures InBucket(numbers, pivots, j) == if j == 0 then [] else InBucket(numbers, pivots[1..], j - 1)
  {
    if numbers != [] {
      BucketsShift(numbers[1..], pivots, j);
    }
  }

  lemma {:induction false} OneBucket(numbers: seq<int>, j: nat)
    ensures InBucket(numbers, [], j) == if j == 0 then numbers else []
  {
    if numbers != [] {
      OneBucket(numbers[1..], j);
    }
  }

  lemma SortedSuffix(s: seq<int>, k: nat)
    requires Sorted(s) && k <= |s|
    ensures Sorted(s[k..])
  {
    forall i, j | 0 <= i < j < |s[k..]|
      ensures s[k..][i] <= s[k..][j]
    {
      assert s[k..][i] == s[k + i] && s[k..][j] == s[k + j];
    }
  }

  lemma BucketsOfSplit(numbers: seq<int>, pivots: seq<int>, k: nat, j: nat)
    requires pivots != [] && k <= |numbers|
    requires Sorted(numbers)
    requires forall i :: 0 <= i < k ==> numbers[i] < pivots[0]
    requires k < |numbers| ==> numbers[k] >= pivots[0]
    ensures InBucket(numbers, pivots, j)
         == if j == 0 then numbers[..k] else InBucket(numbers[k..], pivots[1..], j - 1)
  {
    assert numbers == numbers[..k] + numbers[k..];
    InBucketAppend(numbers[..k], numbers[k..], pivots, j);
    AllInBucketZero(numbers[..k], pivots, j);
    BucketsShift(numbers[k..], pivots, j);
  }

  /** On sorted numbers, part `j` of the Rust splitter is bucket `j` of the C++ classifier,
      and a part that is missing because of the early exit is an empty bucket. */
  lemma {:induction false} SplitIsBuckets(numbers: seq<int>, pivots: seq<int>, j: nat)
    requires Sorted(numbers)
    ensures InBucket(numbers, pivots, j)
         == if j < |Split(numbers, pivots)| then Split(numbers, pivots)[j] else []
    decreases pivots
  {
    hide Split, InBucket, PrefixBelow, Sorted;
    SplitStep(numbers, pivots);
    if pivots == [] {
      OneBucket(numbers, j);
    } else {
      var p := PrefixBelow(numbers, pivots[0]);
      var rest := numbers[|p|..];
      SortedSuffix(numbers, |p|);
      PrefixBelowIs(numbers, pivots[0]);
      BucketsOfSplit(numbers, pivots, |p|, j);
      if |p| == |numbers| {
        InBucketOfNone(rest, pivots[1..], if j > 0 then j - 1 else 0);
      } else if j > 0 {
        SplitIsBuckets(rest, pivots[1..], j - 1);
      }
    }
  }

  lemma SplitStep(numbers: seq<int>, pivots: seq<int>)
    ensures Split(numbers, pivots) ==
      if pivots == [] then [numbers]
      else
        var p := PrefixBelow(numbers, pivots[0]);
        if |p| == |numbers| then [p] + [[]] else [p] + Split(numbers[|p|..], pivots[1..])
  {
    hide PrefixBelow;
  }

  lemma InBucketOfNone(numbers: seq<int>, pivots: seq<int>, j: nat)
    requires numbers == []
    ensures InBucket(numbers, pivots, j) == []
  {
  }

  lemma PartCountStep(numbers: seq<int>, pivots: seq<int>)
    ensures |Split(numbers, pivots)| ==
      if pivots == [] then 1
      else
        var n := |PrefixBelow(numbers, pivots[0])|;
        if n == |numbers| then 2 else 1 + |Split(numbers[n..], pivots[1..])|
  {
    hide PrefixBelow;
  }

  lemma BucketStep(x: int, pivots: seq<int>)
    ensures Bucket(x, pivots) == if pivots == [] || x < pivots[0] then 0 else 1 + Bucket(x, pivots[1..])
  {
  }

  /** How many parts the Rust splitter makes. */
  lemma {:induction false} PartCount(numbers: seq<int>, pivots: seq<int>)
    requires Sorted(numbers)
    ensures |Split(numbers, pivots)| ==
      if pivots == [] then 1
      else if numbers == [] then 2
      else 1 + Min(|pivots|, 1 + Bucket(numbers[|numbers| - 1], pivots))
    decreases pivots
  {
    hide Split, Bucket, PrefixBelow;
    PartCountStep(numbers, pivots);
    if pivots != [] && numbers != [] {
      var n, last := |PrefixBelow(numbers, pivots[0])|, numbers[|numbers| - 1];
      PrefixBelowIs(numbers, pivots[0]);
      BucketStep(last, pivots);
      if n < |numbers| {
        var rest := numbers[n..];
        SortedSuffix(numbers, n);
        assert rest[|rest| - 1] == last >= numbers[n] >= pivots[0];
        hide Sorted;
        PartCount(rest, pivots[1..]);
      }
    }
  }

  /** All `|pivots| + 1` parts exist exactly when there are fewer than two pivots or the last
      number reaches the second-to-last pivot. */
  lemma AllPartsIff(numbers: seq<int>, pivots: seq<int>)
    requires Sorted(numbers) && Sorted(pivots)
    ensures |Split(numbers, pivots)| == |pivots| + 1 <==> AllParts(numbers, pivots)
    ensures |Split(numbers, pivots)| <= |pivots| + 1
  {
    PartCount(numbers, pivots);
    if numbers != [] && |pivots| >= 2 {
      var x := numbers[|numbers| - 1];
      BucketInterval(x, pivots, Bucket(x, pivots));
    }
  }

  predicate AllParts(numbers: seq<int>, pivots: seq<int>) {
    |pivots| < 2 || (numbers != [] && numbers[|numbers| - 1] >= pivots[|pivots| - 2])
  }
}
