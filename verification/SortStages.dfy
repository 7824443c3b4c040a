/** The stages of the parallel sort on plain values: what the sorter, the splitters, the
    mergers and the checker compute together. */
module SortStages {
  import opened Sequences
  import opened Splitting
  import opened LinearMerge
  import opened Options

  // ---------- the sorter ----------

  /** One comma-separated field of the input text, after trimming. */
  datatype Field = Blank | Number(n: u32) | Malformed

  /** The numbers before the first malformed field. */
  function Numbers(fields: seq<Field>): seq<int> {
    if fields == [] || fields[0].Malformed? then []
    else if fields[0].Blank? then Numbers(fields[1..])
    else [fields[0].n] + Numbers(fields[1..])
  }

  predicate WellFormed(fields: seq<Field>) {
    forall i :: 0 <= i < |fields| ==> !fields[i].Malformed?
  }

  lemma {:induction false} NumbersAppend(a: seq<Field>, b: seq<Field>)
    requires WellFormed(a)
    ensures Numbers(a + b) == Numbers(a) + Numbers(b)
  {
    if a == [] {
      assert a + b == b;
    } else {
      NumbersAppend(a[1..], b);
      assert (a + b)[1..] == a[1..] + b;
    }
  }

  /** The positions of the numbers among the first `i` fields. */
  function NumberPositions(fields: seq<Field>, i: nat): set<nat>
    requires i <= |fields|
  {
    set k: nat | k < i && fields[k].Number?
  }

  /** `numbers` lists the number fields in order: the field at `i` is found after as many
      numbers as there are number fields before it. */
  ghost predicate ListsNumbers(fields: seq<Field>, numbers: seq<int>) {
    && |numbers| == |NumberPositions(fields, |fields|)|
    && forall i :: 0 <= i < |fields| && fields[i].Number? ==>
         var k := |NumberPositions(fields, i)|;
         k < |numbers| && numbers[k] == fields[i].n
  }

  lemma PositionsSnoc(fields: seq<Field>, f: Field)
    ensures var more := fields + [f];
      && (forall i: nat :: i <= |fields| ==> NumberPositions(more, i) == NumberPositions(fields, i))
      && |NumberPositions(more, |more|)| == |NumberPositions(fields, |fields|)| + if f.Number? then 1 else 0
  {
    var n, more := |fields|, fields + [f];
    forall i: nat | i <= n
      ensures NumberPositions(more, i) == NumberPositions(fields, i)
    {
      assert forall k :: 0 <= k < i ==> more[k] == fields[k];
    }
    assert NumberPositions(more, n + 1) == NumberPositions(fields, n) + if f.Number? then {n} else {};
  }

  lemma ListsSnoc(fields: seq<Field>, numbers: seq<int>, f: Field)
    requires ListsNumbers(fields, numbers)
    ensures ListsNumbers(fields + [f], if f.Number? then numbers + [f.n] else numbers)
  {
    hide NumberPositions;
    PositionsSnoc(fields, f);
    var more, longer := fields + [f], if f.Number? then numbers + [f.n] else numbers;
    forall i | 0 <= i < |more| && more[i].Number?
      ensures var k := |NumberPositions(more, i)|; k < |longer| && longer[k] == more[i].n
    {
      assert i < |fields| ==> more[i] == fields[i];
    }
  }

  /** The parsed numbers are the number fields, in order. */
  lemma {:induction false} NumbersAreFields(fields: seq<Field>)
    requires WellFormed(fields)
    ensures ListsNumbers(fields, Numbers(fields))
    decreases |fields|
  {
    if fields == [] {
      assert NumberPositions(fields, 0) == {};
    } else {
      var before, f := fields[..|fields| - 1], fields[|fields| - 1];
      assert fields == before + [f];
      NumbersAreFields(before);
      NumbersAppend(before, [f]);
      OneField(f);
      hide ListsNumbers, Numbers;
      ListsSnoc(before, Numbers(before), f);
      assert Numbers(before) + [] == Numbers(before);
    }
  }

  lemma OneField(f: Field)
    ensures Numbers([f]) == if f.Number? then [f.n] else []
  {
    assert [f][1..] == [];
  }

  /** Every number is parsed as often as it occurs. */
  lemma {:induction false} NumbersCount(fields: seq<Field>, x: u32)
    requires WellFormed(fields)
    ensures multiset(Numbers(fields))[x] == multiset(fields)[Number(x)]
  {
    if fields != [] {
      NumbersCount(fields[1..], x);
      assert fields == [fields[0]] + fields[1..];
    }
  }

  /** What follows a malformed field is not parsed. */
  lemma NumbersStop(before: seq<Field>, rest: seq<Field>)
    requires WellFormed(before) && rest != [] && rest[0].Malformed?
    ensures Numbers(before + rest) == Numbers(before)
  {
    NumbersAppend(before, rest);
  }

  lemma {:induction false} NumbersAreU32(fields: seq<Field>, x: int)
    requires x in multiset(Numbers(fields))
    ensures 0 <= x <= U32_MAX
  {
    if fields[0].Blank? {
      NumbersAreU32(fields[1..], x);
    } else if x != fields[0].n {
      NumbersAreU32(fields[1..], x);
    }
  }

  function PivotIndex(length: nat, mergerNum: nat, i: nat): nat
    requires mergerNum > 0
  {
    (i + 1) * length / mergerNum
  }

  /** Pivot `i` is the element that `(i + 1) / mergerNum` of the elements precede, rounded down. */
  lemma PivotPosition(sorted: seq<int>, mergerNum: nat, i: nat) returns (p: nat)
    requires Pivots(sorted, mergerNum).Some? && i < mergerNum - 1
    ensures p < |sorted| && Pivots(sorted, mergerNum).value[i] == sorted[p]
    ensures mergerNum * p <= (i + 1) * |sorted| < mergerNum * (p + 1)
  {
    p := PivotIndex(|sorted|, mergerNum, i);
    PivotIndexInRange(|sorted|, mergerNum, i);
    DivBounds((i + 1) * |sorted|, mergerNum);
  }

  lemma DivBounds(n: nat, m: nat)
    requires m > 0
    ensures m * (n / m) <= n < m * (n / m + 1)
  {
  }

  lemma PivotIndexInRange(length: nat, mergerNum: nat, i: nat)
    requires length > 0 && i + 1 < mergerNum
    ensures PivotIndex(length, mergerNum, i) < length
  {
    var n := (i + 1) * length;
    var q := n / mergerNum;
    assert q * mergerNum <= n;
    StrictMulMonotone(i + 1, mergerNum, length);
    MulCancel(q, length, mergerNum);
  }

  lemma MulMonotone(a: nat, b: nat, c: nat)
    requires a <= b
    ensures a * c <= b * c
  {
  }

  lemma StrictMulMonotone(a: nat, b: nat, c: nat)
    requires a < b && c > 0
    ensures a * c < b * c
  {
  }

  lemma DivMonotone(a: nat, b: nat, m: nat)
    requires a <= b && m > 0
    ensures a / m <= b / m
  {
    var q, r := a / m, b / m;
    assert q * m <= a && b < r * m + m;
    assert r * m + m == (r + 1) * m;
    MulCancel(q, r + 1, m);
  }

  lemma MulCancel(a: nat, b: nat, c: nat)
    requires c > 0 && a * c < b * c
    ensures a < b
  {
  }

  lemma PivotIndexMonotone(length: nat, mergerNum: nat, i: nat, j: nat)
    requires mergerNum > 0 && i <= j
    ensures PivotIndex(length, mergerNum, i) <= PivotIndex(length, mergerNum, j)
  {
    MulMonotone(i + 1, j + 1, length);
    DivMonotone((i + 1) * length, (j + 1) * length, mergerNum);
  }

  /** Sorter 0's pivots are evenly spaced elements of its sorted numbers; on an empty array
      with more than one merger the indexing fails. */
  function Pivots(sorted: seq<int>, mergerNum: nat): (r: Option<seq<int>>)
    ensures r.Some? <==> mergerNum == 1 || (mergerNum > 1 && sorted != [])
    ensures r.Some? ==> |r.value| == mergerNum - 1
  {
    if mergerNum == 0 || (mergerNum > 1 && sorted == []) then None
    else Some(seq(mergerNum - 1, i requires 0 <= i < mergerNum - 1 =>
                PivotIndexInRange(|sorted|, mergerNum, i); sorted[PivotIndex(|sorted|, mergerNum, i)]))
  }

  lemma PivotsSorted(sorted: seq<int>, mergerNum: nat)
    requires Sorted(sorted) && Pivots(sorted, mergerNum).Some?
    ensures Sorted(Pivots(sorted, mergerNum).value)
    ensures forall x :: x in Pivots(sorted, mergerNum).value ==> x in sorted
  {
    var p := Pivots(sorted, mergerNum).value;
    forall i, j | 0 <= i < j < |p|
      ensures p[i] <= p[j]
    {
      PivotIndexInRange(|sorted|, mergerNum, j);
      PivotIndexMonotone(|sorted|, mergerNum, i, j);
    }
    forall i | 0 <= i < |p|
      ensures p[i] in sorted
    {
      PivotIndexInRange(|sorted|, mergerNum, i);
    }
  }

  // ---------- splitters and mergers together ----------

  /** Bucket `j` of every sorted input: what merger `j` receives. */
  function Column(inputs: seq<seq<int>>, pivots: seq<int>, j: nat): seq<seq<int>> {
    seq(|inputs|, i requires 0 <= i < |inputs| => InBucket(SortOf(inputs[i]), pivots, j))
  }

  function MergedPart(inputs: seq<seq<int>>, pivots: seq<int>, j: nat): seq<int> {
    SortOf(BelowMax(Concat(Column(inputs, pivots, j))))
  }

  /** The first `k` merge results. */
  function MergedParts(inputs: seq<seq<int>>, pivots: seq<int>, k: nat): seq<seq<int>> {
    seq(k, j requires 0 <= j < k => MergedPart(inputs, pivots, j))
  }

  lemma {:induction false} ColumnCount(inputs: seq<seq<int>>, pivots: seq<int>, j: nat, x: int)
    ensures multiset(Concat(Column(inputs, pivots, j)))[x]
         == if Bucket(x, pivots) == j then multiset(Concat(inputs))[x] else 0
  {
    if inputs == [] {
      assert Column(inputs, pivots, j) == [];
    } else {
      var first, rest := InBucket(SortOf(inputs[0]), pivots, j), Column(inputs[1..], pivots, j);
      assert Column(inputs, pivots, j) == [first] + rest;
      ConcatCons(first, rest);
      CountAppend(first, Concat(rest), Concat(Column(inputs, pivots, j)), x);
      CountAppend(inputs[0], Concat(inputs[1..]), Concat(inputs), x);
      InBucketMembers(SortOf(inputs[0]), pivots, j, x);
      ColumnCount(inputs[1..], pivots, j, x);
    }
  }

  lemma MergedPartCount(inputs: seq<seq<int>>, pivots: seq<int>, j: nat, x: int)
    ensures multiset(MergedPart(inputs, pivots, j))[x]
         == if x < U32_MAX && Bucket(x, pivots) == j then multiset(Concat(inputs))[x] else 0
  {
    ColumnCount(inputs, pivots, j, x);
    BelowMaxCount(Concat(Column(inputs, pivots, j)), x);
  }

  lemma MergedPartsSnoc(inputs: seq<seq<int>>, pivots: seq<int>, k: nat)
    ensures Concat(MergedParts(inputs, pivots, k + 1))
         == Concat(MergedParts(inputs, pivots, k)) + MergedPart(inputs, pivots, k)
  {
    hide MergedPart;
    assert MergedParts(inputs, pivots, k + 1) == MergedParts(inputs, pivots, k) + [MergedPart(inputs, pivots, k)];
    ConcatSnoc(MergedParts(inputs, pivots, k), MergedPart(inputs, pivots, k));
  }

  lemma MergedPartsCount(inputs: seq<seq<int>>, pivots: seq<int>, k: nat, x: int)
    ensures multiset(Concat(MergedParts(inputs, pivots, k)))[x]
         == if x < U32_MAX && Bucket(x, pivots) < k then multiset(Concat(inputs))[x] else 0
  {
    var b := if x < U32_MAX then Bucket(x, pivots) else k;
    forall j | 0 <= j < k
      ensures multiset(MergedPart(inputs, pivots, j))[x] == if j == b then multiset(Concat(inputs))[x] else 0
    {
      MergedPartCount(inputs, pivots, j, x);
    }
    CountInOnePart(MergedParts(inputs, pivots, k), b, multiset(Concat(inputs))[x], x);
  }

  /** Elements of earlier buckets come before elements of later ones. */
  lemma PartAfterEarlierParts(inputs: seq<seq<int>>, pivots: seq<int>, k: nat)
    ensures AllLeq(multiset(Concat(MergedParts(inputs, pivots, k))), multiset(MergedPart(inputs, pivots, k)))
  {
    forall x, y | x in multiset(Concat(MergedParts(inputs, pivots, k))) && y in multiset(MergedPart(inputs, pivots, k))
      ensures x <= y
    {
      MergedPartsCount(inputs, pivots, k, x);
      MergedPartCount(inputs, pivots, k, y);
      if y < x {
        BucketMonotone(y, x, pivots);
      }
    }
  }

  lemma NoMergedParts(inputs: seq<seq<int>>, pivots: seq<int>)
    ensures Sorted(Concat(MergedParts(inputs, pivots, 0)))
  {
    assert MergedParts(inputs, pivots, 0) == [];
  }

  lemma MergedPartSorted(inputs: seq<seq<int>>, pivots: seq<int>, k: nat)
    ensures Sorted(MergedPart(inputs, pivots, k))
  {
  }

  lemma {:induction false} MergedPartsSorted(inputs: seq<seq<int>>, pivots: seq<int>, k: nat)
    ensures Sorted(Concat(MergedParts(inputs, pivots, k)))
  {
    hide Concat, MergedPart, MergedParts, Sorted;
    if k == 0 {
      NoMergedParts(inputs, pivots);
    } else {
      MergedPartSorted(inputs, pivots, k - 1);
      MergedPartsSnoc(inputs, pivots, k - 1);
      MergedPartsSorted(inputs, pivots, k - 1);
      PartAfterEarlierParts(inputs, pivots, k - 1);
      SortedAppend(Concat(MergedParts(inputs, pivots, k - 1)), MergedPart(inputs, pivots, k - 1));
    }
  }

  /** The merge results in order are the sorted permutation of all the inputs, less the
      elements equal to `u32::MAX`. */
  lemma PartsAreSortedInputs(inputs: seq<seq<int>>, pivots: seq<int>)
    ensures Concat(MergedParts(inputs, pivots, |pivots| + 1)) == SortOf(BelowMax(Concat(inputs)))
  {
    var out, all := Concat(MergedParts(inputs, pivots, |pivots| + 1)), Concat(inputs);
    MergedPartsSorted(inputs, pivots, |pivots| + 1);
    forall x
      ensures multiset(out)[x] == multiset(BelowMax(all))[x]
    {
      MergedPartsCount(inputs, pivots, |pivots| + 1, x);
      BelowMaxCount(all, x);
    }
    SortOfIs(BelowMax(all), out);
  }

  // ---------- the checker ----------

  /** First elements of non-empty parts do not decrease. */
  ghost predicate FirstsOrdered(arrays: seq<seq<int>>) {
    forall i, j :: 0 <= i < j < |arrays| && arrays[i] != [] && arrays[j] != [] ==> arrays[i][0] <= arrays[j][0]
  }

  /** No part overlaps a later one. */
  ghost predicate NoOverlap(arrays: seq<seq<int>>) {
    forall i, j :: 0 <= i < j < |arrays| && arrays[i] != [] && arrays[j] != [] ==>
      arrays[i][|arrays[i]| - 1] <= arrays[j][0]
  }

  method IsSorted(s: seq<int>) returns (b: bool)
    ensures b <==> Sorted(s)
  {
    for i := 0 to |s|
      invariant forall k, l :: 0 <= k < l < i ==> s[k] <= s[l]
    {
      if i > 0 && s[i - 1] > s[i] {
        return false;
      }
    }
    return true;
  }

  lemma NoElements(arrays: seq<seq<int>>)
    ensures Concat(arrays[..0]) == []
  {
  }

  /** The checker's loop. It compares the first element of a part with the first element of
      the previous non-empty part, not with its last. */
  method Check(arrays: seq<seq<u32>>) returns (ok: bool, counter: nat)
    ensures ok <==> AllSorted(arrays) && FirstsOrdered(arrays)
    ensures ok ==> counter == |Concat<int>(arrays)|
  {
    hide Concat, Sorted;
    var lastMax: u32 := 0;
    counter := 0;
    NoElements(arrays);
    for i := 0 to |arrays|
      invariant counter == |Concat<int>(arrays[..i])|
      invariant forall k :: 0 <= k < i ==> Sorted(arrays[k])
      invariant forall k :: 0 <= k < i && arrays[k] != [] ==> arrays[k][0] <= lastMax
      invariant lastMax == 0 || exists k :: 0 <= k < i && arrays[k] != [] && arrays[k][0] == lastMax
      invariant forall k, l :: 0 <= k < l < i && arrays[k] != [] && arrays[l] != [] ==> arrays[k][0] <= arrays[l][0]
    {
      assert arrays[..i + 1] == arrays[..i] + [arrays[i]];
      ConcatSnoc<int>(arrays[..i], arrays[i]);
      counter := counter + |arrays[i]|;
      var sorted := IsSorted(arrays[i]);
      if !sorted {
        ok := false;
        return;
      }
      if arrays[i] != [] {
        if arrays[i][0] < lastMax {
          ok := false;
          return;
        }
        lastMax := arrays[i][0];
      }
    }
    ok := true;
    assert arrays[..|arrays|] == arrays;
  }

  lemma {:induction false} PartInConcat(arrays: seq<seq<int>>, i: nat, p: nat) returns (q: nat)
    requires i < |arrays| && p < |arrays[i]|
    ensures q < |Concat(arrays)| && Concat(arrays)[q] == arrays[i][p]
    ensures q == |Concat(arrays[..i])| + p
  {
    if i == 0 {
      q := p;
    } else {
      q := PartInConcat(arrays[1..], i - 1, p);
      assert arrays[..i] == [arrays[0]] + arrays[1..][..i - 1];
      ConcatCons(arrays[0], arrays[1..][..i - 1]);
      q := |arrays[0]| + q;
    }
  }

  lemma {:induction false} PrefixLength(arrays: seq<seq<int>>, i: nat, j: nat)
    requires i < j <= |arrays|
    ensures |Concat(arrays[..i])| + |arrays[i]| <= |Concat(arrays[..j])|
    decreases j
  {
    assert arrays[..j] == arrays[..j - 1] + [arrays[j - 1]];
    ConcatSnoc(arrays[..j - 1], arrays[j - 1]);
    if i < j - 1 {
      PrefixLength(arrays, i, j - 1);
    }
  }

  /** The checker accepts every correctly sorted result. */
  lemma CheckerComplete(arrays: seq<seq<int>>)
    requires Sorted(Concat(arrays))
    ensures AllSorted(arrays) && FirstsOrdered(arrays) && NoOverlap(arrays)
  {
    forall i | 0 <= i < |arrays|
      ensures Sorted(arrays[i])
    {
      forall p, q | 0 <= p < q < |arrays[i]|
        ensures arrays[i][p] <= arrays[i][q]
      {
        var a := PartInConcat(arrays, i, p);
        var b := PartInConcat(arrays, i, q);
      }
    }
    forall i, j | 0 <= i < j < |arrays| && arrays[i] != [] && arrays[j] != []
      ensures arrays[i][0] <= arrays[j][0] && arrays[i][|arrays[i]| - 1] <= arrays[j][0]
    {
      var a := PartInConcat(arrays, i, 0);
      var c := PartInConcat(arrays, i, |arrays[i]| - 1);
      var b := PartInConcat(arrays, j, 0);
      PrefixLength(arrays, i, j);
    }
  }

  lemma {:induction false} NoOverlapSorts(arrays: seq<seq<int>>)
    requires AllSorted(arrays) && NoOverlap(arrays)
    ensures Sorted(Concat(arrays))
    decreases |arrays|
  {
    if arrays != [] {
      var n := |arrays| - 1;
      var before, last := arrays[..n], arrays[n];
      assert arrays == before + [last];
      ConcatSnoc(before, last);
      assert NoOverlap(before);
      NoOverlapSorts(before);
      LastPartIsLast(arrays);
      SortedAppend(Concat(before), last);
    }
  }

  lemma LastPartIsLast(arrays: seq<seq<int>>)
    requires AllSorted(arrays) && NoOverlap(arrays) && arrays != []
    ensures AllLeq(multiset(Concat(arrays[..|arrays| - 1])), multiset(arrays[|arrays| - 1]))
  {
    hide Concat, Sorted, NoOverlap;
    var n := |arrays| - 1;
    forall x, y | x in multiset(Concat(arrays[..n])) && y in multiset(arrays[n])
      ensures x <= y
    {
      var i, p := InSomePart(arrays[..n], x);
      assert arrays[..n][i] == arrays[i];
      EarlierIsLess(arrays, i, p, n, y);
    }
  }

  lemma EarlierIsLess(arrays: seq<seq<int>>, i: nat, p: nat, n: nat, y: int)
    requires AllSorted(arrays) && NoOverlap(arrays) && i < n < |arrays|
    requires p < |arrays[i]| && y in multiset(arrays[n])
    ensures arrays[i][p] <= y
  {
    HeadIsLeast(arrays[n], y);
    assert Sorted(arrays[i]);
    assert arrays[i][p] <= arrays[i][|arrays[i]| - 1] <= arrays[n][0];
  }

  lemma {:induction false} InSomePart(arrays: seq<seq<int>>, x: int) returns (i: nat, p: nat)
    requires x in multiset(Concat(arrays))
    ensures i < |arrays| && p < |arrays[i]| && arrays[i][p] == x
  {
    if x in arrays[0] {
      i := 0;
      p :| 0 <= p < |arrays[0]| && arrays[0][p] == x;
    } else {
      i, p := InSomePart(arrays[1..], x);
      i := i + 1;
    }
  }

  /** An accepted result is sorted exactly when no part overlaps a later one. */
  lemma CheckerSoundIff(arrays: seq<seq<int>>)
    requires AllSorted(arrays) && FirstsOrdered(arrays)
    ensures Sorted(Concat(arrays)) <==> NoOverlap(arrays)
  {
    if NoOverlap(arrays) {
      NoOverlapSorts(arrays);
    }
    if Sorted(Concat(arrays)) {
      CheckerComplete(arrays);
    }
  }

  /** A result the checker accepts although it is not sorted. */
  lemma CheckerAcceptsOverlap()
    ensures AllSorted([[1, 5], [2]]) && FirstsOrdered([[1, 5], [2]])
    ensures !Sorted(Concat([[1, 5], [2]]))
  {
    ConcatCons([1, 5], [[2]]);
    ConcatOne([2]);
    var c := Concat([[1, 5], [2]]);
    assert [[1, 5]] + [[2]] == [[1, 5], [2]];
    assert c[1] == 5 && c[2] == 2;
  }
}
