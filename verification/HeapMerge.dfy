/** The C++ merger: a k-way merge that keeps the front element of every unfinished array in
    a binary min-heap stored in an array. */
module HeapMerge {
  import opened Sequences
  import opened KWayMerge

  datatype HeapNode = HeapNode(value: int, arrayIndex: nat, elementIndex: nat)

  /** Node `i` is no larger than its children. */
  ghost predicate HeapAt(h: seq<HeapNode>, i: nat)
    requires i < |h|
  {
    && (2 * i + 1 < |h| ==> h[i].value <= h[2 * i + 1].value)
    && (2 * i + 2 < |h| ==> h[i].value <= h[2 * i + 2].value)
  }

  /** The heap order holds at every node from `lo` on. */
  ghost predicate HeapFrom(h: seq<HeapNode>, lo: nat) {
    forall i :: lo <= i < |h| ==> HeapAt(h, i)
  }

  /** The heap order holds from `lo` on except that node `index` may be too large; its
      children are still no smaller than its parent. */
  ghost predicate HeapExcept(h: seq<HeapNode>, lo: nat, index: nat) {
    && (forall i :: lo <= i < |h| && i != index ==> HeapAt(h, i))
    && (0 < index < |h| && lo <= (index - 1) / 2 ==>
          var p := h[(index - 1) / 2].value;
          && (2 * index + 1 < |h| ==> p <= h[2 * index + 1].value)
          && (2 * index + 2 < |h| ==> p <= h[2 * index + 2].value))
  }

  ghost function Swap(h: seq<HeapNode>, i: nat, j: nat): (r: seq<HeapNode>)
    requires i < |h| && j < |h|
    ensures |r| == |h|
    ensures multiset(r) == multiset(h)
  {
    h[i := h[j]][j := h[i]]
  }

  ghost predicate IsLeastChild(h: seq<HeapNode>, index: nat, c: nat)
    requires index < |h| && c < |h|
  {
    && (c == 2 * index + 1 || c == 2 * index + 2)
    && h[c].value < h[index].value
    && (2 * index + 1 < |h| ==> h[c].value <= h[2 * index + 1].value)
    && (2 * index + 2 < |h| ==> h[c].value <= h[2 * index + 2].value)
  }

  /** Swapping the violating node with its least child moves the violation one level down. */
  lemma SwapMovesViolation(h: seq<HeapNode>, lo: nat, index: nat, c: nat)
    requires lo <= index < |h| && c < |h|
    requires HeapExcept(h, lo, index)
    requires IsLeastChild(h, index, c)
    ensures HeapExcept(Swap(h, index, c), lo, c)
  {
    var r := Swap(h, index, c);
    assert HeapAt(h, c);
    forall i | lo <= i < |r| && i != c
      ensures HeapAt(r, i)
    {
      if i != index {
        assert HeapAt(h, i);
      }
    }
    assert (c - 1) / 2 == index;
  }

  lemma NoViolation(h: seq<HeapNode>, lo: nat, index: nat)
    requires HeapExcept(h, lo, index)
    requires index < |h| ==> HeapAt(h, index)
    ensures HeapFrom(h, lo)
  {
  }

  /** The sift-down: recursive, in place, and only inside the first `heapSize` cells. */
  method HeapifyDown(minHeap: array<HeapNode>, heapSize: nat, index: nat, ghost lo: nat)
    requires heapSize <= minHeap.Length
    requires lo <= index
    requires HeapExcept(minHeap[..heapSize], lo, index)
    modifies minHeap
    ensures HeapFrom(minHeap[..heapSize], lo)
    ensures multiset(minHeap[..heapSize]) == multiset(old(minHeap[..heapSize]))
    ensures minHeap[heapSize..] == old(minHeap[heapSize..])
    decreases heapSize - index
  {
    ghost var h := minHeap[..heapSize];
    var smallest := index;
    var left := 2 * index + 1;
    var right := 2 * index + 2;
    if left < heapSize && minHeap[left].value < minHeap[smallest].value {
      smallest := left;
    }
    if right < heapSize && minHeap[right].value < minHeap[smallest].value {
      smallest := right;
    }
    if smallest != index {
      assert IsLeastChild(h, index, smallest);
      SwapMovesViolation(h, lo, index, smallest);
      var temp := minHeap[index];
      minHeap[index] := minHeap[smallest];
      minHeap[smallest] := temp;
      assert minHeap[..heapSize] == Swap(h, index, smallest);
      HeapifyDown(minHeap, heapSize, smallest, lo);
    } else {
      NoViolation(h, lo, index);
    }
  }

  lemma {:induction false} RootIsLeast(h: seq<HeapNode>, k: nat)
    requires HeapFrom(h, 0) && k < |h|
    ensures h[0].value <= h[k].value
    decreases k
  {
    if k > 0 {
      RootIsLeast(h, (k - 1) / 2);
      assert HeapAt(h, (k - 1) / 2);
    }
  }

  /** The node an array contributes to the heap: its front element, if it has one left. */
  ghost function HeadOf(arrays: seq<seq<int>>, i: nat, p: nat): multiset<HeapNode>
    requires i < |arrays|
  {
    if p < |arrays[i]| then multiset{HeapNode(arrays[i][p], i, p)} else multiset{}
  }

  /** The front elements of the unfinished arrays among the first `k`. */
  ghost function Heads(arrays: seq<seq<int>>, pos: seq<nat>, k: nat): multiset<HeapNode>
    requires Positions(arrays, pos) && k <= |arrays|
  {
    if k == 0 then multiset{}
    else Heads(arrays, pos, k - 1) + HeadOf(arrays, k - 1, pos[k - 1])
  }

  lemma HeadOfMember(arrays: seq<seq<int>>, i: nat, p: nat, x: HeapNode)
    requires i < |arrays|
    ensures x in HeadOf(arrays, i, p) ==> x.arrayIndex == i
  {
  }

  lemma {:induction false} HeadsMember(arrays: seq<seq<int>>, pos: seq<nat>, k: nat, x: HeapNode)
    requires Positions(arrays, pos) && k <= |arrays|
    ensures x in Heads(arrays, pos, k) <==>
              x.arrayIndex < k && x in HeadOf(arrays, x.arrayIndex, pos[x.arrayIndex])
  {
    hide Heads, HeadOf;
    if k == 0 {
      NoHeads(arrays, pos);
    } else {
      HeadsMember(arrays, pos, k - 1, x);
      HeadsSnoc(arrays, pos, k);
      HeadOfMember(arrays, k - 1, pos[k - 1], x);
    }
  }

  lemma {:induction false} HeadsFrame(arrays: seq<seq<int>>, pos: seq<nat>, pos': seq<nat>, k: nat)
    requires Positions(arrays, pos) && Positions(arrays, pos') && k <= |arrays|
    requires pos[..k] == pos'[..k]
    ensures Heads(arrays, pos, k) == Heads(arrays, pos', k)
  {
    if k > 0 {
      assert pos[..k - 1] == pos[..k][..k - 1] && pos'[..k - 1] == pos'[..k][..k - 1];
      HeadsFrame(arrays, pos, pos', k - 1);
      assert pos[k - 1] == pos[..k][k - 1] && pos'[k - 1] == pos'[..k][k - 1];
    }
  }

  /** Consuming the front of array `i` exchanges its node for the next one, if any. */
  lemma {:induction false} HeadsAdvance(arrays: seq<seq<int>>, pos: seq<nat>, pos': seq<nat>, k: nat, i: nat)
    requires Positions(arrays, pos) && Positions(arrays, pos')
    requires i < k <= |arrays| && pos' == pos[i := pos[i] + 1]
    ensures Heads(arrays, pos', k) + HeadOf(arrays, i, pos[i])
         == Heads(arrays, pos, k) + HeadOf(arrays, i, pos[i] + 1)
  {
    hide HeadOf, Heads;
    var was, next := HeadOf(arrays, i, pos[i]), HeadOf(arrays, i, pos[i] + 1);
    HeadsSnoc(arrays, pos, k);
    HeadsSnoc(arrays, pos', k);
    if i == k - 1 {
      HeadsFrame(arrays, pos, pos', i);
      Commute(Heads(arrays, pos, i), was, next);
    } else {
      HeadsAdvance(arrays, pos, pos', k - 1, i);
      var last := HeadOf(arrays, k - 1, pos[k - 1]);
      Regroup(Heads(arrays, pos', k - 1), was, Heads(arrays, pos, k - 1), next, last);
    }
  }

  lemma HeadsSnoc(arrays: seq<seq<int>>, pos: seq<nat>, k: nat)
    requires Positions(arrays, pos) && 0 < k <= |arrays|
    ensures Heads(arrays, pos, k) == Heads(arrays, pos, k - 1) + HeadOf(arrays, k - 1, pos[k - 1])
  {
    hide HeadOf;
  }

  lemma Commute<T>(a: multiset<T>, x: multiset<T>, y: multiset<T>)
    ensures a + x + y == a + y + x
  {
  }

  lemma Regroup<T>(a: multiset<T>, x: multiset<T>, b: multiset<T>, y: multiset<T>, c: multiset<T>)
    requires a + x == b + y
    ensures a + c + x == b + c + y
  {
    assert a + c + x == (a + x) + c;
  }

  lemma Exchange(a: multiset<HeapNode>, x: multiset<HeapNode>, b: multiset<HeapNode>, y: multiset<HeapNode>)
    requires a + x == b + y && x <= b
    ensures a == b - x + y
  {
    forall e: HeapNode
      ensures a[e] == (b - x + y)[e]
    {
      assert (a + x)[e] == (b + y)[e];
    }
  }

  /** The heap holds exactly the front elements of the unfinished arrays, in heap order. */
  ghost predicate HeapInvariant(arrays: seq<seq<int>>, pos: seq<nat>, h: seq<HeapNode>)
    requires Positions(arrays, pos)
  {
    && HeapFrom(h, 0)
    && multiset(h) == Heads(arrays, pos, |arrays|)
  }

  /** The root is a front element, and no front element is smaller. */
  lemma RootIsLeastHead(arrays: seq<seq<int>>, pos: seq<nat>, h: seq<HeapNode>)
    requires Positions(arrays, pos)
    requires HeapInvariant(arrays, pos, h)
    requires h != []
    ensures var i := h[0].arrayIndex;
      && i < |arrays| && pos[i] < |arrays[i]|
      && h[0] == HeapNode(arrays[i][pos[i]], i, pos[i])
      && BelowHeads(arrays, pos, h[0].value)
  {
    assert h[0] in multiset(h);
    HeadsMember(arrays, pos, |arrays|, h[0]);
    forall j | 0 <= j < |arrays| && pos[j] < |arrays[j]|
      ensures h[0].value <= arrays[j][pos[j]]
    {
      var x := HeapNode(arrays[j][pos[j]], j, pos[j]);
      HeadsMember(arrays, pos, |arrays|, x);
      assert x in multiset(h);
      var k :| 0 <= k < |h| && h[k] == x;
      RootIsLeast(h, k);
    }
  }

  lemma EmptyHeapMeansDone(arrays: seq<seq<int>>, pos: seq<nat>)
    requires Positions(arrays, pos)
    requires HeapInvariant(arrays, pos, [])
    ensures forall j :: 0 <= j < |arrays| ==> pos[j] == |arrays[j]|
  {
    forall j | 0 <= j < |arrays|
      ensures pos[j] == |arrays[j]|
    {
      if pos[j] < |arrays[j]| {
        HeadsMember(arrays, pos, |arrays|, HeapNode(arrays[j][pos[j]], j, pos[j]));
      }
    }
  }

  /** Overwriting the root leaves only the root out of order. */
  lemma ReplaceRoot(h: seq<HeapNode>, x: HeapNode)
    requires HeapFrom(h, 0) && h != []
    ensures HeapExcept(h[0 := x], 0, 0)
    ensures multiset(h[0 := x]) == multiset(h) - multiset{h[0]} + multiset{x}
  {
    var g := h[0 := x];
    forall i | 0 <= i < |g| && i != 0
      ensures HeapAt(g, i)
    {
      assert HeapAt(h, i);
    }
  }

  /** Moving the last node to the root and shrinking removes the root. */
  lemma DropRoot(h: seq<HeapNode>)
    requires HeapFrom(h, 0) && h != []
    ensures var n := |h| - 1;
      && HeapExcept(h[0 := h[n]][..n], 0, 0)
      && multiset(h[0 := h[n]][..n]) == multiset(h) - multiset{h[0]}
  {
    var n := |h| - 1;
    var g := h[0 := h[n]];
    ReplaceRoot(h, h[n]);
    LastDropped(g, h[n], multiset(h) - multiset{h[0]});
    forall i | 0 < i < n
      ensures HeapAt(g[..n], i)
    {
      assert HeapAt(g, i);
    }
  }

  lemma LastDropped(g: seq<HeapNode>, last: HeapNode, rest: multiset<HeapNode>)
    requires g != [] && g[|g| - 1] == last && multiset(g) == rest + multiset{last}
    ensures multiset(g[..|g| - 1]) == rest
  {
    var front := g[..|g| - 1];
    assert g == front + [last];
    assert multiset(g) == multiset(front) + multiset{last};
    assert multiset(front) == multiset(g) - multiset{last} && rest == multiset(g) - multiset{last};
  }

  /** Integer division of C: the quotient is truncated toward zero. */
  function TruncatedHalf(x: int): int {
    if x >= 0 then x / 2 else -(-x / 2)
  }

  ghost predicate NodesAre(h: seq<HeapNode>, nodes: multiset<HeapNode>) {
    multiset(h) == nodes
  }

  /** Collect the front element of every non-empty array. */
  method CollectHeads(arrays: seq<seq<int>>, minHeap: array<HeapNode>, ghost pos: seq<nat>) returns (heapSize: nat)
    requires minHeap.Length == |arrays|
    requires |pos| == |arrays| && forall i :: 0 <= i < |pos| ==> pos[i] == 0
    modifies minHeap
    ensures heapSize <= minHeap.Length
    ensures NodesAre(minHeap[..heapSize], Heads(arrays, pos, |arrays|))
  {
    heapSize := 0;
    NoHeads(arrays, pos);
    assert NodesAre(minHeap[..0], Heads(arrays, pos, 0));
    hide Heads, HeadOf, NodesAre;
    for i := 0 to |arrays|
      invariant heapSize <= i
      invariant NodesAre(minHeap[..heapSize], Heads(arrays, pos, i))
    {
      HeadsSnoc(arrays, pos, i + 1);
      heapSize := CollectHead(arrays, minHeap, heapSize, i, Heads(arrays, pos, i));
    }
  }

  /** The body of the loop: add the front element of array `i`, if it has one. */
  method CollectHead(arrays: seq<seq<int>>, minHeap: array<HeapNode>, size: nat, i: nat,
      ghost nodes: multiset<HeapNode>)
      returns (heapSize: nat)
    requires size < minHeap.Length && i < |arrays| && NodesAre(minHeap[..size], nodes)
    modifies minHeap
    ensures heapSize <= size + 1
    ensures NodesAre(minHeap[..heapSize], nodes + HeadOf(arrays, i, 0))
  {
    heapSize := size;
    if |arrays[i]| > 0 {
      ghost var before := minHeap[..heapSize];
      minHeap[heapSize] := HeapNode(arrays[i][0], i, 0);
      heapSize := heapSize + 1;
      assert minHeap[..heapSize] == before + [HeapNode(arrays[i][0], i, 0)];
    }
  }

  lemma NoHeads(arrays: seq<seq<int>>, pos: seq<nat>)
    requires Positions(arrays, pos)
    ensures Heads(arrays, pos, 0) == multiset{}
  {
  }

  /** Sift from the last parent down to the root. */
  method BuildHeap(minHeap: array<HeapNode>, heapSize: nat)
    requires heapSize <= minHeap.Length
    modifies minHeap
    ensures HeapFrom(minHeap[..heapSize], 0)
    ensures multiset(minHeap[..heapSize]) == multiset(old(minHeap[..heapSize]))
  {
    var i := TruncatedHalf(heapSize - 2);
    while i >= 0
      invariant -1 <= i
      invariant HeapFrom(minHeap[..heapSize], i + 1)
      invariant multiset(minHeap[..heapSize]) == multiset(old(minHeap[..heapSize]))
    {
      HeapifyDown(minHeap, heapSize, i, i);
      i := i - 1;
    }
  }

  /** The heap after one round, before the sift: the root's array moves on to its next
      element, or its node is replaced by the last one. */
  ghost function AfterRound(arrays: seq<seq<int>>, h: seq<HeapNode>): seq<HeapNode>
    requires h != [] && h[0].arrayIndex < |arrays|
  {
    var i, e, n := h[0].arrayIndex, h[0].elementIndex + 1, |h| - 1;
    if e < |arrays[i]| then h[0 := HeapNode(arrays[i][e], i, e)] else h[0 := h[n]][..n]
  }

  lemma RoundKeepsHeads(arrays: seq<seq<int>>, pos: seq<nat>, pos': seq<nat>, h: seq<HeapNode>)
    requires Positions(arrays, pos) && Positions(arrays, pos')
    requires h != [] && HeapInvariant(arrays, pos, h)
    requires var i := h[0].arrayIndex;
      && i < |arrays| && pos[i] < |arrays[i]|
      && h[0] == HeapNode(arrays[i][pos[i]], i, pos[i])
      && pos' == pos[i := pos[i] + 1]
    ensures multiset(AfterRound(arrays, h)) == Heads(arrays, pos', |arrays|)
    ensures HeapExcept(AfterRound(arrays, h), 0, 0)
  {
    var i, e := h[0].arrayIndex, h[0].elementIndex + 1;
    HeadsAdvance(arrays, pos, pos', |arrays|, i);
    assert h[0] in multiset(h);
    Exchange(Heads(arrays, pos', |arrays|), multiset{h[0]}, multiset(h), HeadOf(arrays, i, e));
    if e < |arrays[i]| {
      ReplaceRoot(h, HeapNode(arrays[i][e], i, e));
    } else {
      DropRoot(h);
    }
  }

  /** One round on the heap: the root's array moves on to its next element, or leaves. */
  method AdvanceRoot(arrays: seq<seq<int>>, minHeap: array<HeapNode>, heapSize: nat) returns (newSize: nat)
    requires 0 < heapSize <= minHeap.Length
    requires minHeap[0].arrayIndex < |arrays|
    requires HeapExcept(AfterRound(arrays, minHeap[..heapSize]), 0, 0)
    modifies minHeap
    ensures newSize <= minHeap.Length
    ensures HeapFrom(minHeap[..newSize], 0)
    ensures multiset(minHeap[..newSize]) == multiset(AfterRound(arrays, old(minHeap[..heapSize])))
  {
    ghost var h := minHeap[..heapSize];
    var minNode := minHeap[0];
    if minNode.elementIndex + 1 < |arrays[minNode.arrayIndex]| {
      var next := minNode.elementIndex + 1;
      minNode := HeapNode(arrays[minNode.arrayIndex][next], minNode.arrayIndex, next);
      newSize := heapSize;
      minHeap[0] := minNode;
    } else {
      newSize := heapSize - 1;
      minHeap[0] := minHeap[newSize];
    }
    assert minHeap[..newSize] == AfterRound(arrays, h);
    HeapifyDown(minHeap, newSize, 0, 0);
  }

  method Emit(result: array<int>, resultIndex: nat, value: int) returns (ghost out: seq<int>)
    requires resultIndex < result.Length
    modifies result
    ensures out == result[..resultIndex + 1] == old(result[..resultIndex]) + [value]
    ensures forall k :: resultIndex < k < result.Length ==> result[k] == old(result[k])
  {
    result[resultIndex] := value;
    out := result[..resultIndex + 1];
  }

  /** The merge loop: emit the root until the heap is empty. */
  method DrainHeap(arrays: seq<seq<int>>, minHeap: array<HeapNode>, size: nat, result: array<int>,
      ghost start: seq<nat>)
      returns (resultIndex: nat)
    requires Positions(arrays, start) && Merged(arrays, start, [])
    requires size <= minHeap.Length
    requires HeapInvariant(arrays, start, minHeap[..size])
    requires |Concat(arrays)| <= result.Length
    modifies minHeap, result
    ensures resultIndex == |Concat(arrays)|
    ensures multiset(result[..resultIndex]) == multiset(Concat(arrays))
    ensures Sorted(result[..resultIndex]) <==> AllSorted(arrays)
    ensures forall k :: resultIndex <= k < result.Length ==> result[k] == old(result[k])
  {
    hide Merged, Remaining, Heads, Concat, Sorted, AllSorted, HeapFrom, HeapExcept, AfterRound;
    var heapSize := size;
    ghost var pos := start;
    ghost var out := [];
    resultIndex := 0;
    while heapSize > 0
      invariant Positions(arrays, pos)
      invariant 0 <= heapSize <= minHeap.Length
      invariant HeapInvariant(arrays, pos, minHeap[..heapSize])
      invariant Merged(arrays, pos, out)
      invariant resultIndex == |out| <= |Concat(arrays)|
      invariant result[..resultIndex] == out
      invariant forall k :: resultIndex <= k < result.Length ==> result[k] == old(result[k])
      decreases |Remaining(arrays, pos)|
    {
      ghost var pos' := RootIsNext(arrays, pos, minHeap[..heapSize], out);
      out := Emit(result, resultIndex, minHeap[0].value);
      resultIndex := resultIndex + 1;
      heapSize := AdvanceRoot(arrays, minHeap, heapSize);
      pos := pos';
    }
    assert minHeap[..heapSize] == [];
    MergeComplete(arrays, pos, out);
  }

  /** The merge writes a permutation of all the inputs to the front of `result`. It is sorted
      exactly when every input is. */
  method Merge(arrays: seq<seq<int>>, result: array<int>) returns (resultIndex: nat)
    requires |Concat(arrays)| <= result.Length
    modifies result
    ensures resultIndex == |Concat(arrays)|
    ensures multiset(result[..resultIndex]) == multiset(Concat(arrays))
    ensures Sorted(result[..resultIndex]) <==> AllSorted(arrays)
    ensures forall k :: resultIndex <= k < result.Length ==> result[k] == old(result[k])
  {
    ghost var pos := seq(|arrays|, _ => 0);
    var minHeap := new HeapNode[|arrays|](_ => HeapNode(0, 0, 0));
    var heapSize := CollectHeads(arrays, minHeap, pos);
    BuildHeap(minHeap, heapSize);
    MergedAtStart(arrays, pos);
    resultIndex := DrainHeap(arrays, minHeap, heapSize, result, pos);
  }

  /** Emitting the root is a merge step, and there is room for it. */
  lemma RootIsNext(arrays: seq<seq<int>>, pos: seq<nat>, h: seq<HeapNode>, out: seq<int>) returns (pos': seq<nat>)
    requires Positions(arrays, pos)
    requires HeapInvariant(arrays, pos, h) && h != []
    requires Merged(arrays, pos, out)
    ensures Positions(arrays, pos')
    ensures |out| < |Concat(arrays)|
    ensures |Remaining(arrays, pos')| < |Remaining(arrays, pos)|
    ensures Merged(arrays, pos', out + [h[0].value])
    ensures h[0].arrayIndex < |arrays|
    ensures multiset(AfterRound(arrays, h)) == Heads(arrays, pos', |arrays|)
    ensures HeapExcept(AfterRound(arrays, h), 0, 0)
  {
    RootIsLeastHead(arrays, pos, h);
    pos' := pos[h[0].arrayIndex := h[0].elementIndex + 1];
    MergeStep(arrays, pos, out, h[0].arrayIndex);
    RoundKeepsHeads(arrays, pos, pos', h);
  }

  lemma MergeComplete(arrays: seq<seq<int>>, pos: seq<nat>, out: seq<int>)
    requires Positions(arrays, pos)
    requires HeapInvariant(arrays, pos, [])
    requires Merged(arrays, pos, out)
    ensures |out| == |Concat(arrays)| && multiset(out) == multiset(Concat(arrays))
    ensures Sorted(out) <==> AllSorted(arrays)
  {
    hide Merged, Concat, Sorted;
    EmptyHeapMeansDone(arrays, pos);
    MergedDone(arrays, pos, out);
  }

  /** On sorted inputs the result is the sorted permutation of them. */
  lemma MergeSorts(arrays: seq<seq<int>>, out: seq<int>)
    requires AllSorted(arrays) && Sorted(out) && multiset(out) == multiset(Concat(arrays))
    ensures out == SortOf(Concat(arrays))
  {
    SortOfIs(Concat(arrays), out);
  }
}
