/** The map-reduce word count: mappers count the words of their texts and hand every word to
    one reducer; reducers add the counts up. Counts are 32-bit and wrap around. */
module WordCount {
  import opened Options
  import opened Sequences
  import opened Splits
  import opened Texts
  import opened WordHash

  const TWO32: int := 0x1_0000_0000

  type Counts = map<string, u32>

  function Get(counts: Counts, w: string): u32 {
    if w in counts then counts[w] else 0
  }

  lemma SameCounts(a: Counts, b: Counts)
    requires forall w :: w in a <==> w in b
    requires forall w :: Get(a, w) == Get(b, w)
    ensures a == b
  {
    assert a.Keys == b.Keys;
    forall w | w in a
      ensures a[w] == b[w]
    {
      assert Get(a, w) == Get(b, w);
    }
  }

  // ---------- the words of a text ----------

  predicate IsAlphanumeric(c: char) {
    '0' <= c <= '9' || 'a' <= c <= 'z' || 'A' <= c <= 'Z'
  }

  /** Every character is a letter or a digit; this holds of the empty word too. */
  predicate IsWord(s: string) {
    forall k :: 0 <= k < |s| ==> IsAlphanumeric(s[k])
  }

  /** The words among the first `k` pieces. */
  function Kept(parts: seq<string>, k: nat): seq<string>
    requires k <= |parts|
  {
    if k == 0 then [] else Kept(parts, k - 1) + if IsWord(parts[k - 1]) then [parts[k - 1]] else []
  }

  function LineWords(line: string): seq<string> {
    var parts := SplitBy(Trim(line), ' ');
    Kept(parts, |parts|)
  }

  function WordsUpTo(lines: seq<string>, k: nat): seq<string>
    requires k <= |lines|
  {
    if k == 0 then [] else WordsUpTo(lines, k - 1) + LineWords(lines[k - 1])
  }

  function Words(text: string): seq<string> {
    WordsUpTo(Lines(text), |Lines(text)|)
  }

  predicate AdjacentSpaces(s: string) {
    exists i :: 0 <= i < |s| - 1 && s[i] == ' ' && s[i + 1] == ' '
  }

  /** There is an empty piece exactly where a space has nothing on one of its sides. */
  lemma {:induction false} EmptyPieceIff(s: string)
    ensures [] in SplitBy(s, ' ') <==> s == [] || s[0] == ' ' || s[|s| - 1] == ' ' || AdjacentSpaces(s)
    decreases |s|
  {
    hide FirstAt, SplitBy, AdjacentSpaces;
    var n := FirstAt(s, ' ');
    EmptyFirst(s, n);
    if n < |s| {
      EmptyPieceIff(s[n + 1..]);
      AdjacentInRest(s, n);
    } else {
      NoSpaceNoneAdjacent(s);
    }
  }

  lemma EmptyFirst(s: string, n: nat)
    requires n == FirstAt(s, ' ')
    ensures [] in SplitBy(s, ' ') <==> if n == |s| then s == [] else n == 0 || [] in SplitBy(s[n + 1..], ' ')
  {
    hide FirstAt, SplitBy;
    SplitStep(s, ' ', n);
    if n < |s| {
      InCons([], s[..n], SplitBy(s[n + 1..], ' '));
    }
  }

  lemma InCons(w: string, first: string, rest: seq<string>)
    ensures w in [first] + rest <==> w == first || w in rest
  {
  }

  lemma NoSpaceNoneAdjacent(s: string)
    requires forall k :: 0 <= k < |s| ==> s[k] != ' '
    ensures !AdjacentSpaces(s)
  {
  }

  lemma AdjacentInRest(s: string, n: nat)
    requires n < |s| && s[n] == ' ' && forall k :: 0 <= k < n ==> s[k] != ' '
    ensures var rest := s[n + 1..];
      AdjacentSpaces(s) <==> (rest != [] && rest[0] == ' ') || AdjacentSpaces(rest)
  {
    hide AdjacentSpaces;
    var rest := s[n + 1..];
    if AdjacentSpaces(s) {
      var i := FindAdjacent(s);
      if i > n {
        HasAdjacent(rest, i - n - 1);
      }
    }
    if AdjacentSpaces(rest) {
      var i := FindAdjacent(rest);
      HasAdjacent(s, n + 1 + i);
    }
    if rest != [] && rest[0] == ' ' {
      HasAdjacent(s, n);
    }
  }

  lemma FindAdjacent(s: string) returns (i: nat)
    requires AdjacentSpaces(s)
    ensures i < |s| - 1 && s[i] == ' ' && s[i + 1] == ' '
  {
    i :| 0 <= i < |s| - 1 && s[i] == ' ' && s[i + 1] == ' ';
  }

  lemma HasAdjacent(s: string, i: nat)
    requires i < |s| - 1 && s[i] == ' ' && s[i + 1] == ' '
    ensures AdjacentSpaces(s)
  {
  }

  lemma {:induction false} EmptyKept(parts: seq<string>, k: nat)
    requires k <= |parts|
    ensures [] in Kept(parts, k) <==> [] in parts[..k]
  {
    if k > 0 {
      EmptyKept(parts, k - 1);
      assert parts[..k] == parts[..k - 1] + [parts[k - 1]];
    }
  }

  /** The empty word is counted on a line exactly when the line is blank or has two adjacent
      spaces between its words. */
  lemma EmptyWordIff(line: string)
    ensures [] in LineWords(line) <==> Trim(line) == [] || AdjacentSpaces(Trim(line))
  {
    hide Kept, SplitBy, AdjacentSpaces, TrimStart, TrimEnd;
    var s := Trim(line);
    var parts := SplitBy(s, ' ');
    EmptyPieceIff(s);
    EmptyKept(parts, |parts|);
    assert parts[..|parts|] == parts;
    assert s != [] ==> s[0] == TrimStart(line)[0];
  }

  /** A blank line counts as one empty word. */
  lemma BlankLine(line: string)
    requires Trim(line) == []
    ensures LineWords(line) == [[]]
  {
    var parts: seq<string> := [[]];
    assert SplitBy(Trim(line), ' ') == parts;
    assert Kept(parts, 1) == Kept(parts, 0) + [parts[0]];
  }

  /** So does a line with two adjacent spaces. */
  lemma DoubleSpace()
    ensures [] in LineWords("a  b")
  {
    var line := "a  b";
    assert Trim(line) == line;
    assert line[1] == ' ' && line[2] == ' ';
    EmptyWordIff(line);
  }

  /** Only letters and digits. */
  ghost predicate LettersAndDigits(w: string) {
    forall k :: 0 <= k < |w| ==> '0' <= w[k] <= '9' || 'a' <= w[k] <= 'z' || 'A' <= w[k] <= 'Z'
  }

  lemma WordIff(w: string)
    ensures IsWord(w) <==> LettersAndDigits(w)
  {
  }

  lemma OneCount(part: string, w: string)
    ensures multiset([part])[w] == if part == w then 1 else 0
  {
  }

  lemma {:induction false} KeptCount(parts: seq<string>, k: nat, w: string)
    requires k <= |parts|
    ensures multiset(Kept(parts, k))[w] == if LettersAndDigits(w) then multiset(parts[..k])[w] else 0
  {
    hide IsWord, LettersAndDigits, Kept;
    if k == 0 {
      NothingKept(parts, w);
    } else {
      KeptCount(parts, k - 1, w);
      KeptOne(parts, k, w);
    }
  }

  lemma NothingKept(parts: seq<string>, w: string)
    ensures multiset(Kept(parts, 0))[w] == 0 && multiset(parts[..0])[w] == 0
  {
    assert parts[..0] == [];
  }

  lemma KeptOne(parts: seq<string>, k: nat, w: string)
    requires 0 < k <= |parts|
    ensures var part := parts[k - 1];
      && multiset(parts[..k])[w] == multiset(parts[..k - 1])[w] + (if part == w then 1 else 0)
      && multiset(Kept(parts, k))[w]
         == multiset(Kept(parts, k - 1))[w] + (if part == w && LettersAndDigits(part) then 1 else 0)
  {
    var part := parts[k - 1];
    WordIff(part);
    var kept := if IsWord(part) then [part] else [];
    assert Kept(parts, k) == Kept(parts, k - 1) + kept && parts[..k] == parts[..k - 1] + [part];
    hide IsWord, LettersAndDigits, Kept;
    CountAppend(parts[..k - 1], [part], parts[..k], w);
    CountAppend(Kept(parts, k - 1), kept, Kept(parts, k), w);
    OneCount(part, w);
  }

  /** Of the pieces of the trimmed line, exactly those of letters and digits are words. */
  lemma LineWordsCount(line: string, w: string)
    ensures multiset(LineWords(line))[w] == if LettersAndDigits(w) then multiset(SplitBy(Trim(line), ' '))[w] else 0
  {
    hide LettersAndDigits, Kept, SplitBy, Trim;
    var parts := SplitBy(Trim(line), ' ');
    KeptCount(parts, |parts|, w);
    assert parts[..|parts|] == parts;
  }

  /** How often `w` is a piece of one of the first `k` lines. */
  ghost function PieceCount(lines: seq<string>, k: nat, w: string): nat
    requires k <= |lines|
  {
    if k == 0 then 0 else PieceCount(lines, k - 1, w) + multiset(SplitBy(Trim(lines[k - 1]), ' '))[w]
  }

  lemma {:induction false} WordsUpToCount(lines: seq<string>, k: nat, w: string)
    requires k <= |lines|
    ensures multiset(WordsUpTo(lines, k))[w] == if LettersAndDigits(w) then PieceCount(lines, k, w) else 0
  {
    hide LettersAndDigits, LineWords, SplitBy, Trim;
    if k > 0 {
      WordsUpToCount(lines, k - 1, w);
      LineWordsCount(lines[k - 1], w);
      CountAppend(WordsUpTo(lines, k - 1), LineWords(lines[k - 1]), WordsUpTo(lines, k), w);
    }
  }

  /** The words of a text are the pieces of its lines that consist of letters and digits. */
  lemma WordsCount(text: string, w: string)
    ensures multiset(Words(text))[w] == if LettersAndDigits(w) then PieceCount(Lines(text), |Lines(text)|, w) else 0
  {
    hide Lines, LettersAndDigits, WordsUpTo, PieceCount;
    WordsUpToCount(Lines(text), |Lines(text)|, w);
  }

  // ---------- the mapper counts ----------

  /** How often each word occurs, in 32 bits. */
  function CountOf(words: seq<string>): Counts {
    map w | w in words :: multiset(words)[w] % TWO32
  }

  lemma CountAt(words: seq<string>, w: string)
    ensures w in CountOf(words) <==> w in words
    ensures Get(CountOf(words), w) == multiset(words)[w] % TWO32
  {
    assert w !in words ==> multiset(words)[w] == 0;
  }

  lemma CountSnoc(words: seq<string>, w: string)
    ensures CountOf(words + [w]) == CountOf(words)[w := (Get(CountOf(words), w) + 1) % TWO32]
  {
    hide CountOf;
    var more := words + [w];
    var a, b := CountOf(more), CountOf(words)[w := (Get(CountOf(words), w) + 1) % TWO32];
    forall x
      ensures (x in a <==> x in b) && Get(a, x) == Get(b, x)
    {
      CountAt(more, x);
      CountAt(words, x);
      assert multiset(more)[x] == multiset(words)[x] + if x == w then 1 else 0;
      SumWraps(multiset(words)[x], 1);
    }
    SameCounts(a, b);
  }

  method CountWords(text: string) returns (counter: Counts)
    ensures counter == CountOf(Words(text))
  {
    hide CountOf, LineWords, SplitBy, Trim, Lines, IsWord;
    var lines := Lines(text);
    counter := map[];
    assert CountOf([]) == map[] by {
      CountNothing();
    }
    for i := 0 to |lines|
      invariant counter == CountOf(WordsUpTo(lines, i))
    {
      counter := CountLine(counter, lines[i], WordsUpTo(lines, i));
    }
  }

  lemma CountNothing()
    ensures CountOf([]) == map[]
  {
  }

  method CountLine(before: Counts, line: string, ghost words: seq<string>) returns (counter: Counts)
    requires before == CountOf(words)
    ensures counter == CountOf(words + LineWords(line))
  {
    hide CountOf, SplitBy, Trim, IsWord;
    var parts := SplitBy(Trim(line), ' ');
    counter := before;
    assert words + Kept(parts, 0) == words;
    for k := 0 to |parts|
      invariant counter == CountOf(words + Kept(parts, k))
    {
      var word := parts[k];
      ghost var seen := words + Kept(parts, k);
      if IsWord(word) {
        CountSnoc(seen, word);
        assert words + Kept(parts, k + 1) == seen + [word];
        var oldCount := Get(counter, word);
        counter := counter[word := (oldCount + 1) % TWO32];
      } else {
        assert words + Kept(parts, k + 1) == seen;
      }
    }
  }

  // ---------- the mapper shuffles ----------

  /** The counts that go to reducer `j`. */
  function Part(counts: Counts, reducerNum: nat, j: nat): Counts
    requires reducerNum > 0
  {
    map w | w in counts && Idx(w, reducerNum) == j :: counts[w]
  }

  function Without(counts: Counts, todo: set<string>): Counts {
    map w | w in counts && w !in todo :: counts[w]
  }

  lemma ShuffleStep(counts: Counts, todo: set<string>, w: string, reducerNum: nat, j: nat)
    requires w in todo && w in counts && reducerNum > 0
    ensures Part(Without(counts, todo - {w}), reducerNum, j)
         == if j == Idx(w, reducerNum) then Part(Without(counts, todo), reducerNum, j)[w := counts[w]]
            else Part(Without(counts, todo), reducerNum, j)
  {
    hide Idx;
  }

  /** The words are taken in any order. Without reducers there is no buffer for a word. */
  method Shuffle(counter: Counts, reducerNum: nat) returns (buffers: Option<seq<Counts>>)
    requires reducerNum < TWO64
    ensures buffers.None? <==> reducerNum == 0 && counter != map[]
    ensures buffers.Some? ==> |buffers.value| == reducerNum
    ensures buffers.Some? ==> forall j :: 0 <= j < reducerNum ==> buffers.value[j] == Part(counter, reducerNum, j)
  {
    hide Idx;
    var bs: seq<Counts> := seq(reducerNum, _ => map[]);
    var todo := counter.Keys;
    while todo != {}
      invariant todo <= counter.Keys && |bs| == reducerNum
      invariant reducerNum == 0 ==> todo == counter.Keys
      invariant forall j :: 0 <= j < reducerNum ==> bs[j] == Part(Without(counter, todo), reducerNum, j)
      decreases |todo|
    {
      var w :| w in todo;
      if reducerNum == 0 {
        return None;
      }
      var idx := GetIdx(w, reducerNum);
      forall j | 0 <= j < reducerNum
        ensures bs[idx := bs[idx][w := counter[w]]][j] == Part(Without(counter, todo - {w}), reducerNum, j)
      {
        ShuffleStep(counter, todo, w, reducerNum, j);
      }
      bs := bs[idx := bs[idx][w := counter[w]]];
      todo := todo - {w};
    }
    assert Without(counter, {}) == counter;
    buffers := Some(bs);
  }

  // ---------- the reducer ----------

  /** The sum of the first `k` counts of a word. */
  function SumAt(shuffles: seq<Counts>, w: string, k: nat): nat
    requires k <= |shuffles|
  {
    if k == 0 then 0 else SumAt(shuffles, w, k - 1) + Get(shuffles[k - 1], w)
  }

  function KeysUpTo(shuffles: seq<Counts>, k: nat): set<string>
    requires k <= |shuffles|
  {
    if k == 0 then {} else KeysUpTo(shuffles, k - 1) + shuffles[k - 1].Keys
  }

  /** All words of the first `k` parts, each with the sum of its counts in 32 bits. */
  function ReducedUpTo(shuffles: seq<Counts>, k: nat): Counts
    requires k <= |shuffles|
  {
    map w | w in KeysUpTo(shuffles, k) :: SumAt(shuffles, w, k) % TWO32
  }

  function Reduced(shuffles: seq<Counts>): Counts {
    ReducedUpTo(shuffles, |shuffles|)
  }

  function Added(a: Counts, b: Counts): Counts {
    map w | w in a.Keys + b.Keys :: (Get(a, w) + Get(b, w)) % TWO32
  }

  lemma {:induction false} AbsentSum(shuffles: seq<Counts>, w: string, k: nat)
    requires k <= |shuffles| && w !in KeysUpTo(shuffles, k)
    ensures SumAt(shuffles, w, k) == 0
  {
    if k > 0 {
      AbsentSum(shuffles, w, k - 1);
    }
  }

  lemma SumWraps(a: nat, b: nat)
    ensures (a % TWO32 + b) % TWO32 == (a + b) % TWO32
  {
  }

  lemma ReducedNext(shuffles: seq<Counts>, k: nat)
    requires k < |shuffles|
    ensures ReducedUpTo(shuffles, k + 1) == Added(ReducedUpTo(shuffles, k), shuffles[k])
  {
    var a := ReducedUpTo(shuffles, k);
    forall w | w in KeysUpTo(shuffles, k + 1)
      ensures SumAt(shuffles, w, k + 1) % TWO32 == (Get(a, w) + Get(shuffles[k], w)) % TWO32
    {
      if w !in KeysUpTo(shuffles, k) {
        AbsentSum(shuffles, w, k);
      }
      SumWraps(SumAt(shuffles, w, k), Get(shuffles[k], w));
    }
  }

  lemma AddedAt(a: Counts, b: Counts, w: string)
    ensures w in Added(a, b) <==> w in a || w in b
    ensures Get(Added(a, b), w) == (Get(a, w) + Get(b, w)) % TWO32
  {
  }

  lemma WithoutAt(b: Counts, todo: set<string>, w: string)
    ensures w in Without(b, todo) <==> w in b && w !in todo
    ensures Get(Without(b, todo), w) == if w in todo then 0 else Get(b, w)
  {
  }

  lemma AddStep(a: Counts, b: Counts, todo: set<string>, w: string)
    requires w in todo && w in b
    ensures var c := Added(a, Without(b, todo));
      Added(a, Without(b, todo - {w})) == c[w := (Get(c, w) + b[w]) % TWO32]
  {
    hide Added, Without;
    var c, d := Added(a, Without(b, todo)), Added(a, Without(b, todo - {w}));
    var e := c[w := (Get(c, w) + b[w]) % TWO32];
    forall x
      ensures (x in d <==> x in e) && Get(d, x) == Get(e, x)
    {
      AddedAt(a, Without(b, todo), x);
      AddedAt(a, Without(b, todo - {w}), x);
      WithoutAt(b, todo, x);
      WithoutAt(b, todo - {w}, x);
    }
    SameCounts(d, e);
  }

  lemma AddEnds(a: Counts, b: Counts)
    ensures Added(a, Without(b, b.Keys)) == a
    ensures Added(a, Without(b, {})) == Added(a, b)
  {
    assert Without(b, {}) == b && Without(b, b.Keys) == map[];
    assert Added(a, map[]) == a by {
      hide Added;
      forall x
        ensures (x in Added(a, map[]) <==> x in a) && Get(Added(a, map[]), x) == Get(a, x)
      {
        AddedAt(a, map[], x);
      }
      SameCounts(Added(a, map[]), a);
    }
  }

  method Reduce(shuffles: seq<Counts>) returns (counter: Counts)
    ensures counter == Reduced(shuffles)
  {
    hide Added;
    counter := map[];
    for i := 0 to |shuffles|
      invariant counter == ReducedUpTo(shuffles, i)
    {
      ReducedNext(shuffles, i);
      counter := AddAll(counter, shuffles[i]);
    }
  }

  method AddAll(before: Counts, shuffle: Counts) returns (counter: Counts)
    ensures counter == Added(before, shuffle)
  {
    hide Added, Without;
    counter := before;
    var todo := shuffle.Keys;
    AddEnds(before, shuffle);
    while todo != {}
      invariant todo <= shuffle.Keys
      invariant counter == Added(before, Without(shuffle, todo))
      decreases |todo|
    {
      var w :| w in todo;
      AddStep(before, shuffle, todo, w);
      var oldCount := Get(counter, w);
      counter := counter[w := (oldCount + shuffle[w]) % TWO32];
      todo := todo - {w};
    }
  }

  // ---------- distributed equals sequential ----------

  /** What reducer `j` receives from mappers that have counted `words`. */
  function Received(words: seq<seq<string>>, reducerNum: nat, j: nat): seq<Counts>
    requires reducerNum > 0
  {
    seq(|words|, i requires 0 <= i < |words| => Part(CountOf(words[i]), reducerNum, j))
  }

  predicate SameIn32(a: nat, b: nat) {
    a % TWO32 == b % TWO32
  }

  lemma {:induction false} SumOfCounts(words: seq<seq<string>>, reducerNum: nat, j: nat, w: string, k: nat)
    requires reducerNum > 0 && k <= |words| && Idx(w, reducerNum) == j
    ensures SameIn32(SumAt(Received(words, reducerNum, j), w, k), multiset(Concat(words[..k]))[w])
    ensures w in KeysUpTo(Received(words, reducerNum, j), k) <==> w in Concat(words[..k])
  {
    hide Idx, Part, CountOf, Concat, SameIn32, SumAt, KeysUpTo;
    if k == 0 {
      SumOfNone(Received(words, reducerNum, j), words, w);
    } else {
      SumOfCounts(words, reducerNum, j, w, k - 1);
      var received, seen, more := Received(words, reducerNum, j), Concat(words[..k - 1]), words[k - 1];
      assert words[..k] == words[..k - 1] + [more];
      ConcatSnoc(words[..k - 1], more);
      SumNext(received, w, k - 1, Part(CountOf(more), reducerNum, j));
      OneMore(seen, more, Concat(words[..k]), reducerNum, j, w, SumAt(received, w, k - 1));
    }
  }

  lemma SumOfNone(shuffles: seq<Counts>, words: seq<seq<string>>, w: string)
    ensures SameIn32(SumAt(shuffles, w, 0), multiset(Concat(words[..0]))[w])
    ensures w !in KeysUpTo(shuffles, 0) && w !in Concat(words[..0])
  {
    assert Concat(words[..0]) == [];
  }

  lemma SumNext(shuffles: seq<Counts>, w: string, k: nat, next: Counts)
    requires k < |shuffles| && shuffles[k] == next
    ensures SumAt(shuffles, w, k + 1) == SumAt(shuffles, w, k) + Get(next, w)
    ensures w in KeysUpTo(shuffles, k + 1) <==> w in KeysUpTo(shuffles, k) || w in next
  {
  }

  lemma OneMore(seen: seq<string>, more: seq<string>, both: seq<string>, reducerNum: nat, j: nat, w: string, sum: nat)
    requires reducerNum > 0 && Idx(w, reducerNum) == j && both == seen + more
    requires SameIn32(sum, multiset(seen)[w])
    ensures SameIn32(sum + Get(Part(CountOf(more), reducerNum, j), w), multiset(both)[w])
    ensures w in Part(CountOf(more), reducerNum, j) <==> w in more
    ensures w in both <==> w in seen || w in more
  {
    hide Idx;
    var a, b := multiset(seen)[w], multiset(more)[w];
    assert Get(Part(CountOf(more), reducerNum, j), w) == b % TWO32;
    CountAppend(seen, more, both, w);
    SumWraps(sum, b % TWO32);
    SumWraps(a, b % TWO32);
    SumWraps(b, a);
  }

  lemma {:induction false} OnlyOwnWords(words: seq<seq<string>>, reducerNum: nat, j: nat, w: string, k: nat)
    requires reducerNum > 0 && k <= |words| && w in KeysUpTo(Received(words, reducerNum, j), k)
    ensures Idx(w, reducerNum) == j
  {
    hide Idx;
    if w !in Received(words, reducerNum, j)[k - 1] {
      OnlyOwnWords(words, reducerNum, j, w, k - 1);
    }
  }

  /** Reducer `j` ends with exactly its part of the count of all words together. */
  lemma DistributedIsSequential(words: seq<seq<string>>, reducerNum: nat, j: nat)
    requires reducerNum > 0
    ensures Reduced(Received(words, reducerNum, j)) == Part(CountOf(Concat(words)), reducerNum, j)
  {
    hide Idx, SumAt, KeysUpTo;
    var received, all := Received(words, reducerNum, j), Concat(words);
    var got, expected := Reduced(received), Part(CountOf(all), reducerNum, j);
    assert words[..|words|] == words;
    forall w
      ensures w in got <==> w in expected
      ensures w in got ==> got[w] == expected[w]
    {
      if Idx(w, reducerNum) == j {
        SumOfCounts(words, reducerNum, j, w, |words|);
      } else if w in got {
        OnlyOwnWords(words, reducerNum, j, w, |words|);
      }
    }
  }

  /** A word ends up at the reducer its hash selects and at no other. The number there is the
      true number of occurrences in all texts exactly when that is below 2^32. */
  lemma WordAtOneReducer(words: seq<seq<string>>, reducerNum: nat, j: nat, w: string)
    requires reducerNum > 0
    ensures var counter, count := Reduced(Received(words, reducerNum, j)), multiset(Concat(words))[w];
      && (w in counter <==> w in Concat(words) && Idx(w, reducerNum) == j)
      && (w in counter ==> counter[w] == count % TWO32 && (counter[w] == count <==> count < TWO32))
  {
    hide Idx, Reduced, Received, Concat;
    DistributedIsSequential(words, reducerNum, j);
  }
}
