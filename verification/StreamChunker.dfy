/** The Markdown-aware stream chunker. Text is ASCII, one byte per character. */
module StreamChunker {
  import opened Options
  import opened Sequences
  import opened Texts

  const FENCE: string := "```"
  const CLOSE: string := "\n```\n"
  const REOPEN: string := "```\n"

  /** Break points from the most to the least preferred. */
  const BREAKS: seq<string> := ["\n\n", "\n", ". ", "! ", "? "]

  // ---------- lines and fences ----------

  predicate IsFenceLine(line: string) {
    FENCE <= Trim(line)
  }

  function FenceCount(lines: seq<string>): nat {
    if lines == [] then 0 else (if IsFenceLine(lines[0]) then 1 else 0) + FenceCount(lines[1..])
  }

  predicate Odd(n: nat) {
    n % 2 == 1
  }

  /** `a` can be followed by more text without changing any of its lines. */
  predicate WholeLines(a: string) {
    a == [] || a[|a| - 1] == '\n'
  }

  lemma {:induction false} LineLengthAppend(a: string, b: string)
    requires a != [] && WholeLines(a)
    ensures LineLength(a + b) == LineLength(a)
  {
    assert (a + b)[0] == a[0];
    if a[0] != '\n' {
      assert (a + b)[1..] == a[1..] + b;
      LineLengthAppend(a[1..], b);
    }
  }

  lemma {:induction false} LinesAppend(a: string, b: string)
    requires WholeLines(a)
    ensures Lines(a + b) == Lines(a) + Lines(b)
    decreases |a|
  {
    hide LineLength;
    if a == [] {
      assert a + b == b;
    } else {
      var n := LineLength(a);
      LineLengthAppend(a, b);
      assert Lines(a + b) == [(a + b)[..n]] + Lines((a + b)[n..]);
      assert (a + b)[..n] == a[..n] && (a + b)[n..] == a[n..] + b;
      LinesAppend(a[n..], b);
    }
  }

  lemma {:induction false} FenceCountAppend(a: seq<string>, b: seq<string>)
    ensures FenceCount(a + b) == FenceCount(a) + FenceCount(b)
  {
    if a == [] {
      assert a + b == b;
    } else {
      assert (a + b)[1..] == a[1..] + b;
      FenceCountAppend(a[1..], b);
    }
  }

  lemma {:induction false} LinesConcat(text: string)
    ensures Concat(Lines(text)) == text
    decreases |text|
  {
    if text != [] {
      var n := LineLength(text);
      LinesConcat(text[n..]);
      ConcatCons(text[..n], Lines(text[n..]));
    }
  }

  // ---------- break points ----------

  predicate OccursAt(text: string, pattern: string, p: nat) {
    p + |pattern| <= |text| && text[p..p + |pattern|] == pattern
  }

  /** `pattern` occurs at `p` within the byte range from `lo` to `hi`. */
  predicate OccursIn(text: string, pattern: string, lo: nat, hi: nat, p: nat) {
    lo <= p && p + |pattern| <= hi && OccursAt(text, pattern, p)
  }

  lemma OccursWithin(text: string, pattern: string, lo: nat, hi: nat, p: nat)
    requires OccursIn(text, pattern, lo, hi, p)
    ensures p + |pattern| <= hi
  {
  }

  /** The last occurrence within a byte range. */
  function FindLastInRange(text: string, pattern: string, lo: nat, hi: nat): (r: Option<nat>)
    requires lo <= hi <= |text|
    ensures r.Some? ==> OccursIn(text, pattern, lo, hi, r.value)
    ensures r.Some? ==> forall p :: r.value < p ==> !OccursIn(text, pattern, lo, hi, p)
    ensures r.None? ==> forall p :: 0 <= p ==> !OccursIn(text, pattern, lo, hi, p)
    decreases hi
  {
    if lo + |pattern| > hi then None
    else if OccursAt(text, pattern, hi - |pattern|) then Some(hi - |pattern|)
    else
      assert text[hi..hi] == [];
      assert pattern != [];
      assert forall p: nat :: OccursIn(text, pattern, lo, hi, p) ==>
        p == hi - |pattern| || OccursIn(text, pattern, lo, hi - 1, p);
      FindLastInRange(text, pattern, lo, hi - 1)
  }

  /** Where the chunk ends, trying the break points from number `i` on. */
  function BreakAt(text: string, min: nat, max: nat, i: nat): Option<nat>
    requires min <= max && min <= |text| && i <= |BREAKS|
    decreases |BREAKS| - i
  {
    if i == |BREAKS| then (if |text| >= max then Some(max) else None)
    else match FindLastInRange(text, BREAKS[i], min, Min(|text|, max))
      case Some(p) => Some(p + |BREAKS[i]|)
      case None => BreakAt(text, min, max, i + 1)
  }

  lemma BreakStep(text: string, min: nat, max: nat, i: nat, pattern: string)
    requires min <= max && min <= |text| && i < |BREAKS| && pattern == BREAKS[i]
    ensures BreakAt(text, min, max, i) == match FindLastInRange(text, pattern, min, Min(|text|, max))
      case Some(p) => Some(p + |pattern|)
      case None => BreakAt(text, min, max, i + 1)
  {
    hide FindLastInRange;
  }

  lemma BreakEnd(text: string, min: nat, max: nat)
    requires min <= max && min <= |text|
    ensures BreakAt(text, min, max, |BREAKS|) == if |text| >= max then Some(max) else None
  {
  }

  /** `b` ends the last break of the highest priority that occurs in the range; only if none
      occurs is it the maximum length. */
  ghost predicate BestBreak(text: string, min: nat, max: nat, b: nat) {
    var hi := Min(|text|, max);
    || (exists i, p {:trigger OccursIn(text, BREAKS[i], min, hi, p)} ::
          && 0 <= i < |BREAKS| && 0 <= p && b == p + |BREAKS[i]|
          && OccursIn(text, BREAKS[i], min, hi, p)
          && (forall q :: p < q ==> !OccursIn(text, BREAKS[i], min, hi, q))
          && forall j, q {:trigger OccursIn(text, BREAKS[j], min, hi, q)} ::
               0 <= j < i && 0 <= q ==> !OccursIn(text, BREAKS[j], min, hi, q))
    || (b == max <= |text| && forall j, q {:trigger OccursIn(text, BREAKS[j], min, hi, q)} ::
          0 <= j < |BREAKS| && 0 <= q ==> !OccursIn(text, BREAKS[j], min, hi, q))
  }

  lemma {:induction false} BreakIsBest(text: string, min: nat, max: nat, i: nat)
    requires min <= max && min <= |text| && i <= |BREAKS|
    requires forall j, q {:trigger OccursIn(text, BREAKS[j], min, Min(|text|, max), q)} :: 0 <= j < i && 0 <= q ==>
      !OccursIn(text, BREAKS[j], min, Min(|text|, max), q)
    ensures match BreakAt(text, min, max, i)
      case Some(b) => BestBreak(text, min, max, b) && min <= b <= max && b <= |text| && (max > 0 ==> b > 0)
      case None => |text| < max
    decreases |BREAKS| - i
  {
    if i < |BREAKS| {
      var r := FindLastInRange(text, BREAKS[i], min, Min(|text|, max));
      if r.None? {
        BreakIsBest(text, min, max, i + 1);
      } else {
        assert OccursIn(text, BREAKS[i], min, Min(|text|, max), r.value);
        assert |BREAKS[i]| > 0;
      }
    }
  }

  /** There is at most one best break. */
  lemma BestBreakUnique(text: string, min: nat, max: nat, b: nat, b': nat)
    requires BestBreak(text, min, max, b) && BestBreak(text, min, max, b')
    ensures b == b'
  {
  }

  // ---------- the chunker as a value ----------

  datatype State = State(buffer: string, inFence: bool, min: nat, max: nat)

  datatype Flush = Nothing | Chunk(text: string) | Panic

  function PushTo(c: State, text: string): State {
    c.(buffer := c.buffer + text, inFence := c.inFence != Odd(FenceCount(Lines(text))))
  }

  function TryFlushOf(c: State): (Flush, State) {
    if |c.buffer| < c.min then (Nothing, c)
    else if c.inFence then
      if |c.buffer| < c.max then (Nothing, c) else (Chunk(c.buffer + CLOSE), c.(buffer := REOPEN))
    else if c.max < c.min then (Panic, c)
    else match BreakAt(c.buffer, c.min, c.max, 0)
      case None => (Nothing, c)
      case Some(b) =>
        BreakIsBest(c.buffer, c.min, c.max, 0);
        (Chunk(c.buffer[..b]), c.(buffer := c.buffer[b..]))
  }

  function FlushRemainingOf(c: State): (Flush, State) {
    if c.buffer == [] then (Nothing, c) else (Chunk(c.buffer), c.(buffer := []))
  }

  /** Outside a fence a chunk is a prefix of the buffer with a length between the limits, cut
      at the best break. */
  lemma ChunkBounds(c: State)
    requires c.min <= c.max && !c.inFence && TryFlushOf(c).0.Chunk?
    ensures var (f, next) := TryFlushOf(c);
      && c.min <= |f.text| <= c.max
      && f.text + next.buffer == c.buffer
      && BestBreak(c.buffer, c.min, c.max, |f.text|)
  {
    BreakIsBest(c.buffer, c.min, c.max, 0);
  }

  /** `p` is the last occurrence of the pattern in the range. */
  ghost predicate LastIn(text: string, pattern: string, lo: nat, hi: nat, p: nat) {
    OccursIn(text, pattern, lo, hi, p) && forall q :: p < q ==> !OccursIn(text, pattern, lo, hi, q)
  }

  ghost predicate NoneIn(text: string, pattern: string, lo: nat, hi: nat) {
    forall q: nat :: !OccursIn(text, pattern, lo, hi, q)
  }

  lemma FindLastIs(text: string, pattern: string, lo: nat, hi: nat)
    requires lo <= hi <= |text|
    ensures var r := FindLastInRange(text, pattern, lo, hi);
      if r.None? then NoneIn(text, pattern, lo, hi)
      else LastIn(text, pattern, lo, hi, r.value) && forall p: nat :: LastIn(text, pattern, lo, hi, p) ==> p == r.value
  {
    hide FindLastInRange, OccursIn;
  }

  /** Which break is taken, from the most to the least preferred: the last blank line, else the
      last newline, else the last end of a sentence with a full stop, an exclamation mark or a
      question mark, else the maximum. */
  lemma BreakOrder(text: string, min: nat, max: nat)
    requires min <= max && min <= |text|
    ensures var hi, b := Min(|text|, max), BreakAt(text, min, max, 0);
      if !NoneIn(text, "\n\n", min, hi) then b.Some? && b.value >= 2 && LastIn(text, "\n\n", min, hi, b.value - 2)
      else if !NoneIn(text, "\n", min, hi) then b.Some? && b.value >= 1 && LastIn(text, "\n", min, hi, b.value - 1)
      else if !NoneIn(text, ". ", min, hi) then b.Some? && b.value >= 2 && LastIn(text, ". ", min, hi, b.value - 2)
      else if !NoneIn(text, "! ", min, hi) then b.Some? && b.value >= 2 && LastIn(text, "! ", min, hi, b.value - 2)
      else if !NoneIn(text, "? ", min, hi) then b.Some? && b.value >= 2 && LastIn(text, "? ", min, hi, b.value - 2)
      else b == if |text| >= max then Some(max) else None
  {
    hide FindLastInRange, OccursIn, BreakAt, LastIn, NoneIn;
    var hi := Min(|text|, max);
    Preferred(text, min, max, 0, "\n\n");
    Preferred(text, min, max, 1, "\n");
    Preferred(text, min, max, 2, ". ");
    Preferred(text, min, max, 3, "! ");
    Preferred(text, min, max, 4, "? ");
    BreakEnd(text, min, max);
  }

  lemma Preferred(text: string, min: nat, max: nat, i: nat, pattern: string)
    requires min <= max && min <= |text| && i < |BREAKS| && pattern == BREAKS[i]
    ensures var hi, b := Min(|text|, max), BreakAt(text, min, max, i);
      if NoneIn(text, pattern, min, hi) then b == BreakAt(text, min, max, i + 1)
      else b.Some? && b.value >= |pattern| && LastIn(text, pattern, min, hi, b.value - |pattern|)
  {
    hide FindLastInRange, OccursIn, BreakAt;
    FindLastIs(text, pattern, min, Min(|text|, max));
    BreakStep(text, min, max, i, pattern);
  }

  /** Outside a fence nothing is flushed exactly when the buffer is too short, or it is below
      the maximum and has no break in the range. */
  lemma NothingToFlushIff(c: State)
    requires c.min <= c.max && !c.inFence
    ensures TryFlushOf(c).0.Nothing? <==>
      || |c.buffer| < c.min
      || (|c.buffer| < c.max && NoBreakFrom(c.buffer, c.min, c.max, 0))
  {
    hide OccursIn, BestBreak;
    if |c.buffer| >= c.min {
      NoBreakIff(c.buffer, c.min, c.max, 0);
    }
  }

  /** None of the breaks from number `i` on occurs in the range. */
  ghost predicate NoBreakFrom(text: string, min: nat, max: nat, i: nat) {
    forall j, q {:trigger OccursIn(text, BREAKS[j], min, Min(|text|, max), q)} :: i <= j < |BREAKS| && 0 <= q ==>
      !OccursIn(text, BREAKS[j], min, Min(|text|, max), q)
  }

  lemma {:induction false} NoBreakIff(text: string, min: nat, max: nat, i: nat)
    requires min <= max && min <= |text| && i <= |BREAKS|
    ensures BreakAt(text, min, max, i).None? <==> |text| < max && NoBreakFrom(text, min, max, i)
    decreases |BREAKS| - i
  {
    hide OccursIn;
    if i < |BREAKS| {
      NoBreakIff(text, min, max, i + 1);
      var r := FindLastInRange(text, BREAKS[i], min, Min(|text|, max));
      if r.Some? {
        assert OccursIn(text, BREAKS[i], min, Min(|text|, max), r.value);
      }
    }
  }

  // ---------- the chunker as an object ----------

  function DropTicks(s: string): string {
    if s != [] && s[0] == '`' then DropTicks(s[1..]) else s
  }

  class Chunker {
    var buffer: string
    var inCodeFence: bool
    var fenceMarker: string
    const min: nat
    const max: nat

    /** The marker is set exactly inside a fence. */
    ghost predicate Valid()
      reads this
    {
      fenceMarker == if inCodeFence then FENCE else ""
    }

    ghost function Value(): State
      reads this
    {
      State(buffer, inCodeFence, min, max)
    }

    constructor (minChunkChars: nat, maxChunkChars: nat)
      ensures Valid() && Value() == State("", false, minChunkChars, maxChunkChars)
    {
      buffer, inCodeFence, fenceMarker := "", false, "";
      min, max := minChunkChars, maxChunkChars;
    }

    method Push(text: string)
      requires Valid()
      modifies this
      ensures Valid() && Value() == PushTo(old(Value()), text)
    {
      var lines := Lines(text);
      for i := 0 to |lines|
        invariant Valid()
        invariant Value() == Fed(old(Value()), lines, i)
      {
        PushLine(lines[i]);
      }
      FedAll(old(Value()), text);
    }

    /** The body of the loop: append the line, and open or close the fence. */
    method PushLine(line: string)
      requires Valid()
      modifies this
      ensures Valid() && buffer == old(buffer) + line
      ensures inCodeFence == (old(inCodeFence) != IsFenceLine(line))
    {
      buffer := buffer + line;
      var trimmed := Trim(line);
      if FENCE <= trimmed {
        if inCodeFence {
          if trimmed == FENCE || fenceMarker <= trimmed {
            inCodeFence := false;
            fenceMarker := "";
          }
        } else {
          inCodeFence := true;
          fenceMarker := FENCE;
        }
      }
    }

    method TryFlush() returns (r: Flush)
      requires Valid()
      modifies this
      ensures Valid() && (r, Value()) == TryFlushOf(old(Value()))
    {
      if |buffer| < min {
        return Nothing;
      }
      if inCodeFence && |buffer| < max {
        return Nothing;
      }
      if inCodeFence && |buffer| >= max {
        r := Chunk(buffer + CLOSE);
        buffer := FENCE + DropTicks(fenceMarker) + "\n";
        ReopenedFence();
        return;
      }
      if max < min {
        return Panic;
      }
      var breakAt := FindBreak();
      if breakAt.Some? {
        r := Chunk(buffer[..breakAt.value]);
        buffer := buffer[breakAt.value..];
      } else {
        r := Nothing;
      }
    }

    /** The search for the best break point, from the most to the least preferred. */
    method FindBreak() returns (r: Option<nat>)
      requires min <= max && min <= |buffer|
      ensures r == BreakAt(buffer, min, max, 0)
      ensures r.Some? ==> r.value <= |buffer|
    {
      hide OccursIn, BreakAt, FindLastInRange;
      var hi := Min(|buffer|, max);
      for i := 0 to |BREAKS|
        invariant BreakAt(buffer, min, max, 0) == BreakAt(buffer, min, max, i)
      {
        var pattern := BREAKS[i];
        var pos := FindLastInRange(buffer, pattern, min, hi);
        BreakStep(buffer, min, max, i, pattern);
        if pos.Some? {
          OccursWithin(buffer, pattern, min, hi, pos.value);
          return Some(pos.value + |pattern|);
        }
      }
      BreakEnd(buffer, min, max);
      r := if |buffer| >= max then Some(max) else None;
    }

    method FlushRemaining() returns (r: Flush)
      requires Valid()
      modifies this
      ensures Valid() && (r, Value()) == FlushRemainingOf(old(Value()))
    {
      if buffer == "" {
        r := Nothing;
      } else {
        r := Chunk(buffer);
        buffer := "";
      }
    }
  }

  lemma ReopenedFence()
    ensures FENCE + DropTicks(FENCE) + "\n" == REOPEN
  {
    assert FENCE[1..] == "``" && "``"[1..] == "`" && "`"[1..] == "";
  }

  /** The chunker after the first `i` lines. */
  function Fed(c: State, lines: seq<string>, i: nat): State
    requires i <= |lines|
  {
    if i == 0 then c
    else
      var before := Fed(c, lines, i - 1);
      before.(buffer := before.buffer + lines[i - 1], inFence := before.inFence != IsFenceLine(lines[i - 1]))
  }

  lemma {:induction false} FedIs(c: State, lines: seq<string>, i: nat)
    requires i <= |lines|
    ensures Fed(c, lines, i)
         == c.(buffer := c.buffer + Concat(lines[..i]), inFence := c.inFence != Odd(FenceCount(lines[..i])))
  {
    hide IsFenceLine, Concat, FenceCount;
    if i == 0 {
      NoLines(lines);
    } else {
      FedIs(c, lines, i - 1);
      OneMoreLine(lines, i - 1);
      var sofar := Concat(lines[..i - 1]);
      assert c.buffer + sofar + lines[i - 1] == c.buffer + (sofar + lines[i - 1]);
    }
  }

  lemma NoLines(lines: seq<string>)
    ensures Concat(lines[..0]) == [] && FenceCount(lines[..0]) == 0
  {
    assert lines[..0] == [];
  }

  lemma FedAll(c: State, text: string)
    ensures Fed(c, Lines(text), |Lines(text)|) == PushTo(c, text)
  {
    var lines := Lines(text);
    FedIs(c, lines, |lines|);
    assert lines[..|lines|] == lines;
    LinesConcat(text);
  }

  lemma OneMoreLine(lines: seq<string>, i: nat)
    requires i < |lines|
    ensures Concat(lines[..i + 1]) == Concat(lines[..i]) + lines[i]
    ensures FenceCount(lines[..i + 1]) == FenceCount(lines[..i]) + if IsFenceLine(lines[i]) then 1 else 0
  {
    assert lines[..i + 1] == lines[..i] + [lines[i]];
    ConcatSnoc(lines[..i], lines[i]);
    FenceCountAppend(lines[..i], [lines[i]]);
    assert FenceCount([lines[i]]) == (if IsFenceLine(lines[i]) then 1 else 0) + FenceCount([lines[i]][1..]);
  }

  // ---------- draining ----------

  /** `n` calls of `try_flush` in a row all deliver a chunk. */
  ghost predicate Delivers(c: State, n: nat)
    decreases n
  {
    n == 0 || (TryFlushOf(c).0.Chunk? && Delivers(TryFlushOf(c).1, n - 1))
  }

  /** The reopened fence alone fills a chunk, or chunks of length 0 are allowed. */
  predicate Stuck(c: State) {
    && |c.buffer| >= c.min
    && if c.inFence then |c.buffer| >= c.max && |REOPEN| >= c.max && |REOPEN| >= c.min
       else c.min == 0 && c.max == 0
  }

  lemma {:induction false} StuckDelivers(c: State, n: nat)
    requires Stuck(c)
    ensures Delivers(c, n)
    decreases n
  {
    if n > 0 {
      if !c.inFence {
        BreakIsBest(c.buffer, c.min, c.max, 0);
      }
      StuckDelivers(TryFlushOf(c).1, n - 1);
    }
  }

  /** Every chunk makes the buffer shorter, unless the chunker is stuck. */
  lemma FlushShortens(c: State)
    requires !Stuck(c) && TryFlushOf(c).0.Chunk?
    ensures |TryFlushOf(c).1.buffer| < |c.buffer| && !Stuck(TryFlushOf(c).1)
  {
    if !c.inFence {
      BreakIsBest(c.buffer, c.min, c.max, 0);
    }
  }

  lemma {:induction false} UnstuckEnds(c: State)
    requires !Stuck(c)
    ensures !Delivers(c, |c.buffer| + 1)
    decreases |c.buffer|
  {
    hide TryFlushOf, Stuck;
    if TryFlushOf(c).0.Chunk? {
      FlushShortens(c);
      var next := TryFlushOf(c).1;
      UnstuckEnds(next);
      if Delivers(next, |c.buffer|) {
        DeliversFewer(next, |next.buffer| + 1, |c.buffer|);
      }
    }
  }

  lemma {:induction false} DeliversFewer(c: State, m: nat, n: nat)
    requires m <= n && Delivers(c, n)
    ensures Delivers(c, m)
    decreases n
  {
    hide TryFlushOf;
    if m > 0 {
      DeliversFewer(TryFlushOf(c).1, m - 1, n - 1);
    }
  }

  /** Calling `try_flush` until it delivers nothing goes on forever exactly when the chunker
      is stuck; in particular never with a maximum of at least 5. */
  lemma DrainsForeverIff(c: State)
    ensures (forall n: nat :: Delivers(c, n)) <==> Stuck(c)
    ensures c.max >= 5 ==> !Delivers(c, |c.buffer| + 1)
  {
    if Stuck(c) {
      forall n: nat ensures Delivers(c, n) { StuckDelivers(c, n); }
    } else {
      UnstuckEnds(c);
    }
  }

  /** With a maximum of 4 the reopened fence is flushed again and again. */
  lemma ReopenedForever(c: State, n: nat)
    requires c == State(REOPEN, true, 0, 4)
    ensures Delivers(c, n)
  {
    StuckDelivers(c, n);
  }

  // ---------- runs ----------

  datatype Call = Push(text: string) | TryFlush | FlushRemaining

  /** The chunks delivered so far and the chunker. */
  datatype Run = Run(chunks: seq<string>, c: State)

  function Deliver(chunks: seq<string>, f: Flush): seq<string> {
    if f.Chunk? then chunks + [f.text] else chunks
  }

  function Do(r: Run, call: Call): Run {
    match call
    case Push(text) => r.(c := PushTo(r.c, text))
    case TryFlush => var (f, c) := TryFlushOf(r.c); Run(Deliver(r.chunks, f), c)
    case FlushRemaining => var (f, c) := FlushRemainingOf(r.c); Run(Deliver(r.chunks, f), c)
  }

  function After(min: nat, max: nat, calls: seq<Call>): Run {
    if calls == [] then Run([], State("", false, min, max))
    else Do(After(min, max, calls[..|calls| - 1]), calls[|calls| - 1])
  }

  /** All the text pushed. */
  function Pushed(calls: seq<Call>): string {
    if calls == [] then ""
    else
      var n := |calls| - 1;
      Pushed(calls[..n]) + if calls[n].Push? then calls[n].text else ""
  }

  /** A call splits a fence when it flushes inside one; then the fence is closed and reopened. */
  predicate SplitsFence(r: Run, call: Call) {
    call.TryFlush? && r.c.inFence && TryFlushOf(r.c).0.Chunk?
  }

  function ForcedSplits(min: nat, max: nat, calls: seq<Call>): nat {
    if calls == [] then 0
    else
      var n := |calls| - 1;
      ForcedSplits(min, max, calls[..n]) + if SplitsFence(After(min, max, calls[..n]), calls[n]) then 1 else 0
  }

  /** The segments with a closed and a reopened fence between them. */
  function Spliced(segments: seq<string>): string {
    if segments == [] then ""
    else
      var n := |segments| - 1;
      if n == 0 then segments[0] else Spliced(segments[..n]) + (CLOSE + REOPEN) + segments[n]
  }

  /** The delivered text and the buffer are the pushed text, cut into segments at the forced
      splits, with the fence closed and reopened between segments. */
  ghost predicate Conserved(segments: seq<string>, splits: nat, pushed: string, r: Run) {
    && |segments| == 1 + splits
    && Concat(segments) == pushed
    && Spliced(segments) == Concat(r.chunks) + r.c.buffer
  }

  lemma SplicedExtend(segments: seq<string>, text: string)
    requires segments != []
    ensures var n := |segments| - 1;
      && Spliced(segments[n := segments[n] + text]) == Spliced(segments) + text
      && Concat(segments[n := segments[n] + text]) == Concat(segments) + text
  {
    var n := |segments| - 1;
    var front, last := segments[..n], segments[n];
    var longer := segments[n := last + text];
    assert segments == front + [last] && longer == front + [last + text];
    hide Concat, Spliced;
    ConcatSnoc(front, last);
    ConcatSnoc(front, last + text);
    Associate(Concat(front), last, text);
    SplicedSnoc(front, last);
    SplicedSnoc(front, last + text);
    Associate(Spliced(front) + (CLOSE + REOPEN), last, text);
  }

  lemma Associate(a: string, b: string, c: string)
    ensures a + (b + c) == (a + b) + c
  {
  }

  lemma SplicedSnoc(front: seq<string>, last: string)
    ensures Spliced(front + [last]) == if front == [] then last else Spliced(front) + (CLOSE + REOPEN) + last
  {
    assert (front + [last])[..|front|] == front;
  }

  lemma SplicedSplit(segments: seq<string>)
    requires segments != []
    ensures Spliced(segments + [""]) == Spliced(segments) + CLOSE + REOPEN
    ensures Concat(segments + [""]) == Concat(segments)
  {
    assert (segments + [""])[..|segments|] == segments;
    ConcatSnoc(segments, "");
  }

  lemma ChunkIsPrefix(c: State)
    requires TryFlushOf(c).0.Chunk?
    ensures var (f, next) := TryFlushOf(c);
      if c.inFence then f.text == c.buffer + CLOSE && next.buffer == REOPEN
      else f.text + next.buffer == c.buffer
  {
    hide BestBreak, BreakAt;
    if !c.inFence {
      BreakIsBest(c.buffer, c.min, c.max, 0);
    }
  }

  /** What a flush does to the delivered text followed by the buffer. */
  lemma FlushKeepsText(chunks: seq<string>, c: State)
    ensures var (f, next) := TryFlushOf(c);
      Concat(Deliver(chunks, f)) + next.buffer
      == Concat(chunks) + c.buffer + if c.inFence && f.Chunk? then CLOSE + REOPEN else ""
  {
    hide BreakAt;
    var (f, next) := TryFlushOf(c);
    if f.Chunk? {
      ConcatSnoc(chunks, f.text);
      ChunkIsPrefix(c);
    }
  }

  lemma FlushRemainingKeepsText(chunks: seq<string>, c: State)
    ensures var (f, next) := FlushRemainingOf(c);
      Concat(Deliver(chunks, f)) + next.buffer == Concat(chunks) + c.buffer
  {
    ConcatSnoc(chunks, c.buffer);
  }

  lemma FlushKeepsFence(c: State)
    ensures TryFlushOf(c).1.inFence == c.inFence && FlushRemainingOf(c).1.inFence == c.inFence
  {
  }

  lemma PushConserves(segments: seq<string>, splits: nat, pushed: string, r: Run, text: string)
      returns (longer: seq<string>)
    requires Conserved(segments, splits, pushed, r)
    ensures Conserved(longer, splits, pushed + text, Do(r, Push(text)))
  {
    hide Spliced, Concat, Lines, FenceCount;
    var n := |segments| - 1;
    longer := segments[n := segments[n] + text];
    SplicedExtend(segments, text);
    assert Concat(r.chunks) + (r.c.buffer + text) == Concat(r.chunks) + r.c.buffer + text;
  }

  lemma TryFlushConserves(segments: seq<string>, splits: nat, pushed: string, r: Run) returns (more: seq<string>)
    requires Conserved(segments, splits, pushed, r)
    ensures Conserved(more, splits + (if SplitsFence(r, TryFlush) then 1 else 0), pushed, Do(r, TryFlush))
  {
    hide Spliced, Concat, Deliver, TryFlushOf;
    FlushKeepsText(r.chunks, r.c);
    var text := Concat(r.chunks) + r.c.buffer;
    if SplitsFence(r, TryFlush) {
      more := segments + [""];
      SplicedSplit(segments);
      assert text + (CLOSE + REOPEN) == text + CLOSE + REOPEN;
    } else {
      more := segments;
      assert text + "" == text;
    }
  }

  lemma FlushRemainingConserves(segments: seq<string>, splits: nat, pushed: string, r: Run)
    requires Conserved(segments, splits, pushed, r)
    ensures Conserved(segments, splits, pushed, Do(r, FlushRemaining))
  {
    hide Spliced, Concat, Deliver, FlushRemainingOf;
    FlushRemainingKeepsText(r.chunks, r.c);
  }

  lemma NothingConserved(r: Run)
    requires r.chunks == [] && r.c.buffer == ""
    ensures Conserved([""], 0, "", r)
  {
    ConcatOne("");
    assert Concat<char>([]) + "" == "";
  }

  /** Runs by their last call. */
  lemma RunSnoc(min: nat, max: nat, calls: seq<Call>, before: seq<Call>, call: Call)
    requires calls == before + [call]
    ensures After(min, max, calls) == Do(After(min, max, before), call)
    ensures Pushed(calls) == Pushed(before) + (if call.Push? then call.text else "")
    ensures ForcedSplits(min, max, calls)
         == ForcedSplits(min, max, before) + (if SplitsFence(After(min, max, before), call) then 1 else 0)
  {
    hide Do, SplitsFence;
    assert calls[..|calls| - 1] == before;
  }

  lemma OnlyTryFlushSplits(r: Run, call: Call)
    requires !call.TryFlush?
    ensures !SplitsFence(r, call)
  {
  }

  /** Conservation over every run: nothing is added, lost or reordered, except one closed and
      reopened fence per forced split. */
  lemma {:induction false} Conservation(min: nat, max: nat, calls: seq<Call>) returns (segments: seq<string>)
    ensures Conserved(segments, ForcedSplits(min, max, calls), Pushed(calls), After(min, max, calls))
    decreases |calls|
  {
    if calls == [] {
      segments := [""];
      NothingConserved(After(min, max, calls));
    } else {
      hide Conserved, Do, After, Pushed, ForcedSplits, SplitsFence;
      var before, call := calls[..|calls| - 1], calls[|calls| - 1];
      var r, splits, pushed := After(min, max, before), ForcedSplits(min, max, before), Pushed(before);
      assert calls == before + [call];
      RunSnoc(min, max, calls, before, call);
      segments := Conservation(min, max, before);
      match call
      case Push(text) =>
        OnlyTryFlushSplits(r, call);
        segments := PushConserves(segments, splits, pushed, r, text);
      case TryFlush =>
        assert pushed + "" == pushed;
        segments := TryFlushConserves(segments, splits, pushed, r);
      case FlushRemaining =>
        assert pushed + "" == pushed;
        OnlyTryFlushSplits(r, call);
        FlushRemainingConserves(segments, splits, pushed, r);
    }
  }
}
