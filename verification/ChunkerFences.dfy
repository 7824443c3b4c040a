/** Fenced code blocks and the chunker: when the fence flag is right, and when a chunk ends
    inside a block. */
module ChunkerFences {
  import opened Options
  import opened Sequences
  import opened Texts
  import opened StreamChunker

  // ---------- where two pushes meet ----------

  /** The unfinished last line of a text; empty if the text ends with a newline. */
  function LastLine(a: string): (l: string)
    ensures |l| <= |a|
  {
    if WholeLines(a) then [] else LastLine(a[..|a| - 1]) + [a[|a| - 1]]
  }

  function FirstLine(b: string): (f: string)
    ensures |f| <= |b|
  {
    if b == [] then [] else b[..LineLength(b)]
  }

  lemma {:induction false} LastLineIs(a: string)
    ensures var n := |a| - |LastLine(a)|;
      WholeLines(a[..n]) && a[n..] == LastLine(a) && '\n' !in LastLine(a)
  {
    if !WholeLines(a) {
      var k := |a| - 1;
      LastLineIs(a[..k]);
      var n := |a| - |LastLine(a)|;
      assert a[..k][..n] == a[..n] && a[n..] == a[..k][n..] + [a[k]];
    }
  }

  lemma {:induction false} LineLengthAfter(l: string, b: string)
    requires '\n' !in l
    ensures b != [] ==> LineLength(l + b) == |l| + LineLength(b)
    ensures b == [] && l != [] ==> LineLength(l + b) == |l|
  {
    if l == [] {
      assert l + b == b;
    } else {
      assert (l + b)[1..] == l[1..] + b && (l + b)[0] == l[0];
      assert l[0] in l && forall c :: c in l[1..] ==> c in l;
      LineLengthAfter(l[1..], b);
    }
  }

  /** The lines of an unfinished line followed by more text. */
  lemma LinesAfter(l: string, b: string)
    requires '\n' !in l && l + b != []
    ensures Lines(l + b) == [l + FirstLine(b)] + Lines(b[|FirstLine(b)|..])
  {
    hide LineLength;
    var s, n := l + b, |l| + |FirstLine(b)|;
    LineLengthAfter(l, b);
    assert s[..n] == l + FirstLine(b) && s[n..] == b[|FirstLine(b)|..];
    assert Lines(s) == [s[..n]] + Lines(s[n..]);
  }

  function Fence(line: string): nat {
    if IsFenceLine(line) then 1 else 0
  }

  lemma FenceCountCons(line: string, rest: seq<string>)
    ensures FenceCount([line] + rest) == Fence(line) + FenceCount(rest)
  {
    assert ([line] + rest)[1..] == rest;
  }

  lemma EmptyIsNoFence()
    ensures Fence([]) == 0 && Lines([]) == [] && FenceCount([]) == 0
  {
  }

  /** The fence lines of an unfinished line followed by more text. */
  lemma FencesAfter(l: string, b: string)
    requires '\n' !in l
    ensures FenceCount(Lines(l + b)) == Fence(l + FirstLine(b)) + FenceCount(Lines(b[|FirstLine(b)|..]))
  {
    hide Lines, LineLength, IsFenceLine, FenceCount, Fence;
    EmptyIsNoFence();
    if l + b != [] {
      LinesAfter(l, b);
      FenceCountCons(l + FirstLine(b), Lines(b[|FirstLine(b)|..]));
    }
  }

  /** The fence lines of a text: those of its finished part, and its last line. */
  lemma FencesBefore(a: string, b: string) returns (n: nat)
    ensures FenceCount(Lines(a)) == n + Fence(LastLine(a))
    ensures FenceCount(Lines(a + b)) == n + FenceCount(Lines(LastLine(a) + b))
  {
    hide Lines, LineLength, IsFenceLine, FenceCount, Fence;
    var l := LastLine(a);
    var k := |a| - |l|;
    LastLineIs(a);
    hide LastLine;
    n := FenceCount(Lines(a[..k]));
    Joined(a[..k], l);
    Joined(a[..k], l + b);
    assert a[..k] + l == a && a[..k] + (l + b) == a + b;
    LoneLine(l);
  }

  lemma LoneLine(l: string)
    requires '\n' !in l
    ensures FenceCount(Lines(l)) == Fence(l)
  {
    hide Lines, LineLength, IsFenceLine, FenceCount, Fence;
    FencesAfter(l, []);
    assert l + [] == l && FirstLine([]) == [];
    EmptyIsNoFence();
  }

  lemma FencesFrom(b: string)
    ensures FenceCount(Lines(b)) == Fence(FirstLine(b)) + FenceCount(Lines(b[|FirstLine(b)|..]))
  {
    hide Lines, LineLength, IsFenceLine, FenceCount, Fence;
    FencesAfter([], b);
    assert [] + b == b && [] + FirstLine(b) == FirstLine(b);
  }

  /** Counting the fence lines of two pieces separately and together. */
  lemma SeamCounts(a: string, b: string) returns (before: nat, after: nat)
    ensures FenceCount(Lines(a)) == before + Fence(LastLine(a))
    ensures FenceCount(Lines(b)) == Fence(FirstLine(b)) + after
    ensures FenceCount(Lines(a + b)) == before + Fence(LastLine(a) + FirstLine(b)) + after
  {
    hide Lines, LineLength, IsFenceLine, FenceCount, Fence, FirstLine;
    before := FencesBefore(a, b);
    after := FenceCount(Lines(b[|FirstLine(b)|..]));
    FencesFrom(b);
    LastLineIs(a);
    FencesAfter(LastLine(a), b);
  }

  lemma Joined(a: string, b: string)
    requires WholeLines(a)
    ensures FenceCount(Lines(a + b)) == FenceCount(Lines(a)) + FenceCount(Lines(b))
  {
    LinesAppend(a, b);
    FenceCountAppend(Lines(a), Lines(b));
  }

  /** The fence lines of the text, counted by parity. */
  predicate OpenAtEnd(text: string) {
    Odd(FenceCount(Lines(text)))
  }

  /** The line that is cut between the pushes `a` and `b` counts the same in two pieces. */
  predicate SeamKept(a: string, b: string) {
    (IsFenceLine(LastLine(a)) != IsFenceLine(FirstLine(b))) == IsFenceLine(LastLine(a) + FirstLine(b))
  }

  /** Pushing in two pieces tracks the fence as pushing at once does, exactly when the cut
      line counts the same. */
  lemma SeamIff(a: string, b: string)
    ensures (OpenAtEnd(a) != OpenAtEnd(b)) == OpenAtEnd(a + b) <==> SeamKept(a, b)
  {
    hide Lines, FenceCount, IsFenceLine;
    var before, after := SeamCounts(a, b);
  }

  // ---------- the fence flag over runs ----------

  predicate BadSeam(before: seq<Call>, call: Call) {
    call.Push? && !SeamKept(Pushed(before), call.text)
  }

  /** The number of pushes so far whose seam is not kept. */
  function BadSeams(calls: seq<Call>): nat {
    if calls == [] then 0
    else
      var n := |calls| - 1;
      BadSeams(calls[..n]) + if BadSeam(calls[..n], calls[n]) then 1 else 0
  }

  ghost predicate FlagRight(min: nat, max: nat, calls: seq<Call>) {
    After(min, max, calls).c.inFence == OpenAtEnd(Pushed(calls))
  }

  /** The flag is wrong after a run exactly when an odd number of seams was not kept. */
  lemma {:induction false} FlagRightIff(min: nat, max: nat, calls: seq<Call>)
    ensures FlagRight(min, max, calls) <==> !Odd(BadSeams(calls))
    decreases |calls|
  {
    hide TryFlushOf, FlushRemainingOf, OpenAtEnd, SeamKept;
    if calls == [] {
      NothingOpen();
    } else {
      var n := |calls| - 1;
      var before, call := calls[..n], calls[n];
      FlagRightIff(min, max, before);
      FlushKeepsFence(After(min, max, before).c);
      if call.Push? {
        SeamIff(Pushed(before), call.text);
        PushTogglesFlag(After(min, max, before).c, call.text);
      } else {
        assert Pushed(calls) == Pushed(before);
      }
    }
  }

  lemma NothingOpen()
    ensures !OpenAtEnd("")
  {
  }

  lemma PushTogglesFlag(c: State, text: string)
    ensures PushTo(c, text).inFence == (c.inFence != OpenAtEnd(text))
  {
  }

  ghost predicate AlwaysRight(min: nat, max: nat, calls: seq<Call>) {
    forall k :: 0 <= k <= |calls| ==> FlagRight(min, max, calls[..k])
  }

  ghost predicate SeamsKept(calls: seq<Call>) {
    forall k :: 0 <= k < |calls| ==> !BadSeam(calls[..k], calls[k])
  }

  /** The flag is right throughout a run exactly when every seam is kept. */
  lemma AlwaysRightIff(min: nat, max: nat, calls: seq<Call>)
    ensures AlwaysRight(min, max, calls) <==> SeamsKept(calls)
  {
    hide FlagRight, BadSeam;
    if SeamsKept(calls) {
      forall k | 0 <= k <= |calls|
        ensures FlagRight(min, max, calls[..k])
      {
        NoBadSeams(calls, k);
        FlagRightIff(min, max, calls[..k]);
      }
    }
    if AlwaysRight(min, max, calls) {
      forall k | 0 <= k < |calls|
        ensures !BadSeam(calls[..k], calls[k])
      {
        FlagRightIff(min, max, calls[..k]);
        FlagRightIff(min, max, calls[..k + 1]);
        assert calls[..k + 1][..k] == calls[..k];
      }
    }
  }

  lemma {:induction false} NoBadSeams(calls: seq<Call>, k: nat)
    requires SeamsKept(calls) && k <= |calls|
    ensures BadSeams(calls[..k]) == 0
  {
    hide BadSeam;
    if k > 0 {
      NoBadSeams(calls, k - 1);
      assert calls[..k][..k - 1] == calls[..k - 1];
    }
  }

  /** Fence tracking does not depend on how the text is cut into pushes, as long as it is cut
      between lines; flushing does not disturb it. */
  lemma FenceIsParity(min: nat, max: nat, calls: seq<Call>)
    requires forall k :: 0 <= k < |calls| && calls[k].Push? ==> WholeLines(calls[k].text)
    ensures AlwaysRight(min, max, calls)
  {
    hide AlwaysRight;
    forall k | 0 <= k < |calls|
      ensures !BadSeam(calls[..k], calls[k])
    {
      PushedWholeLines(calls[..k]);
      WholeSeam(Pushed(calls[..k]), if calls[k].Push? then calls[k].text else "");
    }
    AlwaysRightIff(min, max, calls);
  }

  lemma WholeSeam(a: string, b: string)
    requires WholeLines(a)
    ensures SeamKept(a, b)
  {
    assert [] + FirstLine(b) == FirstLine(b);
    EmptyIsNoFence();
  }

  lemma {:induction false} PushedWholeLines(calls: seq<Call>)
    requires forall k :: 0 <= k < |calls| && calls[k].Push? ==> WholeLines(calls[k].text)
    ensures WholeLines(Pushed(calls))
    decreases |calls|
  {
    if calls != [] {
      PushedWholeLines(calls[..|calls| - 1]);
    }
  }

  lemma ShortIsNoFence(line: string)
    requires |line| < |FENCE|
    ensures !IsFenceLine(line)
  {
    hide TrimStart;
    FenceIff(line);
  }

  lemma TicksAreFence(line: string)
    requires FENCE <= line
    ensures IsFenceLine(line)
  {
    assert line[0] == FENCE[0];
    FenceIff(line);
  }

  lemma LastLineWithoutNewline(a: string)
    requires '\n' !in a
    ensures LastLine(a) == a
  {
    LastLineIs(a);
  }

  lemma MarkerInPieces(a: string, b: string)
    requires a == "``" && b == "`\n"
    ensures !SeamKept(a, b)
  {
    hide LineLength, IsFenceLine, LastLine;
    assert '\n' !in a && b == "`" + "\n";
    LastLineWithoutNewline(a);
    LineLengthAfter("`", "\n");
    NewlineAlone();
    assert b[..2] == b;
    assert FirstLine(b) == b;
    ShortIsNoFence(a);
    ShortIsNoFence(b);
    assert (a + b)[..3] == FENCE;
    TicksAreFence(a + b);
  }

  lemma NewlineAlone()
    ensures LineLength("\n") == 1
  {
  }

  /** A fence marker that arrives in two pieces is missed. */
  lemma CutInsideLineMatters()
    ensures !SeamKept("``", "`\n")
    ensures !FlagRight(1, 2, [Push("``"), Push("`\n")])
  {
    hide SeamKept, FlagRight;
    MarkerInPieces("``", "`\n");
    var first, calls := [Push("``")], [Push("``"), Push("`\n")];
    assert calls[..1] == first && first[..0] == [];
    assert Pushed([]) == "" && Pushed(first) == "``";
    WholeSeam("", "``");
    assert BadSeams(first) == 0 && BadSeams(calls) == 1;
    FlagRightIff(1, 2, calls);
  }

  // ---------- positions inside a block ----------

  /** Where the marker of a fence line ends, from the start of the line. */
  function MarkerLength(line: string): nat {
    |line| - |TrimStart(line)| + |FENCE|
  }

  function Marker(lines: seq<string>, i: nat): nat
    requires i < |lines|
  {
    |Concat(lines[..i])| + MarkerLength(lines[i])
  }

  /** Line `i` opens a block: it is a fence line after an even number of fence lines. */
  predicate Opens(lines: seq<string>, i: nat)
    requires i < |lines|
  {
    IsFenceLine(lines[i]) && !Odd(FenceCount(lines[..i]))
  }

  /** Of the fence lines from `i` on only that of line `i` has its marker before `p`. */
  ghost predicate LastMarker(lines: seq<string>, i: nat, p: int)
    requires i < |lines|
  {
    && IsFenceLine(lines[i]) && Marker(lines, i) <= p
    && forall j :: i < j < |lines| && IsFenceLine(lines[j]) ==> p < Marker(lines, j)
  }

  /** Position `p` lies between the marker that opens a block and the marker that closes it, or
      the end of the text if the block is not closed. */
  ghost predicate InBlock(text: string, p: nat) {
    exists i :: 0 <= i < |Lines(text)| && Opens(Lines(text), i) && LastMarker(Lines(text), i, p)
  }

  /** How many fence markers end at or before `p`. */
  function MarkersBefore(lines: seq<string>, p: int): nat {
    if lines == [] then 0
    else
      var first := if IsFenceLine(lines[0]) && MarkerLength(lines[0]) <= p then 1 else 0;
      first + MarkersBefore(lines[1..], p - |lines[0]|)
  }

  lemma {:induction false} NoMarkers(lines: seq<string>, p: int)
    requires forall j :: 0 <= j < |lines| && IsFenceLine(lines[j]) ==> p < Marker(lines, j)
    ensures MarkersBefore(lines, p) == 0
    decreases lines
  {
    hide IsFenceLine, MarkerLength;
    if lines != [] {
      assert Marker(lines, 0) == MarkerLength(lines[0]) by { assert lines[..0] == []; }
      forall j | 0 <= j < |lines[1..]| && IsFenceLine(lines[1..][j])
        ensures p - |lines[0]| < Marker(lines[1..], j)
      {
        MarkerTail(lines, j + 1);
      }
      NoMarkers(lines[1..], p - |lines[0]|);
    }
  }

  lemma MarkerTail(lines: seq<string>, j: nat)
    requires 0 < j < |lines|
    ensures Marker(lines, j) == |lines[0]| + Marker(lines[1..], j - 1)
    ensures |lines[0]| <= |Concat(lines[..j])|
  {
    hide MarkerLength;
    assert lines[..j][1..] == lines[1..][..j - 1];
    assert Concat(lines[..j]) == lines[0] + Concat(lines[1..][..j - 1]);
  }

  lemma LastMarkerTail(lines: seq<string>, i: nat, p: int)
    requires 0 < i < |lines|
    ensures LastMarker(lines, i, p) <==> LastMarker(lines[1..], i - 1, p - |lines[0]|)
  {
    hide IsFenceLine, MarkerLength, Marker;
    MarkerTail(lines, i);
    forall j | i < j < |lines|
      ensures Marker(lines, j) == |lines[0]| + Marker(lines[1..], j - 1) && lines[j] == lines[1..][j - 1]
    {
      MarkerTail(lines, j);
    }
    if LastMarker(lines[1..], i - 1, p - |lines[0]|) {
      forall j | i < j < |lines| && IsFenceLine(lines[j])
        ensures p < Marker(lines, j)
      {
        assert IsFenceLine(lines[1..][j - 1]);
      }
    }
  }

  lemma FenceHasMarker(line: string)
    requires IsFenceLine(line)
    ensures |FENCE| <= MarkerLength(line) <= |line|
  {
    FenceIff(line);
    assert |TrimStart(line)| >= |FENCE|;
  }

  /** The markers before `p` are those up to the last one. */
  lemma {:induction false} CountToLast(lines: seq<string>, i: nat, p: int)
    requires i < |lines| && LastMarker(lines, i, p)
    ensures MarkersBefore(lines, p) == FenceCount(lines[..i]) + 1
    decreases i
  {
    hide IsFenceLine, MarkerLength;
    var rest := lines[1..];
    if i == 0 {
      assert lines[..0] == [] && Marker(lines, 0) == MarkerLength(lines[0]);
      forall j | 0 <= j < |rest| && IsFenceLine(rest[j])
        ensures p - |lines[0]| < Marker(rest, j)
      {
        MarkerTail(lines, j + 1);
      }
      NoMarkers(rest, p - |lines[0]|);
    } else {
      LastMarkerTail(lines, i, p);
      CountToLast(rest, i - 1, p - |lines[0]|);
      MarkerTail(lines, i);
      assert lines[..i][1..] == rest[..i - 1];
      if IsFenceLine(lines[0]) {
        FenceHasMarker(lines[0]);
      }
    }
  }

  lemma {:induction false} SomeLast(lines: seq<string>, p: int) returns (i: nat)
    requires MarkersBefore(lines, p) > 0
    ensures i < |lines| && LastMarker(lines, i, p)
    decreases lines
  {
    hide IsFenceLine, MarkerLength;
    var rest, q := lines[1..], p - |lines[0]|;
    if MarkersBefore(rest, q) > 0 {
      var k := SomeLast(rest, q);
      i := k + 1;
      LastMarkerTail(lines, i, p);
    } else {
      i := 0;
      assert Marker(lines, 0) == MarkerLength(lines[0]) by { assert lines[..0] == []; }
      forall j | 0 < j < |lines| && IsFenceLine(lines[j])
        ensures p < Marker(lines, j)
      {
        MarkerTail(lines, j);
        NoneBefore(rest, q, j - 1);
      }
    }
  }

  lemma {:induction false} NoneBefore(lines: seq<string>, p: int, j: nat)
    requires MarkersBefore(lines, p) == 0 && j < |lines| && IsFenceLine(lines[j])
    ensures p < Marker(lines, j)
    decreases j
  {
    hide IsFenceLine, MarkerLength;
    if j == 0 {
      assert Marker(lines, 0) == MarkerLength(lines[0]) by { assert lines[..0] == []; }
    } else {
      NoneBefore(lines[1..], p - |lines[0]|, j - 1);
      MarkerTail(lines, j);
    }
  }

  // ---------- the fence lines of a prefix ----------

  lemma {:induction false} TrimEndPrefix(s: string, n: nat)
    requires n <= |s| && (n == 0 || !IsSpace(s[n - 1]))
    ensures TrimEnd(s) <= s && n <= |TrimEnd(s)|
  {
    if s != [] && IsSpace(s[|s| - 1]) {
      TrimEndPrefix(s[..|s| - 1], n);
    }
  }

  lemma FenceIff(line: string)
    ensures IsFenceLine(line) <==> FENCE <= TrimStart(line)
  {
    hide TrimStart, TrimEnd;
    var s := TrimStart(line);
    if FENCE <= s {
      assert s[2] == FENCE[2];
      TrimEndPrefix(s, 3);
      assert TrimEnd(s)[..3] == s[..3];
    } else {
      TrimEndPrefix(s, 0);
    }
  }

  /** A fence line starts, after white space, with three backticks. */
  lemma FenceLineIff(line: string)
    ensures IsFenceLine(line) <==> exists i :: StartsFence(line, i)
  {
    hide IsFenceLine, TrimStart;
    FenceIff(line);
    var i := TrimStartIs(line);
    if FENCE <= TrimStart(line) {
      assert line[i..][..3] == line[i..i + 3];
      assert StartsFence(line, i);
    }
    if j :| StartsFence(line, j) {
      assert line[j..j + 3][0] == line[j];
      assert i < j ==> line[i..][0] == line[i];
      assert line[i..i + 3] == line[i..][..3];
    }
  }

  ghost predicate StartsFence(line: string, i: int) {
    0 <= i && i + 3 <= |line| && line[i..i + 3] == "```" && forall k :: 0 <= k < i ==> IsSpace(line[k])
  }

  lemma {:induction false} TrimStartOfPrefix(s: string, p: nat)
    requires p <= |s|
    ensures var k := |s| - |TrimStart(s)|;
      TrimStart(s[..p]) == if p <= k then [] else TrimStart(s)[..p - k]
  {
    if s != [] && IsSpace(s[0]) {
      if p > 0 {
        TrimStartOfPrefix(s[1..], p - 1);
        assert s[..p][1..] == s[1..][..p - 1];
      }
    }
  }

  /** A piece of a line is a fence line exactly when it holds the marker of one. */
  lemma FenceOfPrefix(line: string, p: nat)
    requires p <= |line|
    ensures IsFenceLine(line[..p]) <==> IsFenceLine(line) && MarkerLength(line) <= p
  {
    hide TrimStart, IsFenceLine;
    FenceIff(line);
    FenceIff(line[..p]);
    TrimStartOfPrefix(line, p);
    var s := TrimStart(line);
    var k := |line| - |s|;
    if k < p {
      assert FENCE <= s[..p - k] <==> FENCE <= s && |FENCE| <= p - k;
    }
  }

  lemma {:induction false} LineLengthOfPrefix(text: string, p: nat)
    requires 0 < p <= |text|
    ensures LineLength(text[..p]) == Min(p, LineLength(text))
  {
    if text[0] != '\n' && p > 1 {
      LineLengthOfPrefix(text[1..], p - 1);
      assert text[..p][1..] == text[1..][..p - 1];
    }
  }

  /** Cutting a text keeps exactly the fence lines whose marker is before the cut. */
  lemma {:induction false} FencesOfPrefix(text: string, p: nat)
    requires p <= |text|
    ensures FenceCount(Lines(text[..p])) == MarkersBefore(Lines(text), p)
    decreases |text|
  {
    hide LineLength, IsFenceLine, MarkerLength, Lines, FenceCount, MarkersBefore;
    if p == 0 {
      NothingBeforeStart(Lines(text), 0);
      assert text[..0] == [];
      EmptyIsNoFence();
    } else {
      var n := LineLength(text);
      LineLengthOfPrefix(text, p);
      FirstMarker(text, p);
      if p <= n {
        FenceOfPrefix(text[..n], p);
        OneLine(text[..p]);
        assert text[..p] == text[..n][..p];
        NothingBeforeStart(Lines(text[n..]), p - n);
      } else {
        FencesOfPrefix(text[n..], p - n);
        FenceOfPrefix(text[..n], n);
        assert text[..n][..n] == text[..n];
        FirstOfPrefix(text, p, n);
      }
    }
  }

  lemma FirstMarker(text: string, p: int)
    requires text != []
    ensures var n := LineLength(text);
      MarkersBefore(Lines(text), p)
      == (if IsFenceLine(text[..n]) && MarkerLength(text[..n]) <= p then 1 else 0) +
        MarkersBefore(Lines(text[n..]), p - n)
  {
    hide LineLength, IsFenceLine, MarkerLength;
    var n := LineLength(text);
    assert Lines(text) == [text[..n]] + Lines(text[n..]);
    assert Lines(text)[1..] == Lines(text[n..]);
  }

  lemma OneLine(piece: string)
    requires piece != [] && LineLength(piece) == |piece|
    ensures FenceCount(Lines(piece)) == Fence(piece)
  {
    hide LineLength, IsFenceLine;
    assert piece[..|piece|] == piece && piece[|piece|..] == [];
    assert Lines(piece) == [piece] + Lines([]);
    FenceCountCons(piece, []);
  }

  lemma FirstOfPrefix(text: string, p: nat, n: nat)
    requires 0 < n < p <= |text| && LineLength(text[..p]) == n
    ensures FenceCount(Lines(text[..p])) == Fence(text[..n]) + FenceCount(Lines(text[n..][..p - n]))
  {
    hide LineLength, IsFenceLine;
    var s := text[..p];
    assert s[..n] == text[..n] && s[n..] == text[n..][..p - n];
    assert Lines(s) == [s[..n]] + Lines(s[n..]);
    FenceCountCons(s[..n], Lines(s[n..]));
  }

  lemma {:induction false} NothingBeforeStart(lines: seq<string>, p: int)
    requires p <= 0
    ensures MarkersBefore(lines, p) == 0
    decreases lines
  {
    hide IsFenceLine, MarkerLength;
    if lines != [] {
      if IsFenceLine(lines[0]) {
        FenceHasMarker(lines[0]);
      }
      NothingBeforeStart(lines[1..], p - |lines[0]|);
    }
  }

  /** A position is inside a block exactly when the text up to it, read on its own, leaves a
      fence open. */
  lemma InBlockIff(text: string, p: nat)
    requires p <= |text|
    ensures InBlock(text, p) <==> OpenAtEnd(text[..p])
  {
    hide Lines, FenceCount, MarkersBefore, LastMarker, IsFenceLine;
    var lines := Lines(text);
    FencesOfPrefix(text, p);
    if MarkersBefore(lines, p) > 0 {
      var i := SomeLast(lines, p);
      CountToLast(lines, i, p);
      IsFence(lines, i, p);
    }
    if InBlock(text, p) {
      var i :| 0 <= i < |lines| && Opens(lines, i) && LastMarker(lines, i, p);
      CountToLast(lines, i, p);
    }
  }

  lemma IsFence(lines: seq<string>, i: nat, p: int)
    requires i < |lines| && LastMarker(lines, i, p)
    ensures IsFenceLine(lines[i])
  {
  }

  /** More text does not change which earlier positions are inside a block. */
  lemma InBlockStable(text: string, more: string, p: nat)
    requires p <= |text| && text <= more
    ensures InBlock(more, p) <==> InBlock(text, p)
  {
    hide InBlock, OpenAtEnd;
    InBlockIff(text, p);
    InBlockIff(more, p);
    assert more[..p] == text[..p];
  }

  // ---------- one flush ----------

  /** Outside a fence the chunk ends at the best break if there is one, and it leaves a fence
      open exactly when that break is inside a block of the buffer. */
  lemma CutInBlockIff(c: State, b: nat)
    requires !c.inFence && c.min <= c.max && c.min <= |c.buffer| && BestBreak(c.buffer, c.min, c.max, b)
    ensures b <= |c.buffer| && TryFlushOf(c).0 == Chunk(c.buffer[..b])
    ensures OpenAtEnd(c.buffer[..b]) <==> InBlock(c.buffer, b)
  {
    hide InBlock, OpenAtEnd;
    BestBreakIsCut(c, b);
    InBlockIff(c.buffer, b);
  }

  lemma BestBreakIsCut(c: State, b: nat)
    requires !c.inFence && c.min <= c.max && c.min <= |c.buffer| && BestBreak(c.buffer, c.min, c.max, b)
    ensures b <= |c.buffer| && TryFlushOf(c).0 == Chunk(c.buffer[..b])
  {
    BreakIsBest(c.buffer, c.min, c.max, 0);
    BestBreakFound(c.buffer, c.min, c.max, b);
    hide BestBreak, BreakAt;
  }

  lemma BestBreakFound(text: string, min: nat, max: nat, b: nat)
    requires min <= max && min <= |text| && BestBreak(text, min, max, b)
    ensures BreakAt(text, min, max, 0) == Some(b)
  {
    BreakIsBest(text, min, max, 0);
    match BreakAt(text, min, max, 0)
    case None => NoBreakIff(text, min, max, 0);
    case Some(found) => BestBreakUnique(text, min, max, b, found);
  }

  /** Inside a fence a chunk is delivered exactly when the buffer has reached both limits. */
  lemma ForcedSplitIff(c: State)
    requires c.inFence
    ensures TryFlushOf(c).0.Chunk? <==> |c.buffer| >= c.min && |c.buffer| >= c.max
    ensures TryFlushOf(c).0.Chunk? ==> TryFlushOf(c) == (Chunk(c.buffer + "\n```\n"), c.(buffer := "```\n"))
  {
  }

  // ---------- chunks with balanced fences ----------

  /** White space at the end of a line does not matter. */
  lemma FenceWithNewline(l: string)
    ensures IsFenceLine(l + "\n") <==> IsFenceLine(l)
  {
    hide IsFenceLine;
    FenceOfPrefix(l + "\n", |l|);
    assert (l + "\n")[..|l|] == l;
    if IsFenceLine(l + "\n") {
      MarkerBeforeNewline(l);
    }
  }

  lemma MarkerBeforeNewline(l: string)
    requires IsFenceLine(l + "\n")
    ensures MarkerLength(l + "\n") <= |l|
  {
    hide TrimStart, IsFenceLine;
    var s := TrimStart(l + "\n");
    FenceIff(l + "\n");
    TrimStartSuffix(l + "\n");
    assert s[|s| - 1] == (l + "\n")[|l|];
  }

  lemma {:induction false} TrimStartSuffix(s: string)
    ensures TrimStart(s) == s[|s| - |TrimStart(s)|..]
  {
    if s != [] && IsSpace(s[0]) {
      TrimStartSuffix(s[1..]);
    }
  }

  /** The closing marker adds one fence line, whatever comes before it. */
  lemma ClosingMarker(buffer: string)
    ensures FenceCount(Lines(buffer + CLOSE)) == FenceCount(Lines(buffer)) + 1
  {
    hide Lines, LineLength, IsFenceLine, FenceCount, LastLine;
    var l := LastLine(buffer);
    assert CLOSE == "\n" + REOPEN && buffer + CLOSE == (buffer + "\n") + REOPEN;
    Joined(buffer + "\n", REOPEN);
    ReopenCounts();
    var n := FencesBefore(buffer, "\n");
    LastLineIs(buffer);
    FencesAfter(l, "\n");
    NewlineAlone();
    assert "\n"[..1] == "\n" && "\n"[1..] == "";
    EmptyIsNoFence();
    FenceWithNewline(l);
  }

  lemma ReopenCounts()
    ensures FenceCount(Lines(REOPEN)) == 1
  {
    hide Lines, LineLength, IsFenceLine, FenceCount;
    assert REOPEN == "```" + "\n" && REOPEN[..3] == FENCE;
    NewlineAlone();
    LineLengthAfter("```", "\n");
    OneLine(REOPEN);
    TicksAreFence(REOPEN);
  }

  /** So a chunk cut inside a fence leaves its fence closed exactly when it was open, even if
      the buffer ends in mid-line; and what follows starts with an open fence. */
  lemma ClosedAndReopened(buffer: string)
    ensures OpenAtEnd(buffer + CLOSE) <==> !OpenAtEnd(buffer)
    ensures OpenAtEnd(REOPEN)
  {
    hide Lines, FenceCount;
    ClosingMarker(buffer);
    ReopenCounts();
  }

  /** What can be seen before the call: it will deliver a chunk with an unbalanced fence. */
  ghost predicate Unbalances(c: State, call: Call) {
    match call
    case Push(_) => false
    case TryFlush =>
      && |c.buffer| >= c.min
      && if c.inFence then |c.buffer| >= c.max && !OpenAtEnd(c.buffer)
         else c.min <= c.max && exists b: nat :: BestBreak(c.buffer, c.min, c.max, b) && InBlock(c.buffer, b)
    case FlushRemaining => c.buffer != [] && OpenAtEnd(c.buffer)
  }

  function Delivered(c: State, call: Call): seq<string> {
    match call
    case Push(_) => []
    case TryFlush => Deliver([], TryFlushOf(c).0)
    case FlushRemaining => Deliver([], FlushRemainingOf(c).0)
  }

  ghost predicate Balanced(chunks: seq<string>) {
    forall i :: 0 <= i < |chunks| ==> !OpenAtEnd(chunks[i])
  }

  lemma BalancedDelivery(f: Flush)
    ensures Balanced(Deliver([], f)) <==> f.Chunk? ==> !OpenAtEnd(f.text)
  {
    hide OpenAtEnd;
    if f.Chunk? {
      assert Deliver([], f)[0] == f.text;
    }
  }

  lemma UnbalancesIff(c: State, call: Call)
    ensures Balanced(Delivered(c, call)) <==> !Unbalances(c, call)
  {
    hide OpenAtEnd, InBlock, BestBreak, BreakAt, Balanced, Deliver;
    match call
    case Push(_) =>
      NoneUnbalanced();
    case TryFlush =>
      BalancedDelivery(TryFlushOf(c).0);
      if c.inFence {
        ClosedAndReopened(c.buffer);
      } else {
        OutsideIff(c);
      }
    case FlushRemaining =>
      BalancedDelivery(FlushRemainingOf(c).0);
  }

  lemma NoneUnbalanced()
    ensures Balanced([])
  {
  }

  lemma OutsideIff(c: State)
    requires !c.inFence
    ensures (TryFlushOf(c).0.Chunk? ==> !OpenAtEnd(TryFlushOf(c).0.text)) <==> !Unbalances(c, TryFlush)
  {
    hide OpenAtEnd, InBlock, BestBreak, BreakAt;
    if |c.buffer| >= c.min && c.min <= c.max {
      if TryFlushOf(c).0.Chunk? {
        ChunkBounds(c);
        CutInBlockIff(c, |TryFlushOf(c).0.text|);
      }
      forall b: nat | BestBreak(c.buffer, c.min, c.max, b)
        ensures b <= |c.buffer| && TryFlushOf(c).0 == Chunk(c.buffer[..b])
        ensures OpenAtEnd(c.buffer[..b]) <==> InBlock(c.buffer, b)
      {
        CutInBlockIff(c, b);
      }
    }
  }

  lemma ChunksSnoc(r: Run, call: Call)
    ensures Do(r, call).chunks == r.chunks + Delivered(r.c, call)
  {
    hide TryFlushOf, FlushRemainingOf, PushTo;
    assert r.chunks + [] == r.chunks;
  }

  ghost predicate UnbalancesAt(min: nat, max: nat, calls: seq<Call>, k: nat)
    requires k < |calls|
  {
    Unbalances(After(min, max, calls[..k]).c, calls[k])
  }

  ghost predicate NoneUnbalances(min: nat, max: nat, calls: seq<Call>) {
    forall k :: 0 <= k < |calls| ==> !UnbalancesAt(min, max, calls, k)
  }

  lemma NoneUnbalancesSnoc(min: nat, max: nat, calls: seq<Call>, before: seq<Call>, call: Call)
    requires calls == before + [call]
    ensures NoneUnbalances(min, max, calls)
       <==> NoneUnbalances(min, max, before) && !Unbalances(After(min, max, before).c, call)
  {
    hide Unbalances, After;
    var n := |before|;
    assert calls[..n] == before && calls[n] == call;
    forall k | 0 <= k < n
      ensures UnbalancesAt(min, max, calls, k) <==> UnbalancesAt(min, max, before, k)
    {
      assert calls[..k] == before[..k];
    }
    assert UnbalancesAt(min, max, calls, n) <==> Unbalances(After(min, max, before).c, call);
  }

  /** Every chunk of a run has balanced fences exactly when no call meets one of the conditions
      of `Unbalances` when it is made. */
  lemma {:induction false} AllBalancedIff(min: nat, max: nat, calls: seq<Call>)
    ensures Balanced(After(min, max, calls).chunks) <==> NoneUnbalances(min, max, calls)
    decreases |calls|
  {
    if calls != [] {
      hide Do, Unbalances, Delivered, After, Balanced, NoneUnbalances;
      var before, call := calls[..|calls| - 1], calls[|calls| - 1];
      var r := After(min, max, before);
      assert calls == before + [call];
      RunSnoc(min, max, calls, before, call);
      AllBalancedIff(min, max, before);
      UnbalancesIff(r.c, call);
      ChunksSnoc(r, call);
      BalancedAppend(r.chunks, Delivered(r.c, call));
      NoneUnbalancesSnoc(min, max, calls, before, call);
    }
  }

  lemma BalancedAppend(a: seq<string>, b: seq<string>)
    ensures Balanced(a + b) <==> Balanced(a) && Balanced(b)
  {
    hide OpenAtEnd;
    assert forall i :: 0 <= i < |a| ==> (a + b)[i] == a[i];
    assert forall i :: 0 <= i < |b| ==> (a + b)[|a| + i] == b[i];
  }

  /** A call that keeps the flag in step with the buffer: a push whose seam with the buffer is
      kept, a flush whose break is outside all blocks and between lines that count the same in
      two pieces, and a final flush outside a fence. */
  ghost predicate KeepsStep(c: State, call: Call) {
    match call
    case Push(text) => SeamKept(c.buffer, text)
    case TryFlush =>
      c.inFence || forall b: nat :: b <= |c.buffer| && TryFlushOf(c).0 == Chunk(c.buffer[..b]) ==>
        !InBlock(c.buffer, b) && SeamKept(c.buffer[..b], c.buffer[b..])
    case FlushRemaining => !c.inFence
  }

  ghost predicate InStep(c: State) {
    c.inFence == OpenAtEnd(c.buffer)
  }

  lemma StepKept(c: State, call: Call)
    requires InStep(c) && KeepsStep(c, call)
    ensures InStep(Do(Run([], c), call).c) && !Unbalances(c, call)
  {
    hide OpenAtEnd, InBlock, BestBreak, BreakAt, SeamKept;
    NothingOpen();
    match call
    case Push(text) =>
      SeamIff(c.buffer, text);
      PushTogglesFlag(c, text);
    case TryFlush =>
      if c.inFence {
        ClosedAndReopened(c.buffer);
      } else {
        FlushInStep(c);
      }
    case FlushRemaining =>
  }

  lemma FlushInStep(c: State)
    requires InStep(c) && KeepsStep(c, TryFlush) && !c.inFence
    ensures InStep(TryFlushOf(c).1) && !Unbalances(c, TryFlush)
  {
    hide OpenAtEnd, InBlock, BestBreak, BreakAt, SeamKept;
    OutsideIff(c);
    if TryFlushOf(c).0.Chunk? {
      ChunkIsPrefix(c);
      var (f, next) := TryFlushOf(c);
      var b := |f.text|;
      assert f.text == c.buffer[..b] && next.buffer == c.buffer[b..];
      SeamIff(c.buffer[..b], c.buffer[b..]);
      InBlockIff(c.buffer, b);
      assert c.buffer[..b] + c.buffer[b..] == c.buffer;
    }
  }

  ghost predicate AllKeepStep(min: nat, max: nat, calls: seq<Call>) {
    forall k :: 0 <= k < |calls| ==> KeepsStep(After(min, max, calls[..k]).c, calls[k])
  }

  /** In a run of such calls the flag says throughout whether the buffer leaves a fence open,
      and every chunk, forced splits included, has balanced fences. */
  lemma {:induction false} BalancedRun(min: nat, max: nat, calls: seq<Call>)
    requires AllKeepStep(min, max, calls)
    ensures InStep(After(min, max, calls).c) && Balanced(After(min, max, calls).chunks)
    decreases |calls|
  {
    hide Do, Unbalances, Delivered, After, Balanced, KeepsStep, InStep, AllKeepStep;
    if calls == [] {
      StartsBalanced(min, max);
    } else {
      var before, call := calls[..|calls| - 1], calls[|calls| - 1];
      var r := After(min, max, before);
      assert calls == before + [call];
      RunSnoc(min, max, calls, before, call);
      AllKeepStepSnoc(min, max, calls, before, call);
      BalancedRun(min, max, before);
      StepKept(r.c, call);
      DoBuffer(r, call);
      UnbalancesIff(r.c, call);
      ChunksSnoc(r, call);
      BalancedAppend(r.chunks, Delivered(r.c, call));
    }
  }

  lemma StartsBalanced(min: nat, max: nat)
    ensures InStep(After(min, max, []).c) && Balanced(After(min, max, []).chunks)
  {
    hide OpenAtEnd;
    NothingOpen();
  }

  lemma AllKeepStepSnoc(min: nat, max: nat, calls: seq<Call>, before: seq<Call>, call: Call)
    requires calls == before + [call] && AllKeepStep(min, max, calls)
    ensures AllKeepStep(min, max, before) && KeepsStep(After(min, max, before).c, call)
  {
    hide After, KeepsStep;
    var n := |before|;
    assert calls[..n] == before && calls[n] == call;
    assert KeepsStep(After(min, max, calls[..n]).c, calls[n]);
    forall k | 0 <= k < n
      ensures KeepsStep(After(min, max, before[..k]).c, before[k])
    {
      assert before[..k] == calls[..k];
      assert KeepsStep(After(min, max, calls[..k]).c, calls[k]);
    }
  }

  // ---------- where the chunks of a run end ----------

  /** The buffer holds the last `lead` characters of a reopened fence, and then the pushed text
      from position `pos` on. */
  datatype Place = Place(lead: nat, pos: nat)

  function Landing(p: Place, b: nat): Place {
    if b <= p.lead then Place(p.lead - b, p.pos) else Place(0, p.pos + b - p.lead)
  }

  predicate Flushes(c: State, call: Call) {
    (call.TryFlush? && TryFlushOf(c).0.Chunk?) || (call.FlushRemaining? && c.buffer != [])
  }

  function Moved(c: State, p: Place, text: string, call: Call): Place {
    if !Flushes(c, call) then p
    else if call.FlushRemaining? then Place(0, |text|)
    else if c.inFence then Place(|REOPEN|, |text|)
    else Landing(p, |TryFlushOf(c).0.text|)
  }

  /** Where the buffer starts in the pushed text; after a flush that is where the chunk ended. */
  function PlaceOf(min: nat, max: nat, calls: seq<Call>): Place {
    if calls == [] then Place(0, 0)
    else
      var n := |calls| - 1;
      Moved(After(min, max, calls[..n]).c, PlaceOf(min, max, calls[..n]), Pushed(calls[..n]), calls[n])
  }

  ghost predicate BufferIs(buffer: string, p: Place, text: string) {
    && p.lead <= |REOPEN| && p.pos <= |text|
    && buffer == REOPEN[|REOPEN| - p.lead..] + text[p.pos..]
  }

  lemma BufferCut(buffer: string, p: Place, text: string, b: nat)
    requires BufferIs(buffer, p, text) && b <= |buffer|
    ensures BufferIs(buffer[b..], Landing(p, b), text)
  {
    CutJoined(REOPEN, p.lead, text, p.pos, b);
  }

  /** Dropping from a suffix of `r` followed by a suffix of `text`. */
  lemma CutJoined(r: string, lead: nat, text: string, pos: nat, b: nat)
    requires lead <= |r| && pos <= |text| && b <= lead + |text| - pos
    ensures (r[|r| - lead..] + text[pos..])[b..]
         == if b <= lead then r[|r| - (lead - b)..] + text[pos..] else r[|r|..] + text[pos + b - lead..]
  {
    DropFromJoin(r[|r| - lead..], text[pos..], b);
    if b <= lead {
      DropTwice(r, |r| - lead, b);
    } else {
      DropTwice(text, pos, b - lead);
      assert r[|r|..] == [];
    }
  }

  lemma DropTwice(s: string, j: nat, k: nat)
    requires j + k <= |s|
    ensures s[j..][k..] == s[j + k..]
  {
  }

  lemma DropFromJoin(a: string, b: string, k: nat)
    requires k <= |a + b|
    ensures (a + b)[k..] == if k <= |a| then a[k..] + b else [] + b[k - |a|..]
  {
  }

  lemma BufferGrows(buffer: string, p: Place, text: string, more: string)
    requires BufferIs(buffer, p, text)
    ensures BufferIs(buffer + more, p, text + more)
  {
    DropThenAppend(text, more, p.pos);
    Regroup(REOPEN[|REOPEN| - p.lead..], text[p.pos..], more);
  }

  lemma DropThenAppend(text: string, more: string, k: nat)
    requires k <= |text|
    ensures (text + more)[k..] == text[k..] + more
  {
  }

  lemma Regroup(a: string, b: string, c: string)
    ensures a + b + c == a + (b + c)
  {
  }

  lemma BufferMoves(c: State, p: Place, text: string, call: Call)
    requires !call.Push? && BufferIs(c.buffer, p, text)
    ensures BufferIs(Do(Run([], c), call).c.buffer, Moved(c, p, text, call), text)
  {
    hide BreakAt, BestBreak;
    if call.TryFlush? && Flushes(c, call) {
      ChunkIsPrefix(c);
      if !c.inFence {
        hide TryFlushOf;
        var (f, next) := TryFlushOf(c);
        assert c.buffer[|f.text|..] == next.buffer;
        BufferCut(c.buffer, p, text, |f.text|);
      }
    }
  }

  lemma DoBuffer(r: Run, call: Call)
    ensures Do(r, call).c == Do(Run([], r.c), call).c
  {
    hide TryFlushOf, FlushRemainingOf, PushTo;
  }

  lemma {:induction false} BufferAt(min: nat, max: nat, calls: seq<Call>)
    ensures BufferIs(After(min, max, calls).c.buffer, PlaceOf(min, max, calls), Pushed(calls))
    decreases |calls|
  {
    if calls != [] {
      hide BufferIs, Do, Moved, Lines, FenceCount, After, Pushed;
      var n := |calls| - 1;
      var before, call := calls[..n], calls[n];
      var c, text, p := After(min, max, before).c, Pushed(before), PlaceOf(min, max, before);
      BufferAt(min, max, before);
      assert calls == before + [call];
      RunSnoc(min, max, calls, before, call);
      DoBuffer(After(min, max, before), call);
      if call.Push? {
        BufferGrows(c.buffer, p, text, call.text);
        PushMoves(c, p, text, call);
      } else {
        BufferMoves(c, p, text, call);
        assert text + "" == text;
      }
    }
  }

  lemma PushMoves(c: State, p: Place, text: string, call: Call)
    requires call.Push?
    ensures Moved(c, p, text, call) == p && Do(Run([], c), call).c.buffer == c.buffer + call.text
  {
  }

  // ---------- chunks that end inside a block ----------

  /** What can be seen before the call: it will deliver a chunk that ends inside a block of the
      text pushed so far. */
  ghost predicate SplitsBlock(c: State, p: Place, text: string, call: Call) {
    match call
    case Push(_) => false
    case TryFlush =>
      && |c.buffer| >= c.min
      && if c.inFence then |c.buffer| >= c.max && InBlock(text, |text|)
         else
           c.min <= c.max
           && exists b: nat :: BestBreak(c.buffer, c.min, c.max, b) && InBlock(text, Landing(p, b).pos)
    case FlushRemaining => c.buffer != [] && InBlock(text, |text|)
  }

  lemma SplitsBlockIff(c: State, p: Place, text: string, call: Call)
    requires BufferIs(c.buffer, p, text)
    ensures SplitsBlock(c, p, text, call) <==> Flushes(c, call) && InBlock(text, Moved(c, p, text, call).pos)
  {
    hide InBlock, BestBreak, BufferIs;
    if call.TryFlush? && !c.inFence && |c.buffer| >= c.min && c.min <= c.max {
      if TryFlushOf(c).0.Chunk? {
        ChunkBounds(c);
      }
      forall b: nat | BestBreak(c.buffer, c.min, c.max, b)
        ensures b <= |c.buffer| && TryFlushOf(c).0 == Chunk(c.buffer[..b])
      {
        BestBreakIsCut(c, b);
      }
    }
  }

  /** Call `k` delivers a chunk that ends inside a block of the whole text. */
  ghost predicate EndsInBlock(min: nat, max: nat, calls: seq<Call>, k: nat)
    requires k < |calls|
  {
    Flushes(After(min, max, calls[..k]).c, calls[k]) && InBlock(Pushed(calls), PlaceOf(min, max, calls[..k + 1]).pos)
  }

  ghost predicate SplitsBlockAt(min: nat, max: nat, calls: seq<Call>, k: nat)
    requires k < |calls|
  {
    SplitsBlock(After(min, max, calls[..k]).c, PlaceOf(min, max, calls[..k]), Pushed(calls[..k]), calls[k])
  }

  lemma {:induction false} PushedGrows(calls: seq<Call>, k: nat)
    requires k <= |calls|
    ensures Pushed(calls[..k]) <= Pushed(calls)
    decreases |calls|
  {
    if k == |calls| {
      assert calls[..k] == calls;
    } else {
      var n := |calls| - 1;
      PushedGrows(calls[..n], k);
      assert calls[..n][..k] == calls[..k];
    }
  }

  lemma PlaceSnoc(min: nat, max: nat, calls: seq<Call>, k: nat)
    requires k < |calls|
    ensures PlaceOf(min, max, calls[..k + 1])
         == Moved(After(min, max, calls[..k]).c, PlaceOf(min, max, calls[..k]), Pushed(calls[..k]), calls[k])
  {
    hide Moved, After, Pushed;
    assert calls[..k + 1][..k] == calls[..k];
  }

  lemma EndsInBlockIff(min: nat, max: nat, calls: seq<Call>, k: nat)
    requires k < |calls|
    ensures EndsInBlock(min, max, calls, k) <==> SplitsBlockAt(min, max, calls, k)
  {
    hide InBlock, SplitsBlock, After, Pushed, PlaceOf, Moved, Flushes;
    var c, p, text := After(min, max, calls[..k]).c, PlaceOf(min, max, calls[..k]), Pushed(calls[..k]);
    BufferAt(min, max, calls[..k]);
    SplitsBlockIff(c, p, text, calls[k]);
    PlaceSnoc(min, max, calls, k);
    PushedGrows(calls, k);
    if Flushes(c, calls[k]) {
      FlushedNoPush(c, p, text, calls[k]);
      InBlockStable(text, Pushed(calls), Moved(c, p, text, calls[k]).pos);
    }
  }

  lemma FlushedNoPush(c: State, p: Place, text: string, call: Call)
    requires Flushes(c, call) && BufferIs(c.buffer, p, text)
    ensures Moved(c, p, text, call).pos <= |text|
  {
    hide TryFlushOf;
    BufferMoves(c, p, text, call);
  }

  /** No chunk of the run ends inside a fenced block exactly when no call meets one of the
      conditions of `SplitsBlock` when it is made. */
  lemma NeverInBlockIff(min: nat, max: nat, calls: seq<Call>)
    ensures (forall k :: 0 <= k < |calls| ==> !EndsInBlock(min, max, calls, k))
       <==> (forall k :: 0 <= k < |calls| ==> !SplitsBlockAt(min, max, calls, k))
  {
    hide EndsInBlock, SplitsBlockAt;
    forall k | 0 <= k < |calls|
      ensures EndsInBlock(min, max, calls, k) <==> SplitsBlockAt(min, max, calls, k)
    {
      EndsInBlockIff(min, max, calls, k);
    }
  }

  /** The same conditions, with the fence flag in place of the end of the text: a flush outside
      a fence whose best break lands inside a block, a flush inside a fence with a buffer that
      has reached both limits, and a final flush inside a fence. */
  ghost predicate SplitsByFlag(c: State, p: Place, text: string, call: Call) {
    match call
    case Push(_) => false
    case TryFlush =>
      && |c.buffer| >= c.min
      && if c.inFence then |c.buffer| >= c.max
         else
           c.min <= c.max
           && exists b: nat :: BestBreak(c.buffer, c.min, c.max, b) && InBlock(text, Landing(p, b).pos)
    case FlushRemaining => c.buffer != [] && c.inFence
  }

  ghost predicate SplitsByFlagAt(min: nat, max: nat, calls: seq<Call>, k: nat)
    requires k < |calls|
  {
    SplitsByFlag(After(min, max, calls[..k]).c, PlaceOf(min, max, calls[..k]), Pushed(calls[..k]), calls[k])
  }

  /** While the flag is right it says whether the end of the text is inside a block. */
  lemma SplitsByFlagIff(min: nat, max: nat, calls: seq<Call>, k: nat)
    requires k < |calls| && FlagRight(min, max, calls[..k])
    ensures EndsInBlock(min, max, calls, k) <==> SplitsByFlagAt(min, max, calls, k)
  {
    hide InBlock, After, Pushed, PlaceOf, EndsInBlock, BestBreak, OpenAtEnd;
    var text := Pushed(calls[..k]);
    EndsInBlockIff(min, max, calls, k);
    InBlockIff(text, |text|);
    assert text[..|text|] == text;
  }

  /** With every seam kept, no chunk of the run ends inside a fenced block exactly when no call
      meets the conditions by the flag. */
  lemma NeverInBlockByFlagIff(min: nat, max: nat, calls: seq<Call>)
    requires SeamsKept(calls)
    ensures (forall k :: 0 <= k < |calls| ==> !EndsInBlock(min, max, calls, k))
       <==> (forall k :: 0 <= k < |calls| ==> !SplitsByFlagAt(min, max, calls, k))
  {
    hide EndsInBlock, SplitsByFlagAt, SeamsKept, FlagRight;
    AlwaysRightIff(min, max, calls);
    forall k | 0 <= k < |calls|
      ensures EndsInBlock(min, max, calls, k) <==> SplitsByFlagAt(min, max, calls, k)
    {
      SplitsByFlagIff(min, max, calls, k);
    }
  }

  /** A closed fence can still be cut: the chunk may end between its two fence lines. */
  lemma ClosedFenceIsCut(c: State)
    requires c == State("```\na\nb\n```\n", false, 1, 6)
    ensures TryFlushOf(c).0 == Chunk("```\na\n") && InBlock(c.buffer, 6)
  {
    FirstNewline(c.buffer);
    assert c.buffer[..6] == "```\na\n";
    OpenedOnly();
    InBlockIff(c.buffer, 6);
  }

  lemma OpenedOnly()
    ensures OpenAtEnd("```\na\n")
  {
    hide LineLength, IsFenceLine, Lines, FenceCount;
    var opening, code := "```\n", "a\n";
    assert opening + code == "```\na\n" && opening[..3] == FENCE;
    Joined(opening, code);
    assert opening == "```" + "\n" && code == "a" + "\n";
    NewlineAlone();
    LineLengthAfter("```", "\n");
    LineLengthAfter("a", "\n");
    OneLine(opening);
    OneLine(code);
    TicksAreFence(opening);
    ShortIsNoFence(code);
  }

  lemma FirstNewline(text: string)
    requires text == "```\na\nb\n```\n"
    ensures BreakAt(text, 1, 6, 0) == Some(6)
  {
    hide FindLastInRange, OccursAt, BreakAt;
    NoPair(text, 1);
    NoPair(text, 2);
    NoPair(text, 3);
    NoPair(text, 4);
    NotFound(text, "\n\n", 1, 6);
    FoundLast(text, "\n", 1, 6, 5);
    BreakStep(text, 1, 6, 0, "\n\n");
    BreakStep(text, 1, 6, 1, "\n");
  }

  lemma NoPair(text: string, p: nat)
    requires p + 2 <= |text| && (text[p] != '\n' || text[p + 1] != '\n')
    ensures !OccursAt(text, "\n\n", p)
  {
    assert text[p..p + 2][0] == text[p] && text[p..p + 2][1] == text[p + 1];
  }

  lemma NotFound(text: string, pattern: string, lo: nat, hi: nat)
    requires lo <= hi <= |text|
    requires forall p :: lo <= p && p + |pattern| <= hi ==> !OccursAt(text, pattern, p)
    ensures FindLastInRange(text, pattern, lo, hi).None?
  {
    hide FindLastInRange, OccursAt;
  }

  lemma FoundLast(text: string, pattern: string, lo: nat, hi: nat, p: nat)
    requires lo <= p && p + |pattern| == hi <= |text| && text[p..hi] == pattern
    ensures FindLastInRange(text, pattern, lo, hi) == Some(p)
  {
    hide FindLastInRange;
    assert OccursIn(text, pattern, lo, hi, p);
  }
}
