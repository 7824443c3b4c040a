/** The duplicate detector: a sliding window of recent texts, compared up to letter case and
    white space. */
module StreamDedup {
  import opened Texts

  const MIN_DEDUP_LENGTH: nat := 10
  const DEDUP_WINDOW: nat := 50

  // ---------- words ----------

  function Lower(c: char): char {
    if 'A' <= c <= 'Z' then (c as int - 'A' as int + 'a' as int) as char else c
  }

  function LowerAll(s: string): (r: string)
    ensures |r| == |s|
  {
    if s == [] then [] else [Lower(s[0])] + LowerAll(s[1..])
  }

  function WordLength(text: string): (n: nat)
    requires text != [] && !IsSpace(text[0])
    ensures 0 < n <= |text|
    ensures forall k :: 0 <= k < n ==> !IsSpace(text[k])
    ensures n < |text| ==> IsSpace(text[n])
  {
    if |text| == 1 || IsSpace(text[1]) then 1 else 1 + WordLength(text[1..])
  }

  /** The lower-case words of a text: its maximal runs without white space. */
  function Words(text: string): seq<string>
    decreases |text|
  {
    if text == [] then []
    else if IsSpace(text[0]) then Words(text[1..])
    else [LowerAll(text[..WordLength(text)])] + Words(text[WordLength(text)..])
  }

  predicate IsWord(w: string) {
    w != [] && forall k :: 0 <= k < |w| ==> !IsSpace(w[k]) && Lower(w[k]) == w[k]
  }

  ghost predicate AllWords(words: seq<string>) {
    forall i :: 0 <= i < |words| ==> IsWord(words[i])
  }

  lemma {:induction false} LowerAllAt(s: string, k: nat)
    requires k < |s|
    ensures LowerAll(s)[k] == Lower(s[k])
  {
    if k > 0 {
      LowerAllAt(s[1..], k - 1);
    }
  }

  lemma LowerIdempotent(c: char)
    ensures Lower(Lower(c)) == Lower(c)
    ensures IsSpace(Lower(c)) <==> IsSpace(c)
  {
  }

  /** Two characters are taken for the same exactly when they are, or are the two cases of one
      letter. */
  lemma LowerIff(a: char, b: char)
    ensures Lower(a) == Lower(b) <==>
      a == b || ('A' <= a <= 'Z' && b as int == a as int + 32) || ('A' <= b <= 'Z' && a as int == b as int + 32)
  {
  }

  lemma LowerAllSlice(s: string, i: nat, j: nat)
    requires i <= j <= |s|
    ensures LowerAll(s)[i..j] == LowerAll(s[i..j])
  {
    hide LowerAll;
    forall k | 0 <= k < j - i
      ensures LowerAll(s)[i..j][k] == LowerAll(s[i..j])[k]
    {
      LowerAllAt(s, i + k);
      LowerAllAt(s[i..j], k);
    }
  }

  lemma LowerAllTwice(s: string)
    ensures LowerAll(LowerAll(s)) == LowerAll(s)
  {
    hide LowerAll;
    forall k | 0 <= k < |s|
      ensures LowerAll(LowerAll(s))[k] == LowerAll(s)[k]
    {
      LowerAllAt(s, k);
      LowerAllAt(LowerAll(s), k);
      LowerIdempotent(s[k]);
    }
  }

  lemma LowerWordLength(text: string)
    requires text != [] && !IsSpace(text[0])
    ensures var t := LowerAll(text); !IsSpace(t[0]) && WordLength(t) == WordLength(text)
  {
    hide LowerAll, WordLength;
    var t, n := LowerAll(text), WordLength(text);
    forall k | 0 <= k < |text|
      ensures IsSpace(t[k]) <==> IsSpace(text[k])
    {
      LowerAllAt(text, k);
      LowerIdempotent(text[k]);
    }
    WordLengthIs(t, n);
  }

  /** Letter case does not matter. */
  lemma {:induction false} WordsIgnoreCase(text: string)
    ensures Words(LowerAll(text)) == Words(text)
    decreases |text|
  {
    if text != [] {
      var t := LowerAll(text);
      hide LowerAll, WordLength;
      LowerAllAt(text, 0);
      LowerIdempotent(text[0]);
      var n := if IsSpace(text[0]) then 1 else WordLength(text);
      LowerAllSlice(text, 0, n);
      LowerAllSlice(text, n, |text|);
      assert t[..n] == t[0..n] && text[..n] == text[0..n] && t[n..] == t[n..|t|] && text[n..] == text[n..|text|];
      WordsIgnoreCase(text[n..]);
      if !IsSpace(text[0]) {
        LowerWordLength(text);
        LowerAllTwice(text[..n]);
      }
    }
  }

  /** So texts that differ in letter case only have the same words. */
  lemma SameUpToCase(a: string, b: string)
    requires |a| == |b| && forall k :: 0 <= k < |a| ==> Lower(a[k]) == Lower(b[k])
    ensures Words(a) == Words(b)
  {
    hide LowerAll, Words;
    forall k | 0 <= k < |a|
      ensures LowerAll(a)[k] == LowerAll(b)[k]
    {
      LowerAllAt(a, k);
      LowerAllAt(b, k);
    }
    assert LowerAll(a) == LowerAll(b);
    WordsIgnoreCase(a);
    WordsIgnoreCase(b);
  }

  lemma {:induction false} WordsAreWords(text: string)
    ensures AllWords(Words(text))
    decreases |text|
  {
    if text == [] {
    } else if IsSpace(text[0]) {
      WordsAreWords(text[1..]);
    } else {
      var n := WordLength(text);
      WordsAreWords(text[n..]);
      var w := LowerAll(text[..n]);
      forall k | 0 <= k < |w|
        ensures !IsSpace(w[k]) && Lower(w[k]) == w[k]
      {
        LowerAllAt(text[..n], k);
        LowerIdempotent(text[k]);
      }
    }
  }

  lemma {:induction false} LowerWord(w: string)
    requires forall k :: 0 <= k < |w| ==> Lower(w[k]) == w[k]
    ensures LowerAll(w) == w
  {
    if w != [] {
      LowerWord(w[1..]);
    }
  }

  lemma WordLengthIs(text: string, n: nat)
    requires 0 < n <= |text|
    requires forall k :: 0 <= k < n ==> !IsSpace(text[k])
    requires n < |text| ==> IsSpace(text[n])
    ensures WordLength(text) == n
  {
  }

  lemma ReadWord(w: string, rest: string)
    requires IsWord(w) && (rest == [] || IsSpace(rest[0]))
    ensures Words(w + rest) == [w] + Words(rest)
  {
    var text := w + rest;
    LowerWord(w);
    WordLengthIs(text, |w|);
    assert text[..|w|] == w && text[|w|..] == rest;
  }

  /** A list of words can be read back from its joined form. */
  lemma {:induction false} WordsOfJoin(words: seq<string>)
    requires AllWords(words)
    ensures Words(Join(words)) == words
  {
    if words != [] {
      var w := words[0];
      var rest := if |words| == 1 then "" else " " + Join(words[1..]);
      assert Join(words) == w + rest;
      ReadWord(w, rest);
      if |words| > 1 {
        WordsOfJoin(words[1..]);
        assert rest[1..] == Join(words[1..]);
        assert Words(rest) == Words(rest[1..]);
      }
      assert words == [w] + words[1..];
    }
  }

  // ---------- normalisation ----------

  /** The loop of `normalize`, before trimming. */
  function Collapse(text: string, lastWasSpace: bool): string {
    if text == [] then []
    else if IsSpace(text[0]) then (if lastWasSpace then "" else " ") + Collapse(text[1..], true)
    else [Lower(text[0])] + Collapse(text[1..], false)
  }

  method Normalize(text: string) returns (r: string)
    ensures r == Trim(Collapse(text, false))
  {
    r := "";
    var lastWasSpace := false;
    for i := 0 to |text|
      invariant (r, lastWasSpace) == Collapsed(text, i)
    {
      if IsSpace(text[i]) {
        if !lastWasSpace {
          r := r + " ";
          lastWasSpace := true;
        }
      } else {
        r := r + [Lower(text[i])];
        lastWasSpace := false;
      }
    }
    CollapsedIsCollapse(text, |text|);
    assert text[|text|..] == [] && r + [] == r;
    r := Trim(r);
  }

  /** The loop state after `i` characters. */
  function Collapsed(text: string, i: nat): (string, bool)
    requires i <= |text|
  {
    if i == 0 then ("", false)
    else
      var (r, last) := Collapsed(text, i - 1);
      if IsSpace(text[i - 1]) then (if last then r else r + " ", true) else (r + [Lower(text[i - 1])], false)
  }

  lemma {:induction false} CollapsedIsCollapse(text: string, i: nat)
    requires i <= |text|
    ensures var (r, last) := Collapsed(text, i);
      Collapse(text, false) == r + Collapse(text[i..], last)
  {
    if i == 0 {
      assert text[0..] == text;
    } else {
      CollapsedIsCollapse(text, i - 1);
      var (r, last) := Collapsed(text, i - 1);
      assert text[i - 1..][0] == text[i - 1] && text[i - 1..][1..] == text[i..];
      var (r', last') := Collapsed(text, i);
      assert r + Collapse(text[i - 1..], last) == r' + Collapse(text[i..], last');
    }
  }

  predicate EndsWithSpace(text: string) {
    text != [] && IsSpace(text[|text| - 1])
  }

  lemma CollapseStep(text: string, last: bool)
    requires text != [] && !IsSpace(text[0])
    ensures Collapse(text, last) == [Lower(text[0])] + Collapse(text[1..], false)
  {
  }

  lemma LowerAllStep(s: string)
    requires s != []
    ensures LowerAll(s) == [Lower(s[0])] + LowerAll(s[1..])
  {
  }

  lemma {:induction false} CollapseRun(text: string, n: nat, last: bool)
    requires n <= |text| && forall k :: 0 <= k < n ==> !IsSpace(text[k])
    ensures Collapse(text, last) == LowerAll(text[..n]) + Collapse(text[n..], last && n == 0)
  {
    if n == 0 {
      assert text[0..] == text && text[..0] == [];
    } else {
      hide Collapse, LowerAll, Lower;
      var c, run, rest := Lower(text[0]), text[..n][1..], text[n..];
      CollapseStep(text, last);
      LowerAllStep(text[..n]);
      CollapseRun(text[1..], n - 1, false);
      assert text[1..][..n - 1] == run && text[1..][n - 1..] == rest;
      Associate([c], LowerAll(run), Collapse(rest, false));
    }
  }

  lemma Associate(a: string, b: string, c: string)
    ensures a + (b + c) == (a + b) + c
  {
  }

  /** After the leading space, the loop builds the joined words, with one space at the end if
      the text ends with one. */
  lemma {:induction false} CollapseIsJoin(text: string)
    ensures Collapse(text, true) == Built(Words(text), text)
    decreases |text|
  {
    if text == [] {
    } else if IsSpace(text[0]) {
      CollapseIsJoin(text[1..]);
      if |text| == 1 {
        assert text[1..] == [];
      }
    } else {
      var rest := text[WordLength(text)..];
      if rest != [] {
        CollapseIsJoin(rest[1..]);
      }
      CollapseWord(text);
    }
  }

  /** The text the loop builds, given the words: `words` joined, then maybe a space. */
  function Built(words: seq<string>, text: string): string {
    Join(words) + if words != [] && EndsWithSpace(text) then " " else ""
  }

  lemma FirstWord(text: string)
    requires text != [] && !IsSpace(text[0])
    ensures var n := WordLength(text);
      var rest := text[n..];
      && Words(text) == [LowerAll(text[..n])] + Words(rest)
      && (if rest == [] then Words(rest) == [] && Collapse(rest, false) == []
          else Words(rest) == Words(rest[1..]) && Collapse(rest, false) == " " + Collapse(rest[1..], true))
  {
  }

  /** One word of the induction for `CollapseIsJoin`. */
  lemma CollapseWord(text: string)
    requires text != [] && !IsSpace(text[0])
    requires var rest := text[WordLength(text)..]; rest != [] ==>
      Collapse(rest[1..], true) == Built(Words(rest[1..]), rest[1..])
    ensures Collapse(text, true) == Built(Words(text), text)
  {
    var n := WordLength(text);
    var w, rest := LowerAll(text[..n]), text[n..];
    CollapseRun(text, n, true);
    FirstWord(text);
    hide Words, Join, Collapse, LowerAll, Built, EndsWithSpace;
    SameEnd(text, n);
    BuiltOne(w, text);
    if rest == [] {
      assert w + [] == w && [w] + [] == [w];
    } else {
      var tail := rest[1..];
      if Words(tail) == [] {
        NoWordsAllSpace(rest);
        BuiltNone(tail);
        assert " " + "" == " " && [w] + [] == [w];
      } else {
        NonemptyTail(tail);
        SameEnd(rest, 1);
        BuiltCons(w, Words(tail), text, tail);
      }
    }
  }

  lemma BuiltNone(text: string)
    ensures Built([], text) == ""
  {
  }

  lemma BuiltOne(w: string, text: string)
    ensures Built([w], text) == if EndsWithSpace(text) then w + " " else w
  {
  }

  lemma BuiltCons(w: string, words: seq<string>, text: string, tail: string)
    requires words != [] && EndsWithSpace(tail) == EndsWithSpace(text)
    ensures w + (" " + Built(words, tail)) == Built([w] + words, text)
  {
    hide Join, EndsWithSpace;
    JoinCons(w, words);
    Regroup(w, Join(words), if EndsWithSpace(text) then " " else "");
  }

  lemma NonemptyTail(tail: string)
    requires Words(tail) != []
    ensures tail != []
  {
  }

  lemma SameEnd(text: string, n: nat)
    requires 0 < n <= |text|
    ensures if n < |text| then EndsWithSpace(text[n..]) == EndsWithSpace(text)
      else EndsWithSpace(text) == IsSpace(text[n - 1])
  {
  }

  lemma Regroup(w: string, joined: string, end: string)
    ensures w + (" " + (joined + end)) == (w + " " + joined) + end
  {
  }

  lemma {:induction false} NoWordsAllSpace(text: string)
    requires text != [] && Words(text) == []
    ensures EndsWithSpace(text)
  {
    if |text| > 1 {
      NoWordsAllSpace(text[1..]);
    }
  }

  lemma JoinCons(w: string, words: seq<string>)
    ensures Join([w] + words) == if words == [] then w else w + " " + Join(words)
  {
    assert ([w] + words)[1..] == words;
  }

  predicate Tight(s: string) {
    s == [] || (!IsSpace(s[0]) && !IsSpace(s[|s| - 1]))
  }

  lemma {:induction false} JoinTight(words: seq<string>)
    requires AllWords(words)
    ensures Tight(Join(words)) && (words != [] ==> Join(words) != [])
  {
    if |words| > 1 {
      JoinTight(words[1..]);
    } else if |words| == 1 {
      assert IsWord(words[0]);
    }
  }

  lemma TrimStartPadded(lead: string, s: string)
    requires lead == "" || lead == " "
    requires s == [] || !IsSpace(s[0])
    ensures TrimStart(lead + s) == s
  {
    if lead == " " {
      assert (lead + s)[1..] == s;
    } else {
      assert lead + s == s;
    }
  }

  lemma TrimEndPadded(s: string, trail: string)
    requires trail == "" || trail == " "
    requires s == [] || !IsSpace(s[|s| - 1])
    ensures TrimEnd(s + trail) == s
  {
    if trail == " " {
      assert (s + trail)[..|s + trail| - 1] == s;
    } else {
      assert s + trail == s;
    }
  }

  lemma TrimPadded(lead: string, s: string, trail: string)
    requires Tight(s) && (lead == "" || lead == " ") && (trail == "" || trail == " ")
    ensures Trim(lead + s + trail) == s
  {
    hide TrimStart, TrimEnd;
    if s == [] {
      BlankTrimsToNothing(lead, trail);
    } else {
      assert lead + s + trail == lead + (s + trail);
      TrimStartPadded(lead, s + trail);
      TrimEndPadded(s, trail);
    }
  }

  lemma BlankTrimsToNothing(lead: string, trail: string)
    requires (lead == "" || lead == " ") && (trail == "" || trail == " ")
    ensures Trim(lead + [] + trail) == []
  {
    var t := lead + [] + trail;
    assert |t| <= 2 && forall k :: 0 <= k < |t| ==> IsSpace(t[k]);
    if t != [] {
      assert TrimStart(t) == TrimStart(t[1..]);
      if |t| == 2 {
        assert TrimStart(t[1..]) == TrimStart(t[1..][1..]);
      }
    }
  }

  /** `normalize` is the single-space join of the lower-case words. */
  lemma NormalizeIsJoin(text: string)
    ensures Trim(Collapse(text, false)) == Join(Words(text))
  {
    hide Words, Join, Collapse, Trim;
    WordsAreWords(text);
    JoinTight(Words(text));
    CollapseIsJoin(text);
    var lead := if text != [] && IsSpace(text[0]) then " " else "";
    var trail := if Words(text) != [] && EndsWithSpace(text) then " " else "";
    LeadingSpace(text);
    TrimPadded(lead, Join(Words(text)), trail);
    Associate(lead, Join(Words(text)), trail);
  }

  lemma LeadingSpace(text: string)
    ensures Collapse(text, false) == (if text != [] && IsSpace(text[0]) then " " else "") + Collapse(text, true)
  {
  }

  function Normal(text: string): string {
    Trim(Collapse(text, false))
  }

  /** Two texts normalise to the same exactly when they have the same lower-case words. */
  lemma SameNormalIff(a: string, b: string)
    ensures Normal(a) == Normal(b) <==> Words(a) == Words(b)
  {
    NormalizeIsJoin(a);
    NormalizeIsJoin(b);
    WordsAreWords(a);
    WordsAreWords(b);
    WordsOfJoin(Words(a));
    WordsOfJoin(Words(b));
  }

  lemma NormalIdempotent(text: string)
    ensures Normal(Normal(text)) == Normal(text)
  {
    NormalizeIsJoin(text);
    WordsAreWords(text);
    WordsOfJoin(Words(text));
    NormalizeIsJoin(Normal(text));
  }

  // ---------- the window ----------

  /** Recording a text: short texts are ignored, and a full window loses its oldest text. */
  function Recorded(window: seq<string>, text: string): seq<string> {
    if |text| < MIN_DEDUP_LENGTH then window
    else (if |window| >= DEDUP_WINDOW then window[1..] else window) + [text]
  }

  function NormalAll(texts: seq<string>): (r: seq<string>)
    ensures |r| == |texts| && forall i :: 0 <= i < |texts| ==> r[i] == Normal(texts[i])
  {
    seq(|texts|, i requires 0 <= i < |texts| => Normal(texts[i]))
  }

  class Dedup {
    var recentChunks: seq<string>
    var recentNormalized: seq<string>

    /** The two vectors stay in step and within the window size. */
    ghost predicate Valid()
      reads this
    {
      recentNormalized == NormalAll(recentChunks) && |recentChunks| <= DEDUP_WINDOW
    }

    constructor ()
      ensures Valid() && recentChunks == []
    {
      recentChunks, recentNormalized := [], [];
    }

    /** A text of sufficient length is a duplicate exactly when a text in the window has the
        same lower-case words. */
    method IsDuplicate(text: string) returns (r: bool)
      requires Valid()
      ensures r <==>
        |text| >= 10 && exists i :: 0 <= i < |recentChunks| && Words(recentChunks[i]) == Words(text)
    {
      if |text| < MIN_DEDUP_LENGTH {
        return false;
      }
      if text in recentChunks {
        return true;
      }
      var normalized := Normalize(text);
      r := normalized in recentNormalized;
      forall i | 0 <= i < |recentChunks|
        ensures recentNormalized[i] == normalized <==> Words(recentChunks[i]) == Words(text)
      {
        SameNormalIff(recentChunks[i], text);
      }
    }

    method RecordSent(text: string)
      requires Valid()
      modifies this
      ensures Valid() && recentChunks == Recorded(old(recentChunks), text)
      ensures |text| < 10 ==> recentChunks == old(recentChunks)
      ensures |text| >= 10 && |old(recentChunks)| < 50 ==> recentChunks == old(recentChunks) + [text]
      ensures |text| >= 10 && |old(recentChunks)| == 50 ==> recentChunks == old(recentChunks)[1..] + [text]
    {
      if |text| < MIN_DEDUP_LENGTH {
        return;
      }
      if |recentChunks| >= DEDUP_WINDOW {
        recentChunks := recentChunks[1..];
        recentNormalized := recentNormalized[1..];
      }
      var normalized := Normalize(text);
      recentChunks := recentChunks + [text];
      recentNormalized := recentNormalized + [normalized];
    }

    method Clear()
      modifies this
      ensures Valid() && recentChunks == []
    {
      recentChunks, recentNormalized := [], [];
    }
  }

  // ---------- runs ----------

  datatype Call = Record(text: string) | Clear

  /** The window after a run of calls. */
  function WindowAfter(calls: seq<Call>): seq<string> {
    if calls == [] then []
    else
      var n := |calls| - 1;
      match calls[n]
      case Record(text) => Recorded(WindowAfter(calls[..n]), text)
      case Clear => []
  }

  /** All texts of sufficient length recorded since the last clear. */
  function History(calls: seq<Call>): seq<string> {
    if calls == [] then []
    else
      var n := |calls| - 1;
      match calls[n]
      case Record(text) => History(calls[..n]) + if |text| >= MIN_DEDUP_LENGTH then [text] else []
      case Clear => []
  }

  function Last(s: seq<string>, n: nat): seq<string> {
    if |s| <= n then s else s[|s| - n..]
  }

  /** The window is the last at most 50 texts of the history. */
  lemma {:induction false} WindowIsRecentHistory(calls: seq<Call>)
    ensures WindowAfter(calls) == Last(History(calls), 50)
    decreases |calls|
  {
    if calls != [] {
      WindowIsRecentHistory(calls[..|calls| - 1]);
    }
  }
}
