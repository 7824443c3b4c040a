/** Splitting a text at a separator, and joining pieces with it. */
module Splits {

  /** The first position of the separator, or the length of the text. */
  function FirstAt(s: string, sep: char): (n: nat)
    ensures n <= |s|
    ensures forall k :: 0 <= k < n ==> s[k] != sep
    ensures n < |s| ==> s[n] == sep
  {
    if s == [] || s[0] == sep then 0 else 1 + FirstAt(s[1..], sep)
  }

  /** The pieces between separators; adjacent separators have an empty piece between them. */
  function SplitBy(s: string, sep: char): (parts: seq<string>)
    ensures parts != []
    decreases |s|
  {
    var n := FirstAt(s, sep);
    if n == |s| then [s] else [s[..n]] + SplitBy(s[n + 1..], sep)
  }

  lemma SplitStep(s: string, sep: char, n: nat)
    requires n == FirstAt(s, sep)
    ensures SplitBy(s, sep) == if n == |s| then [s] else [s[..n]] + SplitBy(s[n + 1..], sep)
  {
    hide FirstAt;
  }

  function JoinBy(parts: seq<string>, sep: char): string {
    if parts == [] then []
    else if |parts| == 1 then parts[0]
    else parts[0] + [sep] + JoinBy(parts[1..], sep)
  }

  ghost predicate NoneHas(parts: seq<string>, sep: char) {
    forall i :: 0 <= i < |parts| ==> sep !in parts[i]
  }

  /** Splitting is the inverse of joining. */
  lemma {:induction false} SplitThenJoin(s: string, sep: char)
    ensures JoinBy(SplitBy(s, sep), sep) == s && NoneHas(SplitBy(s, sep), sep)
    decreases |s|
  {
    hide FirstAt, JoinBy, NoneHas, SplitBy;
    var n := FirstAt(s, sep);
    SplitStep(s, sep, n);
    if n == |s| {
      OnePiece(s, sep);
    } else {
      var word, rest := s[..n], SplitBy(s[n + 1..], sep);
      SplitThenJoin(s[n + 1..], sep);
      JoinCons(word, rest, sep);
      NoneHasCons(word, rest, sep);
      assert s == word + [sep] + s[n + 1..];
    }
  }

  lemma OnePiece(s: string, sep: char)
    requires sep !in s
    ensures JoinBy([s], sep) == s && NoneHas([s], sep)
  {
  }

  lemma NoneHasCons(word: string, rest: seq<string>, sep: char)
    requires sep !in word && NoneHas(rest, sep)
    ensures NoneHas([word] + rest, sep)
  {
  }

  lemma JoinCons(word: string, rest: seq<string>, sep: char)
    requires rest != []
    ensures JoinBy([word] + rest, sep) == word + [sep] + JoinBy(rest, sep)
  {
    assert ([word] + rest)[1..] == rest;
  }

  /** Every list of pieces without the separator is the split of its join. */
  lemma {:induction false} JoinThenSplit(parts: seq<string>, sep: char)
    requires parts != [] && NoneHas(parts, sep)
    ensures SplitBy(JoinBy(parts, sep), sep) == parts
  {
    if |parts| == 1 {
      FirstAtIs(parts[0], [], sep);
      assert parts[0] + [] == parts[0];
    } else {
      hide SplitBy;
      JoinThenSplit(parts[1..], sep);
      SplitFirst(parts[0], JoinBy(parts[1..], sep), sep);
      assert parts == [parts[0]] + parts[1..];
    }
  }

  lemma FirstAtIs(word: string, rest: string, sep: char)
    requires sep !in word && (rest == [] || rest[0] == sep)
    ensures FirstAt(word + rest, sep) == |word|
  {
    var s := word + rest;
    hide FirstAt;
    assert forall k :: 0 <= k < |word| ==> s[k] == word[k];
    assert rest != [] ==> s[|word|] == rest[0];
  }

  lemma SplitFirst(word: string, rest: string, sep: char)
    requires sep !in word
    ensures SplitBy(word + [sep] + rest, sep) == [word] + SplitBy(rest, sep)
  {
    hide FirstAt, SplitBy;
    var s := word + [sep] + rest;
    assert s == word + ([sep] + rest);
    FirstAtIs(word, [sep] + rest, sep);
    SplitStep(s, sep, |word|);
    assert s[..|word|] == word && s[|word| + 1..] == rest;
  }
}
