/** ASCII text: white space, trimming, lines and words. */
module Texts {

  predicate IsSpace(c: char) {
    c == ' ' || '\t' <= c <= '\r'
  }

  function TrimStart(s: string): (r: string)
    ensures |r| <= |s|
    ensures r != [] ==> !IsSpace(r[0])
  {
    if s != [] && IsSpace(s[0]) then TrimStart(s[1..]) else s
  }

  function TrimEnd(s: string): (r: string)
    ensures r <= s
    ensures r != [] ==> !IsSpace(r[|r| - 1])
  {
    if s != [] && IsSpace(s[|s| - 1]) then TrimEnd(s[..|s| - 1]) else s
  }

  function Trim(s: string): string {
    TrimEnd(TrimStart(s))
  }

  function LineLength(text: string): (n: nat)
    requires text != []
    ensures 0 < n <= |text|
  {
    if text[0] == '\n' || |text| == 1 then 1 else 1 + LineLength(text[1..])
  }

  /** The lines of a text, each with its newline; the last one may lack it. */
  function Lines(text: string): seq<string> {
    if text == [] then [] else [text[..LineLength(text)]] + Lines(text[LineLength(text)..])
  }

  /** Words joined by single spaces. */
  function Join(words: seq<string>): string {
    if words == [] then []
    else if |words| == 1 then words[0]
    else words[0] + " " + Join(words[1..])
  }

  /** White space: tab, line feed, vertical tab, form feed, carriage return and blank. */
  lemma SpaceIs(c: char)
    ensures IsSpace(c) <==> c as int in {9, 10, 11, 12, 13, 32}
  {
  }

  /** Trimming removes exactly the white space at both ends. */
  lemma TrimIs(s: string) returns (i: nat, j: nat)
    ensures i <= j <= |s| && Trim(s) == s[i..j]
    ensures forall k :: 0 <= k < i || j <= k < |s| ==> IsSpace(s[k])
    ensures i < j ==> !IsSpace(s[i]) && !IsSpace(s[j - 1])
  {
    hide TrimStart, TrimEnd;
    i := TrimStartIs(s);
    var n := TrimEndIs(s[i..]);
    j := i + n;
    assert s[i..][..n] == s[i..j];
    forall k | j <= k < |s|
      ensures IsSpace(s[k])
    {
      assert s[k] == s[i..][k - i];
    }
  }

  lemma {:induction false} TrimStartIs(s: string) returns (i: nat)
    ensures i <= |s| && TrimStart(s) == s[i..]
    ensures forall k :: 0 <= k < i ==> IsSpace(s[k])
  {
    if s != [] && IsSpace(s[0]) {
      var j := TrimStartIs(s[1..]);
      i := j + 1;
      assert forall k :: 0 < k < i ==> s[k] == s[1..][k - 1];
    } else {
      i := 0;
    }
  }

  lemma {:induction false} TrimEndIs(s: string) returns (n: nat)
    ensures n <= |s| && TrimEnd(s) == s[..n]
    ensures forall k :: n <= k < |s| ==> IsSpace(s[k])
  {
    if s != [] && IsSpace(s[|s| - 1]) {
      n := TrimEndIs(s[..|s| - 1]);
      assert s[..|s| - 1][..n] == s[..n];
    } else {
      n := |s|;
    }
  }

  ghost predicate IsLine(line: string) {
    line != [] && '\n' !in line[..|line| - 1]
  }

  lemma {:induction false} FirstLineIs(text: string)
    requires text != []
    ensures IsLine(text[..LineLength(text)])
    ensures LineLength(text) < |text| ==> text[LineLength(text) - 1] == '\n'
  {
    if text[0] != '\n' && |text| > 1 {
      FirstLineIs(text[1..]);
      var n := LineLength(text[1..]);
      assert text[..n + 1][..n] == [text[0]] + text[1..][..n][..n - 1];
    }
  }

  /** A newline ends a line, every line but the last has one, and there are none elsewhere. */
  lemma {:induction false} LinesAre(text: string, i: nat)
    requires i < |Lines(text)|
    ensures IsLine(Lines(text)[i])
    ensures i + 1 < |Lines(text)| ==> Lines(text)[i][|Lines(text)[i]| - 1] == '\n'
    decreases |text|
  {
    hide LineLength, IsLine;
    var n := LineLength(text);
    FirstLineIs(text);
    assert Lines(text) == [text[..n]] + Lines(text[n..]);
    if i > 0 {
      LinesAre(text[n..], i - 1);
    }
  }
}
