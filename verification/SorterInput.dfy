/** The sorter's input text: decimal numbers between commas, with white space around them. */
module SorterInput {
  import opened Options
  import opened Sequences
  import opened SlotNames
  import opened SortStages
  import opened Splits
  import opened Texts

  ghost predicate AllDigits(s: string) {
    forall i :: 0 <= i < |s| ==> '0' <= s[i] <= '9'
  }

  /** The text without one leading plus sign. */
  function Unsigned(s: string): string {
    if s != [] && s[0] == '+' then s[1..] else s
  }

  /** The unsigned 32-bit number a text denotes: digits, at least one, not too large. */
  ghost function U32Of(s: string): Option<u32> {
    var d := Unsigned(s);
    if d != [] && AllDigits(d) && Parsed(d) <= U32_MAX then
      ParsedGrows(d, 0);
      Some(Parsed(d))
    else None
  }

  /** One plus sign is allowed before the digits, a minus sign is not. */
  lemma SignedTexts(d: string)
    requires d != [] && AllDigits(d) && Parsed(d) <= U32_MAX
    ensures U32Of(d) == U32Of("+" + d) == Some(Parsed(d)) && U32Of("-" + d) == None && U32Of("+") == None
  {
    assert ("+" + d)[1..] == d && ("+" + d)[0] == '+';
    assert ("-" + d)[0] == '-';
    assert "+"[1..] == "";
  }

  lemma {:induction false} ParsedGrows(s: string, i: nat)
    requires AllDigits(s) && i <= |s|
    ensures 0 <= Parsed(s[..i]) <= Parsed(s)
    decreases |s|
  {
    if i == |s| {
      assert s[..i] == s;
      if s != [] {
        ParsedGrows(s[..|s| - 1], |s| - 1);
      }
    } else {
      var t := s[..|s| - 1];
      ParsedGrows(t, i);
      assert t[..i] == s[..i];
    }
  }

  /** The library's parser: it stops at the first character that is not a digit and as soon
      as the number is too large. */
  method ParseU32(s: string) returns (r: Option<u32>)
    ensures r == U32Of(s)
  {
    var d := Unsigned(s);
    if d == [] {
      return None;
    }
    var value := 0;
    for i := 0 to |d|
      invariant AllDigits(d[..i])
      invariant 0 <= value == Parsed(d[..i]) <= U32_MAX
    {
      if !('0' <= d[i] <= '9') {
        return None;
      }
      assert d[..i + 1][..i] == d[..i];
      value := 10 * value + (d[i] as int - '0' as int);
      if value > U32_MAX {
        TooLarge(d, i + 1);
        return None;
      }
    }
    assert d[..|d|] == d;
    r := Some(value);
  }

  lemma TooLarge(d: string, i: nat)
    requires i <= |d| && Parsed(d[..i]) > U32_MAX
    ensures AllDigits(d) ==> Parsed(d) > U32_MAX
  {
    if AllDigits(d) {
      ParsedGrows(d, i);
    }
  }

  /** What a piece between commas stands for. */
  ghost function FieldOf(piece: string): Field {
    var t := Trim(piece);
    if t == [] then Blank
    else match U32Of(t)
      case Some(n) => Number(n)
      case None => Malformed
  }

  ghost function FieldsOfPieces(pieces: seq<string>): (fields: seq<Field>)
    ensures |fields| == |pieces| && forall i :: 0 <= i < |pieces| ==> fields[i] == FieldOf(pieces[i])
  {
    seq(|pieces|, i requires 0 <= i < |pieces| => FieldOf(pieces[i]))
  }

  ghost function FieldsOf(text: string): seq<Field> {
    FieldsOfPieces(SplitBy(text, ','))
  }

  /** The sorter's push loop; a malformed field ends it with an error. With none, the numbers
      are the number fields in order; otherwise those before the first malformed field. */
  method ParseText(text: string) returns (numbers: seq<int>, ok: bool)
    ensures numbers == Numbers(FieldsOf(text))
    ensures ok <==> WellFormed(FieldsOf(text))
    ensures ok ==> ListsNumbers(FieldsOf(text), numbers)
    ensures !ok ==> exists m :: 0 <= m < |FieldsOf(text)| && FieldsOf(text)[m].Malformed?
                      && WellFormed(FieldsOf(text)[..m]) && ListsNumbers(FieldsOf(text)[..m], numbers)
  {
    hide FieldOf, Numbers, ListsNumbers, Trim;
    var pieces := SplitBy(text, ',');
    ghost var fields := FieldsOf(text);
    numbers, ok := [], true;
    NoFields(fields);
    for i := 0 to |pieces|
      invariant ok && WellFormed(fields[..i])
      invariant numbers == Numbers(fields[..i])
    {
      NextField(fields, i);
      var num := Trim(pieces[i]);
      FieldIs(pieces[i]);
      if num == [] {
        continue;
      }
      var parsed := ParseU32(num);
      if parsed.None? {
        NumbersAreFields(fields[..i]);
        ok := false;
        return;
      }
      numbers := numbers + [parsed.value];
    }
    assert fields[..|fields|] == fields;
    NumbersAreFields(fields);
  }

  lemma FieldIs(piece: string)
    ensures var t := Trim(piece);
      FieldOf(piece) == if t == [] then Blank else match U32Of(t) case Some(n) => Number(n) case None => Malformed
  {
  }

  lemma NoFields(fields: seq<Field>)
    ensures Numbers(fields[..0]) == [] && WellFormed(fields[..0])
  {
  }

  /** One more field, and what a malformed one does to the rest. */
  lemma NextField(fields: seq<Field>, i: nat)
    requires i < |fields| && WellFormed(fields[..i])
    ensures fields[i].Malformed? ==> Numbers(fields) == Numbers(fields[..i])
    ensures !fields[i].Malformed? ==> WellFormed(fields[..i + 1])
    ensures Numbers(fields[..i + 1]) == Numbers(fields[..i]) + if fields[i].Number? then [fields[i].n] else []
  {
    hide Numbers;
    NumbersAppend(fields[..i], [fields[i]]);
    OneField(fields[i]);
    assert fields == fields[..i] + fields[i..];
    assert fields[..i + 1] == fields[..i] + [fields[i]];
    if fields[i].Malformed? {
      NumbersStop(fields[..i], fields[i..]);
    }
  }

  // ---------- written numbers are read back ----------

  ghost function Written(numbers: seq<u32>): (pieces: seq<string>)
    ensures |pieces| == |numbers| && forall i :: 0 <= i < |numbers| ==> pieces[i] == Decimal(numbers[i])
  {
    seq(|numbers|, i requires 0 <= i < |numbers| => Decimal(numbers[i]))
  }

  lemma DecimalField(n: u32)
    ensures FieldOf(Decimal(n)) == Number(n)
  {
    hide Decimal, Parsed;
    var s := Decimal(n);
    DecimalValue(n);
    assert IsDigit(s[0]) && IsDigit(s[|s| - 1]);
    NothingToTrim(s);
  }

  lemma NothingToTrim(s: string)
    requires s != [] && !IsSpace(s[0]) && !IsSpace(s[|s| - 1])
    ensures Trim(s) == s
  {
  }

  /** A list of numbers written with commas between them is parsed back to that list. */
  lemma TextRoundTrip(numbers: seq<u32>)
    requires numbers != []
    ensures var text := JoinBy(Written(numbers), ',');
      WellFormed(FieldsOf(text)) && Numbers(FieldsOf(text)) == numbers
  {
    hide Decimal, FieldOf, Numbers;
    var pieces := Written(numbers);
    forall i | 0 <= i < |pieces|
      ensures ',' !in pieces[i] && FieldOf(pieces[i]) == Number(numbers[i])
    {
      DecimalField(numbers[i]);
      assert forall k :: 0 <= k < |pieces[i]| ==> IsDigit(pieces[i][k]);
    }
    JoinThenSplit(pieces, ',');
    var fields := FieldsOfPieces(pieces);
    NumbersAreFields(fields);
    AllNumbers(fields, |fields|);
    forall i | 0 <= i < |numbers|
      ensures Numbers(fields)[i] == numbers[i]
    {
      AllNumbers(fields, i);
    }
  }

  lemma {:induction false} AllNumbers(fields: seq<Field>, i: nat)
    requires i <= |fields| && forall k :: 0 <= k < |fields| ==> fields[k].Number?
    ensures |NumberPositions(fields, i)| == i
  {
    if i > 0 {
      AllNumbers(fields, i - 1);
      assert NumberPositions(fields, i) == NumberPositions(fields, i - 1) + {i - 1};
    } else {
      assert NumberPositions(fields, 0) == {};
    }
  }
}
