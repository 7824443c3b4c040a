/** The names of the buffer slots: text with decimal numbers in it. */
module SlotNames {

  function Digit(d: nat): char
    requires d < 10
  {
    (('0' as int) + d) as char
  }

  predicate IsDigit(c: char) {
    '0' <= c <= '9'
  }

  /** The decimal form of a number, as the formatting macro prints it. */
  function Decimal(n: nat): (s: string)
    ensures s != []
    ensures forall i :: 0 <= i < |s| ==> IsDigit(s[i])
    ensures n > 0 ==> s[0] != '0'
    ensures n < 10 ==> |s| == 1
  {
    if n < 10 then [Digit(n)] else Decimal(n / 10) + [Digit(n % 10)]
  }

  function Parsed(s: string): int {
    if s == [] then 0 else 10 * Parsed(s[..|s| - 1]) + s[|s| - 1] as int - '0' as int
  }

  lemma {:induction false} DecimalValue(n: nat)
    ensures Parsed(Decimal(n)) == n
  {
    if n >= 10 {
      DecimalValue(n / 10);
      assert Decimal(n)[..|Decimal(n)| - 1] == Decimal(n / 10);
    } else {
      assert Decimal(n)[..0] == [];
    }
  }

  lemma DecimalInjective(m: nat, n: nat)
    requires Decimal(m) == Decimal(n)
    ensures m == n
  {
    DecimalValue(m);
    DecimalValue(n);
  }

  /** A number followed by a non-digit can be read back. */
  lemma DecimalThen(m: nat, a: string, n: nat, b: string)
    requires a != [] && b != [] && !IsDigit(a[0]) && !IsDigit(b[0])
    requires Decimal(m) + a == Decimal(n) + b
    ensures m == n && a == b
  {
    var s, p, q := Decimal(m) + a, |Decimal(m)|, |Decimal(n)|;
    assert s[p] == a[0] && s[q] == b[0];
    assert s[..p] == Decimal(m) == Decimal(n) && s[p..] == a == b;
    DecimalInjective(m, n);
  }

  /** The slots of the parallel sort. */
  datatype Slot =
    | InputPart(i: nat)
    | SorterResp(i: nat)
    | PivotsFor(i: nat)
    | SplitPart(i: nat, j: nat)
    | MergeResult(j: nat)

  function Name(s: Slot): string {
    match s
    case InputPart(i) => "input-part-" + Decimal(i)
    case SorterResp(i) => "sorter-resp-part-" + Decimal(i)
    case PivotsFor(i) => "pivots-" + Decimal(i)
    case SplitPart(i, j) => "splitter-" + (Decimal(i) + ("-resp-part-" + Decimal(j)))
    case MergeResult(j) => "merge_result_" + Decimal(j)
  }

  /** The names at some slots, written out. */
  lemma NamesWritten()
    ensures Name(InputPart(0)) == "input-part-" + "0" && Name(SorterResp(1)) == "sorter-resp-part-" + "1"
    ensures Name(PivotsFor(2)) == "pivots-" + "2" && Name(MergeResult(4)) == "merge_result_" + "4"
    ensures Name(SplitPart(3, 5)) == "splitter-" + ("3" + ("-resp-part-" + "5"))
  {
    OneDigit(0, '0');
    OneDigit(1, '1');
    OneDigit(2, '2');
    OneDigit(3, '3');
    OneDigit(4, '4');
    OneDigit(5, '5');
    hide Decimal;
  }

  lemma OneDigit(n: nat, c: char)
    requires n < 10 && c as int == '0' as int + n
    ensures Decimal(n) == [c]
  {
  }

  lemma DropPrefix(p: string, a: string, b: string)
    requires p + a == p + b
    ensures a == b
  {
    assert (p + a)[|p|..] == a && (p + b)[|p|..] == b;
  }

  /** Names of different kinds of slots differ in their first two letters. */
  function Kind(s: Slot): string {
    match s
    case InputPart(_) => "in"
    case SorterResp(_) => "so"
    case PivotsFor(_) => "pi"
    case SplitPart(_, _) => "sp"
    case MergeResult(_) => "me"
  }

  lemma NameKind(s: Slot)
    ensures |Name(s)| >= 2 && Name(s)[..2] == Kind(s)
  {
  }

  /** Different slots have different names. */
  lemma NameInjective(s: Slot, t: Slot)
    requires Name(s) == Name(t)
    ensures s == t
  {
    NameKind(s);
    NameKind(t);
    assert Kind(s)[0] == Kind(t)[0] && Kind(s)[1] == Kind(t)[1];
    match s
    case InputPart(i) =>
      DropPrefix("input-part-", Decimal(i), Decimal(t.i));
      DecimalInjective(i, t.i);
    case SorterResp(i) =>
      DropPrefix("sorter-resp-part-", Decimal(i), Decimal(t.i));
      DecimalInjective(i, t.i);
    case PivotsFor(i) =>
      DropPrefix("pivots-", Decimal(i), Decimal(t.i));
      DecimalInjective(i, t.i);
    case SplitPart(i, j) =>
      SplitPartInjective(i, j, t.i, t.j);
    case MergeResult(j) =>
      DropPrefix("merge_result_", Decimal(j), Decimal(t.j));
      DecimalInjective(j, t.j);
  }

  lemma SplitPartInjective(i: nat, j: nat, i': nat, j': nat)
    requires Name(SplitPart(i, j)) == Name(SplitPart(i', j'))
    ensures i == i' && j == j'
  {
    var a, b := "-resp-part-" + Decimal(j), "-resp-part-" + Decimal(j');
    DropPrefix("splitter-", Decimal(i) + a, Decimal(i') + b);
    DecimalThen(i, a, i', b);
    DropPrefix("-resp-part-", Decimal(j), Decimal(j'));
    DecimalInjective(j, j');
  }
}
