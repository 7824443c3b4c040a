/** How a word is assigned to a reducer. */
module WordHash {

  const TWO64: int := 0x1_0000_0000_0000_0000
  const MAX_CHAR: int := 0x10_FFFF

  /** The characters of a word as the digits of a base-31 number. */
  function Poly(word: string): nat {
    if word == [] then 0 else 31 * Poly(word[..|word| - 1]) + word[|word| - 1] as int
  }

  /** One round of the hash: 64-bit arithmetic, then the reduction. */
  function Round(hash: nat, c: char, reducerNum: nat): nat
    requires reducerNum > 0
  {
    (hash * 31 + c as int) % TWO64 % reducerNum
  }

  function Idx(word: string, reducerNum: nat): (r: nat)
    requires reducerNum > 0
    ensures r < reducerNum
  {
    if word == [] then 0 else Round(Idx(word[..|word| - 1], reducerNum), word[|word| - 1], reducerNum)
  }

  /** No round can exceed 64 bits. */
  predicate NoWrap(reducerNum: nat) {
    31 * (reducerNum - 1) + MAX_CHAR < TWO64
  }

  predicate Faithful(reducerNum: nat)
    requires reducerNum > 0
  {
    NoWrap(reducerNum) || TWO64 % reducerNum == 0
  }

  method GetIdx(word: string, reducerNum: nat) returns (hash: nat)
    requires 0 < reducerNum < TWO64
    ensures hash == Idx(word, reducerNum) < reducerNum
    ensures Faithful(reducerNum) ==> hash == Poly(word) % reducerNum
    ensures reducerNum <= 0x400_0000_0000_0000 ==> hash == Poly(word) % reducerNum
  {
    hash := 0;
    for i := 0 to |word|
      invariant hash == Idx(word[..i], reducerNum)
    {
      assert word[..i + 1][..i] == word[..i];
      hash := (hash * 31 + word[i] as int) % TWO64;
      hash := hash % reducerNum;
    }
    assert word[..|word|] == word;
    if Faithful(reducerNum) {
      IdxIsPolynomial(word, reducerNum);
    }
  }

  // ---------- arithmetic ----------

  lemma {:induction false} AddMultiples(k: nat, z: nat, r: nat)
    requires r > 0
    ensures (k * r + z) % r == z % r
  {
    if k > 0 {
      AddMultiples(k - 1, z, r);
      var x := (k - 1) * r + z;
      assert k * r + z == x + r;
      AddOnce(x, r);
    }
  }

  lemma AddOnce(x: nat, r: nat)
    requires r > 0
    ensures (x + r) % r == x % r
  {
    var q, q' := x / r, (x + r) / r;
    var e, e' := x % r, (x + r) % r;
    assert e' - e == (q + 1 - q') * r by {
      assert x == q * r + e && x + r == q' * r + e';
      assert (q + 1 - q') * r == q * r + r - q' * r;
    }
    SmallMultiple(q + 1 - q', r, e' - e);
  }

  /** A multiple of `r` strictly between `-r` and `r` is zero. */
  lemma SmallMultiple(k: int, r: nat, d: int)
    requires d == k * r && d < r && 0 < d + r
    ensures d == 0
  {
    assert k >= 1 ==> k * r >= r;
    assert k <= -1 ==> k * r <= -1 * r;
  }

  /** Reducing before a round does not change its remainder. */
  lemma ReduceFirst(a: nat, c: nat, r: nat)
    requires r > 0
    ensures (a % r * 31 + c) % r == (31 * a + c) % r
  {
    var q, e := a / r, a % r;
    assert a == q * r + e;
    assert 31 * a + c == (31 * q) * r + (e * 31 + c);
    AddMultiples(31 * q, e * 31 + c, r);
  }

  /** Wrapping keeps the remainder if `r` divides 2^64. */
  lemma WrapKeeps(x: nat, r: nat)
    requires r > 0 && TWO64 % r == 0
    ensures x % TWO64 % r == x % r
  {
    var q, e := x / TWO64, x % TWO64;
    var m := TWO64 / r;
    assert TWO64 == m * r;
    assert x == (q * m) * r + e by {
      assert q * TWO64 == (q * m) * r;
    }
    AddMultiples(q * m, e, r);
  }

  /** A word is hashed one character after the other. */
  lemma HashSnoc(word: string, before: string, c: char, reducerNum: nat)
    requires reducerNum > 0 && word == before + [c]
    ensures Poly(word) == 31 * Poly(before) + c as int
    ensures Idx(word, reducerNum) == Round(Idx(before, reducerNum), c, reducerNum)
  {
    hide Round;
    assert word[..|word| - 1] == before;
  }

  lemma FaithfulRound(a: nat, c: char, r: nat)
    requires r > 0 && Faithful(r)
    ensures Round(a % r, c, r) == (31 * a + c as int) % r
  {
    ReduceFirst(a, c as int, r);
    var x := a % r * 31 + c as int;
    if NoWrap(r) {
      Bounded(a % r, c, r);
    } else {
      WrapKeeps(x, r);
    }
  }

  lemma Bounded(h: nat, c: char, r: nat)
    requires h < r && NoWrap(r)
    ensures (h * 31 + c as int) % TWO64 == h * 31 + c as int
  {
  }

  lemma {:induction false} IdxIsPolynomial(word: string, reducerNum: nat)
    requires reducerNum > 0 && Faithful(reducerNum)
    ensures Idx(word, reducerNum) == Poly(word) % reducerNum
    decreases |word|
  {
    if word == [] {
      SmallRemainder(0, reducerNum);
    } else {
      hide Round, Faithful, Idx, Poly;
      var before, c := word[..|word| - 1], word[|word| - 1];
      IdxIsPolynomial(before, reducerNum);
      HashSnoc(word, before, c, reducerNum);
      FaithfulRound(Poly(before), c, reducerNum);
    }
  }

  lemma SmallRemainder(n: nat, r: nat)
    requires n < r
    ensures n % r == n
  {
  }

  // ---------- the condition is exact ----------

  /** A word with a given value, in the digits 0 to 30. */
  function WordOf(n: nat): string {
    if n < 31 then [n as char] else WordOf(n / 31) + [(n % 31) as char]
  }

  lemma {:induction false} WordOfHash(n: nat, reducerNum: nat)
    requires n < reducerNum && n < TWO64
    ensures Poly(WordOf(n)) == n && Idx(WordOf(n), reducerNum) == n
  {
    hide Round, Idx, Poly;
    var before, rest, d := if n < 31 then [] else WordOf(n / 31), n / 31, (n % 31) as char;
    assert Poly([]) == 0 && Idx([], reducerNum) == 0 by {
      EmptyWord(reducerNum);
    }
    if n >= 31 {
      WordOfHash(rest, reducerNum);
    }
    HashSnoc(WordOf(n), before, d, reducerNum);
    ExactRound(rest, d, reducerNum, n);
  }

  lemma EmptyWord(reducerNum: nat)
    requires reducerNum > 0
    ensures Poly([]) == 0 && Idx([], reducerNum) == 0
  {
  }

  lemma ExactRound(h: nat, c: char, r: nat, n: nat)
    requires n == h * 31 + c as int && n < r && n < TWO64
    ensures Round(h, c, r) == n
  {
    SmallRemainder(n, r);
    SmallRemainder(n, TWO64);
  }

  lemma ShiftChanges(m: nat, d: nat, r: nat)
    requires r > 0 && m % r != 0
    ensures (m + d) % r != d % r
  {
    if (m + d) % r == d % r {
      var q, q', e := d / r, (m + d) / r, d % r;
      assert d == q * r + e && m + d == q' * r + e;
      assert m == (q' - q) * r;
      assert q' < q ==> (q' - q) * r <= -1 * r;
      AddMultiples(q' - q, 0, r);
    }
  }

  /** A last character that takes `31 * h` to 2^64 or just past it. */
  lemma LastChar(h: nat) returns (c: char)
    requires 31 * h <= TWO64 <= 31 * h + MAX_CHAR
    ensures TWO64 <= 31 * h + c as int <= TWO64 + 0x800
  {
    var d := TWO64 - 31 * h;
    c := if 0xD800 <= d < 0xE000 then 0xE000 as char else d as char;
  }

  /** If the condition fails, some word lands at the wrong reducer. */
  lemma WrongReducer(reducerNum: nat) returns (word: string)
    requires 0 < reducerNum < TWO64 && !Faithful(reducerNum)
    ensures Idx(word, reducerNum) != Poly(word) % reducerNum
  {
    hide Round, Idx, Poly, WordOf;
    var h := if reducerNum - 1 <= TWO64 / 31 then reducerNum - 1 else TWO64 / 31;
    var c := LastChar(h);
    WordOfHash(h, reducerNum);
    word := WordOf(h) + [c];
    HashSnoc(word, WordOf(h), c, reducerNum);
    var d := 31 * h + c as int - TWO64;
    WrappedRound(h, c, d, reducerNum);
    ShiftChanges(TWO64, d, reducerNum);
  }

  lemma WrappedRound(h: nat, c: char, d: nat, r: nat)
    requires r > 0 && h * 31 + c as int == TWO64 + d && d < TWO64
    ensures Round(h, c, r) == d % r
  {
    AddOnce(d, TWO64);
    SmallRemainder(d, TWO64);
  }

  /** The reduced hash equals the polynomial hash for every word exactly when no round can
      wrap around or wrapping is harmless. */
  lemma HashFaithfulIff(reducerNum: nat)
    requires 0 < reducerNum < TWO64
    ensures (forall word :: Idx(word, reducerNum) == Poly(word) % reducerNum) <==> Faithful(reducerNum)
  {
    if Faithful(reducerNum) {
      forall word
        ensures Idx(word, reducerNum) == Poly(word) % reducerNum
      {
        IdxIsPolynomial(word, reducerNum);
      }
    } else {
      var word := WrongReducer(reducerNum);
    }
  }

  /** The hash of one word, computed. */
  lemma HashOfAb()
    ensures Poly("ab") == 3105 && Idx("ab", 1000) == 105
  {
    assert "ab"[..1] == "a" && "a"[..0] == "";
    assert Poly("a") == 97 && Idx("a", 1000) == 97;
  }
}
