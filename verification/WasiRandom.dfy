/** `random_get` of wasi_snapshot_preview1: a linear congruential generator whose low byte is
    delivered. */
module WasiRandom {
  import opened Bytes

  const A: nat := 1664525
  const C: nat := 1013904223
  const TWO32: nat := 0x1_0000_0000
  const TWO64: nat := 0x1_0000_0000_0000_0000

  /** The step as coded: 64-bit wrapping multiplication and addition, then modulo 2^32. */
  function Step(seed: nat): (r: nat)
    ensures r < TWO32
  {
    ((A * seed) % TWO64 + C) % TWO64 % TWO32
  }

  /** Wrapping at 64 bits does not show modulo 2^32. */
  lemma StepIsExact(seed: nat)
    ensures Step(seed) == (A * seed + C) % TWO32
  {
    var x := A * seed;
    var q, r := x / TWO64, x % TWO64;
    WrapThenCut(r + C);
    AddWords(q * TWO32, r + C);
    assert x + C == q * TWO32 * TWO32 + (r + C);
  }

  lemma AddWords(k: nat, z: nat)
    ensures (k * TWO32 + z) % TWO32 == z % TWO32
  {
  }

  lemma WrapThenCut(z: nat)
    ensures z % TWO64 % TWO32 == z % TWO32
  {
    var q, r := z / TWO64, z % TWO64;
    AddWords(q * TWO32, r);
    assert z == q * TWO32 * TWO32 + r;
  }

  // ---------- the exact sequence ----------

  /** The generator without any modulus. */
  function Iter(x: nat, n: nat): nat {
    if n == 0 then x else A * Iter(x, n - 1) + C
  }

  lemma {:induction false} IterAdd(x: nat, m: nat, n: nat)
    ensures Iter(x, m + n) == Iter(Iter(x, m), n)
  {
    if n > 0 {
      IterAdd(x, m, n - 1);
      assert Iter(x, m + n) == A * Iter(x, m + n - 1) + C;
    }
  }

  function Pow2(k: nat): (r: nat)
    ensures r > 0
  {
    if k == 0 then 1 else 2 * Pow2(k - 1)
  }

  /** `n` steps are the map `x -> P(n) * x + Q(n)`. */
  function P(n: nat): nat {
    if n == 0 then 1 else A * P(n - 1)
  }

  function Q(n: nat): nat {
    if n == 0 then 0 else A * Q(n - 1) + C
  }

  lemma {:induction false} IterAffine(x: nat, n: nat)
    ensures Iter(x, n) == P(n) * x + Q(n)
  {
    if n > 0 {
      IterAffine(x, n - 1);
      AffineStep(P(n - 1), x, Q(n - 1));
    }
  }

  lemma AffineStep(p: nat, x: nat, q: nat)
    ensures A * (p * x + q) == (A * p) * x + A * q
  {
    var w := p * x;
    assert (A * p) * x == A * w;
  }

  lemma Doubling(n: nat)
    ensures P(2 * n) == P(n) * P(n)
    ensures Q(2 * n) == P(n) * Q(n) + Q(n)
  {
    hide P, Q;
    TwiceFromZero(n);
    TwiceFromOne(n);
    Distribute(P(n), P(n), Q(n));
  }

  lemma TwiceFromZero(n: nat)
    ensures Q(2 * n) == P(n) * Q(n) + Q(n)
  {
    hide P, Q, Iter;
    IterAffine(0, n);
    IterAffine(0, 2 * n);
    IterAdd(0, n, n);
    IterAffine(Q(n), n);
  }

  lemma TwiceFromOne(n: nat)
    ensures P(2 * n) + Q(2 * n) == P(n) * (P(n) + Q(n)) + Q(n)
  {
    hide P, Q, Iter;
    IterAffine(1, n);
    IterAffine(1, 2 * n);
    IterAdd(1, n, n);
    IterAffine(P(n) + Q(n), n);
  }

  /** After 2^k steps the multiplier is 1 modulo 4 * 2^k, and the increment is an odd multiple
      of 2^k. This uses that `A` is 1 modulo 4 and `C` is odd. */
  lemma {:induction false} JumpCoefficients(k: nat) returns (u: nat, v: nat)
    ensures P(Pow2(k)) == 1 + 4 * (Pow2(k) * u)
    ensures Q(Pow2(k)) == Pow2(k) * (2 * v + 1)
  {
    if k == 0 {
      u, v := (A - 1) / 4, (C - 1) / 2;
      assert P(1) == A * P(0) && Q(1) == A * Q(0) + C;
    } else {
      var u0, v0 := JumpCoefficients(k - 1);
      u, v := DoubleJump(Pow2(k - 1), u0, v0);
    }
  }

  lemma DoubleJump(p: nat, u: nat, v: nat) returns (u': nat, v': nat)
    requires P(p) == 1 + 4 * (p * u) && Q(p) == p * (2 * v + 1)
    ensures P(2 * p) == 1 + 4 * ((2 * p) * u') && Q(2 * p) == (2 * p) * (2 * v' + 1)
  {
    hide P, Q;
    Doubling(p);
    SquareStep(p, u);
    ProductStep(p, u, v);
    u', v' := u + 2 * (p * u * u), v + p * u * (2 * v + 1);
  }

  lemma SquareStep(p: nat, u: nat)
    ensures (1 + 4 * (p * u)) * (1 + 4 * (p * u)) == 1 + 4 * ((2 * p) * (u + 2 * (p * u * u)))
  {
    var w := p * u;
    assert (1 + 4 * w) * (1 + 4 * w) == 1 + 8 * w + 16 * (w * w);
    assert w * w == p * (p * u * u);
    var z := p * u * u;
    assert (2 * p) * (u + 2 * z) == 2 * (p * u) + 4 * (p * z);
  }

  lemma ProductStep(p: nat, u: nat, v: nat)
    ensures (1 + 4 * (p * u)) * (p * (2 * v + 1)) + p * (2 * v + 1) == (2 * p) * (2 * (v + p * u * (2 * v + 1)) + 1)
  {
    var w, o := p * u, 2 * v + 1;
    var q := p * o;
    assert (1 + 4 * w) * q + q == 2 * q + 4 * (w * q);
    assert 2 * (v + w * o) + 1 == o + 2 * (w * o);
    assert (2 * p) * (o + 2 * (w * o)) == 2 * (p * o) + 4 * (p * (w * o));
    assert p * (w * o) == w * (p * o);
  }

  /** 2^k steps change a value by an odd multiple of 2^k. */
  lemma Jump(k: nat, x: nat) returns (t: nat)
    ensures Iter(x, Pow2(k)) == x + Pow2(k) * (2 * t + 1)
  {
    hide Iter, P, Q, Pow2;
    var u, v := JumpCoefficients(k);
    IterAffine(x, Pow2(k));
    t := 2 * (u * x) + v;
    Expand(Pow2(k), u, v, x);
  }

  lemma Expand(p: nat, u: nat, v: nat, x: nat)
    ensures (1 + 4 * (p * u)) * x + p * (2 * v + 1) == x + p * (2 * (2 * (u * x) + v) + 1)
  {
    var w := u * x;
    assert (1 + 4 * (p * u)) * x == x + 4 * (p * w);
    assert p * (4 * w + (2 * v + 1)) == 4 * (p * w) + p * (2 * v + 1);
  }

  /** `m` times 2^k steps change a value by a multiple of 2^k with the parity of `m`. */
  lemma {:induction false} JumpMany(k: nat, x: nat, m: nat) returns (w: nat)
    ensures Iter(x, m * Pow2(k)) == x + Pow2(k) * w && w % 2 == m % 2
  {
    if m == 0 {
      w := 0;
    } else {
      var w0 := JumpMany(k, x, m - 1);
      w := JumpOnce(k, x, m - 1, w0);
    }
  }

  lemma JumpOnce(k: nat, x: nat, m: nat, w: nat) returns (w': nat)
    requires Iter(x, m * Pow2(k)) == x + Pow2(k) * w && w % 2 == m % 2
    ensures Iter(x, (m + 1) * Pow2(k)) == x + Pow2(k) * w' && w' % 2 == (m + 1) % 2
  {
    hide Iter, Pow2;
    var p := Pow2(k);
    var t := Jump(k, Iter(x, m * p));
    w' := w + (2 * t + 1);
    OneMoreTime(m, p);
    IterAdd(x, m * p, p);
    Distribute(p, w, 2 * t + 1);
    ParityStep(w, m, t);
  }

  lemma OneMoreTime(m: nat, p: nat)
    ensures (m + 1) * p == m * p + p
  {
  }

  lemma ParityStep(w: nat, m: nat, t: nat)
    requires w % 2 == m % 2
    ensures (w + (2 * t + 1)) % 2 == (m + 1) % 2
  {
  }

  lemma Distribute(p: nat, a: nat, b: nat)
    ensures p * (a + b) == p * a + p * b
  {
  }

  /** A value comes back modulo 2^k only after a multiple of 2^k steps. */
  lemma {:induction false} ReturnsOnlyAfterPeriod(k: nat, x: nat, n: nat, r: nat) returns (m: nat)
    requires Iter(x, n) == x + Pow2(k) * r
    ensures n == m * Pow2(k)
  {
    if k == 0 {
      m := n;
    } else {
      var p := Pow2(k - 1);
      MoveTwo(p, r);
      var m0 := ReturnsOnlyAfterPeriod(k - 1, x, n, 2 * r);
      m := EvenCount(k - 1, x, n, r, m0);
    }
  }

  lemma EvenCount(k: nat, x: nat, n: nat, r: nat, m0: nat) returns (m: nat)
    requires Iter(x, n) == x + Pow2(k) * (2 * r) && n == m0 * Pow2(k)
    ensures n == m * (2 * Pow2(k))
  {
    hide Iter, Pow2;
    var p := Pow2(k);
    var w := JumpMany(k, x, m0);
    Cancel(p, w, 2 * r);
    m := m0 / 2;
    assert m0 == 2 * m;
    MoveTwo(p, m);
    assert m0 * p == p * (2 * m) && m * (2 * p) == (2 * p) * m;
  }

  lemma MoveTwo(p: nat, r: nat)
    ensures (2 * p) * r == p * (2 * r)
  {
  }

  lemma Cancel(p: nat, a: nat, b: nat)
    requires p > 0 && p * a == p * b
    ensures a == b
  {
    assert p * (a - b) == p * a - p * b;
  }

  // ---------- the delivered bytes ----------

  /** The seed after `n` steps, and the `n`-th byte. */
  function SeedAfter(seed: nat, n: nat): nat {
    if n == 0 then seed else Step(SeedAfter(seed, n - 1))
  }

  function ByteAt(seed: nat, n: nat): byte {
    SeedAfter(seed, n) % 256
  }

  /** The bytes delivered for a seed. */
  function Delivered(seed: nat, len: nat): seq<byte> {
    seq(len, i requires 0 <= i < len => ByteAt(seed, i + 1))
  }

  /** The address of the buffer is the seed. */
  method RandomGet(memory: array<byte>, buf: nat, len: nat)
    requires buf + len <= memory.Length
    modifies memory
    ensures memory[..] == Poke(old(memory[..]), buf, Delivered(buf, len))
  {
    hide Poke;
    var bytes: seq<byte> := [];
    var seed := buf;
    for i := 0 to len
      invariant |bytes| == i && seed == SeedAfter(buf, i)
      invariant forall k :: 0 <= k < i ==> bytes[k] == ByteAt(buf, k + 1)
    {
      seed := ((A * seed) % TWO64 + C) % TWO64 % TWO32;
      bytes := bytes + [seed % 256];
    }
    assert bytes == Delivered(buf, len);
    WriteBytes(memory, buf, bytes);
  }

  lemma SameLowByte(x: nat, y: nat)
    requires x % 256 == y % 256
    ensures (A * x + C) % TWO32 % 256 == (A * y + C) % 256
  {
    var a, b, r := x / 256, y / 256, x % 256;
    assert A * x + C == 256 * (A * a) + (A * r + C);
    assert A * y + C == 256 * (A * b) + (A * r + C);
    LowByteOfWord(A * x + C);
    AddBlocks(A * a, A * r + C);
    AddBlocks(A * b, A * r + C);
  }

  lemma LowByteOfWord(z: nat)
    ensures z % TWO32 % 256 == z % 256
  {
  }

  lemma AddBlocks(k: nat, z: nat)
    ensures (256 * k + z) % 256 == z % 256
  {
  }

  /** The bytes are those of the exact sequence. */
  lemma {:induction false} ByteIsExact(seed: nat, n: nat)
    ensures ByteAt(seed, n) == Iter(seed, n) % 256
  {
    if n > 0 {
      ByteIsExact(seed, n - 1);
      StepIsExact(SeedAfter(seed, n - 1));
      SameLowByte(SeedAfter(seed, n - 1), Iter(seed, n - 1));
    }
  }

  /** The output depends only on the lowest byte of the seed. */
  lemma {:induction false} OnlyLowByteMatters(seed: nat, other: nat, n: nat)
    requires seed % 256 == other % 256
    ensures ByteAt(seed, n) == ByteAt(other, n)
  {
    if n > 0 {
      OnlyLowByteMatters(seed, other, n - 1);
      var x, y := SeedAfter(seed, n - 1), SeedAfter(other, n - 1);
      StepIsExact(x);
      StepIsExact(y);
      SameLowByte(x, y);
      SameLowByte(y, y);
    }
  }

  lemma Pow2Of8()
    ensures Pow2(8) == 256
  {
    assert Pow2(3) == 8 && Pow2(5) == 4 * Pow2(3) && Pow2(7) == 4 * Pow2(5);
  }

  /** Two bytes of the stream are equal exactly when their positions differ by a multiple of
      256: the generator has the full period. */
  lemma EqualBytesIff(seed: nat, i: nat, j: nat)
    requires i <= j
    ensures ByteAt(seed, i) == ByteAt(seed, j) <==> (j - i) % 256 == 0
  {
    hide Iter, ByteAt;
    ByteIsExact(seed, i);
    ByteIsExact(seed, j);
    var x, n := Iter(seed, i), j - i;
    IterAdd(seed, i, n);
    if n % 256 == 0 {
      SameAfterPeriod(x, n);
    } else if x % 256 == Iter(x, n) % 256 {
      SameOnlyAfterPeriod(x, n);
    }
  }

  lemma SameAfterPeriod(x: nat, n: nat)
    requires n % 256 == 0
    ensures Iter(x, n) % 256 == x % 256
  {
    hide Iter, Pow2;
    Pow2Of8();
    var w := JumpMany(8, x, n / 256);
    assert n / 256 * 256 == n;
    AddBlocks(w, x);
  }

  lemma SameOnlyAfterPeriod(x: nat, n: nat)
    requires Iter(x, n) % 256 == x % 256
    ensures n % 256 == 0
  {
    hide Iter, Pow2;
    Pow2Of8();
    IterGrows(x, n);
    var r := (Iter(x, n) - x) / 256;
    assert Iter(x, n) == x + 256 * r;
    var m := ReturnsOnlyAfterPeriod(8, x, n, r);
  }

  lemma {:induction false} IterGrows(x: nat, n: nat)
    ensures Iter(x, n) >= x
  {
    if n > 0 {
      IterGrows(x, n - 1);
    }
  }

  /** The first byte comes after one step, and every byte follows from the one before. */
  lemma DeliveredIs(seed: nat, len: nat, i: nat)
    requires i < len
    ensures Delivered(seed, len)[i] == (13 * (if i == 0 then seed else Delivered(seed, len)[i - 1]) + 95) % 256
  {
    hide ByteAt;
    ByteIsExact(seed, i);
    ByteIsExact(seed, i + 1);
    var y := Iter(seed, i);
    LowByteStep(y, if i == 0 then seed else y % 256);
  }

  lemma LowByteStep(y: nat, z: nat)
    requires y % 256 == z % 256
    ensures (A * y + C) % 256 == (13 * z + 95) % 256
  {
    var q, p, r := y / 256, z / 256, y % 256;
    assert y == 256 * q + r && z == 256 * p + r;
    AddBlocks(A * q + 6502 * r + 3960563, 13 * r + 95);
    AddBlocks(13 * p, 13 * r + 95);
  }

  // ---------- any 256 consecutive bytes ----------

  function Window(seed: nat, from: nat): seq<int> {
    seq(256, i requires 0 <= i < 256 => ByteAt(seed, from + i))
  }

  function Elements(s: seq<int>): set<int> {
    set x | x in s
  }

  lemma {:induction false} DistinctCount(s: seq<int>)
    requires forall i, j :: 0 <= i < j < |s| ==> s[i] != s[j]
    ensures |Elements(s)| == |s|
  {
    if s != [] {
      var rest := Elements(s[1..]);
      DistinctCount(s[1..]);
      assert Elements(s) == rest + {s[0]};
      assert s[0] !in rest;
    }
  }

  function Below(n: nat): (r: set<int>)
    ensures forall x :: x in r <==> 0 <= x < n
    ensures |r| == n
  {
    if n == 0 then {} else Below(n - 1) + {n - 1}
  }

  lemma SubsetOfSameSize(a: set<int>, b: set<int>)
    requires a <= b && |a| == |b|
    ensures a == b
  {
    assert |b| == |a| + |b - a| by { assert b == a + (b - a); }
  }

  /** Any 256 consecutive bytes contain every byte value, each exactly once. */
  lemma WindowIsPermutation(seed: nat, from: nat)
    ensures forall i, j :: 0 <= i < j < 256 ==> Window(seed, from)[i] != Window(seed, from)[j]
    ensures forall v: byte :: v in Window(seed, from)
  {
    hide SeedAfter, ByteAt, Below;
    var w := Window(seed, from);
    forall i, j | 0 <= i < j < 256
      ensures w[i] != w[j]
    {
      EqualBytesIff(seed, from + i, from + j);
    }
    DistinctCount(w);
    WindowInRange(seed, from);
    SubsetOfSameSize(Elements(w), Below(256));
    forall v: byte
      ensures v in w
    {
      assert v in Below(256);
    }
  }

  lemma WindowInRange(seed: nat, from: nat)
    ensures Elements(Window(seed, from)) <= Below(256)
  {
    hide SeedAfter, ByteAt, Below;
    var w := Window(seed, from);
    forall x | x in Elements(w)
      ensures x in Below(256)
    {
      var i :| 0 <= i < |w| && w[i] == x;
      assert w[i] == ByteAt(seed, from + i);
    }
  }
}
