/** Little-endian numbers and writes to the guest's memory. */
module Bytes {

  type byte = x: int | 0 <= x < 256

  function Pow256(k: nat): (r: nat)
    ensures r > 0
  {
    if k == 0 then 1 else 256 * Pow256(k - 1)
  }

  /** The lowest `k` bytes of `n`, least significant first. */
  function LittleEndian(n: nat, k: nat): (r: seq<byte>)
    ensures |r| == k
  {
    if k == 0 then [] else [n % 256] + LittleEndian(n / 256, k - 1)
  }

  function FromLittleEndian(s: seq<byte>): nat {
    if s == [] then 0 else s[0] + 256 * FromLittleEndian(s[1..])
  }

  lemma {:induction false} LittleEndianRoundTrip(n: nat, k: nat)
    requires n < Pow256(k)
    ensures FromLittleEndian(LittleEndian(n, k)) == n
  {
    if k > 0 {
      assert n / 256 < Pow256(k - 1);
      LittleEndianRoundTrip(n / 256, k - 1);
      assert LittleEndian(n, k)[1..] == LittleEndian(n / 256, k - 1);
    }
  }

  /** Byte `i` is the digit of weight 256^i. */
  lemma {:induction false} LittleEndianAt(n: nat, k: nat, i: nat)
    requires i < k
    ensures LittleEndian(n, k)[i] == n / Pow256(i) % 256
  {
    if i > 0 {
      LittleEndianAt(n / 256, k - 1, i - 1);
      DivideTwice(n, Pow256(i - 1));
    }
  }

  lemma DivideTwice(n: nat, p: nat)
    requires p > 0
    ensures n / 256 / p == n / (256 * p)
  {
    var q, r := n / 256, n % 256;
    var a, b := q / p, q % p;
    assert n == 256 * (a * p + b) + r == a * (256 * p) + (256 * b + r);
    QuotientIs(n, 256 * p, a, 256 * b + r);
  }

  lemma QuotientIs(n: nat, m: nat, a: nat, r: nat)
    requires n == a * m + r && r < m
    ensures n / m == a
  {
    var q, e := n / m, n % m;
    assert q * m + e == n;
    Unique(m, a, r, q, e);
  }

  lemma Unique(m: nat, a: nat, r: nat, q: nat, e: nat)
    requires a * m + r == q * m + e && r < m && e < m
    ensures a == q
  {
    OneMore(m, a, q);
    OneMore(m, q, a);
  }

  lemma OneMore(m: nat, a: nat, q: nat)
    ensures a < q ==> a * m + m <= q * m
  {
    if a < q {
      var d := q - a - 1;
      assert q * m == a * m + m + d * m;
      assert d * m >= 0;
    }
  }

  lemma Pow256Values()
    ensures Pow256(4) == 0x1_0000_0000 && Pow256(8) == 0x1_0000_0000_0000_0000
  {
    assert Pow256(1) == 256 && Pow256(2) == 65536 && Pow256(3) == 16777216;
    assert Pow256(5) == 256 * Pow256(4) && Pow256(6) == 256 * Pow256(5) && Pow256(7) == 256 * Pow256(6);
  }

  method WriteBytes(memory: array<byte>, at: nat, data: seq<byte>)
    requires at + |data| <= memory.Length
    modifies memory
    ensures memory[..] == Poke(old(memory[..]), at, data)
  {
    forall k | at <= k < at + |data| {
      memory[k] := data[k - at];
    }
  }

  /** Memory after writing `data` at `at`. */
  function Poke(m: seq<byte>, at: nat, data: seq<byte>): (r: seq<byte>)
    requires at + |data| <= |m|
    ensures |r| == |m|
  {
    m[..at] + data + m[at + |data|..]
  }
}
