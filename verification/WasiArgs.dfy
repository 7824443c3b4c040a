/** `args_get` and `args_sizes_get` of wasi_snapshot_preview1: the arguments as an array of
    32-bit pointers and a block of NUL-terminated strings in the guest's memory. */
module WasiArgs {
  import opened Bytes
  import opened Sequences

  /** The size of the first `i` strings, each with its NUL. */
  function Offset(args: seq<seq<byte>>, i: nat): nat
    requires i <= |args|
  {
    if i == 0 then 0 else Offset(args, i - 1) + |args[i - 1]| + 1
  }

  /** `args_sizes_get` reports how many arguments there are and the size of the string block,
      each as a 32-bit word. */
  method ArgsSizesGet(memory: array<byte>, args: seq<seq<byte>>, argc: nat, bufSize: nat)
    requires argc + 4 <= memory.Length && bufSize + 4 <= memory.Length
    modifies memory
    ensures memory[..]
         == Poke(Poke(old(memory[..]), argc, LittleEndian(|args|, 4)), bufSize, LittleEndian(Offset(args, |args|), 4))
  {
    hide Poke, LittleEndian;
    var size := 0;
    for i := 0 to |args|
      invariant size == Offset(args, i)
    {
      size := size + |args[i]| + 1;
    }
    WriteBytes(memory, argc, LittleEndian(|args|, 4));
    WriteBytes(memory, bufSize, LittleEndian(size, 4));
  }

  /** The strings before argument `i` take their bytes and one NUL each. */
  lemma {:induction false} OffsetIs(args: seq<seq<byte>>, i: nat)
    requires i <= |args|
    ensures Offset(args, i) == |Concat(args[..i])| + i
  {
    if i == 0 {
      assert args[..0] == [];
    } else {
      OffsetIs(args, i - 1);
      assert args[..i] == args[..i - 1] + [args[i - 1]];
      ConcatSnoc(args[..i - 1], args[i - 1]);
    }
  }

  lemma {:induction false} OffsetMonotone(args: seq<seq<byte>>, i: nat, j: nat)
    requires i < j <= |args|
    ensures Offset(args, i) + |args[i]| + 1 <= Offset(args, j)
    decreases j
  {
    if i < j - 1 {
      OffsetMonotone(args, i, j - 1);
    }
  }

  predicate Apart(a: nat, m: nat, b: nat, n: nat) {
    a + m <= b || b + n <= a
  }

  ghost predicate Holds(m: seq<byte>, at: nat, data: seq<byte>) {
    at + |data| <= |m| && forall k :: 0 <= k < |data| ==> m[at + k] == data[k]
  }

  lemma HoldsAt(m: seq<byte>, at: nat, data: seq<byte>)
    requires at + |data| <= |m|
    ensures Holds(Poke(m, at, data), at, data)
  {
  }

  lemma HoldsApart(m: seq<byte>, at: nat, data: seq<byte>, p: nat, kept: seq<byte>)
    requires at + |data| <= |m| && Holds(m, p, kept) && Apart(at, |data|, p, |kept|)
    ensures Holds(Poke(m, at, data), p, kept)
  {
  }

  function Pointer(args: seq<seq<byte>>, buf: nat, i: nat): (r: seq<byte>)
    requires i <= |args|
    ensures |r| == 4
  {
    LittleEndian(buf + Offset(args, i), 4)
  }

  /** Argument `i` is in place: its pointer in the array, and its string in the block. */
  ghost predicate InPlace(m: seq<byte>, args: seq<seq<byte>>, argv: nat, buf: nat, i: nat)
    requires i < |args|
  {
    && Holds(m, argv + 4 * i, Pointer(args, buf, i))
    && Holds(m, buf + Offset(args, i), args[i] + [0])
  }

  /** Memory `m'` differs from `m` only in the pointer area and the string area. */
  ghost predicate OnlyIn(m: seq<byte>, m': seq<byte>, a: nat, i: nat, b: nat, j: nat) {
    |m'| == |m| && forall k :: 0 <= k < |m| && !(a <= k < a + i) && !(b <= k < b + j) ==> m'[k] == m[k]
  }

  lemma OnlyInPoke(m: seq<byte>, m': seq<byte>, a: nat, i: nat, b: nat, j: nat, at: nat, data: seq<byte>)
    requires OnlyIn(m, m', a, i, b, j) && at + |data| <= |m|
    requires (a <= at && at + |data| <= a + i) || (b <= at && at + |data| <= b + j)
    ensures OnlyIn(m, Poke(m', at, data), a, i, b, j)
  {
  }

  /** Writing pointer and string `n` puts argument `n` in place. */
  lemma PutsInPlace(m: seq<byte>, args: seq<seq<byte>>, argv: nat, buf: nat, n: nat)
    requires n < |args| && argv + 4 * |args| <= |m| && buf + Offset(args, |args|) <= |m|
    requires Apart(argv, 4 * |args|, buf, Offset(args, |args|))
    ensures buf + Offset(args, n) + |args[n]| + 1 <= |m|
    ensures InPlace(Poke(Poke(m, argv + 4 * n, Pointer(args, buf, n)), buf + Offset(args, n), args[n] + [0]), args,
      argv, buf, n)
  {
    hide Poke, Holds, Pointer, Offset;
    OffsetMonotone(args, n, |args|);
    var at, text, p := buf + Offset(args, n), args[n] + [0], Pointer(args, buf, n);
    var m1 := Poke(m, argv + 4 * n, p);
    HoldsAt(m, argv + 4 * n, p);
    HoldsApart(m1, at, text, argv + 4 * n, p);
    HoldsAt(m1, at, text);
  }

  /** Writing pointer and string `n` leaves argument `i` in place. */
  lemma KeepsInPlace(m: seq<byte>, args: seq<seq<byte>>, argv: nat, buf: nat, n: nat, i: nat)
    requires i < n < |args| && argv + 4 * |args| <= |m| && buf + Offset(args, |args|) <= |m|
    requires Apart(argv, 4 * |args|, buf, Offset(args, |args|))
    requires InPlace(m, args, argv, buf, i)
    ensures buf + Offset(args, n) + |args[n]| + 1 <= |m|
    ensures InPlace(Poke(Poke(m, argv + 4 * n, Pointer(args, buf, n)), buf + Offset(args, n), args[n] + [0]), args,
      argv, buf, i)
  {
    hide Poke, Holds, Pointer, Offset;
    OffsetMonotone(args, n, |args|);
    OffsetMonotone(args, i, n);
    var at, text, p := buf + Offset(args, n), args[n] + [0], Pointer(args, buf, n);
    var m1 := Poke(m, argv + 4 * n, p);
    HoldsApart(m, argv + 4 * n, p, argv + 4 * i, Pointer(args, buf, i));
    HoldsApart(m, argv + 4 * n, p, buf + Offset(args, i), args[i] + [0]);
    HoldsApart(m1, at, text, argv + 4 * i, Pointer(args, buf, i));
    HoldsApart(m1, at, text, buf + Offset(args, i), args[i] + [0]);
  }

  /** The first `n` arguments are in place, and nothing outside the two areas has changed. */
  ghost predicate LaidOut(m: seq<byte>, m': seq<byte>, args: seq<seq<byte>>, argv: nat, buf: nat, n: nat)
    requires n <= |args|
  {
    && OnlyIn(m, m', argv, 4 * |args|, buf, Offset(args, |args|))
    && forall i :: 0 <= i < n ==> InPlace(m', args, argv, buf, i)
  }

  lemma LaidOutNext(m: seq<byte>, m': seq<byte>, args: seq<seq<byte>>, argv: nat, buf: nat, n: nat)
    requires n < |args| && argv + 4 * |args| <= |m| && buf + Offset(args, |args|) <= |m|
    requires Apart(argv, 4 * |args|, buf, Offset(args, |args|))
    requires LaidOut(m, m', args, argv, buf, n)
    ensures |m'| == |m| && buf + Offset(args, n) + |args[n]| + 1 <= |m|
    ensures LaidOut(m, Poke(Poke(m', argv + 4 * n, Pointer(args, buf, n)), buf + Offset(args, n), args[n] + [0]),
      args, argv, buf, n + 1)
  {
    hide Poke, InPlace, Pointer, LittleEndian, Offset;
    OffsetMonotone(args, n, |args|);
    var size, p, text := Offset(args, |args|), Pointer(args, buf, n), args[n] + [0];
    var m1 := Poke(m', argv + 4 * n, p);
    var m2 := Poke(m1, buf + Offset(args, n), text);
    PutsInPlace(m', args, argv, buf, n);
    forall i | 0 <= i < n
      ensures InPlace(m2, args, argv, buf, i)
    {
      KeepsInPlace(m', args, argv, buf, n, i);
    }
    OnlyInPoke(m, m', argv, 4 * |args|, buf, size, argv + 4 * n, p);
    OnlyInPoke(m, m1, argv, 4 * |args|, buf, size, buf + Offset(args, n), text);
  }

  /** Given the two areas, `args_get` puts every argument in place and writes nothing else. */
  method ArgsGet(memory: array<byte>, args: seq<seq<byte>>, argv: nat, buf: nat)
    requires argv + 4 * |args| <= memory.Length && buf + Offset(args, |args|) <= memory.Length
    requires Apart(argv, 4 * |args|, buf, Offset(args, |args|))
    modifies memory
    ensures LaidOut(old(memory[..]), memory[..], args, argv, buf, |args|)
  {
    ghost var m := memory[..];
    var offset := 0;
    for i := 0 to |args|
      invariant offset == Offset(args, i)
      invariant LaidOut(m, memory[..], args, argv, buf, i)
    {
      LaidOutNext(m, memory[..], args, argv, buf, i);
      PutArg(memory, args, argv, buf, i, offset);
      offset := offset + |args[i]| + 1;
    }
  }

  /** The body of the loop. */
  method PutArg(memory: array<byte>, args: seq<seq<byte>>, argv: nat, buf: nat, i: nat, offset: nat)
    requires i < |args| && offset == Offset(args, i)
    requires argv + 4 * i + 4 <= memory.Length && buf + offset + |args[i]| + 1 <= memory.Length
    modifies memory
    ensures memory[..] == Poke(Poke(old(memory[..]), argv + 4 * i, Pointer(args, buf, i)), buf + offset, args[i] + [0])
  {
    hide Poke, LittleEndian;
    var argAddr := buf + offset;
    WriteBytes(memory, argv + i * 4, LittleEndian(argAddr, 4));
    WriteBytes(memory, argAddr, args[i] + [0]);
  }

  // ---------- the guest's side ----------

  /** The bytes up to the first NUL. */
  function CString(m: seq<byte>, p: nat): seq<byte>
    decreases |m| - p
  {
    if p >= |m| || m[p] == 0 then [] else [m[p]] + CString(m, p + 1)
  }

  /** What the guest reads as argument `i`. */
  function ReadArg(m: seq<byte>, argv: nat, i: nat): seq<byte>
    requires argv + 4 * i + 4 <= |m|
  {
    CString(m, FromLittleEndian(m[argv + 4 * i..argv + 4 * i + 4]))
  }

  predicate NoNul(s: seq<byte>) {
    forall k :: 0 <= k < |s| ==> s[k] != 0
  }

  lemma {:induction false} CStringLength(m: seq<byte>, p: nat, n: nat)
    requires p + n < |m| && m[p + n] == 0
    ensures |CString(m, p)| <= n
    ensures forall k :: 0 <= k < |CString(m, p)| ==> CString(m, p)[k] == m[p + k] && m[p + k] != 0
    ensures m[p + |CString(m, p)|] == 0
    decreases n
  {
    if n > 0 && m[p] != 0 {
      CStringLength(m, p + 1, n - 1);
      var c, d := CString(m, p), CString(m, p + 1);
      forall k | 0 <= k < |c|
        ensures c[k] == m[p + k] && m[p + k] != 0
      {
        if k > 0 {
          assert c[k] == d[k - 1] && m[p + 1 + (k - 1)] == m[p + k];
        }
      }
      assert m[p + 1 + |d|] == m[p + |c|];
    }
  }

  /** A string is read back exactly when it contains no NUL. */
  lemma CStringIff(m: seq<byte>, p: nat, s: seq<byte>)
    requires Holds(m, p, s + [0])
    ensures CString(m, p) == s <==> NoNul(s)
  {
    assert m[p + |s|] == (s + [0])[|s|] == 0;
    CStringLength(m, p, |s|);
    var c := CString(m, p);
    forall k | 0 <= k < |s|
      ensures m[p + k] == s[k]
    {
      assert m[p + k] == (s + [0])[k];
    }
    assert |c| < |s| ==> s[|c|] == 0;
  }

  /** An argument with a NUL inside is read back up to the NUL. */
  lemma NulCutsArgument(m: seq<byte>)
    requires m == [65, 0, 66, 0]
    ensures Holds(m, 0, [65, 0, 66] + [0]) && CString(m, 0) == [65]
  {
    assert CString(m, 1) == [];
  }

  /** The round trip: the guest reads back argument `i` exactly when it contains no NUL. */
  lemma ArgRoundTripIff(m: seq<byte>, m': seq<byte>, args: seq<seq<byte>>, argv: nat, buf: nat, i: nat)
    requires i < |args| && LaidOut(m, m', args, argv, buf, |args|)
    requires buf + Offset(args, |args|) <= 0x1_0000_0000
    ensures argv + 4 * i + 4 <= |m'|
    ensures ReadArg(m', argv, i) == args[i] <==> NoNul(args[i])
  {
    hide InPlace, Offset, OnlyIn;
    OffsetMonotone(args, i, |args|);
    ReadBackIff(m', args, argv, buf, i);
  }

  lemma ReadBackIff(m: seq<byte>, args: seq<seq<byte>>, argv: nat, buf: nat, i: nat)
    requires i < |args| && InPlace(m, args, argv, buf, i) && buf + Offset(args, i) < 0x1_0000_0000
    ensures argv + 4 * i + 4 <= |m|
    ensures ReadArg(m, argv, i) == args[i] <==> NoNul(args[i])
  {
    hide Offset, CString, LittleEndian, FromLittleEndian, NoNul, Holds;
    var at, p := argv + 4 * i, buf + Offset(args, i);
    HeldSlice(m, at, Pointer(args, buf, i));
    PointerRoundTrip(p);
    CStringIff(m, p, args[i]);
  }

  lemma HeldSlice(m: seq<byte>, at: nat, data: seq<byte>)
    requires Holds(m, at, data)
    ensures at + |data| <= |m| && m[at..at + |data|] == data
  {
  }

  lemma PointerRoundTrip(p: nat)
    requires p < 0x1_0000_0000
    ensures FromLittleEndian(LittleEndian(p, 4)) == p
  {
    hide LittleEndian, FromLittleEndian;
    Pow256Values();
    LittleEndianRoundTrip(p, 4);
  }
}
