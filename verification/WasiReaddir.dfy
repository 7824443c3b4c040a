/** `fd_readdir` of wasi_snapshot_preview1: directory records are written into a buffer of
    limited size, the last one possibly cut, and the guest continues from a cookie. */
module WasiReaddir {
  import opened Bytes
  import opened Options

  const DIRENT_SIZE: nat := 24

  datatype Entry = Entry(name: seq<byte>, entryType: nat)

  function DType(entryType: nat): byte {
    match entryType
    case 2 => 2
    case 4 => 3
    case 8 => 4
    case _ => 0
  }

  /** A record: next cookie, inode 0, name length, type, three bytes of padding, the name. */
  function Record(e: Entry, next: nat, pad: seq<byte>): (r: seq<byte>)
    requires |pad| == 3
    ensures |r| == DIRENT_SIZE + |e.name|
  {
    LittleEndian(next, 8) + LittleEndian(0, 8) + LittleEndian(|e.name|, 4) + [DType(e.entryType)] + pad + e.name
  }

  /** All the records from index `i` on. */
  function Stream(entries: seq<Entry>, i: nat, pad: seq<byte>): seq<byte>
    requires |pad| == 3
    decreases |entries| - i
  {
    if i >= |entries| then [] else Record(entries[i], i + 1, pad) + Stream(entries, i + 1, pad)
  }

  /** What one call writes: the records from the cookie on, cut at the buffer length. */
  function Page(entries: seq<Entry>, bufLen: nat, cookie: nat, pad: seq<byte>): (r: seq<byte>)
    requires |pad| == 3
    ensures |r| <= bufLen
  {
    var s := Stream(entries, cookie, pad);
    if |s| <= bufLen then s else s[..bufLen]
  }

  ghost predicate Fits(entries: seq<Entry>) {
    |entries| < Pow256(8) && forall i :: 0 <= i < |entries| ==> |entries[i].name| + DIRENT_SIZE < 0x8000_0000
  }

  /** The loop over the entries. Sums stay below 2^32, so 32-bit arithmetic is exact. */
  method WriteRecords(memory: array<byte>, entries: seq<Entry>, buf: nat, bufLen: nat, cookie: nat, pad: seq<byte>)
      returns (used: nat)
    requires |pad| == 3 && Fits(entries) && bufLen < 0x8000_0000 && cookie <= |entries|
    requires buf + bufLen <= memory.Length
    modifies memory
    ensures used == |Page(entries, bufLen, cookie, pad)|
    ensures memory[..] == Poke(old(memory[..]), buf, Page(entries, bufLen, cookie, pad))
  {
    hide Poke, Record, Page, Fits, Stream;
    PokeNothing(memory[..], buf);
    ghost var before, written: seq<byte> := memory[..], [];
    used := 0;
    for i := cookie to |entries|
      invariant used == |written| <= bufLen
      invariant Page(entries, bufLen, cookie, pad) == written + Page(entries, bufLen - used, i, pad)
      invariant memory[..] == Poke(before, buf, written)
    {
      var record := Record(entries[i], i + 1, pad);
      PageNext(entries, bufLen, cookie, pad, written, i);
      SumFits(entries, i, used);
      if used + |record| > bufLen {
        var cap := bufLen - used;
        AppendBytes(memory, buf + used, record[..cap], before, buf, written);
        used := bufLen;
        return;
      }
      AppendBytes(memory, buf + used, record, before, buf, written);
      written := written + record;
      used := used + |record|;
    }
    PageLast(entries, bufLen - used, pad, written);
  }

  /** What the next record adds to the page. */
  lemma PageNext(entries: seq<Entry>, bufLen: nat, cookie: nat, pad: seq<byte>, written: seq<byte>, i: nat)
    requires |pad| == 3 && i < |entries| && |written| <= bufLen
    requires Page(entries, bufLen, cookie, pad) == written + Page(entries, bufLen - |written|, i, pad)
    ensures var r, cap := Record(entries[i], i + 1, pad), bufLen - |written|;
      if |r| > cap then Page(entries, bufLen, cookie, pad) == written + r[..cap]
      else Page(entries, bufLen, cookie, pad) == written + r + Page(entries, bufLen - |written + r|, i + 1, pad)
  {
    hide Page, Record, Stream;
    var r, cap := Record(entries[i], i + 1, pad), bufLen - |written|;
    PageStep(entries, cap, i, pad);
    if |r| <= cap {
      Shift(written, r, Page(entries, cap - |r|, i + 1, pad));
    }
  }

  lemma PageLast(entries: seq<Entry>, cap: nat, pad: seq<byte>, written: seq<byte>)
    requires |pad| == 3
    ensures written + Page(entries, cap, |entries|, pad) == written
  {
    hide Page, Stream;
    PageStep(entries, cap, |entries|, pad);
    assert written + [] == written;
  }

  method AppendBytes(memory: array<byte>, at: nat, data: seq<byte>, ghost before: seq<byte>, ghost buf: nat,
      ghost written: seq<byte>)
    requires at == buf + |written| && at + |data| <= memory.Length == |before|
    requires memory[..] == Poke(before, buf, written)
    modifies memory
    ensures memory[..] == Poke(before, buf, written + data)
  {
    PokeAppend(before, buf, written, data);
    WriteBytes(memory, at, data);
  }

  lemma SumFits(entries: seq<Entry>, i: nat, used: nat)
    requires Fits(entries) && i < |entries| && used < 0x8000_0000
    ensures used + DIRENT_SIZE + |entries[i].name| < 0x1_0000_0000
  {
  }

  lemma PokeNothing(m: seq<byte>, at: nat)
    requires at <= |m|
    ensures Poke(m, at, []) == m
  {
  }

  lemma Shift(a: seq<byte>, b: seq<byte>, c: seq<byte>)
    ensures a + (b + c) == (a + b) + c
  {
  }

  lemma PokeAppend(m: seq<byte>, at: nat, a: seq<byte>, b: seq<byte>)
    requires at + |a| + |b| <= |m|
    ensures Poke(Poke(m, at, a), at + |a|, b) == Poke(m, at, a + b)
  {
  }

  // ---------- the guest's side ----------

  datatype Dirent = Dirent(next: nat, name: seq<byte>, dtype: byte)

  /** The complete records at the front of a buffer. */
  function Decode(b: seq<byte>): seq<Dirent>
    decreases |b|
  {
    if |b| < DIRENT_SIZE then []
    else
      var size := DIRENT_SIZE + FromLittleEndian(b[16..20]);
      if |b| < size then []
      else [Dirent(FromLittleEndian(b[..8]), b[DIRENT_SIZE..size], b[20])] + Decode(b[size..])
  }

  function DirentOf(entries: seq<Entry>, i: nat): Dirent
    requires i < |entries|
  {
    Dirent(i + 1, entries[i].name, DType(entries[i].entryType))
  }

  lemma ZeroBytes()
    ensures LittleEndian(0, 8) == [0, 0, 0, 0, 0, 0, 0, 0]
  {
    assert LittleEndian(0, 4) == [0, 0, 0, 0];
    assert LittleEndian(0, 6) == [0, 0] + LittleEndian(0, 4);
  }

  /** The file types that are told apart: character device, directory, regular file. */
  lemma TypeBytes(entryType: nat)
    ensures DType(2) == 2 && DType(4) == 3 && DType(8) == 4
    ensures entryType !in {2, 4, 8} ==> DType(entryType) == 0
  {
  }

  lemma RecordFields(e: Entry, next: nat, pad: seq<byte>, b: seq<byte>)
    requires |pad| == 3 && next < Pow256(8) && |e.name| < Pow256(4)
    requires |b| >= DIRENT_SIZE && b[..DIRENT_SIZE] == Record(e, next, pad)[..DIRENT_SIZE]
    ensures FromLittleEndian(b[..8]) == next
    ensures FromLittleEndian(b[16..20]) == |e.name|
    ensures b[20] == DType(e.entryType) && b[8..16] == [0, 0, 0, 0, 0, 0, 0, 0]
  {
    hide LittleEndian, FromLittleEndian, Pow256, DType;
    var r := Record(e, next, pad);
    ZeroBytes();
    assert b[8..16] == b[..DIRENT_SIZE][8..16] == r[..DIRENT_SIZE][8..16] == r[8..16] == LittleEndian(0, 8);
    var h := b[..DIRENT_SIZE];
    assert b[..8] == h[..8] == r[..8] == LittleEndian(next, 8);
    assert b[16..20] == h[16..20] == r[16..20] == LittleEndian(|e.name|, 4);
    assert b[20] == h[20] == r[20];
    LittleEndianRoundTrip(next, 8);
    LittleEndianRoundTrip(|e.name|, 4);
  }

  /** A complete record is read back; what follows is decoded as if it stood alone. */
  lemma DecodeRecord(e: Entry, next: nat, pad: seq<byte>, rest: seq<byte>)
    requires |pad| == 3 && next < Pow256(8) && |e.name| < Pow256(4)
    ensures Decode(Record(e, next, pad) + rest) == [Dirent(next, e.name, DType(e.entryType))] + Decode(rest)
  {
    var r := Record(e, next, pad);
    var b := r + rest;
    assert b[..DIRENT_SIZE] == r[..DIRENT_SIZE];
    RecordFields(e, next, pad, b);
    assert b[DIRENT_SIZE..|r|] == e.name && b[|r|..] == rest;
  }

  /** A cut record is not taken for a complete one. */
  lemma DecodeCutRecord(e: Entry, next: nat, pad: seq<byte>, k: nat)
    requires |pad| == 3 && next < Pow256(8) && |e.name| < Pow256(4)
    requires k < |Record(e, next, pad)|
    ensures Decode(Record(e, next, pad)[..k]) == []
  {
    var b := Record(e, next, pad)[..k];
    if k >= DIRENT_SIZE {
      assert b[..DIRENT_SIZE] == Record(e, next, pad)[..DIRENT_SIZE];
      RecordFields(e, next, pad, b);
    }
  }

  function Dirents(entries: seq<Entry>, i: nat, j: nat): seq<Dirent>
    requires i <= j <= |entries|
  {
    seq(j - i, k requires 0 <= k < j - i => DirentOf(entries, i + k))
  }

  /** One page decodes to the entries from the cookie up to some `j`. If the page is not full
      they are all there; if it is full and can hold the next record, there is at least one. */
  lemma {:induction false} DecodePage(entries: seq<Entry>, bufLen: nat, i: nat, pad: seq<byte>) returns (j: nat)
    requires |pad| == 3 && Fits(entries) && i <= |entries|
    ensures i <= j <= |entries|
    ensures Decode(Page(entries, bufLen, i, pad)) == Dirents(entries, i, j)
    ensures |Page(entries, bufLen, i, pad)| < bufLen ==> j == |entries|
    ensures i < |entries| && |Record(entries[i], i + 1, pad)| <= bufLen ==> j > i
    decreases |entries| - i
  {
    hide Decode, Record, Stream, Page;
    PageStep(entries, bufLen, i, pad);
    if i == |entries| {
      j := i;
    } else {
      Pow256Values();
      var r := Record(entries[i], i + 1, pad);
      if |r| > bufLen {
        j := i;
        DecodeCutRecord(entries[i], i + 1, pad, bufLen);
      } else {
        j := DecodePage(entries, bufLen - |r|, i + 1, pad);
        DecodeRecord(entries[i], i + 1, pad, Page(entries, bufLen - |r|, i + 1, pad));
        assert Dirents(entries, i, j) == [DirentOf(entries, i)] + Dirents(entries, i + 1, j);
      }
    }
  }

  /** A page is empty at the end of the directory, a cut record, or a record and a page. */
  lemma PageStep(entries: seq<Entry>, bufLen: nat, i: nat, pad: seq<byte>)
    requires |pad| == 3 && i <= |entries|
    ensures i == |entries| ==> Page(entries, bufLen, i, pad) == [] && Decode([]) == []
    ensures i < |entries| ==>
      var r := Record(entries[i], i + 1, pad);
      Page(entries, bufLen, i, pad) == if |r| > bufLen then r[..bufLen] else r + Page(entries, bufLen - |r|, i + 1, pad)
  {
    if i < |entries| {
      hide Record;
      var r, rest := Record(entries[i], i + 1, pad), Stream(entries, i + 1, pad);
      if |r| > bufLen {
        assert (r + rest)[..bufLen] == r[..bufLen];
      } else if |r + rest| > bufLen {
        assert (r + rest)[..bufLen] == r + rest[..bufLen - |r|];
      }
    }
  }

  /** The guest's loop: call with the cookie, keep the complete records, and go on from the
      last one until a page is not full. */
  ghost function ReadAll(entries: seq<Entry>, bufLen: nat, cookie: nat, pad: seq<byte>): seq<Dirent>
    requires |pad| == 3 && Fits(entries) && cookie <= |entries|
    requires forall i :: 0 <= i < |entries| ==> DIRENT_SIZE + |entries[i].name| <= bufLen
    decreases |entries| - cookie
  {
    var got := Decode(Page(entries, bufLen, cookie, pad));
    if |Page(entries, bufLen, cookie, pad)| < bufLen || got == [] then got
    else got + ReadAll(entries, bufLen, NextOf(entries, bufLen, cookie, pad), pad)
  }

  /** The cookie after the last complete record of a page. */
  ghost function NextOf(entries: seq<Entry>, bufLen: nat, cookie: nat, pad: seq<byte>): (next: nat)
    requires |pad| == 3 && Fits(entries) && cookie <= |entries|
    requires Decode(Page(entries, bufLen, cookie, pad)) != []
    ensures cookie < next <= |entries|
  {
    NextCookie(entries, bufLen, cookie, pad);
    var got := Decode(Page(entries, bufLen, cookie, pad));
    got[|got| - 1].next
  }

  lemma NextCookie(entries: seq<Entry>, bufLen: nat, cookie: nat, pad: seq<byte>)
    requires |pad| == 3 && Fits(entries) && cookie <= |entries|
    ensures var got := Decode(Page(entries, bufLen, cookie, pad));
      got != [] ==> cookie < got[|got| - 1].next <= |entries| && got == Dirents(entries, cookie, got[|got| - 1].next)
  {
    hide Decode, Page;
    var j := DecodePage(entries, bufLen, cookie, pad);
    if j > cookie {
      assert Dirents(entries, cookie, j)[j - cookie - 1] == DirentOf(entries, j - 1);
    }
  }

  /** Pagination is complete and exact: with a buffer that holds any single record, the guest
      gets every entry from its cookie on, once, in order. */
  lemma {:induction false} PaginationComplete(entries: seq<Entry>, bufLen: nat, cookie: nat, pad: seq<byte>)
    requires |pad| == 3 && Fits(entries) && cookie <= |entries|
    requires forall i :: 0 <= i < |entries| ==> DIRENT_SIZE + |entries[i].name| <= bufLen
    ensures ReadAll(entries, bufLen, cookie, pad) == Dirents(entries, cookie, |entries|)
    decreases |entries| - cookie
  {
    hide Decode, Page, Fits, ReadAll, Record;
    var j := DecodePage(entries, bufLen, cookie, pad);
    var page := Page(entries, bufLen, cookie, pad);
    var got := Decode(page);
    NextCookie(entries, bufLen, cookie, pad);
    ReadAllStep(entries, bufLen, cookie, pad, got);
    if |page| < bufLen || got == [] {
      assert cookie < |entries| ==> |Record(entries[cookie], cookie + 1, pad)| <= bufLen;
      assert j == |entries|;
    } else {
      assert got[|got| - 1] == DirentOf(entries, j - 1);
      PaginationComplete(entries, bufLen, j, pad);
      assert Dirents(entries, cookie, |entries|) == Dirents(entries, cookie, j) + Dirents(entries, j, |entries|);
    }
  }

  // ---------- the listing ----------

  const DOT := Entry([46], 4)
  const DOTDOT := Entry([46, 46], 4)

  /** Byte-wise comparison of names. */
  predicate LexLeq(a: seq<byte>, b: seq<byte>) {
    a == [] || (b != [] && (a[0] < b[0] || (a[0] == b[0] && LexLeq(a[1..], b[1..]))))
  }

  /** A name comes first if it is a prefix of the other, or has the smaller byte where they
      first differ. */
  lemma {:induction false} LexLeqIff(a: seq<byte>, b: seq<byte>)
    ensures LexLeq(a, b) <==> a <= b || exists k :: SmallerAt(a, b, k)
  {
    if a != [] && b != [] && a[0] == b[0] {
      LexLeqIff(a[1..], b[1..]);
      assert a <= b <==> a[1..] <= b[1..] by {
        assert a == [a[0]] + a[1..] && b == [b[0]] + b[1..];
      }
      if k :| SmallerAt(a, b, k) {
        SmallerTail(a, b, k);
      }
      if k :| SmallerAt(a[1..], b[1..], k) {
        SmallerTail(a, b, k + 1);
      }
    } else if a != [] && b != [] {
      assert SmallerAt(a, b, 0) <==> a[0] < b[0];
      assert forall k :: SmallerAt(a, b, k) ==> k == 0;
    }
  }

  ghost predicate SmallerAt(a: seq<byte>, b: seq<byte>, k: int) {
    0 <= k < |a| && k < |b| && a[k] < b[k] && forall i :: 0 <= i < k ==> a[i] == b[i]
  }

  lemma SmallerTail(a: seq<byte>, b: seq<byte>, k: int)
    requires a != [] && b != [] && a[0] == b[0]
    ensures SmallerAt(a, b, k) <==> SmallerAt(a[1..], b[1..], k - 1)
  {
    if SmallerAt(a[1..], b[1..], k - 1) {
      forall i | 0 <= i < k
        ensures a[i] == b[i]
      {
        if i > 0 {
          assert a[1..][i - 1] == b[1..][i - 1];
        }
      }
    }
  }

  lemma {:induction false} LexTotal(a: seq<byte>, b: seq<byte>)
    ensures LexLeq(a, b) || LexLeq(b, a)
  {
    if a != [] && b != [] && a[0] == b[0] {
      LexTotal(a[1..], b[1..]);
    }
  }

  ghost predicate SortedByName(entries: seq<Entry>) {
    forall i :: 0 < i < |entries| ==> LexLeq(entries[i - 1].name, entries[i].name)
  }

  function InsertByName(e: Entry, entries: seq<Entry>): seq<Entry> {
    if entries == [] || LexLeq(e.name, entries[0].name) then [e] + entries
    else [entries[0]] + InsertByName(e, entries[1..])
  }

  /** The directory with "." and "..", sorted by name. */
  function SortByName(entries: seq<Entry>): seq<Entry> {
    if entries == [] then [] else InsertByName(entries[0], SortByName(entries[1..]))
  }

  lemma {:induction false} InsertByNameKeeps(e: Entry, entries: seq<Entry>)
    ensures multiset(InsertByName(e, entries)) == multiset(entries) + multiset{e}
    ensures SortedByName(entries) ==> SortedByName(InsertByName(e, entries))
    ensures InsertByName(e, entries) != []
    ensures InsertByName(e, entries)[0] == e || (entries != [] && InsertByName(e, entries)[0] == entries[0])
  {
    if entries != [] && !LexLeq(e.name, entries[0].name) {
      InsertByNameKeeps(e, entries[1..]);
      LexTotal(e.name, entries[0].name);
      assert entries == [entries[0]] + entries[1..];
      if SortedByName(entries) {
        assert SortedByName(entries[1..]) by {
          forall i | 0 < i < |entries[1..]|
            ensures LexLeq(entries[1..][i - 1].name, entries[1..][i].name)
          {
            assert LexLeq(entries[i + 1 - 1].name, entries[i + 1].name);
          }
        }
        var t := InsertByName(e, entries[1..]);
        assert LexLeq(entries[0].name, t[0].name) by {
          if t[0] != e {
            assert LexLeq(entries[1 - 1].name, entries[1].name);
          }
        }
      }
    }
  }

  lemma {:induction false} SortByNameSorts(entries: seq<Entry>)
    ensures multiset(SortByName(entries)) == multiset(entries)
    ensures SortedByName(SortByName(entries))
  {
    if entries != [] {
      SortByNameSorts(entries[1..]);
      InsertByNameKeeps(entries[0], SortByName(entries[1..]));
      assert entries == [entries[0]] + entries[1..];
    }
  }

  lemma SameEntries(a: seq<Entry>, b: seq<Entry>)
    requires multiset(a) == multiset(b)
    ensures |a| == |b| && forall x :: x in a <==> x in b
  {
    assert |multiset(a)| == |multiset(b)|;
    assert forall x :: x in a <==> x in multiset(a);
  }

  /** The entries of the directory and the two dot entries, sorted by name. */
  function Listing(dir: seq<Entry>): seq<Entry> {
    SortByName(dir + [DOT, DOTDOT])
  }

  /** Every record of the listing fits the buffer. */
  ghost predicate ListingFits(dir: seq<Entry>, bufLen: nat) {
    |dir| + 2 < Pow256(8) && bufLen < 0x8000_0000 && forall e :: e in dir + [DOT, DOTDOT] ==>
      DIRENT_SIZE + |e.name| <= bufLen
  }

  lemma ListingIs(dir: seq<Entry>, bufLen: nat)
    requires ListingFits(dir, bufLen)
    ensures var entries := Listing(dir);
      && SortedByName(entries) && multiset(entries) == multiset(dir) + multiset{Entry([46], 4), Entry([46, 46], 4)}
      && Fits(entries) && forall i :: 0 <= i < |entries| ==> DIRENT_SIZE + |entries[i].name| <= bufLen
  {
    var all := dir + [DOT, DOTDOT];
    var entries := Listing(dir);
    SortByNameSorts(all);
    hide SortByName, SortedByName, Pow256;
    SameEntries(entries, all);
    assert multiset(all) == multiset(dir) + multiset{DOT, DOTDOT};
    forall i | 0 <= i < |entries|
      ensures DIRENT_SIZE + |entries[i].name| <= bufLen
    {
      assert entries[i] in all;
    }
  }

  /** The call: the buffer holds the page, the length word holds the number of bytes used, and
      the rest of memory is untouched. A cookie beyond the end gives an empty page. */
  method FdReaddir(memory: array<byte>, dir: seq<Entry>, buf: nat, bufLen: nat, cookie: nat, bufused: nat,
      pad: seq<byte>)
    requires |pad| == 3 && Fits(Listing(dir)) && bufLen < 0x8000_0000
    requires buf + bufLen <= memory.Length && bufused + 4 <= memory.Length
    modifies memory
    ensures var page := Page(Listing(dir), bufLen, cookie, pad);
      memory[..] == Poke(Poke(old(memory[..]), buf, page), bufused, LittleEndian(|page|, 4))
  {
    var entries := Listing(dir);
    var used := 0;
    if cookie < |entries| {
      hide Listing, Poke, LittleEndian, Fits;
      used := WriteRecords(memory, entries, buf, bufLen, cookie, pad);
    } else {
      PokeNothing(memory[..], buf);
    }
    WriteBytes(memory, bufused, LittleEndian(used, 4));
  }

  /** With the length word outside the buffer, the guest finds the page in its buffer and the
      length of the page in the word. */
  lemma GuestSees(m: seq<byte>, page: seq<byte>, buf: nat, bufused: nat)
    requires buf + |page| <= |m| && bufused + 4 <= |m| && |page| < 0x8000_0000
    requires buf + |page| <= bufused || bufused + 4 <= buf
    ensures var m' := Poke(Poke(m, buf, page), bufused, LittleEndian(|page|, 4));
      m'[buf..buf + |page|] == page && FromLittleEndian(m'[bufused..bufused + 4]) == |page|
  {
    hide LittleEndian, FromLittleEndian, Poke, Pow256;
    Pow256Values();
    LittleEndianRoundTrip(|page|, 4);
    var m1, word := Poke(m, buf, page), LittleEndian(|page|, 4);
    var m' := Poke(m1, bufused, word);
    PokeReads(m, buf, page);
    PokeReads(m1, bufused, word);
    PokeApart(m1, bufused, word, buf, |page|);
  }

  lemma PokeReads(m: seq<byte>, at: nat, data: seq<byte>)
    requires at + |data| <= |m|
    ensures Poke(m, at, data)[at..at + |data|] == data
  {
  }

  lemma PokeApart(m: seq<byte>, at: nat, data: seq<byte>, p: nat, n: nat)
    requires at + |data| <= |m| && p + n <= |m|
    requires p + n <= at || at + |data| <= p
    ensures Poke(m, at, data)[p..p + n] == m[p..p + n]
  {
  }

  /** A full directory read through the guest's memory, from cookie 0: call, decode the page,
      and go on from its last complete record until a page is not full. The guest gets the
      entries of the directory and the two dot entries, each once, in the order of their
      names. */
  method ReadDirectory(memory: array<byte>, dir: seq<Entry>, buf: nat, bufLen: nat, bufused: nat, pad: seq<byte>)
      returns (got: seq<Dirent>)
    requires |pad| == 3 && ListingFits(dir, bufLen)
    requires buf + bufLen <= memory.Length && bufused + 4 <= memory.Length
    requires buf + bufLen <= bufused || bufused + 4 <= buf
    modifies memory
    ensures got == Dirents(Listing(dir), 0, |Listing(dir)|)
  {
    hide Listing, Poke, LittleEndian, FromLittleEndian, Fits, Page, Decode, Dirents, SortedByName;
    ghost var entries := Listing(dir);
    ListingIs(dir, bufLen);
    PaginationComplete(entries, bufLen, 0, pad);
    got := [];
    var cookie := 0;
    while true
      invariant cookie <= |entries|
      invariant got + ReadAll(entries, bufLen, cookie, pad) == Dirents(entries, 0, |entries|)
      decreases |entries| - cookie
    {
      ghost var page := Page(entries, bufLen, cookie, pad);
      GuestSees(memory[..], page, buf, bufused);
      FdReaddir(memory, dir, buf, bufLen, cookie, bufused, pad);
      var used := FromLittleEndian(memory[..][bufused..bufused + 4]);
      var part := Decode(memory[..][buf..buf + used]);
      NextCookie(entries, bufLen, cookie, pad);
      ReadAllStep(entries, bufLen, cookie, pad, part);
      if used < bufLen || part == [] {
        got := got + part;
        break;
      }
      Regroup(got, part, ReadAll(entries, bufLen, part[|part| - 1].next, pad));
      got := got + part;
      cookie := part[|part| - 1].next;
    }
  }

  lemma Regroup(a: seq<Dirent>, b: seq<Dirent>, c: seq<Dirent>)
    ensures a + (b + c) == (a + b) + c
  {
  }

  lemma ReadAllStep(entries: seq<Entry>, bufLen: nat, cookie: nat, pad: seq<byte>, part: seq<Dirent>)
    requires |pad| == 3 && Fits(entries) && cookie <= |entries|
    requires forall i :: 0 <= i < |entries| ==> DIRENT_SIZE + |entries[i].name| <= bufLen
    requires part == Decode(Page(entries, bufLen, cookie, pad))
    requires part != [] ==> part[|part| - 1].next <= |entries|
    ensures ReadAll(entries, bufLen, cookie, pad) ==
      if |Page(entries, bufLen, cookie, pad)| < bufLen || part == [] then part
      else part + ReadAll(entries, bufLen, part[|part| - 1].next, pad)
  {
    hide Page, Decode, Fits;
  }
}
