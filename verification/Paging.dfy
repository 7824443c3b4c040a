/** Lazily paged file mappings: a page of a mapped region is read from its file when it is
    first touched. Page faults are atomic steps here. */
module Paging {
  import opened Bytes
  import opened Options
  import opened Fatfs
  import opened FdTab
  import opened FileStack
  import opened LibOs

  const PAGE_SIZE: nat := 0x1000
  const U32_RANGE: nat := 0x1_0000_0000

  function AlignDown(x: nat): nat {
    x - x % PAGE_SIZE
  }

  function AlignUp(x: nat): nat {
    AlignDown(x + PAGE_SIZE - 1)
  }

  /** The two masks used in the code, `!PAGE_SIZE + 1` and `!(PAGE_SIZE - 1)`, both round
      down to a page boundary. */
  lemma MasksAlignDown(x: bv64)
    ensures x & (!0x1000 + 1) == x - x % 0x1000
    ensures x & !(0x1000 - 1) == x - x % 0x1000
  {
  }

  /** A registered region: its first address, its length, and the descriptor of its file. */
  datatype Region = Region(start: nat, length: nat, fd: nat)

  predicate PageAligned(r: Region) {
    r.start % PAGE_SIZE == 0 && r.length % PAGE_SIZE == 0
  }

  type Memory = map<nat, byte>

  /** The page buffer after reading at `offset`: what lies beyond the end of the file keeps
      the bytes of the previous page. */
  function Filled(content: seq<byte>, offset: nat, stale: seq<byte>): (page: seq<byte>)
    requires |stale| == PAGE_SIZE
    ensures |page| == PAGE_SIZE
  {
    var bytes := BytesAt(content, offset, PAGE_SIZE);
    bytes + stale[|bytes|..]
  }

  /** The page that a fault at `addr` puts at `AlignDown(addr)`; the file offset is cut to 32
      bits before the seek. */
  function FaultPage(r: Region, content: seq<byte>, addr: nat, stale: seq<byte>): (page: seq<byte>)
    requires r.start <= addr && |stale| == PAGE_SIZE
    ensures |page| == PAGE_SIZE
  {
    Filled(content, AlignDown(addr - r.start) % U32_RANGE, stale)
  }

  function PutPage(memory: Memory, dst: nat, page: seq<byte>): Memory
    requires |page| == PAGE_SIZE
  {
    memory + map a: nat | dst <= a < dst + PAGE_SIZE :: PageByte(page, dst, a)
  }

  function PageByte(page: seq<byte>, dst: nat, a: nat): byte
    requires |page| == PAGE_SIZE && dst <= a < dst + PAGE_SIZE
  {
    page[a - dst]
  }

  // ---------- one fault ----------

  lemma AlignedParts(r: Region, a: nat, addr: nat)
    requires PageAligned(r) && r.start <= addr
    requires AlignDown(addr) <= a < AlignDown(addr) + PAGE_SIZE
    ensures r.start <= AlignDown(addr) && AlignDown(addr) - r.start == AlignDown(addr - r.start)
    ensures AlignDown(a - r.start) == AlignDown(addr - r.start)
    ensures a - AlignDown(addr) == (a - r.start) % PAGE_SIZE
  {
    var s, q := r.start / PAGE_SIZE, addr / PAGE_SIZE;
    assert r.start == s * PAGE_SIZE && AlignDown(addr) == q * PAGE_SIZE;
    var k := a - q * PAGE_SIZE;
    assert a - r.start == (q - s) * PAGE_SIZE + k && 0 <= k < PAGE_SIZE;
  }

  lemma PageStaysInside(r: Region, addr: nat)
    requires PageAligned(r) && r.start <= addr < r.start + r.length
    ensures r.start <= AlignDown(addr) && AlignDown(addr) + PAGE_SIZE <= r.start + r.length
  {
  }

  lemma OffsetWraps(off: nat)
    ensures AlignDown(off) % U32_RANGE + off % PAGE_SIZE == off % U32_RANGE
  {
    var q, k := off / PAGE_SIZE, off % PAGE_SIZE;
    var h, l := q / 0x10_0000, q % 0x10_0000;
    assert AlignDown(off) == h * U32_RANGE + l * PAGE_SIZE;
    assert 0 <= l * PAGE_SIZE + k < U32_RANGE;
    assert off == h * U32_RANGE + (l * PAGE_SIZE + k);
  }

  /** What a fault loads at file offset `off`: the byte at `off` modulo 2^32. */
  lemma FaultLoads(r: Region, content: seq<byte>, addr: nat, stale: seq<byte>, a: nat)
    requires PageAligned(r) && r.start <= addr && |stale| == PAGE_SIZE
    requires AlignDown(addr) <= a < AlignDown(addr) + PAGE_SIZE
    requires (a - r.start) % U32_RANGE < |content|
    ensures FaultPage(r, content, addr, stale)[a - AlignDown(addr)] == content[(a - r.start) % U32_RANGE]
  {
    AlignedParts(r, a, addr);
    OffsetWraps(a - r.start);
    var offset, k := AlignDown(addr - r.start) % U32_RANGE, a - AlignDown(addr);
    var bytes := BytesAt(content, offset, PAGE_SIZE);
    assert offset + k == (a - r.start) % U32_RANGE;
  }

  /** The fault at `addr` puts the byte of the file at `a`, if the file is that long. */
  predicate LoadsRight(r: Region, content: seq<byte>, addr: nat, stale: seq<byte>, a: nat)
    requires r.start <= addr && |stale| == PAGE_SIZE
  {
    AlignDown(addr) <= a < AlignDown(addr) + PAGE_SIZE && r.start <= a < r.start + |content| ==>
      FaultPage(r, content, addr, stale)[a - AlignDown(addr)] == content[a - r.start]
  }

  /** Every fault on the region is right about every byte of the file. */
  ghost predicate FaultsRight(r: Region, content: seq<byte>) {
    forall addr, stale, a | r.start <= addr < r.start + r.length && |stale| == PAGE_SIZE && 0 <= a ::
      LoadsRight(r, content, addr, stale, a)
  }

  /** Cutting the offset to 32 bits does no harm to any file of length `n` exactly when `n` is
      at most 4 GiB. */
  lemma FaultsRightIff(r: Region, n: nat)
    requires PageAligned(r) && n <= r.length
    ensures (forall content: seq<byte> :: |content| == n ==> FaultsRight(r, content)) <==> n <= U32_RANGE
  {
    if n <= U32_RANGE {
      forall content: seq<byte> | |content| == n
        ensures FaultsRight(r, content)
      {
        SmallFileRight(r, content);
      }
    } else {
      LargeFileWrong(r, n);
    }
  }

  lemma SmallFileRight(r: Region, content: seq<byte>)
    requires PageAligned(r) && |content| <= U32_RANGE
    ensures FaultsRight(r, content)
  {
    hide FaultPage;
    forall addr, stale: seq<byte>, a | r.start <= addr < r.start + r.length && |stale| == PAGE_SIZE && 0 <= a
      ensures LoadsRight(r, content, addr, stale, a)
    {
      if AlignDown(addr) <= a < AlignDown(addr) + PAGE_SIZE && r.start <= a < r.start + |content| {
        FaultLoads(r, content, addr, stale, a);
      }
    }
  }

  /** The byte at offset 2^32 is taken from the start of the file. */
  lemma LargeFileWrong(r: Region, n: nat)
    requires PageAligned(r) && U32_RANGE < n <= r.length
    ensures exists content: seq<byte> :: |content| == n && !FaultsRight(r, content)
  {
    hide FaultPage;
    var content: seq<byte> := seq(n, k => if k < U32_RANGE then 0 else 1);
    var stale: seq<byte> := seq(PAGE_SIZE, _ => 0);
    var a := r.start + U32_RANGE;
    assert AlignDown(a) == a;
    FaultLoads(r, content, a, stale, a);
    assert content[U32_RANGE] == 1 && content[0] == 0;
    assert !LoadsRight(r, content, a, stale, a);
  }

  /** Every page of a mapped region starts inside the file, so no fault is beyond its end. */
  lemma FaultStartsInFile(r: Region, content: seq<byte>, addr: nat)
    requires PageAligned(r) && r.length == AlignUp(|content|)
    requires r.start <= addr < r.start + r.length
    ensures AlignDown(addr - r.start) < |content|
  {
  }

  // ---------- faults on several regions ----------

  /** A fault on region `i` at address `addr`. */
  datatype Fault = Fault(i: nat, addr: nat)

  ghost predicate IsFault(regions: seq<Region>, f: Fault) {
    f.i < |regions| && regions[f.i].start <= f.addr < regions[f.i].start + regions[f.i].length
  }

  ghost predicate Mapped(regions: seq<Region>, contents: seq<seq<byte>>) {
    && |contents| == |regions|
    && (forall i :: 0 <= i < |regions| ==> PageAligned(regions[i]) && |contents[i]| <= U32_RANGE)
    && (forall i, j :: 0 <= i < j < |regions| ==> Apart(regions[i], regions[j]))
  }

  predicate Apart(a: Region, b: Region) {
    a.start + a.length <= b.start || b.start + b.length <= a.start
  }

  /** Every populated byte that lies in a region, at an offset inside the file, is the byte of
      the file. */
  ghost predicate AgreesWithFiles(regions: seq<Region>, contents: seq<seq<byte>>, memory: Memory)
    requires |contents| == |regions|
  {
    forall i, a :: 0 <= i < |regions| && a in memory && regions[i].start <= a < regions[i].start + regions[i].length ==>
      RightByte(regions[i], contents[i], memory, a)
  }

  predicate RightByte(r: Region, content: seq<byte>, memory: Memory, a: nat)
    requires a in memory && r.start <= a
  {
    a - r.start < |content| ==> memory[a] == content[a - r.start]
  }

  lemma PutPageAt(memory: Memory, dst: nat, page: seq<byte>, a: nat)
    requires |page| == PAGE_SIZE
    ensures var memory' := PutPage(memory, dst, page);
      if dst <= a < dst + PAGE_SIZE then a in memory' && memory'[a] == page[a - dst]
      else (a in memory' <==> a in memory) && (a in memory ==> memory'[a] == memory[a])
  {
  }

  /** Regions do not overlap, so an address lies in one of them at most. */
  lemma OneRegion(regions: seq<Region>, contents: seq<seq<byte>>, i: nat, j: nat, a: nat)
    requires Mapped(regions, contents) && i < |regions| && j < |regions|
    requires regions[i].start <= a < regions[i].start + regions[i].length
    requires regions[j].start <= a < regions[j].start + regions[j].length
    ensures i == j
  {
  }

  lemma FaultKeepsAgreement(regions: seq<Region>, contents: seq<seq<byte>>, memory: Memory, stale: seq<byte>, f: Fault)
    requires Mapped(regions, contents) && |stale| == PAGE_SIZE && IsFault(regions, f)
    requires AgreesWithFiles(regions, contents, memory)
    ensures AgreesWithFiles(regions, contents,
      PutPage(memory, AlignDown(f.addr), FaultPage(regions[f.i], contents[f.i], f.addr, stale)))
  {
    hide PutPage, FaultPage;
    var r, content, dst := regions[f.i], contents[f.i], AlignDown(f.addr);
    var page := FaultPage(r, content, f.addr, stale);
    var memory' := PutPage(memory, dst, page);
    PageStaysInside(r, f.addr);
    hide AlignDown, Mapped;
    forall i, a | 0 <= i < |regions| && a in memory' && regions[i].start <= a < regions[i].start + regions[i].length
      ensures RightByte(regions[i], contents[i], memory', a)
    {
      PutPageAt(memory, dst, page, a);
      if dst <= a < dst + PAGE_SIZE {
        OneRegion(regions, contents, i, f.i, a);
        LoadedByteRight(regions, contents, f, stale, a);
      } else {
        assert RightByte(regions[i], contents[i], memory, a);
      }
    }
  }

  lemma LoadedByteRight(regions: seq<Region>, contents: seq<seq<byte>>, f: Fault, stale: seq<byte>, a: nat)
    requires Mapped(regions, contents) && |stale| == PAGE_SIZE && IsFault(regions, f)
    requires AlignDown(f.addr) <= a < AlignDown(f.addr) + PAGE_SIZE
    ensures regions[f.i].start <= a < regions[f.i].start + |contents[f.i]| ==>
      FaultPage(regions[f.i], contents[f.i], f.addr, stale)[a - AlignDown(f.addr)] ==
        contents[f.i][a - regions[f.i].start]
  {
    hide FaultPage;
    var r, content := regions[f.i], contents[f.i];
    if r.start <= a < r.start + |content| {
      FaultLoads(r, content, f.addr, stale, a);
    }
  }

  /** A fault writes nothing outside its own region. */
  lemma FaultStaysInRegion(r: Region, content: seq<byte>, memory: Memory, stale: seq<byte>, addr: nat, a: nat)
    requires PageAligned(r) && |stale| == PAGE_SIZE && r.start <= addr < r.start + r.length
    requires !(r.start <= a < r.start + r.length)
    ensures var memory' := PutPage(memory, AlignDown(addr), FaultPage(r, content, addr, stale));
      (a in memory' <==> a in memory) && (a in memory ==> memory'[a] == memory[a])
  {
    PageStaysInside(r, addr);
  }

  /** The view of a mapping: its first `|content|` bytes. Once every page has been touched it
      is the whole file. */
  lemma ViewIsFile(regions: seq<Region>, contents: seq<seq<byte>>, memory: Memory, i: nat)
    requires Mapped(regions, contents) && i < |regions| && AgreesWithFiles(regions, contents, memory)
    requires regions[i].length == AlignUp(|contents[i]|)
    requires forall a :: regions[i].start <= a < regions[i].start + regions[i].length ==> a in memory
    ensures |contents[i]| <= regions[i].length
    ensures seq(|contents[i]|, k requires 0 <= k < |contents[i]| &&
      regions[i].start + k in memory => memory[regions[i].start + k]) == contents[i]
  {
    var r, content := regions[i], contents[i];
    forall k | 0 <= k < |content|
      ensures memory[r.start + k] == content[k]
    {
      assert RightByte(r, content, memory, r.start + k);
    }
  }

  // ---------- the file behind a descriptor ----------

  /** The content of the file behind a descriptor. */
  function ContentOf(s: Sys, fd: nat): seq<byte>
    requires FatBacked(s, fd) && s.table[s.files[fd].src.handle].value.path in s.disk
  {
    s.disk[s.table[s.files[fd].src.handle].value.path]
  }

  ghost predicate Backed(s: Sys, fd: nat) {
    FatBacked(s, fd) && s.files[fd].mode.rd && s.table[s.files[fd].src.handle].value.path in s.disk
  }

  /** System calls between the faults do not matter, unless they close the descriptor or write
      to the file. */
  lemma ContentStable(s: Sys, e: Event, fd: nat)
    requires Owned(s) && Enabled(s, e) && Backed(s, fd) && Harmless(s, e, fd)
    ensures Backed(After(s, e), fd) && ContentOf(After(s, e), fd) == ContentOf(s, fd)
  {
    EventKeepsOthers(s, e, fd);
  }

  /** The event neither closes the descriptor nor writes to its file. */
  ghost predicate Harmless(s: Sys, e: Event, fd: nat)
    requires Enabled(s, e) && FatBacked(s, fd)
  {
    && e != Closed(fd)
    && (e.Wrote? ==> s.table[s.files[e.fd].src.handle].value.path != s.table[s.files[fd].src.handle].value.path)
  }

  // ---------- every run of faults and system calls ----------

  /** The system, the memory, and the page buffer that all faults share. */
  datatype Machine = Machine(s: Sys, memory: Memory, page: seq<byte>)

  /** A fault that loads a page, a fault that fails and leaves anything in the page buffer, or
      a system call. */
  datatype Step = Loaded(f: Fault) | Refused(page: seq<byte>) | Called(e: Event)

  ghost predicate CanStep(regions: seq<Region>, m: Machine, step: Step) {
    match step
    case Loaded(f) => IsFault(regions, f) && Backed(m.s, regions[f.i].fd) && |m.page| == PAGE_SIZE
    case Refused(page) => |page| == PAGE_SIZE
    case Called(e) =>
      Enabled(m.s, e) && forall i :: 0 <= i < |regions| && Backed(m.s, regions[i].fd) ==>
        Harmless(m.s, e, regions[i].fd)
  }

  ghost function StepTo(regions: seq<Region>, m: Machine, step: Step): Machine
    requires CanStep(regions, m, step)
  {
    match step
    case Loaded(f) =>
      var page := FaultPage(regions[f.i], ContentOf(m.s, regions[f.i].fd), f.addr, m.page);
      m.(memory := PutPage(m.memory, AlignDown(f.addr), page), page := page)
    case Refused(page) => m.(page := page)
    case Called(e) => m.(s := After(m.s, e))
  }

  ghost predicate Reaches(regions: seq<Region>, m: Machine, steps: seq<Step>, m': Machine)
    decreases |steps|
  {
    if steps == [] then m' == m
    else CanStep(regions, m, steps[0]) && Reaches(regions, StepTo(regions, m, steps[0]), steps[1..], m')
  }

  /** Every region is backed by a file with the given content, and memory agrees with it. */
  ghost predicate Refines(regions: seq<Region>, contents: seq<seq<byte>>, m: Machine) {
    && Mapped(regions, contents) && Owned(m.s) && |m.page| == PAGE_SIZE
    && (forall i :: 0 <= i < |regions| ==> BackedBy(m.s, regions[i].fd, contents[i]))
    && AgreesWithFiles(regions, contents, m.memory)
  }

  ghost predicate BackedBy(s: Sys, fd: nat, content: seq<byte>) {
    Backed(s, fd) && ContentOf(s, fd) == content
  }

  lemma StepRefines(regions: seq<Region>, contents: seq<seq<byte>>, m: Machine, step: Step)
    requires Refines(regions, contents, m) && CanStep(regions, m, step)
    ensures Refines(regions, contents, StepTo(regions, m, step))
  {
    hide AgreesWithFiles, FaultPage, PutPage, Owned, Enabled, After, ContentOf, Backed, Harmless;
    match step
    case Loaded(f) =>
      assert BackedBy(m.s, regions[f.i].fd, contents[f.i]);
      FaultKeepsAgreement(regions, contents, m.memory, m.page, f);
    case Refused(_) =>
    case Called(e) =>
      EventKeepsOwned(m.s, e);
      forall i | 0 <= i < |regions|
        ensures BackedBy(After(m.s, e), regions[i].fd, contents[i])
      {
        assert BackedBy(m.s, regions[i].fd, contents[i]);
        ContentStable(m.s, e, regions[i].fd);
      }
  }

  /** Demand paging refines the file: after every run of faults that load, faults that fail and
      harmless system calls, in any order, what is in memory agrees with the files. */
  lemma {:induction false} PagingRefinesFiles(regions: seq<Region>, contents: seq<seq<byte>>, m: Machine,
      steps: seq<Step>, m': Machine)
    requires Refines(regions, contents, m) && Reaches(regions, m, steps, m')
    ensures Refines(regions, contents, m')
    decreases |steps|
  {
    hide Refines, CanStep, StepTo;
    if steps != [] {
      StepRefines(regions, contents, m, steps[0]);
      PagingRefinesFiles(regions, contents, StepTo(regions, m, steps[0]), steps[1..], m');
    }
  }

  lemma ReachesThree(regions: seq<Region>, m: Machine, a: Step, b: Step, c: Step)
    requires CanStep(regions, m, a)
    requires CanStep(regions, StepTo(regions, m, a), b)
    requires CanStep(regions, StepTo(regions, StepTo(regions, m, a), b), c)
    ensures Reaches(regions, m, [a, b, c], StepTo(regions, StepTo(regions, StepTo(regions, m, a), b), c))
  {
    hide CanStep, StepTo;
    var m1 := StepTo(regions, m, a);
    var m2 := StepTo(regions, m1, b);
    var m3 := StepTo(regions, m2, c);
    assert Reaches(regions, m3, [], m3);
    assert [c][1..] == [] && Reaches(regions, m2, [c], m3);
    assert [b, c][1..] == [c] && Reaches(regions, m1, [b, c], m3);
    assert [a, b, c][1..] == [b, c];
  }

  // ---------- the handler ----------

  class Pager {
    const kernel: Kernel
    const page: array<byte>
    var memory: Memory

    ghost predicate Valid()
      reads this, kernel, kernel.fdtab, kernel.fat, page
    {
      kernel.Valid() && page.Length == PAGE_SIZE
    }

    ghost function Value(): Machine
      reads this, kernel, kernel.fdtab, kernel.fat, page
    {
      Machine(kernel.State(), memory, page[..])
    }

    constructor (k: Kernel)
      requires k.Valid()
      ensures Valid() && kernel == k && memory == map[] && fresh(page)
    {
      kernel, memory := k, map[];
      page := new byte[PAGE_SIZE](_ => 0);
    }

    /** Seek to the offset, then read a page into the shared buffer. A descriptor that is not
        a readable file is refused. */
    method ReadAtOffset(fd: nat, offset: nat) returns (ok: bool, ghost e: Event, ghost e': Event)
      requires Valid()
      modifies page, kernel.fat`table
      ensures Valid()
      ensures Quiet(e) && Enabled(old(kernel.State()), e)
      ensures Quiet(e') && Enabled(After(old(kernel.State()), e), e')
      ensures kernel.State() == After(After(old(kernel.State()), e), e')
      ensures ok ==> Backed(old(kernel.State()), fd)
      ensures ok ==> page[..] == Filled(ContentOf(old(kernel.State()), fd), offset, old(page[..]))
    {
      ghost var s := kernel.State();
      var moved;
      moved, e := kernel.Lseek(fd, offset);
      ghost var s' := kernel.State();
      if moved.Err? {
        e' := Failed({});
        FailedKeeps(s');
        return false, e, e';
      }
      var n;
      n, e' := kernel.Read(fd, page);
      ok := n.Ok?;
      if ok {
        assert Backed(s, fd);
        ContentStable(s, e, fd);
        assert CursorOf(s', fd) == Min(offset, |ContentOf(s, fd)|);
        ClampedRead(ContentOf(s, fd), offset, PAGE_SIZE);
      }
    }

    /** Read the page of the file into the shared buffer and copy the buffer to the page in
        memory. A failing call leaves memory as it was. Either way the handler makes steps of
        the machine. */
    method DoPageFault(regions: seq<Region>, i: nat, addr: nat) returns (ok: bool, ghost steps: seq<Step>)
      requires Valid() && IsFault(regions, Fault(i, addr))
      modifies this`memory, page, kernel.fat`table
      ensures Valid() && Reaches(regions, old(Value()), steps, Value())
      ensures ok ==> Loaded(Fault(i, addr)) in steps
      ensures !ok ==> memory == old(memory)
    {
      hide PutPage, FaultPage, Filled, Reaches, CanStep, StepTo, Enabled, After, Owned, Backed, ContentOf, AlignDown;
      ghost var m := Value();
      var r := regions[i];
      var alignedOffset := AlignDown(addr - r.start);
      ghost var e, e';
      ok, e, e' := ReadAtOffset(r.fd, alignedOffset % U32_RANGE);
      ghost var last := Refused(page[..]);
      if ok {
        last := Loaded(Fault(i, addr));
        LoadedStep(regions, m, Fault(i, addr), page[..]);
        memory := PutPage(memory, AlignDown(addr), page[..]);
      } else {
        RefusedStep(regions, m, page[..]);
      }
      QuietSteps(regions, m, e, e', last);
      steps := [Called(e), Called(e'), last];
    }
  }

  lemma LoadedStep(regions: seq<Region>, m: Machine, f: Fault, page: seq<byte>)
    requires IsFault(regions, f) && Backed(m.s, regions[f.i].fd) && |m.page| == PAGE_SIZE
    requires page == Filled(ContentOf(m.s, regions[f.i].fd), AlignDown(f.addr - regions[f.i].start) % U32_RANGE, m.page)
    ensures CanStep(regions, m, Loaded(f))
    ensures StepTo(regions, m, Loaded(f)) == m.(memory := PutPage(m.memory, AlignDown(f.addr), page), page := page)
  {
    hide PutPage, Filled, AlignDown, Backed, ContentOf;
  }

  lemma RefusedStep(regions: seq<Region>, m: Machine, page: seq<byte>)
    requires |page| == PAGE_SIZE
    ensures CanStep(regions, m, Refused(page)) && StepTo(regions, m, Refused(page)) == m.(page := page)
  {
  }

  /** An event that moves a cursor or fails. */
  predicate Quiet(e: Event) {
    e.Moved? || e == Failed({})
  }

  lemma FailedKeeps(s: Sys)
    ensures Enabled(s, Failed({})) && After(s, Failed({})) == s
  {
    assert s.sockets + {} == s.sockets;
  }

  lemma QuietStep(regions: seq<Region>, m: Machine, e: Event)
    requires Enabled(m.s, e) && Quiet(e)
    ensures CanStep(regions, m, Called(e)) && StepTo(regions, m, Called(e)) == m.(s := After(m.s, e))
  {
  }

  lemma QuietSteps(regions: seq<Region>, m: Machine, e: Event, e': Event, last: Step)
    requires Enabled(m.s, e) && Quiet(e) && Owned(m.s)
    requires Enabled(After(m.s, e), e') && Quiet(e')
    requires !last.Called? && CanStep(regions, m, last)
    ensures Reaches(regions, m, [Called(e), Called(e'), last], StepTo(regions, m, last).(s := After(After(m.s, e), e')))
  {
    hide CanStep, StepTo, Enabled, After, Owned, Reaches;
    var m1 := m.(s := After(m.s, e));
    var m2 := m.(s := After(m1.s, e'));
    QuietStep(regions, m, e);
    QuietStep(regions, m1, e');
    EventKeepsOwned(m.s, e);
    LastStep(regions, m, e, last);
    LastStep(regions, m1, e', last);
    ReachesThree(regions, m, Called(e), Called(e'), last);
  }

  /** Quiet events before a fault do not change what it loads. */
  lemma LastStep(regions: seq<Region>, m: Machine, e: Event, last: Step)
    requires Enabled(m.s, e) && Quiet(e) && Owned(m.s)
    requires !last.Called? && CanStep(regions, m, last)
    ensures var m' := m.(s := After(m.s, e));
      CanStep(regions, m', last) && StepTo(regions, m', last) == StepTo(regions, m, last).(s := m'.s)
  {
    hide Enabled, After, Owned, FaultPage, PutPage, Backed, ContentOf;
    if last.Loaded? {
      ContentStable(m.s, e, regions[last.f.i].fd);
    }
  }

  lemma ClampedRead(content: seq<byte>, offset: nat, n: nat)
    ensures BytesAt(content, Min(offset, |content|), n) == BytesAt(content, offset, n)
  {
  }
}
