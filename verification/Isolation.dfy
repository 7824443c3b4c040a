/** Groups of functions that run in parallel and exchange data through named buffer slots.

    A group runs as a set of threads, one step at a time in any order, and ends when all its
    threads have ended; then the next group starts. Slots are accessed by name. Whether an
    access also removes the slot is not fixed here: every statement holds for both values of
    `consume`. */
module Isolation {
  import opened Options

  type Store<V> = map<string, V>

  /** What a thread does next: access a slot, put a value into a slot (allocating it if it is
      new), or end, successfully or not. */
  datatype Action<V> = Read(slot: string) | Write(slot: string, value: V) | Stop(ok: bool)

  /** A function: its next action depends on the values read so far and the number of writes
      done. It touches only slots in `footprint`, and it ends: it reads at most `maxReads`
      times, and after reading `got` it has written at most `maxWrites(got)` times. */
  datatype Program<!V> = Program(next: (seq<V>, nat) -> Action<V>, footprint: iset<string>,
                                 maxReads: nat, maxWrites: seq<V> -> nat)

  datatype Thread<V> = Thread(got: seq<V>, wrote: nat, result: Option<bool>)

  ghost predicate WellBehaved<V(!new)>(p: Program<V>) {
    forall got: seq<V>, wrote: nat {:trigger p.next(got, wrote)} :: match p.next(got, wrote)
      case Read(s) => s in p.footprint && |got| < p.maxReads
      case Write(s, _) => s in p.footprint && wrote < p.maxWrites(got)
      case Stop(_) => true
  }

  /** One step of one thread; a read of a missing slot ends the thread with a failure. */
  function Step<V>(p: Program<V>, consume: bool, t: Thread<V>, store: Store<V>): (Thread<V>, Store<V>) {
    if t.result.Some? then (t, store)
    else match p.next(t.got, t.wrote)
      case Read(s) =>
        if s in store then (t.(got := t.got + [store[s]]), if consume then store - {s} else store)
        else (t.(result := Some(false)), store)
      case Write(s, v) => (t.(wrote := t.wrote + 1), store[s := v])
      case Stop(ok) => (t.(result := Some(ok)), store)
  }

  /** `n` steps of a function that runs alone. */
  function Alone<V>(p: Program<V>, consume: bool, store: Store<V>, n: nat): (Thread<V>, Store<V>) {
    if n == 0 then (Thread([], 0, None), store)
    else var (t, s) := Alone(p, consume, store, n - 1); Step(p, consume, t, s)
  }

  /** The number of steps until the function ends. */
  ghost function Duration<V(!new)>(p: Program<V>, consume: bool, t: Thread<V>, store: Store<V>): nat
    requires WellBehaved(p)
    decreases t.result.None?, if |t.got| <= p.maxReads then p.maxReads - |t.got| else 0,
      if t.wrote <= p.maxWrites(t.got) then p.maxWrites(t.got) - t.wrote else 0
  {
    if t.result.Some? then 0
    else var (t', s') := Step(p, consume, t, store); 1 + Duration(p, consume, t', s')
  }

  ghost function Lifetime<V(!new)>(p: Program<V>, consume: bool, store: Store<V>): nat
    requires WellBehaved(p)
  {
    Duration(p, consume, Thread([], 0, None), store)
  }

  /** The outcome of a function that runs alone until it ends. */
  ghost function Outcome<V(!new)>(p: Program<V>, consume: bool, store: Store<V>): (Thread<V>, Store<V>)
    requires WellBehaved(p)
  {
    Alone(p, consume, store, Lifetime(p, consume, store))
  }

  ghost predicate Succeeds<V(!new)>(p: Program<V>, consume: bool, store: Store<V>)
    requires WellBehaved(p)
  {
    Outcome(p, consume, store).0.result == Some(true)
  }

  // ---------- a function alone ----------

  lemma {:induction false} Countdown<V(!new)>(p: Program<V>, consume: bool, store: Store<V>, n: nat)
    requires WellBehaved(p) && n <= Lifetime(p, consume, store)
    ensures var (t, s) := Alone(p, consume, store, n);
      Duration(p, consume, t, s) == Lifetime(p, consume, store) - n
  {
    if n > 0 {
      Countdown(p, consume, store, n - 1);
    }
  }

  lemma {:induction false} EndedStays<V>(p: Program<V>, consume: bool, store: Store<V>, n: nat, m: nat)
    requires n <= m && Alone(p, consume, store, n).0.result.Some?
    ensures Alone(p, consume, store, m) == Alone(p, consume, store, n)
    decreases m
  {
    if n < m {
      EndedStays(p, consume, store, n, m - 1);
    }
  }

  /** A function has ended exactly after its lifetime, and then it is at its outcome. */
  lemma EndedIsOutcome<V(!new)>(p: Program<V>, consume: bool, store: Store<V>, n: nat)
    requires WellBehaved(p)
    ensures Outcome(p, consume, store).0.result.Some?
    ensures Alone(p, consume, store, n).0.result.Some? <==> Lifetime(p, consume, store) <= n
    ensures Lifetime(p, consume, store) <= n ==> Alone(p, consume, store, n) == Outcome(p, consume, store)
  {
    var m := Lifetime(p, consume, store);
    Countdown(p, consume, store, m);
    if n <= m {
      Countdown(p, consume, store, n);
    } else {
      EndedStays(p, consume, store, m, n);
    }
  }

  // ---------- locality ----------

  /** Two stores hold the same in slot `s`. */
  ghost predicate SameAt<V>(a: Store<V>, b: Store<V>, s: string) {
    (s in a <==> s in b) && (s in a ==> a[s] == b[s])
  }

  ghost predicate SameOn<V>(a: Store<V>, b: Store<V>, slots: iset<string>) {
    forall s :: s in slots ==> SameAt(a, b, s)
  }

  ghost predicate SameOutside<V>(a: Store<V>, b: Store<V>, slots: iset<string>) {
    forall s :: s !in slots ==> SameAt(a, b, s)
  }

  /** A step depends only on the footprint and changes only the footprint. */
  lemma StepIsLocal<V(!new)>(p: Program<V>, consume: bool, t: Thread<V>, a: Store<V>, b: Store<V>)
    requires WellBehaved(p) && SameOn(a, b, p.footprint)
    ensures Step(p, consume, t, a).0 == Step(p, consume, t, b).0
    ensures SameOn(Step(p, consume, t, a).1, Step(p, consume, t, b).1, p.footprint)
    ensures SameOutside(Step(p, consume, t, a).1, a, p.footprint)
  {
    if t.result.None? {
      match p.next(t.got, t.wrote)
      case Read(s) => assert SameAt(a, b, s);
      case Write(s, v) =>
      case Stop(ok) =>
    }
  }

  lemma {:induction false} AloneIsLocal<V(!new)>(p: Program<V>, consume: bool, a: Store<V>, b: Store<V>, n: nat)
    requires WellBehaved(p) && SameOn(a, b, p.footprint)
    ensures Alone(p, consume, a, n).0 == Alone(p, consume, b, n).0
    ensures SameOn(Alone(p, consume, a, n).1, Alone(p, consume, b, n).1, p.footprint)
    ensures SameOutside(Alone(p, consume, a, n).1, a, p.footprint)
  {
    if n > 0 {
      AloneIsLocal(p, consume, a, b, n - 1);
      var (t, s) := Alone(p, consume, a, n - 1);
      StepIsLocal(p, consume, t, s, Alone(p, consume, b, n - 1).1);
    }
  }

  lemma OutcomeIsLocal<V(!new)>(p: Program<V>, consume: bool, a: Store<V>, b: Store<V>)
    requires WellBehaved(p) && SameOn(a, b, p.footprint)
    ensures Outcome(p, consume, a).0 == Outcome(p, consume, b).0
    ensures SameOn(Outcome(p, consume, a).1, Outcome(p, consume, b).1, p.footprint)
    ensures SameOutside(Outcome(p, consume, a).1, a, p.footprint)
  {
    var n := Lifetime(p, consume, a);
    AloneIsLocal(p, consume, a, b, n);
    EndedIsOutcome(p, consume, a, n);
    EndedIsOutcome(p, consume, b, n);
  }

  // ---------- a group ----------

  datatype GroupState<V> = GroupState(threads: seq<Thread<V>>, store: Store<V>)

  /** No two functions of the group share a slot. */
  ghost predicate Independent<V>(group: seq<Program<V>>) {
    forall i, j :: 0 <= i < j < |group| ==> group[i].footprint !! group[j].footprint
  }

  ghost predicate AllWellBehaved<V(!new)>(group: seq<Program<V>>) {
    forall i :: 0 <= i < |group| ==> WellBehaved(group[i])
  }

  ghost predicate Admissible<V(!new)>(group: seq<Program<V>>) {
    Independent(group) && AllWellBehaved(group)
  }

  function Start<V>(group: seq<Program<V>>, store: Store<V>): GroupState<V> {
    GroupState(seq(|group|, _ => Thread([], 0, None)), store)
  }

  function GroupStep<V>(group: seq<Program<V>>, consume: bool, g: GroupState<V>, i: nat): GroupState<V>
    requires i < |group| == |g.threads|
  {
    var (t, s) := Step(group[i], consume, g.threads[i], g.store);
    GroupState(g.threads[i := t], s)
  }

  ghost predicate IsSchedule<V>(group: seq<Program<V>>, schedule: seq<nat>) {
    forall k :: 0 <= k < |schedule| ==> schedule[k] < |group|
  }

  /** The group after the threads took steps in the order of `schedule`. */
  ghost function RunSchedule<V>(group: seq<Program<V>>, consume: bool, store: Store<V>,
      schedule: seq<nat>): (g: GroupState<V>)
    requires IsSchedule(group, schedule)
    ensures |g.threads| == |group|
  {
    if schedule == [] then Start(group, store)
    else
      var n := |schedule| - 1;
      GroupStep(group, consume, RunSchedule(group, consume, store, schedule[..n]), schedule[n])
  }

  ghost predicate Complete<V>(g: GroupState<V>) {
    forall i :: 0 <= i < |g.threads| ==> g.threads[i].result.Some?
  }

  ghost function Turns(schedule: seq<nat>, i: nat): nat {
    if schedule == [] then 0
    else
      var n := |schedule| - 1;
      Turns(schedule[..n], i) + if schedule[n] == i then 1 else 0
  }

  /** In every interleaving, every function is where it would be had it run alone for as many
      steps, and the slots it owns hold what they would hold then. */
  ghost predicate AsIfAlone<V>(group: seq<Program<V>>, consume: bool, store: Store<V>, schedule: seq<nat>, i: nat)
    requires IsSchedule(group, schedule) && i < |group|
  {
    var g := RunSchedule(group, consume, store, schedule);
    var alone := Alone(group[i], consume, store, Turns(schedule, i));
    g.threads[i] == alone.0 && SameOn(g.store, alone.1, group[i].footprint)
  }

  ghost predicate OwnedByNone<V>(group: seq<Program<V>>, s: string) {
    forall i :: 0 <= i < |group| ==> s !in group[i].footprint
  }

  lemma {:induction false} Noninterference<V(!new)>(group: seq<Program<V>>, consume: bool, store: Store<V>,
      schedule: seq<nat>)
    requires Admissible(group) && IsSchedule(group, schedule)
    ensures forall i :: 0 <= i < |group| ==> AsIfAlone(group, consume, store, schedule, i)
    ensures forall s :: OwnedByNone(group, s) ==> SameAt(RunSchedule(group, consume, store, schedule).store, store, s)
    decreases |schedule|
  {
    if schedule != [] {
      var n := |schedule| - 1;
      var before, k := schedule[..n], schedule[n];
      Noninterference(group, consume, store, before);
      var g := RunSchedule(group, consume, store, before);
      var g' := RunSchedule(group, consume, store, schedule);
      assert AsIfAlone(group, consume, store, before, k);
      var alone := Alone(group[k], consume, store, Turns(before, k));
      StepIsLocal(group[k], consume, g.threads[k], g.store, alone.1);
      forall i | 0 <= i < |group|
        ensures AsIfAlone(group, consume, store, schedule, i)
      {
        assert AsIfAlone(group, consume, store, before, i);
        if i != k {
          OthersKeep(group, g.store, g'.store, Alone(group[i], consume, store, Turns(before, i)).1, i, k);
        }
      }
      forall s | OwnedByNone(group, s)
        ensures SameAt(g'.store, store, s)
      {
        assert s !in group[k].footprint;
        assert SameAt(g'.store, g.store, s);
      }
    }
  }

  lemma OthersKeep<V(!new)>(group: seq<Program<V>>, s: Store<V>, s': Store<V>, alone: Store<V>, i: nat, k: nat)
    requires Independent(group) && i < |group| && k < |group| && i != k
    requires SameOutside(s', s, group[k].footprint)
    requires SameOn(s, alone, group[i].footprint)
    ensures SameOn(s', alone, group[i].footprint)
  {
    forall x | x in group[i].footprint
      ensures SameAt(s', alone, x)
    {
      assert x !in group[k].footprint;
      assert SameAt(s', s, x);
    }
  }

  // ---------- the group run one function after the other ----------

  ghost function Sequential<V(!new)>(group: seq<Program<V>>, consume: bool, store: Store<V>): Store<V>
    requires AllWellBehaved(group)
  {
    if group == [] then store
    else Sequential(group[1..], consume, Outcome(group[0], consume, store).1)
  }

  /** The one-by-one run leaves a slot alone that no function owns. */
  lemma {:induction false} SequentialKeeps<V(!new)>(group: seq<Program<V>>, consume: bool, store: Store<V>, s: string)
    requires AllWellBehaved(group) && OwnedByNone(group, s)
    ensures SameAt(Sequential(group, consume, store), store, s)
  {
    hide WellBehaved, Outcome;
    if group != [] {
      var rest, next := group[1..], Outcome(group[0], consume, store).1;
      OutcomeIsLocal(group[0], consume, store, store);
      assert s !in group[0].footprint;
      assert SameAt(next, store, s);
      SequentialKeeps(rest, consume, next, s);
    }
  }

  /** The slots of function `i` hold what it leaves there when it runs alone. */
  lemma {:induction false} SequentialAt<V(!new)>(group: seq<Program<V>>, consume: bool, store: Store<V>, i: nat)
    requires Admissible(group) && i < |group|
    ensures SameOn(Sequential(group, consume, store), Outcome(group[i], consume, store).1, group[i].footprint)
    decreases |group|
  {
    hide WellBehaved, Outcome;
    var p, rest, next := group[i], group[1..], Outcome(group[0], consume, store).1;
    var final := Sequential(group, consume, store);
    assert final == Sequential(rest, consume, next);
    OutcomeIsLocal(group[0], consume, store, store);
    if i == 0 {
      forall s | s in p.footprint
        ensures SameAt(final, next, s)
      {
        assert OwnedByNone(rest, s);
        SequentialKeeps(rest, consume, next, s);
      }
    } else {
      assert p == rest[i - 1] && Admissible(rest);
      assert SameOn(next, store, p.footprint) by {
        forall s | s in p.footprint ensures SameAt(next, store, s) { assert s !in group[0].footprint; }
      }
      SequentialAt(rest, consume, next, i - 1);
      OutcomeIsLocal(p, consume, next, store);
      SameOnTrans(final, Outcome(p, consume, next).1, Outcome(p, consume, store).1, p.footprint);
    }
  }

  lemma SameOnTrans<V>(a: Store<V>, b: Store<V>, c: Store<V>, slots: iset<string>)
    requires SameOn(a, b, slots) && SameOn(b, c, slots)
    ensures SameOn(a, c, slots)
  {
    forall s | s in slots
      ensures SameAt(a, c, s)
    {
      assert SameAt(a, b, s) && SameAt(b, c, s);
    }
  }

  lemma SequentialIsLocal<V(!new)>(group: seq<Program<V>>, consume: bool, store: Store<V>)
    requires Admissible(group)
    ensures forall i :: 0 <= i < |group| ==>
              SameOn(Sequential(group, consume, store), Outcome(group[i], consume, store).1, group[i].footprint)
    ensures forall s :: OwnedByNone(group, s) ==> SameAt(Sequential(group, consume, store), store, s)
  {
    hide WellBehaved, Outcome, Sequential, SameOn, SameAt, OwnedByNone, Independent;
    forall i | 0 <= i < |group|
      ensures SameOn(Sequential(group, consume, store), Outcome(group[i], consume, store).1, group[i].footprint)
    {
      SequentialAt(group, consume, store, i);
    }
    forall s | OwnedByNone(group, s)
      ensures SameAt(Sequential(group, consume, store), store, s)
    {
      SequentialKeeps(group, consume, store, s);
    }
  }

  lemma StoresEqual<V(!new)>(a: Store<V>, b: Store<V>)
    requires forall s :: SameAt(a, b, s)
    ensures a == b
  {
    assert a.Keys == b.Keys by {
      forall s ensures s in a.Keys <==> s in b.Keys { assert SameAt(a, b, s); }
    }
    forall s | s in a
      ensures a[s] == b[s]
    {
      assert SameAt(a, b, s);
    }
  }

  /** Confluence: every complete interleaving of a group of independent functions ends in the
      store that results from running them one after the other, and every function ends as it
      does alone. */
  lemma Confluence<V(!new)>(group: seq<Program<V>>, consume: bool, store: Store<V>, schedule: seq<nat>)
    requires Admissible(group) && IsSchedule(group, schedule)
    requires Complete(RunSchedule(group, consume, store, schedule))
    ensures RunSchedule(group, consume, store, schedule).store == Sequential(group, consume, store)
    ensures forall i :: 0 <= i < |group| ==>
              RunSchedule(group, consume, store, schedule).threads[i] == Outcome(group[i], consume, store).0
  {
    var g, final := RunSchedule(group, consume, store, schedule), Sequential(group, consume, store);
    Noninterference(group, consume, store, schedule);
    SequentialIsLocal(group, consume, store);
    forall i | 0 <= i < |group|
      ensures g.threads[i] == Outcome(group[i], consume, store).0
      ensures SameOn(g.store, Outcome(group[i], consume, store).1, group[i].footprint)
    {
      assert AsIfAlone(group, consume, store, schedule, i);
      EndedIsOutcome(group[i], consume, store, Turns(schedule, i));
    }
    forall s
      ensures SameAt(g.store, final, s)
    {
      if i: nat :| i < |group| && s in group[i].footprint {
        assert SameAt(g.store, Outcome(group[i], consume, store).1, s);
        assert SameAt(final, Outcome(group[i], consume, store).1, s);
      } else {
        assert OwnedByNone(group, s);
      }
    }
    StoresEqual(g.store, final);
  }

  // ---------- the runner ----------

  /** The steps the threads from `k` on have still to take. */
  ghost function Left<V(!new)>(group: seq<Program<V>>, consume: bool, store: Store<V>, schedule: seq<nat>, k: nat): nat
    requires AllWellBehaved(group) && k <= |group|
    decreases |group| - k
  {
    if k == |group| then 0
    else
      var life, turns := Lifetime(group[k], consume, store), Turns(schedule, k);
      (if turns < life then life - turns else 0) + Left(group, consume, store, schedule, k + 1)
  }

  lemma {:induction false} LeftDecreases<V(!new)>(group: seq<Program<V>>, consume: bool, store: Store<V>,
      schedule: seq<nat>, i: nat, k: nat)
    requires AllWellBehaved(group) && i < |group| && k <= |group|
    requires Turns(schedule, i) < Lifetime(group[i], consume, store)
    ensures k <= i ==> Left(group, consume, store, schedule + [i], k) < Left(group, consume, store, schedule, k)
    ensures i < k ==> Left(group, consume, store, schedule + [i], k) == Left(group, consume, store, schedule, k)
    decreases |group| - k
  {
    assert (schedule + [i])[..|schedule|] == schedule;
    if k < |group| {
      LeftDecreases(group, consume, store, schedule, i, k + 1);
    }
  }

  lemma TakeTurn<V(!new)>(group: seq<Program<V>>, consume: bool, store: Store<V>, schedule: seq<nat>, i: nat)
    requires Admissible(group) && IsSchedule(group, schedule) && i < |group|
    requires RunSchedule(group, consume, store, schedule).threads[i].result.None?
    ensures IsSchedule(group, schedule + [i])
    ensures RunSchedule(group, consume, store, schedule + [i])
         == GroupStep(group, consume, RunSchedule(group, consume, store, schedule), i)
    ensures Left(group, consume, store, schedule + [i], 0) < Left(group, consume, store, schedule, 0)
  {
    assert (schedule + [i])[..|schedule|] == schedule;
    Noninterference(group, consume, store, schedule);
    assert AsIfAlone(group, consume, store, schedule, i);
    EndedIsOutcome(group[i], consume, store, Turns(schedule, i));
    LeftDecreases(group, consume, store, schedule, i, 0);
  }

  /** Every thread is spawned, any of them may take the next step, and the group is over when
      all have been joined. */
  method RunGroupInParallel<V(!new)>(group: seq<Program<V>>, consume: bool, store: Store<V>)
      returns (final: Store<V>, ok: bool)
    requires Admissible(group)
    ensures final == Sequential(group, consume, store)
    ensures ok <==> GroupSucceeds(group, consume, store)
  {
    var g := Start(group, store);
    ghost var schedule: seq<nat> := [];
    assert g == RunSchedule(group, consume, store, schedule);
    hide RunSchedule, Left, Outcome, Sequential, WellBehaved, Start, GroupStep;
    while exists i :: 0 <= i < |group| && g.threads[i].result.None?
      invariant IsSchedule(group, schedule)
      invariant g == RunSchedule(group, consume, store, schedule)
      decreases Left(group, consume, store, schedule, 0)
    {
      var i: nat :| i < |group| && g.threads[i].result.None?;
      TakeTurn(group, consume, store, schedule, i);
      schedule := schedule + [i];
      g := GroupStep(group, consume, g, i);
    }
    Confluence(group, consume, store, schedule);
    final := g.store;
    ok := Join(g.threads);
  }

  /** The group succeeds when every thread has. */
  method Join<V>(threads: seq<Thread<V>>) returns (ok: bool)
    ensures ok <==> forall i :: 0 <= i < |threads| ==> threads[i].result == Some(true)
  {
    ok := true;
    for i := 0 to |threads|
      invariant ok <==> forall j :: 0 <= j < i ==> threads[j].result == Some(true)
    {
      if threads[i].result != Some(true) {
        ok := false;
      }
    }
  }

  ghost predicate GroupSucceeds<V(!new)>(group: seq<Program<V>>, consume: bool, store: Store<V>)
    requires AllWellBehaved(group)
  {
    forall i :: 0 <= i < |group| ==> Succeeds(group[i], consume, store)
  }

  /** Groups in order; the first group with a failing function is the last to run. */
  ghost function RunAll<V(!new)>(groups: seq<seq<Program<V>>>, consume: bool, store: Store<V>): (Store<V>, bool)
    requires forall k :: 0 <= k < |groups| ==> AllWellBehaved(groups[k])
  {
    if groups == [] then (store, true)
    else
      var next := Sequential(groups[0], consume, store);
      if GroupSucceeds(groups[0], consume, store) then RunAll(groups[1..], consume, next) else (next, false)
  }

  method RunGroups<V(!new)>(groups: seq<seq<Program<V>>>, consume: bool, store: Store<V>)
      returns (final: Store<V>, ok: bool)
    requires forall k :: 0 <= k < |groups| ==> AllWellBehaved(groups[k])
    requires forall k :: 0 <= k < |groups| ==> Independent(groups[k])
    ensures (final, ok) == RunAll(groups, consume, store)
  {
    final, ok := store, true;
    for k := 0 to |groups|
      invariant ok
      invariant RunAll(groups, consume, store) == RunAll(groups[k..], consume, final)
    {
      final, ok := RunGroupInParallel(groups[k], consume, final);
      if !ok {
        return;
      }
      assert groups[k..][1..] == groups[k + 1..];
    }
  }
}
