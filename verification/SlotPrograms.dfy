/** Functions that access a list of slots, compute, and then fill a list of slots. */
module SlotPrograms {
  import opened Isolation
  import opened Options

  /** What is computed from the values read: the slots to fill in order, and whether the
      function then returns normally. */
  datatype Output<V> = Output(writes: seq<(string, V)>, ok: bool)

  /** Filling a slot takes two steps: allocation with a default value, then the value. */
  function WriteAt<V>(w: seq<(string, V)>, init: V, n: nat): Action<V>
    requires n < 2 * |w|
  {
    Write(w[n / 2].0, if n % 2 == 0 then init else w[n / 2].1)
  }

  ghost function ReadsThenWrites<V>(needs: seq<string>, output: seq<V> -> Output<V>, init: V,
      footprint: iset<string>): Program<V> {
    Program(
      (got: seq<V>, wrote: nat) =>
        if |got| < |needs| then Read(needs[|got|])
        else
          var o := output(got);
          if wrote < 2 * |o.writes| then WriteAt(o.writes, init, wrote) else Stop(o.ok),
      footprint, |needs|, got => 2 * |output(got).writes|)
  }

  ghost predicate Within<V(!new)>(needs: seq<string>, output: seq<V> -> Output<V>, footprint: iset<string>) {
    && (forall k :: 0 <= k < |needs| ==> needs[k] in footprint)
    && (forall got, k {:trigger output(got).writes[k]} :: 0 <= k < |output(got).writes| ==>
      output(got).writes[k].0 in footprint)
  }

  lemma ProgramWellBehaved<V(!new)>(needs: seq<string>, output: seq<V> -> Output<V>, init: V, footprint: iset<string>)
    requires Within(needs, output, footprint)
    ensures WellBehaved(ReadsThenWrites(needs, output, init, footprint))
  {
    var p := ReadsThenWrites(needs, output, init, footprint);
    forall got: seq<V>, wrote: nat
      ensures match p.next(got, wrote)
        case Read(s) => s in p.footprint && |got| < p.maxReads
        case Write(s, _) => s in p.footprint && wrote < p.maxWrites(got)
        case Stop(_) => true
    {
      if |got| >= |needs| && wrote < 2 * |output(got).writes| {
        assert output(got).writes[wrote / 2].0 in footprint;
      }
    }
  }

  ghost predicate NoDuplicates(needs: seq<string>) {
    forall i, j :: 0 <= i < j < |needs| ==> needs[i] != needs[j]
  }

  ghost predicate Present<V>(store: Store<V>, needs: seq<string>) {
    forall k :: 0 <= k < |needs| ==> needs[k] in store
  }

  ghost function Values<V>(store: Store<V>, needs: seq<string>): seq<V>
    requires Present(store, needs)
  {
    seq(|needs|, k requires 0 <= k < |needs| => store[needs[k]])
  }

  ghost function AfterReads<V>(store: Store<V>, needs: seq<string>, consume: bool): Store<V> {
    if consume then store - (set r | r in needs) else store
  }

  /** The store after filling the first `k` slots of `w`. */
  ghost function PutFirst<V>(store: Store<V>, w: seq<(string, V)>, k: nat): Store<V>
    requires k <= |w|
  {
    if k == 0 then store else PutFirst(store, w, k - 1)[w[k - 1].0 := w[k - 1].1]
  }

  ghost function PutAll<V>(store: Store<V>, w: seq<(string, V)>): Store<V> {
    PutFirst(store, w, |w|)
  }

  /** The store after the first `n` write steps. */
  ghost function StoreAfter<V>(store: Store<V>, w: seq<(string, V)>, init: V, n: nat): Store<V>
    requires n <= 2 * |w|
  {
    if n == 0 then store
    else StoreAfter(store, w, init, n - 1)[WriteAt(w, init, n - 1).slot := WriteAt(w, init, n - 1).value]
  }

  lemma {:induction false} StoreAfterPairs<V>(store: Store<V>, w: seq<(string, V)>, init: V, k: nat)
    requires k <= |w|
    ensures StoreAfter(store, w, init, 2 * k) == PutFirst(store, w, k)
  {
    if k > 0 {
      StoreAfterPairs(store, w, init, k - 1);
      var s, slot, v := PutFirst(store, w, k - 1), w[k - 1].0, w[k - 1].1;
      assert StoreAfter(store, w, init, 2 * k - 1) == s[slot := init];
      assert s[slot := init][slot := v] == s[slot := v];
    }
  }

  lemma {:induction false} ReadPhase<V(!new)>(needs: seq<string>, output: seq<V> -> Output<V>, init: V,
      footprint: iset<string>, consume: bool, store: Store<V>, k: nat)
    requires k <= |needs| && NoDuplicates(needs) && Present(store, needs[..k])
    ensures Alone(ReadsThenWrites(needs, output, init, footprint), consume, store, k)
         == (Thread(Values(store, needs[..k]), 0, None), AfterReads(store, needs[..k], consume))
  {
    if k == 0 {
      NothingRead(store, needs[..0], consume);
    } else {
      var before, slot := needs[..k - 1], needs[k - 1];
      assert needs[..k] == before + [slot];
      assert slot !in before;
      OneMoreRead(store, before, slot, needs[..k], consume);
      ReadPhase(needs, output, init, footprint, consume, store, k - 1);
      hide Values, AfterReads, Present, NoDuplicates;
      var p := ReadsThenWrites(needs, output, init, footprint);
      ReadStep(p, consume, store, k - 1, Values(store, before), 0, slot);
    }
  }

  lemma NothingRead<V>(store: Store<V>, needs: seq<string>, consume: bool)
    requires needs == []
    ensures Present(store, needs) && Values(store, needs) == [] && AfterReads(store, needs, consume) == store
  {
    assert store - {} == store;
    assert (set r | r in needs) == {};
  }

  lemma OneMoreRead<V>(store: Store<V>, before: seq<string>, slot: string, after: seq<string>, consume: bool)
    requires after == before + [slot] && slot !in before && Present(store, after)
    ensures Present(store, before) && slot in AfterReads(store, before, consume)
    ensures Values(store, after) == Values(store, before) + [AfterReads(store, before, consume)[slot]]
    ensures AfterReads(store, after, consume)
         == if consume then AfterReads(store, before, consume) - {slot} else AfterReads(store, before, consume)
  {
    assert after[|before|] in store;
    forall i | 0 <= i < |before|
      ensures before[i] in store
    {
      assert after[i] in store;
    }
    assert AfterReads(store, after, true) == AfterReads(store, before, true) - {slot};
  }

  lemma {:induction false} WritePhase<V(!new)>(p: Program<V>, consume: bool, store: Store<V>, m: nat, got: seq<V>,
                                               w: seq<(string, V)>, init: V, n: nat)
    requires forall i :: 0 <= i < 2 * |w| ==> p.next(got, i) == WriteAt(w, init, i)
    requires n <= 2 * |w|
    requires Alone(p, consume, store, m).0 == Thread(got, 0, None)
    ensures Alone(p, consume, store, m + n)
         == (Thread(got, n, None), StoreAfter(Alone(p, consume, store, m).1, w, init, n))
  {
    hide Alone, Step;
    if n > 0 {
      WritePhase(p, consume, store, m, got, w, init, n - 1);
      WriteStep(p, consume, store, m + n - 1, got, n - 1, WriteAt(w, init, n - 1));
    }
  }

  lemma WriteStep<V>(p: Program<V>, consume: bool, store: Store<V>, m: nat, got: seq<V>, wrote: nat, a: Action<V>)
    requires Alone(p, consume, store, m).0 == Thread(got, wrote, None)
    requires a.Write? && p.next(got, wrote) == a
    ensures Alone(p, consume, store, m + 1)
         == (Thread(got, wrote + 1, None), Alone(p, consume, store, m).1[a.slot := a.value])
  {
  }

  lemma ReadStep<V>(p: Program<V>, consume: bool, store: Store<V>, m: nat, got: seq<V>, wrote: nat, slot: string)
    requires Alone(p, consume, store, m).0 == Thread(got, wrote, None)
    requires p.next(got, wrote) == Read(slot) && slot in Alone(p, consume, store, m).1
    ensures var s := Alone(p, consume, store, m).1;
      Alone(p, consume, store, m + 1) == (Thread(got + [s[slot]], wrote, None), if consume then s - {slot} else s)
  {
  }

  lemma StopStep<V>(p: Program<V>, consume: bool, store: Store<V>, m: nat, got: seq<V>, wrote: nat, ok: bool)
    requires Alone(p, consume, store, m).0 == Thread(got, wrote, None)
    requires p.next(got, wrote) == Stop(ok)
    ensures Alone(p, consume, store, m + 1) == (Thread(got, wrote, Some(ok)), Alone(p, consume, store, m).1)
  {
  }

  /** If all slots are there, the function fills its slots and ends as computed. */
  lemma OutcomeWhenPresent<V(!new)>(needs: seq<string>, output: seq<V> -> Output<V>, init: V, footprint: iset<string>,
                                    consume: bool, store: Store<V>)
    requires Within(needs, output, footprint) && NoDuplicates(needs) && Present(store, needs)
    ensures var p, o := ReadsThenWrites(needs, output, init, footprint), output(Values(store, needs));
      && WellBehaved(p)
      && (Succeeds(p, consume, store) <==> o.ok)
      && Outcome(p, consume, store).0.got == Values(store, needs)
      && Outcome(p, consume, store).1 == PutAll(AfterReads(store, needs, consume), o.writes)
  {
    hide Alone, Step;
    var p, got := ReadsThenWrites(needs, output, init, footprint), Values(store, needs);
    var w := output(got).writes;
    ProgramWellBehaved(needs, output, init, footprint);
    assert needs[..|needs|] == needs;
    ReadPhase(needs, output, init, footprint, consume, store, |needs|);
    WritePhase(p, consume, store, |needs|, got, w, init, 2 * |w|);
    StoreAfterPairs(AfterReads(store, needs, consume), w, init, |w|);
    var n := |needs| + 2 * |w|;
    StopStep(p, consume, store, n, got, 2 * |w|, output(got).ok);
    EndedIsOutcome(p, consume, store, n + 1);
  }

  /** If a slot is missing, the function fails. */
  lemma OutcomeWhenMissing<V(!new)>(needs: seq<string>, output: seq<V> -> Output<V>, init: V, footprint: iset<string>,
                                    consume: bool, store: Store<V>)
    requires Within(needs, output, footprint) && NoDuplicates(needs) && !Present(store, needs)
    ensures var p := ReadsThenWrites(needs, output, init, footprint);
      WellBehaved(p) && !Succeeds(p, consume, store)
  {
    var p := ReadsThenWrites(needs, output, init, footprint);
    ProgramWellBehaved(needs, output, init, footprint);
    var k := FirstMissing(store, needs);
    ReadPhase(needs, output, init, footprint, consume, store, k);
    var (t, s) := Alone(p, consume, store, k);
    assert needs[k] !in s;
    assert Alone(p, consume, store, k + 1).0.result == Some(false);
    EndedIsOutcome(p, consume, store, k + 1);
  }

  lemma FirstMissing<V>(store: Store<V>, needs: seq<string>) returns (k: nat)
    requires !Present(store, needs)
    ensures k < |needs| && needs[k] !in store && Present(store, needs[..k])
  {
    k := 0;
    while needs[k] in store
      invariant k < |needs|
      invariant Present(store, needs[..k])
      decreases |needs| - k
    {
      if k + 1 == |needs| {
        assert forall i :: 0 <= i < k ==> needs[i] == needs[..k][i];
        assert Present(store, needs);
      }
      k := k + 1;
    }
  }

  // ---------- looking slots up afterwards ----------

  ghost predicate DistinctSlots<V>(writes: seq<(string, V)>) {
    forall i, j :: 0 <= i < j < |writes| ==> writes[i].0 != writes[j].0
  }

  lemma {:induction false} PutFirstAt<V>(store: Store<V>, w: seq<(string, V)>, n: nat, k: nat)
    requires DistinctSlots(w) && k < n <= |w|
    ensures w[k].0 in PutFirst(store, w, n) && PutFirst(store, w, n)[w[k].0] == w[k].1
  {
    if k < n - 1 {
      PutFirstAt(store, w, n - 1, k);
      assert w[n - 1].0 != w[k].0;
    }
  }

  lemma {:induction false} PutFirstKeeps<V>(store: Store<V>, w: seq<(string, V)>, n: nat, s: string)
    requires n <= |w|
    requires forall k :: 0 <= k < |w| ==> w[k].0 != s
    ensures SameAt(PutFirst(store, w, n), store, s)
  {
    if n > 0 {
      PutFirstKeeps(store, w, n - 1, s);
    }
  }
}
