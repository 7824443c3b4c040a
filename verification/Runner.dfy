/** The runner of a workflow: its groups in order, or, if it has none, its apps one after the
    other in list order. */
module Runner {
  import opened Isolation

  /** The store before app `k` of a run of the apps one after the other. */
  ghost function StoreBefore<V(!new)>(apps: seq<Program<V>>, consume: bool, store: Store<V>, k: nat): Store<V>
    requires AllWellBehaved(apps) && k <= |apps|
  {
    if k == 0 then store else Outcome(apps[k - 1], consume, StoreBefore(apps, consume, store, k - 1)).1
  }

  /** The first `k` apps have succeeded, each on the store its predecessor left. */
  ghost predicate SucceedsUpTo<V(!new)>(apps: seq<Program<V>>, consume: bool, store: Store<V>, k: nat)
    requires AllWellBehaved(apps) && k <= |apps|
  {
    forall i :: 0 <= i < k ==> Succeeds(apps[i], consume, StoreBefore(apps, consume, store, i))
  }

  /** The first `ran` apps ran in list order: all of them, successfully, or up to and including
      the first that failed. */
  ghost predicate RanInOrder<V(!new)>(apps: seq<Program<V>>, consume: bool, store: Store<V>, ran: nat, final: Store<V>,
      ok: bool)
    requires AllWellBehaved(apps)
  {
    && ran <= |apps| && final == StoreBefore(apps, consume, store, ran)
    && if ok then ran == |apps| && SucceedsUpTo(apps, consume, store, ran)
       else
         ran > 0 && SucceedsUpTo(apps, consume, store, ran - 1)
         && !Succeeds(apps[ran - 1], consume, StoreBefore(apps, consume, store, ran - 1))
  }

  /** The apps in list order, each alone; the first failing app is the last to run. */
  method RunAsSequence<V(!new)>(apps: seq<Program<V>>, consume: bool, store: Store<V>)
      returns (final: Store<V>, ok: bool, ran: nat)
    requires AllWellBehaved(apps)
    ensures RanInOrder(apps, consume, store, ran, final, ok)
  {
    hide Outcome, Succeeds, WellBehaved;
    final, ok, ran := store, true, 0;
    for k := 0 to |apps|
      invariant ok && ran == k && final == StoreBefore(apps, consume, store, k)
      invariant SucceedsUpTo(apps, consume, store, k)
    {
      final, ok := RunApp(apps[k], consume, final);
      ran := k + 1;
      if !ok {
        return;
      }
    }
  }

  /** One app on its own. */
  method RunApp<V(!new)>(app: Program<V>, consume: bool, store: Store<V>) returns (final: Store<V>, ok: bool)
    requires WellBehaved(app)
    ensures final == Outcome(app, consume, store).1
    ensures ok <==> Succeeds(app, consume, store)
  {
    final, ok := RunGroupInParallel([app], consume, store);
    AloneInGroup(app, consume, store);
  }

  lemma AloneInGroup<V(!new)>(app: Program<V>, consume: bool, store: Store<V>)
    requires WellBehaved(app)
    ensures AllWellBehaved([app])
    ensures Sequential([app], consume, store) == Outcome(app, consume, store).1
    ensures GroupSucceeds([app], consume, store) <==> Succeeds(app, consume, store)
  {
    hide Outcome, Succeeds, WellBehaved;
    var group, next := [app], Outcome(app, consume, store).1;
    assert Sequential<V>([], consume, next) == next;
    assert group[1..] == [] && group[0] == app;
    assert Sequential(group, consume, store) == Sequential(group[1..], consume, next);
  }

  /** A run of the apps in order is the first app on the store, and, if it succeeds, the others
      in order on the store it leaves. */
  lemma FirstThenRest<V(!new)>(apps: seq<Program<V>>, consume: bool, store: Store<V>, ran: nat, final: Store<V>,
      ok: bool)
    requires AllWellBehaved(apps) && RanInOrder(apps, consume, store, ran, final, ok)
    ensures apps == [] ==> final == store && ok
    ensures apps != [] ==> AllWellBehaved(apps[1..])
    ensures apps != [] && !Succeeds(apps[0], consume, store) ==> final == Outcome(apps[0], consume, store).1 && !ok
    ensures apps != [] && Succeeds(apps[0], consume, store) ==>
      ran > 0 && RanInOrder(apps[1..], consume, Outcome(apps[0], consume, store).1, ran - 1, final, ok)
  {
    hide Outcome, Succeeds, WellBehaved;
    if apps != [] {
      var rest, next := apps[1..], Outcome(apps[0], consume, store).1;
      assert StoreBefore(apps, consume, store, 0) == store && StoreBefore(apps, consume, store, 1) == next;
      forall k: nat | k <= |rest|
        ensures StoreBefore(apps, consume, store, k + 1) == StoreBefore(rest, consume, next, k)
      {
        StoreBeforeRest(apps, consume, store, k);
      }
      if Succeeds(apps[0], consume, store) {
        SuccessOfRest(apps, consume, store, if ok then ran else ran - 1);
      }
    }
  }

  lemma SuccessOfRest<V(!new)>(apps: seq<Program<V>>, consume: bool, store: Store<V>, k: nat)
    requires AllWellBehaved(apps) && 0 < k <= |apps| && SucceedsUpTo(apps, consume, store, k)
    ensures AllWellBehaved(apps[1..])
    ensures SucceedsUpTo(apps[1..], consume, Outcome(apps[0], consume, store).1, k - 1)
  {
    hide Outcome, Succeeds, WellBehaved, StoreBefore;
    var rest, next := apps[1..], Outcome(apps[0], consume, store).1;
    forall i | 0 <= i < k - 1
      ensures Succeeds(rest[i], consume, StoreBefore(rest, consume, next, i))
    {
      StoreBeforeRest(apps, consume, store, i);
      assert Succeeds(apps[i + 1], consume, StoreBefore(apps, consume, store, i + 1));
    }
  }

  lemma {:induction false} StoreBeforeRest<V(!new)>(apps: seq<Program<V>>, consume: bool, store: Store<V>, k: nat)
    requires AllWellBehaved(apps) && k < |apps|
    ensures AllWellBehaved(apps[1..])
    ensures StoreBefore(apps, consume, store, k + 1)
         == StoreBefore(apps[1..], consume, Outcome(apps[0], consume, store).1, k)
  {
    hide Outcome, WellBehaved;
    if k > 0 {
      StoreBeforeRest(apps, consume, store, k - 1);
    } else {
      assert StoreBefore(apps, consume, store, 0) == store;
    }
  }

  /** A workflow runs its groups, or, if it has none, its apps one after the other. */
  method Run<V(!new)>(apps: seq<Program<V>>, groups: seq<seq<Program<V>>>, consume: bool, store: Store<V>)
      returns (final: Store<V>, ok: bool, ran: nat)
    requires AllWellBehaved(apps)
    requires forall k :: 0 <= k < |groups| ==> AllWellBehaved(groups[k])
    requires forall k :: 0 <= k < |groups| ==> Independent(groups[k])
    ensures groups != [] ==> (final, ok) == RunAll(groups, consume, store)
    ensures groups == [] ==> RanInOrder(apps, consume, store, ran, final, ok)
  {
    hide AllWellBehaved, RanInOrder;
    ran := 0;
    if groups == [] {
      final, ok, ran := RunAsSequence(apps, consume, store);
    } else {
      final, ok := RunGroups(groups, consume, store);
    }
  }
}
