/** The parallel sort as a workflow: groups of sorters, splitters, mergers and a checker that
    exchange their data through named slots, in any interleaving within a group. */
module SortWorkflow {
  import opened Sequences
  import opened Splitting
  import opened LinearMerge
  import opened SortStages
  import opened SorterInput
  import opened Isolation
  import opened Runner
  import opened SlotNames
  import opened SlotPrograms
  import opened Options

  /** What a slot holds: the text of an input part, or an array of numbers. */
  datatype Value = Text(text: string) | Vec(elems: seq<int>)

  datatype Config = Config(sorterNum: nat, mergerNum: nat)

  datatype App = Sorter(id: nat) | Splitter(id: nat) | Merger(id: nat) | Checker

  /** The slots an app may access. */
  ghost predicate Owns(app: App, s: Slot) {
    match app
    case Sorter(i) => s == InputPart(i) || s == SorterResp(i) || (i == 0 && s.PivotsFor?)
    case Splitter(i) => s == SorterResp(i) || s == PivotsFor(i) || (s.SplitPart? && s.i == i)
    case Merger(j) => s == MergeResult(j) || (s.SplitPart? && s.j == j)
    case Checker => s.MergeResult?
  }

  ghost function Footprint(app: App): iset<string> {
    iset s: Slot | Owns(app, s) :: Name(s)
  }

  // ---------- the apps ----------

  ghost function SorterOutput(c: Config, i: nat, got: seq<Value>): Output<Value> {
    if got == [] || !got[0].Text? then Output([], false)
    else
      var fields := FieldsOf(got[0].text);
      var numbers := Numbers(fields);
      var sorted := (Name(SorterResp(i)), Vec(SortOf(numbers)));
      if !WellFormed(fields) then Output([(Name(SorterResp(i)), Vec(numbers))], false)
      else if i != 0 then Output([sorted], true)
      else match Pivots(SortOf(numbers), c.mergerNum)
        case None => Output([sorted], false)
        case Some(p) =>
          Output([sorted] + seq(c.sorterNum, k requires 0 <= k < c.sorterNum => (Name(PivotsFor(k)), Vec(p))), true)
  }

  ghost function SplitterOutput(i: nat, got: seq<Value>): Output<Value> {
    if |got| < 2 || !got[0].Vec? || !got[1].Vec? then Output([], false)
    else
      var parts := Split(got[0].elems, got[1].elems);
      Output(seq(|parts|, k requires 0 <= k < |parts| => (Name(SplitPart(i, k)), Vec(parts[k]))), true)
  }

  ghost predicate AllVec(got: seq<Value>) {
    forall k :: 0 <= k < |got| ==> got[k].Vec?
  }

  ghost function Arrays(got: seq<Value>): seq<seq<int>>
    requires AllVec(got)
  {
    seq(|got|, k requires 0 <= k < |got| => got[k].elems)
  }

  /** The merge of sorted partitions, as `MergePartitions` computes it; partitions that are
      not sorted count as a failure here, and `SortRun` shows that they never occur. */
  ghost function MergerOutput(j: nat, got: seq<Value>): Output<Value> {
    if !AllVec(got) || !AllSorted(Arrays(got)) then Output([], false)
    else Output([(Name(MergeResult(j)), Vec(SortOf(BelowMax(Concat(Arrays(got))))))], true)
  }

  ghost function Compute(c: Config, app: App, got: seq<Value>): Output<Value> {
    match app
    case Sorter(i) => SorterOutput(c, i, got)
    case Splitter(i) => SplitterOutput(i, got)
    case Merger(j) => MergerOutput(j, got)
    case Checker => Output([], true)
  }

  ghost function Needs(c: Config, app: App): seq<string> {
    match app
    case Sorter(i) => [Name(InputPart(i))]
    case Splitter(i) => [Name(SorterResp(i)), Name(PivotsFor(i))]
    case Merger(j) => seq(c.sorterNum, i requires 0 <= i < c.sorterNum => Name(SplitPart(i, j)))
    case Checker => []
  }

  /** The checker stops at the first part that violates its test. */
  ghost predicate Passes(got: seq<Value>) {
    AllVec(got) && AllSorted(Arrays(got)) && FirstsOrdered(Arrays(got))
  }

  ghost function CheckerProgram(c: Config): Program<Value> {
    Program(
      (got: seq<Value>, wrote: nat) =>
        if !Passes(got) then Stop(false)
        else if |got| < c.mergerNum then Read(Name(MergeResult(|got|)))
        else Stop(true),
      Footprint(Checker), c.mergerNum, got => 0)
  }

  ghost function ProgramOf(c: Config, app: App): Program<Value> {
    if app.Checker? then CheckerProgram(c)
    else ReadsThenWrites(Needs(c, app), got => Compute(c, app, got), Vec([]), Footprint(app))
  }

  // ---------- the footprints are sound and disjoint ----------

  lemma InFootprint(app: App, s: Slot)
    ensures Name(s) in Footprint(app) <==> Owns(app, s)
  {
    if Name(s) in Footprint(app) {
      var t: Slot :| Owns(app, t) && Name(t) == Name(s);
      NameInjective(s, t);
    }
  }

  lemma AppWithin(c: Config, app: App)
    ensures Within(Needs(c, app), got => Compute(c, app, got), Footprint(app))
  {
    hide Name, SortOf, Numbers, Pivots, WellFormed, FieldsOf, Split, BelowMax, Concat, AllSorted;
    forall k | 0 <= k < |Needs(c, app)|
      ensures Needs(c, app)[k] in Footprint(app)
    {
    }
    forall got: seq<Value>, k | 0 <= k < |Compute(c, app, got).writes|
      ensures Compute(c, app, got).writes[k].0 in Footprint(app)
    {
    }
  }

  lemma AppWellBehaved(c: Config, app: App)
    ensures WellBehaved(ProgramOf(c, app))
  {
    if app.Checker? {
      var p := CheckerProgram(c);
      forall got: seq<Value>, wrote: nat
        ensures match p.next(got, wrote)
          case Read(s) => s in p.footprint && |got| < p.maxReads
          case Write(_, _) => false
          case Stop(_) => true
      {
        InFootprint(Checker, MergeResult(|got|));
      }
    } else {
      AppWithin(c, app);
      ProgramWellBehaved(Needs(c, app), got => Compute(c, app, got), Vec([]), Footprint(app));
    }
  }

  lemma AppsDisjoint(a: App, b: App)
    requires forall s :: !(Owns(a, s) && Owns(b, s))
    ensures Footprint(a) !! Footprint(b)
  {
    forall x | x in Footprint(a) && x in Footprint(b)
      ensures false
    {
      var s: Slot :| Owns(a, s) && Name(s) == x;
      InFootprint(b, s);
    }
  }

  // ---------- the groups ----------

  ghost function Sorters(c: Config): seq<Program<Value>> {
    seq(c.sorterNum, i requires 0 <= i < c.sorterNum => ProgramOf(c, Sorter(i)))
  }

  ghost function Splitters(c: Config): seq<Program<Value>> {
    seq(c.sorterNum, i requires 0 <= i < c.sorterNum => ProgramOf(c, Splitter(i)))
  }

  ghost function Mergers(c: Config): seq<Program<Value>> {
    seq(c.mergerNum, j requires 0 <= j < c.mergerNum => ProgramOf(c, Merger(j)))
  }

  ghost function Checkers(c: Config): seq<Program<Value>> {
    [ProgramOf(c, Checker)]
  }

  /** In every group each slot belongs to one app, so the confluence theorem applies. */
  lemma GroupsAdmissible(c: Config)
    ensures Admissible(Sorters(c)) && Admissible(Splitters(c)) && Admissible(Mergers(c)) && Admissible(Checkers(c))
  {
    forall i | 0 <= i < c.sorterNum
      ensures WellBehaved(Sorters(c)[i]) && WellBehaved(Splitters(c)[i])
    {
      AppWellBehaved(c, Sorter(i));
      AppWellBehaved(c, Splitter(i));
    }
    forall j | 0 <= j < c.mergerNum
      ensures WellBehaved(Mergers(c)[j])
    {
      AppWellBehaved(c, Merger(j));
    }
    AppWellBehaved(c, Checker);
    forall i, j | 0 <= i < j < c.sorterNum
      ensures Sorters(c)[i].footprint !! Sorters(c)[j].footprint &&
        Splitters(c)[i].footprint !! Splitters(c)[j].footprint
    {
      AppsDisjoint(Sorter(i), Sorter(j));
      AppsDisjoint(Splitter(i), Splitter(j));
    }
    forall i, j | 0 <= i < j < c.mergerNum
      ensures Mergers(c)[i].footprint !! Mergers(c)[j].footprint
    {
      AppsDisjoint(Merger(i), Merger(j));
    }
  }

  // ---------- what the slots hold ----------

  ghost predicate Holds(store: Store<Value>, s: Slot, elems: seq<int>) {
    Name(s) in store && store[Name(s)] == Vec(elems)
  }

  /** What an app put into a slot of its own is there when its group is over. */
  lemma HoldsAfterGroup(c: Config, app: App, group: seq<Program<Value>>, k: nat, consume: bool, store: Store<Value>,
      s: Slot)
    requires Admissible(group) && k < |group| && group[k] == ProgramOf(c, app)
    requires Owns(app, s)
    ensures SameAt(Sequential(group, consume, store), Outcome(group[k], consume, store).1, Name(s))
  {
    SequentialIsLocal(group, consume, store);
    InFootprint(app, s);
    assert SameOn(Sequential(group, consume, store), Outcome(group[k], consume, store).1, group[k].footprint);
  }

  /** The slot holds a text with these fields. */
  ghost predicate HoldsText(store: Store<Value>, s: Slot, fields: seq<Field>) {
    Name(s) in store && store[Name(s)].Text? && FieldsOf(store[Name(s)].text) == fields
  }

  ghost predicate Initial(inputs: seq<seq<Field>>, store: Store<Value>) {
    && (forall i :: 0 <= i < |inputs| ==> HoldsText(store, InputPart(i), inputs[i]))
    && (forall i: nat, k: nat :: Name(SplitPart(i, k)) !in store)
  }

  // ---------- the sorters ----------

  predicate SorterOk(c: Config, inputs: seq<seq<Field>>, i: nat)
    requires i < |inputs|
  {
    WellFormed(inputs[i]) && (i == 0 ==> Pivots(SortOf(Numbers(inputs[0])), c.mergerNum).Some?)
  }

  lemma SorterWritesDistinct(c: Config, i: nat, got: seq<Value>)
    ensures DistinctSlots(SorterOutput(c, i, got).writes)
  {
    hide Name, SortOf, Numbers, Pivots, FieldsOf;
    var w := SorterOutput(c, i, got).writes;
    forall a, b | 0 <= a < b < |w|
      ensures w[a].0 != w[b].0
    {
      if a == 0 {
        if Name(SorterResp(i)) == Name(PivotsFor(b - 1)) {
          NameInjective(SorterResp(i), PivotsFor(b - 1));
        }
      } else if Name(PivotsFor(a - 1)) == Name(PivotsFor(b - 1)) {
        NameInjective(PivotsFor(a - 1), PivotsFor(b - 1));
      }
    }
  }

  /** What a sorter leaves in its slot: the sorted numbers, or, if a field is malformed, the
      numbers before it, as they came. */
  function SorterLeaves(fields: seq<Field>): seq<int> {
    if WellFormed(fields) then SortOf(Numbers(fields)) else Numbers(fields)
  }

  /** What sorter `i` writes. */
  lemma SorterComputes(c: Config, inputs: seq<seq<Field>>, i: nat, text: string)
    requires i < |inputs| && FieldsOf(text) == inputs[i]
    ensures var o := SorterOutput(c, i, [Text(text)]);
      && (o.ok <==> SorterOk(c, inputs, i))
      && o.writes != [] && o.writes[0] == (Name(SorterResp(i)), Vec(SorterLeaves(inputs[i])))
      && (o.ok && i == 0 ==>
            && |o.writes| == c.sorterNum + 1
            && forall k :: 0 <= k < c.sorterNum ==>
                 o.writes[k + 1] == (Name(PivotsFor(k)), Vec(FirstPivots(c, inputs))))
  {
    hide Name, SortOf, Numbers, WellFormed, Pivots, FieldsOf;
  }

  /** The pivots that sorter 0 chooses. */
  ghost function FirstPivots(c: Config, inputs: seq<seq<Field>>): seq<int>
    requires inputs != [] && Pivots(SortOf(Numbers(inputs[0])), c.mergerNum).Some?
  {
    Pivots(SortOf(Numbers(inputs[0])), c.mergerNum).value
  }

  /** An app whose slots are all there fills the slots it computes. */
  lemma AppOutcome(c: Config, app: App, consume: bool, store: Store<Value>, got: seq<Value>)
    requires !app.Checker? && NoDuplicates(Needs(c, app))
    requires Present(store, Needs(c, app)) && Values(store, Needs(c, app)) == got
    ensures WellBehaved(ProgramOf(c, app))
    ensures Succeeds(ProgramOf(c, app), consume, store) <==> Compute(c, app, got).ok
    ensures var w := Compute(c, app, got).writes;
      Outcome(ProgramOf(c, app), consume, store).1 == PutAll(AfterReads(store, Needs(c, app), consume), w)
  {
    hide Needs, Compute, Footprint, Outcome, Succeeds, PutAll, AfterReads;
    AppWithin(c, app);
    OutcomeWhenPresent(Needs(c, app), got => Compute(c, app, got), Vec([]), Footprint(app), consume, store);
  }

  lemma SorterReads(c: Config, inputs: seq<seq<Field>>, store: Store<Value>, i: nat) returns (text: string)
    requires Initial(inputs, store) && i < |inputs|
    ensures FieldsOf(text) == inputs[i]
    ensures var needs := Needs(c, Sorter(i));
      NoDuplicates(needs) && Present(store, needs) && Values(store, needs) == [Text(text)]
  {
    hide Name, FieldsOf;
    assert HoldsText(store, InputPart(i), inputs[i]);
    text := store[Name(InputPart(i))].text;
  }

  lemma SorterOutcome(c: Config, inputs: seq<seq<Field>>, consume: bool, store: Store<Value>, i: nat)
    requires Initial(inputs, store) && i < |inputs|
    ensures WellBehaved(ProgramOf(c, Sorter(i)))
    ensures Succeeds(ProgramOf(c, Sorter(i)), consume, store) <==> SorterOk(c, inputs, i)
    ensures Holds(Outcome(ProgramOf(c, Sorter(i)), consume, store).1, SorterResp(i), SorterLeaves(inputs[i]))
    ensures SorterOk(c, inputs, i) ==> SorterLeaves(inputs[i]) == SortOf(Numbers(inputs[i]))
    ensures i == 0 && SorterOk(c, inputs, 0) ==>
      forall k :: 0 <= k < c.sorterNum ==>
        Holds(Outcome(ProgramOf(c, Sorter(0)), consume, store).1, PivotsFor(k), FirstPivots(c, inputs))
  {
    hide FieldsOf, Name, SorterOutput, SortOf, Numbers, FirstPivots, Outcome, Succeeds, ProgramOf, WellBehaved,
      PutFirst, AfterReads, Initial;
    var text := SorterReads(c, inputs, store, i);
    var got := [Text(text)];
    AppOutcome(c, Sorter(i), consume, store, got);
    SorterComputes(c, inputs, i, text);
    var after, w := AfterReads(store, Needs(c, Sorter(i)), consume), SorterOutput(c, i, got).writes;
    SorterWritesDistinct(c, i, got);
    PutFirstAt(after, w, |w|, 0);
    if i == 0 && SorterOk(c, inputs, i) {
      forall k | 0 <= k < c.sorterNum
        ensures Holds(PutAll(after, w), PivotsFor(k), FirstPivots(c, inputs))
      {
        PutFirstAt(after, w, |w|, k + 1);
      }
    }
  }

  /** The store between the sorters and the splitters. */
  ghost predicate AfterSorters(c: Config, inputs: seq<seq<Field>>, pivots: seq<int>, store: Store<Value>) {
    && (forall i :: 0 <= i < |inputs| ==> Holds(store, SorterResp(i), SortOf(Numbers(inputs[i]))))
    && (forall i :: 0 <= i < |inputs| ==> Holds(store, PivotsFor(i), pivots))
    && (forall i: nat, k: nat :: Name(SplitPart(i, k)) !in store)
  }

  lemma SortersOk(c: Config, inputs: seq<seq<Field>>)
    requires inputs != []
    ensures (forall i :: 0 <= i < |inputs| ==> SorterOk(c, inputs, i))
       <==> AllWellFormed(inputs) && Pivots(SortOf(Numbers(inputs[0])), c.mergerNum).Some?
  {
    if forall i :: 0 <= i < |inputs| ==> SorterOk(c, inputs, i) {
      assert SorterOk(c, inputs, 0);
      forall i | 0 <= i < |inputs|
        ensures WellFormed(inputs[i])
      {
        assert SorterOk(c, inputs, i);
      }
    }
  }

  lemma SortersRun(c: Config, inputs: seq<seq<Field>>, consume: bool, store: Store<Value>)
    requires Initial(inputs, store) && |inputs| == c.sorterNum > 0
    ensures AllWellBehaved(Sorters(c))
    ensures GroupSucceeds(Sorters(c), consume, store)
       <==> AllWellFormed(inputs) && Pivots(SortOf(Numbers(inputs[0])), c.mergerNum).Some?
    ensures GroupSucceeds(Sorters(c), consume, store) ==>
      AfterSorters(c, inputs, FirstPivots(c, inputs), Sequential(Sorters(c), consume, store))
  {
    hide SorterOk, AllWellFormed, Pivots, SortOf, Numbers, WellBehaved, Succeeds, ProgramOf, Initial, AfterSorters,
      Sequential, Independent, FirstPivots;
    GroupsAdmissible(c);
    var group := Sorters(c);
    forall i | 0 <= i < |inputs|
      ensures Succeeds(group[i], consume, store) <==> SorterOk(c, inputs, i)
    {
      SorterOutcome(c, inputs, consume, store, i);
    }
    SortersOk(c, inputs);
    if GroupSucceeds(group, consume, store) {
      SortersLeave(c, inputs, consume, store);
    }
  }

  lemma SortersLeave(c: Config, inputs: seq<seq<Field>>, consume: bool, store: Store<Value>)
    requires Initial(inputs, store) && |inputs| == c.sorterNum > 0 && Admissible(Sorters(c))
    requires forall i :: 0 <= i < |inputs| ==> SorterOk(c, inputs, i)
    requires Pivots(SortOf(Numbers(inputs[0])), c.mergerNum).Some?
    ensures AfterSorters(c, inputs, FirstPivots(c, inputs), Sequential(Sorters(c), consume, store))
  {
    hide SorterOk, Pivots, SortOf, Numbers, WellBehaved, Succeeds, ProgramOf, Sequential, Outcome, Name, Independent,
      Owns, FirstPivots;
    var group, final := Sorters(c), Sequential(Sorters(c), consume, store);
    forall i | 0 <= i < |inputs|
      ensures Holds(final, SorterResp(i), SortOf(Numbers(inputs[i])))
    {
      assert SorterOk(c, inputs, i);
      SorterOutcome(c, inputs, consume, store, i);
      OwnsSorter(i);
      HoldsAfterGroup(c, Sorter(i), group, i, consume, store, SorterResp(i));
    }
    assert SorterOk(c, inputs, 0);
    SorterOutcome(c, inputs, consume, store, 0);
    forall k | 0 <= k < |inputs|
      ensures Holds(final, PivotsFor(k), FirstPivots(c, inputs))
    {
      OwnsPivots(k);
      HoldsAfterGroup(c, Sorter(0), group, 0, consume, store, PivotsFor(k));
    }
    SortersLeaveParts(c, consume, store);
    forall i: nat, k: nat
      ensures Name(SplitPart(i, k)) !in final
    {
      assert SameAt(final, store, Name(SplitPart(i, k)));
    }
  }

  lemma OwnsSorter(i: nat)
    ensures Owns(Sorter(i), SorterResp(i))
  {
  }

  lemma OwnsPivots(k: nat)
    ensures Owns(Sorter(0), PivotsFor(k))
  {
  }

  /** The sorters do not touch the slots of the splitters' parts. */
  lemma SortersLeaveParts(c: Config, consume: bool, store: Store<Value>)
    requires Admissible(Sorters(c))
    ensures forall i: nat, k: nat :: SameAt(Sequential(Sorters(c), consume, store), store, Name(SplitPart(i, k)))
  {
    hide Sequential, Name, WellBehaved, Footprint;
    var group := Sorters(c);
    SequentialIsLocal(group, consume, store);
    forall i: nat, k: nat
      ensures SameAt(Sequential(group, consume, store), store, Name(SplitPart(i, k)))
    {
      forall n | 0 <= n < |group| ensures Name(SplitPart(i, k)) !in group[n].footprint {
        InFootprint(Sorter(n), SplitPart(i, k));
      }
      assert OwnedByNone(group, Name(SplitPart(i, k)));
    }
  }

  // ---------- the splitters ----------

  ghost function PartsOf(inputs: seq<seq<Field>>, pivots: seq<int>, i: nat): seq<seq<int>>
    requires i < |inputs|
  {
    Split(SortOf(Numbers(inputs[i])), pivots)
  }

  lemma SplitterWrites(i: nat, got: seq<Value>)
    ensures DistinctSlots(SplitterOutput(i, got).writes)
  {
    var w := SplitterOutput(i, got).writes;
    forall a, b | 0 <= a < b < |w|
      ensures w[a].0 != w[b].0
    {
      if Name(SplitPart(i, a)) == Name(SplitPart(i, b)) {
        NameInjective(SplitPart(i, a), SplitPart(i, b));
      }
    }
  }

  lemma SplitterOutcome(c: Config, inputs: seq<seq<Field>>, pivots: seq<int>, consume: bool, store: Store<Value>,
      i: nat, k: nat)
    requires AfterSorters(c, inputs, pivots, store) && i < |inputs|
    ensures WellBehaved(ProgramOf(c, Splitter(i))) && Succeeds(ProgramOf(c, Splitter(i)), consume, store)
    ensures var parts, after := PartsOf(inputs, pivots, i), Outcome(ProgramOf(c, Splitter(i)), consume, store).1;
      if k < |parts| then Holds(after, SplitPart(i, k), parts[k]) else Name(SplitPart(i, k)) !in after
  {
    var app, needs := Splitter(i), Needs(c, Splitter(i));
    var got := [Vec(SortOf(Numbers(inputs[i]))), Vec(pivots)];
    AppWithin(c, app);
    assert NoDuplicates(needs) by {
      if Name(SorterResp(i)) == Name(PivotsFor(i)) {
        NameInjective(SorterResp(i), PivotsFor(i));
      }
    }
    assert Holds(store, SorterResp(i), SortOf(Numbers(inputs[i]))) && Holds(store, PivotsFor(i), pivots);
    OutcomeWhenPresent(needs, got => Compute(c, app, got), Vec([]), Footprint(app), consume, store);
    assert Values(store, needs) == got;
    var after, w := AfterReads(store, needs, consume), SplitterOutput(i, got).writes;
    SplitterWrites(i, got);
    if k < |w| {
      PutFirstAt(after, w, |w|, k);
    } else {
      forall n | 0 <= n < |w|
        ensures w[n].0 != Name(SplitPart(i, k))
      {
        if Name(SplitPart(i, n)) == Name(SplitPart(i, k)) {
          NameInjective(SplitPart(i, n), SplitPart(i, k));
        }
      }
      PutFirstKeeps(after, w, |w|, Name(SplitPart(i, k)));
    }
  }

  /** The store between the splitters and the mergers: all the parts, and no others. */
  ghost predicate AfterSplitters(inputs: seq<seq<Field>>, pivots: seq<int>, store: Store<Value>) {
    forall i, k {:trigger Name(SplitPart(i, k))} :: 0 <= i < |inputs| && 0 <= k ==>
      var parts := PartsOf(inputs, pivots, i);
      if k < |parts| then Holds(store, SplitPart(i, k), parts[k]) else Name(SplitPart(i, k)) !in store
  }

  lemma SplittersRun(c: Config, inputs: seq<seq<Field>>, pivots: seq<int>, consume: bool, store: Store<Value>)
    requires AfterSorters(c, inputs, pivots, store) && |inputs| == c.sorterNum
    ensures AllWellBehaved(Splitters(c))
    ensures GroupSucceeds(Splitters(c), consume, store)
    ensures AfterSplitters(inputs, pivots, Sequential(Splitters(c), consume, store))
  {
    GroupsAdmissible(c);
    var group, final := Splitters(c), Sequential(Splitters(c), consume, store);
    forall i | 0 <= i < |group|
      ensures Succeeds(group[i], consume, store)
    {
      SplitterOutcome(c, inputs, pivots, consume, store, i, 0);
    }
    forall i, k | 0 <= i < |inputs| && 0 <= k
      ensures var parts := PartsOf(inputs, pivots, i);
        if k < |parts| then Holds(final, SplitPart(i, k), parts[k]) else Name(SplitPart(i, k)) !in final
    {
      SplitterOutcome(c, inputs, pivots, consume, store, i, k);
      HoldsAfterGroup(c, Splitter(i), group, i, consume, store, SplitPart(i, k));
    }
  }

  // ---------- the mergers ----------

  ghost function NumbersOf(inputs: seq<seq<Field>>): seq<seq<int>> {
    seq(|inputs|, i requires 0 <= i < |inputs| => Numbers(inputs[i]))
  }

  /** Every splitter has made part `j`. */
  ghost predicate HasPart(inputs: seq<seq<Field>>, pivots: seq<int>, j: nat) {
    forall i :: 0 <= i < |inputs| ==> j < |PartsOf(inputs, pivots, i)|
  }

  lemma MergerNeeds(c: Config, j: nat)
    ensures NoDuplicates(Needs(c, Merger(j)))
  {
    forall a, b | 0 <= a < b < c.sorterNum
      ensures Name(SplitPart(a, j)) != Name(SplitPart(b, j))
    {
      if Name(SplitPart(a, j)) == Name(SplitPart(b, j)) {
        NameInjective(SplitPart(a, j), SplitPart(b, j));
      }
    }
  }

  lemma PartsAreColumn(inputs: seq<seq<Field>>, pivots: seq<int>, j: nat, got: seq<Value>)
    requires HasPart(inputs, pivots, j) && |got| == |inputs|
    requires forall i :: 0 <= i < |inputs| ==> got[i] == Vec(PartsOf(inputs, pivots, i)[j])
    ensures AllVec(got) && AllSorted(Arrays(got))
    ensures Arrays(got) == Column(NumbersOf(inputs), pivots, j)
  {
    forall i | 0 <= i < |inputs|
      ensures got[i].Vec? && Sorted(got[i].elems)
      ensures got[i].elems == InBucket(SortOf(Numbers(inputs[i])), pivots, j)
    {
      var numbers := SortOf(Numbers(inputs[i]));
      SplitIsBuckets(numbers, pivots, j);
      SplitConcat(numbers, pivots);
      CheckerComplete(Split(numbers, pivots));
    }
  }

  lemma MergerOutcome(c: Config, inputs: seq<seq<Field>>, pivots: seq<int>, consume: bool, store: Store<Value>, j: nat)
    requires AfterSplitters(inputs, pivots, store) && |inputs| == c.sorterNum
    ensures WellBehaved(ProgramOf(c, Merger(j)))
    ensures Succeeds(ProgramOf(c, Merger(j)), consume, store) <==> HasPart(inputs, pivots, j)
    ensures HasPart(inputs, pivots, j) ==>
      Holds(Outcome(ProgramOf(c, Merger(j)), consume, store).1, MergeResult(j),
        MergedPart(NumbersOf(inputs), pivots, j))
  {
    var app, needs := Merger(j), Needs(c, Merger(j));
    AppWithin(c, app);
    MergerNeeds(c, j);
    if HasPart(inputs, pivots, j) {
      assert Present(store, needs) by {
        forall i | 0 <= i < |needs|
          ensures needs[i] in store
        {
          assert Holds(store, SplitPart(i, j), PartsOf(inputs, pivots, i)[j]);
        }
      }
      OutcomeWhenPresent(needs, got => Compute(c, app, got), Vec([]), Footprint(app), consume, store);
      var got := Values(store, needs);
      PartsAreColumn(inputs, pivots, j, got);
      PutFirstAt(AfterReads(store, needs, consume), MergerOutput(j, got).writes, 1, 0);
    } else {
      var i :| 0 <= i < |inputs| && j >= |PartsOf(inputs, pivots, i)|;
      assert needs[i] == Name(SplitPart(i, j));
      OutcomeWhenMissing(needs, got => Compute(c, app, got), Vec([]), Footprint(app), consume, store);
    }
  }

  ghost predicate AfterMergers(c: Config, results: seq<seq<int>>, store: Store<Value>) {
    |results| == c.mergerNum && forall j :: 0 <= j < |results| ==> Holds(store, MergeResult(j), results[j])
  }

  lemma MergersRun(c: Config, inputs: seq<seq<Field>>, pivots: seq<int>, consume: bool, store: Store<Value>)
    requires AfterSplitters(inputs, pivots, store) && |inputs| == c.sorterNum
    ensures AllWellBehaved(Mergers(c))
    ensures GroupSucceeds(Mergers(c), consume, store)
       <==> forall j :: 0 <= j < c.mergerNum ==> HasPart(inputs, pivots, j)
    ensures GroupSucceeds(Mergers(c), consume, store) ==>
      AfterMergers(c, MergedParts(NumbersOf(inputs), pivots, c.mergerNum), Sequential(Mergers(c), consume, store))
  {
    hide WellBehaved, Succeeds, ProgramOf, Sequential, Independent, Outcome, Name, HasPart, MergedPart,
      AfterSplitters, NumbersOf;
    GroupsAdmissible(c);
    var group, final := Mergers(c), Sequential(Mergers(c), consume, store);
    forall j | 0 <= j < c.mergerNum
      ensures Succeeds(group[j], consume, store) <==> HasPart(inputs, pivots, j)
      ensures HasPart(inputs, pivots, j) ==> Holds(final, MergeResult(j), MergedPart(NumbersOf(inputs), pivots, j))
    {
      MergerOutcome(c, inputs, pivots, consume, store, j);
      HoldsAfterGroup(c, Merger(j), group, j, consume, store, MergeResult(j));
    }
  }

  // ---------- the checker ----------

  ghost function Vecs(results: seq<seq<int>>, n: nat): seq<Value>
    requires n <= |results|
  {
    seq(n, k requires 0 <= k < n => Vec(results[k]))
  }

  /** The checker passes all the results exactly when its test holds of them. */
  lemma PassesAll(results: seq<seq<int>>)
    ensures Passes(Vecs(results, |results|)) <==> AllSorted(results) && FirstsOrdered(results)
  {
    hide Sorted;
    assert Arrays(Vecs(results, |results|)) == results;
  }

  /** The checker has read the first `n` results, and the others are still there. */
  ghost predicate HasRead(c: Config, results: seq<seq<int>>, consume: bool, store: Store<Value>, n: nat)
    requires n <= |results|
  {
    var (t, s) := Alone(CheckerProgram(c), consume, store, n);
    && t == Thread(Vecs(results, n), 0, None)
    && forall k :: n <= k < |results| ==> Holds(s, MergeResult(k), results[k])
  }

  /** The checker reads on as long as what it has read passes. */
  lemma {:induction false} CheckerReads(c: Config, results: seq<seq<int>>, consume: bool, store: Store<Value>, n: nat)
    requires AfterMergers(c, results, store) && n <= |results|
    requires forall m :: 0 <= m < n ==> Passes(Vecs(results, m))
    ensures HasRead(c, results, consume, store, n)
  {
    if n == 0 {
      assert Vecs(results, 0) == [];
    } else {
      CheckerReads(c, results, consume, store, n - 1);
      CheckerReadsNext(c, results, consume, store, n);
    }
  }

  lemma CheckerReadsNext(c: Config, results: seq<seq<int>>, consume: bool, store: Store<Value>, n: nat)
    requires |results| == c.mergerNum && 0 < n <= |results|
    requires Passes(Vecs(results, n - 1))
    requires HasRead(c, results, consume, store, n - 1)
    ensures HasRead(c, results, consume, store, n)
  {
    hide Name, Alone, Step, Passes;
    var p, slot := CheckerProgram(c), Name(MergeResult(n - 1));
    var s := Alone(p, consume, store, n - 1).1;
    assert Holds(s, MergeResult(n - 1), results[n - 1]);
    CheckerNext(c, results, n - 1);
    ReadStep(p, consume, store, n - 1, Vecs(results, n - 1), 0, slot);
    assert Vecs(results, n) == Vecs(results, n - 1) + [Vec(results[n - 1])];
    LaterResultsStay(c, results, n, s);
  }

  lemma CheckerNext(c: Config, results: seq<seq<int>>, n: nat)
    requires |results| == c.mergerNum && n <= |results|
    ensures CheckerProgram(c).next(Vecs(results, n), 0) ==
      if !Passes(Vecs(results, n)) then Stop(false)
      else if n < c.mergerNum then Read(Name(MergeResult(n)))
      else Stop(true)
  {
    hide Passes, Name;
  }

  lemma LaterResultsStay(c: Config, results: seq<seq<int>>, n: nat, s: Store<Value>)
    requires 0 < n <= |results|
    requires forall k :: n - 1 <= k < |results| ==> Holds(s, MergeResult(k), results[k])
    ensures forall k :: n <= k < |results| ==> Holds(s - {Name(MergeResult(n - 1))}, MergeResult(k), results[k])
  {
    hide Name;
    forall k | n <= k < |results|
      ensures Holds(s - {Name(MergeResult(n - 1))}, MergeResult(k), results[k])
    {
      assert Holds(s, MergeResult(k), results[k]);
      if Name(MergeResult(k)) == Name(MergeResult(n - 1)) {
        NameInjective(MergeResult(k), MergeResult(n - 1));
      }
    }
  }

  /** If the checker has read `n` results and stops there, that is its outcome. */
  lemma CheckerStops(c: Config, results: seq<seq<int>>, consume: bool, store: Store<Value>, n: nat, ok: bool)
    requires |results| == c.mergerNum && n <= |results| && HasRead(c, results, consume, store, n)
    requires CheckerProgram(c).next(Vecs(results, n), 0) == Stop(ok)
    ensures AllWellBehaved(Checkers(c))
    ensures GroupSucceeds(Checkers(c), consume, store) <==> ok
  {
    hide Alone, Step, WellBehaved, CheckerProgram, Holds, Checkers, GroupSucceeds, AllWellBehaved;
    var p := CheckerProgram(c);
    OneChecker(c, consume, store);
    StopStep(p, consume, store, n, Vecs(results, n), 0, ok);
    EndedIsOutcome(p, consume, store, n + 1);
  }

  lemma OneChecker(c: Config, consume: bool, store: Store<Value>)
    ensures AllWellBehaved(Checkers(c)) && WellBehaved(CheckerProgram(c))
    ensures GroupSucceeds(Checkers(c), consume, store) <==> Succeeds(CheckerProgram(c), consume, store)
  {
    AppWellBehaved(c, Checker);
    hide WellBehaved, CheckerProgram, Succeeds;
    assert Checkers(c)[0] == CheckerProgram(c);
  }

  lemma {:induction false} FirstFailure(results: seq<seq<int>>, n: nat) returns (m: nat)
    requires n <= |results| && !Passes(Vecs(results, n))
    ensures m <= n && !Passes(Vecs(results, m)) && forall k :: 0 <= k < m ==> Passes(Vecs(results, k))
  {
    hide Passes, Vecs;
    m := 0;
    while Passes(Vecs(results, m))
      invariant m <= n
      invariant forall k :: 0 <= k < m ==> Passes(Vecs(results, k))
      decreases n - m
    {
      m := m + 1;
    }
  }

  /** The checker accepts exactly the results that are each sorted and whose first elements do
      not decrease. */
  lemma CheckersRunIff(c: Config, results: seq<seq<int>>, consume: bool, store: Store<Value>)
    requires AfterMergers(c, results, store)
    ensures AllWellBehaved(Checkers(c))
    ensures GroupSucceeds(Checkers(c), consume, store) <==> AllSorted(results) && FirstsOrdered(results)
  {
    var n := |results|;
    if Passes(Vecs(results, n)) {
      PrefixPasses(results);
    } else {
      n := FirstFailure(results, n);
    }
    CheckerReads(c, results, consume, store, n);
    hide HasRead, Passes, Vecs, AllWellBehaved, GroupSucceeds, CheckerProgram, FirstsOrdered, AllSorted;
    CheckerNext(c, results, n);
    PassesAll(results);
    CheckerStops(c, results, consume, store, n, Passes(Vecs(results, n)));
  }

  lemma PrefixPasses(results: seq<seq<int>>)
    requires Passes(Vecs(results, |results|))
    ensures forall m :: 0 <= m < |results| ==> Passes(Vecs(results, m))
  {
    hide Sorted;
    PassesAll(results);
    forall m | 0 <= m < |results|
      ensures Passes(Vecs(results, m))
    {
      var arrays := Arrays(Vecs(results, m));
      assert forall k :: 0 <= k < m ==> arrays[k] == results[k];
    }
  }

  // ---------- the whole workflow ----------

  ghost function SortGroups(c: Config): seq<seq<Program<Value>>> {
    [Sorters(c), Splitters(c), Mergers(c)]
  }

  /** When the workflow runs to the end: all input fields are numbers or blank, sorter 0 has
      numbers to take pivots from if there is more than one merger, and no splitter runs out
      of numbers before the second-to-last pivot. */
  ghost predicate Runnable(c: Config, inputs: seq<seq<Field>>)
    requires inputs != []
  {
    && AllWellFormed(inputs)
    && Pivots(SortOf(Numbers(inputs[0])), c.mergerNum).Some?
    && AllSplit(inputs, Pivots(SortOf(Numbers(inputs[0])), c.mergerNum).value)
  }

  ghost predicate AllWellFormed(inputs: seq<seq<Field>>) {
    forall i :: 0 <= i < |inputs| ==> WellFormed(inputs[i])
  }

  ghost predicate AllSplit(inputs: seq<seq<Field>>, pivots: seq<int>) {
    forall i :: 0 <= i < |inputs| ==> AllParts(SortOf(Numbers(inputs[i])), pivots)
  }

  lemma EnoughParts(c: Config, inputs: seq<seq<Field>>, pivots: seq<int>)
    requires Sorted(pivots) && |pivots| + 1 == c.mergerNum
    ensures (forall j :: 0 <= j < c.mergerNum ==> HasPart(inputs, pivots, j))
       <==> AllSplit(inputs, pivots)
  {
    forall i | 0 <= i < |inputs|
      ensures |PartsOf(inputs, pivots, i)| <= c.mergerNum
      ensures |PartsOf(inputs, pivots, i)| == c.mergerNum <==> AllParts(SortOf(Numbers(inputs[i])), pivots)
    {
      AllPartsIff(SortOf(Numbers(inputs[i])), pivots);
    }
    if forall j :: 0 <= j < c.mergerNum ==> HasPart(inputs, pivots, j) {
      assert HasPart(inputs, pivots, c.mergerNum - 1);
    }
  }

  lemma GroupsWellBehaved(c: Config)
    ensures forall k :: 0 <= k < |SortGroups(c)| ==> AllWellBehaved(SortGroups(c)[k])
    ensures forall k :: 0 <= k < |SortGroups(c)| ==> Independent(SortGroups(c)[k])
    ensures AllWellBehaved(Sorters(c)) && AllWellBehaved(Splitters(c)) && AllWellBehaved(Mergers(c))
  {
    hide AllWellBehaved, Independent;
    GroupsAdmissible(c);
  }

  lemma ThreeGroups(a: seq<Program<Value>>, b: seq<Program<Value>>, d: seq<Program<Value>>, consume: bool,
      store: Store<Value>)
    requires AllWellBehaved(a) && AllWellBehaved(b) && AllWellBehaved(d)
    ensures var s1 := Sequential(a, consume, store);
      var s2 := Sequential(b, consume, s1);
      RunAll([a, b, d], consume, store) ==
        if !GroupSucceeds(a, consume, store) then (s1, false)
        else if !GroupSucceeds(b, consume, s1) then (s2, false)
        else (Sequential(d, consume, s2), GroupSucceeds(d, consume, s2))
  {
    hide Sequential, GroupSucceeds;
    var s1 := Sequential(a, consume, store);
    var s2 := Sequential(b, consume, s1);
    var s3 := Sequential(d, consume, s2);
    assert [a, b, d][1..] == [b, d] && [b, d][1..] == [d];
    assert RunAll([d], consume, s2) == (s3, GroupSucceeds(d, consume, s2)) by {
      assert RunAll<Value>([d][1..], consume, s3) == (s3, true);
    }
    assert RunAll([b, d], consume, s1)
        == if GroupSucceeds(b, consume, s1) then RunAll([d], consume, s2) else (s2, false);
  }

  /** `out` is sorted, and holds every number below `u32::MAX` as often as it stands in a field
      of the inputs, and nothing else. */
  ghost predicate SortsFields(inputs: seq<seq<Field>>, out: seq<int>) {
    && Sorted(out)
    && forall x :: multiset(out)[x] == if 0 <= x < U32_MAX then multiset(Concat(inputs))[Number(x)] else 0
  }

  /** The merge results in `store`, in order, are all input numbers below `u32::MAX`, sorted. */
  ghost predicate SortedResults(c: Config, inputs: seq<seq<Field>>, store: Store<Value>) {
    exists results :: AfterMergers(c, results, store) && SortsFields(inputs, Concat(results))
  }

  lemma {:induction false} FieldCount(inputs: seq<seq<Field>>, x: u32)
    requires AllWellFormed(inputs)
    ensures multiset(Concat(NumbersOf(inputs)))[x] == multiset(Concat(inputs))[Number(x)]
  {
    hide Numbers, Concat;
    if inputs == [] {
      NoInputs(x);
    } else {
      var first, rest := inputs[0], inputs[1..];
      assert inputs == [first] + rest && NumbersOf(inputs) == [Numbers(first)] + NumbersOf(rest);
      ConcatCons(first, rest);
      ConcatCons(Numbers(first), NumbersOf(rest));
      NumbersCount(first, x);
      FieldCount(rest, x);
      hide NumbersOf;
      CountAppend(first, Concat(rest), Concat(inputs), Number(x));
      CountAppend(Numbers(first), Concat(NumbersOf(rest)), Concat(NumbersOf(inputs)), x);
    }
  }

  lemma NoInputs(x: u32)
    ensures NumbersOf([]) == [] && multiset(Concat<Field>([]))[Number(x)] == 0 && multiset(Concat<int>([]))[x] == 0
  {
  }

  lemma SortedNumbersSortFields(inputs: seq<seq<Field>>)
    requires AllWellFormed(inputs)
    ensures SortsFields(inputs, SortOf(BelowMax(Concat(NumbersOf(inputs)))))
  {
    hide SortOf, BelowMax, Concat, Numbers, AllWellFormed;
    var all := Concat(NumbersOf(inputs));
    var out := SortOf(BelowMax(all));
    SortOfSorts(BelowMax(all));
    forall x
      ensures multiset(out)[x] == if 0 <= x < U32_MAX then multiset(Concat(inputs))[Number(x)] else 0
    {
      BelowMaxCount(all, x);
      if 0 <= x < U32_MAX {
        FieldCount(inputs, x);
      } else if x in multiset(all) {
        var i, p := InSomePart(NumbersOf(inputs), x);
        NumbersAreU32(inputs[i], x);
      }
    }
  }

  lemma SortOfSorts(s: seq<int>)
    ensures Sorted(SortOf(s)) && multiset(SortOf(s)) == multiset(s)
  {
  }

  lemma MergersAndChecker(c: Config, inputs: seq<seq<Field>>, pivots: seq<int>, consume: bool, store: Store<Value>)
    requires AfterSplitters(inputs, pivots, store) && |inputs| == c.sorterNum
    requires Sorted(pivots) && |pivots| + 1 == c.mergerNum && AllWellFormed(inputs)
    ensures AllWellBehaved(Mergers(c)) && AllWellBehaved(Checkers(c))
    ensures GroupSucceeds(Mergers(c), consume, store) <==> AllSplit(inputs, pivots)
    ensures GroupSucceeds(Mergers(c), consume, store) ==>
      && SortedResults(c, inputs, Sequential(Mergers(c), consume, store))
      && GroupSucceeds(Checkers(c), consume, Sequential(Mergers(c), consume, store))
  {
    hide Sequential, GroupSucceeds, AfterSplitters, AfterMergers, Concat, MergedParts, BelowMax, HasPart, AllSplit,
      Sorted, SortsFields, AllWellFormed;
    GroupsAdmissible(c);
    MergersRun(c, inputs, pivots, consume, store);
    EnoughParts(c, inputs, pivots);
    if GroupSucceeds(Mergers(c), consume, store) {
      var results := MergedParts(NumbersOf(inputs), pivots, c.mergerNum);
      PartsAreSortedInputs(NumbersOf(inputs), pivots);
      SortedNumbersSortFields(inputs);
      SortsFieldsSorted(inputs, Concat(results));
      CheckerComplete(results);
      CheckersRunIff(c, results, consume, Sequential(Mergers(c), consume, store));
    }
  }

  /** The workflow of sorters, splitters and mergers ends successfully exactly when it is
      runnable. Then the merge results, in order, are the sorted permutation of all input
      numbers below `u32::MAX`, and the checker accepts them. */
  lemma SortRun(c: Config, inputs: seq<seq<Field>>, consume: bool, store: Store<Value>)
    requires Initial(inputs, store) && |inputs| == c.sorterNum > 0
    ensures forall k :: 0 <= k < |SortGroups(c)| ==> AllWellBehaved(SortGroups(c)[k])
    ensures RunAll(SortGroups(c), consume, store).1 <==> Runnable(c, inputs)
    ensures Runnable(c, inputs) ==>
      && SortedResults(c, inputs, RunAll(SortGroups(c), consume, store).0)
      && AllWellBehaved(Checkers(c))
      && GroupSucceeds(Checkers(c), consume, RunAll(SortGroups(c), consume, store).0)
  {
    hide AllWellBehaved, RunAll, Sequential, GroupSucceeds, AfterSorters, AfterSplitters, SortOf, SortedResults,
      AllSplit, Sorted, AllWellFormed, Pivots, Initial;
    GroupsWellBehaved(c);
    ThreeGroups(Sorters(c), Splitters(c), Mergers(c), consume, store);
    SortersRun(c, inputs, consume, store);
    var s1 := Sequential(Sorters(c), consume, store);
    if GroupSucceeds(Sorters(c), consume, store) {
      var numbers := SortOf(Numbers(inputs[0]));
      var pivots := FirstPivots(c, inputs);
      PivotsSorted(numbers, c.mergerNum);
      SplittersRun(c, inputs, pivots, consume, s1);
      MergersAndChecker(c, inputs, pivots, consume, Sequential(Splitters(c), consume, s1));
    }
  }

  lemma SortsFieldsSorted(inputs: seq<seq<Field>>, out: seq<int>)
    requires SortsFields(inputs, out)
    ensures Sorted(out)
  {
  }

  /** The result holds every number as often as the inputs do exactly when no field of the
      inputs is `u32::MAX`. */
  lemma SortRunKeepsAllIff(inputs: seq<seq<Field>>, out: seq<int>)
    requires SortsFields(inputs, out)
    ensures (forall x: u32 :: multiset(out)[x] == multiset(Concat(inputs))[Number(x)])
       <==> forall i :: 0 <= i < |inputs| ==> Number(U32_MAX) !in inputs[i]
  {
    hide Concat, Sorted;
    InSomeInputIff(inputs, Number(U32_MAX));
    assert multiset(out)[U32_MAX] == 0;
    if Number(U32_MAX) !in multiset(Concat(inputs)) {
      forall x: u32
        ensures multiset(out)[x] == multiset(Concat(inputs))[Number(x)]
      {
        assert x < U32_MAX || x == U32_MAX;
      }
    }
  }

  lemma {:induction false} InSomeInputIff(inputs: seq<seq<Field>>, f: Field)
    ensures f !in multiset(Concat(inputs)) <==> forall i :: 0 <= i < |inputs| ==> f !in inputs[i]
  {
    if inputs != [] {
      var rest := inputs[1..];
      InSomeInputIff(rest, f);
      assert f in multiset(Concat(inputs)) <==> f in inputs[0] || f in multiset(Concat(rest));
      forall i | 0 < i < |inputs|
        ensures inputs[i] == rest[i - 1]
      {
      }
    }
  }

  /** Two sorters and three mergers, where the second input is empty: its splitter makes two
      parts only, so the last merger finds none. */
  lemma EarlyStop(c: Config, inputs: seq<seq<Field>>)
    requires c == Config(2, 3) && inputs == [[Number(1), Number(2), Number(3)], []]
    ensures AllWellFormed(inputs) && !Runnable(c, inputs)
  {
    hide Numbers, SortOf;
    ThreeNumbers(inputs[0]);
    NoNumbers(inputs[1]);
    PivotsOfThree();
  }

  lemma ThreeNumbers(fields: seq<Field>)
    requires fields == [Number(1), Number(2), Number(3)]
    ensures SortOf(Numbers(fields)) == [1, 2, 3]
  {
    var two, one := fields[1..], fields[1..][1..];
    assert one == [Number(3)] && Numbers(one) == [3];
    assert Numbers(two) == [2] + Numbers(one);
    assert Numbers(fields) == [1] + Numbers(two);
    SortOfIs(Numbers(fields), [1, 2, 3]);
  }

  lemma NoNumbers(fields: seq<Field>)
    requires fields == []
    ensures SortOf(Numbers(fields)) == []
  {
  }

  lemma PivotsOfThree()
    ensures Pivots([1, 2, 3], 3) == Some([2, 3])
  {
    var p := Pivots([1, 2, 3], 3).value;
    assert PivotIndex(3, 3, 0) == 1 && PivotIndex(3, 3, 1) == 2;
    assert p == [2, 3];
  }

  /** The runner itself, whatever the interleaving inside the groups. */
  method RunSort(apps: seq<Program<Value>>, groups: seq<seq<Program<Value>>>, ghost c: Config,
      ghost inputs: seq<seq<Field>>, consume: bool, store: Store<Value>) returns (final: Store<Value>, ok: bool)
    requires AllWellBehaved(apps) && groups == SortGroups(c)
    requires Initial(inputs, store) && |inputs| == c.sorterNum > 0
    ensures ok <==> Runnable(c, inputs)
    ensures ok ==> SortedResults(c, inputs, final)
  {
    hide AllWellBehaved, Independent, Runnable, SortedResults, Initial;
    GroupsWellBehaved(c);
    SortRun(c, inputs, consume, store);
    var ran;
    final, ok, ran := Run(apps, groups, consume, store);
  }
}
