/** The word count as a workflow: a group of mappers and a group of reducers that exchange the
    counts through named slots, in any interleaving within a group. */
module WordCountWorkflow {
  import opened Options
  import opened Sequences
  import opened WordHash
  import opened WordCount
  import opened Isolation
  import opened SlotNames
  import opened SlotPrograms

  datatype Config = Config(mapperNum: nat, reducerNum: nat)

  /** The slot from mapper `i` to reducer `j`. */
  function ShuffleSlot(i: nat, j: nat): string {
    Decimal(i) + ("-" + Decimal(j))
  }

  lemma SlotWritten()
    ensures ShuffleSlot(3, 7) == "3-7"
  {
  }

  lemma ShuffleSlotInjective(i: nat, j: nat, i': nat, j': nat)
    requires ShuffleSlot(i, j) == ShuffleSlot(i', j')
    ensures i == i' && j == j'
  {
    DecimalThen(i, "-" + Decimal(j), i', "-" + Decimal(j'));
    DropPrefix("-", Decimal(j), Decimal(j'));
    DecimalInjective(j, j');
  }

  // ---------- the apps ----------

  ghost function MapperSlots(i: nat): iset<string> {
    iset j: nat | true :: ShuffleSlot(i, j)
  }

  ghost function ReducerSlots(j: nat): iset<string> {
    iset i: nat | true :: ShuffleSlot(i, j)
  }

  /** The words of mapper `i` go to the slots of the reducers. A file that cannot be read
      fails the mapper, and so does a word when there are no reducers. */
  ghost function MapperOutput(c: Config, i: nat, input: Option<string>): Output<Counts> {
    match input
    case None => Output([], false)
    case Some(text) =>
      var counts := CountOf(Words(text));
      if c.reducerNum == 0 then Output([], counts == map[])
      else
        var parts := seq(c.reducerNum, j requires 0 <= j < c.reducerNum => Part(counts, c.reducerNum, j));
        Output(seq(c.reducerNum, j requires 0 <= j < c.reducerNum => (ShuffleSlot(i, j), parts[j])), true)
  }

  ghost function Mapper(c: Config, i: nat, input: Option<string>): Program<Counts> {
    ReadsThenWrites([], got => MapperOutput(c, i, input), map[], MapperSlots(i))
  }

  ghost function ReducerNeeds(c: Config, j: nat): seq<string> {
    seq(c.mapperNum, i requires 0 <= i < c.mapperNum => ShuffleSlot(i, j))
  }

  ghost function ReducerOutput(): seq<Counts> -> Output<Counts> {
    got => Output([], true)
  }

  /** A reducer reads the slots of all mappers; what it computes from them is `Reduced`. */
  ghost function Reducer(c: Config, j: nat): Program<Counts> {
    ReadsThenWrites(ReducerNeeds(c, j), ReducerOutput(), map[], ReducerSlots(j))
  }

  ghost function Mappers(c: Config, inputs: seq<Option<string>>): seq<Program<Counts>> {
    seq(|inputs|, i requires 0 <= i < |inputs| => Mapper(c, i, inputs[i]))
  }

  ghost function Reducers(c: Config): seq<Program<Counts>> {
    seq(c.reducerNum, j requires 0 <= j < c.reducerNum => Reducer(c, j))
  }

  // ---------- every slot belongs to one app of a group ----------

  lemma MapperWithin(c: Config, i: nat, input: Option<string>)
    ensures Within([], got => MapperOutput(c, i, input), MapperSlots(i))
  {
    hide ShuffleSlot, CountOf, Words, Part;
    forall k | 0 <= k < |MapperOutput(c, i, input).writes|
      ensures MapperOutput(c, i, input).writes[k].0 in MapperSlots(i)
    {
    }
  }

  lemma ReducerWithin(c: Config, j: nat)
    ensures Within(ReducerNeeds(c, j), ReducerOutput(), ReducerSlots(j))
    ensures NoDuplicates(ReducerNeeds(c, j))
  {
    hide ShuffleSlot;
    forall a, b | 0 <= a < b < c.mapperNum
      ensures ShuffleSlot(a, j) != ShuffleSlot(b, j)
    {
      if ShuffleSlot(a, j) == ShuffleSlot(b, j) {
        ShuffleSlotInjective(a, j, b, j);
      }
    }
  }

  lemma SlotsDisjoint(a: nat, b: nat)
    requires a != b
    ensures MapperSlots(a) !! MapperSlots(b) && ReducerSlots(a) !! ReducerSlots(b)
  {
    hide ShuffleSlot;
    forall x | x in MapperSlots(a) && x in MapperSlots(b)
      ensures false
    {
      var j: nat, k: nat :| ShuffleSlot(a, j) == x == ShuffleSlot(b, k);
      ShuffleSlotInjective(a, j, b, k);
    }
    forall x | x in ReducerSlots(a) && x in ReducerSlots(b)
      ensures false
    {
      var i: nat, k: nat :| ShuffleSlot(i, a) == x == ShuffleSlot(k, b);
      ShuffleSlotInjective(i, a, k, b);
    }
  }

  lemma GroupsAdmissible(c: Config, inputs: seq<Option<string>>)
    ensures Admissible(Mappers(c, inputs)) && Admissible(Reducers(c))
  {
    hide ShuffleSlot, MapperOutput, WellBehaved;
    forall i | 0 <= i < |inputs|
      ensures WellBehaved(Mappers(c, inputs)[i])
    {
      MapperWithin(c, i, inputs[i]);
      ProgramWellBehaved([], got => MapperOutput(c, i, inputs[i]), map[], MapperSlots(i));
    }
    forall j | 0 <= j < c.reducerNum
      ensures WellBehaved(Reducers(c)[j])
    {
      ReducerWithin(c, j);
      ProgramWellBehaved(ReducerNeeds(c, j), ReducerOutput(), map[], ReducerSlots(j));
    }
    forall a, b | 0 <= a < b
      ensures MapperSlots(a) !! MapperSlots(b) && ReducerSlots(a) !! ReducerSlots(b)
    {
      SlotsDisjoint(a, b);
    }
  }

  // ---------- the mappers ----------

  /** When a mapper ends normally: its file can be read, and there is a reducer or no word. */
  predicate MapperOk(c: Config, input: Option<string>) {
    input.Some? && (c.reducerNum == 0 ==> Words(input.value) == [])
  }

  ghost predicate Runnable(c: Config, inputs: seq<Option<string>>) {
    forall i :: 0 <= i < |inputs| ==> MapperOk(c, inputs[i])
  }

  ghost predicate Delivered(c: Config, i: nat, input: Option<string>, j: nat, store: Store<Counts>)
    requires input.Some? && j < c.reducerNum
  {
    ShuffleSlot(i, j) in store && store[ShuffleSlot(i, j)] == Part(CountOf(Words(input.value)), c.reducerNum, j)
  }

  lemma NoCountsIff(words: seq<string>)
    ensures CountOf(words) == map[] <==> words == []
  {
    if words != [] {
      CountAt(words, words[0]);
    }
  }

  lemma MapperOutcome(c: Config, i: nat, input: Option<string>, consume: bool, store: Store<Counts>)
    ensures WellBehaved(Mapper(c, i, input))
    ensures Succeeds(Mapper(c, i, input), consume, store) <==> MapperOk(c, input)
    ensures MapperOk(c, input) ==>
      forall j :: 0 <= j < c.reducerNum ==> Delivered(c, i, input, j, Outcome(Mapper(c, i, input), consume, store).1)
  {
    hide ShuffleSlot, CountOf, Words, Part, WellBehaved, Outcome;
    MapperWithin(c, i, input);
    OutcomeWhenPresent([], got => MapperOutput(c, i, input), map[], MapperSlots(i), consume, store);
    if input.Some? {
      NoCountsIff(Words(input.value));
    }
    var w := MapperOutput(c, i, input).writes;
    if MapperOk(c, input) {
      MapperWrites(c, i, input);
      forall j | 0 <= j < c.reducerNum
        ensures Delivered(c, i, input, j, Outcome(Mapper(c, i, input), consume, store).1)
      {
        PutFirstAt(AfterReads(store, [], consume), w, |w|, j);
      }
    }
  }

  lemma MapperWrites(c: Config, i: nat, input: Option<string>)
    ensures DistinctSlots(MapperOutput(c, i, input).writes)
  {
    hide ShuffleSlot, CountOf, Words, Part;
    var w := MapperOutput(c, i, input).writes;
    forall a, b | 0 <= a < b < |w|
      ensures w[a].0 != w[b].0
    {
      if ShuffleSlot(i, a) == ShuffleSlot(i, b) {
        ShuffleSlotInjective(i, a, i, b);
      }
    }
  }

  /** The store between the mappers and the reducers. */
  ghost predicate AllDelivered(c: Config, inputs: seq<Option<string>>, store: Store<Counts>)
    requires Runnable(c, inputs)
  {
    forall i, j :: 0 <= i < |inputs| && 0 <= j < c.reducerNum ==> Delivered(c, i, inputs[i], j, store)
  }

  lemma MappersRun(c: Config, inputs: seq<Option<string>>, consume: bool, store: Store<Counts>)
    ensures AllWellBehaved(Mappers(c, inputs))
    ensures GroupSucceeds(Mappers(c, inputs), consume, store) <==> Runnable(c, inputs)
    ensures Runnable(c, inputs) ==> AllDelivered(c, inputs, Sequential(Mappers(c, inputs), consume, store))
  {
    hide ShuffleSlot, CountOf, Words, Part, WellBehaved, Outcome, Sequential, Mapper;
    GroupsAdmissible(c, inputs);
    var group, final := Mappers(c, inputs), Sequential(Mappers(c, inputs), consume, store);
    forall i | 0 <= i < |inputs|
      ensures Succeeds(group[i], consume, store) <==> MapperOk(c, inputs[i])
    {
      MapperOutcome(c, i, inputs[i], consume, store);
    }
    if Runnable(c, inputs) {
      forall i, j | 0 <= i < |inputs| && 0 <= j < c.reducerNum
        ensures Delivered(c, i, inputs[i], j, final)
      {
        DeliveredAfterGroup(c, inputs, consume, store, i, j);
      }
    }
  }

  lemma DeliveredAfterGroup(c: Config, inputs: seq<Option<string>>, consume: bool, store: Store<Counts>, i: nat, j: nat)
    requires i < |inputs| && j < c.reducerNum && MapperOk(c, inputs[i]) && Admissible(Mappers(c, inputs))
    ensures Delivered(c, i, inputs[i], j, Sequential(Mappers(c, inputs), consume, store))
  {
    hide ShuffleSlot, CountOf, Words, Part, WellBehaved, Outcome, Sequential;
    var group := Mappers(c, inputs);
    MapperOutcome(c, i, inputs[i], consume, store);
    SequentialIsLocal(group, consume, store);
    assert SameOn(Sequential(group, consume, store), Outcome(group[i], consume, store).1, group[i].footprint);
    assert ShuffleSlot(i, j) in group[i].footprint;
    assert SameAt(Sequential(group, consume, store), Outcome(group[i], consume, store).1, ShuffleSlot(i, j));
    assert Delivered(c, i, inputs[i], j, Outcome(Mapper(c, i, inputs[i]), consume, store).1);
  }

  // ---------- the reducers ----------

  ghost function WordsOf(c: Config, inputs: seq<Option<string>>): seq<seq<string>>
    requires Runnable(c, inputs)
  {
    seq(|inputs|, i requires 0 <= i < |inputs| => assert MapperOk(c, inputs[i]); Words(inputs[i].value))
  }

  lemma ReducerOutcome(c: Config, inputs: seq<Option<string>>, consume: bool, store: Store<Counts>, j: nat)
    requires |inputs| == c.mapperNum && Runnable(c, inputs) && j < c.reducerNum && AllDelivered(c, inputs, store)
    ensures WellBehaved(Reducer(c, j)) && Succeeds(Reducer(c, j), consume, store)
    ensures Outcome(Reducer(c, j), consume, store).0.got == Received(WordsOf(c, inputs), c.reducerNum, j)
  {
    hide ShuffleSlot, CountOf, Words, Part, WellBehaved, Outcome;
    var needs, received := ReducerNeeds(c, j), Received(WordsOf(c, inputs), c.reducerNum, j);
    ReducerWithin(c, j);
    forall i | 0 <= i < |needs|
      ensures needs[i] in store && store[needs[i]] == received[i]
    {
      assert Delivered(c, i, inputs[i], j, store);
    }
    OutcomeWhenPresent(needs, ReducerOutput(), map[], ReducerSlots(j), consume, store);
    assert Values(store, needs) == received;
  }

  // ---------- the whole workflow ----------

  ghost predicate AllOk(g: GroupState<Counts>) {
    forall i :: 0 <= i < |g.threads| ==> g.threads[i].result == Some(true)
  }

  ghost function AfterMappers(c: Config, inputs: seq<Option<string>>, consume: bool, store: Store<Counts>,
      schedule: seq<nat>): GroupState<Counts>
    requires IsSchedule(Mappers(c, inputs), schedule)
  {
    RunSchedule(Mappers(c, inputs), consume, store, schedule)
  }

  /** However the mappers interleave, when all have ended they have all succeeded exactly when
      the inputs are readable and there is a reducer if there is a word; and then every slot
      holds its part of the counts. */
  lemma MappersInAnyOrder(c: Config, inputs: seq<Option<string>>, consume: bool, store: Store<Counts>,
      schedule: seq<nat>)
    requires IsSchedule(Mappers(c, inputs), schedule)
    requires Complete(AfterMappers(c, inputs, consume, store, schedule))
    ensures AllOk(AfterMappers(c, inputs, consume, store, schedule)) <==> Runnable(c, inputs)
    ensures Runnable(c, inputs) ==> AllDelivered(c, inputs, AfterMappers(c, inputs, consume, store, schedule).store)
  {
    hide WellBehaved, Outcome, Sequential, Mapper, MapperOk, RunSchedule, AllDelivered;
    GroupsAdmissible(c, inputs);
    MappersRun(c, inputs, consume, store);
    Confluence(Mappers(c, inputs), consume, store, schedule);
  }

  /** However the mappers and then the reducers interleave, when all have ended reducer `j` has
      succeeded, and its counter is exactly its part of the count of all words of all inputs. */
  lemma WordCountRun(c: Config, inputs: seq<Option<string>>, consume: bool, store: Store<Counts>, first: seq<nat>,
      second: seq<nat>, j: nat)
    requires |inputs| == c.mapperNum && Runnable(c, inputs) && j < c.reducerNum
    requires IsSchedule(Mappers(c, inputs), first) && IsSchedule(Reducers(c), second)
    requires Complete(AfterMappers(c, inputs, consume, store, first))
    requires Complete(RunSchedule(Reducers(c), consume, AfterMappers(c, inputs, consume, store, first).store, second))
    ensures var mid := AfterMappers(c, inputs, consume, store, first).store;
      var t := RunSchedule(Reducers(c), consume, mid, second).threads[j];
      t.result == Some(true) && Reduced(t.got) == Part(CountOf(Concat(WordsOf(c, inputs))), c.reducerNum, j)
  {
    hide WellBehaved, Outcome, Sequential, Reducer, MapperOk, RunSchedule, AfterMappers, AllDelivered, Received,
      Reduced, Part, CountOf, Concat;
    var mid := AfterMappers(c, inputs, consume, store, first).store;
    GroupsAdmissible(c, inputs);
    MappersInAnyOrder(c, inputs, consume, store, first);
    ReducerOutcome(c, inputs, consume, mid, j);
    Confluence(Reducers(c), consume, mid, second);
    DistributedIsSequential(WordsOf(c, inputs), c.reducerNum, j);
  }
}
