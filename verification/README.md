# Verified model of alloyagent

Dafny proofs about the core of alloyagent: the AlloyStack runtime, which runs workflows of small apps over a library
operating system, and two stream filters of the openfang API server. `dafny verify dfyconfig.toml` checks everything.

What is modelled, by module:

- **Workflows.** `Isolation` runs a group of apps as threads that interleave step by step and exchange data through named
  buffer slots; its main theorem is that every interleaving of apps with disjoint slots ends like the one-by-one run.
  `Runner` runs the groups in order. `SlotNames` and `SlotPrograms` give the slot names and the shape of the apps.
- **Parallel sort.** `HeapMerge` (C++ heap merge, in place on an array), `LinearMerge` (Rust merge), `KWayMerge` (the
  invariant they share), `Splitting` (Rust splitter and C++ classifier), `SorterInput` (parsing of the input text),
  `SortStages` (numbers, pivots, checker), `SortWorkflow` (the whole workflow, `SortRun`). `Sequences` holds the vocabulary.
- **Word count.** `WordHash`, `WordCount` and `WordCountWorkflow`: mappers and reducers in any interleaving count like one
  sequential counter (`WordCountRun`).
- **Files.** `Fatfs`, `FdTab` and `LibOs` are the stateful services; `FileStack` is the state machine of their calls, with
  handle ownership over every run; `Paging` shows that demand paging refines the file, over every run of faults and calls.
- **Guest interface.** `WasiReaddir`, `WasiArgs` and `WasiRandom` for wasi_snapshot_preview1; `Bytes` for memory.
- **Stream filters.** `StreamChunker`, `ChunkerFences` (fence tracking and chunks that end inside a fenced block) and
  `StreamDedup`; `Texts` and `Splits` for lines, trimming, splitting and joining.

The stateful services are classes whose methods are proved against functions of the old state. The loops of the source
are loops here, except where "Left out" says otherwise.

Where the source does not do what it or its documentation suggests, the model follows the code, shows an input, and
proves for all inputs exactly when the code does what is suggested:

- The Rust merge drops every `u32::MAX` (`MaximumIsLost`, `KeepsAllIff`, `SortRunKeepsAllIff`).
- The splitter stops early and makes fewer parts than there are mergers, which then fail (`EarlyStop`, `AllPartsIff`,
  `SortRun`).
- The checker compares first elements of parts only, so it accepts parts that overlap (`CheckerAcceptsOverlap`,
  `CheckerSoundIff`).
- The chunker's documentation says that it never splits inside fenced code blocks. It does: inside an open fence it
  closes and reopens the fence, and a fence that was opened and closed within the buffer is cut (`ClosedFenceIsCut`).
  `NeverInBlockIff` and `NeverInBlockByFlagIff` say exactly for which runs the documentation is right.
- The chunker misses a fence marker that arrives in two pieces (`CutInsideLineMatters`, `SeamIff`, `AlwaysRightIff`).
- Draining the chunker does not end for very small limits (`ReopenedForever`, `DrainsForeverIff`).
- The word filter lets the empty word through (`BlankLine`, `DoubleSpace`, `EmptyWordIff`).
- The word hash wraps for very large reducer numbers (`WrongReducer`, `HashFaithfulIff`).
- Arguments with a NUL byte are cut when read back (`NulCutsArgument`, `ArgRoundTripIff`).

Two more things to know: `fatfs_write` ignores errors and reports the full length (`Fatfs.FileService.Write`), and the
random bytes repeat with period 256 and depend on the low byte of the buffer address only (`EqualBytesIff`,
`OnlyLowByteMatters`). The page-fault offset is cut to 32 bits (`FaultsRightIff`, `LargeFileWrong`); this is a limit that a
file on a FAT volume, whose size is a 32-bit number, does not reach.

## Model

| member | source | states |
|---|---|---|
| `Isolation.Noninterference` | AlloyStack/libasvisor/src/isolation/mod.rs:199-224 | After any prefix of any interleaving of a group whose apps share no slot, every app is exactly where it would be had it run alone for as many steps, its slots hold what they would hold then, and a slot of no app is unchanged |
| `Isolation.Confluence` | AlloyStack/libasvisor/src/isolation/mod.rs:199-224 | Every complete interleaving of such a group ends in the store of running its apps one after the other, and every app ends as it does alone |
| `Isolation.EndedIsOutcome` | AlloyStack/libasvisor/src/isolation/mod.rs:199-224 | An app that runs alone ends, has ended exactly from its lifetime on, and stays at its outcome |
| `Isolation.OutcomeIsLocal` | AlloyStack/as_std/src/agent.rs:60-109 | The outcome of an app depends only on the slots it may touch and changes only those |
| `Isolation.SequentialIsLocal` | AlloyStack/libasvisor/src/isolation/mod.rs:199-224 | After the one-by-one run every app's slots hold what that app alone leaves there, and other slots are unchanged |
| `Isolation.TakeTurn` | AlloyStack/libasvisor/src/isolation/mod.rs:199-224 | Every step of an unfinished app reduces the number of steps left in the group, whoever takes it: the group terminates under every scheduler |
| `Isolation.RunGroupInParallel` | AlloyStack/libasvisor/src/isolation/mod.rs:199-224 | The scheduler that lets any unfinished thread step next ends, with the store of the one-by-one run, and succeeds exactly when every app alone succeeds |
| `Runner.RunAsSequence` | AlloyStack/libasvisor/src/isolation/mod.rs:180-197 | Without groups the apps run in list order, each alone on the store its predecessor left: all of them, or up to and including the first that fails |
| `Runner.FirstThenRest` | AlloyStack/libasvisor/src/isolation/mod.rs:187-195 | Such a run is the first app on the store and, if it succeeds, the others on the store it leaves; if it fails, its store is final |
| `Runner.Run` | AlloyStack/libasvisor/src/isolation/mod.rs:226-259 | A workflow runs its groups in order, the first group with a failing app being the last to run, or, without groups, its apps in list order |
| `SlotNames.NameInjective` | AlloyStack/user/sorter/src/lib.rs:71-115 | The formatted slot names of the sort are injective in the kind of slot and its numbers |
| `SlotNames.NamesWritten` | AlloyStack/user/sorter/src/lib.rs:71-115 | The names of one slot of each kind, written out |
| `SlotNames.DecimalValue` | AlloyStack/user/merger/src/lib.rs:40-52 | A formatted number parses back to itself, so formatting is injective |
| `SlotPrograms.OutcomeWhenPresent` | AlloyStack/as_std/src/agent.rs:60-109 | An app whose slots are all there reads their values, fills its slots with what it computes from them, and ends as computed; each slot is first allocated and then filled |
| `SlotPrograms.OutcomeWhenMissing` | AlloyStack/as_std/src/agent.rs:85-109 | An app that needs a missing slot fails |
| `SortWorkflow.GroupsAdmissible` | AlloyStack/libasvisor/src/isolation/mod.rs:199-224 | In each group of the sort every slot belongs to one app, and every app ends, so every interleaving is confluent |
| `SortWorkflow.SorterOutcome` | AlloyStack/user/sorter/src/lib.rs:71-131 | A sorter succeeds exactly when its text parses and, for sorter 0, pivots exist; its slot holds the sorted numbers, or the unsorted ones before the first malformed field, and on success every splitter gets the pivots |
| `SortWorkflow.SplitterOutcome` | AlloyStack/user/splitter/src/lib.rs:39-64 | A splitter leaves exactly the parts of its sorted numbers in the slots of the mergers, and no other part |
| `SortWorkflow.MergerOutcome` | AlloyStack/user/merger/src/lib.rs:40-52 | A merger succeeds exactly when every splitter made its part; then its slot holds the merge of column `j` |
| `SortWorkflow.CheckersRunIff` | AlloyStack/user/checker/src/lib.rs:33-51 | The checker app accepts exactly the results that are each sorted and whose first elements do not decrease, stopping at the first that fails |
| `SortWorkflow.EnoughParts` | AlloyStack/user/splitter/src/lib.rs:83-110 | All mergers find all their parts exactly when no splitter runs out of numbers before the second-to-last pivot |
| `SortWorkflow.SortRun` | AlloyStack/libasvisor/src/isolation/mod.rs:226-259 | The whole workflow succeeds exactly when the fields parse, pivots exist and no splitter stops early; then the merge results in order are sorted and hold every number below `u32::MAX` exactly as often as it stands in a field of the input texts, and the checker accepts them |
| `SortWorkflow.SortRunKeepsAllIff` | AlloyStack/user/merger/src/lib.rs:61-90 | That result holds every number as often as the input fields do exactly when no field is `u32::MAX` |
| `SortWorkflow.EarlyStop` | AlloyStack/user/splitter/src/lib.rs:83-110 | With 2 sorters, 3 mergers and the inputs 1,2,3 and nothing, all fields parse and the workflow still fails |
| `SortWorkflow.RunSort` | AlloyStack/libasvisor/src/isolation/mod.rs:226-259 | The runner reaches that result under every interleaving inside the groups |
| `KWayMerge.MergeStep` | AlloyStack/user/wasmtime_merger/merger.cpp:106-124 | For any arrays, emitting a head that is below all heads keeps the merge invariant: output plus remainder is the input, sorted arrays give a sorted output below the remainder, and a sorted output comes from sorted array prefixes; the remainder shrinks |
| `KWayMerge.MergedDone` | AlloyStack/user/wasmtime_merger/merger.cpp:106-124 | A finished merge is a permutation of its input and sorted exactly when every array is |
| `KWayMerge.HeadsBoundRemaining` | AlloyStack/user/wasmtime_merger/merger.cpp:106-124 | A value below the heads of sorted arrays is below everything that remains |
| `HeapMerge.HeapifyDown` | AlloyStack/user/wasmtime_merger/merger.cpp:34-58 | In place, for any heap that is violated at most at `index`: restores the heap from `lo` on, permutes the first `heapSize` nodes, leaves the rest of the array; terminates on `heapSize - index` |
| `HeapMerge.SwapMovesViolation` | AlloyStack/user/wasmtime_merger/merger.cpp:34-58 | Swapping a violating node with its least child moves the only violation to that child |
| `HeapMerge.RootIsLeast` | AlloyStack/user/wasmtime_merger/merger.cpp:108-109 | The root of a heap is a least node |
| `HeapMerge.CollectHeads` | AlloyStack/user/wasmtime_merger/merger.cpp:92-99 | The initial nodes are exactly the heads of the non-empty arrays |
| `HeapMerge.BuildHeap` | AlloyStack/user/wasmtime_merger/merger.cpp:103-105 | The bottom-up loop turns any nodes into a heap of the same nodes |
| `HeapMerge.RootIsLeastHead` | AlloyStack/user/wasmtime_merger/merger.cpp:106-109 | While the nodes are the heads of the unfinished arrays, the root is the current head of its array and below all heads |
| `HeapMerge.RoundKeepsHeads` | AlloyStack/user/wasmtime_merger/merger.cpp:112-121 | After a round the nodes are again exactly the heads of the unfinished arrays, heap except at the root |
| `HeapMerge.AdvanceRoot` | AlloyStack/user/wasmtime_merger/merger.cpp:112-123 | Replacing or dropping the root and sifting gives a heap of exactly those nodes |
| `HeapMerge.DrainHeap` | AlloyStack/user/wasmtime_merger/merger.cpp:106-124 | For any arrays the merge loop ends and writes a permutation of the input and nothing beyond it, sorted exactly when every array is |
| `HeapMerge.Merge` | AlloyStack/user/wasmtime_merger/merger.cpp:87-124 | For any number of arrays, some empty: the result is a permutation of all of them, and sorted exactly when every array is |
| `HeapMerge.MergeSorts` | AlloyStack/user/wasmtime_merger/merger.cpp:87-124 | So from sorted arrays it is their one sorted permutation |
| `LinearMerge.FindMin` | AlloyStack/user/merger/src/lib.rs:67-78 | The scan finds a least head below `u32::MAX`, or none if there is none |
| `LinearMerge.MergePartitions` | AlloyStack/user/merger/src/lib.rs:61-90 | For any partitions the result is a permutation of what precedes the first `u32::MAX` of each, and sorted exactly when these prefixes are |
| `LinearMerge.SortedPartitions` | AlloyStack/user/merger/src/lib.rs:61-90 | So from sorted partitions it is the sorted permutation of all values below `u32::MAX` |
| `LinearMerge.KeepsAllIff` | AlloyStack/user/merger/src/lib.rs:65-71 | Leaving out `u32::MAX` keeps all values exactly when it does not occur |
| `LinearMerge.MaximumIsLost` | AlloyStack/user/merger/src/lib.rs:65-71 | The single value `u32::MAX` is lost |
| `LinearMerge.MergesAgree` | AlloyStack/user/merger/src/lib.rs:61-90 | On sorted partitions of values that both a signed and an unsigned 32-bit integer hold, the Rust and the C++ merge give the same result, the sorted permutation of the input |
| `Splitting.RowOf` | AlloyStack/user/wasmtime_spliter/spliter.cpp:68-79 | The row of the per-element classifier is the number of the interval of the pivots |
| `Splitting.Classify` | AlloyStack/user/wasmtime_spliter/spliter.cpp:68-79 | Row `j` holds the numbers of bucket `j` in order |
| `Splitting.BucketInterval` | AlloyStack/user/wasmtime_spliter/spliter.cpp:68-79 | For sorted pivots a number is in bucket `j` exactly when it is at least pivot `j-1` and below pivot `j` |
| `Splitting.SplitNumbers` | AlloyStack/user/splitter/src/lib.rs:83-110 | The nested loops with their early exit compute the recursive split |
| `Splitting.SplitConcat` | AlloyStack/user/splitter/src/lib.rs:83-110 | The parts, in order, are the input, for any numbers and pivots |
| `Splitting.SplitIsBuckets` | AlloyStack/user/splitter/src/lib.rs:83-110 | For sorted numbers part `j` is bucket `j` of the per-element classifier, and a part missing through the early exit is an empty bucket |
| `Splitting.PartCount` | AlloyStack/user/splitter/src/lib.rs:83-110 | The exact number of parts, from the bucket of the last number |
| `Splitting.AllPartsIff` | AlloyStack/user/splitter/src/lib.rs:83-110 | There are as many parts as pivots plus one exactly when there are fewer than two pivots or the last number is at least the second-to-last pivot |
| `SorterInput.ParseU32` | AlloyStack/user/sorter/src/lib.rs:84-86 | The digit loop with its overflow test accepts exactly the texts of digits, at least one, after an optional plus sign, whose value is below 2^32, and returns that value |
| `SorterInput.SignedTexts` | AlloyStack/user/sorter/src/lib.rs:84-86 | A plus sign before the digits is allowed, a minus sign or a sign alone is not |
| `SorterInput.ParseText` | AlloyStack/user/sorter/src/lib.rs:79-88 | From the text: the fields between commas are trimmed, blank ones are skipped, and the loop stops with an error exactly at the first malformed one; the numbers are the number fields before it, in order, by position |
| `SorterInput.TextRoundTrip` | AlloyStack/user/sorter/src/lib.rs:79-88 | Numbers written in decimal with commas between them are parsed back to the same list |
| `SortStages.NumbersAreFields` | AlloyStack/user/sorter/src/lib.rs:79-88 | The field at position `i`, if a number, is found in the parsed list after as many numbers as there are number fields before it, and there are no others |
| `SortStages.NumbersCount` | AlloyStack/user/sorter/src/lib.rs:79-88 | Every number is parsed as often as it occurs among the fields |
| `SortStages.PivotsSorted` | AlloyStack/user/sorter/src/lib.rs:105-115 | The pivots are in range, come from the sorted numbers and are sorted |
| `SortStages.PivotPosition` | AlloyStack/user/sorter/src/lib.rs:105-115 | Pivot `i` is the element at the position `(i + 1) * length / mergerNum`, rounded down |
| `SortStages.PartsAreSortedInputs` | AlloyStack/user/merger/src/lib.rs:40-52 | For any inputs and any pivots, the merged columns in order are the sorted permutation of all numbers below `u32::MAX` |
| `SortStages.MergedPartsCount` | AlloyStack/user/merger/src/lib.rs:40-52 | Every number is in the merged column of its bucket, as often as in all inputs, and in no other |
| `SortStages.IsSorted` | AlloyStack/user/checker/src/lib.rs:37-51 | The sortedness test is exact |
| `SortStages.Check` | AlloyStack/user/checker/src/lib.rs:33-51 | The checker accepts exactly the parts that are each sorted and whose first elements, over the non-empty parts, do not decrease; the counter is the number of elements |
| `SortStages.CheckerComplete` | AlloyStack/user/checker/src/lib.rs:33-51 | The checker accepts every division of a sorted sequence into parts |
| `SortStages.CheckerSoundIff` | AlloyStack/user/checker/src/lib.rs:33-51 | Accepted parts form a sorted sequence exactly when no part starts below the end of an earlier one |
| `SortStages.CheckerAcceptsOverlap` | AlloyStack/user/checker/src/lib.rs:40-47 | The checker accepts the parts [1, 5] and [2], which are not sorted in sequence |
| `WordHash.GetIdx` | AlloyStack/user/mapper/src/lib.rs:60-67 | The loop stays below `reducerNum`, and equals the base-31 polynomial of the word modulo `reducerNum` when that is at most 2^58, or the condition of `HashFaithfulIff` holds |
| `WordHash.HashFaithfulIff` | AlloyStack/user/mapper/src/lib.rs:60-67 | The reduced 64-bit hash equals the polynomial hash for every word exactly when no round can exceed 64 bits or `reducerNum` divides 2^64 |
| `WordHash.HashOfAb` | AlloyStack/user/mapper/src/lib.rs:60-67 | The hash of the word "ab", computed |
| `WordHash.WrongReducer` | AlloyStack/user/mapper/src/lib.rs:60-67 | For every other `reducerNum` there is a word whose index differs from the polynomial hash |
| `WordCount.CountWords` | AlloyStack/user/mapper/src/lib.rs:91-106 | The counter maps exactly the words of the text to their number of occurrences modulo 2^32 |
| `WordCount.LineWordsCount` | AlloyStack/user/mapper/src/lib.rs:92-95 | The words of a line are exactly the pieces of the trimmed line made of the characters 0 to 9, a to z and A to Z, as often as they occur |
| `WordCount.WordsCount` | AlloyStack/user/mapper/src/lib.rs:91-95 | The words of a text are those of all its lines together |
| `Texts.TrimIs` | AlloyStack/user/mapper/src/lib.rs:92-93 | Trimming removes exactly the white space at both ends |
| `Texts.SpaceIs` | AlloyStack/user/mapper/src/lib.rs:92-93 | White space is the characters 9 to 13 and 32 |
| `Texts.LinesAre` | AlloyStack/user/mapper/src/lib.rs:91-91 | Lines end at newlines and nowhere else |
| `Splits.SplitThenJoin` | AlloyStack/user/mapper/src/lib.rs:92-95 | Splitting at a separator loses nothing: the pieces do not contain it and join back to the text |
| `Splits.JoinThenSplit` | AlloyStack/user/mapper/src/lib.rs:92-95 | Every list of pieces without the separator is the split of its join, so the split is the only one |
| `WordCount.EmptyPieceIff` | AlloyStack/user/mapper/src/lib.rs:92-95 | Splitting gives an empty piece exactly when the text is empty, starts or ends with a space, or has two adjacent spaces |
| `WordCount.EmptyWordIff` | AlloyStack/user/mapper/src/lib.rs:92-106 | The empty word is counted on a line exactly when the trimmed line is empty or has two adjacent spaces |
| `WordCount.BlankLine` | AlloyStack/user/mapper/src/lib.rs:92-95 | A blank line counts as exactly one empty word |
| `WordCount.DoubleSpace` | AlloyStack/user/mapper/src/lib.rs:92-95 | The line "a  b" counts an empty word |
| `WordCount.Shuffle` | AlloyStack/user/mapper/src/lib.rs:117-140 | In whatever order the map is visited, buffer `j` gets exactly the entries whose index is `j`; it fails exactly when there is a word and no reducer |
| `WordCount.Reduce` | AlloyStack/user/reducer/src/lib.rs:45-65 | In whatever order the maps are visited, the counter has exactly the words of all parts, each with the sum of its counts modulo 2^32 |
| `WordCount.DistributedIsSequential` | AlloyStack/user/reducer/src/lib.rs:45-65 | Reducer `j` ends with exactly its part of the count of all texts together |
| `WordCount.WordAtOneReducer` | AlloyStack/user/reducer/src/lib.rs:45-65 | A word is in the counter of the reducer its hash selects and no other; the number there is the true total exactly when that is below 2^32 |
| `WordCountWorkflow.ShuffleSlotInjective` | AlloyStack/user/mapper/src/lib.rs:117-123 | The slot names between mappers and reducers are injective |
| `WordCountWorkflow.MapperOutcome` | AlloyStack/user/mapper/src/lib.rs:69-148 | A mapper succeeds exactly when its file can be read and there is a reducer or no word; then every reducer's slot holds its part of the counts |
| `WordCountWorkflow.MappersInAnyOrder` | AlloyStack/libasvisor/src/isolation/mod.rs:199-224 | However the mappers interleave, all succeed exactly under that condition, and then all slots are filled |
| `WordCountWorkflow.WordCountRun` | AlloyStack/user/reducer/src/lib.rs:45-65 | However the mappers and then the reducers interleave, reducer `j` succeeds and what it has read reduces to exactly its part of the count of all words of all files |
| `Fatfs.FileService.constructor` | AlloyStack/common_service/fatfs/src/lib.rs:38-45 | The table starts empty |
| `Fatfs.FileService.Open` | AlloyStack/common_service/fatfs/src/apis.rs:91-111 | A new handle at the end of the table with the cursor at 0; with the create flag a missing file appears empty; errors change nothing |
| `Fatfs.FileService.Close` | AlloyStack/common_service/fatfs/src/apis.rs:131-137 | Succeeds exactly on a live handle and clears only that one |
| `Fatfs.FileService.Seek` | AlloyStack/common_service/fatfs/src/apis.rs:38-49 | Moves only that cursor; a dead handle is reported as such |
| `Fatfs.FileService.Read` | AlloyStack/common_service/fatfs/src/apis.rs:14-35 | The loop over short reads delivers exactly the bytes from the cursor to the end of buffer or file, moves the cursor by as many, and leaves the rest of the buffer |
| `Fatfs.FileService.Write` | AlloyStack/common_service/fatfs/src/apis.rs:114-128 | Reports the full length on a live handle although only a prefix may have been written |
| `Fatfs.OverwriteAt` | AlloyStack/common_service/fatfs/src/apis.rs:121-124 | Byte by byte, a write puts the data from the cursor on, keeps the rest, and extends the file only as far as the data reaches |
| `Fatfs.OverwriteReadsBack` | AlloyStack/common_service/fatfs/src/apis.rs:114-128 | What was written at a cursor is read back there |
| `FdTab.FdTable.constructor` | AlloyStack/common_service/fdtab/src/lib.rs:46-50 | The table starts empty |
| `FdTab.FdTable.AddFile` | AlloyStack/common_service/fdtab/src/lib.rs:84-97 | Returns the lowest descriptor from 3 on that is not in use and adds only that one |
| `FdTab.FdTable.RemoveFile` | AlloyStack/common_service/fdtab/src/lib.rs:99-109 | Returns what the descriptor held and removes only that descriptor |
| `FdTab.FdTable.GetFile` | AlloyStack/common_service/fdtab/src/lib.rs:52-66 | Looks the descriptor up in the map the vector stands for |
| `FdTab.FdTable.SetSource` | AlloyStack/common_service/fdtab/src/lib.rs:68-82 | Changes the source of one descriptor only |
| `FileStack.EventKeepsOwned` | AlloyStack/common_service/fdtab/src/apis.rs:96-177 | Every call keeps: descriptors own live handles, no two own the same one, every live FAT handle is owned |
| `FileStack.OwnershipOverRuns` | AlloyStack/common_service/fdtab/src/apis.rs:96-177 | After every run from the start, every live FAT handle has exactly one owning descriptor |
| `FileStack.HandleNeverReused` | AlloyStack/common_service/fatfs/src/lib.rs:66-84 | A FAT handle that has been closed is not live again after any run |
| `FileStack.AbsentUntilHandedOut` | AlloyStack/common_service/fdtab/src/lib.rs:84-109 | A removed descriptor stays absent in every run that does not hand it out again |
| `FileStack.EventKeepsOthers` | AlloyStack/common_service/fdtab/src/apis.rs:107-177 | A call changes no descriptor but its own; `accept` gives the listening descriptor a socket no descriptor had and the new descriptor the old socket |
| `LibOs.Kernel.constructor` | AlloyStack/common_service/fdtab/src/lib.rs:46-50 | The initial state owns its (no) handles |
| `LibOs.Kernel.Open` | AlloyStack/common_service/fdtab/src/apis.rs:96-104 | Is an enabled open event, or fails without effect |
| `LibOs.Kernel.Close` | AlloyStack/common_service/fdtab/src/apis.rs:107-119 | Is a close event exactly on a live descriptor; closing a FAT-backed descriptor always finds its handle and succeeds |
| `LibOs.Kernel.AllocateSocket` | AlloyStack/common_service/socket/src/apis.rs:70-101 | A new socket is different from all allocated ones; a failing call may leave new ones allocated |
| `LibOs.Kernel.Connect` | AlloyStack/common_service/fdtab/src/apis.rs:122-131 | Is an enabled connect event whose descriptor can be read and written, or a failure that at most leaks a socket |
| `LibOs.Kernel.Bind` | AlloyStack/common_service/fdtab/src/apis.rs:134-143 | Is an enabled bind event whose descriptor can be read and not written, or a failure that at most leaks a socket |
| `LibOs.Kernel.Accept` | AlloyStack/common_service/fdtab/src/apis.rs:146-177 | Is an enabled accept event whose new descriptor can be read and written, or fails; reserved, missing and FAT-backed descriptors are refused, each with its error |
| `LibOs.Kernel.Lseek` | AlloyStack/common_service/fdtab/src/apis.rs:55-73 | Moves the cursor of the file behind the descriptor; reserved, missing and network descriptors are refused, each with its error |
| `LibOs.Kernel.Read` | AlloyStack/common_service/fdtab/src/apis.rs:13-30 | Delivers the bytes at the cursor of the file behind the descriptor; reserved, missing and unreadable descriptors are refused, each with its error |
| `LibOs.Kernel.Write` | AlloyStack/common_service/fdtab/src/apis.rs:33-52 | Writes a prefix of the data through the descriptor and reports the full length; descriptor 0, missing and unwritable descriptors are refused, each with its error |
| `LibOs.WroteContent` | AlloyStack/common_service/fdtab/src/apis.rs:33-52 | After a write the file holds the data at the old cursor, for every descriptor of that file |
| `LibOs.WriteSeekRead` | AlloyStack/common_service/fdtab/src/apis.rs:13-73 | A write, a seek back and a read through any descriptor of the same file deliver what was written |
| `Paging.MasksAlignDown` | AlloyStack/common_service/mmap_file_backend/src/lib.rs:101-105 | The two bit masks of the code both round down to the page |
| `Paging.FaultLoads` | AlloyStack/common_service/mmap_file_backend/src/lib.rs:89-116 | A fault loads into every address of its page the file byte at the offset modulo 2^32, if the file is that long |
| `Paging.FaultsRightIff` | AlloyStack/common_service/mmap_file_backend/src/lib.rs:100-105 | On a page-aligned region, all faults are right about every byte of every file of length `n` exactly when `n` is at most 2^32 |
| `Paging.LargeFileWrong` | AlloyStack/common_service/mmap_file_backend/src/lib.rs:102-103 | For every larger length there is a file whose byte at offset 2^32 is loaded from its start |
| `Paging.FaultStartsInFile` | AlloyStack/as_std/src/mm.rs:27-35 | In a region as long as the file rounded up to pages, every faulting page starts inside the file |
| `Paging.FaultStaysInRegion` | AlloyStack/common_service/mmap_file_backend/src/lib.rs:105-109 | A fault writes nothing outside its region |
| `Paging.FaultKeepsAgreement` | AlloyStack/common_service/mmap_file_backend/src/lib.rs:89-116 | A fault keeps every loaded byte of every region equal to its file |
| `Paging.StepRefines` | AlloyStack/common_service/mmap_file_backend/src/lib.rs:89-116 | A loading fault, a failing fault that leaves anything in the shared page buffer, and a system call that neither closes a mapped descriptor nor writes a mapped file keep every loaded byte equal to its file |
| `Paging.PagingRefinesFiles` | AlloyStack/common_service/mmap_file_backend/src/lib.rs:89-116 | After every run of such steps in any order, on disjoint page-aligned regions over files of at most 4 GiB, every loaded byte equals the byte of its file |
| `Paging.ViewIsFile` | AlloyStack/as_std/src/mm.rs:37-41 | Once all pages are loaded, the slice of the mapped length is the file |
| `Paging.ContentStable` | AlloyStack/common_service/fdtab/src/apis.rs:13-73 | The file behind a descriptor keeps its content under every call that neither closes it nor writes to that file |
| `Paging.Pager.ReadAtOffset` | AlloyStack/common_service/mmap_file_backend/src/lib.rs:75-87 | Seek and read fill the shared page buffer from the file at that offset and keep the rest of it; a descriptor that is not a readable file is refused; nothing but a cursor changes in the system |
| `Paging.Pager.DoPageFault` | AlloyStack/common_service/mmap_file_backend/src/lib.rs:89-116 | For any registered region the handler makes steps of that machine: it loads the page of the faulting address, or refuses and leaves memory as it was |
| `StreamChunker.Chunker.constructor` | openfang/crates/openfang-api/src/stream_chunker.rs:20-29 | The buffer starts empty and outside a fence |
| `StreamChunker.Chunker.Push` | openfang/crates/openfang-api/src/stream_chunker.rs:32-50 | Appends the text and toggles the fence once per fence line; the fence marker is three backticks exactly inside a fence |
| `StreamChunker.Chunker.TryFlush` | openfang/crates/openfang-api/src/stream_chunker.rs:56-114 | Computes the flush of the specification and the new buffer |
| `StreamChunker.Chunker.FlushRemaining` | openfang/crates/openfang-api/src/stream_chunker.rs:117-123 | Delivers the whole buffer if there is any |
| `StreamChunker.FindLastInRange` | openfang/crates/openfang-api/src/stream_chunker.rs:137-140 | The last occurrence that lies within the byte range, or none if there is none |
| `StreamChunker.ChunkBounds` | openfang/crates/openfang-api/src/stream_chunker.rs:76-113 | With `min <= max`, a chunk flushed outside a fence is a prefix of the buffer with a length between the limits that ends at the last break of the highest priority in the range |
| `StreamChunker.BreakOrder` | openfang/crates/openfang-api/src/stream_chunker.rs:76-113 | Which break is taken, with the break strings written out: the last blank line in the range, else the last newline, else the last full stop, exclamation mark or question mark with a blank, in this order, else the maximum |
| `StreamChunker.NothingToFlushIff` | openfang/crates/openfang-api/src/stream_chunker.rs:56-114 | Outside a fence nothing is flushed exactly when the buffer is below the minimum, or below the maximum and no break occurs in the range |
| `StreamChunker.BestBreakUnique` | openfang/crates/openfang-api/src/stream_chunker.rs:76-113 | There is at most one best break |
| `StreamChunker.DrainsForeverIff` | openfang/crates/openfang-api/src/stream_chunker.rs:56-114 | Flushing until nothing comes goes on forever exactly when the reopened fence alone fills a chunk or the limits are 0; it ends after at most as many calls as the buffer is long, plus one, for every maximum of at least 5 |
| `StreamChunker.ReopenedForever` | openfang/crates/openfang-api/src/stream_chunker.rs:66-74 | Inside a fence with a maximum of 4, the reopened fence is delivered without end |
| `StreamChunker.FlushShortens` | openfang/crates/openfang-api/src/stream_chunker.rs:56-114 | Otherwise every chunk makes the buffer strictly shorter |
| `StreamChunker.Conservation` | openfang/crates/openfang-api/src/stream_chunker.rs:32-123 | For every run, the chunks followed by the buffer are the pushed text cut at the forced splits, with one closing and one reopening fence at each cut and nothing else added, lost or reordered |
| `ChunkerFences.SeamIff` | openfang/crates/openfang-api/src/stream_chunker.rs:32-50 | Pushing a text in two pieces tracks the fence as pushing it at once does, exactly when the line cut by the seam counts the same in two pieces as in one |
| `ChunkerFences.FlagRightIff` | openfang/crates/openfang-api/src/stream_chunker.rs:32-50 | After every run, with any flushes between, the fence flag is the parity of fence lines in all pushed text exactly when an even number of seams is not kept |
| `ChunkerFences.AlwaysRightIff` | openfang/crates/openfang-api/src/stream_chunker.rs:32-50 | The flag is right after every prefix of a run exactly when every seam is kept |
| `ChunkerFences.FenceIsParity` | openfang/crates/openfang-api/src/stream_chunker.rs:32-50 | So it is right throughout every run that pushes whole lines |
| `ChunkerFences.CutInsideLineMatters` | openfang/crates/openfang-api/src/stream_chunker.rs:32-50 | A fence marker pushed in two pieces is missed |
| `ChunkerFences.InBlockIff` | openfang/crates/openfang-api/src/stream_chunker.rs:36-48 | A position lies between an opening fence marker and its closing one exactly when the text up to it, read on its own, leaves a fence open |
| `ChunkerFences.CutInBlockIff` | openfang/crates/openfang-api/src/stream_chunker.rs:76-113 | Outside a fence a chunk ends at the best break, and it leaves a fence open exactly when that break lies inside a block of the buffer |
| `ChunkerFences.ForcedSplitIff` | openfang/crates/openfang-api/src/stream_chunker.rs:61-74 | Inside a fence a chunk is delivered exactly when the buffer has reached both limits; it is closed, and the fence reopened |
| `ChunkerFences.FenceLineIff` | openfang/crates/openfang-api/src/stream_chunker.rs:36-37 | A fence line is one that starts, after white space, with three backticks |
| `ChunkerFences.ClosedAndReopened` | openfang/crates/openfang-api/src/stream_chunker.rs:66-74 | The closing marker closes an open fence after every buffer, also one that ends in mid-line, and the reopened buffer has an open fence |
| `ChunkerFences.AllBalancedIff` | openfang/crates/openfang-api/src/stream_chunker.rs:56-123 | Every chunk of a run has balanced fences exactly when no call meets a condition visible before the call |
| `ChunkerFences.BalancedRun` | openfang/crates/openfang-api/src/stream_chunker.rs:32-123 | If every push and cut keeps its seam, no cut outside a fence lands inside a block and no final flush is inside a fence, then the flag says throughout whether the buffer has an open fence, and every chunk, forced splits included, has balanced fences |
| `ChunkerFences.BufferAt` | openfang/crates/openfang-api/src/stream_chunker.rs:32-123 | After every run the buffer is a rest of a reopened fence followed by the pushed text from a tracked position on, which is where the last chunk ended |
| `ChunkerFences.EndsInBlockIff` | openfang/crates/openfang-api/src/stream_chunker.rs:56-123 | A call of a run delivers a chunk that ends inside a block of the whole text exactly when it meets a condition visible before the call |
| `ChunkerFences.NeverInBlockIff` | openfang/crates/openfang-api/src/stream_chunker.rs:1-10 | No chunk of a run ends inside a fenced block exactly when no call of the run meets such a condition |
| `ChunkerFences.NeverInBlockByFlagIff` | openfang/crates/openfang-api/src/stream_chunker.rs:1-10 | With every seam kept, exactly when no flush inside a fence has a buffer at both limits, no best break outside one lands inside a block, and no final flush is inside a fence |
| `ChunkerFences.ClosedFenceIsCut` | openfang/crates/openfang-api/src/stream_chunker.rs:76-113 | A fence opened and closed within the buffer is cut in the middle, at a position inside the block |
| `StreamDedup.Normalize` | openfang/crates/openfang-api/src/stream_dedup.rs:78-95 | The character loop computes the collapsed, trimmed text |
| `StreamDedup.NormalizeIsJoin` | openfang/crates/openfang-api/src/stream_dedup.rs:78-95 | That is the lower-case words of the text joined by single spaces |
| `StreamDedup.SameNormalIff` | openfang/crates/openfang-api/src/stream_dedup.rs:78-95 | Two texts have the same normal form exactly when they have the same lower-case words |
| `StreamDedup.NormalIdempotent` | openfang/crates/openfang-api/src/stream_dedup.rs:78-95 | Normalizing twice is normalizing once |
| `StreamDedup.LowerIff` | openfang/crates/openfang-api/src/stream_dedup.rs:88-89 | Two characters are taken for the same exactly when they are, or are the two cases of one letter |
| `StreamDedup.SameUpToCase` | openfang/crates/openfang-api/src/stream_dedup.rs:78-95 | Texts that differ in letter case only have the same words |
| `StreamDedup.Dedup.constructor` | openfang/crates/openfang-api/src/stream_dedup.rs:20-27 | The window starts empty |
| `StreamDedup.Dedup.IsDuplicate` | openfang/crates/openfang-api/src/stream_dedup.rs:33-46 | True exactly for texts of at least 10 bytes with the same lower-case words as a text in the window |
| `StreamDedup.Dedup.RecordSent` | openfang/crates/openfang-api/src/stream_dedup.rs:49-62 | Records long enough texts, dropping the oldest of a full window; the two vectors stay in step |
| `StreamDedup.Dedup.Clear` | openfang/crates/openfang-api/src/stream_dedup.rs:65-68 | Empties the window |
| `StreamDedup.WindowIsRecentHistory` | openfang/crates/openfang-api/src/stream_dedup.rs:49-68 | After every run of record and clear the window is the last at most 50 long enough texts since the last clear |
| `WasiReaddir.FdReaddir` | AlloyStack/wasmtime_wasi_api/src/wasi.rs:497-569 | One call writes the records of the sorted listing from the cookie on, cut at the buffer length, then the number of bytes used, and nothing else |
| `WasiReaddir.Page` | AlloyStack/wasmtime_wasi_api/src/wasi.rs:542-557 | A call uses at most `buf_len` bytes |
| `WasiReaddir.DecodePage` | AlloyStack/wasmtime_wasi_api/src/wasi.rs:510-567 | A page decodes to a run of whole entries from the cookie on; a page that is not full reaches the end; a buffer that fits the next record makes progress |
| `WasiReaddir.DecodeCutRecord` | AlloyStack/wasmtime_wasi_api/src/wasi.rs:542-557 | A cut record decodes to nothing |
| `WasiReaddir.RecordFields` | AlloyStack/wasmtime_wasi_api/src/wasi.rs:514-537 | In a record the next cookie is at 0, eight zero bytes at 8, the name length at 16 and the type at 20 |
| `WasiReaddir.TypeBytes` | AlloyStack/wasmtime_wasi_api/src/wasi.rs:531-536 | Character devices, directories and regular files get the types 2, 3 and 4, all else 0 |
| `WasiReaddir.LexLeqIff` | AlloyStack/wasmtime_wasi_api/src/wasi.rs:508-508 | A name comes first if it is a prefix of the other or has the smaller byte where they first differ |
| `WasiReaddir.NextCookie` | AlloyStack/wasmtime_wasi_api/src/wasi.rs:510-517 | The `d_next` of the last complete record is the index of the first entry not yet delivered |
| `WasiReaddir.PaginationComplete` | AlloyStack/wasmtime_wasi_api/src/wasi.rs:497-569 | Calling again with that cookie ends, and delivers every entry from the first cookie on exactly once and in order, if each record fits the buffer |
| `WasiReaddir.SortByNameSorts` | AlloyStack/wasmtime_wasi_api/src/wasi.rs:497-508 | The entries are sorted by name and none is lost |
| `WasiReaddir.ListingIs` | AlloyStack/wasmtime_wasi_api/src/wasi.rs:497-508 | The listing is the directory and the two dot entries, sorted by name, none lost |
| `WasiReaddir.GuestSees` | AlloyStack/wasmtime_wasi_api/src/wasi.rs:542-567 | With the length word outside the buffer, the guest finds the page in its buffer and its length in the word |
| `WasiReaddir.ReadDirectory` | AlloyStack/wasmtime_wasi_api/src/wasi.rs:497-569 | The guest's loop over its own memory, from cookie 0, ends with every entry of the listing exactly once and in order |
| `WasiArgs.ArgsSizesGet` | AlloyStack/wasmtime_wasi_api/src/wasi.rs:126-138 | Writes the number of arguments and the bytes they take with their terminators as two 32-bit words, and nothing else |
| `WasiArgs.OffsetIs` | AlloyStack/wasmtime_wasi_api/src/wasi.rs:126-138 | The strings before argument `i` take their bytes and one terminator each |
| `Bytes.LittleEndianAt` | AlloyStack/wasmtime_wasi_api/src/wasi.rs:105-106 | Byte `i` of a written number is its digit of weight 256^i |
| `WasiArgs.ArgsGet` | AlloyStack/wasmtime_wasi_api/src/wasi.rs:83-112 | Given disjoint areas of those sizes: every pointer and every terminated argument is in place, and nothing outside the areas changes |
| `WasiArgs.CStringIff` | AlloyStack/wasmtime_wasi_api/src/wasi.rs:83-112 | A terminated string reads back as written exactly when it has no NUL byte |
| `WasiArgs.NulCutsArgument` | AlloyStack/wasmtime_wasi_api/src/wasi.rs:105-108 | An argument with a NUL inside is read back only up to it |
| `WasiArgs.ArgRoundTripIff` | AlloyStack/wasmtime_wasi_api/src/wasi.rs:83-112 | Following pointer `i` gives argument `i` back exactly when it has no NUL byte |
| `WasiRandom.RandomGet` | AlloyStack/wasmtime_wasi_api/src/wasi.rs:921-938 | Fills the buffer with the first bytes of the stream whose seed is the address of the buffer, and writes nothing else |
| `WasiRandom.StepIsExact` | AlloyStack/wasmtime_wasi_api/src/wasi.rs:924-932 | The wrapping 64-bit step is the exact step modulo 2^32 |
| `WasiRandom.DeliveredIs` | AlloyStack/wasmtime_wasi_api/src/wasi.rs:924-934 | The first byte is 13 times the seed plus 95, and every other byte 13 times the one before plus 95, modulo 256 |
| `WasiRandom.OnlyLowByteMatters` | AlloyStack/wasmtime_wasi_api/src/wasi.rs:921-934 | Seeds with the same low byte give the same bytes |
| `WasiRandom.ReturnsOnlyAfterPeriod` | AlloyStack/wasmtime_wasi_api/src/wasi.rs:921-934 | The exact iteration returns to its start modulo 2^k only after a multiple of 2^k steps |
| `WasiRandom.EqualBytesIff` | AlloyStack/wasmtime_wasi_api/src/wasi.rs:921-934 | Two positions of the stream hold the same byte exactly when they are a multiple of 256 apart |
| `WasiRandom.WindowIsPermutation` | AlloyStack/wasmtime_wasi_api/src/wasi.rs:921-934 | Any 256 consecutive bytes hold every byte value exactly once |

## Left out

- HeapMerge.Merge: requires a result buffer that is large enough, because the C++ code assumes it; the text reading before it and the fixed array sizes are not modelled.
- SorterInput.ParseText: white space is that of ASCII.
- Runner.Run: an app is a deterministic function of what it has read; panics, errors and missing slots are all failures, and loading, arguments and metrics are not modelled. Whether an access removes the slot is left open, and every theorem holds for both.
- SlotPrograms.OutcomeWhenPresent: allocates and fills one slot after the other, while the mapper allocates all its slots first; the final store is the same. Reallocating a slot replaces its value, and the type fingerprint of a slot is not modelled.
- WordCountWorkflow.WordCountRun: a mapper's file is a parameter, absent if it cannot be read; the reducers are as many as the argument says.
- WordCount.CountWords: letters, digits and white space are those of ASCII; the printed total is not modelled.
- WordHash.GetIdx: 64-bit and 32-bit additions wrap, as in a build without overflow checks; with overflow checks the same inputs stop the app.
- Fatfs.FileService.Open: may fail at any time, like every call of the FAT library, which is represented by what its calls may do: short reads, failures, and a seek that stops at the end of the file. The on-disk format, directories, locks and memory of the open files are not modelled.
- Fatfs.FileService.Write: says that some prefix is written, because the library may fail in the middle and the code hides it.
- LibOs.Kernel.AllocateSocket: a socket is a number that is new; what travels over it is arbitrary, and sockets are never freed, as in the code.
- LibOs.Kernel.Write: standard output is not modelled beyond accepting the bytes.
- LibOs.Kernel.Read: on a socket says only that the count fits the buffer.
- Paging.Pager.DoPageFault: is one atomic step; the event loop, the wake-up pipe and the registration of regions are not modelled.
- Paging.PagingRefinesFiles: no call of the run closes a mapped descriptor or writes a mapped file.
- StreamChunker.Chunker.Push: text is ASCII, so lengths in bytes and characters agree and no cut falls inside a character.
- StreamDedup.Normalize: lower case and white space are those of ASCII.
- WasiReaddir.FdReaddir: requires lengths below 2^31 and areas inside the memory, because the source reads the lengths as signed 32-bit numbers and stops on a failing write; what the file system lists and the padding bytes of a record are parameters.
- WasiReaddir.PaginationComplete: the directory does not change between calls.
- WasiArgs.ArgsGet: requires disjoint areas inside the memory, as the interface demands of the guest.
- The variants of the apps with fixed-capacity containers, the Python and C++ word counts, and the C++ text readers.
- Memory protection keys, dynamic loading, stack switching, the global isolation table, and raw pointers in buffers.
- The TCP stack, HTTP servers and middleware, client libraries, the remaining openfang crates, benchmarks and scripts.
- WASI functions that only return success, and all logging.
- SortWorkflow.MergerOutcome: a merger that finds an unsorted part counts as failed in the workflow; `SortRun` shows that this does not occur.
- WasiArgs.ArgsSizesGet: requires both words inside the memory, because the source stops on a failing write.
- WasiRandom.RandomGet: requires the buffer inside the memory, because the source stops on a failing write.
