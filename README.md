# CNStream framework core in Dafny

This project models the core of the CNStream stream-processing framework. It covers five parts:

- **DAG algorithms** (`DAGAlgorithm`): detecting heads and tails, Kahn's topological sort in waves, and the explicit-stack depth-first iterator. These are in `graph.dfy`. Their specifications and proofs are in `graph_spec.dfy` and `dfs_spec.dfy`.
- **Frames** (`CNFrameInfo`): the flag bits, the routing mask and the stream index. These are in `frame.dfy`.
- **Stream registries**: the two process-wide registries. The EOS registry maps a stream id to whether its EOS frame has been released. The removal registry maps a stream id to whether the stream is removed. This part also covers frame creation and destruction, which write the EOS registry. These are in `frame.dfy`.
- **Module dispatch** (`Module`): lazy id assignment, plus `DoProcess`, `DoTransmitData` and `TransmitData`. These are in `module.dfy`.
- **Module factory** (`ModuleFactory`): the name-to-creator registry and its singleton slot. These are in `factory.dfy`.

`common.dfy` holds shared helpers: `Option`, `Distinct`, `Increasing` and `Last`.

Code that changes state is modelled as classes:

- `DagAlgorithm` and `DfsIterator`; the visited vector is an `array<bool>`.
- `FrameInfo`.
- `StreamRegistries`, whose fields stand for the two static maps.
- `Module`.
- `ModuleFactory`, and `FactorySlot`, which stands for the static `factory_` member.

Each method is proved against a pure specification function, or states its new state outright. The properties the source promises are proved as lemmas about those functions:

- The topological split is a partition in which every edge between sorted vertices goes forward.
- The unsorted part is empty exactly when the graph is acyclic.
- A DFS yields each vertex reachable from its roots exactly once.
- The first registration of a type name wins.
- Registered names are listed in ascending order.
- OR-ing a flag leaves the other flags' tests alone.

Behaviours of the code that are easy to misread, kept as written:

- `DoTransmitData` clears the removal entry when the frame's **own** stream is marked removed (`framework/src/cnstream_module.cpp:88`).
- In self-transmitting mode, `DoProcess` sets only the REMOVED bit, never INVALID (`framework/src/cnstream_module.cpp:134-136`).
- `GetRegistered` iterates a `std::map`, so the names come out in ascending order (`framework/include/private/cnstream_module_pri.hpp:121-132`).
- DFS iterator equality compares the graph, the stack size and the top (`framework/src/cnstream_graph.cpp:124-128`).
- `SetContainer` with a pipeline keeps a module id that is already valid. Re-binding a module to another pipeline therefore keeps the old id (`framework/src/cnstream_module.cpp:39-60`).

## Model

| member | source | states |
|---|---|---|
| Graph.DagAlgorithm.GetHeads | framework/src/cnstream_graph.cpp:38-44 | ascending, each once; v is a head iff its in-degree is 0, iff no edge enters v |
| Graph.DagAlgorithm.GetTails | framework/src/cnstream_graph.cpp:46-52 | ascending, each once; v is a tail iff its adjacency list is empty |
| Graph.DagAlgorithm.TopoSort | framework/src/cnstream_graph.cpp:54-78 | the result is a topological split: sorted distinct, unsorted ascending, together a partition of the vertices, every predecessor of a sorted vertex sorted before it, every unsorted vertex with an unsorted predecessor |
| GraphSpec.InCountZero | framework/src/cnstream_graph.cpp:41 | a vertex's count of incoming edges from the remaining vertices is 0 iff none of them has an edge to it |
| GraphSpec.InCountRemove | framework/src/cnstream_graph.cpp:65-67 | removing a vertex lowers each successor's count by the number of edges to it, as the decrement loop does |
| GraphSpec.InitialTopoState | framework/src/cnstream_graph.cpp:56 | the copied in-degrees with nothing emitted satisfy the sort's loop invariant |
| Graph.DagAlgorithm.RemoveVertex | framework/src/cnstream_graph.cpp:65-68 | each successor's working in-degree drops by the number of edges to it, the removed vertex becomes -1, and nothing else changes |
| GraphSpec.EmitKeepsTopoState | framework/src/cnstream_graph.cpp:62-69 | emitting a vertex of working in-degree 0, decrementing its successors and marking it -1 keeps the invariant |
| GraphSpec.FinishTopoSplit | framework/src/cnstream_graph.cpp:59-76 | when a wave emits nothing, the vertices not marked -1, collected in order, complete a topological split |
| GraphSpec.SplitPartition | framework/src/cnstream_graph.cpp:54-78 | sorted ++ unsorted lists every vertex exactly once |
| GraphSpec.UnsortedForward | framework/src/cnstream_graph.cpp:59-76 | every path that starts at an unsorted vertex stays unsorted |
| GraphSpec.SortedBackward | framework/src/cnstream_graph.cpp:59-76 | the start of a path that ends at a sorted vertex is sorted earlier |
| GraphSpec.CycleUnsorted | framework/src/cnstream_graph.cpp:59-76 | every vertex of a cycle is left unsorted |
| GraphSpec.BackChain | framework/src/cnstream_graph.cpp:59-76 | from any unsorted vertex a path of any length can be walked backwards through unsorted vertices |
| GraphSpec.AcyclicSortsAll | framework/src/cnstream_graph.cpp:59-76 | on an acyclic graph nothing is left unsorted |
| GraphSpec.UnsortedEmptyIffAcyclic | framework/src/cnstream_graph.cpp:54-78 | the unsorted part is empty iff the graph has no cycle |
| Graph.DagAlgorithm.DFSBegin | framework/src/cnstream_graph.cpp:83-91 | the stack holds the heads in ascending order and only the top head is visited; the iterator invariant holds with the heads as roots |
| Graph.DagAlgorithm.DFSBeginFrom | framework/src/cnstream_graph.cpp:93-100 | an out-of-range vertex gives the end iterator; otherwise the stack is [vertex] and only it is visited |
| Graph.DagAlgorithm.DFSEnd | framework/src/cnstream_graph.cpp:94 | the end iterator: a fresh iterator over the same graph with an empty stack and no visited slots, satisfying the iterator invariant |
| Graph.DfsIterator.Next | framework/src/cnstream_graph.cpp:102-122 | the new stack and visited vector are Advance of the old ones; an empty iterator stays empty; the iterator invariant is kept |
| Graph.DfsIterator.Equals | framework/src/cnstream_graph.cpp:124-128 | against the end iterator of the same graph, equal iff the stack is empty; equal implies same graph, same size and same top |
| DfsSpec.FirstUnvisited | framework/src/cnstream_graph.cpp:107-111 | the index of the first unvisited successor, or the list's length; every successor before it is visited |
| DfsSpec.Unwind | framework/src/cnstream_graph.cpp:103-118 | the loop of operator++ as a function of stack and visited vector; its result is again a stack of vertices over the same vector (what it keeps and pushes is UnwindCases) |
| DfsSpec.Advance | framework/src/cnstream_graph.cpp:102-121 | one operator++: Unwind, then mark the new top visited; the result is again a well-shaped state (its effect is AdvanceMarksOne and AdvancePushesOrPops) |
| DfsSpec.UnwindCases | framework/src/cnstream_graph.cpp:103-118 | the unwound stack is a prefix of the old one whose top is unvisited or that is empty, or that prefix plus one unvisited successor of its top; every popped vertex is fully explored |
| DfsSpec.AdvanceMarksOne | framework/src/cnstream_graph.cpp:119-120 | one step marks exactly the new top, which was unvisited, and never unmarks a vertex |
| DfsSpec.AdvancePushesOrPops | framework/src/cnstream_graph.cpp:102-122 | one step pops explored vertices and pushes at most one unvisited successor |
| DfsSpec.AdvanceKeepsInvariant | framework/src/cnstream_graph.cpp:102-122 | a step keeps the traversal invariant: visited vertices off the stack have all successors visited, the roots are visited or stacked, and everything visited or stacked is reachable from the roots |
| DfsSpec.StartInvariant | framework/src/cnstream_graph.cpp:83-100 | a start stack whose top alone is visited satisfies the invariant with the stacked vertices as roots |
| DfsSpec.Exhaust | framework/src/cnstream_graph.cpp:102-122 | running the iterator to the end yields distinct, previously unvisited vertices, and exactly those become visited |
| DfsSpec.ExhaustKeepsInvariant | framework/src/cnstream_graph.cpp:102-122 | the invariant holds when the stack has emptied |
| DfsSpec.ExhaustedReachesAll | framework/src/cnstream_graph.cpp:102-122 | with the stack empty, a vertex is visited iff it is reachable from the roots |
| DfsSpec.TraversalVisitsReachable | framework/src/cnstream_graph.cpp:83-122 | the start vertex followed by every vertex the iterator yields lists each vertex reachable from the roots exactly once, and nothing else |
| Frame.FlagValue | framework/include/cnstream_frame.hpp:49-53 | EOS, INVALID and REMOVED are the single bits 1<<0, 1<<1 and 1<<2 |
| Frame.HasFlag | framework/include/cnstream_frame.hpp:98-116 | IsEos / IsInvalid / IsRemoved hold iff bit 0 / 1 / 2 of flags is set |
| Frame.SetFlag | framework/src/cnstream_frame.cpp:115 | OR-ing a flag in sets its test and leaves every other bit unchanged |
| Frame.SetFlagKeepsOthers | framework/include/cnstream_frame.hpp:49-53 | OR-ing one flag never changes the test of a different flag |
| Frame.WithModuleBit | framework/src/cnstream_frame.cpp:159-163 | after marking module id, bit id of the mask is set |
| Frame.WithModuleBitKeepsOthers | framework/src/cnstream_frame.cpp:161 | marking module id leaves every other bit of the mask unchanged |
| Frame.WithModuleBitIdempotent | framework/src/cnstream_frame.cpp:161 | marking the same module twice equals marking it once |
| Frame.FrameInfo.constructor | framework/include/cnstream_frame.hpp:144-168 | a fresh frame: empty id, timestamp -1, flags 0, no parent, stream index kInvalidStreamIdx, mask 0 |
| Frame.FrameInfo.SetStreamIndex | framework/include/cnstream_frame.hpp:130 | only the stream index changes, to the value given |
| Frame.FrameInfo.GetStreamIndex | framework/include/cnstream_frame.hpp:142 | returns the stored stream index |
| Frame.FrameInfo.SetModulesMask | framework/src/cnstream_frame.cpp:147-150 | only the routing mask changes, to the value given |
| Frame.FrameInfo.GetModulesMask | framework/src/cnstream_frame.cpp:152-156 | returns the stored routing mask |
| Frame.FrameInfo.MarkPassed | framework/src/cnstream_frame.cpp:159-163 | only the mask changes, to the old mask with the module's bit set; the new mask is returned |
| Frame.PollEos | framework/src/cnstream_frame.cpp:43-54 | one poll: absent iff no entry, pending iff the entry is false, reached iff it is true, and only a reached entry is erased |
| Frame.CheckEos | framework/src/cnstream_frame.cpp:57-67 | true iff the entry exists and is true, in which case exactly that entry is erased; otherwise the registry is unchanged |
| Frame.CheckEosOnce | framework/src/cnstream_frame.cpp:57-67 | after a successful check a second check reports false |
| Frame.CreateEffect | framework/src/cnstream_frame.cpp:114-121 | a parentless EOS frame puts its stream in the EOS registry as pending (false); any other frame leaves the registry unchanged; other streams are untouched |
| Frame.DestroyEffect | framework/src/cnstream_frame.cpp:127-135 | destroying a parentless EOS frame sets its stream's entry to reached (true); any other frame leaves the registry unchanged; other streams are untouched |
| Frame.EosHandshake | framework/src/cnstream_frame.cpp:114-135 | after creating a parentless EOS frame the stream is pending; after destroying it a check succeeds once, restores the registry without the id, and a second check fails |
| Frame.SetRemoved | framework/src/cnstream_frame.cpp:75-88 | the stream reads removed iff value; an existing entry set to false is erased, an absent one is inserted with value; other streams are untouched |
| Frame.StreamRegistries.PollStreamEos | framework/src/cnstream_frame.cpp:43-54 | one iteration of the synchronous loop, as PollEos |
| Frame.StreamRegistries.CheckStreamEosReached | framework/src/cnstream_frame.cpp:38-68 | both modes give CheckEos of the EOS registry; the removal registry is untouched |
| Frame.StreamRegistries.SetStreamRemoved | framework/src/cnstream_frame.cpp:75-88 | the removal registry becomes SetRemoved of the old one |
| Frame.StreamRegistries.IsStreamRemoved | framework/src/cnstream_frame.cpp:91-99 | true iff the stream has an entry and it is true |
| Frame.Create | framework/src/cnstream_frame.cpp:101-124 | null iff the id is empty or allocation fails; otherwise a fresh frame with the id, the parent and the EOS bit when asked, and a parentless EOS frame registers its stream as pending |
| Frame.Destroy | framework/src/cnstream_frame.cpp:127-135 | a parentless EOS frame marks its stream reached; nothing else changes |
| ModuleDispatch.MarkedRemoved | framework/src/cnstream_module.cpp:111-118 | the stream counts as removed iff it or its parent's stream is marked removed; no other stream's entry changes |
| ModuleDispatch.ClearedOnEos | framework/src/cnstream_module.cpp:88-92 | for an EOS frame with a parent, the stream ends not removed, and its entry is erased if it was removed; other frames leave the registry as it was |
| ModuleDispatch.CheckRemoved | framework/src/cnstream_module.cpp:111-118 | the registry becomes MarkedRemoved and the result is whether the stream is now marked removed |
| ModuleDispatch.Module.GetId | framework/src/cnstream_module.cpp:53-60 | a valid id is kept; an invalid one is replaced by the pipeline's draw when a pipeline is bound |
| ModuleDispatch.Module.SetContainer | framework/src/cnstream_module.cpp:39-51 | binding stores the pipeline and draws an id only if none is valid; unbinding resets the id to invalid |
| ModuleDispatch.Module.DoTransmitData | framework/src/cnstream_module.cpp:87-103 | the removal registry becomes ClearedOnEos; with a pipeline ProvideData's result is returned; without one 0 is returned and the observer is notified only in self-transmitting mode |
| ModuleDispatch.Module.DoProcess | framework/src/cnstream_module.cpp:110-140 | pipeline-routed: a non-EOS frame of a live stream runs Process and a non-zero result is returned without transmitting; a removed one skips Process and is transmitted; an EOS frame runs OnEos and is transmitted. Self-transmitting: a removed frame gets only the REMOVED bit and Process's result is returned |
| ModuleDispatch.Module.TransmitData | framework/src/cnstream_module.cpp:143-151 | pipeline-routed: true, with registry and trace unchanged; self-transmitting: true iff DoTransmitData returned 0, the removal registry becomes ClearedOnEos, and the trace gains ProvideData (with a pipeline) or NotifyObserver (without) |
| Factory.LexIrreflexive | framework/include/private/cnstream_module_pri.hpp:132 | no name orders before itself in the map's key order |
| Factory.LexTransitive | framework/include/private/cnstream_module_pri.hpp:132 | the key order is transitive |
| Factory.LexTotal | framework/include/private/cnstream_module_pri.hpp:132 | two names differ iff one orders before the other, and never both ways |
| Factory.LeastExists | framework/include/private/cnstream_module_pri.hpp:123-125 | a non-empty set of names has a least one, the next name map iteration visits |
| Factory.Registrations | framework/include/private/cnstream_module_pri.hpp:86-95 | the registry after a run of Register calls in order; every name held before stays, bound to the same creator |
| Factory.RegistrationsKeep | framework/include/private/cnstream_module_pri.hpp:86-95 | after a run of registrations the names held are exactly those held before plus those offered with a non-null creator |
| Factory.FirstRegistrationWins | framework/include/private/cnstream_module_pri.hpp:86-95 | a name absent at the start ends up bound to the creator of the first non-null call that offers it; later offers do not replace it |
| Factory.ModuleFactory.Register | framework/include/private/cnstream_module_pri.hpp:86-95 | true iff the creator is non-null and the name was absent, in which case exactly that entry is added; otherwise the registry is unchanged |
| Factory.ModuleFactory.Create | framework/include/private/cnstream_module_pri.hpp:105-112 | null for an unregistered name; otherwise the registered creator applied to the instance name |
| Factory.ModuleFactory.GetRegistered | framework/include/private/cnstream_module_pri.hpp:121-127 | every registered name exactly once, in strictly ascending order, and nothing else |
| Factory.FactorySlot.Instance | framework/include/private/cnstream_module_pri.hpp:61-67 | the first call creates an empty factory, and every later call returns that same object |

## Left out

- All locking is left out: the reader-writer locks, mutexes and atomics (`framework/include/util/cnstream_rwlock.hpp`). Each operation they guard is one atomic sequential step, and thread interleavings are not modelled.
- Frame.StreamRegistries.CheckStreamEosReached: the synchronous mode on a pending entry is excluded by its precondition. There, the original sleeps 20 ms and polls until another thread destroys the EOS frame, which a sequential model cannot express. `PollStreamEos` models one iteration of that loop, including the pending outcome.
- `IdxManager` and `Pipeline::GetModuleIdx` are not part of this model. The id a pipeline hands out is the `drawn` parameter of `GetId` and `SetContainer`.
- `ModuleCreator`'s RTTI-based registration is left out. Type names are explicit strings.
- Module collaborators are left out: `Process`, `OnEos`, `Pipeline::ProvideData`, `NotifyObserver`, `PostEvent` and the profilers. Their results are parameters (`processRet`, `provideRet`). The calls `DoProcess` and `DoTransmitData` make are recorded in a ghost `trace` of the module.
- `shared_ptr` reference counting and the `Collection` payload are left out. A frame's release is the explicit `Destroy` method.
- Module type names are modelled as character sequences (`string`), ordered by code point. The map orders `std::string` keys by unsigned byte, which gives the same order on UTF-8 names. Byte strings that are not valid UTF-8 are not modelled.
- Creators registered in the factory are modelled as pure functions from instance name to module (`Creator`). A Dafny function cannot allocate, so two `Create` calls with the same names give the same object, while `ModuleCreator<T>::CreateObject` allocates a new module on each call. Fresh allocation per `Create` call is not captured.
- Logging is left out.
- Allocation failure in `CNFrameInfo::Create` is the `outOfMemory` parameter. Allocation failure in `ModuleFactory::Instance` ends the process through `LOGF_IF` and is not modelled.
- Frame.FrameInfo.MarkPassed takes the module's id rather than the module. Calling `GetId()` is modelled separately. The id must be below 64, because a wider shift is undefined in the original.
- The constants `kInvalidStreamIdx` and `kInvalidModuleId` live in `cnstream_common.hpp`, which is not part of this model. `kInvalidStreamIdx` is taken to be the all-ones 32-bit value. An invalid module id is `None`, and valid module ids are 64-bit words.
- `cnstream_graph.hpp` is not part of this model. `GetIndegree` is taken to be the cached `indegrees_[v]`, which Valid requires to equal the number of incoming edges. `GetOutdegree` is taken to be the length of the adjacency list. `DFSEnd` is taken to be an iterator over the same graph with an empty stack and an empty visited vector.
- The DFS iterator's dereference operator (the top of the stack) is not modelled separately. It is `Last(stack)`.
- Graph.DagAlgorithm.TopoSort: `sorted` is proved to be a topological order of the vertices it holds. The exact wave-by-wave index order in which Kahn's loop emits them is not stated.
