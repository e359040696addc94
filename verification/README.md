# Plumber, modelled in Dafny

Plumber is a dataflow middleware: servlets are the nodes of a service graph, pipes its edges, and a
scheduler turns every incoming request into tasks. This project models the algorithms and state
machines of its kernel and libraries whose correctness cannot be seen from one function, and proves
what they promise. `dafny verify dfyconfig.toml` checks everything.

The parts, and the main result of each:

- **Service graph and critical nodes** (`ServiceGraph`, `ServiceCheck`, `Bitmap`, `CriticalNode`,
  `Cancellation`). The two flip searches leave exactly the least set closed under cancellation in the
  bitmap; the analysis records a boundary exactly for the critical nodes; and any two complete runs of
  a request, one using recorded boundaries and one cancelling node by node, execute the same tasks.
  The graph check that precedes all this is shown to accept some cyclic services, with the exact
  condition.
- **Copy-on-write register frames and script objects** (`FrameRange`, `FrameTree`, `FrameRelease`,
  `ScriptObjects`, `Reclamation`, `FrameStore`). Frames share tree nodes, nodes and dictionaries hold
  objects, closures own frames. Reference counts of nodes and objects are exact at all times, a write
  changes one register of one frame, and giving up a reference frees, through all that this entails,
  exactly the least set of nodes and objects all of whose references come from the set or are given up.
  A write touches freed memory exactly when the new value is in the set that dropping the old value
  frees. Where references run in no circle, nothing is left in the end.
- **Event queue** (`EventQueue`, `QueueProtocol`). All interleavings of a producer and a consumer
  with wrapping 32-bit counters keep first-in-first-out order and lose no wake-up of the producer.
- **Pipe handles** (`CompanionRing`, `PipeTable`). The companion lists stay rings, every resource is
  purged once with the disjunction of all errors, every handle is notified at most once.
- **Protocol types** (`ProtoType`, `TypeLayout`, `TypeMetadata`, `Subscripts`, `NameResolution`,
  `NameLaws`, `NameOffset`, `NameExpr`, `NameGrammar`, `NameDump`). Padding decided before sizes are
  known is right for all sizes, and no more than needed; the memoised size computation succeeds exactly
  on sound types and agrees with plain recursion; what names stand for obeys laws that determine it,
  and the lookup gives exactly that: the marks on aliases stop circular aliases and nothing else;
  different subscripts and different fields share nothing; names survive printing and parsing, and
  dumping and loading; and it is stated exactly how far the parser keeps to its grammar.
- **Indexes and caches** (`PathIndex`, `Primes`, `HashDict`, `LruList`, `CacheEviction`, `FileCache`).
  The character-wise search finds exactly the paths in the table, for all keys, iff no two paths first
  differ in a byte below and a byte above 127; the dictionary refines a map through all its
  promotions; the file cache keeps exact books while other threads close handles in the
  middle of an open, its list is in the order of the last uses after every run, and what an open
  drops, keeps and answers is determined.
- **Codecs** (`PositionalNumbers`, `Bsr64`, `Bytecode`). Both directions of the 6-bit text codec
  change the base of one number, so they are inverse; bytecode modules come back from their dump
  exactly when no segment has too many arguments.

`Wrappers`, `FiniteSets`, `Sequences`, `Remainders` and `PowersOfTwo` hold the definitions and facts that several parts share.

Where the code does not do what its documentation or its callers would expect, the model follows the code:

- `include/sched/cnode.h` looks for nodes with an in-degree of one; `src/sched/cnode.c` looks for nodes
  all of whose inputs come from one node. `InDegreeOneIsTooStrict` shows that they differ.
- The graph check of `src/sched/service.c` only warns about nodes without inputs but counts them
  against the nodes still to be visited, so it accepts cyclic services that have such nodes
  (`LoopIsAccepted`, `SoundExactlyWithoutOrphans`).
- A queue size above 2^31 is rounded up to zero (`QueueSize`); such a queue accepts nothing
  (`OversizedQueueAcceptsNothing`).
- A fork whose module callback fails leaves a link to the freed handle in the ring (`PipeTable.Table.Fork`).
- The name parser takes any character after `[` for a digit, any character after `]` for a dot, any
  character in a word, `0x` without digits, and numerals beyond 32 bits (`AcceptedButNoName` is the
  exact condition), and it reads past the end of a text that ends with `[` (`PastEndIffOpenBracket`).
- The module table is sorted by unsigned and searched by signed characters, so it may hold paths that
  cannot be found (`SearchableIffNotMixed`); and a 256th module is written past its end (`PathIndex.Table.Insert`).
- A register or a dictionary entry gives up its old value before it takes the new one, so it may take a
  reference in freed memory (`FrameStore.Store.Set`, `DictSet`): when it alone holds the same object
  (`SelfOverwriteHappens`, `EntryOverwriteHappens`), when it alone holds the dictionary that alone holds
  the new value (`GetIntoItselfHappens`), and so on. A dictionary may even free itself while one of its
  entries is written (`DictionaryFreesItself`).
- A segment with more than 256 arguments is dumped but not loaded; if it is not the first one, the
  cleanup frees the first segment over and over (`ModuleBack`).
- The text codec counts the room in its buffer for blocks of 48 bits only (`FromBin`), although its
  description promises a refusal whenever the buffer is too small.

## Model

| member | source | states |
|---|---|---|
| ServiceGraph.EdgeSeenFromBothEnds | src/sched/service.c:532-560 | an edge filed at its source is the one filed at its destination: the two pipe lists describe one graph |
| ServiceGraph.FlowTotal | src/sched/service.c:532-560 | the pipes from all nodes into a node are exactly as many as its input pipes |
| ServiceGraph.NoEndlessRetreat | include/sched/cnode.h:6-43 | in an acyclic graph no non-empty set of nodes contains a predecessor of each of its members |
| ServiceCheck.InitialCounts | src/sched/service.c:248-290 | the pending counters start as in-degrees, and the orphans are counted |
| ServiceCheck.Release | src/sched/service.c:248-290 | visiting a node lowers the counter of every receiver by the number of pipes between them |
| ServiceCheck.Peel | src/sched/service.c:248-290 | the visited nodes form an order in which every node follows all its predecessors |
| ServiceCheck.PathsIntoPeeledNodes | src/sched/service.c:248-290 | a path into a visited node stays among the nodes visited before and never repeats |
| ServiceCheck.StuckIsBlocked | src/sched/service.c:248-290 | when nothing more can be visited, all nodes left lie on a cycle or downstream of one |
| ServiceCheck.CheckServiceGraph | src/sched/service.c:248-290 | the check accepts iff the ends are free and there are at least as many orphans as nodes on or after a cycle |
| ServiceCheck.BlockedIffCyclic | src/sched/service.c:248-290 | no node is on or after a cycle iff the service is acyclic |
| ServiceCheck.AcceptedWithoutOrphans | src/sched/service.c:248-290 | acyclic services are accepted; without orphans, acceptance is equivalent to being acyclic with every node reachable |
| ServiceCheck.LoopIsAccepted | src/sched/service.c:248-290 | for every positive number of orphans a cyclic service that is accepted |
| ServiceCheck.SoundExactlyWithoutOrphans | src/sched/service.c:248-290 | acceptance implies acyclicity for the services with k orphans iff k is zero |
| Bitmap.BitSet.Get | src/sched/cnode.c:30-46 | reading a bit tells membership in the set that the words stand for |
| Bitmap.BitSet.Flip | src/sched/cnode.c:30-46 | flipping a bit moves exactly one member in or out of the set |
| Bitmap.BitSet.Clear | src/sched/cnode.c:128-138 | clearing the words leaves the empty set |
| CriticalNode.StackHasRoom | src/sched/cnode.c:60-118 | a newly discovered node always fits on the stack of one entry per node |
| CriticalNode.SearchComplete | src/sched/cnode.c:60-118 | when the stack is empty, the discovered nodes are exactly those reachable without the removed node |
| CriticalNode.Visit | src/sched/cnode.c:60-118 | discovering a node flips it, marks it and stacks it, once |
| CriticalNode.Expand | src/sched/cnode.c:60-118 | all receivers of a node except the removed one are discovered |
| CriticalNode.DrainStack | src/sched/cnode.c:60-118 | emptying the stack ends with the reachable nodes flipped |
| CriticalNode.ServiceDfs | src/sched/cnode.c:60-118 | the search replaces the bitmap by its symmetric difference with the nodes reachable without the removed one |
| CriticalNode.BoundaryNew | src/sched/cnode.c:128-185 | the boundary lists the pipes that leave the cluster, in node and pipe order, and tells whether the output is in it |
| CriticalNode.BoundaryMembers | src/sched/cnode.c:128-185 | a destination is listed iff some pipe of the cluster ends there outside it |
| CriticalNode.BoundaryCount | src/sched/cnode.c:128-185 | a node outside the cluster is listed once per pipe that it receives from the cluster |
| CriticalNode.CollectNode | src/sched/cnode.c:128-185 | one node adds its pipes that leave the cluster, in order |
| CriticalNode.SameSource | src/sched/cnode.c:187-242 | the loop decides whether one node feeds all inputs |
| CriticalNode.Analyze | src/sched/cnode.c:187-242 | a boundary is recorded for exactly the sole feeders, and on acyclic reachable services exactly for the critical nodes |
| CriticalNode.ClusterIsLeast | include/sched/task.h:169-176 | the cluster is the least set that contains the node and every node all of whose inputs come from the set |
| CriticalNode.CriticalIffSoleFeeder | include/sched/cnode.h:6-43 | removing a node makes another one unreachable iff it feeds all inputs of some node |
| CriticalNode.HeaderTestIsRight | include/sched/cnode.h:6-43 | the in-degree-one test of the header finds only critical nodes, and all of them iff every sole feeder also feeds some node by a single pipe |
| CriticalNode.HeaderTestWithSinglePipes | include/sched/cnode.h:6-43 | the test of the header agrees with criticality where no two pipes join the same nodes |
| CriticalNode.InDegreeOneIsTooStrict | include/sched/cnode.h:6-43 | a critical node that the test of the header misses |
| CriticalNode.InDegreeOneIsEnough | include/sched/cnode.h:6-43 | a critical node that the test of the header finds |
| Cancellation.Prepare | src/sched/service.c:567-575 | the analysis done when a service is built gives only boundaries that a request may use, and none for the output |
| Cancellation.SelectionsExist | src/sched/task.c:654-663 | a task may leave none of its pipes untouched, or all |
| Cancellation.ExecuteKeepsInv | src/sched/task.c:654-663 | executing a ready task keeps the pending and cancelled counters of all tasks exact |
| Cancellation.CancelKeepsInv | src/sched/task.c:696-793 | cancelling a task, by boundary or one by one, keeps the counters exact and kills a cluster none of whose members has started |
| Cancellation.RunsKeepInv | src/sched/task.c:696-793 | the counters are exact after every run |
| Cancellation.RunsAreBounded | src/sched/task.c:696-793 | a run has at most one event per node |
| Cancellation.CompleteRunsMeetFate | src/sched/task.c:696-793 | a complete run leaves no task undecided and kills exactly the nodes all of whose inputs died |
| Cancellation.RunExecutes | src/sched/task.c:696-793 | a complete run executes exactly the nodes without inputs and those into which some executed node has used a pipe |
| Cancellation.FateIsUnique | include/sched/task.h:169-176 | only one set of nodes fits that description |
| Cancellation.BoundariesChangeNothing | src/sched/task.c:696-793 | two complete runs of one request execute the same tasks, whatever boundaries each of them uses |
| Cancellation.ReceiversAreCreated | src/sched/task.c:696-710 | a task exists for every receiver of a node that was executed or cancelled pipe by pipe, and for every destination of a boundary that was cancelled |
| Cancellation.CasualtiesHaveNoTasks | src/sched/task.c:752-772 | when a task is cancelled, no other member of its cluster has a task that would be left behind, except the output, and the task of the output is found |
| FrameRange.HalvesArePerfect | lib/pss/frame.c:163-197 | the halves of a perfect range are perfect, and its middle is odd iff it has more than one register |
| FrameRange.RangesArePerfect | lib/pss/frame.c:63-154 | every range that a search reaches is a perfect subtree of the remaining height |
| FrameRange.RangeStep | lib/pss/frame.c:63-154 | the parity of the middle tells whether the range has children, and the search never leaves the range of its register |
| FrameTree.AddChildrenKeepsValues | lib/pss/frame.c:88-145 | giving a node empty children changes no register |
| FrameTree.UnshareKeepsInv | lib/pss/frame.c:88-145 | replacing a shared node by a private copy keeps shape and exact reference counts |
| FrameTree.UnshareKeepsValues | lib/pss/frame.c:88-145 | replacing a shared node by a private copy changes no register seen from anywhere |
| FrameTree.PrivatePathIsUnique | lib/pss/frame.c:88-145 | a node reached through references of count one is reached from one frame by one search only |
| FrameTree.PrivateWrite | lib/pss/frame.c:147-151 | a write at the end of a private path changes one register of one frame |
| FrameRelease.RemoveKeepsInv | lib/pss/frame.c:163-197 | freeing a node with one reference keeps the counts exact, its children's references being loose |
| FrameRelease.NoFramesNoNodes | lib/pss/frame.c:212-221 | without frames no node is allocated |
| ScriptObjects.ValueSwapped | lib/pss/frame.c:147-151 | the value of a node changes place with a reference kept outside, and all object counts stay exact |
| Reclamation.DeadIsLeastClosed | lib/pss/value.c:94-110 | the cells that die are the least set that has every referenced cell all of whose references come from the set or are given up |
| Reclamation.NodeIsDue | lib/pss/frame.c:163-197 | with exact counts, a node whose last reference is dropped has lost all others to cells freed before |
| Reclamation.ObjectIsDue | lib/pss/value.c:94-110 | the same for an object |
| Reclamation.AllReleased | lib/pss/value.c:94-110 | when no reference is pending any more, exactly the cells that die are gone |
| Reclamation.GrewDead | lib/pss/frame.c:88-145 | the empty nodes that a write adds change nothing of what dies |
| Reclamation.LastReferenceDies | lib/pss/value.c:94-110 | an object dies when its only reference is given up |
| Reclamation.LastEntryDies | lib/pss/dict.c:82-97 | an object dies when its only reference is in a dictionary that dies |
| Reclamation.PlainDiesAlone | lib/pss/value.c:94-110 | an object that holds nothing takes nothing with it |
| Reclamation.NoCyclesNoLeaks | lib/pss/value.c:86-110 | if only closures own frames, nothing is referred to from outside, every object is referred to and references run in no circle, then nothing is left |
| Reclamation.ReferenceIs | lib/pss/value.c:94-110 | what counts as a reference: child pointers and values of nodes, entries of dictionaries, roots of the frames of closures |
| FrameStore.Store.NewObject | lib/pss/value.c:51-76 | a new object differs from all live ones, holds nothing and starts without references |
| FrameStore.Store.NewClosure | lib/pss/closure.c:31-59 | a new closure owns a frame of its own with the registers of the frame it copies |
| FrameStore.Store.ValueDecref | lib/pss/value.c:94-110 | a reference is given up; if it was the last, the object goes with all that this frees |
| FrameStore.Store.FreeObject | lib/pss/value.c:94-110 | a freed object gives up its entries or its frame, and the counts of all that is left stay exact |
| FrameStore.Store.FreeEntries | lib/pss/dict.c:250-274 | every value of a freed dictionary is given up once |
| FrameStore.Store.GiveUp | lib/pss/value.c:94-110 | giving up one reference frees exactly the cells that die of it |
| FrameStore.Store.NewFrame | lib/pss/frame.c:199-210 | a new frame is empty or agrees with the frame it shares, and no other frame changes |
| FrameStore.Store.TreeDecref | lib/pss/frame.c:163-197 | dropping a reference to a tree keeps all counts exact and frees only cells that have lost all their references |
| FrameStore.Store.FreeNode | lib/pss/frame.c:163-197 | freeing a node gives up its value once and its references to both children |
| FrameStore.Store.FreeFrame | lib/pss/frame.c:212-221 | exactly the nodes and objects go that die of it; the other frames keep all registers; after the last frame the heap is empty |
| FrameStore.Store.Get | lib/pss/frame.c:223-239 | the search returns the register's value, the undefined value or an error as specified by the tree |
| FrameStore.Store.EnsureRoot | lib/pss/frame.c:88-145 | a frame without a root gets one and no register changes |
| FrameStore.Store.GrowChildren | lib/pss/frame.c:88-145 | missing children are added in pairs and no register changes |
| FrameStore.Store.CopyNode | lib/pss/frame.c:88-145 | a shared node is replaced by a copy with one reference; value, children and parent are accounted for |
| FrameStore.Store.PrepareNode | lib/pss/frame.c:88-145 | the node passed by a write has children if it is not a leaf and one reference |
| FrameStore.Store.CowPath | lib/pss/frame.c:88-145 | the path to a register becomes private without changing any register of any frame |
| FrameStore.Store.Overwrite | lib/pss/frame.c:147-151 | the value is replaced and exactly the cells go that die of it; it fails iff the new value is among them |
| FrameStore.Store.Set | lib/pss/frame.c:241-254 | exactly one register of one frame changes and exactly the objects that die of dropping the old value go; freed memory is touched iff the new value is among them |
| FrameStore.Store.Move | lib/pss/frame.c:256-264 | the target register gets the source's value, everything else as for a write of that value |
| FrameStore.Store.DictSet | lib/pss/dict.c:297-316 | the entry gets the value, no register changes and exactly the cells that die of dropping the old value go; freed memory is touched iff the new value or the dictionary is among them |
| FrameStore.FreedWithRegister | lib/pss/frame.c:147-151 | a write frees what the register alone holds, and what a dictionary alone holds that the register alone holds |
| FrameStore.SelfOverwriteHappens | lib/pss/frame.c:147-151 | a consistent state in which writing the object that a register holds touches freed memory |
| FrameStore.GetIntoItselfHappens | lib/pss/vm.c:386-391 | a consistent state in which reading an entry into the register that holds the dictionary does so |
| FrameStore.EntryOverwriteHappens | lib/pss/dict.c:305-313 | a consistent state in which writing the object that an entry holds does so |
| FrameStore.DictionaryFreesItself | lib/pss/dict.c:305-313 | a consistent state in which writing an entry frees the dictionary |
| EventQueue.QueueSize | src/itc/equeue.c:214-222 | sizes up to 2^31 are rounded up to the least power of two, larger ones to zero |
| EventQueue.SlotsDiffer | src/itc/equeue.c:325-357 | counters less than a queue size apart use different slots |
| QueueProtocol.StepKeepsInv | src/itc/equeue.c:298-379 | every step of either thread keeps ring contents, mutex ownership and wake-up obligations in order |
| QueueProtocol.RunsKeepInv | src/itc/equeue.c:298-379 | the same after every interleaving |
| QueueProtocol.PowersFit | src/itc/equeue.c:214-222 | every size that is a power of two of at most 32 bits can be used |
| QueueProtocol.FirstInFirstOut | src/itc/equeue.c:381-437 | what was delivered is a prefix of what was put, and the ring holds the rest, also when counters wrap |
| QueueProtocol.NoLostWakeUp | src/itc/equeue.c:325-349 | a producer that waits on a queue that is not full is about to be signalled |
| QueueProtocol.SignalArrives | src/itc/equeue.c:414-434 | the consumer's own steps lead to that signal |
| QueueProtocol.PutAlone | src/itc/equeue.c:298-370 | a put into a queue that is not full stores its event last and is done |
| QueueProtocol.PutWaits | src/itc/equeue.c:321-333 | a put into a full queue ends up waiting with the mutex released and nothing stored |
| QueueProtocol.WokenPut | src/itc/equeue.c:325-357 | a put that has been woken up and finds room stores its event and leaves the mutex free |
| QueueProtocol.TimedWait | src/itc/equeue.c:325-333 | a waiting put may wake up by itself and then only competes for the mutex again |
| QueueProtocol.KilledPut | src/itc/equeue.c:334-340 | a put whose thread is killed while it waits drops its event and leaves the mutex free |
| QueueProtocol.TakeAlone | src/itc/equeue.c:381-437 | a take delivers the next events, the lesser of how many there are and how many it has room for, and goes on to signal iff the queue was full |
| QueueProtocol.SignalAlone | src/itc/equeue.c:421-434 | the signal wakes a waiting put and leaves the mutex free |
| QueueProtocol.OversizedQueueAcceptsNothing | src/itc/equeue.c:214-222 | with a size of zero no event is ever accepted |
| CompanionRing.InsertSecond | src/itc/module.c:1371-1424 | linking a handle after another one inserts it at the second place of the ring |
| CompanionRing.RemoveFirst | src/itc/module.c:415-500 | unlinking a handle leaves the ring of the others |
| CompanionRing.RotatedRing | src/itc/module.c:415-500 | a ring is a ring from each of its members |
| PipeTable.Table.AllocateOne | src/itc/module.c:250-312 | a single handle is a ring of its own with a resource of its own |
| PipeTable.Table.AllocatePair | src/itc/module.c:826-882 | the two ends form a ring of two with a resource of their own |
| PipeTable.Table.UpdateSharedFlags | src/itc/module.c:174-182 | all companions get the flags, nobody else changes |
| PipeTable.Table.NotifyCancelled | src/itc/module.c:149-167 | all companions are marked, and those not marked before are notified |
| PipeTable.Table.SetError | src/itc/module.c:1451-1458 | the error belongs to the resource from then on |
| PipeTable.Table.SetOwner | src/sched/task.c:497-503 | a task that becomes the owner of a handle changes nothing else |
| PipeTable.Table.Written | src/itc/module.c:585-592 | a failed write is an error of the resource, a successful one marks the handle as touched |
| PipeTable.Table.Fork | src/itc/module.c:1371-1424 | the new handle is an unowned, untouched input on hold next to its source, with the given flags, and no other handle changes but in its links; if the module fails, no assignment of rings fits the table any more |
| PipeTable.Table.ReleaseHold | src/itc/module.c:415-500 | the first deallocation of a fork only ends its hold, and cancels it if it is disabled |
| PipeTable.Table.TellCompanions | src/itc/module.c:415-500 | the companions of the upstream end get its flags; those of an output of an allocated pair that was never touched or failed are cancelled, and told once if they have an owner; nobody else changes |
| PipeTable.Table.Leave | src/itc/module.c:415-500 | the handle leaves the ring and its error goes to its successor |
| PipeTable.Table.Deallocate | src/itc/module.c:415-500 | rings stay rings, the last handle purges the resource once with the disjunction of all errors; companions are cancelled and told exactly if the handle is an output of an allocated pair that was never touched or failed, and get flags exactly from the upstream end; it fails iff a disabled handle on hold has nobody to be told |
| ProtoType.Builder.New | lib/proto/type.c:345-388 | a new type is empty or starts with its base type; padding sizes other than 0, 4 and 8 are refused |
| ProtoType.Builder.CurrentOffset | lib/proto/type.c:610-630 | the pass over entities and dimensions computes the offset modulo the padding size |
| ProtoType.Builder.AppendPadding | lib/proto/type.c:643-663 | anonymous bytes up to the next boundary are added, unless the type ends on one or the next field does not reach it |
| ProtoType.PaddingIsNeeded | lib/proto/type.c:643-663 | with less padding than that a named field would cross a boundary |
| ProtoType.Builder.AppendAtomic | lib/proto/type.c:665-683 | the field follows directly if it starts on a boundary or stays within one padding unit, and else after the bytes up to the next boundary; the type stays well placed |
| ProtoType.Builder.AppendCompound | lib/proto/type.c:685-697 | the reference follows after the bytes up to the next boundary, if any; the type stays well placed |
| ProtoType.Builder.AppendAlias | lib/proto/type.c:699-708 | the type stays well placed and ends with the alias |
| TypeLayout.FieldInside | lib/proto/db.c:318-349 | a non-empty field lies inside the type |
| TypeLayout.FieldsApart | lib/proto/db.c:318-349 | a non-empty field ends before every later one starts |
| TypeLayout.FirstStart | lib/proto/db.c:318-349 | the first field that takes bytes starts at zero |
| TypeLayout.NextStart | lib/proto/db.c:244-349 | a field starts where the one before it ends, after a reference with the least gap that makes up a multiple of the padding size |
| TypeLayout.TypeEnds | lib/proto/db.c:318-349 | a type ends where its last field ends |
| TypeLayout.EmptyType | lib/proto/db.c:318-349 | a type has size zero iff none of its fields takes bytes |
| TypeLayout.CursorMatchesPadding | lib/proto/db.c:272-349 | whatever the sizes of the types referred to, an entity starts, modulo the padding size, where the append functions assumed |
| TypeLayout.FieldsRespectPadding | lib/proto/type.c:632-663 | small named fields stay within one padding unit, larger fields and references start on a boundary |
| TypeMetadata.HasSizeIffSound | lib/proto/db.c:291-355 | plain recursion ends on a type iff all types that can be reached from it exist and none can be reached from itself |
| TypeMetadata.Cache.EntityBytes | lib/proto/db.c:244-283 | the bytes of an entity and the padding due after it |
| TypeMetadata.Cache.LayOut | lib/proto/db.c:318-349 | the pass over the entities gives the layout of plain recursion, or a chain of references shows why not |
| TypeMetadata.Cache.Compute | lib/proto/db.c:291-355 | it ends on every database, memoises only right results, removes its marks, and fails only with a chain to a missing, repeated or pending type |
| TypeMetadata.Cache.TypeSize | lib/proto/db.c:472-490 | from outside it succeeds iff the type is sound, with the size of plain recursion, and leaves no mark |
| Subscripts.PartInside | lib/proto/db.c:627-655 | the part picked by leading subscripts lies inside the array |
| Subscripts.PartsApart | lib/proto/db.c:627-655 | different subscripts of one length pick parts that do not overlap |
| NameResolution.StandsForOne | lib/proto/db.c:563-663 | a name stands for one part at most |
| NameResolution.BaseInside | lib/proto/db.c:523-542 | a base type lies at the start of the type that inherits from it |
| NameResolution.PartsLieInside | lib/proto/db.c:563-663 | a non-empty part that a name stands for lies inside the type, through nesting, inheritance, aliases and partial subscripts |
| NameResolution.SubscriptsPickDisjointParts | lib/proto/db.c:627-655 | names that differ in the subscripts at their end stand for parts of one size that do not overlap |
| Subscripts.OneStride | lib/proto/db.c:627-655 | a subscript moves by that many of the parts that it picks from: the single pass over the dimensions gives the sum of the strides |
| NameLaws.FieldLaw | lib/proto/db.c:563-626 | the name of a field stands for the field where the layout puts it, with the size of its elements |
| NameLaws.FoundIsFirst | lib/proto/db.c:501-521 | a symbol names the first entity that has it |
| NameLaws.SubscriptLaw | lib/proto/db.c:627-655 | one more subscript within bounds moves by that many of the remaining parts |
| NameLaws.NoSuchSubscript | lib/proto/db.c:627-642 | a subscript out of bounds, or of something that is no array, stands for nothing |
| NameLaws.MemberLaw | lib/proto/db.c:655-663 | a member of a single element is at the offset of the element plus its offset in the element's type |
| NameLaws.OnlyMembers | lib/proto/db.c:655-663 | and nothing else is reached through a member name |
| NameLaws.AliasLaw | lib/proto/db.c:618-626 | an alias followed by anything stands for what its path followed by the same stands for |
| NameLaws.InheritanceLaw | lib/proto/db.c:580-595 | what a type does not have itself is what its base type has, at the same place |
| NameLaws.FieldHoldsItsParts | lib/proto/db.c:563-663 | whatever a name that begins with a field stands for lies inside that field |
| NameLaws.FieldsShareNothing | lib/proto/db.c:563-663 | names that begin with different fields stand for parts that do not overlap |
| NameLaws.SizeLaw | lib/proto/db.c:244-349 | a type ends where its last field ends, a reference taking the size of its type times its dimensions |
| NameOffset.CircularIsMeaningless | lib/proto/db.c:501-521 | coming back to an alias whose lookup led here means that the lookup has no end |
| NameOffset.PickSubscripts | lib/proto/db.c:627-655 | the loop consumes all leading subscripts, checks each, and computes the row-major start of the part |
| NameOffset.Resolver.FindMember | lib/proto/db.c:501-521 | the first member with the symbol is found; an alias is marked, and refused iff it already was |
| NameOffset.Resolver.FieldOf | lib/proto/db.c:597-626 | the recorded offset and the computed element size are those of the layout |
| NameOffset.Resolver.NameOffset | lib/proto/db.c:563-663 | with marks, the lookup ends and answers exactly when the name stands for something without marks, with the same part |
| NameOffset.Resolver.Inherit | lib/proto/db.c:580-595 | a member not found is what the base type says |
| NameOffset.Resolver.FollowName | lib/proto/db.c:627-662 | the rest of the name is resolved in the element type, from the start of the part |
| NameOffset.Resolver.TypeOffset | lib/proto/db.c:665-684 | a query answers iff the type is sound and the name stands for something, with its offset and size, inside the type |
| NameOffset.Resolver.FieldOffset | lib/proto/db.c:686-722 | the same from the text of the field name, and for the ad-hoc types; the answer is undefined iff parsing runs over the end of the text |
| NameOffset.AdHocSizesAre | lib/proto/db.c:61-82 | the ad-hoc types and their sizes |
| NameExpr.Parse | lib/proto/db.c:362-470 | the loop over parser variables computes what the automaton says about the text |
| NameExpr.PrintTo | lib/proto/ref.c:134-168 | the printed name, cut off where the buffer ends |
| NameExpr.RoundTrip | lib/proto/db.c:362-470 | parsing a printed well-formed name gives the name back |
| NameExpr.ParsedIffWellFormed | lib/proto/db.c:362-470 | the parser produces exactly the well-formed names |
| NameGrammar.NamesAreAccepted | lib/proto/db.c:362-470 | every name of the grammar is accepted, with the value of its numerals |
| NameGrammar.LettersAre | lib/proto/db.c:362-372 | the letters, digits and signs that a word may begin with and go on with |
| NameGrammar.DigitsAre | lib/proto/db.c:365-435 | the digits of each base and their values |
| NameGrammar.AcceptedIffTaken | lib/proto/db.c:362-470 | a text is accepted iff it is made of pieces of a given form, which are its meaning |
| NameGrammar.OneDescription | lib/proto/db.c:362-470 | a text is made of such pieces in one way |
| NameGrammar.TakenIsNumeral | lib/proto/db.c:407-446 | what is accepted between brackets is a numeral, with its value, iff it begins with a digit, has digits after `0x`, and fits into 32 bits |
| NameGrammar.AcceptedButNoName | lib/proto/db.c:362-470 | a text is accepted without being a name of the grammar iff one of its pieces fails a guard: separator after a subscript, characters of a word, first digit, missing digits, or size of a numeral |
| NameGrammar.PastEndIffOpenBracket | lib/proto/db.c:407-446 | the parser reads past the end iff the text ends with a bracket after pieces that are accepted |
| NameGrammar.NameWithOpenBracket | lib/proto/db.c:407-446 | a bracket after any name of the grammar makes the parser read past the end |
| NameGrammar.SubscriptsWrap | lib/proto/db.c:434-435 | the subscripts 4294967298 and 2 are the same |
| NameDump.DumpSize | lib/proto/ref.c:112-132 | the announced size is the number of bytes written |
| NameDump.Load | lib/proto/ref.c:266-328 | the byte-driven loop reads the segments that the format specifies, or fails |
| NameDump.LoadDumped | lib/proto/ref.c:266-359 | a dumped name, loaded with its own size from a longer stream, is the same name |
| PathIndex.SearchChar | src/itc/modtab.c:371-408 | in a range in signed order, the binary search narrows to exactly the entries with the character at the position; in any range, nothing is found that comes before its first entry |
| PathIndex.NarrowDown | src/itc/modtab.c:410-425 | if low and high bytes are mixed nowhere on the way to the key, narrowing ends with the entries that agree with the key so far, at most one or all with that start; a key behind mixed bytes is missed |
| PathIndex.GetFromPath | src/itc/modtab.c:410-425 | under that condition a path is found iff the table has it; a hidden path is not found; nothing else is ever returned |
| PathIndex.OpenDir | src/itc/modtab.c:428-451 | under that condition the range holds exactly the entries that start with the given text; it is empty for a hidden one |
| PathIndex.SearchableIffNotMixed | src/itc/modtab.c:322-451 | the way to every key is clear, and no path of the table is hidden, iff no two of its paths first differ in a low byte (or the end) and a high byte |
| PathIndex.Table.Insert | src/itc/modtab.c:322-358 | the table stays sorted without repetition and gains the path iff it was not there; a full table is overrun |
| Primes.IsPrime | lib/pss/dict.c:417-432 | trial division up to the square root decides primality |
| Primes.NextSize | lib/pss/dict.c:417-432 | the next slot count is the least prime above twice the previous one |
| Primes.SlotSizes | lib/pss/dict.c:417-432 | every level after the first has a prime number of slots, more than twice the previous one |
| HashDict.PromotedMaps | lib/pss/dict.c:117-161 | moving all nodes to other slots changes no lookup |
| HashDict.MoveOne | lib/pss/dict.c:117-161 | moving one node keeps the new table well placed and exactly the nodes moved so far in it |
| HashDict.Dict.Find | lib/pss/dict.c:170-213 | the search in the chain of the key's slot returns what the dictionary maps the key to |
| HashDict.Dict.Promote | lib/pss/dict.c:117-161 | the level goes up, chain lengths and the longest chain are exact, nothing that can be looked up changes |
| HashDict.Dict.AddNode | lib/pss/dict.c:185-204 | the key is added last with an undefined value, its slot is right, chain lengths and the longest chain stay exact |
| HashDict.Dict.Create | lib/pss/dict.c:170-213 | the same with the promotion, which happens iff the longest chain is then longer than 8 and there is a larger level |
| HashDict.Dict.Set | lib/pss/dict.c:297-316 | the dictionary is a finite map updated at one key; keys keep the order of their insertion without repetition |
| LruList.AddHolds | lib/pstd/fcache.c:259-271 | the links hold the list with the slot in front |
| LruList.RemoveHolds | lib/pstd/fcache.c:278-292 | the links hold the list without the slot |
| CacheEviction.EvictionIsUnique | lib/pstd/fcache.c:571-597 | where an eviction stops is determined by the list, the sizes and the closings of other threads |
| CacheEviction.RoomKeepsAll | lib/pstd/fcache.c:571-597 | with enough room nothing is dropped |
| CacheEviction.RoomUnlessInUse | lib/pstd/fcache.c:571-597 | there is room afterwards unless the files in use when looked at leave none |
| CacheEviction.OpenSurvives | lib/pstd/fcache.c:571-597 | a slot that still has a handle afterwards has not been dropped |
| FileCache.Cache.Touch | lib/pstd/fcache.c:299-303 | the slot becomes the first of the list, the others keep their order, and the list stays sorted by last use |
| FileCache.Cache.Invalidate | lib/pstd/fcache.c:373-393 | an unused slot leaves the list and the data size |
| FileCache.Cache.CreateCached | lib/pstd/fcache.c:310-332 | a handle is counted and its slot becomes the first of the list, the others keep their order |
| FileCache.Cache.Evict | lib/pstd/fcache.c:571-597 | the list is walked from its end to the first place where there is room; exactly the slots without handles when looked at are dropped, the rest keeps its order |
| FileCache.Cache.Load | lib/pstd/fcache.c:563-639 | the file is cached iff it fits after the eviction and can be read; list, handles and entries afterwards are determined |
| FileCache.Cache.Read | lib/pstd/fcache.c:541-639 | a file is read directly if its slot is in use or it is too large, and else loaded |
| FileCache.OpenFilesStay | lib/pstd/fcache.c:541-639 | loading neither drops nor replaces a file that still has another handle afterwards |
| FileCache.Cache.Open | lib/pstd/fcache.c:494-650 | a cached answer is for the file asked for: an entry of that file is used iff it is not older than the lifetime or the file has not changed since its stamp; else the answer, the list in recency order, the entries and the counts follow from the file, the slot and what other threads close before each step |
| FileCache.Cache.Status | lib/pstd/fcache.c:418-463 | the file is reported in the cache iff the slot has an entry of it that is not older than the lifetime or not changed since its stamp, which counts as a use |
| FileCache.Cache.Close | lib/pstd/fcache.c:652-683 | one handle is given up iff there is one |
| Bsr64.DecodeEncode | include/utils/bsr64.h:23-125 | writing bytes in base 64 and reading them in base 256 gives the bytes back |
| Bsr64.SixBytes | include/utils/bsr64.h:29-35 | a block of 48 bits gives the same eight characters as the bit-by-bit form |
| Bsr64.Block | include/utils/bsr64.h:29-35 | shifting until the marker is reached writes exactly eight characters |
| Bsr64.Tail | include/utils/bsr64.h:37-51 | the bit accumulators write the base-64 digits of the remaining bytes |
| Bsr64.FromBin | include/utils/bsr64.h:23-59 | the text is the number of the data in base 64, lowest digit first, iff the buffer has room for it and its end; else it is refused iff the blocks alone fill the buffer, and written past the end otherwise |
| Bsr64.BlocksAre | include/utils/bsr64.h:29-35 | the number of blocks of six bytes that are written at once |
| Bsr64.ToBin | include/utils/bsr64.h:69-125 | the bytes are the number of the text in base 256; a foreign character or a buffer that is too small leaves nothing |
| Bsr64.ToBinOfFromBin | include/utils/bsr64.h:23-125 | decoding the text of binary data gives the data back, in a buffer of its size |
| Bytecode.SortDescs | lib/pss/bytecode.c:183-206 | exchanging in place makes every opcode the index of its description |
| Bytecode.InstBack | lib/pss/bytecode.c:214-255 | an instruction of any opcode comes back from its dump |
| Bytecode.SegmentBack | lib/pss/bytecode.c:476-591 | a segment comes back iff it has at most 256 arguments, and is refused otherwise |
| Bytecode.ModuleBack | lib/pss/bytecode.c:496-646 | a dumped module comes back iff no segment has more than 256 arguments; it is refused iff the first has, and the cleanup frees memory twice iff only a later one has |
| Bytecode.TooManyArguments | lib/pss/bytecode.c:569-643 | modules that are dumped: one that is refused, one whose loading corrupts memory |
| Bytecode.WrongKindRefused | lib/pss/bytecode.c:420-468 | a table of one kind is not read as one of another |
| Bytecode.BrokenStrings | lib/pss/bytecode.c:420-468 | when a string of a table cannot be read, it is a clean failure iff the table has only that one |
| Bytecode.Output.WriteTable | lib/pss/bytecode.c:387-412 | the loop writes the header and every element in order |
| Bytecode.Output.WriteModule | lib/pss/bytecode.c:496-507 | the header and all segments are written in order |
| Bytecode.Input.ReadInst | lib/pss/bytecode.c:238-255 | constant and registers are read as the opcode calls for |
| Bytecode.Input.ReadTable | lib/pss/bytecode.c:420-468 | kind and size are checked and every element read in order; a string that cannot be read is freed with others twice unless it is the only one |
| Bytecode.Input.ReadModule | lib/pss/bytecode.c:598-646 | the module that the bytes specify, or nothing, or a cleanup that frees memory twice |
| Bytecode.DumpAndLoad | lib/pss/bytecode.c:183-646 | from descriptions in any order: after the sort at first use, dumping and loading gives the module back under that condition |

## Left out

- Memory allocation failures, logging, error stacks and file input and output: allocation succeeds, files are byte sequences.
- Event queue: event validation before a put, the scheduler's own waiting and its timing; memory is sequentially consistent; `& (size - 1)` is written as a remainder.
- Frames and objects: a freed node or object leaves the state before what it holds is released, where the code frees it afterwards; the entries of all dictionaries are one map (`HashDict` shows that a table is one), and a freed dictionary gives them up in any order; frames of closures are only handed out as copies (lib/pss/closure.c:109-114), so `Set`, `Move` and `FreeFrame` are for other frames; strings and exotic objects hold no references; 32-bit reference counts do not overflow.
- Pipe handles: header sizes, reading and writing data, and module callbacks other than success and failure of fork.
- Type database: type names are complete, without a working directory; sizes are naturals, so that neither an overflow nor a size equal to the error code occurs; default values, common ancestors and traversal.
- NameOffset.Resolver.TypeOffset: the number of queries stays below 2^32, so that a mark never looks like the marker of another query.
- NameExpr.Parse: characters above 127, whose digit values depend on the sign of `char`.
- PathIndex.GetFromPath: nothing is promised for a key that goes on with a low byte where low and high bytes are mixed: whether it is found depends on where the halvings fall.
- PathIndex.OpenDir: the same.
- PathIndex: `char` is taken to be signed; the order in which modules are numbered and the loading of modules.
- Dictionaries: the hash function and the slot of a hash are parameters.
- FileCache.Cache.Open: a file is identified by its hash, as in the default configuration; a file does not change between its status and its contents; reading and seeking in handles.
- Bytecode: labels and unused register slots are not part of a module in memory; constants are taken as unsigned 64-bit numbers; what happens after memory has been freed twice.
- Everything that only adds easy members or platform code: servlet loading, property callbacks, the script compiler and virtual machine, JSON schemas, the service description language, bindings and demos.
