# A model of the vector index, the replication topology and the deduplication table

This project models the parts of the repository that have state to keep in order, and proves what they keep:

* the HNSW index of `include/vector/index.hpp`: its containers, the greedy descent, the beam search, the pruning
  heuristic, insertion, update, isolation, compaction, saving, loading and viewing, and the stable-matching join;
* the multi-set with linear probing and the reader-writer lock of `include/vector/index_plugins.hpp`;
* the slot bookkeeping of the dense index of `include/vector/index_dense.hpp`, its search and its file;
* the chain-replication topology of `src/raft/topology.cpp`;
* the deduplication window of `src/client/dedup.cpp`.

Every object that the source updates in place is a class with the same fields (containers, index, dense index, topology
manager, deduplication table), and every algorithm that works in place on memory works on an array. Beside each stands a
module that says the same on values; the methods are tied to it, and the theorems are about it.

| files | what they hold |
|---|---|
| `Numbers`, `Probing`, `Text` | sizes, positions of circular tables, the order of names |
| `Candidates`, `SortedBuffer`, `MaxHeap`, `GrowingHashSet`, `Ring` | the containers |
| `Graph`, `GreedyDescent`, `BeamState`, `BeamLists`, `Context`, `BeamSearch`, `Query`, `ExactSearch` | searching |
| `Refine`, `Links`, `LinkMethods`, `Connecting`, `ConnectMethods`, `HnswIndex`, `Compaction` | building and changing the graph |
| `Neighborhoods`, `Relinking` | what that does to neighbour lists, said of the graph before and after alone |
| `Matching`, `Join` | the join |
| `ProbeTables`, `ProbeAnswers`, `EqualRange`, `FlatHashMultiSet` | the multi-set |
| `DenseSlots`, `DenseIndex`, `DenseGraph` | the dense index |
| `Tapes`, `Serialization`, `DenseFile`, `DenseLoading` | the files |
| `SharedMutex` | the lock |
| `TopologyShape`, `Topology` | the topology |
| `DedupWindow`, `DedupOrder`, `DedupRecency`, `DedupArrivals`, `DedupTable` | the deduplication table |

How things are represented:

* A distance is a real number. A search is given the distances of its query from all slots, a join and the pruning
  heuristic the distances between members, as tables; no metric is assumed, and where symmetry is needed it is said.
* A filter is a table of answers for all slots. Hash functions are arbitrary. The level of a new node is drawn by the caller.
* Tables are masked with a size that is a power of two; the model takes the remainder.
* A node of the graph has its lists of neighbours as sequences; the bytes they are stored in are modelled in `Tapes`.
* The lock is a state machine over the atomic loads, stores, exchanges and subtractions of its calls.
* Where the code leaves an order open (`std::sort` among equals, the iteration of an unordered map), so does the model.

Where the code does not keep what its comments or its callers expect, the model follows the code, and a lemma says exactly
when it does:

* `EqualRanges.RangeExact`, with `OneLeftLost`: iterating over a range of a table without unused slots, and with it
  removing, fetching and listing by key (`DenseIndices.DenseIndex.Remove`, `RemoveListed`, `GetAll`);
* `ProbeAnswers.CopyCount`, with `CopyLosesEntry`: a copy drops deletion marks, and entries behind them are not found;
* `DenseSlots.Taken` and `RenamedConsistent`: adding the key that marks free slots, and renaming members to it;
* `DenseSlots.RenameEndless`, with `OneMemberEndless`: renaming a key to itself;
* `DenseIndices.DenseIndex.Reserve`, with `ReservingFewer`: reserving after loading a file with many removed members;
* `HnswIndices.HnswIndex.Compact`, and `CompactThenAdd`: compacting an empty index, and adding after compacting any other;
* `DenseGraphs.CompactedTracked`: the lookup and the free slots of a dense index that has been compacted;
* `Matching.CompletesIffCounted`: a proposal limit beyond the 16-bit counter;
* `Serialization.ConfigurationComesBack`, with `EmptyForgetsConfiguration`: the configuration of an empty index;
* `Serialization.View`, with `CutOffViewed`: viewing a file that ends inside its level table;
* `DenseFile.ComesBack` and `RefusedForSize`: dimensions cut to 32 bits, and files without the vectors, which are never
  loaded unless they are empty;
* `TopologyShape.SetLeaderShape` and `SwappedShape`, over runs `Topologies.RunKeepsShape`: a new leader next to the old
  one, and followers swapped to nodes that may not have any;
* `DedupRecency.ExactIffAdjacent`: a log index used again after other requests;
* `SharedMutex.WritingPossible` and `EscalationPossible`, with `DeadlockReachable`: two threads that escalate at once.

`include/vector/index_plugins.hpp:5134-5139` describes the end of a range as the first empty slot; where there is none the
code returns the home position of the key instead.

## Model

| member | source | states |
|---|---|---|
| MaxHeaps.MaxHeap.ShiftUp | include/vector/index.hpp:1018-1022 | moving one element up restores the heap order and only permutes the elements |
| MaxHeaps.MaxHeap.ShiftDown | include/vector/index.hpp:1030-1047 | moving one element down restores the heap order and only permutes the elements |
| MaxHeaps.MaxHeap.InsertReserved | include/vector/index.hpp:972-978 | the contents grow by exactly the inserted element |
| MaxHeaps.MaxHeap.Pop | include/vector/index.hpp:995-1004 | takes out an element that nothing left is larger than, and nothing else |
| MaxHeaps.RootIsLargest | include/vector/index.hpp:917-919 | in a heap-ordered array no element is larger than the root |
| SortedBuffers.SortedBuffer.FindSlot | include/vector/index.hpp:1134-1149 | the position is the lower bound: all before are closer, all from there on are not |
| SortedBuffers.SortedBuffer.Insert | include/vector/index.hpp:1148-1160 | keeps the first `limit` of the list with the element at its lower bound, dropping the farthest only when full, and says whether the element went in |
| SortedBuffers.SortedBuffer.InsertReserved | include/vector/index.hpp:1134-1143 | puts the element at its lower bound and keeps all others in order |
| SortedBuffers.SortedBuffer.Reserve | include/vector/index.hpp:1110-1132 | growing keeps the contents |
| Candidates.InsertedThenTake | include/vector/index.hpp:1148-1160 | cutting the list before an insertion loses nothing of what cutting it after would keep |
| Candidates.SameDistances | include/vector/index.hpp:1148-1160 | two sorted lists of the same candidates show the same distances, however they order ties |
| GrowingHashSets.GrowingHashSet.Probe | include/vector/index.hpp:1396-1428 | with a free slot a probe ends, at the element if it is a member and otherwise at a free slot of its chain |
| GrowingHashSets.GrowingHashSet.Test | include/vector/index.hpp:1396-1407 | answers membership in the set, for any hash |
| GrowingHashSets.GrowingHashSet.Set | include/vector/index.hpp:1413-1428 | adds the element and answers whether it was there before |
| GrowingHashSets.GrowingHashSet.Reserve | include/vector/index.hpp:1433-1465 | after growing and rehashing the set is the same and there is room for the announced number of members and one more slot |
| GrowingHashSets.MissIsAbsent | include/vector/index.hpp:1396-1407 | a probe that meets a free slot first proves that the element is not a member |
| Rings.Ring.Push | include/vector/index.hpp:1570-1577 | the queue grows by the value at its end |
| Rings.Ring.TryPop | include/vector/index.hpp:1588-1597 | takes the oldest value, or says that there is none |
| Rings.Ring.Reserve | include/vector/index.hpp:1546-1568 | growing keeps the queued values and their order; asking for less than is queued is refused |
| Probing.StepIsRemainder | include/vector/index.hpp:1576-1595 | stepping through a circular table is an increment modulo its size |
| ExactSearch.RankedSpec | include/vector/index.hpp:4805-4823 | the ranking holds exactly the allowed members at their distances, each once, by distance and among equals the later slot first |
| ExactSearch.RankedUnique | include/vector/index.hpp:4805-4823 | it is the only list in that order with those members |
| ExactSearch.OfferedRanked | include/vector/index.hpp:1148-1160 | offering the members one by one to a bounded list leaves the first `count` of the ranking, so the results for a smaller count are a prefix |
| ExactSearch.SearchExact | include/vector/index.hpp:4805-4823 | the buffer ends up with the first `count` of the ranking of all allowed members |
| GreedyDescent.DescendLevel | include/vector/index.hpp:4498-4528 | ends at a node with no strictly closer neighbour on the level, no farther than the start |
| GreedyDescent.SearchForOne | include/vector/index.hpp:4484-4530 | terminates for any distances; on every level left behind the stop has no strictly closer neighbour there; the distance never grows |
| GreedyDescent.DescentSpec | include/vector/index.hpp:4484-4530 | the stops of a descent are local minima of their levels, and no stop is farther than one before it or than the start |
| BeamStates.StepInv | include/vector/index.hpp:4778-4795 | looking at a new neighbour keeps the invariant: the results are the closest allowed nodes seen, everything seen and not kept is at least as far as the last of a full list, and every kept node is queued or expanded |
| BeamStates.LookedInv | include/vector/index.hpp:4778-4795 | the same whether or not the neighbour was seen before, in between the neighbours of one node |
| BeamStates.PoppedInv | include/vector/index.hpp:4755-4765 | taking the closest queued node off the queue keeps the invariant |
| BeamStates.FinishedOptimal | include/vector/index.hpp:4755-4799 | when the search ends, every reported node has been expanded, and no neighbour of one is both left out and closer than the last of a full list |
| BeamStates.FinishedComplete | include/vector/index.hpp:4755-4799 | if the limit is at least the number of nodes that can be reached, all reachable allowed nodes are reported |
| BeamLists.StoppedFinished | include/vector/index.hpp:4758-4760 | stopping when the closest queued node is farther than the last of a full list is safe |
| BeamLists.BetweenBasics | include/vector/index.hpp:4702-4710 | reading the last result back after every neighbour, as the search for an update does, never finds the list empty |
| BeamSearch.Offer | include/vector/index.hpp:4783-4794 | queues a promising neighbour, reports it if allowed, and keeps the radius at the last result |
| BeamSearch.Expand | include/vector/index.hpp:4774-4796 | reserves slots for all neighbours before looking at them, so that every probe of the visited set ends |
| BeamSearch.Run | include/vector/index.hpp:4755-4799 | the traversal terminates, queueing every node at most once, in a finished state |
| BeamSearch.SearchLevel | include/vector/index.hpp:4538-4799 | the three searches (for an insertion, an update, a query) from empty containers to a finished traversal |
| Query.BeamOptimal | include/vector/index.hpp:4722-4799 | the results of a beam search of a level are allowed, reachable, sorted and at most `limit`; the start and every neighbour of a result is a result too, if allowed, unless the list is full of nodes no farther |
| Query.BeamComplete | include/vector/index.hpp:4722-4823 | with the expansion at least the number of nodes that can be reached on the level, as many results as reachable allowed nodes, and their first `wanted` at the distances of the exhaustive ranking |
| Query.BeamAnswers | include/vector/index.hpp:3439-3494 | the first `wanted` of what a search finds are allowed members at their distances, and rank as everything that can be reached does if the expansion has room for it |
| Graph.ReachableClosed | include/vector/index.hpp:4755-4796 | a set that contains the start and all neighbours of its members contains all that is reachable |
| Refine.PickedKept | include/vector/index.hpp:4882-4908 | the kept candidates are an order-preserving selection that starts with the closest, at most `needed`, each no nearer to an earlier kept one than to the target |
| Refine.PickedDropped | include/vector/index.hpp:4884-4908 | an examined candidate is dropped only if some kept one is closer to it than the target |
| Refine.RefinedMembers | include/vector/index.hpp:4865-4912 | pruning only removes candidates, keeps the closest, and leaves a short list as it is |
| Refine.Select | include/vector/index.hpp:4882-4908 | the in-place loop computes that selection |
| Refine.RefineTop | include/vector/index.hpp:4865-4912 | the buffer holds the pruned list, with the overriding value for a slot whose stored vector is stale |
| Neighborhoods.PrunedMeans | include/vector/index.hpp:4882-4908 | said of the slots alone: the pruned list begins with the closest candidate, ascends by distance, each member at least as near to the owner as to every member before it; whatever is left out is nearer to such a member than to the owner, or as many as asked for are kept |
| Links.LinkedBackOk | include/vector/index.hpp:4358-4401 | a reverse link keeps the neighbour's list short enough, without repetition or self-loop, and on an existing level |
| Links.LinkedNext | include/vector/index.hpp:4358-4401 | linking back from one more neighbour changes that neighbour's list and no other |
| LinkMethods.LinkBack | include/vector/index.hpp:4363-4401 | leaves a list that has the slot, appends the slot to one with room, and otherwise prunes neighbours and slot together |
| LinkMethods.FormReverseLinks | include/vector/index.hpp:4349-4403 | after all reverse links every list is as specified and the graph is well formed |
| Neighborhoods.LinkedBackMeans | include/vector/index.hpp:4375-4401 | said of the list before and after alone: nothing changes for a neighbour linked to already, a list with room is followed by the slot, and a full one becomes what pruning leaves of both, by the distances of the new value and of the stored members |
| Connecting.ChosenOk | include/vector/index.hpp:4324-4346 | the neighbours chosen from a finished search are distinct, exist on the level, and do not include the node itself; in an insertion there is at least one |
| Connecting.ConnectedStays | include/vector/index.hpp:3257-3269 | connecting a lower level leaves the levels above as they are |
| Connecting.LevelWorkReady | include/vector/index.hpp:3257-3269 | a level connected, the search of the next one starts at the closest chosen neighbour |
| ConnectMethods.ConnectLevels | include/vector/index.hpp:3257-3269 | from the top level down each level is searched, linked and linked back, in a well-formed graph (what that comes to for the lists is `Relinking.FullyConnectedMeans`) |
| Relinking.ChosenMeans | include/vector/index.hpp:4331-4346 | a node is linked to all that the search found if that is fewer than the connectivity, and otherwise to what pruning leaves of it: a candidate left out is nearer to a chosen one than to the value, or as many as the connectivity are chosen |
| Relinking.ConnectedMeans | include/vector/index.hpp:3257-3269 | one level, before and after: the search for the value finds the best it can see, the node is linked to the chosen ones, each of them is offered the link back, and no other list changes |
| Relinking.ClosestFirst | include/vector/index.hpp:3262-3266 | a node's list begins with the closest of its new neighbours, where the search of the next level starts |
| Relinking.FullyConnectedMeans | include/vector/index.hpp:3253-3269 | so it is on all levels from the top one down, each level searched from the closest neighbour chosen on the one above |
| Relinking.FirstTwoLinked | include/vector/index.hpp:3237-3269 | the first two members of an index are linked both ways on every level they share |
| HnswIndices.HnswIndex.Add | include/vector/index.hpp:3176-3285 | a full index is refused unchanged; the node is written beyond the node table exactly if that has no slot for it; otherwise the index has one node more, all others keep key and level, and, where the descent ended, the lists of all shared levels are relinked, with the expansion asked for or 128; the entry point is a node of maximal level and the graph well formed |
| HnswIndices.HnswIndex.Reserve | include/vector/index.hpp:2862-2903 | the node table is made anew only if the capacity grows |
| HnswIndices.HnswIndex.Update | include/vector/index.hpp:3317-3406 | the same for a node connected anew: the lists of all its levels are relinked; its level, the entry point and all other keys stay |
| HnswIndices.AddedMeans | include/vector/index.hpp:3176-3285 | an addition gives one node more and relinked lists, none for the first member |
| HnswIndices.UpdatedMeans | include/vector/index.hpp:3317-3406 | an update relinks the lists of the node's levels |
| HnswIndices.KeptSpec | include/vector/index.hpp:2528-2549 | filtering a list keeps exactly the allowed neighbours and introduces no repetition |
| HnswIndices.EraseIf | include/vector/index.hpp:2528-2549 | the in-place compaction of a list computes that filtering |
| HnswIndices.HnswIndex.Isolate | include/vector/index.hpp:4156-4182 | every list loses exactly the banned neighbours; nodes, keys, levels and entry point stay |
| HnswIndices.HnswIndex.Search | include/vector/index.hpp:3425-3502 | exhaustive: the first `wanted` of the ranking; otherwise the first `wanted` of what a search of the base level from the end of the descent finds, keeping as many as the expansion asks for, 64 if it asks for none, and no fewer than wanted: allowed members at their distances, and with room for all that is reachable the distances of its exhaustive ranking |
| HnswIndices.HnswIndex.Compact | include/vector/index.hpp:4048-4138 | the renumbering table is read inside its bounds exactly if the index is not empty; the graph after compaction is isomorphic to the one before, the entry point carried along, slots ascending as levels fall and, within a level, as clusters rise, and the node table as short as there are nodes |
| HnswIndices.CompactThenAdd | include/vector/index.hpp:4111-4137 | after compacting an index with members, reserving no more than its capacity and adding, the node is written beyond the node table exactly if the index is not full |
| Compaction.SortSlots | include/vector/index.hpp:4092-4094 | the slots sorted by level and cluster, each once, for any clusters |
| Compaction.InversePermutation | include/vector/index.hpp:4097-4100 | the old-to-new table is a permutation and the inverse of the order |
| Compaction.OrderedAscend | include/vector/index.hpp:4092-4100 | the new slots ascend as the levels fall, and among the nodes of one level as the clusters rise |
| Compaction.Reorder | include/vector/index.hpp:4106-4123 | every node keeps key and level, and each of its lists is the image of the old one, slot by slot |
| Compaction.IsomorphicOk | include/vector/index.hpp:4106-4137 | a renumbered well-formed graph is well formed, with the renumbered entry point |
| Compaction.ReachCarriedOver | include/vector/index.hpp:4106-4137 | what can be reached in so many steps on a level is the same up to renumbering, before and after |
| Join.Sides | include/vector/index.hpp:4970-4992 | the smaller collection proposes, the first one if they are equally large; as often as asked for, or as the default says, but no more often than it has members |
| Matching.CompletesIffCounted | include/vector/index.hpp:5060-5076 | for all numbers of men and women and any limit: whatever the distances, the rounds end with an empty queue, if and only if the limit can be counted to in 16 bits |
| Matching.CountedLimitCompletes | include/vector/index.hpp:5060-5076 | with a limit that can be counted to, the rounds end with an empty queue from every state they can be in |
| Matching.EqualDistancesOverflow | include/vector/index.hpp:5060-5076 | with more men than can be counted, all distances equal and a limit beyond the counter, no state without free men meets the invariant |
| Matching.ChoiceSpec | include/vector/index.hpp:5068-5076 | the choices of a man are all women, each once, at the distance searched with |
| Matching.ChoiceOrder | include/vector/index.hpp:5068-5076 | a strictly closer woman is chosen earlier, and none twice |
| Matching.NextInv | include/vector/index.hpp:5046-5116 | every round keeps: partner tables inverse, partner is the last choice, queue without repetition and unmatched, a man out of the queue and single is used up and stays locked, no other lock is held, every woman asked is held, under a symmetric metric by a man at least as close |
| Matching.NextShrinks | include/vector/index.hpp:5046-5116 | every round uses up a proposal or shortens the queue, so the process terminates |
| Matching.FinishedStable | include/vector/index.hpp:5046-5116 | no pair within the proposal limit would rather have each other, under a symmetric metric |
| Matching.AllMatched | include/vector/index.hpp:5064-5116 | with as many proposals as men every man is matched, for any metric |
| Matching.FinishedFullyStable | include/vector/index.hpp:5046-5116 | with as many proposals as men there is no blocking pair at all |
| Matching.StableUnique | include/vector/index.hpp:5046-5116 | without ties there is only one stable matching, so the order of the queue does not matter |
| Matching.SwappedStable | include/vector/index.hpp:4970-4980 | a matching is stable for one side exactly if it is for the other |
| Join.Workspace.Round | include/vector/index.hpp:5046-5116 | one pass of the loop is one round of the specification, or finds that the proposal cannot be counted, and no lock it waits for is held |
| Join.Workspace.Run | include/vector/index.hpp:5046-5116 | the loop ends with an empty queue exactly if the specified rounds do, in the state they do |
| Join.Export | include/vector/index.hpp:5121-5134 | the key maps hold the matched pairs, everything else in them stays, and the count is that of the pairs; for distinct keys |
| Join.RefusedByAll | include/vector/index.hpp:5060-5116 | a man left alone was refused by exactly as many women as he may propose to: each is held, and no other woman is closer to him |
| Join.MatchedSize | include/vector/index.hpp:5046-5134 | somebody is matched if both sides have members and anybody may propose, and the whole smaller side if that often may be proposed |
| Join.Join | include/vector/index.hpp:4955-5142 | the whole, for any limit: refusal of a self-join, running out of count exactly if the specified rounds do and never within 16 bits, role swap, the number of proposals asked for or the default, inverse partner tables, every woman asked held, who is left alone refused by that many closest, stability, as many pairs as the smaller side has members where that often may be proposed and never none, exported maps |
| FlatHashMultiSets.SizeForSpec | include/vector/index_plugins.hpp:5029-5036 | the slot count is a power of two in whole buckets, never below the old one, at a load of two thirds |
| FlatHashMultiSets.Place | include/vector/index_plugins.hpp:5422-5437 | probing finds a slot without a live entry and ends there; the entry is chained to its home |
| FlatHashMultiSets.FlatHashMultiSet.TryReserve | include/vector/index_plugins.hpp:5027-5080 | rehashing keeps the entries, for any hash; how many slots there are afterwards |
| FlatHashMultiSets.FlatHashMultiSet.TryEmplace | include/vector/index_plugins.hpp:5413-5438 | the entries grow by exactly the new one, although deletion marks do not count as load |
| FlatHashMultiSets.FlatHashMultiSet.Clear | include/vector/index_plugins.hpp:5000-5014 | no entries are left and no slot is in use |
| FlatHashMultiSets.FlatHashMultiSet.Find | include/vector/index_plugins.hpp:5275-5308 | on any table, finds an entry exactly if a probe from the key's home passes one; where the chains are whole, exactly if there is one |
| FlatHashMultiSets.FlatHashMultiSet.Contains | include/vector/index_plugins.hpp:5374-5405 | says the same |
| FlatHashMultiSets.FlatHashMultiSet.Count | include/vector/index_plugins.hpp:5338-5371 | on any table, the number of entries with the key that a probe passes; where the chains are whole, of all of them |
| FlatHashMultiSets.FlatHashMultiSet.PopFirst | include/vector/index_plugins.hpp:5193-5232 | removes one entry with the key, if there is any, and nothing else |
| FlatHashMultiSets.FlatHashMultiSet.Erase | include/vector/index_plugins.hpp:5234-5273 | removes exactly the entries with the key and answers how many there were |
| FlatHashMultiSets.FlatHashMultiSet.EqualRange | include/vector/index_plugins.hpp:5140-5191 | its two ends, for any table, full of deletion marks or not |
| FlatHashMultiSets.FlatHashMultiSet.Matching | include/vector/index_plugins.hpp:5082-5132 | for any table: iterating from one end to the other yields exactly the entries with the key; unless all slots are used, where it yields none if one of them is at home and otherwise never ends |
| FlatHashMultiSets.FlatHashMultiSet.GoRound | include/vector/index_plugins.hpp:5082-5132 | an iteration that never ends goes on visiting entries with the key |
| FlatHashMultiSets.FlatHashMultiSet.CopyFrom | include/vector/index_plugins.hpp:4919-4998 | a copy has the same entries in the same slots; for every key, it is counted right in the copy exactly if no entry with the key was reached across a deletion mark |
| ProbeTables.NothingBeyond | include/vector/index_plugins.hpp:5205-5231 | a probe that meets a slot never used has passed all entries with the key |
| ProbeTables.Placed | include/vector/index_plugins.hpp:5422-5437 | an entry put into the first slot without a live one keeps all chains |
| ProbeTables.AllErasedEntries | include/vector/index_plugins.hpp:5234-5273 | marking all matches deleted removes exactly the entries with the key |
| ProbeAnswers.ProbedAll | include/vector/index_plugins.hpp:5338-5371 | where the chains are whole, a probe passes all entries with its key |
| ProbeAnswers.CopyCount | include/vector/index_plugins.hpp:4943-4951 | for any table and key: the count on the copy is the number of entries with the key if and only if none of them was reached across a deletion mark |
| ProbeAnswers.UnmarkedCopy | include/vector/index_plugins.hpp:4943-4951 | where no slot is marked deleted, every key is counted right on the copy |
| ProbeAnswers.CopyLosesEntry | include/vector/index_plugins.hpp:4943-4951 | a table with whole chains that finds an entry which its copy does not find |
| ProbeTables.CopyProbeable | include/vector/index_plugins.hpp:4943-4951 | all chains of the copy are whole exactly if none of the original crosses a deletion mark |
| EqualRanges.RangeExact | include/vector/index_plugins.hpp:5096-5191 | the range iterates over exactly the matches and stops if and only if some slot is unused or there is no match |
| EqualRanges.IteratesWithUnused | include/vector/index_plugins.hpp:5096-5191 | with an unused slot the iterator visits every match once, in probe order, and ends |
| EqualRanges.NeverIterates | include/vector/index_plugins.hpp:5155-5191 | without an unused slot a match at its home is missed and any other makes the iteration endless |
| EqualRanges.RangeKinds | include/vector/index_plugins.hpp:5140-5191 | the two ends of a range are the same exactly if nothing matches, or all slots are used and a match is at home |
| EqualRanges.OneLeftLost | include/vector/index_plugins.hpp:5140-5191 | a table of 64 used slots with one live entry: at home it is missed, one step further iterating never ends |
| DenseSlots.SizeAgrees | include/vector/index_dense.hpp:760 | the number of lookup entries is the number of nodes less the free ones |
| DenseSlots.Appended | include/vector/index_dense.hpp:2230-2290 | appending a key keeps all bookkeeping consistent exactly if it is not the one that marks free slots |
| DenseSlots.Reused | include/vector/index_dense.hpp:2248-2289 | giving a free slot to a new key keeps all bookkeeping consistent |
| DenseSlots.Removed | include/vector/index_dense.hpp:1684-1696 | a removed member is in the ring, not in the lookup, and its node is marked free; all others stay |
| DenseSlots.RenamedOne | include/vector/index_dense.hpp:1767-1777 | a round of renaming moves one slot from one key to the other |
| DenseSlots.RenamedConsistent | include/vector/index_dense.hpp:1767-1777 | after renaming all bookkeeping is consistent exactly if it is not a member whose key becomes the one that marks free slots |
| DenseSlots.RenameEndless | include/vector/index_dense.hpp:1767-1777 | where keys may repeat: there are chains of any number of rounds of renaming if and only if a key in use is renamed to itself |
| DenseSlots.OneMemberEndless | include/vector/index_dense.hpp:1767-1777 | an index with one member where it is so |
| DenseSlots.Taken | include/vector/index_dense.hpp:2248-2289 | a slot taken for a new member, free or appended: all bookkeeping stays consistent exactly if the key is not the one that marks free slots |
| DenseSlots.StoredAdded | include/vector/index_dense.hpp:2230-2290 | with unique keys, adding stores the vector under its key and changes no other |
| DenseSlots.StoredRemoved | include/vector/index_dense.hpp:1665-1699 | with unique keys, removing forgets the key's vector and no other |
| DenseSlots.StoredRenamed | include/vector/index_dense.hpp:1758-1780 | with unique keys, renaming carries the vector over to the new key |
| DenseSlots.WithoutKeysAt | include/vector/index_dense.hpp:1726-1746 | a member is removed by a bulk removal exactly if its key is listed |
| DenseSlots.ConsistentUnique | include/vector/index_dense.hpp:2408-2441 | the keys determine the lookup and the set of free slots |
| DenseIndices.DenseIndex.Add | include/vector/index_dense.hpp:2230-2290 | for any key and any index: refuses a duplicate key or a full index unchanged, otherwise uses the oldest free slot, the others keeping their order, or appends; writes the vector beyond its table exactly if the slot has none there; slot partition kept exactly if the key is not the reserved one; stored vectors as a map gain the key |
| DenseIndices.DenseIndex.Remove | include/vector/index_dense.hpp:1665-1699 | all members with the key go, their slots are queued once each behind those that are free, slot partition kept, stored vectors lose the key; with all slots of the lookup used and such members, nothing happens if one is at home, and otherwise looking for them never ends |
| DenseIndices.DenseIndex.RemoveListed | include/vector/index_dense.hpp:1709-1749 | the same for a list of keys, with room reserved for all of them beforehand, even if keys repeat; it succeeds exactly if some slot of the lookup is unused or no listed key is in use, and otherwise the first that is decides how it fails |
| DenseIndices.DenseIndex.Rename | include/vector/index_dense.hpp:1758-1780 | for any keys: refused exactly if keys are unique and the new one is in use, endless exactly if a key in use is renamed to itself where keys may repeat; otherwise every member with the old key and no other has the new one, all bookkeeping is consistent exactly if no member gets the reserved key, and stored vectors are carried over, or forgotten with it |
| DenseIndices.DenseIndex.Get | include/vector/index_dense.hpp:2444-2463 | finds the vector last stored under the key, exactly if a member has it |
| DenseIndices.DenseIndex.GetAll | include/vector/index_dense.hpp:2464-2484 | the vectors of the members with the key, up to the limit; with all slots of the lookup used, none if one is at home, and otherwise as many as the limit, going round |
| DenseIndices.DenseIndex.Size | include/vector/index_dense.hpp:760 | the size is the number of lookup entries |
| DenseIndices.DenseIndex.Contains | include/vector/index_dense.hpp:1626-1631 | says whether a member has the key |
| DenseIndices.DenseIndex.Count | include/vector/index_dense.hpp:1637-1642 | the number of members with the key |
| DenseIndices.DenseIndex.Reserve | include/vector/index_dense.hpp:1050-1096 | the copy of the vector table stays inside the new one exactly if the old one is no larger than the lookup is made; then every slot up to it has room for a vector, and stored vectors stay |
| DenseIndices.ReservingAll | include/vector/index_dense.hpp:1050-1073 | that is so when as much is reserved as there are vectors |
| DenseIndices.LoadThenReserve | include/vector/index_dense.hpp:1050-1073 | for an index that has been loaded: the copy stays inside exactly if the nodes are no more than the slots that the lookup, made for the members left, comes to have |
| DenseIndices.ReservingFewer | include/vector/index_dense.hpp:1050-1073 | an index with a hundred nodes of which ninety are removed, loaded, and twenty reserved: it does not |
| DenseIndices.DenseIndex.Clear | include/vector/index_dense.hpp:1105-1117 | no members are left and, until the next reservation, no room for vectors |
| DenseIndices.DenseIndex.ReindexKeys | include/vector/index_dense.hpp:2408-2441 | rebuilds lookup and free slots, in ascending order, from any keys, the lookup with the slots for the members left; the index is in order exactly if keys that must not repeat do not |
| DenseGraphs.AddedTracked | include/vector/index_dense.hpp:2230-2290 | after the graph has been given a new node, its keys agree with lookup and free slots exactly if the new key is not the reserved one |
| DenseGraphs.ReusedTracked | include/vector/index_dense.hpp:2248-2290 | after the node in the oldest free slot has been connected anew under a new key, they agree as well |
| DenseGraphs.CompactedTracked | include/vector/index_dense.hpp:1954-1967 | after compacting, the old lookup and free slots agree with the graph if and only if every node takes the slot of a node with the same key |
| DenseGraphs.CompactedUnique | include/vector/index_dense.hpp:1954-1967 | where keys are unique, if and only if every member keeps its slot |
| DenseGraphs.EligibleMembers | include/vector/index_dense.hpp:2311-2320 | the filter of a dense search lets pass exactly the members that are looked up under an accepted key |
| DenseGraphs.DenseSearch | include/vector/index_dense.hpp:2292-2322 | a search reports members that are looked up under accepted keys and no free slot, at their distances, each once, closest first, although removed nodes are still in the graph; exhaustive, the first of all of them; otherwise the first of a list that no such member next to a listed one is missing from unless it is full of closer ones |
| DenseGraphs.BestMembers | include/vector/index_dense.hpp:2311-2322 | of what can be reached the list has every member with an accepted key, and as many, if the expansion has room for all that can be reached |
| DenseGraphs.ReachableReported | include/vector/index_dense.hpp:2311-2322 | then as many are reported as are wanted and there are, and no reachable member left out is closer than one reported |
| DenseGraphs.ExactFindsMembers | include/vector/index_dense.hpp:2292-2322 | an exhaustive search for enough results reports exactly the members with accepted keys |
| Tapes.ValueLittleEndian | include/vector/index.hpp:2182-2189 | numbers are read back from their bytes |
| Tapes.NodeBytesProduct | include/vector/index.hpp:4200-4208 | the length of a node's tape is ten bytes, four and four for each place of the base list, and as much by level for the others |
| Tapes.ListOffsets | include/vector/index.hpp:4250-4260 | the lists lie one after the other and fill the tape |
| Tapes.TapeRead | include/vector/index.hpp:2446-2527 | key, level and every list of neighbours are read back from a tape, whatever the rest of the lists' room holds |
| Serialization.SerializedLength | include/vector/index.hpp:3693-3699 | the announced length is the number of bytes written |
| Serialization.SaveToStream | include/vector/index.hpp:3705-3747 | writes header, level table and tapes in this order |
| Serialization.LoadFromStream | include/vector/index.hpp:3754-3818 | reads them back piece by piece, and fails as soon as something is missing or the configuration is refused |
| Serialization.View | include/vector/index.hpp:3951-4022 | for every file: the level table is read inside the file exactly if the guard holds, and then addressing tapes at summed offsets gives the same index as loading, or fails as loading does |
| Serialization.CutOffViewed | include/vector/index.hpp:3985-3991 | of the beginnings of a saved file, exactly those that end inside the level table are read beyond their end |
| Serialization.SequentialIsOffsets | include/vector/index.hpp:3989-3997 | reading tape after tape succeeds exactly if the last offset plus length is within the file, and finds the tapes at their offsets |
| Serialization.SavedThenLoaded | include/vector/index.hpp:3705-3818 | a saved non-empty index is restored in full, with anything behind it in the file |
| Serialization.CutOffRefused | include/vector/index.hpp:3763-3816 | a saved file cut off anywhere is refused |
| Serialization.ConfigurationComesBack | include/vector/index.hpp:3766-3791 | what is saved can be loaded, and the configuration comes back whatever it is loaded into, if and only if the index is not empty |
| Serialization.EmptyForgetsConfiguration | include/vector/index.hpp:3766-3773 | the image the code writes for an empty index, loaded into an index with another configuration, leaves that one |
| Serialization.GraphSavedThenLoaded | include/vector/index.hpp:3705-3818 | keys, levels, all lists of neighbours, entry point and maximal level of a graph come back |
| DenseFile.AnnouncedLength | include/vector/index_dense.hpp:1222-1232 | the announced length, and that it is the number of bytes written exactly if the vectors are left out, the dimensions fit their width, or there are no bytes of vectors |
| DenseFile.SaveToStream | include/vector/index_dense.hpp:1144-1217 | writes dimensions cut to their width, as many rows and columns as those say, the head of 64 bytes, and the graph |
| DenseFile.LoadFromStream | include/vector/index_dense.hpp:1242-1335 | reads them back piece by piece and refuses with the reason of the first that is wrong |
| DenseFile.HeadRead | include/vector/index_dense.hpp:1188-1213 | every field of the head is read back from where it lies |
| DenseFile.MatrixRead | include/vector/index_dense.hpp:1159-1185 | the matrix is read back as it was written, and what is behind it is left for the head |
| DenseFile.ComesBack | include/vector/index_dense.hpp:1144-1335 | a dense index comes back from its file, vectors included, if and only if it has no nodes, or its vectors are in the file and its dimensions fit their width |
| DenseFile.RefusedForSize | include/vector/index_dense.hpp:1334-1335 | loading what was saved is refused exactly if there are nodes and the vectors are left out or too many to be counted in the width of the dimensions |
| DenseFile.CutOffDense | include/vector/index_dense.hpp:1242-1335 | a saved file cut off anywhere is refused |
| DenseLoading.Open | include/vector/index_dense.hpp:1242-1352 | a file that is not refused gives the index its keys, vectors, lookup and free slots; in order exactly if keys that must not repeat do not |
| DenseLoading.SaveAndOpen | include/vector/index_dense.hpp:1144-1352 | saved and opened again, an index has the same keys, the same vector under every key, the same lookup and the same free slots |
| SharedMutex.StepInv | include/vector/index_plugins.hpp:2353-2422 | every atomic step of every call, weak exchanges included, keeps: one writer and no reader, or no writer and the integer counts the readers |
| SharedMutex.RunInv | include/vector/index_plugins.hpp:2353-2422 | so it is in every state of every run of any number of threads below the limit of the counter |
| SharedMutex.MutualExclusion | include/vector/index_plugins.hpp:2338-2423 | a writer is never together with a reader or another writer, and a non-negative integer is the number of readers |
| SharedMutex.EscalatesAlone | include/vector/index_plugins.hpp:2395-2414 | escalating can succeed exactly if no other thread reads |
| SharedMutex.EscalationDeadlock | include/vector/index_plugins.hpp:2409-2414 | once two threads escalate, on no run from there does anybody write |
| SharedMutex.UnlockFrees | include/vector/index_plugins.hpp:2361 | after unlocking nobody holds the lock, and any thread can come to write |
| SharedMutex.DeEscalatedReads | include/vector/index_plugins.hpp:2418-2422 | after de-escalating the thread reads alone |
| SharedMutex.WritingPossible | include/vector/index_plugins.hpp:2349-2422 | in every state that can be reached, every thread can still come to write if and only if at most one thread is escalating |
| SharedMutex.DeadlockReachable | include/vector/index_plugins.hpp:2353-2414 | a run from the beginning that comes to two escalating threads |
| SharedMutex.EscalationPossible | include/vector/index_plugins.hpp:2409-2414 | in every state that can be reached, an escalating thread can still come to write if and only if no other thread is escalating |
| TopologyShape.TwoHops | src/raft/topology.cpp:82-141 | in shape, a node that is fed at all is at most two steps from the leader |
| TopologyShape.SetLeaderShape | src/raft/topology.cpp:47-57 | naming a leader keeps the shape exactly if it is the one there is |
| TopologyShape.PromotedShape | src/raft/topology.cpp:204-216 | making a node a mentor keeps the shape |
| TopologyShape.AsFollowerShape | src/raft/topology.cpp:218-231 | a node made a follower of the chosen source leaves only its own followers out of shape |
| TopologyShape.FedShape | src/raft/topology.cpp:523-537 | giving a follower the chosen source keeps what is in shape |
| TopologyShape.SwappedShape | src/raft/topology.cpp:233-248 | swapping followers keeps the shape exactly if each one there is goes to the leader or a healthy mentor |
| TopologyShape.BalancedShape | src/raft/topology.cpp:82-141 | balancing gives the shape, from any nodes, and leaves no healthy node without a source |
| TopologyShape.BalancedUnique | src/raft/topology.cpp:82-141 | the balanced topology depends only on the known nodes, the leader and the set of healthy ones |
| TopologyShape.BalancedEvenly | src/raft/topology.cpp:124-137 | after balancing there are as many healthy mentors as healthy followers or one more, the mentors' names come first, and at most one mentor has no follower |
| TopologyShape.SelectedMeans | src/raft/topology.cpp:523-537 | said of the nodes alone: the source chosen is the first healthy mentor in order that feeds no healthy follower or this one; where all feed others it is the leader |
| Topologies.RefedShape | src/raft/topology.cpp:539-560 | feeding the followers of a lost or demoted mentor anew makes the shape whole |
| Topologies.CommandKeepsShape | src/raft/topology.cpp:47-289 | of a topology in shape every command keeps the shape, balancing included, exactly unless it names another leader or swaps a follower to a node that may not have one |
| Topologies.RunKeepsShape | src/raft/topology.cpp:47-289 | a run of any commands that starts in shape stays in shape throughout if and only if every command is harmless when it is given |
| Topologies.RunReachesLeader | src/raft/topology.cpp:47-289 | while it does, every node that is fed is at most two steps from the leader, and without registrations no healthy node is left unfed |
| Topologies.BalanceRestores | src/raft/topology.cpp:82-141 | balancing gives the shape back whatever came before |
| Topologies.DemotedMeans | src/raft/topology.cpp:218-231 | a demoted node is a healthy follower of the source chosen for it, and but for the followers it had nobody else changes |
| Topologies.LostMeans | src/raft/topology.cpp:250-268 | a lost node is an unhealthy follower of nobody, and but for the followers it had nobody else changes |
| Topologies.BackMeans | src/raft/topology.cpp:270-289 | a node that is back keeps role and source if it has one, and otherwise follows the source chosen for it; nobody else changes |
| Topologies.TopologyManager.Rebalance | src/raft/topology.cpp:82-141 | fails only if nobody can lead; otherwise the sorted healthy nodes are halved, the first half mentors, rounded up, each of the others following one of them in order; followers are shared out evenly |
| Topologies.TopologyManager.PromoteToMentor | src/raft/topology.cpp:204-216 | exactly that node becomes a mentor |
| Topologies.TopologyManager.DemoteToFollower | src/raft/topology.cpp:218-231 | the node follows the chosen source, then its followers are fed anew in the order of their names |
| Topologies.TopologyManager.SwapFollowers | src/raft/topology.cpp:233-248 | exactly the two followers found change their source; shape kept under the exact condition |
| Topologies.TopologyManager.MarkUnhealthy | src/raft/topology.cpp:250-268 | the node is fed by nobody and its followers are fed anew; the leader stays the leader |
| Topologies.TopologyManager.MarkHealthy | src/raft/topology.cpp:270-289 | a node without a source is given one, any other only becomes healthy |
| Topologies.TopologyManager.SelectSource | src/raft/topology.cpp:523-537 | the first healthy mentor in order that is free or has the follower already, otherwise the leader |
| Topologies.TopologyManager.ReassignFollowers | src/raft/topology.cpp:539-560 | each follower of a node is fed anew with the source chosen at that moment |
| Topologies.TopologyManager.SetLeader | src/raft/topology.cpp:47-57 | the named node is the leader's; the old leader keeps its role |
| DedupWindow.InsertedStamped | src/client/dedup.cpp:217-241 | every entry has its stamp in the queue, so the table never exceeds the window |
| DedupRecency.ExactIffAdjacent | src/client/dedup.cpp:217-241 | at every moment the table is exactly the last ids that fit, now and after any further insertions with fresh indices, for every window size, if and only if no id was inserted again with an index it had after another id was |
| DedupRecency.RecencySpec | src/client/dedup.cpp:76-91 | the ids by recency are the ids inserted, once each, in the order of their last insertions |
| DedupArrivals.TimelyTable | src/client/dedup.cpp:217-241 | if no id returns to an index that it left or was pushed out with, the table is the last ids that fit, by the first insertion of their newest index, each with its newest entry |
| DedupArrivals.ArrivalsSpec | src/client/dedup.cpp:217-241 | the ids by arrival are the ids inserted, once each, in the order in which they took on their indices |
| DedupArrivals.TimelyTaken | src/client/dedup.cpp:217-241 | in such a history that is the first insertion with that index |
| DedupArrivals.TrafficTimely | src/raft/raft_node.cpp:288-302 | requests noted as pending under growing log indices and recorded under the same, less than a window later, are such a history |
| DedupArrivals.TrafficTable | src/raft/raft_node.cpp:1989-1990 | for them the table is at every moment the requests with the highest log indices that fit |
| DedupRecency.OvertakenNotExact | src/client/dedup.cpp:217-241 | an id inserted again with its index after another one: in a window with room for all, some further fresh insertions evict it although it was inserted after the other |
| DedupOrder.KeptOrder | src/client/dedup.cpp:217-241 | a pending request recorded under its own index keeps its place in the order of eviction |
| DedupOrder.MovedOrder | src/client/dedup.cpp:217-241 | any other insertion comes last, unless others stand behind a stamp like its own; then the first ones go |
| DedupOrder.EvictedOrder | src/client/dedup.cpp:223-241 | eviction takes the ids from the front of the order |
| DedupTables.DedupTable.TrackPending | src/client/dedup.cpp:43-74 | inserts a pending entry only for an id that is neither empty nor known, and answers the status before |
| DedupTables.DedupTable.Record | src/client/dedup.cpp:76-91 | inserts or replaces the committed entry; an empty id changes nothing |
| DedupTables.DedupTable.Check | src/client/dedup.cpp:28-41 | not found exactly if the id has no entry, and otherwise pending or committed as the entry is, with the entry |
| DedupTables.DedupTable.SaveTo | src/client/dedup.cpp:93-120 | the records are exactly the committed entries, by log index and then id |
| DedupTables.DedupTable.LoadFrom | src/client/dedup.cpp:157-206 | a missing file empties the table, an unreadable one or an empty id leaves it, any other is inserted by log index and then id |
| DedupTables.SnapshotUnique | src/client/dedup.cpp:93-120 | a table has one list of records, however it is gone through |
| Texts.BelowMeans | src/client/dedup.cpp:104-110 | one id is below another exactly if it is the beginning of it, or has the smaller character where they first differ |
| DedupTables.RoundTrip | src/client/dedup.cpp:93-206 | loading what was saved gives exactly the committed entries, the last ones if they do not fit, queued in order, and saving again gives the same records |

## Left out

- Concurrency of the index: insertion, update and join are modelled for one thread; the striped node locks, the queue mutex and the progress callbacks are not part of this model. The join's own lock bits are, and no wait on them blocks.
- Failing allocations: memory is always available. The branches that report it are left out.
- Distances as floating-point numbers: rounding and values that are not numbers are not modelled.
- Metrics, scalar conversions, SIMD dispatch, clustering, and the random choice of levels: parameters, or without an exact statement to prove.
- Quality of the approximate search beyond local optimality and the case of a large expansion: there is no exact statement.
- Statistics that searches and joins count, and the contents of error messages.
- Join.Join: the default number of proposals, the natural logarithm of the smaller size cut to an integer plus the number of threads (`include/vector/index.hpp:4989`), is a parameter. Where a proposal cannot be counted the code reads the last of no results; the model stops there. Exhaustive search is modelled; with the approximate one the candidates of a man need not be his closest, and nothing is promised about stability.
- DenseIndices.DenseIndex.RemoveListed: where members lose their lookup entries and keep their slots, the model stops, and promises nothing about the listed keys after them. Likewise where an iteration or a renaming never ends, the model answers so instead of going on.
- Key lookups switched off, vectors kept by reference instead of by copy, exporting keys, merging and copying of dense indexes.
- Compaction of the dense index: the vectors move with their nodes; what lookups then answer is not modelled beyond `DenseGraphs.CompactedTracked`.
- HnswIndices.HnswIndex.Compact: for an empty index the code reads the renumbering table out of bounds (`include/vector/index.hpp:4137`); the model stops there, as `Add` does where the node table has no slot.
- HnswIndices.HnswIndex.Reserve: the numbers of threads are left out; more threads with fewer members would make a shorter table.
- HnswIndices.HnswIndex.Isolate: a debug assertion about the unused room of a list (`include/vector/index.hpp:4340`) can fail after isolation because stale slots stay behind the shortened list; the model has no such room except in `Tapes`.
- HnswIndices.HnswIndex.Add: memory of an index that has just been cleared, and the case of a concurrent addition that raises the top level, are left out.
- Serialization.LoadFromStream: levels and the top level are taken as unsigned 16-bit numbers, sizes as unbounded ones; a damaged file can make them negative or overflow in the code.
- DenseFile.LoadFromStream: which metric the kinds in the head stand for is left out; that the width of the rows in the file is that of a vector of the metric is checked neither by the code nor by the model. Sizes are unbounded numbers, and memory for them is there.
- Viewing the file of a dense index in place, metadata read from a file without loading it, memory mapping and other input and output.
- A vector of a dense index is the bytes it is stored as; how scalars are cast to bytes and back is left out.
- SharedMutex.RunInv: the number of threads is below 2 to the 31st; memory orders weaker than a single order of the steps on one integer do not arise.
- Addresses of topology nodes, the views of single nodes exchanged as messages (`src/raft/topology.cpp:291-430`), and logging.
- DedupTables.DedupTable.LoadFrom: the file is a sequence of records, or missing, unreadable or garbled; the bytes and the replacement of the file on disk are left out.
- `RaftNode`, `WAL`, `SnapshotStore`, `VectorIndex`, `LeaseManager`, `IndexMaintenance`, the RPC client and server, configuration and logging are not part of this model.
