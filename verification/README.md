# A verified model of OxiDD's core

OxiDD keeps decision diagrams as reference-counted nodes in a store, makes every node unique by
hash tables, memoises operations in a lossy cache, and exchanges diagrams and problems with other
tools through file formats. This project models the parts of it in which one mistake silently
changes functions, and proves what they promise. Where the code does not keep a promise, the
project proves exactly when it does. `dafny verify dfyconfig.toml` checks everything.

| files | what they model |
|---|---|
| `Numbers`, `Diagrams`, `RefCounts` | the terminals of the integer MTBDDs, node stores and the functions they denote, reference counts |
| `Operators`, `Managers` | the terminal cases of `apply`, and the manager with unique tables, cache, `apply`, and garbage collection |
| `Probing`, `RawTable` | the linear-probing hash table |
| `LevelTables`, `Protocol` | the unique tables as such hash tables; any number of mutator threads and a collector that runs among them, as a state machine |
| `UniqueRuns`, `DuplicateRun`, `CachedRuns` | when the nodes of a run are unique, and when cache hits are right |
| `SlotAllocator`, `ArcSlab` | the two slot allocators, as state machines over their critical sections and atomic operations |
| `NodeCount` | node sets and node counting |
| `Codec`, `Bcdd`, `Dddmp`, `DddmpExport` | the binary DDDMP format: integers, escaping, complement-edge diagrams, import, export |
| `Toposort`, `Aiger`, `ClauseTree` | ASCII AIGER normalisation; clause order trees and the conjunction along them |
| `Options`, `Collections` | optional values, facts about sequences and sets |

## How the model relates to the code

* Code that mutates objects or arrays is modelled by classes, arrays and methods (`Manager`,
  `RawTable`, `NodeSet`, `Toposort.Visit`, `Aiger.Parse`, `ClauseTree.Reader`, ...). Their
  contracts speak about functions and predicates on values, and the lemmas prove what these mean.
  Code that is run by several threads is modelled by one step per critical section or atomic access.
* Terminals are hash-consed by a terminal manager that is not part of this model; a terminal edge is
  its value. What the manager's surroundings decide is given by unconstrained constants of the
  `Manager`: the vacant slots that other threads hold (`reserved`), the terminals that cannot be
  provided (`scarce`), whether other threads lock cache entries (`contended`), the order of the raw
  edges (`above`), and the hash function. So every out-of-memory path is covered, and the contracts say
  which call fails when. Changes while a call is in progress are what `Protocol` is about.
* `Protocol` keeps the unique table of every level as the slots of a linear-probing table. A lookup
  finds only entries that can be reached from their home slot; a table may be rebuilt before a
  lookup; and the sweep of a level leaves what `RawTable::retain` leaves. The sequential `Manager`
  abstracts the tables to the set of `hidden` nodes that lookups miss: a sweep may hide any node of
  its level, and a lookup may show any of them again.
* `Operators.Use` says which of the operators Min and Max have been used with a cache. The ghost
  parameter `use` of the manager's methods selects what is to be proved: `Mixed` permits everything
  and promises the minimum or the maximum, `OnlyMin` and `OnlyMax` promise the operator itself.
* The table's bit masks `hash & (len - 1)` are written as remainders by a power of two. Builds
  without overflow checks are modelled; where an operation wraps around (and would panic with
  overflow checks) the contracts say so: `wraps` in `RawTable`, `GARBAGE` in `Aiger`.
* `Dddmp`, `Codec`: `WORD` is 2^64, machine integers wrap explicitly. An import that indexes out of
  range (and panics) is treated like its error returns.
* `Aiger` collects the referencing literals of a file (latch inputs, outputs, bad states,
  invariants, justice, fairness) in groups. `Fault` (`SlotAllocator`) and `OutOfRange` (`Toposort`,
  `Aiger`) stand for accesses out of range.
* `ArcSlab`: the borrow checker's rule that references to the slab, and internal handles with them,
  do not outlive what they were borrowed from is the condition `Outlived`.

## Where the code departs from what it promises

Each of these has an exact condition and a concrete example in the project.

* `RawTable::retain` does not reset `last_is_free` at kept slots
  (crates/linear-hashtbl/src/raw.rs:701-714), so that a sweep can cut a kept entry off from lookup.
  The contract of `Retain` says exactly when. In the manager, the next insertion of such a node
  duplicates it: canonicity holds in all states of a run exactly if no insertion duplicates a node
  (`UniqueRuns.RunCanonical`), which cannot happen before a sweep has cut a node off
  (`UniqueRuns.RunIntact`) and is possible from then on (`UniqueRuns.MissDuplicates`).
  `DuplicateRun.DuplicateReached` is a run of 26 steps that duplicates a node. Counts, memory safety and the
  meaning of edges do not depend on this.
* `terminal_bin` caches `Max` under the key `Min` (crates/oxidd-rules-mtbdd/src/lib.rs:203-204). Once
  both have been used, `apply` may return the minimum or the maximum for either, at each valuation;
  nothing else is affected. A shared entry is right for both exactly if the operands agree or one is NaN
  everywhere (`SharedKeyConflict`), and otherwise the wrong hit is reachable (`SharedKeyReached`).
* `terminal_bin` returns `g` for `0 - g` (crates/oxidd-rules-mtbdd/src/lib.rs:139). `Computed` is the
  function that `apply` really computes; `ComputedExact` and `ApplyPointwise` say exactly when this
  is the pointwise difference, `UnnegatedExample` is a failing input.
* Sums and differences that overflow downwards become plus infinity, and `0 - i64::MIN` becomes minus
  infinity (crates/oxidd-rules-mtbdd/src/terminal/int64.rs:118-123, 142-147): `SumSaturates` and
  `DifferenceSaturates` give the exact conditions.
* Products with an infinity, and quotients of an infinity by an integer, ignore the sign of the other
  operand (crates/oxidd-rules-mtbdd/src/terminal/int64.rs:160-205): plus infinity times -1 is plus
  infinity. `ProductLimits` and `QuotientLimits` give the whole table.
* A rehash to no slots computes `0 - 1` (crates/linear-hashtbl/src/raw.rs:327, 342); `Retain` gets there
  exactly if it drops all entries of a table that had some.
* A thread foreign to the store that takes the last slot of a shared list pushes the list head 0
  (crates/oxidd-manager-index/src/manager.rs:664-668). Everything stays in order until some thread
  takes that head: an action faults exactly then (`ActKeepsInv`, `RunSafe`, `EmptiedListExample`).
* A threshold flush in `free_slot` loses one decrement, and a failed allocation is counted
  (crates/oxidd-manager-index/src/manager.rs:633, 734-737). The node count over-reports by exactly
  the number of these events.
* The local store guard leaves its thread attached if there is nothing to give back
  (crates/oxidd-manager-index/src/manager.rs:875-881); the model does the same.
* `checked_shl(7)` in `decode_7bit` never reports overflow (crates/oxidd-dump/src/dddmp.rs:866):
  decoding yields the value modulo 2^64, and the encoded value exactly if it is below 2^64.
* An undefined AIGER literal is recognised only if it is odd (crates/oxidd-parser/src/aiger.rs:492-521).
  An even one becomes 2^64 - 2; `Accepted` is the exact condition under which the parser succeeds,
  and `UnnoticedExample` a file that it accepts although its output is undefined.
* An order tree without leaves is accepted with the maximum 0 (crates/oxidd-parser/src/dimacs.rs:87-115).

## Model

| member | source | states |
|---|---|---|
| `Numbers.SumSaturates` | crates/oxidd-rules-mtbdd/src/terminal/int64.rs:112-129 | a sum of integers is the saturated sum if and only if it does not overflow downwards |
| `Numbers.DifferenceSaturates` | crates/oxidd-rules-mtbdd/src/terminal/int64.rs:136-153 | a difference is the saturated difference if and only if it neither overflows downwards nor negates the least integer |
| `Numbers.ProductSaturates` | crates/oxidd-rules-mtbdd/src/terminal/int64.rs:160-177 | a product is the saturated product |
| `Numbers.QuotientTruncates` | crates/oxidd-rules-mtbdd/src/terminal/int64.rs:184-205 | a quotient of integers truncates toward zero: dividend = divisor * quotient + remainder, the remainder is smaller than the divisor and has the dividend's sign; only the least integer divided by -1 overflows, to plus infinity |
| `Numbers.QuotientLimits` | crates/oxidd-rules-mtbdd/src/terminal/int64.rs:184-205 | quotients by 0, by an infinity and of an infinity |
| `Numbers.SumLimits` | crates/oxidd-rules-mtbdd/src/terminal/int64.rs:112-153 | an infinity absorbs every summand except the opposite infinity and NaN, also in differences |
| `Numbers.ProductLimits` | crates/oxidd-rules-mtbdd/src/terminal/int64.rs:160-177 | an infinity absorbs every factor except the opposite infinity and NaN, whatever the factor's sign |
| `Numbers.CompareDecides` | crates/oxidd-rules-mtbdd/src/terminal/int64.rs:56-69 | comparison decides the order of the extended integers, in which NaN is comparable to itself only |
| `Numbers.MinMaxBounds` | crates/oxidd-rules-mtbdd/src/lib.rs:176-207 | minimum and maximum are the greatest lower and the least upper bound in that order, and NaN if an operand is |
| `Numbers.Commutes` | crates/oxidd-rules-mtbdd/src/terminal/int64.rs:107-182 | addition, multiplication, minimum and maximum commute also where they saturate, so apply may order operands |
| `Numbers.MinMeetsMax` | crates/oxidd-rules-mtbdd/src/terminal/int64.rs:56-69 | minimum and maximum coincide exactly for equal operands or a NaN |
| `Diagrams.Distinguish` | crates/oxidd-core/src/lib.rs:76-92 | for any two different edges of an ordered, reduced store without duplicates there is a valuation that tells them apart |
| `Diagrams.Canonicity` | crates/oxidd-core/src/lib.rs:76-128 | strong canonicity: two edges of a canonical store denote the same function if and only if they are equal |
| `Diagrams.CanonicityExact` | crates/oxidd-core/src/lib.rs:76-128 | in an ordered and reduced store, strong canonicity holds if and only if no node is stored twice |
| `Diagrams.EvalFrame` | crates/oxidd-core/src/lib.rs:165-192 | adding nodes leaves the function of every existing edge unchanged |
| `Diagrams.InsertKeepsRegular` | crates/oxidd-core/src/lib.rs:171-192 | inserting an irredundant node keeps the store ordered and reduced, and keeps its nodes unique if and only if the node was not stored |
| `RefCounts.ReleaseKeepsCounted` | crates/oxidd-manager-index/src/manager.rs:752-775 | dropping a held edge keeps all counts exact and never drops the last reference |
| `RefCounts.InsertKeepsCounted` | crates/oxidd-manager-index/src/manager.rs:554-607 | a new node with count 2 takes over its children's edges, all counts stay exact |
| `RefCounts.CountOneUnreferenced` | crates/oxidd-manager-index/src/manager.rs:1292-1299 | a count of 1 means that no held edge and no parent names the node |
| `RefCounts.RemoveKeepsCounted` | crates/oxidd-manager-index/src/manager.rs:1300-1312 | freeing such a node and dropping its child edges keeps all counts exact, without underflow |
| `RefCounts.ReachableCounted` | crates/oxidd-manager-index/src/manager.rs:1292-1299 | what can be reached from held edges has a count above 1, so it is not collected |
| `Operators.ComputedExact` | crates/oxidd-rules-mtbdd/src/lib.rs:129-145 | at each valuation apply yields the pointwise operation if and only if it is not a difference whose `f` ends in 0 above the end of `g` with `g` neither 0 nor NaN |
| `Operators.TerminalBinCorrect` | crates/oxidd-rules-mtbdd/src/lib.rs:109-215 | every terminal case yields the computed function, or an equivalent operand pair, at least one of them inner, with the key used for the cache |
| `Operators.ComputedDescends` | crates/oxidd-rules-mtbdd/src/apply_rec.rs:38-62 | the computed function of the cofactors at the top level is the cofactor of the computed function |
| `Operators.SoundFrame` | crates/oxidd-cache/src/direct.rs:147-246 | a cache entry that is right stays right when nodes are added |
| `Operators.EntrySound` | crates/oxidd-rules-mtbdd/src/apply_rec.rs:64-66 | the entry that apply adds is right, for every use of the cache that permits the operator |
| `Operators.HitDenotes` | crates/oxidd-rules-mtbdd/src/apply_rec.rs:32-36 | a hit on a right entry is an acceptable result: the operator itself, or the minimum or maximum once both have been used |
| `Operators.MixedPointwise` | crates/oxidd-rules-mtbdd/src/lib.rs:176-207 | once Min and Max have been mixed, a result is the minimum or the maximum at each valuation, and the operator itself where the operands agree or one is NaN |
| `Operators.SharedKeyConflict` | crates/oxidd-rules-mtbdd/src/lib.rs:176-207 | Min and Max look up the same entry; the result of one answers the other correctly if and only if the operands agree or one is NaN at every valuation |
| `Operators.SharedKeyExample` | crates/oxidd-rules-mtbdd/src/lib.rs:203-204 | operands for which the shared key yields a wrong hit |
| `Operators.UnnegatedExample` | crates/oxidd-rules-mtbdd/src/lib.rs:139 | a difference that apply gets wrong |
| `Managers.ApplyPointwise` | crates/oxidd-rules-mtbdd/src/apply_rec.rs:19-73 | unless Min and Max have been mixed, the result of apply is the pointwise operation at all valuations if and only if no valuation is in the failing case of subtraction |
| `Managers.CombineCofactors` | crates/oxidd-rules-mtbdd/src/apply_rec.rs:49-62 | the node over the results for the cofactors denotes the result for the operands, for every use of the cache |
| `Managers.KeptReachable` | crates/oxidd-manager-index/src/manager.rs:1035-1042 | after the levels above have been swept, a node with a count above 1 is reachable from a held edge |
| `Managers.Manager.GetOrInsert` | crates/oxidd-manager-index/src/manager.rs:1253-1285 | whether it hits, inserts or runs out of memory: the manager stays consistent, the children's edges are consumed, exactly the result is gained; it inserts only if lookup misses all copies of the node, and nodes stay unique if and only if there was none; it fails only if no slot is left and lookup misses all copies |
| `Managers.Manager.Reduce` | crates/oxidd-rules-mtbdd/src/lib.rs:33-72 | reduce-then-insert denotes "if variable then `t` else `e`", does not lie above the level, consumes both edges and leaks none on out-of-memory; equal children never fail, and others only if no slot is left and lookup misses all copies of the node |
| `Managers.Manager.AddLevel` | crates/oxidd-manager-index/src/manager.rs:970-979 | a new level with its first node keeps the manager consistent and its nodes unique; it fails if and only if no slot is left, and then adds nothing |
| `Managers.Manager.CacheGet` | crates/oxidd-cache/src/direct.rs:147-203 | a lookup returns what is remembered for the key and operands and clones its edge; it may miss it only if entries can be locked |
| `Managers.Manager.CacheAdd` | crates/oxidd-cache/src/direct.rs:206-246 | the entry is stored in its bucket (skipped only if entries can be locked), all entries stay right, and no count changes |
| `Managers.StoredRecalled` | crates/oxidd-cache/src/direct.rs:147-246 | a stored entry is what the next lookup of its key and operands finds, and other buckets remember what they did |
| `Managers.Manager.ApplyBin` | crates/oxidd-rules-mtbdd/src/apply_rec.rs:19-73 | for all diagrams, any lossy cache and any mix of operators apply terminates; its result denotes the computed operation (minimum or maximum at each valuation if both have been used); store, counts and cache stay consistent, existing nodes are unchanged, nodes stay unique if lookups find all of them; exactly the result is gained, nothing on out-of-memory, which needs a full store or a missing terminal; shared operands and terminals are returned as they are, and computed results are remembered |
| `Managers.Manager.ApplyCached` | crates/oxidd-rules-mtbdd/src/apply_rec.rs:32-66 | a remembered result is handed out, another one is computed and then remembered |
| `Managers.Manager.ApplyBoth` | crates/oxidd-rules-mtbdd/src/apply_rec.rs:49-62 | both cofactors' results denote the operation on the cofactors; if the second call fails, the first result is dropped |
| `Managers.Manager.ApplySplit` | crates/oxidd-rules-mtbdd/src/apply_rec.rs:38-62 | the same as for apply in the recursive case: cofactors, two calls, reduce |
| `Managers.Manager.SweepLevel` | crates/oxidd-manager-index/src/manager.rs:1292-1313 | sweeping a level removes exactly its nodes that are unreachable from held edges; afterwards lookups may miss nodes of this level only |
| `Managers.Manager.Gc` | crates/oxidd-manager-index/src/manager.rs:1015-1060 | one top-down collection keeps exactly the nodes reachable from held edges, and reports how many nodes and terminals it removed; a concurrent call does nothing |
| `Probing.HomeFromStatus` | crates/linear-hashtbl/src/raw.rs:125-184 | the home slot from the full hash is the one from the stored status, for every permitted capacity |
| `Probing.InsertVisible` | crates/linear-hashtbl/src/raw.rs:575-590 | storing an entry in the first free slot or a tombstone before it keeps every visible entry visible |
| `Probing.RemoveVisible` | crates/linear-hashtbl/src/raw.rs:613-632 | vacating a slot, to free only before a free slot, keeps the other visible entries visible |
| `Probing.RetainedVisible` | crates/linear-hashtbl/src/raw.rs:677-715 | the sweep of retain keeps a kept entry visible if and only if its probe sequence crosses no slot that the sweep frees |
| `Probing.RetainedFindable` | crates/linear-hashtbl/src/raw.rs:677-715 | after the sweep all kept entries are findable if and only if none of them is cut off |
| `Probing.RetainCutsOff` | crates/linear-hashtbl/src/raw.rs:701-714 | a findable table for which retain frees the home slot of a kept entry |
| `RawTables.CapacityEnough` | crates/linear-hashtbl/src/raw.rs:281-288 | the chosen capacity is a power of two, at least 16, three quarters of it suffice for the request (of half of it they do not, above 16), and it is 0 exactly for no request |
| `RawTables.NoneBeyondFree` | crates/linear-hashtbl/src/raw.rs:442-470 | a probe that meets a free slot may stop: no visible entry matches |
| `RawTables.RawTable.WithCapacity` | crates/linear-hashtbl/src/raw.rs:253-272 | a new table is valid, empty and has the requested room |
| `RawTables.RawTable.Find` | crates/linear-hashtbl/src/raw.rs:442-470 | terminates, and finds a matching visible entry exactly if there is one |
| `RawTables.RawTable.ReserveRehash` | crates/linear-hashtbl/src/raw.rs:326-366 | rehashing preserves the multiset of entries, makes all of them visible, removes all tombstones and makes `free` exact; the mask wraps around exactly if there is nothing to store |
| `RawTables.RawTable.Reserve` | crates/linear-hashtbl/src/raw.rs:319-324 | afterwards there is room for the requested insertions, and nothing moves if there was; the mask never wraps around |
| `RawTables.RawTable.InsertReserved` | crates/linear-hashtbl/src/raw.rs:319-324 | after reserving, that many insertions never rehash |
| `RawTables.RawTable.FindOrFindInsertSlot` | crates/linear-hashtbl/src/raw.rs:472-504 | a matching entry, or the knowledge that no visible entry matches and a slot where an entry will be visible |
| `RawTables.RawTable.InsertInSlot` | crates/linear-hashtbl/src/raw.rs:575-590 | adds exactly one entry, which is visible, and keeps the others visible |
| `RawTables.RawTable.RemoveAtSlot` | crates/linear-hashtbl/src/raw.rs:613-632 | removes exactly the entry of the slot and keeps the others visible |
| `RawTables.RawTable.RemoveEntry` | crates/linear-hashtbl/src/raw.rs:595-601 | removes one matching entry, or nothing if no visible one matches |
| `RawTables.RawTable.Clear` | crates/linear-hashtbl/src/raw.rs:371-391 | removes all entries; the early end of the loop misses none, and `free` stays a lower bound |
| `RawTables.RawTable.Retain` | crates/linear-hashtbl/src/raw.rs:677-725 | keeps exactly the entries that satisfy the predicate and hands out the others; a table that finds everything still does if and only if it was shrunk or nothing was cut off; the mask wraps around if and only if everything was dropped |
| `LevelTables.InsertLists` | crates/oxidd-manager-index/src/manager.rs:1253-1285 | after an insertion the table of a level holds exactly the nodes of the level, and finds all of them if it did before |
| `LevelTables.SweepLists` | crates/oxidd-manager-index/src/manager.rs:1292-1313 | after a sweep the table holds exactly the nodes of the level, and finds all of them, if it did before, if and only if it shrinks or nothing is cut off |
| `LevelTables.FindableMisses` | crates/oxidd-manager-index/src/manager.rs:1201-1208 | a table that finds all its entries misses only nodes that are not stored |
| `Protocol.MutateKeepsInv` | crates/oxidd-manager-index/src/manager.rs:752-791 | every step of a mutator thread (clone, drop, hand over, reduce, find or insert, add level, cache hit, any cache put) keeps order, exact counts, table contents, live cache entries and the lock discipline, also during a collection |
| `Protocol.CollectKeepsInv` | crates/oxidd-manager-index/src/manager.rs:1015-1060 | so does every step of the collector, which also keeps unique nodes unique |
| `Protocol.GuardsHold` | crates/oxidd-manager-index/src/manager.rs:752-791 | no count ever underflows: whatever a thread owns can be dropped, whatever is stored or cached can be cloned |
| `Protocol.FreedUnreferenced` | crates/oxidd-cache/src/direct.rs:399-417 | the node the collector is about to free is named by no thread, no parent and no cache entry |
| `Protocol.RunInv` | crates/oxidd-manager-index/src/manager.rs:1015-1060 | the invariant holds in every state of every interleaving |
| `Protocol.RunFreesUnreferenced` | crates/oxidd-manager-index/src/manager.rs:1292-1313 | in every run a slot is freed only when nothing names it |
| `Protocol.RunHitsLive` | crates/oxidd-cache/src/direct.rs:351-384 | in every run a cache hit yields an edge to a stored node, although cached edges are uncounted |
| `Protocol.RunCounts` | crates/oxidd-manager-index/src/manager.rs:554-607 | in every run each node's count is 1 plus the edges held by all threads plus its parents' edges |
| `Protocol.StepKeepsMeaning` | crates/oxidd-manager-index/src/manager.rs:1015-1060 | what any thread can reach survives every step with its meaning |
| `Protocol.RunKeepsMeaning` | crates/oxidd-manager-index/src/manager.rs:1015-1060 | an edge denotes the same function for as long as some thread keeps it, whatever the threads and the collector do |
| `Protocol.RunGains` | crates/oxidd-manager-index/src/manager.rs:1253-1285 | in every run, whichever thread reduces, finds, inserts or adds a level gains exactly one edge, which denotes "if the node's variable then `t` else `e`" at all valuations, and gives up the two children; a hit gains exactly the value of the entry; nobody else's edges change, the receiver of an edge excepted |
| `UniqueRuns.StepUnique` | crates/oxidd-manager-index/src/manager.rs:1253-1285 | a step keeps nodes unique if and only if it does not insert a node that is stored already |
| `UniqueRuns.RunCanonical` | crates/oxidd-core/src/lib.rs:76-192 | two edges denote the same function if and only if they are equal, in all states of a run, if and only if no insertion has duplicated a stored node |
| `UniqueRuns.RunFindable` | crates/linear-hashtbl/src/raw.rs:677-725 | lookups find all nodes in all states of a run if and only if every sweep shrank its table or cut nothing off |
| `UniqueRuns.RunIntact` | crates/oxidd-manager-index/src/manager.rs:1253-1313 | as long as no sweep has cut a node off, strong canonicity holds |
| `UniqueRuns.CutLoses` | crates/linear-hashtbl/src/raw.rs:701-714 | a sweep that cuts off leaves a stored node that lookups miss |
| `UniqueRuns.MissDuplicates` | crates/oxidd-manager-index/src/manager.rs:1253-1285 | whenever lookups miss a stored node, a thread that owns edges to its children can insert a second copy, and canonicity is lost |
| `DuplicateRun.DuplicateReached` | crates/oxidd-manager-index/src/manager.rs:1253-1313 | a run from the empty manager in which a node gets duplicated |
| `CachedRuns.RunSound` | crates/oxidd-cache/src/direct.rs:351-417 | if only right entries are put into the cache, all entries are right in all states of a run |
| `CachedRuns.RunHitsRight` | crates/oxidd-cache/src/direct.rs:351-384 | then every hit is an acceptable answer to the query: exact if only one of Min and Max has been used, otherwise the minimum or the maximum |
| `CachedRuns.SharedKeyReached` | crates/oxidd-rules-mtbdd/src/lib.rs:203-204 | whenever a thread has computed one of Min and Max, a run continues with the other operator hitting that result, which is right if and only if the operands agree or one is NaN everywhere |
| `SlotAllocator.ActKeepsInv` | crates/oxidd-manager-index/src/manager.rs:554-750 | allocation, release, flush, attach and detach, by attached or foreign threads, keep every slot in exactly one place, all lists acyclic and the node count exact up to its known excess, and hand out free slots only, unless they fault; they fault if and only if they take the head of an empty shared list |
| `SlotAllocator.DetachMoves` | crates/oxidd-manager-index/src/manager.rs:836-883 | a guard with free slots, a chunk or a delta gives all of it back: every slot of its list and its chunk is on one new shared list, its delta is in the shared count, and nothing else moves |
| `SlotAllocator.FlushMoves` | crates/oxidd-manager-index/src/manager.rs:2084-2090 | flushing a thread that has free slots shares its list and its delta, and moves nothing else |
| `SlotAllocator.AttachMoves` | crates/oxidd-manager-index/src/manager.rs:538-552 | a thread starts with no slots and no delta, and attaching moves no slot |
| `SlotAllocator.ReleaseMoves` | crates/oxidd-manager-index/src/manager.rs:722-750 | a released slot is free and is what the thread (or any foreign thread, if a foreign one released it) gets next, unless the release flushes the list to a shared one, which happens exactly at the threshold |
| `SlotAllocator.AllocMoves` | crates/oxidd-manager-index/src/manager.rs:554-682 | handing out a slot makes it live, moves no slot of another thread and no other slot but those of the chunk or list that the thread takes over; the delta is flushed when a shared slot is needed |
| `SlotAllocator.EmptiedListFaults` | crates/oxidd-manager-index/src/manager.rs:658-672 | after a foreign thread has emptied a shared list, the next allocation of any thread that needs a shared slot dereferences id 0 |
| `SlotAllocator.EmptiedListExample` | crates/oxidd-manager-index/src/manager.rs:658-672 | a run that empties the shared list, a continuation that faults, and one that repairs the list |
| `SlotAllocator.OutOfMemoryMeansHeld` | crates/oxidd-manager-index/src/manager.rs:629-682 | out of memory means that every slot is live or held by another thread |
| `SlotAllocator.RunSafe` | crates/oxidd-manager-index/src/manager.rs:554-883 | in every state of every run each slot is in exactly one place and shared count plus deltas exceeds the live nodes by exactly the flushes and failures; any next action faults if and only if it takes an empty shared list's head, and never hands out a live slot |
| `NodeCount.NodeSet.Insert` | crates/oxidd-manager-index/src/manager.rs:2382-2394 | the growing bit vector refines a set of ids with its size; reports whether the id is new |
| `NodeCount.NodeSet.Remove` | crates/oxidd-manager-index/src/manager.rs:2407-2416 | removes the id and reports whether it was there |
| `NodeCount.Mark` | crates/oxidd-core/src/function.rs:144-152 | the recursive marking terminates and adds exactly the nodes below the edge |
| `NodeCount.Count` | crates/oxidd-core/src/function.rs:143-159 | the result is the number of distinct nodes, terminals included |
| `Codec.EscapeTable` | crates/oxidd-dump/src/dddmp.rs:824-836 | the bytes 0x00, 0x0a, 0x0d and 0x1a are written as zero and their position in this list, all others as themselves |
| `Codec.EncodedFormat` | crates/oxidd-dump/src/dddmp.rs:810-822 | the encoding is the only byte string that spells the number in base 128 with the upper seven bits, has the lowest bit set in all bytes but the last, and no leading zero |
| `Codec.EscapedIsText` | crates/oxidd-dump/src/dddmp.rs:824-836 | escaped output contains no 0x0a, 0x0d or 0x1a |
| `Codec.DecodeEncoded` | crates/oxidd-dump/src/dddmp.rs:810-875 | decoding an encoded integer yields it modulo 2^64, hence itself exactly if it is below 2^64, and leaves the rest of the stream |
| `Codec.DecodeEncodedList` | crates/oxidd-dump/src/dddmp.rs:810-875 | the code is self-delimiting: any list of machine integers is read back from the concatenated stream |
| `Codec.Encode7bit` | crates/oxidd-dump/src/dddmp.rs:810-822 | the buffer index never underflows, and the loop writes the specified bytes |
| `Codec.Decode7bit` | crates/oxidd-dump/src/dddmp.rs:862-875 | the loop reads what the specification of decoding says, including truncated input |
| `Bcdd.Canonicity` | crates/oxidd-rules-bdd/src/complement_edge/mod.rs:73-111 | strong canonicity with complement edges: two edges denote the same function if and only if they are equal |
| `Bcdd.Reduce` | crates/oxidd-rules-bdd/src/complement_edge/mod.rs:83-111 | reduction with complement edges keeps the store canonical and denotes "if variable then `t` else `e`", unless the store is full |
| `Dddmp.RecWritten` | crates/oxidd-dump/src/dddmp.rs:674-802 | records are written in the format: one byte with the codes 0 to 3 of the variable, the then- and the else-edge and the complement, followed by an id, a distance or nothing for each of the codes |
| `Dddmp.ReadChild` | crates/oxidd-dump/src/dddmp.rs:1130-1145 | every reference in the format, by whatever code, is read as the id it stands for, without underflow of the index subtraction |
| `Dddmp.ReadVariable` | crates/oxidd-dump/src/dddmp.rs:1155-1197 | every variable in the format is read as the one it stands for |
| `Dddmp.ReadBytes` | crates/oxidd-dump/src/dddmp.rs:1147-1197 | every record in the format, also one that another program has coded differently, is read as its node, and reading stops behind it |
| `Dddmp.DumpWritten` | crates/oxidd-dump/src/dddmp.rs:729-802 | the concatenated records of a dump are in the format |
| `Dddmp.CopiesDiffer` | crates/oxidd-dump/src/dddmp.rs:1199-1212 | different nodes of a dump get different copies, so reduction never merges them |
| `Dddmp.ImportBin` | crates/oxidd-dump/src/dddmp.rs:1106-1215 | whatever the input, the store stays canonical and keeps its nodes; each copy denotes the function of its node in the records that were read; the import stops only where a record cannot be read, its variable is refused, or the store is full; a dump in the format is accepted unless the store gets full, consumed exactly, and every node gets its copy |
| `DddmpExport.CollectRoots` | crates/oxidd-dump/src/dddmp.rs:541-573 | the traversal collects exactly the nodes below the roots |
| `DddmpExport.Number` | crates/oxidd-dump/src/dddmp.rs:575-595 | ids are contiguous, bottom-up, one for each node; the support variables are exactly the levels with nodes, top-down |
| `DddmpExport.RecordsAreDump` | crates/oxidd-dump/src/dddmp.rs:729-802 | the records of a canonical diagram form a reduced, duplicate-free dump with children first |
| `DddmpExport.RecordsValue` | crates/oxidd-dump/src/dddmp.rs:748-802 | the records denote the functions of the exported nodes |
| `DddmpExport.RootWritten` | crates/oxidd-dump/src/dddmp.rs:660-672 | the id of a root is negative exactly for a complemented edge, and names the node of its target |
| `DddmpExport.Export` | crates/oxidd-dump/src/dddmp.rs:490-802 | the file is in the format, with one record for each node below the roots and the terminal; at all valuations the function of a root is that of the node its id names, complemented exactly if the id is negative |
| `DddmpExport.Import` | crates/oxidd-dump/src/dddmp.rs:889-965 | whatever the file, the store stays canonical and keeps its nodes; an imported root denotes the node its id names in the records read, complemented exactly if the id is negative; the import fails only at a bad record, a full store or an id that names no node; a file in the format yields the nodes of its dump |
| `DddmpExport.RootsPreserved` | crates/oxidd-dump/src/dddmp.rs:660-672 | roots and imported roots of the same file denote the same functions, for all valuations and wherever the importing manager has the support variables |
| `DddmpExport.RoundTrip` | crates/oxidd-dump/src/dddmp.rs:490-965 | importing an export into the manager it comes from yields the very edges that were exported |
| `Toposort.Visit` | crates/oxidd-parser/src/aiger.rs:595-625 | the depth-first search terminates; it numbers gates after their inputs, or has found a cycle or an undefined input |
| `Toposort.Sort` | crates/oxidd-parser/src/aiger.rs:531-546 | sorting succeeds if and only if all inputs are defined and the gate graph is acyclic, and then is a permutation of the gate variables that puts inputs first |
| `Aiger.DefineAll` | crates/oxidd-parser/src/aiger.rs:402-487 | numbers inputs, latches and gates consecutively, and rejects second definitions and negative gates |
| `Aiger.OddRecognised` | crates/oxidd-parser/src/aiger.rs:489-506 | a mapped literal has all bits set if and only if it is odd and its variable undefined; an even one becomes 2^64 - 2 |
| `Aiger.FindUndefined` | crates/oxidd-parser/src/aiger.rs:504-530 | an undefined literal is reported if and only if one of them is odd |
| `Aiger.SameGraph` | crates/oxidd-parser/src/aiger.rs:512-530 | the mapped gates have the dependencies of the file's gates, and undefined inputs exactly where the file has |
| `Aiger.SortedInOrder` | crates/oxidd-parser/src/aiger.rs:512-526 | the gates are taken for sorted if and only if all their inputs are defined and none is the gate itself or a later one |
| `Aiger.Normalise` | crates/oxidd-parser/src/aiger.rs:531-582 | gates out of order are sorted if and only if they are acyclic and everything is defined; the result is a renaming of the file; otherwise a cycle is reported or an access is out of range |
| `Aiger.Parse` | crates/oxidd-parser/src/aiger.rs:402-582 | exactly which files are accepted; the result is a renaming of the file in topological order, with 2^64 - 2 for undefined referencing literals; each error has its reason |
| `Aiger.UnnoticedExample` | crates/oxidd-parser/src/aiger.rs:492-530 | a file whose only output is undefined is accepted |
| `Aiger.VariablePreserved` | crates/oxidd-parser/src/aiger.rs:402-582 | in a renamed file every defined variable has the value it has in the file, for all inputs and latch states |
| `Aiger.SolutionExists` | crates/oxidd-parser/src/aiger.rs:402-582 | for all inputs and latch states the file has values for all variables |
| `Aiger.LiteralPreserved` | crates/oxidd-parser/src/aiger.rs:489-563 | every defined output, latch input, bad-state, invariant, justice and fairness literal keeps its value |
| `ClauseTree.FlattenInto` | crates/oxidd-parser/src/lib.rs:105-112 | appends the leaves from left to right |
| `ClauseTree.SpellsUnique` | crates/oxidd-parser/src/dimacs.rs:56-123 | a token sequence spells at most one tree and determines where it ends |
| `ClauseTree.Reader.ReadTree` | crates/oxidd-parser/src/dimacs.rs:56-123 | an accepted tree is spelled by the tokens read, its leaves are distinct and newly marked, the maximum is theirs, the shared buffer is restored; every spelled tree with fine numbers is accepted |
| `ClauseTree.Reader.ReadList` | crates/oxidd-parser/src/dimacs.rs:87-120 | the same for lists, with trailing commas and the flattening of one-element lists |
| `ClauseTree.ParseTree` | crates/oxidd-parser/src/dimacs.rs:125-147 | every well-formed line is accepted with its tree; an accepted tree with a leaf flattens to a permutation of 0 to the maximum; every rejection has its reason |
| `ClauseTree.ReduceSlice` | crates/oxidd-cli/src/main.rs:266-285 | balanced reduction takes all values out and yields their conjunction, or nothing if there are none |
| `ClauseTree.ConjoinTree` | crates/oxidd-cli/src/main.rs:315-333 | yields the conjunction of the clauses at the leaves, or nothing if there are none |
| `ClauseTree.ConjoinAccepted` | crates/oxidd-cli/src/main.rs:419-465 | along an accepted tree the result means the conjunction of all clauses, as the left-deep fold does |
| `ArcSlabs.StepKeepsList` | crates/arcslab/src/lib.rs:366-393 | every step keeps the free list non-empty, acyclic and complete, also when a page is added |
| `ArcSlabs.StepKeepsTotals` | crates/arcslab/src/lib.rs:264-343 | every step keeps the item counter, the slab's count and the borrowing discipline |
| `ArcSlabs.LastHandleDrops` | crates/arcslab/src/lib.rs:578-596 | dropping a handle takes the item out if and only if it is the last one |
| `ArcSlabs.SlotMoves` | crates/arcslab/src/lib.rs:333-343 | what each action does: it moves its own slot on (taken, counted, occupied with one handle, handles cloned, converted and dropped one by one, emptied, uncounted, free) and no other, and a freed slot comes to the head of the free list |
| `ArcSlabs.TakesSlot` | crates/arcslab/src/lib.rs:366-393 | the slot handed out is the head of the free list; a page of free slots is added exactly if it was the last one |
| `ArcSlabs.ReusesSlot` | crates/arcslab/src/lib.rs:522-535 | a freed slot is the next one handed out, and the list then is as before |
| `ArcSlabs.MovesRefs` | crates/arcslab/src/lib.rs:308-343 | which actions change the references to the slab, the pending decrements and the numbers of items added and dropped |
| `ArcSlabs.EnabledNotFreed` | crates/arcslab/src/lib.rs:308-327 | whoever owns a handle, a reference or a slot can use the slab: it has not been freed |
| `ArcSlabs.FreedUnused` | crates/arcslab/src/lib.rs:308-327 | when the slab is freed, no reference or handle remains, all slots are free and every added item has been dropped |
| `ArcSlabs.RunSafe` | crates/arcslab/src/lib.rs:308-624 | in every run only free slots are handed out, the free list is never empty, the counters are exact, and no step uses a freed slab |
| `ArcSlabs.SlotAddresses` | crates/arcslab/src/lib.rs:430-507 | slots lie within their page, as many as fit, and masking their addresses leads back to it |

## Left out

- Managers.Manager: `ite`, the other operators built on the same scheme, and handles of functions are not modelled; reference counts do not overflow (the code aborts).
- Managers.Manager.Gc: the collected terminals are a number given by the terminal manager, which is not part of this model.
- Protocol: a step per critical section, no weak memory. A thread may put any entry into the cache; `CachedRuns` says what follows if the entries are right, and `Operators.EntrySound` proves that apply's are.
- Protocol: the number of free slots a table counts is approximated by the number it has, so the model allows a table to be kept or rebuilt in more states than the code.
- SlotAllocator: a thread attaches to one store; attaching to a second one, water marks and wake-ups of the background collector are left out. What an access out of range does is not modelled.
- RawTables.RawTable: `drain`, `clear_no_drop` and `reset_no_drop` are left out; their users discard the table. A predicate or comparison that panics is not modelled.
- Dddmp, DddmpExport: the header and ASCII node lists are left out (text), so are diagrams with several terminals, for which binary export is unfinished. The exported store is canonical.
- Aiger: the binary format, symbol tables, comments, latch initial values and the lexer are left out.
- Aiger.Parse: with undefined inputs of gates it is not determined whether a cycle or the access out of range comes first.
- ClauseTree.ConjoinAccepted: an allocation failure ends the program, as in the code. The parallel variants compute the same and are left out.
- ClauseTree: the lexer is left out, tokens are given; the variable orders that use the same trees, and Boolean formulas (SAT formats), are left out.
- ArcSlabs: handles that are leaked (`mem::forget`, `into_raw`) and overflowing counts (the code aborts) are left out; pages are never returned before the slab is freed, as in the code.
- Variable reordering, quantification, substitution, model counting, the pointer-based manager, the Python and C interfaces, DOT output and the command line are left out.
