# PotionDB's replicated types, verified

PotionDB replicates operations: the replica that receives a request prepares an operation from its own
state, and every replica applies it.  This project models the replicated types that make this hard, and the
undo log and the vector clocks beneath them, and proves what each type means over every run.

Each type appears as a value with functions for its steps, and as a class whose methods change the fields in
place with the loops and branches of the Go code and are proved against those functions.  What a type means
is then proved over runs: of N replicas under causal delivery for the bounded counter, the remove-wins map
and the add-wins set; of any stream of operations for the top-K, of one replica with its own requests, and of
N replicas that send only some operations and send others again; and over sequences of operations for the
counter array and the log.  Each run is also stated in terms of what was requested: which message carries
which request, and what a request leaves at the replica that makes it.  A Go `range` over a map is a loop that takes any key that is left
(`GoMaps.Pick`), so every statement holds for every iteration order.

| file | content |
|---|---|
| `GoMaps.dfy`, `Options.dfy` | Go's maps, truncating division, sums over maps, arbitrary iteration order |
| `CausalNet.dfy` | N replicas, issue and causal delivery steps, arbitrary schedules; generic in the replicated type |
| `BoundedCounter.dfy`, `Escrow.dfy`, `EscrowStrict.dfy`, `EscrowRequests.dfy` | the bounded counter, its escrow argument, when its limit holds, and its runs in terms of the requests |
| `RemoveWinsMap.dfy`, `RemoveWins.dfy`, `RemoveMarks.dfy` | the remove-wins map of embedded counters, its meaning, and what its records of removes say |
| `TopKRmv.dfy`, `TopKInvariant.dfy`, `TopK.dfy`, `TopKConvergence.dfy`, `TopKLocal.dfy`, `TopKNet.dfy`, `TopKRequests.dfy`, `TopKQuiescence.dfy` | the top-K with removes: the object, what each step keeps, whole runs, convergence, one replica on its own, N replicas with their own requests, what those requests do, and after everything sent was applied |
| `AddWinsSet.dfy`, `AddWins.dfy` | the add-wins set: effects, undo, reads over pending updates; its meaning |
| `CounterArray.dfy`, `CounterArrayObject.dfy` | the array of counters: commutation and undo; the slice with its backing array |
| `UndoLog.dfy`, `TimeTravel.dfy`, `SetHistory.dfy`, `SetRebuildAgain.dfy`, `CounterHistory.dfy`, `Calls.dfy` | the log of operations, going back in time, garbage collection; the set and the plain counter kept in the log, and rebuilt more than once; rebuilds in terms of the calls that were logged |
| `Clocks.dfy`, `ClockBytes.dfy`, `ClockKeys.dfy`, `CachedReads.dfy` | vector clocks, their wire form, their map keys, the cache of earlier versions, reads through it |

Where the code falls short of what is expected of it, the failing input is a lemma and the exact condition
under which the code is right is another:

* A strict bound is raised after the rights were split, so some run reaches the bound itself, one below the
  limit, for every group of replicas and every initial value (`EscrowStrict.LimitHoldsExactly`,
  `BoundedCounter.InitBalances`), and a negative transfer passes both guards
  (`Escrow.NegativeTransferRobs`, `Escrow.RightsStayExactly`).
* A request for rights may ask for nothing under a positive limit (`BoundedCounter.RequestMayAskNothing`,
  `BoundedCounter.RequestIsFair`).
* A promotion in the top-K can leave the cached minimum wrong, after which a better add is hidden
  (`TopKLocal.PromotionSpoilsMinimum`, `TopKInvariant.RemoveKeepsInvExactly`), and preparing an add does not
  look at free space, so an add that becomes visible may stay local (`TopKLocal.UnsentAddIsVisible`,
  `TopKLocal.VisibleAddIsReplicatedExactly`), and replicas can differ after all that was sent was applied
  everywhere (`TopKQuiescence.QuiescentReplicasDiffer`, `TopKQuiescence.QuiescentReplicasAgree`).
* A rebuild runs past the end of the history when every undone entry is concurrent to the target
  (`TimeTravel.RebuildMayPanic`, `TimeTravel.RebuildUndoesSuffix`), and it keeps a concurrent entry that lies
  before one at most the target (`TimeTravel.ConcurrentEntryStays`, `TimeTravel.KeptIsVisibleExactly`).
* Rebuilding a rebuilt copy undoes the entry left in its history a second time: always wrong for a counter
  unless the change is 0 (`CounterHistory.CounterSecondRebuildFails`, `CounterHistory.CounterSecondRebuild`),
  and for a set exactly when it puts something back, a unique or an element without uniques
  (`SetRebuildAgain.SetSecondRebuildFails`, `SetRebuildAgain.SetSecondRebuildExactly`).  The version cache
  does this on every read below a cached version (`CachedReads.CounterReadFails`,
  `CachedReads.SecondReadExactly`).
* Several effects of one entry are undone in the order they happened, so a set is not rebuilt when some
  transaction undone adds an element and removes it later (`SetHistory.AddThenRemoveIsNotReversed`,
  `SetHistory.EntryReversesExactly`, `SetHistory.TransactionRebuildExactly`).
* `DecrementMulti` of the counter array adds, where its name and the comment at the head of the file promise
  subtraction; the model follows the code (`CounterArray.DecrementMultiDiffers`,
  `CounterArray.DecrementMultiSubtractsExactly`).  Operations on every position do not commute with any
  operation that grows the array, where that comment names only resizes (`CounterArray.AllCommutesExactly`).
* Keys of clocks compare 32-bit halves, so a higher clock can have an incomparable key
  (`ClockKeys.KeyComparesHalves`, `ClockKeys.KeyComparisonIsIncomplete`); the empty clock is read back as the
  clock with id 0 (`ClockBytes.WireRoundTrip`).

## Model

| member | source | states |
|---|---|---|
| `Escrow.EscrowSafety` | crdt/crdt/boundedCounter.go:130-220 | in every run of N replicas that sets one feasible bound first and then mixes non-negative increments, decrements and transfers by the giver, under causal delivery, every replica sees all rights non-negative, rights that add up to value minus bound, and a value not below the bound |
| `Escrow.ValueAboveLimit` | crdt/crdt/boundedCounter.go:171-208 | with CompEq the value never falls below the limit, at any replica of any run |
| `EscrowStrict.LimitHoldsExactly` | crdt/crdt/boundedCounter.go:171-208 | for all replicas, bounds and feasible initial values: no replica of any run that sets the bound first shows a value below its limit, if and only if the bound is not strict |
| `EscrowStrict.StrictBoundIsReached` | crdt/crdt/boundedCounter.go:190-208 | for all replicas and every strict bound, the run in which each replica spends its share brings the value to the bound, one below the limit |
| `Escrow.NeverRefused` | crdt/crdt/boundedCounter.go:179-220 | an operation accepted at its source is accepted wherever it becomes deliverable, and leaves all rights there non-negative |
| `Escrow.SameSeenSameCounter` | crdt/crdt/boundedCounter.go:154-220 | replicas that have applied the same operations, in whatever order, have the same rights, limit and value |
| `EscrowRequests.ReplicasShowRequests` | crdt/crdt/boundedCounter.go:130-220 | in every such run, at every replica, the value is the initial value plus the increments and minus the decrements requested by the steps whose messages it has seen, and the right of every id is the shares, increments, decrements and transfers that those requests give and take |
| `Escrow.ClosedIsSolvent` | crdt/crdt/boundedCounter.go:179-220 | every causally closed set of operations leaves nobody with negative rights |
| `Escrow.ReceiverCovers` | crdt/crdt/boundedCounter.go:179-220 | when a decrement or transfer can be delivered, the receiver's view of the issuer's rights covers its cost |
| `Escrow.OnlyOwnerLowers` | crdt/crdt/boundedCounter.go:171-220 | only operations issued by a replica lower its rights, by at most their cost |
| `Escrow.RightsStayExactly` | crdt/crdt/boundedCounter.go:171-220 | an accepted operation keeps non-negative rights so if and only if an increment takes back no more than its owner holds and a transfer takes no more than the donor has nor, being negative, than the receiver has |
| `Escrow.NegativeTransferRobs` | crdt/crdt/boundedCounter.go:141-145 | a negative transfer is accepted by its source and takes rights from the receiver |
| `BoundedCounter.SplitIsExact` | crdt/crdt/boundedCounter.go:199-206 | the two loops give out exactly InitialValue - Bound if and only if that is not negative or divides evenly |
| `BoundedCounter.SplitGives` | crdt/crdt/boundedCounter.go:199-206 | the loops give out the difference and, for a negative one, its remainder again |
| `BoundedCounter.SplitIsFair` | crdt/crdt/boundedCounter.go:199-206 | each replica receives the even share or one more, strangers nothing, and no share is negative when the difference is not |
| `BoundedCounter.InitBalances` | crdt/crdt/boundedCounter.go:190-208 | for any bound and initial value: rights are backed by value minus limit after SetCounterBound exactly when the rights held before, what the loops give out too much, and one for a strict bound add up to zero |
| `BoundedCounter.ApplyConserves` | crdt/crdt/boundedCounter.go:171-220 | every other operation, accepted or refused, conserves value minus the sum of rights |
| `BoundedCounter.IncrementRequest` | crdt/crdt/boundedCounter.go:133-176 | for any state: an increment is never refused; prepared and applied, it raises the value and the requester's right by the amount and no other right |
| `BoundedCounter.DecrementRequest` | crdt/crdt/boundedCounter.go:135-188 | a decrement is refused exactly if it exceeds the requester's right; otherwise the value and that right fall by it and no other right changes |
| `BoundedCounter.SetBoundRequest` | crdt/crdt/boundedCounter.go:137-208 | setting the bound gives the value asked for, the limit with one more for a strict bound, and raises each right by the even share and one more while the remainder lasts |
| `BoundedCounter.TransferRequest` | crdt/crdt/boundedCounter.go:139-220 | a transfer is refused exactly if it exceeds half of the requester's own rights, whoever gives; otherwise it moves rights from one id to the other and changes nothing else |
| `BoundedCounter.PoorExactly` | crdt/crdt/boundedCounter.go:226 | rights are asked for, under a value that is not negative, exactly if at every replica twice the requester's rights and two more would not exceed the value |
| `BoundedCounter.RequestLevels` | crdt/crdt/boundedCounter.go:228-237 | the asker ends with no more than the value, and unless with exactly that, the two replicas end level or with one right more at the one asked |
| `BoundedCounter.RequestIsFair` | crdt/crdt/boundedCounter.go:224-240 | a request asks for at least one right exactly when some replica holds two more than the asker, and then names another replica, takes at most half of its rights and leaves it at least as well off |
| `BoundedCounter.RequestAsksSomething` | crdt/crdt/boundedCounter.go:224-240 | with rights that sum to value minus a limit of at most zero, every request asks for at least one right |
| `BoundedCounter.RequestMayAskNothing` | crdt/crdt/boundedCounter.go:224-240 | with a positive limit a poor replica may ask for nothing, naming nobody |
| `BoundedCounter.BoundedCounterCrdt.Update` | crdt/crdt/boundedCounter.go:130-147 | requests are translated, and a transfer above half of the replica's own rights becomes a NoOp |
| `BoundedCounter.BoundedCounterCrdt.ApplyIncrement` | crdt/crdt/boundedCounter.go:171-176 | the issuer's right and the value grow by the change |
| `BoundedCounter.BoundedCounterCrdt.ApplyDecrement` | crdt/crdt/boundedCounter.go:179-188 | refused exactly if the change exceeds the issuer's rights, and then nothing changes |
| `BoundedCounter.BoundedCounterCrdt.CounterInitOp` | crdt/crdt/boundedCounter.go:190-208 | limit, value and the split of rights over the sorted ids, for any sign of the difference |
| `BoundedCounter.BoundedCounterCrdt.ApplyTransfer` | crdt/crdt/boundedCounter.go:211-220 | refused exactly if it is the replica's own and exceeds half its rights; otherwise rights move from giver to taker, also when these are the same |
| `BoundedCounter.BoundedCounterCrdt.RequestTransfer` | crdt/crdt/boundedCounter.go:224-240 | for every map order: the decision to ask, the amount, and a replica with the most rights |
| `RemoveWins.RemoveWinsMeaning` | crdt/crdt/rwEmbMapCRDT.go:1933-2320 | in every run, at every replica, a key is held exactly if some applied update on it has seen every applied remove of it, and its counter is the sum of exactly those updates |
| `RemoveWins.SameSeenSameMap` | crdt/crdt/rwEmbMapCRDT.go:1933-2320 | replicas that have applied the same operations hold the same keys and embedded values |
| `RemoveWins.CoveredIffSeen` | crdt/crdt/rwEmbMapCRDT.go:1945-1977 | the clocks an update carries cover a remove of one of its keys exactly if its source had seen that remove |
| `RemoveWins.CoversIffSeen` | crdt/crdt/rwEmbMapCRDT.go:2212-2228 | the check against the recorded removes holds exactly if the update's source had seen every remove of the key that the receiver has seen |
| `RemoveWins.MeaningOfUpdate` | crdt/crdt/rwEmbMapCRDT.go:2148-2283 | a newly seen update survives, and adds its change, exactly if its source had seen every remove of the key seen here |
| `RemoveWins.MeaningOfRemove` | crdt/crdt/rwEmbMapCRDT.go:2285-2320 | a newly seen remove of a key leaves no survivor |
| `RemoveWins.LogCarriesRequests` | crdt/crdt/rwEmbMapCRDT.go:1933-1978 | in every run message i carries the i-th request issued: an update all its changes, a remove exactly those of its keys that an update surviving at its source holds |
| `RemoveWins.IssuedRemove` | crdt/crdt/rwEmbMapCRDT.go:1964-2320 | at every replica of every run an issued remove leaves exactly the old entries whose key it does not name |
| `RemoveWins.IssuedUpdate` | crdt/crdt/rwEmbMapCRDT.go:1933-2283 | at every replica of every run an issued update adds its change to each of its keys, creating the missing ones, and changes no other |
| `RemoveMarks.RecordsMeaning` | crdt/crdt/rwEmbMapCRDT.go:2219-2308 | in every run, at every replica: a record for a key and a replica exists exactly if a remove of the key by it was seen, holds the counter of the newest one, and is marked exactly if an update on the key by that replica survives |
| `RemoveWinsMap.FastPathIsSlowPath` | crdt/crdt/rwEmbMapCRDT.go:2164-2213 | with no removes recorded the unchecked insertion is what the checked one would do: every update takes effect |
| `RemoveWinsMap.ListIsMap` | crdt/crdt/rwEmbMapCRDT.go:2005-2145 | updates given as a list with distinct keys, in any order, have the effect of the map of the same updates |
| `RemoveWinsMap.ListAt` | crdt/crdt/rwEmbMapCRDT.go:2005-2145 | a list that may repeat keys adds to each key all changes given for it if the update covers the removes recorded for it, and changes no other key |
| `RemoveWinsMap.RemoveRequest` | crdt/crdt/rwEmbMapCRDT.go:1964-2320 | for any state: a remove, prepared and applied, takes out exactly the keys requested |
| `RemoveWinsMap.RemoveNames` | crdt/crdt/rwEmbMapCRDT.go:1964-1978 | it names the requested keys that are present, with the next remove counter, and is a NoOp exactly if none is |
| `RemoveWinsMap.UpdateRequest` | crdt/crdt/rwEmbMapCRDT.go:1933-2283 | for any state with positive remove counters: an update, prepared and applied, takes effect on all of its keys and on no other |
| `RemoveWinsMap.MaxTsIsMax` | crdt/crdt/rwEmbMapCRDT.go:1945-1953 | the clock collected for a replica is the highest recorded for any of the keys, or zero |
| `RemoveWinsMap.RWEmbMapCrdt.GetUpdateAllDownstreamArgs` | crdt/crdt/rwEmbMapCRDT.go:1933-1962 | the operation carries the updates and, for every replica, the highest remove counter recorded for any of their keys |
| `RemoveWinsMap.RWEmbMapCrdt.GetRemoveAllDownstreamArgs` | crdt/crdt/rwEmbMapCRDT.go:1964-1978 | the operation names the present keys in order and the next remove counter; with none present it is a NoOp |
| `RemoveWinsMap.RWEmbMapCrdt.ApplyUpdateAll` | crdt/crdt/rwEmbMapCRDT.go:2148-2283 | fast and slow paths: counters, created entries and marks after the update |
| `RemoveWinsMap.RWEmbMapCrdt.ApplyUpdate` | crdt/crdt/rwEmbMapCRDT.go:2211-2276 | one key of the slow path: it takes effect, and marks the source's record, exactly if the update covers every recorded remove |
| `RemoveWinsMap.RWEmbMapCrdt.CheckRemoves` | crdt/crdt/rwEmbMapCRDT.go:2219-2228 | the scan, which stops early, decides whether every recorded remove is covered |
| `RemoveWinsMap.RWEmbMapCrdt.ApplyUpdateAllArray` | crdt/crdt/rwEmbMapCRDT.go:2005-2145 | updates given as a list, possibly repeating keys, take effect one after the other |
| `RemoveWinsMap.RWEmbMapCrdt.ApplyRemoveAll` | crdt/crdt/rwEmbMapCRDT.go:2285-2320 | the remove clock of the issuer, the records of the keys with all marks cleared, and the removed entries |
| `RemoveWinsMap.RWEmbMapCrdt.RecordRemove` | crdt/crdt/rwEmbMapCRDT.go:2294-2308 | the record of one key: the issuer's counter is set and every mark cleared |
| `TopK.TopKMeaning` | crdt/crdt/topKRmv.go:666-1017 | in every run of adds and removes from any replicas, with the adds of one id by one replica in order and every remove safe before it is applied, the top shows exactly the maxElems highest ids, each with its best live add |
| `TopK.NoSurvivorsTopK` | crdt/crdt/topKRmv.go:666-1017 | the same in every run whose removes leave no hidden add of their id |
| `TopKConvergence.SameOpsSameTop` | crdt/crdt/topKRmv.go:666-1017 | replicas that have delivered the same adds and removes, in different orders and with different promotions, show the same ids with the same scores and timestamps, in runs with the adds of one id by one replica in order and every remove safe before it is applied |
| `TopKConvergence.LiveExactly` | crdt/crdt/topKRmv.go:666-758 | an add is live exactly if it was delivered and no delivered remove of its id, before or after it, has seen its timestamp |
| `TopKConvergence.SuppressedExactly` | crdt/crdt/topKRmv.go:674-676 | an add is suppressed exactly if some remove of its id that came before has seen its timestamp |
| `TopKConvergence.SameTopExactly` | crdt/crdt/topKRmv.go:19-33 | two tops of different live adds are equal if and only if everything that either shows is live at the other |
| `TopKNet.NetAgreesExactly` | crdt/crdt/topKRmv.go:365-535 | in every run of N replicas that prepare their own requests, keep some local, drop what these generate where they are made, send the suppressing removes and promoted adds that received updates generate, and receive in any order, two replicas at which adds came in order and removes were safe show the same top if and only if each add that either shows was applied at the other and no remove applied there has seen it |
| `TopKRequests.StoredIsSeen` | crdt/crdt/topKRmv.go:387-758 | at every replica of every such run the clock has seen every add stored there |
| `TopKRequests.RemoveRequestTakesAll` | crdt/crdt/topKRmv.go:460-1006 | at every replica of every such run, after the update prepared for a remove request is applied an add is stored exactly if it was stored before and has another id |
| `TopKRequests.RemoveRequestReaches` | crdt/crdt/topKRmv.go:460-1006 | where that update is received, exactly those adds of the id stay that the clock of its source had not seen, so none that was stored at the source |
| `TopKRequests.RunKeepsNewest` | crdt/crdt/topKRmv.go:387-389 | in every such run no replica, no recorded remove and no update sent knows a newer stamp of a replica than that replica itself |
| `TopKRequests.AddRequestIsStored` | crdt/crdt/topKRmv.go:387-758 | at every replica of every such run, after the update prepared for an add request is applied the add with the id and score requested and the next stamp is stored, and was not before |
| `TopKRequests.RemoveIsSentExactly` | crdt/crdt/topKRmv.go:460-478 | a remove request is sent exactly if it changes what its replica shows |
| `TopKRequests.ReceivedAddIsStoredOrRemoved` | crdt/crdt/topKRmv.go:666-676 | a received add is stored, or a remove is sent on that takes it out wherever it is stored |
| `TopKRequests.PromotedIsShownAndSent` | crdt/crdt/topKRmv.go:937-1006 | an add that a received remove promotes is shown there and sent on |
| `TopKQuiescence.QuiescentReplicasAgree` | crdt/crdt/topKRmv.go:387-418 | in every run of N replicas without removes in which each add is sent or finds no free space for it, any two replicas that have applied everything sent, in whatever order, show the same top |
| `TopKQuiescence.RunShowsSent` | potionDB/components/materializer.go:1092-1099 | in such a run every add that a replica shows was sent |
| `TopKQuiescence.QuiescentReplicasDiffer` | crdt/crdt/topKRmv.go:387-418 | three events after which two replicas have applied everything sent and one shows an id that the other does not |
| `TopKNet.TickIsPartOfAdd` | crdt/crdt/topKRmv.go:387-390 | applying a local add after the clock ticked in prepare leaves the state of applying the add |
| `TopKLocal.SingleReplicaTopK` | crdt/crdt/topKRmv.go:387-478 | after any requests to one replica, each prepared and applied in turn, the top shows exactly the best of the adds since the last remove of their id, and no local add is ever suppressed |
| `TopKLocal.LiveReqsMeaning` | crdt/crdt/topKRmv.go:387-478 | an add is live exactly if it was requested and no remove of its id was requested later |
| `TopK.AddOrderIsIrrelevant` | crdt/crdt/topKRmv.go:666-758 | for adds alone, from any replicas in any order, the visible ids, scores and timestamps depend only on the set of adds |
| `TopK.TopIsUnique` | crdt/crdt/topKRmv.go:19-33 | the live adds determine which ids are visible, with which score and timestamp |
| `TopK.TopByScore` | crdt/crdt/topKRmv.go:19-33 | no live add of a visible id beats the one shown by score or, at equal scores, by stamp, and none of an invisible id beats any shown by score or, at equal scores, by id |
| `TopK.InvariantThroughoutExactly` | crdt/crdt/topKRmv.go:666-1017 | over every run the invariant holds throughout if and only if every remove is safe in the state before it |
| `TopKInvariant.AddKeepsInv` | crdt/crdt/topKRmv.go:666-758 | every add keeps: at most maxElems visible, the cached minimum right, hidden adds of a visible id not higher than it, hidden adds of other ids below the minimum of a full top |
| `TopKInvariant.RemoveKeepsInvExactly` | crdt/crdt/topKRmv.go:906-1006 | whatever the remove promotes, it keeps that invariant if and only if it was safe before: in a full top all unseen hidden adds of its id are below the other visible ones; with free space it takes the minimum, or one of them is above the minimum, or there is none |
| `TopKInvariant.FullRemoveKeepsInv` | crdt/crdt/topKRmv.go:906-1006 | a remove that has seen every hidden add of its id keeps the invariant |
| `TopKInvariant.AddConserves` | crdt/crdt/topKRmv.go:666-758 | an add that is not suppressed is stored, and of the others only the lower one by the same replica that it replaces is forgotten |
| `TopKInvariant.ReplacedIsForgotten` | crdt/crdt/topKRmv.go:677-700 | the lower add by the same replica that a higher one replaces is forgotten, unless it is hidden as well |
| `TopKInvariant.RemoveConserves` | crdt/crdt/topKRmv.go:906-1006 | a remove forgets exactly the adds it has seen; a promotion only moves one |
| `TopKLocal.LocalAddIsNotSuppressed` | crdt/crdt/topKRmv.go:387-389 | a local add has a timestamp above every remove recorded |
| `TopKLocal.VisibleAddIsReplicatedExactly` | crdt/crdt/topKRmv.go:387-418 | a local add that changes the visible top stays local exactly if its id is new, there is free space and it is not above the cached minimum; so never with a full top |
| `TopKLocal.InvisibleAddStaysLocalExactly` | crdt/crdt/topKRmv.go:387-418 | a local add that changes nothing visible stays local, unless it has exactly the score that its id shows and no later stamp |
| `TopKLocal.UnsentAddIsVisible` | crdt/crdt/topKRmv.go:387-418 | for every size of at least two: after one add to an empty top, a lower add of another id becomes visible but is not sent |
| `TopKLocal.VisibleRemoveIsReplicated` | crdt/crdt/topKRmv.go:460-478 | a local remove that changes the visible top is prepared as a replicated remove |
| `TopKLocal.PromotionSpoilsMinimum` | crdt/crdt/topKRmv.go:951-954 | in a full top of two a promotion makes a wrong minimum, and an add that should replace the lowest visible one is then hidden |
| `TopKLocal.FullTopIsReached` | crdt/crdt/topKRmv.go:666-758 | three adds lead to the state in which that happens |
| `TopKRmv.MinExists` | crdt/crdt/topKRmv.go:1009-1017 | a top has exactly one smallest element |
| `TopKRmv.TopKRmvCrdt.constructor` | crdt/crdt/topKRmv.go:262-277 | an empty top of the given size |
| `TopKRmv.TopKRmvCrdt.GetTopKAddDownstreamArgs` | crdt/crdt/topKRmv.go:387-418 | the clock ticks, and the add is replicated exactly if its id is visible with at most its score, or not visible and the add is above the cached minimum |
| `TopKRmv.TopKRmvCrdt.GetTopKRemoveDownstreamArgs` | crdt/crdt/topKRmv.go:460-478 | replicated for a visible id, local for one that is only hidden, nothing otherwise |
| `TopKRmv.TopKRmvCrdt.ApplyAdd` | crdt/crdt/topKRmv.go:666-758 | the clock, the visible and hidden adds and the cached minimum after an add; a suppressed add returns the remove to pass on |
| `TopKRmv.TopKRmvCrdt.Insert` | crdt/crdt/topKRmv.go:677-749 | the branches of an add that is not suppressed: replace, hide, fill free space, evict the minimum |
| `TopKRmv.TopKRmvCrdt.ApplyRemove` | crdt/crdt/topKRmv.go:906-1006 | the recorded clock, the dropped hidden adds, the promoted element for every map order, and the cached minimum |
| `TopKRmv.TopKRmvCrdt.HighestCandidate` | crdt/crdt/topKRmv.go:939-949 | for every map order: a highest hidden add of an id that is not visible, or none |
| `TopKRmv.TopKRmvCrdt.PromoteCandidate` | crdt/crdt/topKRmv.go:937-971 | after leaving a full top: the promoted add becomes the cached minimum |
| `TopKRmv.TopKRmvCrdt.PromoteSurvivor` | crdt/crdt/topKRmv.go:972-1000 | otherwise the highest surviving add of the same id takes its place |
| `TopKRmv.TopKRmvCrdt.FindAndUpdateMin` | crdt/crdt/topKRmv.go:1009-1017 | for every map order the smallest visible element, or none for an empty top |
| `TopKRmv.TopKRmvCrdt.ApplyAddAll` | crdt/crdt/topKRmv.go:545-662 | leaves the state of applying the adds one by one and returns the same removes; fails exactly on an empty batch or when more adds are suppressed than the first list is long |
| `TopKRmv.TopKRmvCrdt.InsertInBatch` | crdt/crdt/topKRmv.go:570-633 | the batch's own branches of an add that is not suppressed do what those of a single add do |
| `TopKRmv.ClockSeenFirst` | crdt/crdt/topKRmv.go:554-555 | seeing the clock of a batch before its first add makes no difference to its result |
| `TopKRmv.SuppressorsExactly` | crdt/crdt/topKRmv.go:568-661 | the removes that a batch of adds returns are those recorded, with their clock, for the id of some add that comes too late |
| `TopKRmv.RemovesRoundTrip` | crdt/crdt/topKRmv.go:769-776 | ids and clocks side by side give each remove its own clock, and a single clock goes to all |
| `TopKRmv.NotZeroExactly` | crdt/crdt/topKRmv.go:866-891 | the adds that a batch of removes passes on are the promoted ones, as often as they were promoted |
| `TopKRmv.TopKRmvCrdt.ApplyRemoveAll` | crdt/crdt/topKRmv.go:760-891 | leaves the state of applying the removes one by one, each with its clock, and returns the promoted adds in order |
| `TopKRmv.TopKRmvCrdt.RemoveInBatch` | crdt/crdt/topKRmv.go:769-881 | one turn of the batch's own statements does what a single remove does, for every map order |
| `AddWins.AddWinsMeaning` | crdt/crdt/setAWCrdt.go:291-367 | in every run with fresh uniques, at every replica, an element holds a unique exactly if an applied add gave it and no applied remove names it, and is present exactly if it holds one |
| `AddWins.SameSeenSameSet` | crdt/crdt/setAWCrdt.go:291-367 | replicas that have applied the same operations are equal |
| `AddWins.LogCarriesRequests` | crdt/crdt/setAWCrdt.go:273-316 | in every run message i carries the i-th request issued: an add its elements with the uniques drawn for them, a remove the uniques that its source held of its elements |
| `AddWins.IssuedRemove` | crdt/crdt/setAWCrdt.go:300-367 | at every replica of every run an issued remove leaves exactly the elements it does not name, with their uniques |
| `AddWins.IssuedAdd` | crdt/crdt/setAWCrdt.go:291-350 | at every replica of every run an issued add gives its elements the uniques drawn at their last position, next to those they had, and changes no other |
| `AddWinsSet.AddRequest` | crdt/crdt/setAWCrdt.go:291-350 | the same for any state |
| `AddWinsSet.RemoveRequest` | crdt/crdt/setAWCrdt.go:300-367 | for any state a remove, prepared and applied, takes out its elements with all their uniques and no other, and is a NoOp exactly if none of them is present |
| `AddWinsSet.UndoInvertsApply` | crdt/crdt/setAWCrdt.go:337-426 | undoing an effect restores the set exactly, including which elements exist, if and only if the added uniques were fresh |
| `AddWinsSet.UndoRun` | crdt/crdt/setAWCrdt.go:337-426 | undoing the effects of any run with fresh uniques, last first, restores the set |
| `AddWinsSet.ApplyNeverLeavesEmpty` | crdt/crdt/setAWCrdt.go:337-367 | no element is ever left with an empty set of uniques |
| `AddWinsSet.ExecuteKeys` | crdt/crdt/setAWCrdt.go:174-235 | preparing and applying pending updates one at a time gives the elements that the updates say |
| `AddWinsSet.LatestMentionDecides` | crdt/crdt/setAWCrdt.go:174-270 | the last pending update that mentions an element decides whether it is present |
| `AddWinsSet.SetAWCrdt.GetState` | crdt/crdt/setAWCrdt.go:174-235 | the backward scan yields, without duplicates, the elements after the pending updates |
| `AddWinsSet.SetAWCrdt.Lookup` | crdt/crdt/setAWCrdt.go:237-270 | the early-exit scan agrees with the state after the pending updates |
| `AddWinsSet.SetAWCrdt.GetNElements` | crdt/crdt/setAWCrdt.go:166-172 | the number of elements after the pending updates |
| `AddWinsSet.SetAWCrdt.Update` | crdt/crdt/setAWCrdt.go:273-289 | single operations are batches of one |
| `AddWinsSet.SetAWCrdt.GetAddAllDownstreamArgs` | crdt/crdt/setAWCrdt.go:291-298 | one unique for every element, the last draw for a repeated one |
| `AddWinsSet.SetAWCrdt.GetRemoveAllDownstreamArgs` | crdt/crdt/setAWCrdt.go:300-316 | all uniques observed for the present elements; NoOp if there are none |
| `AddWinsSet.SetAWCrdt.ApplyAddAll` | crdt/crdt/setAWCrdt.go:337-350 | the uniques are added, creating elements, and the effect recorded |
| `AddWinsSet.SetAWCrdt.ApplyRemoveAll` | crdt/crdt/setAWCrdt.go:352-367 | the named uniques are removed, elements without uniques deleted, and what was removed is recorded |
| `AddWinsSet.SetAWCrdt.UndoAddAllEffect` | crdt/crdt/setAWCrdt.go:405-414 | removes the added uniques again |
| `AddWinsSet.SetAWCrdt.UndoRemoveAllEffect` | crdt/crdt/setAWCrdt.go:416-426 | puts the removed uniques back, creating elements |
| `AddWinsSet.GetAndRemoveIntersection` | crdt/crdt/commonTools.go:57-68 | splits a set of uniques into what the source takes out and what is left |
| `AddWinsSet.AddUniques` | crdt/crdt/commonTools.go:43-47 | adds the other set's uniques |
| `CounterArray.OrderIsIrrelevant` | crdt/crdt/counterArrayCrdt.go:11-20 | any two orders of the same operations, those on every position excepted, give the same length and contents |
| `CounterArray.ApplyAt` | crdt/crdt/counterArrayCrdt.go:603-713 | such an operation grows the array to what it needs and adds its changes pointwise |
| `CounterArray.SubChangesEach` | crdt/crdt/counterArrayCrdt.go:655-703 | for distinct positions and one change for each, every position changes by its own change, and no other position changes |
| `CounterArray.SubChangesAll` | crdt/crdt/counterArrayCrdt.go:655-703 | a single change counts for each position given, as often as it is given |
| `CounterArray.AllChangesExisting` | crdt/crdt/counterArrayCrdt.go:623-634 | an increment or decrement of every position changes exactly the existing ones |
| `CounterArray.EffectRecordsGrowth` | crdt/crdt/counterArrayCrdt.go:603-713 | an effect records a size exactly if the operation grew the array, and it is the size before |
| `CounterArray.AllCommutesExactly` | crdt/crdt/counterArrayCrdt.go:11-20 | an increment or decrement of every position commutes with any other operation exactly when it adds nothing or the other does not grow the array |
| `CounterArray.UndoInvertsApply` | crdt/crdt/counterArrayCrdt.go:603-816 | undoing a recorded effect stays in bounds, and restores contents and length if and only if the operation is not a growing DecrementMulti that changes an existing position |
| `CounterArray.UndoRun` | crdt/crdt/counterArrayCrdt.go:733-816 | undoing a whole run of such operations, last first, restores the exact starting array and length |
| `CounterArray.DecrementMultiSubtractsExactly` | crdt/crdt/counterArrayCrdt.go:644-653 | DecrementMulti adds its changes at every position, so it subtracts them exactly when all are 0 |
| `CounterArray.DecrementMultiDiffers` | crdt/crdt/counterArrayCrdt.go:644-653 | an array and a change at which the result is not the difference |
| `CounterArrayObject.CounterArrayCrdt.Update` | crdt/crdt/counterArrayCrdt.go:579-586 | a resize that does not grow the array is a NoOp |
| `CounterArrayObject.CounterArrayCrdt.ExpandArray` | crdt/crdt/counterArrayCrdt.go:597-601 | reallocates: the contents followed by zeros |
| `CounterArrayObject.CounterArrayCrdt.AddToSub` | crdt/crdt/counterArrayCrdt.go:655-703 | the given positions change by one change for all or one each, growing the array where needed |
| `CounterArrayObject.CounterArrayCrdt.ApplyDownstream` | crdt/crdt/counterArrayCrdt.go:603-713 | contents, length and recorded effect of every operation |
| `CounterArrayObject.CounterArrayCrdt.UndoEffect` | crdt/crdt/counterArrayCrdt.go:733-816 | contents and length after undoing every kind of effect |
| `TimeTravel.RebuildIsExact` | crdt/crdt/inversibleCrdt.go:154-209 | for every history with one effect in each entry, concurrent clocks included, of which a rebuild keeps only entries at most the target, the state after it is the replay of exactly the entries at most the target |
| `TimeTravel.RebuildIsReplay` | crdt/crdt/inversibleCrdt.go:154-209 | for every history with one effect in each entry the state is the replay of the entries kept |
| `TimeTravel.KeptIsVisibleExactly` | crdt/crdt/inversibleCrdt.go:162-174 | the entries kept are those at most the target if and only if no other is kept |
| `TimeTravel.ConcurrentEntryStays` | crdt/crdt/inversibleCrdt.go:162-179 | a history of which nothing is undone although its first entry is concurrent to the target |
| `TimeTravel.ChainRebuildIsExact` | crdt/crdt/inversibleCrdt.go:154-209 | so over every strictly increasing chain of clocks |
| `TimeTravel.RebuildUndoesSuffix` | crdt/crdt/inversibleCrdt.go:154-209 | for every history and target a rebuild undoes exactly the entries after the last one at most the target, and stays in bounds if and only if it undoes nothing or some undone entry is higher than the target |
| `TimeTravel.RebuildMayPanic` | crdt/crdt/inversibleCrdt.go:183-187 | a history of one entry, concurrent to the target, on which the index runs past the end |
| `TimeTravel.NeverReapplies` | crdt/crdt/inversibleCrdt.go:183-204 | the pass forward never re-applies an entry, for every history and target |
| `TimeTravel.SecondRebuildExactly` | crdt/crdt/inversibleCrdt.go:183-207 | after a rebuild that undid something, rebuilding the copy to a target that is not later gives the state of a direct rebuild if undoing the retained entry again changes nothing, and only then for equal targets or when undoing the entries between them keeps states apart |
| `TimeTravel.SecondRebuild` | crdt/crdt/inversibleCrdt.go:183-207 | the two differ by undoing the retained entry a second time |
| `TimeTravel.ForgetfulUndoAgrees` | crdt/crdt/inversibleCrdt.go:165-172 | for an undo that forgets the state the two can agree at an earlier target although undoing the retained entry again is not harmless |
| `TimeTravel.NothingUndoneAgrees` | crdt/crdt/inversibleCrdt.go:175-179 | after a rebuild that undid nothing they agree |
| `TimeTravel.GcIsInvisible` | crdt/crdt/inversibleCrdt.go:154-238 | for every target from the safe clock on, a rebuild after garbage collection undoes the same entries, reaches the same state, succeeds alike and leaves the same history but for the dropped entries |
| `TimeTravel.GcIsInvisibleExactly` | crdt/crdt/inversibleCrdt.go:213-238 | for any target a rebuild after garbage collection undoes the same entries if and only if nothing was dropped or some entry from the last dropped one on is at most the target |
| `TimeTravel.GcDropsAllExactly` | crdt/crdt/inversibleCrdt.go:213-238 | garbage collection drops exactly the entries before the last one at most the safe clock |
| `TimeTravel.LoggedKeepsChain` | crdt/crdt/inversibleCrdt.go:133-150 | logging at a strictly later clock gives each operation an entry of its own |
| `Calls.RebuildKeepsVisibleCalls` | crdt/crdt/inversibleCrdt.go:133-209 | for any sequence of calls over the same ids of which none at most the target comes after one that is not, and whose undone entries can be undone: a rebuild reaches the state after applying, in order, exactly the operations of the calls made at clocks at most the target |
| `Calls.GrowingCallsRebuild` | crdt/crdt/inversibleCrdt.go:133-209 | so for every sequence of calls at strictly growing clocks whose effects undo them, and every target |
| `Calls.CounterCallsRebuild` | crdt/crdt/counterCrdt.go:120-161 | a counter called at clocks that never go down, equal ones included, holds after a rebuild its starting value and the changes of exactly the calls at clocks at most the target |
| `Calls.SetCallsRebuild` | crdt/crdt/setAWCrdt.go:318-426 | a set called at strictly growing clocks with fresh uniques holds after a rebuild what exactly the calls at clocks at most the target leave |
| `Calls.EntriesAreRuns` | crdt/crdt/inversibleCrdt.go:133-150 | calls share an entry exactly if they are in one run of equal clocks: entry i has the clock and the operations of the i-th run |
| `Calls.HistoryReplays` | crdt/crdt/inversibleCrdt.go:133-150 | the history built by any calls replays to the state after them |
| `UndoLog.LoggedIsRecorded` | crdt/crdt/inversibleCrdt.go:133-150 | applying and logging keeps the log faithful and in step with the state, also when an entry is extended |
| `UndoLog.GenericInversibleCRDT.AddToHistory` | crdt/crdt/inversibleCrdt.go:133-150 | a new entry, or one more operation in the last entry if its clock is equal |
| `UndoLog.GenericInversibleCRDT.Downstream` | crdt/crdt/setAWCrdt.go:318-324 | the operation is applied and logged with its clock and its effect |
| `UndoLog.GenericInversibleCRDT.UndoBack` | crdt/crdt/inversibleCrdt.go:162-174 | undoes entries from the end until one is at most the target |
| `UndoLog.GenericInversibleCRDT.ForwardStep` | crdt/crdt/inversibleCrdt.go:183-204 | one turn of the pass forward: stop, re-apply, or splice the entry out |
| `UndoLog.GenericInversibleCRDT.RebuildCRDTToVersion` | crdt/crdt/inversibleCrdt.go:154-209 | state, history and whether the index stays in bounds |
| `UndoLog.GenericInversibleCRDT.GC` | crdt/crdt/inversibleCrdt.go:213-238 | both the copying and the shifting branch keep the history from the last entry at most the safe clock on |
| `SetHistory.SetRebuildIsExact` | crdt/crdt/setAWCrdt.go:318-426 | every rebuild of an add-wins set kept in the log that keeps only entries at most the target is exact, whatever the clocks, when each transaction applies one operation with fresh uniques |
| `SetHistory.EntryReversesExactly` | crdt/crdt/inversibleCrdt.go:165-168 | at every replica, also one that lacks some uniques its removes name or holds others, undoing the effects of one transaction in the order they happened restores the set if and only if it adds no element that it removes later |
| `SetHistory.PreparedIsTransaction` | potionDB/components/materializer.go:1237-1255 | a transaction prepared at one replica meets what is asked of it at every replica that does not hold the uniques it draws |
| `SetHistory.UndoneExactly` | crdt/crdt/inversibleCrdt.go:162-174 | undoing any suffix of a log of transactions, of any number of operations each, leads back to the replay of the entries before it if and only if none of them adds an element and removes it later |
| `SetHistory.TransactionRebuildExactly` | crdt/crdt/inversibleCrdt.go:154-209 | a rebuild that keeps only entries at most the target reaches the replay of the entries at most the target if and only if no transaction it undoes adds an element and removes it later |
| `SetHistory.AddThenRemoveIsNotReversed` | crdt/crdt/inversibleCrdt.go:165-168 | a transaction that adds an element to the empty set and removes it again is not undone |
| `SetRebuildAgain.SetSecondRebuildExactly` | crdt/crdt/inversibleCrdt.go:183-207 | for every target that is not later, two rebuilds of a set with one operation in each entry agree with a direct one if and only if undoing the retained entry again puts nothing back; when its effect took something from each element it records, if and only if that effect is settled in the kept entries |
| `SetRebuildAgain.TransactionSecondRebuildExactly` | crdt/crdt/inversibleCrdt.go:183-207 | so also with several operations in each entry, when none undone first adds and then removes |
| `SetRebuildAgain.SetSecondRebuildFails` | crdt/crdt/setAWCrdt.go:416-426 | a set, a first target and a strictly earlier second one at which two rebuilds put an element back, with a unique or without any, where a direct rebuild gives the empty set |
| `SetRebuildAgain.SetSecondRebuild` | crdt/crdt/inversibleCrdt.go:183-207 | without assuming that uniques are drawn once, two rebuilds agree with a direct one if the retained effect is settled in the kept entries, and always when the entry right after those kept is the one retained |
| `SetRebuildAgain.UndoAgainExactly` | crdt/crdt/setAWCrdt.go:405-426 | undoing an effect changes nothing if and only if what it takes out is out and what it puts back is in |
| `CounterHistory.CounterSecondRebuild` | crdt/crdt/counterCrdt.go:120-161 | for a counter, two rebuilds agree with a direct one exactly if the changes of the retained entry add up to 0 |
| `CounterHistory.CounterSecondRebuildFails` | crdt/crdt/counterCrdt.go:154-161 | a counter with two increments rebuilt to the time between them and then to the strictly earlier start gives minus the last increment, where a direct rebuild gives 0 |
| `CounterHistory.CounterRebuildIsExact` | crdt/crdt/counterCrdt.go:120-161 | every rebuild of a counter that keeps only entries at most the target is exact |
| `CounterHistory.EntryReverses` | crdt/crdt/counterCrdt.go:154-161 | undoing an entry of any number of operations takes back what they did |
| `Clocks.ClockSiTimestamp.Compare` | crdt/clocksi/clocksi.go:220-254 | for every map order, with early exits: the relation of the two clocks, Higher against nil |
| `Clocks.ClockSiTimestamp.IsHigherOrEqual` | crdt/clocksi/clocksi.go:256-272 | no entry is below the other clock's |
| `Clocks.ClockSiTimestamp.IsHigher` | crdt/clocksi/clocksi.go:274-292 | Compare says Higher |
| `Clocks.ClockSiTimestamp.IsLowerOrEqual` | crdt/clocksi/clocksi.go:294-310 | no entry exceeds the other clock's, false against nil |
| `Clocks.ClockSiTimestamp.IsLower` | crdt/clocksi/clocksi.go:350-368 | Compare says Lower |
| `Clocks.ClockSiTimestamp.IsEqual` | crdt/clocksi/clocksi.go:417-432 | Compare says Equal |
| `Clocks.ClockSiTimestamp.Merge` | crdt/clocksi/clocksi.go:472-494 | the entrywise maximum over the receiver's ids |
| `Clocks.ClockSiTimestamp.MergeInto` | crdt/clocksi/clocksi.go:496-506 | the maximum of both, keeping positive entries that only the other clock has |
| `Clocks.ClockSiTimestamp.SelfIncTimestamp` | crdt/clocksi/clocksi.go:216-218 | one entry grows by one, and the clock grows strictly |
| `Clocks.ClockSiTimestamp.UpdatePos` | crdt/clocksi/clocksi.go:454-460 | one entry is raised to the new value if it is below it, and created if it was missing |
| `Clocks.CompareDecides` | crdt/clocksi/clocksi.go:220-254 | over the same ids Equal is equality, Lower and Higher mirror each other as the strict pointwise order, and Concurrent is incomparability |
| `Clocks.LeqIsPartialOrder` | crdt/clocksi/clocksi.go:294-310 | over the same ids lower-or-equal is a partial order |
| `Clocks.MergeIsLeastUpperBound` | crdt/clocksi/clocksi.go:472-494 | Merge is the least clock above both |
| `Clocks.BothHigherExactly` | crdt/clocksi/clocksi.go:220-254 | two clocks without negative entries are each Higher than the other exactly if they agree on common ids and each has a positive entry that the other lacks |
| `ClockBytes.WireRoundTrip` | crdt/clocksi/clocksi.go:552-602 | FromBytes undoes ToBytes for int16 ids and int64 values in every iteration order, for exactly the non-empty clocks |
| `ClockBytes.NothingIsZero` | crdt/clocksi/clocksi.go:570-602 | the empty clock is read back as id 0 at 0 |
| `ClockBytes.EntryLayout` | crdt/clocksi/clocksi.go:552-568 | an entry is sixteen bytes: two for the id, six zeros and eight for the value, the least significant first, negative numbers in two's complement |
| `ClockBytes.ToBytes` | crdt/clocksi/clocksi.go:552-568 | writes the entries in some order, sixteen bytes each |
| `ClockBytes.FromBytes` | crdt/clocksi/clocksi.go:570-602 | reads whole entries, and the empty string as id 0 at 0 |
| `ClockBytes.GetSortedKeys` | crdt/clocksi/clocksi.go:677-686 | the ids in increasing order, each once |
| `ClockBytes.SortedIsUnique` | crdt/clocksi/clocksi.go:677-686 | there is one such order, so keys of clocks over the same ids line up |
| `ClockBytes.GetMapByteKey` | crdt/clocksi/clocksi.go:644-652 | the values in id order, eight big-endian bytes each |
| `ClockKeys.KeyHolds` | crdt/clocksi/clocksi.go:644-652 | the k-th eight bytes of a key hold both 32-bit halves of the k-th value, the most significant byte first |
| `ClockKeys.KeyComparisonIsSound` | crdt/clocksi/clocksi.go:758-815 | for non-negative clocks over the same ids, lower or lower-or-equal keys imply the same of the clocks, and equal keys equal clocks |
| `ClockKeys.KeyComparesHalves` | crdt/clocksi/clocksi.go:802-815 | a key is lower or equal exactly if both 32-bit halves of every value are |
| `ClockKeys.KeyComparisonIsIncomplete` | crdt/clocksi/clocksi.go:758-815 | a higher clock whose key is incomparable |
| `ClockKeys.KeyLessIsStrict` | crdt/clocksi/clocksi.go:758-815 | on keys, lower is lower-or-equal without its converse, and both ways is equality |
| `ClockKeys.IsLower` | crdt/clocksi/clocksi.go:758-773 | every chunk lower or equal and some chunk lower |
| `ClockKeys.IsHigher` | crdt/clocksi/clocksi.go:785-800 | the mirror of IsLower |
| `ClockKeys.IsLowerOrEqual` | crdt/clocksi/clocksi.go:802-815 | every four-byte chunk lower or equal |
| `ClockKeys.IsEqual` | crdt/clocksi/clocksi.go:775-783 | equality of all bytes |
| `ClockKeys.InverseOpVM.GetClosestMatch` | potionDB/components/inverseOpVM.go:86-106 | for every map order: a cached version strictly above the read clock and minimal among such in key order, or the latest object exactly if there is none |
| `ClockKeys.InverseOpVM.ReadOld` | potionDB/components/inverseOpVM.go:34-45 | a cached version as it is, or one rebuilt from the closest version and cached from then on |
| `CachedReads.ReadsAreExact` | potionDB/components/inverseOpVM.go:34-45 | any sequence of reads through the cache, in whatever order and for every closest version chosen, finds the state of a direct rebuild each time, if undoing a retained entry again is harmless at each clock read |
| `CachedReads.SecondReadExactly` | potionDB/components/inverseOpVM.go:34-45 | the second of two reads finds the state of a direct rebuild if and only if its key is not below the first one's or two rebuilds agree with one |
| `CachedReads.CounterSecondReadExactly` | potionDB/components/inverseOpVM.go:86-112 | for a counter, if and only if its key is not below or the changes of the entry left in the first copy add up to 0 |
| `CachedReads.CounterReadFails` | potionDB/components/inverseOpVM.go:86-112 | two reads of a counter of which the second finds minus the last increment |
| `CachedReads.SetSecondReadExactly` | potionDB/components/inverseOpVM.go:86-112 | for a set, if and only if its key is not below or undoing that entry again puts nothing back |
| `CachedReads.SetHarmlessExactly` | crdt/crdt/setAWCrdt.go:405-426 | for a set, undoing a higher entry again is harmless at a clock exactly if its effect is settled in the kept entries |
| `CachedReads.SetReadsAreExact` | potionDB/components/inverseOpVM.go:34-45 | all reads of a set, in any order, find the replay of the entries kept, when the effects of the higher entries are settled at each clock read |

## Left out

- Machine integers: scores, rights, counters and clocks are unbounded; only the wire form of clocks models its widths.
- Payloads: the data bytes of top-K elements, which no decision depends on.
- Protobuf conversion, sockets, configuration, goroutine-based reads, the background loops that call GC and RequestTransfer.
- Random uniques and the clock of the machine: uniques are a parameter; freshness is a hypothesis where it matters.
- Transactions: an update is prepared and applied at its source in one step, and delivery in the runs of `CausalNet.dfy` is causal by construction.
- Bounded counter: Copy and the undo of operations, which the code has not finished; the write-only `decs` map is not a field of the model.
- Escrow runs: operations at a replica before it has received the bound, negative increments and decrements, and transfers on behalf of another replica are the callers' obligations; `RightsStayExactly` says what each of them does to the rights.
- Remove-wins map: undo and redo, reads, the list form of prepare, and embedded types other than counters; the effect record is not modelled because only undo uses it.
- Remove-wins map: an embedded counter is its value in the map, so sharing an embedded object between maps is not captured.
- Top-K: undo, a change of maxElems in mid-run, the cache of sorted elements, and the prepare steps of batches.
- Top-K after an unsafe remove: the meaning is stated for runs of safe removes, which are exactly the runs that keep the invariant.
- Top-K network: agreement once everything sent was applied is stated for runs without removes; for others `NetAgreesExactly` says what must have arrived.
- Undo log: a panic of the rebuild is the result false; the final notification and the copy made before a rebuild are not modelled, and callbacks act on the object being rebuilt.
- Undo log: the history is a sequence, so the sharing of a backing array between slices is not captured.
- Second rebuild of a set: after a first one that undid a transaction adding and then removing an element, which `TransactionRebuildExactly` says is not exact itself.
- Version cache: pruning of cached versions, and updates of the latest version between reads; two cached versions do not share state.
- StringKey, IsLowerOrEqualTotalOrder and the remaining clock helpers.
- Other replicated types: registers, flags, averages, extrema, ORMap, topK.go, topSum.go, gMap.go and multi-arrays; of the plain counter only its undo.
