# Skynet resource ledger and task resolution, in Dafny

This project models two parts of the Skynet StarCraft bot's planning core.

**The resource manager** (`Skynet/SkynetResourceManager.cpp`) keeps, for minerals, gas and supply:
- an immediate reservation counter, for reservations at tick 0 or earlier;
- a *task timeline*: future balance changes as `{time, amount}` entries, in strictly ascending tick order.

It also keeps a timeline of permanent supply outputs. What the model covers:
- **Merge-insert.** An entry already at the tick takes the amount. Otherwise a new entry goes in at its sorted position.
- **Per-cycle rebuild.** The mineral and gas timelines are emptied. The supply timeline is rebuilt from the permanent outputs plus one entry per incomplete supply unit.
- **Earliest-availability scan.** It finds the first tick at which an amount can be committed and stay committed through every known future event. It may withdraw a commitment that a later event drives negative. When the final balance covers the requirement, it reports the tick at which the last unbroken run of covering balances began: 0, an event's tick, or, at a positive rate, a tick interpolated with a ceiling. When the final balance falls short, it extrapolates past the last event with a ceiling at a positive rate, and answers "never" (`MaxTime`) otherwise.
- **Point-in-time projection.** The free amount at a tick, truncated toward zero.
- **Total supply at a tick.**
- **Adding and removing supply outputs.**

**The task** (`Skynet/SkynetTask.cpp`) holds resource requirements and at most one unit requirement. `updateTime` works in three steps:
1. It takes the maximum of the requirements' earliest ticks, never below 0.
2. If that is below `MaxTime`, the unit requirement may move the tick later, with the maximum as a floor.
3. If the final tick is below `MaxTime`, every resource requirement is reserved at that one final tick.

Destroying a task releases every requirement. It notifies the task manager whenever its tick is above 0, `MaxTime` included.

## How the model is built

- `timeline.dfy` (module `Timeline`) holds the timeline datatype and `StrictlySorted`. It also holds:
  - the merge-insert, specified by `Insert` and implemented by `ReserveTaskResource` over a binary search;
  - the output removal, specified by `OutputRemoved` and implemented by a linear search.
- `availability.dfy` (module `Availability`) holds the two read-only scans. Each is a recursive specification function over the timeline, plus a method with the source's loop proved equal to it.
  - The earliest-availability scan is also characterised without the scan, in `EarliestReference`. That definition uses the uncommitted balance after each event: the starting free amount, minus the event amounts so far, plus the accrual since tick 0. The result is the commit tick of the last unbroken run of events after which this balance covers the requirement. `EarliestMeaning` proves the scan equals this definition.
  - Free amounts and rates are exact `real`s. `Accrual(ticks, rate)` is `ticks * rate` spelled out by recursion, which keeps the scan proofs linear. `AccrualIsProduct` connects it to the product the loops compute.
- `resource_manager.dfy` (module `Resources`):
  - `class ResourceManager` has the three counters, the four timelines and the two rates as fields. Its methods update them in place.
  - `Valid()` states that every timeline is strictly sorted, and that the mineral and gas timelines hold only ticks after 0: the source inserts into them only for such ticks, and `update` empties them. Every method keeps it.
  - Reading the game state is not modelled. The player's minerals, gas and supply, and the list of supply units, are method parameters.
- `task.dfy` (module `Tasks`):
  - `class Task` holds the requirement list, the optional unit requirement, the resolved tick and the chosen unit.
  - The requirement classes are not part of this model. Their answers are parameters of `UpdateTime`: each resource requirement's earliest tick, the unit requirement's answer as a function of the floor, and the unit it chose.
  - The calls the task makes on its requirements and on the task manager are recorded in a ghost log. The properties are stated over that log.

Where the code differs from the system's documented intent, the model follows the code:
- The merge-insert never removes an entry whose amount reaches zero. Only the removal of a supply output erases one. `MergeExample` shows an entry that sums to zero staying in place.
- The projection converts to `int` by truncation toward zero, not by floor.
- Total supply is read from the supply reservation timeline. A temporary supply output therefore does raise the total supply, as `TemporaryOutputRaisesTotal` shows.

## Model

| member | source | states |
|---|---|---|
| Timeline.FirstAtOrAfter | Skynet/SkynetResourceManager.cpp:38 | The search position for tick `t`: every entry before it has an earlier tick, and the entry on it (if any) is at or after `t` |
| Timeline.FirstAtOrAfterSplits | Skynet/SkynetResourceManager.cpp:38 | On a sorted timeline an index lies before the search position exactly when its tick is below `t` |
| Timeline.FirstAtOrAfterMonotone | Skynet/SkynetResourceManager.cpp:38 | A later tick never moves the search position back |
| Timeline.FirstAtOrAfterUnique | Skynet/SkynetResourceManager.cpp:38 | Any position that separates earlier ticks from the rest is the search position |
| Timeline.LowerBound | Skynet/SkynetResourceManager.cpp:38 | The binary search with predicate `time >= t` returns the first index whose tick is at or after `t` |
| Timeline.ReserveTaskResource | Skynet/SkynetResourceManager.cpp:36-43 | The merge-insert on a sorted timeline gives the specified merge-insert result and keeps the timeline strictly sorted |
| Timeline.Insert | Skynet/SkynetResourceManager.cpp:36-43 | The merge-insert: an entry at the tick takes the amount added to it, otherwise `{time, amount}` goes in at the search position |
| Timeline.InsertKeepsFuture | Skynet/SkynetResourceManager.cpp:45-59 | A merge-insert at a tick after 0 keeps a timeline of ticks after 0 sorted and after 0 |
| Timeline.InsertKeepsSorted | Skynet/SkynetResourceManager.cpp:36-43 | Merge-insert preserves strict tick order, so ticks stay unique |
| Timeline.InsertMerges | Skynet/SkynetResourceManager.cpp:39-40 | With an entry already at the tick, only that entry changes (amount `+= amount`), the length is kept, and a zero result stays |
| Timeline.InsertAdds | Skynet/SkynetResourceManager.cpp:41-42 | With no entry at the tick, exactly one entry `{time, amount}` is added: length grows by one, the entries are the old ones plus the new one, and the order stays strict |
| Timeline.InsertNeverShrinks | Skynet/SkynetResourceManager.cpp:36-43 | Merge-insert never removes an entry, and afterwards the tick is present |
| Timeline.InsertKeepsTimes | Skynet/SkynetResourceManager.cpp:36-43 | Every tick present before a merge-insert is present after it |
| Timeline.InsertSum | Skynet/SkynetResourceManager.cpp:36-43 | A merge-insert changes the timeline's total by exactly the inserted amount |
| Timeline.MergeExample | Skynet/SkynetResourceManager.cpp:39-40 | Two inserts at tick 7 merge into one entry of 15; inserting -15 then leaves a zero entry in place |
| Timeline.FirstWithTime | Skynet/SkynetResourceManager.cpp:229-232 | The `find_if` result: an entry at the tick with none at that tick before it |
| Timeline.FindTime | Skynet/SkynetResourceManager.cpp:229-232 | The linear search returns the first index whose tick equals `t` |
| Timeline.OutputRemoved | Skynet/SkynetResourceManager.cpp:234-239 | The output removal: the first entry at the tick takes the amount, and is erased when it reaches zero |
| Timeline.OutputRemovedKeepsSorted | Skynet/SkynetResourceManager.cpp:234-239 | Removing an output keeps the timeline strictly sorted and shortens it by at most one entry |
| Timeline.RemoveAfterAdd | Skynet/SkynetResourceManager.cpp:219-240 | Adding an output at a tick and then removing it gives the timeline back, when no zero-amount entry sat at that tick |
| Timeline.RemoveAfterMerge | Skynet/SkynetResourceManager.cpp:234-236 | The round trip when the output merged into an existing non-zero entry |
| Timeline.RemoveAfterNewEntry | Skynet/SkynetResourceManager.cpp:236-239 | The round trip when the output made a new entry, which the removal erases again |
| Timeline.RemoveAfterAddErasesZeroEntry | Skynet/SkynetResourceManager.cpp:234-239 | A zero-amount entry at the tick breaks the round trip: the removal erases it |
| Availability.Ceil | Skynet/SkynetResourceManager.cpp:114 | `ceil` on an exact real: the least integer at or above `x` |
| Availability.Trunc | Skynet/SkynetResourceManager.cpp:185 | The `(int)` conversion truncates toward zero: within one of `x` on the side of zero |
| Availability.AccrualIsProduct | Skynet/SkynetResourceManager.cpp:101-102 | The accrual over `ticks` ticks equals `ticks * rate` |
| Availability.AccrualAdds | Skynet/SkynetResourceManager.cpp:101-102 | Accrual over consecutive intervals adds up |
| Availability.BalanceStep | Skynet/SkynetResourceManager.cpp:99-102 | One event takes its amount off the balance and adds the accrual since the previous event |
| Availability.ScanStart | Skynet/SkynetResourceManager.cpp:86-91 | The scan state before any event: committed, with the requirement taken out, exactly when the free amount covers it |
| Availability.ScanStep | Skynet/SkynetResourceManager.cpp:97-131 | One event of the scan: apply its amount and the accrual, then commit with an interpolated or event tick, withdraw, or carry on |
| Availability.ScanTo | Skynet/SkynetResourceManager.cpp:95-132 | The scan state after the first `j` events |
| Availability.ScanResult | Skynet/SkynetResourceManager.cpp:134-143 | The answer from the final scan state: the committed tick, `MaxTime` at a non-positive rate, or an extrapolation past the last event |
| Availability.Earliest | Skynet/SkynetResourceManager.cpp:84-144 | `earliestAvailability` as a function: the final scan state's answer |
| Availability.EarliestReference | Skynet/SkynetResourceManager.cpp:84-144 | The earliest tick defined without the scan, from the balance after each event and the start of the last covering run |
| Availability.ScanEvent | Skynet/SkynetResourceManager.cpp:97-131 | The loop body of `earliestAvailability` computes the specified step of the scan state: commit, interpolate, withdraw or carry on |
| Availability.EarliestAvailability | Skynet/SkynetResourceManager.cpp:84-144 | The loop returns the scan's result, which `EarliestMeaning` ties to the reference definition |
| Availability.RunStart | Skynet/SkynetResourceManager.cpp:104-129 | The start of the last unbroken run of covering balances ending at event `j`: every balance from it to `j` covers the requirement, and the one before it does not |
| Availability.ScanTracksBalance | Skynet/SkynetResourceManager.cpp:86-132 | After any number of events the committed flag is exactly "balance covers requirement", the free amount has the requirement taken out while committed, and the committed tick is the commit tick of the current run |
| Availability.StepTracksBalance | Skynet/SkynetResourceManager.cpp:99-129 | One event keeps that correspondence; a commit in this event reports the interpolated tick or the event's tick |
| Availability.EarliestMeaning | Skynet/SkynetResourceManager.cpp:84-144 | `earliestAvailability` equals the reference definition built from balances, run starts and commit ticks |
| Availability.UncommittedIsShort | Skynet/SkynetResourceManager.cpp:86-129 | Loop invariant: while nothing is committed, the free amount is short of the requirement |
| Availability.EarliestEmptyTimeline | Skynet/SkynetResourceManager.cpp:84-143 | With no events: 0 if the free amount covers the requirement, `MaxTime` if the rate is not positive, else the ceiling of deficit over rate |
| Availability.EarliestMidScanBounds | Skynet/SkynetResourceManager.cpp:104-119 | With a positive rate and future events, a tick found mid-scan lies after the previous event and no later than the event that completed the commitment |
| Availability.EarliestExtrapolatedBounds | Skynet/SkynetResourceManager.cpp:134-141 | A tick extrapolated after the last event lies strictly after that event |
| Availability.MidScanBounded | Skynet/SkynetResourceManager.cpp:104-141 | At a positive rate, the tick lies after the event before the final covering run and no later than the event that starts it, or after the last event when the final balance falls short |
| Availability.ScanBounds | Skynet/SkynetResourceManager.cpp:104-141 | On a timeline of ticks after 0 the scan's answer meets those bounds |
| Availability.CeilOfPositiveQuotient | Skynet/SkynetResourceManager.cpp:140 | The ceiling of a positive deficit over a positive rate is at least one tick |
| Availability.EarliestNonPositiveRate | Skynet/SkynetResourceManager.cpp:116-137 | Without a positive rate the result is 0, `MaxTime`, or the tick of some event |
| Availability.EarliestSustained | Skynet/SkynetResourceManager.cpp:104-137 | Without a positive rate, a reported tick is where the final run of covering balances starts; with a short final balance the result is `MaxTime` |
| Availability.EarliestWithdrawnExample | Skynet/SkynetResourceManager.cpp:122-128 | Free 100, requirement 60, rate 0, a draw of 50 at tick 5: the commitment is withdrawn and the result is `MaxTime` |
| Availability.EarliestRestartExample | Skynet/SkynetResourceManager.cpp:104-119 | Free 50, requirement 60, rate 0, draw 100 at 5, release 200 at 10: the result is 10 |
| Availability.ProductionAfterEarliestKeepsIt | Skynet/SkynetResourceManager.cpp:84-144 | On a sorted timeline with a rate of at least 0, merging a production (a negative amount) in at a tick after a finite earliest tick leaves that earliest tick unchanged |
| Availability.ProductionAfterEarliestNegativeRate | Skynet/SkynetResourceManager.cpp:99-127 | Free 12, requirement 10, rate -1 and a production of 1000 at tick 5 give earliest tick 0; merging a further production of 1 in at tick 4, after that tick, moves it to 5 |
| Availability.ProductionBalances | Skynet/SkynetResourceManager.cpp:36-43 | Merging a production of `p` in keeps every balance before its position, raises every later one by `p`, and a new entry's balance adds the accrual up to its tick |
| Availability.SharedPrefixBalance | Skynet/SkynetResourceManager.cpp:97-102 | Two timelines that share their first `m` events have the same balances, and the same previous tick, after each of them |
| Availability.InsertBalanceMerged | Skynet/SkynetResourceManager.cpp:39-40 | Merged into an existing entry, the amount lowers every balance from that entry on |
| Availability.InsertBalanceShifted | Skynet/SkynetResourceManager.cpp:41-42 | A new entry moves every later balance one index on and lowers it by the amount |
| Availability.InsertBalanceNewEntry | Skynet/SkynetResourceManager.cpp:41-42 | The balance after a new entry is the one before it, less its amount, plus the accrual since the previous event |
| Availability.CoveredRunKept | Skynet/SkynetResourceManager.cpp:104-129 | A production at or after the start of the final covering run keeps the run and its commit tick |
| Availability.LateRunKept | Skynet/SkynetResourceManager.cpp:104-119 | A production behind the start of the final covering run, after its interpolated tick, keeps that tick |
| Availability.LateRunInterpolated | Skynet/SkynetResourceManager.cpp:109-115 | When the final covering run starts behind the position of a tick after the earliest one, the rate is positive, the run starts right after that position, and the earliest tick is interpolated from the short balance there |
| Availability.ShortEndKept | Skynet/SkynetResourceManager.cpp:134-141 | A production after an extrapolated earliest tick keeps it: the new last entry covers from that tick on |
| Availability.ShortEndExtrapolated | Skynet/SkynetResourceManager.cpp:134-141 | An extrapolated earliest tick before `t` means a positive rate and every event before `t` |
| Availability.InterpolatedCommitKept | Skynet/SkynetResourceManager.cpp:109-115 | A production behind a short balance, after the tick interpolated from it, makes every later balance cover, and the earliest tick stays that interpolated tick |
| Availability.AvailabilityAtTime | Skynet/SkynetResourceManager.cpp:161-186 | The loop with its early exit returns the specified projection: the events up to the query, the accrual up to the query, truncated |
| Availability.Projected | Skynet/SkynetResourceManager.cpp:161-186 | `availabilityAtTime` as a function: the balance after the events up to the query, plus the accrual to the query, truncated |
| Availability.ProjectedEmptyTimeline | Skynet/SkynetResourceManager.cpp:179-185 | With no events and a query at or after tick 0 the projection is `trunc(free + rate * query)` |
| Availability.BalancePrefix | Skynet/SkynetResourceManager.cpp:164-177 | Balances over the leading events do not depend on the events behind them |
| Availability.ProjectedIgnoresLater | Skynet/SkynetResourceManager.cpp:166-167 | An event after the query ends the scan: dropping it and everything behind it changes nothing |
| Resources.Rebuilt | Skynet/SkynetResourceManager.cpp:17-34 | The supply timeline after `update`: the permanent outputs with a merge-insert of `-supplyProvided` for each incomplete supply unit, in order |
| Resources.RebuiltStep | Skynet/SkynetResourceManager.cpp:29-31 | One more supply unit adds a merge-insert of `-supplyProvided` at its completion tick exactly when it exists and is incomplete |
| Resources.RebuiltSorted | Skynet/SkynetResourceManager.cpp:17-34 | The rebuilt supply timeline is strictly sorted |
| Resources.RebuiltSum | Skynet/SkynetResourceManager.cpp:23-33 | The rebuilt supply timeline totals the permanent outputs less the supply still to come from incomplete units |
| Resources.RebuiltTimes | Skynet/SkynetResourceManager.cpp:23-33 | The rebuilt supply timeline keeps every output tick and has an entry at each incomplete unit's completion tick |
| Resources.SupplyGain | Skynet/SkynetResourceManager.cpp:207-214 | The supply that leading entries add: `-amount` of each negative entry |
| Resources.TotalSupply | Skynet/SkynetResourceManager.cpp:203-217 | `totalSupplyAtTime` as a function: the current total plus the supply gain of the entries at or before the tick |
| Resources.SupplyGainGrows | Skynet/SkynetResourceManager.cpp:207-214 | The supply added by leading entries is never negative and grows with the number of entries |
| Resources.TotalSupplyMonotone | Skynet/SkynetResourceManager.cpp:203-217 | Total supply is at least the current total and never falls as the queried tick grows |
| Resources.InsertShiftsCut | Skynet/SkynetResourceManager.cpp:38 | Inserting a new tick moves the search position for a later tick one place right, and leaves it for an earlier one |
| Resources.TotalSupplyIgnoresDraws | Skynet/SkynetResourceManager.cpp:212-213 | Only negative amounts count: inserting a draw at a new tick leaves every total supply unchanged |
| Resources.DrawPrefixGain | Skynet/SkynetResourceManager.cpp:207-214 | Inserting a draw at a new tick leaves the supply gain of every prefix unchanged, counted with or without the new entry |
| Resources.SupplyGainSkipsDraw | Skynet/SkynetResourceManager.cpp:212-213 | A non-negative entry adds no supply wherever it sits |
| Resources.TemporaryOutputRaisesTotal | Skynet/SkynetResourceManager.cpp:219-225 | A temporary output of 8 at tick 20 raises the total supply at tick 20 by 8 and leaves tick 19 unchanged |
| Resources.ResourceManager.constructor | Skynet/SkynetResourceManager.cpp:8-15 | A new manager has zero counters, empty timelines and the given rates |
| Resources.ResourceManager.Update | Skynet/SkynetResourceManager.cpp:17-34 | Mineral and gas timelines are emptied; the supply timeline becomes the outputs rebuilt with the incomplete supply units; all timelines stay sorted |
| Resources.ResourceManager.ReserveTaskMinerals | Skynet/SkynetResourceManager.cpp:45-51 | At tick 0 or earlier only the counter changes, by `+amount`; later only the timeline changes, by a merge-insert |
| Resources.ResourceManager.ReserveTaskGas | Skynet/SkynetResourceManager.cpp:53-59 | As for minerals, on the gas counter and timeline |
| Resources.ResourceManager.ReserveTaskSupply | Skynet/SkynetResourceManager.cpp:61-67 | As for minerals, on the supply counter and timeline |
| Resources.ResourceManager.FreeTaskMinerals | Skynet/SkynetResourceManager.cpp:69-72 | Only the mineral counter changes, by `-amount`; the manager stays valid |
| Resources.ResourceManager.FreeTaskGas | Skynet/SkynetResourceManager.cpp:74-77 | Only the gas counter changes, by `-amount`; the manager stays valid |
| Resources.ResourceManager.FreeTaskSupply | Skynet/SkynetResourceManager.cpp:79-82 | Only the supply counter changes, by `-amount`; the manager stays valid |
| Resources.ResourceManager.EarliestMineralAvailability | Skynet/SkynetResourceManager.cpp:146-149 | The scan on the mineral timeline, with the player's minerals less the immediate reservations as the free amount; at a positive rate the answer meets the mid-scan bounds |
| Resources.ResourceManager.EarliestGasAvailability | Skynet/SkynetResourceManager.cpp:151-154 | The scan on the gas timeline, with the player's gas less the immediate reservations as the free amount; at a positive rate the answer meets the mid-scan bounds |
| Resources.ResourceManager.EarliestSupplyAvailability | Skynet/SkynetResourceManager.cpp:156-159 | The scan on the supply timeline at rate 0, so the answer is 0, `MaxTime` or the tick of a supply event |
| Resources.ResourceManager.AvailableMineralsAtTime | Skynet/SkynetResourceManager.cpp:188-191 | The projection of the mineral pool, which changes nothing |
| Resources.ResourceManager.AvailableGasAtTime | Skynet/SkynetResourceManager.cpp:193-196 | The projection of the gas pool, which changes nothing |
| Resources.ResourceManager.AvailableSupplyAtTime | Skynet/SkynetResourceManager.cpp:198-201 | The projection of the supply pool at rate 0, which changes nothing |
| Resources.ResourceManager.TotalSupplyAtTime | Skynet/SkynetResourceManager.cpp:203-217 | The loop with its early exit returns the current total plus `-amount` of every negative entry at or before the tick |
| Resources.ResourceManager.AddTaskSupplyOutput | Skynet/SkynetResourceManager.cpp:219-225 | The output always goes into the supply timeline, and into the output timeline unless temporary; both stay sorted |
| Resources.ResourceManager.RemoveTaskSupplyOutput | Skynet/SkynetResourceManager.cpp:227-240 | The first output entry at the tick takes `+amount` and is erased when it reaches zero; nothing else changes |
| Resources.ImmediateReservationRoundTrip | Skynet/SkynetResourceManager.cpp:45-72 | Reserving minerals at tick 0 or earlier and then freeing the same amount restores the counter and leaves the timeline alone |
| Resources.ImmediateGasRoundTrip | Skynet/SkynetResourceManager.cpp:53-77 | Reserving gas at tick 0 or earlier and then freeing the same amount restores the counter and leaves the timeline alone |
| Resources.ImmediateSupplyRoundTrip | Skynet/SkynetResourceManager.cpp:61-82 | Reserving supply at tick 0 or earlier and then freeing the same amount restores the counter and leaves the timeline alone |
| Resources.OutputRoundTrip | Skynet/SkynetResourceManager.cpp:219-240 | Adding a permanent output and removing it restores the output timeline, when no zero entry sat at that tick |
| Tasks.ResourceFloor | Skynet/SkynetTask.cpp:34-39 | The resource maximum is at least 0 and at least every requirement's earliest tick |
| Tasks.ResourceFloorStep | Skynet/SkynetTask.cpp:38 | One more requirement takes the `max` with its tick |
| Tasks.ResourceFloorAttained | Skynet/SkynetTask.cpp:34-39 | The resource maximum is 0 or one of the ticks, so it is the least such bound |
| Tasks.LatestResourceTime | Skynet/SkynetTask.cpp:34-39 | The first loop of `updateTime` returns the resource maximum |
| Tasks.ConsultsUnit | Skynet/SkynetTask.cpp:42 | The unit requirement is consulted exactly when there is one and the resource maximum is below `MaxTime` |
| Tasks.ResolvedTime | Skynet/SkynetTask.cpp:34-47 | The tick the task settles on: the unit requirement's answer from the resource maximum when it is consulted, the maximum otherwise |
| Tasks.ReservationCalls | Skynet/SkynetTask.cpp:51-54 | One reservation per resource requirement, in order, all at the same tick |
| Tasks.UpdateCalls | Skynet/SkynetTask.cpp:34-55 | The calls `updateTime` makes: the unit consultation at the resource maximum when it happens, then one reservation per resource requirement at the settled tick when that is below `MaxTime` |
| Tasks.FreeCalls | Skynet/SkynetTask.cpp:16-19 | One release per resource requirement, in order |
| Tasks.Task.constructor | Skynet/SkynetTask.cpp:9-12 | A new task has no requirements, tick 0 and no chosen unit |
| Tasks.Task.UpdateTime | Skynet/SkynetTask.cpp:32-56 | The tick becomes the resource maximum moved by the unit requirement; the unit is consulted, and the chosen unit taken, only when there is one and the maximum is below `MaxTime`; reservations follow only when the final tick is below `MaxTime` |
| Tasks.Task.ReserveAll | Skynet/SkynetTask.cpp:49-55 | Every resource requirement is reserved exactly once, in order, at the given tick |
| Tasks.Task.Destroy | Skynet/SkynetTask.cpp:14-30 | Every resource requirement is released, then the unit requirement if present; the manager is told iff the tick is after 0 |
| Tasks.Task.AddRequirementMineral | Skynet/SkynetTask.cpp:58-61 | Exactly one mineral requirement is appended and the earlier ones are kept in order |
| Tasks.Task.AddRequirementGas | Skynet/SkynetTask.cpp:63-66 | Exactly one gas requirement is appended and the earlier ones are kept in order |
| Tasks.Task.AddRequirementSupply | Skynet/SkynetTask.cpp:68-71 | Exactly one supply requirement is appended and the earlier ones are kept in order |
| Tasks.Task.AddRequirementUnitType | Skynet/SkynetTask.cpp:73-95 | Any earlier unit requirement is replaced by one for a unit type, with optional duration and route |
| Tasks.Task.AddRequirementUnitSpecific | Skynet/SkynetTask.cpp:97-118 | Any earlier unit requirement is replaced by one for a specific unit, with optional duration and route |
| Tasks.WithoutUnitSettlesOnFloor | Skynet/SkynetTask.cpp:34-55 | With no unit requirement the tick is `max(0, max of ticks)`; requirements are reserved there once each if it is below `MaxTime`, and not at all otherwise |
| Tasks.NoRequirementsSettlesOnZero | Skynet/SkynetTask.cpp:34-39 | With no requirements at all the tick is 0 |
| Tasks.ResolvedTimeCoversAll | Skynet/SkynetTask.cpp:41-47 | When the unit requirement never answers below its floor, the final tick covers every resource requirement and is at least 0 |
| Tasks.UnitMovesReservations | Skynet/SkynetTask.cpp:41-55 | The unit requirement sees the resource maximum; the reservations use its answer, not the maximum |
| Tasks.ResolutionExample | Skynet/SkynetTask.cpp:32-56 | Minerals ready at 12 and a unit ready at 15 from floor 12: the task settles on 15 and takes the chosen unit, and its calls are exactly a unit reservation at 12 and then the minerals reserved at 15 |
| Tasks.UnreachableExample | Skynet/SkynetTask.cpp:42-55 | A requirement at `MaxTime` leaves the task at `MaxTime` with no unit, and it makes no call at all: the unit is not consulted and nothing is reserved |

## Left out

- Game-state reads are parameters. These cover the player's minerals, gas, total and used supply, and the supply units with their existence, completion, time till completion and supply provided. The player and unit trackers are not part of this model.
- The constructor's registration of `update` as a periodic process is left out. It is scheduling plumbing. The hard-coded initial mineral rate is left out too: the constructor takes both rates as parameters.
- IEEE double arithmetic is left out. Free amounts and rates are exact reals. The model does not claim the source's rounding.
- Integer overflow is not modelled. All ints are unbounded.
- The unused local `previous_free_amount` of `availabilityAtTime` is not modelled.
- `MaxTime` is taken as `0x7FFF_FFFF`, the largest 32-bit int. The header that defines it is not part of this model. Only the two worked examples depend on its value: `ResolutionExample` needs it above 15, `UnreachableExample` needs it at least 40.
- The requirement classes are not modelled. This covers their earliest-tick queries, their reservations against the resource manager, and unit selection. Their answers are parameters of `UpdateTime`, and the calls made on them are log entries.
- The task manager's handling of a destroyed task is not modelled. It is recorded only as a `TaskDestroyed` log entry.
- Resources.ResourceManager.constructor and Tasks.Task.constructor: the headers that give the counters, the resolved tick and the chosen unit their initial values are not part of this model. Zero counters, tick 0 and no chosen unit are assumed.
- Tasks.LatestResourceTime: the first loop of `updateTime` is its own method here, and writes its maximum into the field once at the end. The behaviour is the same.
- Tasks.Task.ReserveAll: the commit loop of `updateTime` is its own method here. It is not inline in `UpdateTime`. The behaviour is the same.
- Tasks.Task.AddRequirementUnitType: the four `unit_type` overloads are one method. Absent duration and route are `None`. The defaults the requirement classes use for them are not part of this model.
- Tasks.Task.AddRequirementUnitSpecific: likewise for the four specific-unit overloads.
- Tasks.Task.UpdateTime: the requirements' answers are fixed for the duration of one call. The model does not capture answers that change while the call runs.
- Resources.ResourceManager.RemoveTaskSupplyOutput requires an output entry at the tick. The source dereferences the end iterator when there is none, which is undefined behaviour.
- Timeline.RemoveAfterAdd requires that no zero-amount entry sits at the tick. `RemoveAfterAddErasesZeroEntry` shows the source erasing such an entry.
- Availability.EarliestMidScanBounds requires a sorted timeline of events after tick 0. The supply timeline need not be one, since it can hold outputs at tick 0 or earlier, so the bound is stated for the mineral and gas scans only.
- Availability.ProductionAfterEarliestKeepsIt requires a rate of at least 0. With a pool that drains over time a production after the earliest tick can move it, as `ProductionAfterEarliestNegativeRate` shows. Only productions are covered: nothing is proved about how a draw moves the earliest tick.
