# Verified models of the game server

This project models the self-contained, stateful parts of an online game server
written in C++ and proves what they are for. To check it, run
`dafny verify dfyconfig.toml` with Dafny 4.11.

Each part has a specification on values (functions, a state machine, or both), theorems
about that specification over all inputs or all runs, and, where the source updates
state in place, a class or an array method proved to do what the specification says.

| part | files |
|---|---|
| placing a team's members on battle positions | `TeamPos` |
| heartbeat of the object managers: a cursor over an ordered set, shares per tick, deferred changes | `ObjectRing`, `HeartbeatShare`, `ChangeList`, `ObjectManager`, `HeartbeatRuns` |
| timed tasks, at the granularity of locked sections | `TaskMachine`, `TaskCancel`, `TaskAssertions`, `TaskSchedule`, `TimedTask` |
| map elements that are on during time slots | `MapElem`, `MapElemCtrller` |
| weighted selection, renormalisation, drop tables | `RandomSelect`, `DropTable` |
| the item list: slots, stacks, moving, tidying | `Items`, `ItemPiling`, `ItemOps`, `ItemTidy`, `TidyLimits`, `TidyFewest`, `ItemList` |
| the network buffer and the player data codec over it | `Buffer`, `Codec`, `ObjectDataCodec` |
| the light timer: an ordered set and its inverse map | `TimerLite` |
| the mall: stock, refreshes, sales ranking | `SalesRanking`, `MallRuns`, `MallAssertions`, `MallOffers`, `GameMall` |
| what several of them share | `Sequences`, `Numbers` |

Assertions of the source (`ASSERT`, `assert`) are preconditions where the caller owes
them and proved where the code owes them; where a method may run into one and go on, its
result `held` says exactly when it does not. Where the code does not always do what
its documentation or its own assertions promise, it is modelled as it stands. In each of
these places the exact condition is proved, and the lemma in brackets gives an input
outside it:

- `src/gamed/gs/global/drop_table.cpp:45` tests the row at the position drawn, not the
  row drawn: `DropTable.UniqueOnceExactly`, `DropTable.PromisedExactly`
  (`DropTable.ScatteredExample`).
- `src/gamed/gs/global/drop_table.cpp:57` ends early when no row is left, which the data
  check at `monster_drop_templ.h:65-68` rules out only for tables of unique rows:
  `DropTable.AllTimesExactly` (`DropTable.DrainedExample`).
- `src/gamed/gs/item/item_list.cpp:580` gives a stack what the other stack holds instead
  of the room it has: `TidyLimits.TidyLimitsExactly` (`TidyLimits.AsWrittenExample`);
  `repaired` selects the room.
- `src/gamed/gs/item/item_list.cpp:366-378` swaps slots without asking whether they hold
  anything, as does its caller at `src/gamed/gs/player/subsys/player_inventory.cpp:774`;
  the assertion in `src/gamed/gs/item/item.h:214` holds exactly if both do:
  `ItemList.Inventory.ExchangeItem` (any swap with an empty slot).
- `src/gamed/gs/global/timer_lite.h:85-90` erases from the map what the caller's vector
  already held: `TimerLite.EmptyVectorExactly`, `TimerLite.StaysInverseExactly`
  (`TimerLite.StaleVector`).
- `src/gamed/gs/global/team_util.cpp:74` loops for good when there are more members than
  free positions: `TeamPos.EndsExactly` (`TeamPos.CrowdedTeam`). Its only caller,
  `src/gamed/gs/scene/base_wm_imp.cpp:1429`, passes vacant positions, so that only other
  callers could get there.
- `src/common/obj_data/codec_obj_data.cpp:16-55` writes the number of attributes as 16
  bits, and writes frames that the parser refuses for their length, of at most 12 bytes (no
  attribute, or one empty one) or above 2 MiB: `Codec.RoundTripExactly`
  (`Codec.AllTypesExample`).
- `src/gamed/gs/global/timed_task.cpp:110-119`: a Cancel between the pop of a task and
  its re-entry is lost: `TaskCancel.CancelExactly` (`TaskAssertions.CancelTooLate`).
- `src/gamed/gs/global/timed_task.h:172-177`: a second Cancel of a task that is still
  active fails an assertion: `TaskAssertions.AssertionsExactly`
  (`TaskAssertions.TwiceCancelled`).
- `src/gamed/gs/global/game_mall.cpp:307-357` decides what is due and restocks it under
  two locks, so purchases and further scans can come between a due scan and its restocking:
  `MallOffers.OfferExactly` (`MallOffers.OneScanOversells`, `MallOffers.TwoScansOversell`).
- `src/gamed/gs/global/game_mall.cpp:348` asserts that a limited daily good offers
  something, which the data check at `mall_class_templ.h:87-91` does not demand of a good
  with a limit for each player: `MallAssertions.AssertionsExactly`
  (`MallAssertions.ZeroStock`).

A comment at `src/gamed/gs/global/game_mall.cpp:97` speaks of thirty seconds; the code
refreshes every 1200 ticks, which are sixty.

## Model

| member | source | states |
|---|---|---|
| `TeamPos.BestIsFirstPreferred` | src/gamed/gs/global/team_util.cpp:74-105 | one scan of the loop finds a pair no other open pair is preferred to, by weight and then by combat value, and the first such pair in scan order |
| `TeamPos.EndsExactly` | src/gamed/gs/global/team_util.cpp:59-115 | the loop ends if and only if there is a free position for every member; otherwise it spins with members left over |
| `TeamPos.CrowdedTeam` | src/gamed/gs/global/team_util.cpp:74-115 | four members and one position taken: one member is left over, so the loop does not end |
| `TeamPos.PlacesHold` | src/gamed/gs/global/team_util.cpp:59-115 | what the loop leaves is a placement: members go to free positions, no two to one, and everybody already placed stays |
| `TeamPos.EveryoneOnce` | src/gamed/gs/global/team_util.cpp:59-115 | when there is room, every member gets a position |
| `TeamPos.Stable` | src/gamed/gs/global/team_util.cpp:74-115 | no member and free position both gain by pairing up: the own place weighs at least as much, or the holder weighs more there, or as much with the greater combat value, or is equal in both and no later |
| `TeamPos.BestInNumbers` | src/gamed/gs/global/team_util.cpp:74-105 | the pair that a round picks weighs at least as much as any other; of those its combat value is greatest; and it is the first of those in scan order |
| `TeamPos.StrongerFirst` | src/gamed/gs/global/team_util.cpp:90-99 | of two members of one class the one with the greater combat value, or the first of two equal ones, gets a position whenever the other does, and one that weighs at least as much |
| `TeamPos.TwiceAnyPlacement` | src/gamed/gs/global/team_util.cpp:74-115 | twice the weight of the greedy placement is at least that of any other placement of the same members |
| `TeamPos.GreedyIsNotOptimal` | src/gamed/gs/global/team_util.cpp:13-54 | a concrete team the loop places with weight 21 although 24 is possible, so the greedy placement need not be the best |
| `TeamPos.FindBest` | src/gamed/gs/global/team_util.cpp:79-105 | the nested scan returns the indexes of the preferred pair, or two negative ones when no pair is open |
| `TeamPos.PlaceAll` | src/gamed/gs/global/team_util.cpp:74-115 | the in-place rounds leave the positions that the specification of the greedy placement gives, and end if and only if nobody is left over |
| `TeamPos.TidyTeamPos` | src/gamed/gs/global/team_util.cpp:59-124 | an invalid class or an empty team changes nothing; otherwise the positions are the greedy placement, the call returns if and only if there is room for everybody, and then says whether anybody moved |
| `ObjectRing.RunsFair` | src/gamed/gs/global/obj_manager.h:201-232 | over any mixture of inserts, removals and visits: the cursor is null or in the set, nobody is visited twice in a lap, and whoever stayed in the set and lies behind the cursor has been visited |
| `ObjectRing.NoObjectSkipped` | src/gamed/gs/global/obj_manager.h:201-219 | when a lap ends, every object that stayed in the set throughout was visited, once |
| `ObjectRing.DeleteKeepsLap` | src/gamed/gs/global/obj_manager.h:201-219 | removing any object, also the one under the cursor, leaves the rest of the lap in its order |
| `HeartbeatShare.SharesAddUp` | src/gamed/gs/global/obj_manager.h:297-350 | the shares of successive ticks, their visits, cursor and residue, are those of one undivided walk: the integer accumulator loses nothing |
| `HeartbeatShare.EachOncePerRound` | src/gamed/gs/global/obj_manager.h:297-350 | from every cursor and residue, any MM_HEARTBEAT_TICK collections without changes visit each object exactly once and restore cursor and residue |
| `HeartbeatShare.WalkIsVisits` | src/gamed/gs/global/obj_manager.h:309-349 | the closed walk over positions goes to the objects that successive visits of the ring go to, and leaves the cursor where they do |
| `ChangeList.BalancedApplies` | src/gamed/gs/global/obj_manager.h:232-255 | a balanced change list passes all assertions and leaves exactly the objects with membership plus count 1 |
| `ChangeList.AssertionsExactly` | src/gamed/gs/global/obj_manager.h:201-255 | the assertions of DoInsert and DoDelete all hold if and only if membership plus pending count is 0 or 1 for every object |
| `ChangeList.DeferredRefinesEager` | src/gamed/gs/global/obj_manager.h:232-255 | along every run in which Insert and Remove of an object alternate, the deferred list stands for the eager set and applying it yields that set |
| `ObjectManager.TickIsVisits` | src/gamed/gs/global/obj_manager.h:297-350 | a collection is as many visits of the ring as its share says, and keeps the cursor sound |
| `ObjectManager.RingTicksWalk` | src/gamed/gs/global/obj_manager.h:297-350 | any number of collections of the manager is the walk of the shares |
| `ObjectManager.HeartbeatFair` | src/gamed/gs/global/obj_manager.h:297-350 | MM_HEARTBEAT_TICK collections of the manager without changes visit every object once, from the cursor around to it |
| `ObjectManager.CollectionKeepsLapsFair` | src/gamed/gs/global/obj_manager.h:232-350 | applying the change list and then visiting keeps the laps fair, for every change list that passes its assertions |
| `HeartbeatRuns.RunIsEvents` | src/gamed/gs/global/obj_manager.h:232-350 | a run of collections, with changes before each, is a run of ring events and visits the same objects |
| `HeartbeatRuns.OneCollection` | src/gamed/gs/global/obj_manager.h:297-350 | a run of one collection returns what CollectHeartbeatObject returns |
| `HeartbeatRuns.NobodyTwice` | src/gamed/gs/global/obj_manager.h:201-349 | however inserts, removals and visits are mixed, nobody is visited twice while an object that stays in the set is not visited |
| `HeartbeatRuns.NobodyCollectedTwice` | src/gamed/gs/global/obj_manager.h:232-350 | the same for the lists that any run of collections returns, for an object that stays and is not idle |
| `HeartbeatRuns.NoStarvation` | src/gamed/gs/global/obj_manager.h:232-350 | with addresses up to a top, an object that stays and is not idle is collected within MM_HEARTBEAT_TICK times that many collections, whatever is inserted and removed |
| `HeartbeatRuns.VisitsExactly` | src/gamed/gs/global/obj_manager.h:297-350 | while no collection finds the set empty, any run with any changes makes as many visits as one undivided accumulator pays for: what was left over and the sizes of all sets found, divided by MM_HEARTBEAT_TICK |
| `HeartbeatRuns.EmptyForfeits` | src/gamed/gs/global/obj_manager.h:302-306 | a collection that finds the set empty visits nobody and drops what was left over: the visits after it are paid by the sets found after it alone |
| `HeartbeatRuns.FreshStart` | src/gamed/gs/global/obj_manager.h:302-350 | after the set was empty, t collections of the n objects inserted then make n * t / MM_HEARTBEAT_TICK visits, rounded down |
| `ObjectManager.AwakeExactly` | src/gamed/gs/global/obj_manager.h:325-341 | the list holds every visit of an object that is not idle, and none of one that is |
| `ObjectManager.AwakeJoins` | src/gamed/gs/global/obj_manager.h:325-341 | and it holds them in the order of the visits |
| `ObjectManager.Manager.constructor` | src/gamed/gs/global/obj_manager.h:149-152 | an empty set and no pending change; cursor and residue, which the source leaves to static storage, are null and zero |
| `ObjectManager.Manager.Insert` | src/gamed/gs/global/obj_manager.h:365-369 | adds one to the pending count of an object and touches nothing else |
| `ObjectManager.Manager.Remove` | src/gamed/gs/global/obj_manager.h:372-376 | takes one off the pending count of an object and touches nothing else |
| `ObjectManager.Manager.DoInsert` | src/gamed/gs/global/obj_manager.h:222-229 | the in-place insertion is the ring event |
| `ObjectManager.Manager.DoDelete` | src/gamed/gs/global/obj_manager.h:201-219 | the in-place removal, with the cursor moved on, is the ring event |
| `ObjectManager.Manager.DoChange` | src/gamed/gs/global/obj_manager.h:232-255 | walks the change list in address order and leaves the ring that its events give, and an empty list |
| `ObjectManager.Manager.CollectHeartbeatObject` | src/gamed/gs/global/obj_manager.h:297-350 | the loop over accumulator and cursor returns the awake objects of the tick's visits and leaves the specified cursor and residue; an empty set leaves none |
| `TaskMachine.StepInv` | src/gamed/gs/global/timed_task.cpp:94-187 | every locked section keeps the invariant: the set is in tick order without duplicate ids, the active ids are those in it, and cancelled ids are active or popped |
| `TaskMachine.RunInv` | src/gamed/gs/global/timed_task.cpp:94-187 | the same after every run of locked sections of any threads |
| `TaskMachine.IndexesAgree` | src/gamed/gs/global/timed_task.h:161-185 | from an empty manager, after every run: as many active ids as tasks, the same ids, none of them popped, and no stale cancellation |
| `TaskCancel.DoomedStaysSilent` | src/gamed/gs/global/timed_task.cpp:110-187 | a task cancelled while active, or popped with its cancellation recorded, never fires again in any run |
| `TaskCancel.PoppedFires` | src/gamed/gs/global/timed_task.cpp:139-187 | a popped task that is not cancelled does fire |
| `TaskCancel.CancelExactly` | src/gamed/gs/global/timed_task.cpp:110-119 | Cancel of a waiting or popped task silences it in every run if and only if it finds the id active |
| `TaskAssertions.AssertionsExactly` | src/gamed/gs/global/timed_task.cpp:94-187 | over every run from the empty manager, all assertions hold if and only if no two cancellations of one id both find it active |
| `TaskAssertions.StepAsserts` | src/gamed/gs/global/timed_task.h:161-177 | in every reachable state each locked section meets its assertions, except a Cancel of an id that is active and already cancelled |
| `TaskAssertions.PopHolds` | src/gamed/gs/global/timed_task.cpp:122-137 | the three assertions of GetExpired always hold: the bound, each erase, and the sizes |
| `TaskAssertions.TwiceCancelled` | src/gamed/gs/global/timed_task.h:172-177 | one task cancelled twice before its tick: the second call fails its assertion |
| `TaskAssertions.CancelTooLate` | src/gamed/gs/global/timed_task.cpp:110-119 | every task due at once, popped and then cancelled: a run in which it fires after the Cancel |
| `TaskSchedule.FiresOnSchedule` | src/gamed/gs/global/timed_task.cpp:94-187 | under every interleaving, an uncancelled task fires exactly the first k of its schedule, REPEATs counting down and one END, is never late, and is in neither index after the last |
| `TaskSchedule.AddedBetweenTicks` | src/gamed/gs/global/timed_task.cpp:94-108 | a request made between ticks is taken if and only if interval and start_time are not negative and times is positive; its task keeps what was asked for and is due at t + start_time + interval, the next tick at the earliest, and then every interval, at least every tick |
| `TimedTask.WholeTickIsRun` | src/gamed/gs/global/timed_task.cpp:139-187 | one undisturbed Tick is a run of the machine that ends idle |
| `TimedTask.AddIsRun` | src/gamed/gs/global/timed_task.cpp:94-108 | one undisturbed AddTimedTask is allocation followed by entry |
| `TimedTask.TimedTaskManager.InsertToTaskSet` | src/gamed/gs/global/timed_task.h:161-170 | the entry goes before those of its tick and the id, which must not be active, becomes active |
| `TimedTask.TimedTaskManager.AddTimedTask` | src/gamed/gs/global/timed_task.cpp:94-108 | rejects exactly the requests with a negative interval or start or nothing to fire, which change nothing; otherwise allocates the next id and enters the task |
| `TimedTask.TimedTaskManager.Cancel` | src/gamed/gs/global/timed_task.cpp:110-119 | records the cancellation exactly if the id is active; the source demands that it is not recorded yet |
| `TimedTask.TimedTaskManager.HasExpiredTasks` | src/gamed/gs/global/timed_task.h:179-185 | whether the first entry is due |
| `TimedTask.TimedTaskManager.GetExpired` | src/gamed/gs/global/timed_task.cpp:122-137 | pops everything due and takes those ids out of the active index, and its three assertions hold |
| `TimedTask.TimedTaskManager.Tick` | src/gamed/gs/global/timed_task.cpp:139-187 | pops, settles and re-enters tasks in place exactly as the machine does |
| `MapElem.OnExactlyInSlot` | src/gamed/gs/global/map_elem_ctrl.cpp:61-182 | given the GetNextTime contract and a clock that gains at most one second per counted second, at every second of every run a controller is active if and only if the time is in its slot |
| `MapElem.RunTimely` | src/gamed/gs/global/map_elem_ctrl.cpp:110-171 | the same from any timely state: no boundary passes before the next check |
| `MapElem.RightAfterEveryCheck` | src/gamed/gs/global/map_elem_ctrl.cpp:122-171 | for a clock that may jump forward at will, right after every check a controller is active if and only if the time is in its slot |
| `MapElem.JumpsAreMended` | src/gamed/gs/global/map_elem_ctrl.cpp:110-171 | whatever the clock jumps before the next check, at most 541 counted seconds away, from that check on controllers are active exactly in their slots while the clock is steady |
| `MapElem.LastListed` | src/gamed/gs/global/map_elem_ctrl.cpp:61-108 | for any clock: where a controller is after any number of checks is the span GetNextTime gave when it was last listed, at start-up or at the check that found the boundary before that one reached; no check since found the new boundary reached |
| `MapElem.LastListedInRun` | src/gamed/gs/global/map_elem_ctrl.cpp:61-171 | the same after every run of counted seconds |
| `MapElem.DelayReaches` | src/gamed/gs/global/map_elem_ctrl.cpp:154-171 | a delay that neither the cap of 541 nor the end of 32-bit time cuts short ends exactly at a start or an end that GetNextTime gave for some controller |
| `MapElem.OpenOnceMeetsContract` | src/shared/base/time_entry.h:34-37 | the contract can be met by a slot that opens and closes |
| `MapElemCtrller.OneListEach` | src/gamed/gs/global/map_elem_ctrl.cpp:84-108 | each controller is in exactly one of active, waiting and invalid, with one entry |
| `MapElemCtrller.ListSizes` | src/gamed/gs/global/map_elem_ctrl.cpp:53-54 | the three lists together have as many entries as there are controllers |
| `MapElemCtrller.TwoPasses` | src/gamed/gs/global/map_elem_ctrl.cpp:122-146 | the pass over the active list followed by the pass over the waiting list looks at each due controller once |
| `MapElemCtrller.DelayFromLists` | src/gamed/gs/global/map_elem_ctrl.cpp:148-171 | the delay is at most 541 seconds, passes no boundary, and is the nearest boundary, the cap or the end of time |
| `MapElemCtrller.Controller.constructor` | src/gamed/gs/global/map_elem_ctrl.cpp:32-82 | at start-up every controller is listed and its last call matches its list; the first countdown depends on whether there are any templates, kept or not |
| `MapElemCtrller.Controller.InsertToList` | src/gamed/gs/global/map_elem_ctrl.cpp:84-108 | a controller in no list enters exactly the one its slot says |
| `MapElemCtrller.Controller.CheckPass` | src/gamed/gs/global/map_elem_ctrl.cpp:122-146 | one pass takes out what has expired, lists it anew, and turns controllers on and off to match |
| `MapElemCtrller.Controller.CalcNextCheckoutTime` | src/gamed/gs/global/map_elem_ctrl.cpp:122-171 | leaves the lists of the specification, with one entry for each controller, and returns the capped time to the nearest boundary, which is a start or an end that GetNextTime gave |
| `MapElemCtrller.Controller.HeartbeatTick` | src/gamed/gs/global/map_elem_ctrl.cpp:110-120 | twenty ticks count one second down; a countdown that is through checks and restarts with the delay |
| `RandomSelect.SelectExact` | src/gamed/gs/global/randomgen.cpp:57-71 | subtracting weights picks the one option whose interval of prefix sums holds the draw |
| `RandomSelect.DrawsSelectingCount` | src/gamed/gs/global/randomgen.cpp:57-71 | of the 10000 draws exactly option[i] return i, so a zero option is never chosen |
| `RandomSelect.RandSelect` | src/gamed/gs/global/randomgen.cpp:57-71 | the loop returns the owner of the draw |
| `RandomSelect.RandSelectProb` | src/gamed/gs/global/randomgen.cpp:37-55 | the single form succeeds exactly for draws up to prob |
| `RandomSelect.HitsCount` | src/gamed/gs/global/randomgen.cpp:37-55 | which are exactly prob of the 10000 |
| `RandomSelect.NormalizedRestores` | src/gamed/gs/global/randomgen.cpp:109-127 | renormalising positive weights that lost mass lowers none and gives a sum of exactly 10000 |
| `RandomSelect.ProportionsKept` | src/gamed/gs/global/randomgen.cpp:109-127 | renormalising keeps proportions: each weight but the last becomes its exact share of 10000 rounded down, one less only where the share is whole and the division short; the last exceeds its share by no more than one unit for each other weight |
| `RandomSelect.SharesKept` | src/gamed/gs/global/randomgen.cpp:109-127 | so every weight is within one unit below and one unit for each other weight above its exact share |
| `RandomSelect.RenormalisedAfterRemoval` | src/gamed/gs/global/randomgen.cpp:109-127 | the same for a full list after one option is taken out |
| `RandomSelect.Normalization` | src/gamed/gs/global/randomgen.cpp:109-127 | overwrites the array by the scaled weights, the last taking the rest |
| `DropTable.RowDraws` | src/gamed/gs/global/drop_table.cpp:31-42 | of the 10000 draws exactly the current weight of a row that is still there drop that row |
| `DropTable.FirstDraws` | src/gamed/gs/global/drop_table.cpp:20-42 | at first that is the drop_prob of the row |
| `DropTable.SharesAfterRemoval` | src/gamed/gs/global/drop_table.cpp:45-60 | when a row leaves, the others keep their order and, up to rounding, the proportions of their weights |
| `DropTable.AllTimesExactly` | src/gamed/gs/global/drop_table.cpp:33-62 | drop_times items drop, for all draws, if and only if the table has that many rows or its first row may repeat |
| `DropTable.DrainedExample` | src/gamed/gs/template/data_templ/monster_drop_templ.h:42-75 | a valid template for three drops that can drop two |
| `DropTable.AllUniqueDistinct` | src/gamed/gs/global/drop_table.cpp:20-63 | a table of unique rows drops min(drop_times, rows) items from pairwise distinct rows, for all draws |
| `DropTable.UniqueOnceExactly` | src/gamed/gs/global/drop_table.cpp:45 | no unique row drops twice, for all draws, if and only if at most two are drawn or the unique rows stand in one block |
| `DropTable.PromisedExactly` | src/gamed/gs/global/drop_table.cpp:45 | the code drops what testing the drawn row would drop, for all draws, if and only if at most two are drawn or no unique row stands before one that is not |
| `DropTable.ScatteredRepeats` | src/gamed/gs/global/drop_table.cpp:45 | for every table whose unique rows are scattered, draws that drop a unique row twice |
| `DropTable.ScatteredExample` | src/gamed/gs/template/data_templ/monster_drop_templ.h:42-75 | a concrete valid template whose unique row can drop twice |
| `DropTable.MisplacedDiffers` | src/gamed/gs/global/drop_table.cpp:45 | for every table with a unique row before one that is not, draws on which the code departs from the test on the drawn row |
| `DropTable.RemoveRow` | src/gamed/gs/global/drop_table.cpp:45-60 | the in-place shift and renormalisation keep weights positive, summing to 10000, beside their rows |
| `DropTable.DrawAll` | src/gamed/gs/global/drop_table.cpp:31-63 | the loop over both arrays yields the drops of the specification |
| `DropTable.DropItem` | src/gamed/gs/global/drop_table.cpp:14-66 | an unknown template changes nothing; otherwise one entry per drop is appended, with the item and the count of the row drawn |
| `ItemPiling.HasSlotExactly` | src/gamed/gs/item/item_list.cpp:168-181 | HasSlot(type, count) is true if and only if Push places everything |
| `ItemPiling.PushConserves` | src/gamed/gs/item/item_list.cpp:255-293 | for every type, stored plus left over is what was stored plus the offer; other types stay |
| `ItemPiling.PushGoodExactly` | src/gamed/gs/item/item_list.cpp:255-293 | every stack stays within its limit if and only if what the stacks do not take fits one slot or no slot is free; always so for an offer up to the limit |
| `ItemPiling.PushSlotBySlot` | src/gamed/gs/item/item_list.cpp:255-293 | in slot order each stack of the type is given what it has room for of what those before it left; what is left then fills the first empty slot, or is left over; items of limit 1 go there at once |
| `ItemPiling.PushLast` | src/gamed/gs/item/item_list.cpp:255-293 | the slot reported is the fresh one if one was used, otherwise the last that was given something, or -1 |
| `ItemPiling.PushStacksFirst` | src/gamed/gs/item/item_list.cpp:255-293 | a fresh slot is used only when every stack of the type is full; it is the first empty one and gets what the stacks did not take |
| `ItemOps.MoveKeeps` | src/gamed/gs/item/item_list.cpp:411-459 | a move keeps every stack good and changes no type's total |
| `ItemOps.MoveBack` | src/gamed/gs/item/item_list.cpp:411-459 | moving the same number back restores the slots, unless a whole stack went onto an occupied slot |
| `ItemOps.DoKeeps` | src/gamed/gs/item/item_list.cpp:92-554 | every operation keeps every stack between 1 and its limit and changes a type's total by exactly what it reports |
| `ItemOps.RunKeeps` | src/gamed/gs/item/item_list.cpp:92-554 | over every sequence of operations the stock is the opening stock plus the ledger, and every stack stays good |
| `ItemTidy.TidyFits` | src/gamed/gs/item/item_list.cpp:630-674 | tidying never needs more slots than were occupied |
| `ItemTidy.TidyConserves` | src/gamed/gs/item/item_list.cpp:630-674 | tidying preserves the total of every type, with the room as written and as intended |
| `ItemTidy.TidyOrdered` | src/gamed/gs/item/item_list.cpp:630-674 | the occupied slots come first, by class ascending, in a class by type ascending, in a type by rank descending |
| `ItemTidy.MergeIsPiling` | src/gamed/gs/item/item_list.cpp:563-600 | the merge with the intended room gives each stack what Push would give it, and leaves the same |
| `TidyLimits.TwoMerged` | src/gamed/gs/item/item_list.cpp:571-590 | two stacks that do not fit one: as intended the first is filled and the second keeps the rest; as written the first is given its limit less what the second holds |
| `TidyLimits.TidyKeepsKinds` | src/gamed/gs/item/item_list.cpp:563-674 | every stack after tidying is a stack from before up to its amount |
| `TidyLimits.InsertAsWrittenExactly` | src/gamed/gs/item/item_list.cpp:563-628 | with the room as written, one insertion keeps the limits if and only if the guard that the code lacks holds along the stacks |
| `TidyLimits.TwoStacks` | src/gamed/gs/item/item_list.cpp:580 | for two stacks: all fits, or the second is no smaller than the first |
| `TidyLimits.AsWrittenExample` | src/gamed/gs/item/item_list.cpp:580 | nine of at most ten and then three: the code makes sixteen and minus four |
| `TidyLimits.TidyLimitsExactly` | src/gamed/gs/item/item_list.cpp:563-674 | tidying with the intended room always respects the limits; as written it does if and only if the guard holds at every insertion |
| `TidyLimits.OneOpenIsSafe` | src/gamed/gs/item/item_list.cpp:563-674 | tidying as written is safe for every bag in which at most one stack of each type has room |
| `TidyFewest.TidyIsFewest` | src/gamed/gs/item/item_list.cpp:563-674 | tidying with the intended room leaves the fewest occupied slots there can be: no good bag with the same totals and limits occupies fewer |
| `TidyLimits.GroupCompact` | src/gamed/gs/item/item_list.cpp:563-628 | with the intended room at most one stack of a type is left with room |
| `ItemList.Inventory.constructor` | src/gamed/gs/item/item_list.cpp:92-103 | all slots empty and counted; the free-slot counter stays the number of empty slots |
| `ItemList.Inventory.Find` | src/gamed/gs/item/item_list.cpp:145-153 | the first slot of the type, or -1 |
| `ItemList.Inventory.CountItem` | src/gamed/gs/item/item_list.cpp:155-166 | the sum over the slots |
| `ItemList.Inventory.HasSlot` | src/gamed/gs/item/item_list.cpp:168-181 | decides the predicate that predicts Push |
| `ItemList.Inventory.TryPile` | src/gamed/gs/item/item_list.cpp:679-704 | piles onto stacks of the type in slot order; the free-slot counter stays the number of empty slots |
| `ItemList.Inventory.FindEmpty` | src/gamed/gs/item/item_list.cpp:706-717 | the first empty slot, or -1 |
| `ItemList.Inventory.Push` | src/gamed/gs/item/item_list.cpp:255-293 | piles, then fills one fresh slot, and reports what is left and where; limits are kept if and only if what spills fits or no slot is free; the free-slot counter stays the number of empty slots |
| `ItemList.Inventory.PushAt` | src/gamed/gs/item/item_list.cpp:295-319 | puts a whole stack into a given slot if and only if it is empty or of that type with room for all of it; limits are kept unless it exceeds its own in an empty slot, and the assertion that joined stacks have one limit is reported; the free-slot counter stays the number of empty slots |
| `ItemList.Inventory.PushInEmpty` | src/gamed/gs/item/item_list.cpp:321-335 | puts a whole stack into the first empty slot from a start, or answers -1; the free-slot counter stays the number of empty slots |
| `ItemList.Inventory.Exchange` | src/gamed/gs/item/item_list.cpp:347-364 | puts an item at a slot and hands out what was there; says when the assertion of item assignment holds; the free-slot counter stays the number of empty slots |
| `ItemList.Inventory.ExchangeItem` | src/gamed/gs/item/item_list.cpp:366-378 | swaps two slots if and only if both exist and differ; the assertion of item assignment holds if and only if both are occupied; the free-slot counter stays the number of empty slots |
| `ItemList.Inventory.MoveItem` | src/gamed/gs/item/item_list.cpp:411-459 | moves if and only if the slots differ, the source holds at least the count, which is positive, and the destination is empty or of that type with room for it; then the count goes from one to the other and no other slot changes; the free-slot counter stays the number of empty slots |
| `ItemList.Inventory.RemoveAt` | src/gamed/gs/item/item_list.cpp:380-409 | clears a slot and returns what it held; refused, after a failed assertion, exactly for a bad index or an empty slot; the free-slot counter stays the number of empty slots |
| `ItemList.Inventory.IncAmount` | src/gamed/gs/item/item_list.cpp:461-475 | tops a stack up to its limit and reports by how much; -1, after a failed assertion, exactly for a bad index or an empty slot; the free-slot counter stays the number of empty slots |
| `ItemList.Inventory.DecAmount` | src/gamed/gs/item/item_list.cpp:477-496 | takes items off a stack, clearing an empty slot; -1, after a failed assertion, exactly for a bad index or an empty slot; the free-slot counter stays the number of empty slots |
| `ItemList.Inventory.TakeOutItem` | src/gamed/gs/item/item_list.cpp:199-204 | takes items of the named type out of a slot; the free-slot counter stays the number of empty slots |
| `ItemList.Inventory.SellItem` | src/gamed/gs/item/item_list.cpp:522-554 | sells if and only if the stack holds as much and may be sold, for the price of what was sold; the free-slot counter stays the number of empty slots |
| `ItemList.Inventory.Clear` | src/gamed/gs/item/item_list.cpp:92-103 | empties every slot; the free-slot counter stays the number of empty slots |
| `ItemList.Inventory.InsertItem` | src/gamed/gs/item/item_list.cpp:563-628 | merges along the list and places what is left |
| `ItemList.Inventory.TidyUp` | src/gamed/gs/item/item_list.cpp:630-674 | rebuilds the bag as specified; the free-slot counter stays the number of empty slots |
| `Buffer.Net32RoundTrip` | src/shared/net/endian_ex.h:26-54 | reading a big-endian 32-bit integer gives back what was written, whatever follows |
| `Buffer.Net16RoundTrip` | src/shared/net/endian_ex.h:26-54 | the same for 16 bits |
| `Buffer.BytesOf32` | src/shared/net/endian_ex.h:26-54 | the four bytes are the two's complement of the integer, the most significant first |
| `Buffer.BytesOf16` | src/shared/net/endian_ex.h:26-54 | the same for two bytes |
| `Buffer.Host32RoundTrip` | src/shared/net/endian_ex.h:26-54 | writing back a read integer restores its four bytes |
| `Buffer.NetBuffer.constructor` | src/shared/net/buffer.h:35-43 | an empty buffer with the initial room |
| `Buffer.NetBuffer.MakeSpace` | src/shared/net/buffer.h:306-325 | grows if and only if compacting would not make the room, and keeps the content; the assertion of the compaction branch always holds |
| `Buffer.NetBuffer.EnsureWritableBytes` | src/shared/net/buffer.h:160-167 | the same when there is too little room, nothing otherwise |
| `Buffer.NetBuffer.Append` | src/shared/net/buffer.h:148-153 | the content grows by the bytes at its end |
| `Buffer.NetBuffer.Prepend` | src/shared/net/buffer.h:270-276 | the content grows by the bytes at its front |
| `Buffer.NetBuffer.Retrieve` | src/shared/net/buffer.h:84-95 | drops bytes off the front; an emptied buffer is reset |
| `Buffer.NetBuffer.RetrieveAll` | src/shared/net/buffer.h:119-123 | no content is left |
| `Buffer.NetBuffer.RetrieveAsString` | src/shared/net/buffer.h:130-136 | returns and drops the front |
| `Buffer.NetBuffer.AppendInt32` | src/shared/net/buffer.h:181-185 | appends the big-endian bytes |
| `Buffer.NetBuffer.AppendInt16` | src/shared/net/buffer.h:187-191 | appends the big-endian bytes |
| `Buffer.NetBuffer.PrependInt32` | src/shared/net/buffer.h:253-257 | prepends the big-endian bytes |
| `Buffer.NetBuffer.PeekInt32` | src/shared/net/buffer.h:227-233 | the integer at the front, nothing dropped |
| `Buffer.NetBuffer.ReadInt32` | src/shared/net/buffer.h:202-207 | reads back what AppendInt32 wrote |
| `Buffer.NetBuffer.ReadInt16` | src/shared/net/buffer.h:209-214 | reads back what AppendInt16 wrote |
| `Buffer.NetBuffer.Shrink` | src/shared/net/buffer.h:278-285 | keeps the content and leaves the reserve |
| `Codec.RoundTripExactly` | src/common/obj_data/codec_obj_data.cpp:16-131 | parsing what was filled restores every attribute's bytes if and only if the frame is longer than 12 bytes, at most 2 MiB, and fewer than 65536 types are registered |
| `Codec.FrameLayout` | src/common/obj_data/codec_obj_data.cpp:4-55 | the frame byte by byte: four bytes with the length of the rest, two with the count, and per attribute two with its type, four with its length, and its content, high bytes first |
| `Codec.LoadExactly` | src/common/obj_data/codec_obj_data.cpp:71-131 | loading into other registrations: a frame within the limits parses if and only if all its types are registered; those get the contents of the frame and the others keep theirs |
| `Codec.ParseFromStores` | src/common/obj_data/codec_obj_data.cpp:84-131 | the record loop stores the contents one after the other up to exactly total_len, or stops at the first type that is not registered |
| `Codec.AllTypesAbort` | src/common/obj_data/codec_obj_data.cpp:71-98 | with all 65536 types registered the 16-bit count wraps to 0 and the length check at the end fails |
| `Codec.AllTypesExample` | src/common/obj_data/codec_obj_data.cpp:16-55 | such a list exists and its frame is within the limits, so the round trip fails on it |
| `ObjectDataCodec.PlayerCodec.RegisterAttr` | src/common/obj_data/codec_obj_data.h:47-58 | adds an attribute under a new type and keeps the others |
| `ObjectDataCodec.PlayerCodec.FillEmptyBuffer` | src/common/obj_data/codec_obj_data.cpp:16-55 | fills an empty buffer with exactly the frame; at the first attribute that does not marshal it stops after its type, with no length in front |
| `ObjectDataCodec.PlayerCodec.ParseObjectData` | src/common/obj_data/codec_obj_data.cpp:71-98 | the pointer loop restores what the specification of parsing restores; a frame of at most 12 bytes or above 2 MiB is refused and changes nothing |
| `ObjectDataCodec.SaveAndLoad` | src/common/obj_data/codec_obj_data.cpp:16-131 | fill, take the bytes out of the buffer, parse: the second codec ends with the first one's contents and an empty buffer |
| `TimerLite.OneOrder` | src/gamed/gs/global/timer_lite.h:39-49 | the ordered set is determined by its entries, so by the map |
| `TimerLite.SameSize` | src/gamed/gs/global/timer_lite.h:77-92 | set and map always have the same size, as every operation asserts |
| `TimerLite.EmptyVectorExactly` | src/gamed/gs/global/timer_lite.h:74-93 | all assertions of GetExpired hold if and only if the vector came in empty |
| `TimerLite.StaysInverseExactly` | src/gamed/gs/global/timer_lite.h:74-93 | with assertions compiled out, set and map stay inverse if and only if no object in the vector waits for a later deadline |
| `TimerLite.StaleVector` | src/gamed/gs/global/timer_lite.h:85-90 | a vector naming an object with a later deadline: an assertion fails, and without assertions set and map part |
| `TimerLite.ReportedOnce` | src/gamed/gs/global/timer_lite.h:65-139 | between two reports of one object there is another AddEntry of it |
| `TimerLite.ReportsExactly` | src/gamed/gs/global/timer_lite.h:65-139 | over every run, GetExpired reports an object exactly if its last AddEntry is neither cancelled nor replaced, is due, and was due at no GetExpired since |
| `TimerLite.HeldExactly` | src/gamed/gs/global/timer_lite.h:65-139 | over every run, the map holds exactly the deadlines that no later call ended |
| `TimerLite.Timer.GetNextTime` | src/gamed/gs/global/timer_lite.h:64-72 | the least deadline, or the greatest 64-bit integer |
| `TimerLite.Timer.AddEntry` | src/gamed/gs/global/timer_lite.h:95-121 | set and map stay inverse, the map gains or replaces one deadline, the least deadline is returned |
| `TimerLite.Timer.Cancel` | src/gamed/gs/global/timer_lite.h:123-139 | set and map stay inverse, one object is dropped, the least deadline is returned |
| `TimerLite.Timer.GetExpired` | src/gamed/gs/global/timer_lite.h:74-93 | appends exactly the due entries by deadline and then address, leaves in the map what is later and not named in the vector, and says when its assertions hold and when set and map stay inverse |
| `SalesRanking.SaleRanked` | src/gamed/gs/global/game_mall.cpp:283-305 | one sale adds to one total; order and one entry per good stay, the others keep their places, and the good just sold leads its ties |
| `SalesRanking.TopAreBest` | src/gamed/gs/global/game_mall.cpp:192-203 | the first five are distinct, best first, and no good left out has sold more |
| `MallRuns.StockExactly` | src/gamed/gs/global/game_mall.cpp:142-158 | over every interleaving, limited stock is item_count less the units sold since the last restocking and stays within 0..item_count |
| `MallRuns.SellsExactly` | src/gamed/gs/global/game_mall.cpp:114-158 | over every interleaving, a purchase of any good goes through if and only if its own checks pass and, of a limited good, the units sold since the last restocking leave enough |
| `MallRuns.RefusedExactly` | src/gamed/gs/global/game_mall.cpp:114-158 | over every interleaving, each code that refuses a purchase is returned if and only if its check fails and all before it pass; no good without limit is ever short |
| `MallRuns.StampsExactly` | src/gamed/gs/global/game_mall.cpp:250-331 | goods with a daily rule or a limit for each player carry the time of the opening, unless a daily one was stamped since, by the first scan of the latest day |
| `MallRuns.DueExactly` | src/gamed/gs/global/game_mall.cpp:307-331 | for every clock, a scan finds a daily good due if and only if the previous scan, or the opening, was on another day |
| `MallRuns.OncePerDay` | src/gamed/gs/global/game_util.h:107-121 | for a clock that does not go back, a scan finds a daily good due if and only if the opening and all earlier scans were on other days |
| `MallAssertions.StepAssertsExactly` | src/gamed/gs/global/game_mall.cpp:333-356 | over every interleaving, the assertions of a restocking hold if and only if no good it restocks has item_count 0 |
| `MallAssertions.AssertionsExactly` | src/gamed/gs/template/data_templ/mall_class_templ.h:87-91 | for a shop that passes the data check, all assertions of all runs hold if and only if no daily good has item_count 0 |
| `MallAssertions.ZeroStock` | src/gamed/gs/global/game_mall.cpp:333-356 | a good that passes the data check and fails the assertion at the first refresh of another day |
| `MallOffers.OneScanOversells` | src/gamed/gs/global/game_mall.cpp:307-357 | one due scan: the old stock bought before the restocking and the new one after it are twice the offer |
| `MallOffers.OfferExactly` | src/gamed/gs/global/game_mall.cpp:307-357 | whatever the threads do before the next scan, no more than the shop offers is sold if and only if stock and refills to come are no more than that |
| `MallOffers.TwoScansOversell` | src/gamed/gs/global/game_mall.cpp:307-357 | two due scans before any restocking: three times the offer can be sold |
| `MallOffers.PromptKeepsOffer` | src/gamed/gs/global/game_mall.cpp:307-357 | over every run in which each due scan is carried out before the good is bought again, no more than the offer is sold between two due scans |
| `MallRuns.RankingExactly` | src/gamed/gs/global/game_mall.cpp:283-305 | over every interleaving, ranked plus not yet ranked units of each good are its lifetime sales, one entry per good, in descending order |
| `MallRuns.BestSellers` | src/gamed/gs/global/game_mall.cpp:192-203 | when no purchase is half done: exact lifetime totals, ranked if and only if ever sold, and the first five are the best sellers |
| `GameMall.GMall.constructor` | src/gamed/gs/global/game_mall.cpp:31-76 | full stock for limited goods, refresh stamps, an empty ranking |
| `GameMall.GMall.PlayerDoShopping` | src/gamed/gs/global/game_mall.cpp:114-166 | the first failing check decides and changes nothing; otherwise stock, ranking and the outputs change as the two steps of the machine say |
| `GameMall.GMall.UpdateSaleVolumeMap` | src/gamed/gs/global/game_mall.cpp:283-305 | the scan, erase and insert give the specified ranking |
| `GameMall.GMall.QueryTopSaleVolumeGoods` | src/gamed/gs/global/game_mall.cpp:192-203 | appends the first five |
| `GameMall.GMall.RefreshGoods` | src/gamed/gs/global/game_mall.cpp:307-357 | stamps and restocks exactly what is due, and says whether its assertions held: nothing due has nothing to offer |
| `GameMall.GMall.HeartbeatTick` | src/gamed/gs/global/game_mall.cpp:93-102 | refreshes every 1200 ticks |
| `GameMall.GMall.OnPlayerOpenMall` | src/gamed/gs/global/game_mall.cpp:104-112 | refreshes if the last refresh is 200 ticks old |

## Left out

- Sockets, event loops, remote calls, generated packet code, logging, scripts and configuration loading: plumbing around code not shown.
- ObjectAllocator and DeleteAllObjects: a free list and a teardown loop; easy members.
- Item bodies, activation, essences, the reference counter, expiry and UseItem: virtual hooks; an item is its type, amount, limit, class, rank, price and whether it may be sold.
- The aging index of the item list: keyed by expiry time alone and not moved along with items, so it is no index of the slots.
- The Push overload that takes an item by reference: differs only in the slot reported on failure and in releasing its argument.
- Saving and loading of item lists and their messages: protobuf.
- 32-bit overflow of item amounts, sales totals and costs: amounts are unbounded integers.
- TeamPos.TidyTeamPos: a loop that goes round for good is a result, `ends` false, since methods here end.
- ObjectManager.Manager.constructor: the source sets neither cursor nor residue; they are null and zero because the managers are static objects (`src/gamed/gs/global/gmatrix.cpp:106`).
- ObjectDataCodec.PlayerCodec.ParseObjectData: malformed frames, which the source reads without checking bounds, are excluded.
- RandomSelect.Normalization: the double division is an exact quotient that may come out one short where `short` says so, not IEEE arithmetic.
- RandomSelect.RandSelect: the uniform source is a draw from 1 to 10000.
- TaskMachine.StepInv: locks are atomic sections and a read without a lock is a step of its own; drawing an id and reading the tick counter are one step; an unordered tie in the task set is the position the tree gives it.
- TimedTask.TimedTaskManager.Tick: messages are a log of what was decided; sending them is not modelled.
- MapElem.OnExactlyInSlot: the calendar behind GetNextTime is its contract alone; a clock that skips more than a second per counted second is covered only right after checks.
- MapElemCtrller.Controller.CheckPass: enabling and disabling the elements of a controller is its last call; 32-bit times are bounded, not wrapped.
- Codec.RoundTripExactly: what an attribute marshals is opaque bytes; lengths beyond 2^31 do not occur within the frame limit.
- Buffer.NetBuffer.Append: reading from a descriptor, finding line ends, swapping and single-byte integers are left out.
- TimerLite.Timer.GetExpired: deadlines are 64-bit, addresses lie below the sentinel.
- GameMall.GMall.PlayerDoShopping: the discount is floating point, so the cost is a parameter; so are whether the selling time matches and the player's cash.
- GameMall.GMall.RefreshGoods: the calendar is a function from times to days.
- GameMall.GMall.UpdateSaleVolumeMap: the comparison with an erased iterator after the loop is taken to say found.
- The other queries of the mall, and the flag that it is not yet initialised: plain look-ups.
- NPC paths, directions and player moves: floating point over code not shown.
