# Verification of the matching engine

A Dafny model of the exchange's trading core and of one helper of its Bitcoin RPC client, with
proofs of what the code promises. `dafny verify dfyconfig.toml` checks the whole project.

## What is modelled

- **Order book.** Each side is a vector of price levels in ascending order of price, found by
  binary search; each level is a first-in-first-out queue with its own memo counter. An order is
  addressed by side, price and memo, and `iter_rel` lists a side best order first.
- **Plan and commit.** The planner walks that list and records maker fills; the committer finds
  each maker again by its index and removes or shrinks it.
- **Placement and cancellation** on the books of both assets, with every time in force.
- **The supervisor**: the command loop, the append-only event log, failing inserts, suspension,
  shutdown, crashes, restarts and the replay of the log.
- **`handle_defaults`**: the backward in-place pass that shortens an RPC argument list.

Two layers say this. `Orderbook.dfy` (module `BookObjects`), `Matching.dfy`, `Trading.dfy`,
`Supervisor.dfy` and `RpcDefaults.dfy` change objects in place, as the source does. Each object
has a `View`, the value it stands for, and each method is proved to do to that value what a
function of the other layer says. That layer (`BookModel.dfy`, `FillPlan.dfy`, `FillCommit.dfy`,
`Placement.dfy`, `TradingModel.dfy`, `EngineModel.dfy`) defines those functions next to simple
reference definitions, and proves the two equal: `Walk` is the flat priority list behind the
levels, `Greedy` and `Consume` take a quantity from the front of it, `Settle` trades and rests an
order in one go, `Fold` replays commands from empty books. `PlacementLaws.dfy` and
`IndexLaws.dfy` state what one placement keeps, `CommitLaws.dfy` what a commit makes of any fills,
`RunLaws.dfy` how memo counters, panics and indices develop over a run.

Panics are results, not preconditions: a failed assertion, an unsigned subtraction below zero, a
failed `expect` and an overflow of a memo counter each end in `Panicked`, `Crashed`, `Panic` or
the status `Down`. The lemmas say exactly when they happen. Quantities and prices are 32-bit
non-zero numbers; sums over orders are unbounded.

## Main results

- A plan always commits, and plan plus commit is greedy consumption of the eligible head of the
  maker's list (`FillCommit.PlanAlwaysCommits`, `FillCommit.ConsumeInWalk`).
- Greedy fills are the cheapest (for a seller, the dearest) way to trade their total quantity
  (`FillPlan.GreedyIsOptimal`).
- No run of commands crosses a book, restarts and failed inserts included
  (`TradingModel.RunsAreSafe`, `EngineModel.ServingIsSafe`).
- Quantity is conserved over whole runs (`TradingModel.RunsConserve`).
- Live books equal the replay of the log over any run (`EngineModel.ReplayEqualsLive`). This is
  not so after an insert fails: `EngineModel.FailedInsertDrifts` gives the input, and
  `EngineModel.SyncKeptIff` the exact condition under which one turn keeps books and log in step.
- No order trades beyond its limit, an order that is left with a remainder has used up all that its
  limit allows, and the answer to an order follows from what rests within its limit
  (`PlacementLaws.PlaceTradesWithinLimit`, `PlaceExhaustsLimit`, `TradingModel.RejectionTold`,
  `PlacementTold`).
- On any fills, planned or not, a commit succeeds, reports an invalid index or fails an assertion
  exactly under a stated condition (`CommitLaws.CommitMissing`, `CommitLaws.CommitIff`).
- Splitting an immediate-or-cancel order leaves exactly the same book
  (`PlacementLaws.IocSplits`).
- No run of fewer than 2^32 commands panics (`RunLaws.ShortRunsLive`), and that bound is the best
  there is (`RunLaws.EqualOrdersDie`). So a log of fewer than 2^32 rows always brings a restarted
  supervisor back, whatever inserts have failed (`EngineModel.ShortLogRecovers`), while one of
  2^32 rows may not, although the supervisor that wrote it still serves
  (`EngineModel.LongLogIsLost`).
- An index is not unique over time: `RunLaws.IndexIsReissued` gives the input. Two commands hand
  out the same index exactly when as many had been handed out at its price since the level was last
  absent (`RunLaws.IndexReissuedIff`), which takes the level's having been dropped in between
  (`RunLaws.ReissueTakesDrop`).

## Reading the code where comments say otherwise

- `exchange/src/trading/timeinforce.rs:11` says a good-til-date order is cancelled at its
  timestamp. Nothing does that; it behaves as good-til-cancelled.
- A market order's remainder rests at the order's own price
  (`exchange/src/trading/mod.rs:216-226`). This does not cross the book, because the other side
  is then empty (`PlacementLaws.PlaceExhaustsLimit`).
- `do_cancel_order` looks uuids up in a map that nothing writes. The model keeps the map, proves
  what a cancellation does to a registered order (`TradingModel.CancelTakesOne`), and proves that
  in every reachable state it finds none (`TradingModel.CancelNeverFinds`).
- A suspended supervisor drops `Resume` too (`exchange/src/spawn_trading_engine.rs:67-69`), so only
  a restart ends a suspension (`EngineModel.SuspendedDropsAll`).
- The comment on `handle_defaults` (`exchange/src/bitcoin/rpc.rs:198-212`) does not mention that it
  panics on a null default that is needed.

## Model

| member | source | states |
|---|---|---|
| BookModel.Rank | exchange/src/trading/orderbook.rs:147-149 | where a search by price ends: every level before it is cheaper, the level there is not |
| BookModel.Position | exchange/src/trading/orderbook.rs:93 | a scan by memo gives the first order with that memo, and nothing only if no order has it |
| BookModel.RangeMember | exchange/src/trading/orderbook.rs:293-307 | the flat listing of a run of levels holds exactly the orders of those levels |
| BookModel.WalkInPriorityOrder | exchange/src/trading/orderbook.rs:267-312 | the listing of a well-formed side is in strict price-time priority: best price first, at one price earlier memo first, for bids and for asks |
| BookModel.LookupAgreesWithWalk | exchange/src/trading/orderbook.rs:189-202 | the two-stage lookup finds an order if and only if that very order is in the listing under that price and memo |
| BookModel.IndexUnique | exchange/src/trading/orderbook.rs:205-211 | no two live orders of a side share an index |
| BookModel.RemoveAgreesWithWalk | exchange/src/trading/orderbook.rs:169-187 | removal returns what lookup finds, deletes that one entry of the listing keeping the order of the rest, changes nothing when nothing is found, and keeps the representation invariant |
| BookModel.PushKeepsLevelsOk | exchange/src/trading/orderbook.rs:145-167 | a push keeps levels ascending, none empty, prices equal to the level's, memos increasing and below the counter |
| BookModel.PushAgreesWithWalk | exchange/src/trading/orderbook.rs:145-167 | a push inserts one entry into the listing, behind everything at its price or better and ahead of everything worse, under an index that nobody had |
| BookModel.RemoveUndoesPush | exchange/src/trading/orderbook.rs:145-187 | removing the index just handed out returns the pushed order with its memo and restores the listing |
| BookModel.RemoveUndoesEnqueue | exchange/src/trading/orderbook.rs:152-155 | undoing a push to an existing level restores the side but for the advanced memo counter |
| BookModel.RemoveUndoesNewLevel | exchange/src/trading/orderbook.rs:156-165 | undoing a push that made a level restores the side exactly, counter included |
| BookModel.WrappingKeepsLevelIff | exchange/src/trading/orderbook.rs:82-90 | in a build without overflow checks a push wraps the counter, and keeps the level well-formed exactly when the counter had room |
| FillPlan.PlanFillsWhatItCan | exchange/src/trading/try_fill_order.rs:34-64 | the planned amounts add up to the smaller of the taker's quantity and the eligible liquidity, for any list |
| FillPlan.OutcomeMeaning | exchange/src/trading/try_fill_order.rs:56-68 | the outcome is complete iff the eligible liquidity reaches the quantity, and none iff no maker is eligible |
| FillPlan.EligibleMeaning | exchange/src/trading/try_fill_order.rs:35-40 | a market order may trade with every order, a limit buy with those priced at most its limit, a limit sell with those priced at least its limit |
| FillPlan.FillsWithinLimit | exchange/src/trading/try_fill_order.rs:35-54 | no fill of a limit buy is above its limit, none of a limit sell below it |
| FillPlan.PlanFillsWithinLimit | exchange/src/trading/try_fill_order.rs:34-64 | the plan fills the lesser of the quantity and what is listed within the limit; for a market order, of all that is listed |
| FillPlan.AcceptedIsPrefix | exchange/src/trading/try_fill_order.rs:35-40 | once a limit order refuses a price it refuses every later one, so skipping with `continue` loses nothing |
| FillPlan.PlanIsPrefix | exchange/src/trading/try_fill_order.rs:34-64 | fill i is of order i of the listing, within the accepted prices, and takes exactly what the orders before it left to fill |
| FillPlan.OnlyLastIsPartial | exchange/src/trading/try_fill_order.rs:42-64 | every fill but the last takes its maker whole |
| FillPlan.NobodyPassedOver | exchange/src/trading/try_fill_order.rs:34-64 | an eligible maker without a fill comes strictly after every filled maker in price-time priority |
| FillPlan.PlanIsAllocation | exchange/src/trading/try_fill_order.rs:42-54 | the plan is itself an allocation over eligible makers within their quantities, with the plan's total and value |
| FillPlan.PlanCostsLeast | exchange/src/trading/try_fill_order.rs:34-64 | any allocation of at least the planned quantity costs at least the planned cost, and at least the floor price more for every unit above it |
| FillPlan.GreedyIsOptimal | exchange/src/trading/try_fill_order.rs:34-64 | among all allocations of the planned total, a buyer pays least and a seller receives most under the plan |
| FillCommit.ConsumeInWalk | exchange/src/trading/pending_fill.rs:104-136 | after consuming a side its listing is the greedy taking from the accepted head of the listing before, followed by the untouched rest |
| FillCommit.ConsumeKeepsCounters | exchange/src/trading/pending_fill.rs:104-136 | consuming makes no level and changes no memo counter of a surviving level |
| FillCommit.ConsumeTwice | exchange/src/trading/pending_fill.rs:104-136 | consuming q1 and then q2 is consuming q1 + q2, levels and counters included |
| FillCommit.PlannedMakersFound | exchange/src/trading/pending_fill.rs:98-102 | the check loop finds every maker of a plan made from the book |
| FillCommit.ExecutePlan | exchange/src/trading/pending_fill.rs:104-136 | executing the plan of a valid book fill by fill, each found by index in a book the earlier fills changed, consumes the maker side and leaves the taker exactly what was not filled |
| FillCommit.PlanAlwaysCommits | exchange/src/trading/pending_fill.rs:95-156 | on the valid book it was made from a plan commits: no invalid index, no failed assertion, no underflow, the planned outcome and the right remainder |
| Placement.PlaceRejects | exchange/src/trading/mod.rs:193-211 | an order is rejected, with the error of its time in force and an unchanged book, when fill-or-kill meets too little liquidity or immediate-or-cancel meets none |
| Placement.PlaceSettles | exchange/src/trading/mod.rs:162-271 | every other order is settled: plan, commit and rest come to the same book and result as trading with the liquidity there is and resting the remainder |
| PlacementLaws.PlaceOutcome | exchange/src/trading/mod.rs:193-262 | rejection, panic and acceptance each hold exactly under a condition on the book before; an accepted order's filled, remaining, fill type and index presence follow from the liquidity |
| PlacementLaws.PlaceFillsReachable | exchange/src/trading/mod.rs:187-262 | with what rests within the limit counted price by price: which orders are rejected with which error, and how much of any other trades and is left |
| PlacementLaws.PlaceTradesWithinLimit | exchange/src/trading/try_fill_order.rs:29-54 | each fill is of a resting order of the other side, at the order's limit or better |
| PlacementLaws.PlaceExhaustsLimit | exchange/src/trading/mod.rs:214-226 | behind an order that is not filled there is no level at its limit or better, and behind a market order no level at all |
| PlacementLaws.PlaceBySide | exchange/src/trading/mod.rs:214-226 | an accepted order consumes the other side and pushes its remainder, and nothing else, on its own side, returning that push's index |
| PlacementLaws.PlaceKeepsBookOk | exchange/src/trading/mod.rs:162-271 | every placement keeps the representation invariant of both sides |
| PlacementLaws.ExhaustedRefuses | exchange/src/trading/try_fill_order.rs:35-40 | when the liquidity is used up, every level left on the other side is at a price the taker refuses |
| PlacementLaws.PlaceKeepsUncrossed | exchange/src/trading/mod.rs:162-271 | placing any order, limit or market, any time in force, keeps every bid strictly below every ask |
| PlacementLaws.PlaceConserves | exchange/src/trading/mod.rs:228-261 | filled plus remaining is the quantity; the other side loses exactly the filled quantity and the own side gains exactly what rests |
| PlacementLaws.UnchangedIffRejected | exchange/src/trading/mod.rs:193-211 | short of a panic the book is unchanged if and only if the order is rejected |
| PlacementLaws.RemainderIsLast | exchange/src/trading/mod.rs:216-243 | a returned index was free, and locates an order of exactly the remaining quantity, last in the queue at its price |
| PlacementLaws.IocConsumes | exchange/src/trading/mod.rs:197-219 | an immediate-or-cancel order leaves the book consumed and nothing resting, rejected or not |
| PlacementLaws.IocSplits | exchange/src/trading/mod.rs:193-226 | immediate-or-cancel orders of q1 and then q2 leave exactly the book that one of q1 + q2 leaves, whether or not a part is rejected |
| PlacementLaws.IocSplitFills | exchange/src/trading/mod.rs:193-261 | the two parts together fill exactly what the whole order fills |
| IndexLaws.TakenByPlan | exchange/src/trading/pending_fill.rs:104-136 | the fills describe the change of the listing exactly: the filled makers leave its head, except for what is left of the last |
| IndexLaws.FilledIndex | exchange/src/trading/pending_fill.rs:112-133 | an index with a fill denotes the recorded maker before; after, nothing if it is taken whole, and otherwise the same order less the filled amount |
| IndexLaws.UnfilledIndex | exchange/src/trading/pending_fill.rs:104-136 | an index without a fill denotes after a fill what it denoted before |
| IndexLaws.PushLeavesOthers | exchange/src/trading/orderbook.rs:145-167 | a push leaves every index but the one it hands out as it was |
| IndexLaws.RemoveLeavesOthers | exchange/src/trading/orderbook.rs:169-187 | a removal leaves every other index as it was |
| IndexLaws.RemoveForgets | exchange/src/trading/orderbook.rs:169-187 | a removed index denotes nothing |
| IndexLaws.IndexAcrossPlace | exchange/src/trading/mod.rs:186-214 | on the side traded with, every index denotes after a placement the same order less exactly what the plan took from it |
| IndexLaws.IndexBesidePlace | exchange/src/trading/mod.rs:216-226 | on the order's own side every index is unaffected, save the one handed out, which was free and now denotes the remainder |
| IndexLaws.LiveIndexOnlyShrinks | exchange/src/trading/mod.rs:162-271 | an index live before and after a placement denotes the same order with no greater quantity and is not handed out anew |
| CommitLaws.CommitMissing | exchange/src/trading/pending_fill.rs:98-102 | a commit with a maker that is not in the book names the first such maker and leaves the book alone |
| CommitLaws.CommitIff | exchange/src/trading/pending_fill.rs:94-156 | a commit of fills of different makers, all in the book, succeeds exactly when each maker is as recorded, the quantities fit, and the outcome is what they leave of the taker; otherwise it panics |
| CommitLaws.RoundLeavesOthers | exchange/src/trading/pending_fill.rs:104-136 | one round of the execution loop leaves every other index as it was, on any fill |
| TradingModel.PlaceKeepsOtherAsset | exchange/src/trading/mod.rs:178 | an order changes the book of its own asset and no other |
| TradingModel.RejectionTold | exchange/src/trading/mod.rs:193-211 | which orders are answered with which error of the time in force, and that there is no other error |
| TradingModel.PlacementTold | exchange/src/trading/mod.rs:215-262 | the fill type, the filled and remaining quantities and the index that any other order is answered with |
| TradingModel.CancellationTold | exchange/src/trading/mod.rs:273-296 | an unknown uuid is answered with an error that names it, a known one with success, or a panic if its order is gone |
| TradingModel.ApplyKeepsSafe | exchange/src/trading/mod.rs:162-296 | every command, cancellation of a registered order included, keeps both books well-formed and uncrossed |
| TradingModel.UnchangedIffIneffective | exchange/src/trading/mod.rs:162-296 | short of a panic a command changes no book, and answers with an error, exactly when its time in force rejects it or its uuid is unknown |
| TradingModel.PanicCondition | exchange/src/trading/mod.rs:213-296 | a command panics exactly when a remainder would rest at a level out of memos, or a registered uuid stands for an order that is gone |
| TradingModel.CancelTakesOne | exchange/src/trading/mod.rs:273-296 | cancelling a registered live order frees its index and leaves every other index of both assets as it was |
| TradingModel.RunsAreSafe | exchange/src/trading/mod.rs:162-296 | in every state reached from empty books by any sequence of commands, both books are well-formed and uncrossed and no uuid is registered |
| TradingModel.CancelNeverFinds | exchange/src/trading/mod.rs:280-286 | in every such state a cancellation answers that the order was not found and changes nothing |
| TradingModel.FailedReplayAsNoOps | exchange/src/spawn_trading_engine.rs:79-100 | leaving the failed commands out of a log does not change what it replays to |
| TradingModel.RunsConserve | exchange/src/trading/mod.rs:213-262 | over any run and per asset, accepted quantity is resting quantity on both sides plus twice the filled quantity plus discarded remainders |
| TradingModel.LiveIndexIsStable | exchange/src/trading/orderbook.rs:205-211 | over any run, an index that stays live keeps denoting the same order, whose quantity only shrinks |
| RunLaws.ApplyCounter | exchange/src/trading/orderbook.rs:82-90 | a command advances the memo counter where it hands out an index, which carries the memo counted so far, and leaves the counter of every other level that is there afterwards alone |
| RunLaws.ShortRunsLive | exchange/src/trading/orderbook.rs:85 | no run of fewer than 2^32 commands panics |
| RunLaws.DiesIff | exchange/src/trading/mod.rs:213-226 | a live run dies of its next command exactly when that is an order whose remainder meets a level out of memos |
| RunLaws.EqualOrdersDie | exchange/src/trading/orderbook.rs:85 | 2^32 equal good-til-cancelled orders panic, and with the last of them only |
| RunLaws.MemoIsSinceDrop | exchange/src/trading/orderbook.rs:145-187 | over any run a memo counter is the number of indices handed out at its price since there was last no level |
| RunLaws.IndexReissuedIff | exchange/src/trading/orderbook.rs:157-180 | two commands of a run hand out the same index at a price exactly when as many had been handed out there since its level was last absent |
| RunLaws.ReissueTakesDrop | exchange/src/trading/orderbook.rs:157-180 | an index is handed out again only if the level at its price was dropped in between |
| RunLaws.IndexIsReissued | exchange/src/trading/orderbook.rs:157-180 | a concrete run in which two different orders are given the same index |
| EngineModel.FeedIsFold | exchange/src/spawn_trading_engine.rs:19-32 | feeding a log to a fresh supervisor leads to the fold of the log over empty books, logs nothing, and crashes exactly when the fold does |
| EngineModel.ServingIsSafe | exchange/src/spawn_trading_engine.rs:39-105 | over any run of commands, failing inserts, kills and restarts, the books of a serving supervisor are well-formed and uncrossed |
| EngineModel.SyncKeptIff | exchange/src/spawn_trading_engine.rs:48-102 | from a state in step with its log, a turn that does not crash stays in step exactly when it is not an effective command whose insert fails or that is fed as bootstrap |
| EngineModel.ReplayEqualsLive | exchange/src/spawn_trading_engine.rs:13-102 | over any run with any number of restarts, while no change since the last restart went unlogged, the live books equal the replay of the log, memos and counters included |
| EngineModel.ServingConserves | exchange/src/spawn_trading_engine.rs:48-102 | conservation of quantity holds between such a supervisor's live books and its log, across restarts |
| EngineModel.RestartRecovers | exchange/src/spawn_trading_engine.rs:13-33 | if no row was logged over books that had drifted, the log replays without a panic and a restart serves in step with it |
| EngineModel.RestartServesIff | exchange/src/spawn_trading_engine.rs:13-33 | a restart serves exactly when the log folds without a panic, is then in step with the log, and leaves the log alone |
| EngineModel.ShortLogRecovers | exchange/src/spawn_trading_engine.rs:13-33 | whatever inserts have failed, a restart over a log of fewer than 2^32 rows serves in step with it |
| EngineModel.LongLogIsLost | exchange/src/spawn_trading_engine.rs:48-64 | a concrete run that leaves a supervisor serving empty books over a log of 2^32 rows that panics on replay |
| EngineModel.AnswerMeaning | exchange/src/spawn_trading_engine.rs:48-94 | no answer means a panic; otherwise a row was logged exactly when the answer is no error of the log, and the assets changed exactly when it is no error or a database error that hides an effective command |
| EngineModel.AnswerOfCommand | exchange/src/spawn_trading_engine.rs:48-64 | a logged command is answered with its own result, a failed insert with a database error, an entry that cannot be written with an error of its own, a panic not at all |
| EngineModel.OrderAnswer | exchange/src/spawn_trading_engine.rs:79-86 | the errors and quantities that a logged order is answered with, from the book alone |
| EngineModel.FailedInsertDrifts | exchange/src/spawn_trading_engine.rs:53-59 | a concrete run in which an insert fails and the live books differ from the replay of the log |
| EngineModel.SuspendedDropsAll | exchange/src/spawn_trading_engine.rs:67-69 | a suspended supervisor ignores every later command, resume and shutdown included |
| EngineModel.SuspendIsFinal | exchange/src/spawn_trading_engine.rs:67-74 | over any run received after a suspend, no command is applied or logged, resume and shutdown included |
| EngineModel.ShutdownIsFinal | exchange/src/spawn_trading_engine.rs:78 | over any run received after a shutdown, no command is applied or logged |
| EngineModel.IdleIsSilent | exchange/src/spawn_trading_engine.rs:66-69 | a supervisor that is suspended or does not serve answers nothing |
| EngineModel.ResumeIsIdle | exchange/src/spawn_trading_engine.rs:75-77 | to a supervisor that runs, resume is nothing |
| Supervisor.NothingAfter | exchange/src/spawn_trading_engine.rs:66-78 | in the command loop, what is received after a suspend or a shutdown changes nothing and is not answered |
| BookObjects.PriceLevel.PushOrder | exchange/src/trading/orderbook.rs:80-90 | queues the order under the next memo and advances the counter, or panics and queues nothing exactly when the level has no price or the counter is at its maximum |
| BookObjects.PriceLevel.FindMemo | exchange/src/trading/orderbook.rs:93 | the scan finds the first order with the memo |
| BookObjects.PriceLevel.RemoveOrder | exchange/src/trading/orderbook.rs:92-101 | returns and deletes the order with the memo, keeping the rest in order, or changes nothing |
| BookObjects.MultiplePriceLevels.Search | exchange/src/trading/orderbook.rs:147-149 | the binary search ends at the level with the price, or where it belongs |
| BookObjects.MultiplePriceLevels.PushOrderToLevel | exchange/src/trading/orderbook.rs:145-167 | in place, the push of the value model, with its index; the invariant is kept |
| BookObjects.MultiplePriceLevels.RemoveOrderFromLevel | exchange/src/trading/orderbook.rs:169-187 | in place, the removal of the value model, dropping an emptied level; the invariant is kept |
| BookObjects.MultiplePriceLevels.GetMut | exchange/src/trading/orderbook.rs:189-202 | gives a reference to the order that the lookup finds, and none iff it finds none |
| BookObjects.MultiplePriceLevels.Assign | exchange/src/trading/pending_fill.rs:130-131 | writing a quantity through the reference changes that order's quantity and nothing else of the side |
| BookObjects.Orderbook.constructor | exchange/src/trading/orderbook.rs:222-233 | a new book is valid and empty |
| BookObjects.Orderbook.PushBid | exchange/src/trading/orderbook.rs:235-242 | pushes on the bid side only, and returns the index of the push |
| BookObjects.Orderbook.PushAsk | exchange/src/trading/orderbook.rs:244-251 | pushes on the ask side only, and returns the index of the push |
| BookObjects.Orderbook.Remove | exchange/src/trading/orderbook.rs:253-265 | removes the indexed order from its side only, and returns it |
| BookObjects.Orderbook.IterRel | exchange/src/trading/orderbook.rs:267-313 | flattening the level objects, asks upwards and bids downwards, each with the index of its orders, gives the flat priority list of the value model |
| BookObjects.Orderbook.GetMut | exchange/src/trading/orderbook.rs:315-327 | gives a reference to the indexed order of the right side, and none iff there is none |
| Matching.PlanFills | exchange/src/trading/try_fill_order.rs:25-68 | the planning loop, with `continue` and `break`, computes the plan and its outcome |
| Matching.TryFillOrders | exchange/src/trading/try_fill_order.rs:19-80 | plans against the opposite side of the book, fills only within the limit and as far as what rests there goes, and leaves the book alone |
| Matching.CheckMakers | exchange/src/trading/pending_fill.rs:98-102 | the check loop reports the first maker that is not in the book |
| Matching.ExecuteFills | exchange/src/trading/pending_fill.rs:104-136 | the execution loop, on any fills, changes the book as the value model says and stops at the same place |
| Matching.CommitFill | exchange/src/trading/pending_fill.rs:94-156 | commits any fills in place, with errors and panics, as the value model of the commit says |
| Trading.Assets.DoPlaceOrder | exchange/src/trading/mod.rs:162-271 | places an order on its asset's book in place, with the value model's result, and leaves the other asset's book alone |
| Trading.Assets.DoCancelOrder | exchange/src/trading/mod.rs:273-296 | cancels in place as the value model says, and leaves the other asset's book alone |
| Supervisor.EventLog.Insert | exchange/src/spawn_trading_engine.rs:53-59 | appends one row, or fails and appends none |
| Supervisor.TradingEngine.TryEventLog | exchange/src/spawn_trading_engine.rs:48-64 | applies first and logs afterwards whatever the result; a failed insert answers with a database error although the books changed, and a panic comes before the insert |
| Supervisor.TradingEngine.Handle | exchange/src/spawn_trading_engine.rs:66-102 | one turn of the command loop is one turn of the state machine; a trade command gets the answer of the log, every other or dropped command none |
| Supervisor.TradingEngine.Supervise | exchange/src/spawn_trading_engine.rs:66-102 | the loop over an inbox is turn after turn and answers command by command; what arrives after a shutdown or panic has no effect and gets no answer |
| Supervisor.TradingEngine.InitFromDb | exchange/src/spawn_trading_engine.rs:13-33 | streaming the rows to a fresh supervisor is the restart step of the state machine; a row that cannot be read or parsed ends it with that error after exactly the rows before it |
| RpcDefaults.GivenUpTo | exchange/src/bitcoin/rpc.rs:221-243 | the length up to the last optional argument that is given; everything after it is null |
| RpcDefaults.HandleDefaults | exchange/src/bitcoin/rpc.rs:213-244 | panics exactly on too many defaults or on a missing one, and then on the last missing one; otherwise argument `i` is filled with default `i - required` if it is null and before the last given one, nothing else is touched, and the length up to the last given argument is returned |
| RpcDefaults.MissingMeaning | exchange/src/bitcoin/rpc.rs:225-229 | a default is missing at `k` exactly when argument `k` is null, default `k - required` is null, and an argument after it is given |
| RpcDefaults.SliceKeepsMeaning | exchange/src/bitcoin/rpc.rs:198-212 | the returned slice padded with the remaining defaults equals the original list with defaults overlaid on null optional arguments |
| RpcDefaults.SliceHasNoNull | exchange/src/bitcoin/rpc.rs:198-212 | the required arguments are untouched, and the optional part of the slice has no null |
| RpcDefaults.SliceIsShortest | exchange/src/bitcoin/rpc.rs:200-202 | a shorter slice keeps the meaning only if the last given argument equals its own default |

## Left out

- Overflow of a memo counter is a panic, as in a checked build. A release build wraps the counter
  instead and goes on; the results then hold up to the first such push, and
  `BookModel.WrappingKeepsLevelIff` says what that push breaks.
- `CommitLaws.CommitIff`: says nothing of two fills of one maker, which no plan has; what the loop
  then does is in `Matching.ExecuteFills`.
- `TinyVec` storage, its switch from inline to heap, and `shrink_to_fit`: levels and queues are
  sequences. The `Option` around each stored order is always `Some` and is dropped.
- The binary search of the standard library is written out as a loop; only its result matters.
- `get_or_insert_price_level` (`exchange/src/trading/orderbook.rs:123-143`): unused.
- The self-trade-protection setting, which the code reads but never acts on; the echo of the
  request and the random order uuid in `PlaceOrderResult`; `AssetBook`, which only wraps a book.
- Good-til-date expiry: not implemented by the code.
- Channels, tasks and serde: the supervisor is one sequential loop, log rows are commands, and
  whether an entry can be serialised and whether its insert succeeds are inputs.
- `init_from_db` has no `ORDER BY`; rows are taken to come back in the order of their ids. Its
  sends to a supervisor that has panicked meanwhile, which panic sooner or later, are no-ops.
- Bootstrap is finished before other commands arrive.
- A panic in the supervisor or a killed process is the status `Down`, and the next restart begins
  from the log.
- Web handlers, sessions, configuration, funds reservation and the SQL journal, and the rest of
  the RPC client: plumbing over libraries and a database that are not part of this model.
