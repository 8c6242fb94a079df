# Exchange state: a verified model

A Dafny 4.11 model of the exchange state machine in `l1/` and of the fee arithmetic in
`evm_rpc/reth_rpc_helpers_copied.rs`, with proofs about every input and every run.
`dafny verify dfyconfig.toml` checks the whole project.

| files | what they model |
|---|---|
| `BookModel`, `BookViews`, `Book` | one order book: price levels, oid map, per-user index and top cache changed in place; the pure meaning of each operation |
| `BookMatching`, `BookRuns`, `BookTotals`, `Books` | what matching means, whole runs, totals, cancelling across a domain's books |
| `WireDecimal`, `OrderWire` | the decimal printer and parser, client ids, the string form and the packed batch form of orders |
| `Nonce`, `Bridge` | replay protection, the withdrawal path and the bridge balance |
| `AgentTracker`, `AgentOwnership`, `AgentReplay` | agent ownership with a grace window, and together with the nonces agents use |
| `ActionDelayer` | the delay queue and its counters |
| `FakeExponential`, `BaseFee`, `BlockRewards` | blob base fee, base-fee update, reward percentiles |
| `MarginTable` | leverage tiers and the margin they require |
| `Common`, `OrderedSets`, `Arithmetic` | machine integers, ordered-set helpers, product and quotient facts |

Objects the source updates in place are classes whose methods are proved equal to functions on
a value (the resting orders, the tracker, the queue, the ledger); the properties are lemmas
about those functions and about runs of them. Ordered maps and sets are Dafny maps and sets
with explicit least elements. 64-bit and 128-bit limits, saturation and truncating casts are
written out wherever the code has them. Times are milliseconds; addresses are 160-bit numbers.

Several natural claims turned out not to hold of the code. Each has a failing input, or a family
of them, and an if-and-only-if that says when the claim does hold:

- a cancellation can report less than it removes (`CancelCanUndercount`, `CancelCountsRemovedIff`);
- placing an order directly or by snapshot can cross the book (`SnapshotCanCross`; `InsertUncrossedIff`, `UpsertUncrossedIff`, and `SnapshotUncrossedIff` for whole updates);
- an order can be rejected after its fills have happened (`RejectedAfterFilling`, `RejectedIff`; `RejectionKeepsFills` says what is left);
- raising the retention cap, even for one attempt, or pruning a signer readmits used nonces (`GrowingCapReplays`, `OneExpandedAttemptReplays`, `PruneReplays`; `SafeNextIff` over every run), and a removed agent that is approved again starts afresh (`ReapprovedAgentReplays`, `ActiveAgentNeverReplays`);
- promoting an extra agent to main can leave a live agent unmapped (`UndisciplinedLosesAgent`, `SaveMainSafeIff`);
- the packed decoder ignores one flag bit (`TopBitIgnored`, `ReencodeIff`), and the batch encoder drops the tag and the auxiliary fields (`BatchCanChange`, `BatchRoundTripIff`);
- an overflowing product makes the base-fee update inexact and can let the fee fall as gas use rises (`OverflowBreaksMonotonicity`; `DeltaExactIff`, `UpdateExactIff`, `MonotoneGuard`);
- a valid margin table can require less margin for more notional (`RisingLeverageCanDrop`, `MonotoneIff`);
- capping leverage at zero drops the margin to nothing (`ZeroCapDropsMargin`, `CapLowersMarginIff`);
- a withdrawal above the signed 64-bit range is debited and then reported as rejected (`DebitedButRejected`, `DebitedButRejectedIff`).

`l1/exchange/handlers/47_withdraw3.rs` and `l1/nonce.rs` differ on one input, a raw nonce of zero
as a user's first withdrawal (`PathsDifferIff`); the withdrawal theorems cover any mixture of
the two. Unchecked arithmetic wraps in the model, as in a release build: the base-fee product and
the counter of the exponential loop. That counter overflows only on numerators no caller passes
(`CounterOverflowsIff`).

## Model

| member | source | states |
|---|---|---|
| BookModel.TopOid | l1/books.rs:594-600 | the front of a side precedes every other order of the side by (level key, oid) |
| BookViews.ViewsPointwise | l1/books.rs:535-551 | each order is in exactly one level, of its own side and key, and in its owner's index entry; no level or entry is empty |
| BookViews.TopFromLevels | l1/books.rs:594-611 | the first oid of the first level and the price recovered from its key are the true top order and best price |
| BookViews.LevelsAfterInsert | l1/books.rs:678-682 | inserting into or creating one level keeps both sides' levels exact, with true first and last oid |
| BookViews.LevelsAfterRemove | l1/books.rs:700-709 | removing an oid and dropping the level when it empties keeps both sides' levels exact |
| BookState.Book.constructor | l1/books.rs:554-572 | a new book is empty with all views in agreement |
| BookState.Book.BestPrice | l1/books.rs:609-611 | the price from the first level key is the price of the true top order |
| BookState.Book.InsertOrder | l1/books.rs:673-688 | rejects exactly duplicate oids, otherwise adds the order; all four views stay in agreement |
| BookState.Book.RemoveOrder | l1/books.rs:691-721 | removes exactly an order of that user; all four views stay in agreement |
| BookState.Book.CancelUserUntil | l1/books.rs:723-740 | acts as cancelling in ascending oid order until the request is spent, with the counted total never saturating |
| BookState.Book.ApplySnapshotUpdate | l1/books.rs:742-762 | clear, upserts in order, cancels in order; views stay in agreement |
| BookState.Book.MatchTaker | l1/books.rs:764-790 | the matching loop terminates, also on zero-size makers, and equals the sweep of the other side |
| BookState.Book.ExecuteOrder | l1/books.rs:764-811 | match, then rest the remainder or reject a duplicate oid; views stay in agreement |
| BookState.Book.RemoveLiquidity | l1/books.rs:813-831 | equals an unlimited sweep; the removed total never saturates |
| BookState.Book.Apply | l1/books.rs:673-831 | any operation keeps the views in agreement and acts on the orders as one step of the state machine |
| BookState.Book.ApplyAll | l1/books.rs:673-831 | any run of operations keeps the views in agreement and acts as the run of the state machine |
| BookMatching.SweepIsGreedy | l1/books.rs:769-790 | for every price-time listing of the side: the makers taken are a prefix, each cut to what was still wanted, stopping at the limit or when spent; covered makers are gone, a maker cut in part keeps the rest, all else is untouched |
| BookMatching.QueueExists | l1/books.rs:594-611 | every side has a price-time listing |
| BookMatching.QueueUnique | l1/books.rs:594-611 | and only one |
| BookMatching.QueueOrder | l1/books.rs:594-600 | a side runs from the highest bid down or the lowest ask up, and by oid at one price |
| BookMatching.SweepConserves | l1/books.rs:769-790 | the size asked is the takes plus the remainder; the side's depth falls by exactly the takes |
| BookMatching.RemoveLiquidityExact | l1/books.rs:813-831 | removes exactly the lesser of the request and the side's depth |
| BookTotals.SideDepthIsTotal | l1/books.rs:813-831 | the depth of the listing is the sum over the side's orders, in any order |
| BookTotals.UserDepthIsTotal | l1/books.rs:723-740 | a user's depth is the sum over the user's orders |
| BookTotals.SweepOneSided | l1/books.rs:769-790 | matching changes no field of any order on the taker's own side |
| BookTotals.ExecuteBalances | l1/books.rs:764-811 | taker size equals fills plus remainder; the crossed side loses exactly the fills; the taker's side gains exactly the remainder, resting on the taker's own terms; a rejection leaves the taker's side as it was |
| BookTotals.RejectionKeepsFills | l1/books.rs:764-811 | after every rejection the makers within the limit are gone, all other orders are unchanged, and the crossed side has lost the whole accepted depth with no fill reported |
| BookTotals.RejectedAfterFilling | l1/books.rs:764-811 | a rejected order whose maker is gone |
| BookTotals.OthersUntouched | l1/books.rs:396-406 | cancelling one user leaves every other user's orders unchanged |
| BookRuns.ExecuteFills | l1/books.rs:764-790 | fills follow price-time order, each at the maker's price and within the taker's limit, all but the last whole |
| BookRuns.RejectedIff | l1/books.rs:792-808 | rejected exactly when the remainder should rest, the oid rests out of the order's own reach, and the makers within the limit do not cover the order; never with a fresh oid |
| BookRuns.RemainderIsUncovered | l1/books.rs:769-790 | what is left is what the makers within the limit cannot cover |
| BookRuns.ExecuteKeepsUncrossed | l1/books.rs:764-811 | executing never crosses an uncrossed book, whatever the taker's oid |
| BookRuns.NeverCrossed | l1/books.rs:691-831 | over every run of matching and removing operations from an empty book no bid reaches an ask, and the mid price is in [bid, ask) |
| BookRuns.MidIsFloorAverage | l1/books.rs:613-617 | the bit expression is the floor of the average of the two best prices and cannot overflow |
| BookRuns.InsertUncrossedIff | l1/books.rs:673-688 | a direct insert keeps an uncrossed book so exactly when it is refused or its price does not reach the other side's best |
| BookRuns.UpsertUncrossedIff | l1/books.rs:753-758 | so does one upsert, ignored over another user's order and judged without the order it replaces |
| BookRuns.SnapshotCanCross | l1/books.rs:742-762 | a concrete snapshot crosses a book |
| BookRuns.SnapshotOutcome | l1/books.rs:742-762 | after every update, clearing or not, with repeated oids and cancels, an oid holds its owner's last upsert, else its old order, and nothing when the owner cancels it |
| BookRuns.SnapshotUncrossedIff | l1/books.rs:742-762 | an update leaves the book uncrossed exactly when every bid it leaves is below every ask it leaves |
| BookRuns.CrossedOnTheWay | l1/books.rs:742-762 | an update whose upsert crosses but which ends uncrossed |
| BookRuns.SnapshotRebuilds | l1/books.rs:742-762 | a clearing snapshot listing a book's orders rebuilds exactly that book from any state |
| BookRuns.CancelledIff | l1/books.rs:759-761 | a snapshot's cancels remove exactly the orders named together with their own user |
| BookCancelling.CancelFromExact | l1/books.rs:727-739 | the count is the lesser of request and total; an order goes exactly when those before it do not cover the request |
| BookCancelling.CancelUserExact | l1/books.rs:723-740 | the same for a user, with all other orders untouched |
| BookCancelling.CancelCountsRemovedIff | l1/books.rs:727-739 | the count equals the size removed exactly when the request covers everything or falls on an order boundary |
| BookCancelling.CancelCanUndercount | l1/books.rs:727-739 | one order of 10 asked for 3 reports 3 and loses 10 |
| BooksState.Books.SettleUserBookEffects | l1/books.rs:396-414 | walks the collections of the domain's own field: returns the lesser of the request and the user's total over all their books, cuts each book by what the books before it left uncovered, and leaves the books of the other domains alone |
| BooksState.SettleCollections | l1/books.rs:396-406 | settling the flat list of books is settling collection by collection |
| BooksState.FlattenAt | l1/books.rs:408-414 | the flat list holds each place of the collections, in collection order then book order |
| BooksState.FlattenFrom | l1/books.rs:408-414 | and nothing else |
| BooksState.PlacesOrdered | l1/books.rs:408-414 | no place twice |
| WireDecimal.Parse | l1/order_wire.rs:166-205 | returns the value, or the error of the first fault in reading order, with the two overflow checks exact |
| WireDecimal.ParseIff | l1/order_wire.rs:166-205 | Ok(v) exactly on digits with at least one digit, at most one dot and at most 8 places whose value times 10^8 is v and fits |
| WireDecimal.PushU64 | l1/order_wire.rs:428-442 | prints the decimal digits; the 20-byte buffer always suffices |
| WireDecimal.WriteTo | l1/order_wire.rs:207-230 | appends the canonical numeral |
| WireDecimal.DecimalRoundTrip | l1/order_wire.rs:166-230 | printing then parsing returns every 64-bit value |
| WireDecimal.WriteIff | l1/order_wire.rs:204-230 | the printer gives exactly the canonical numeral of a value: no needless zero on either side and no bare point |
| WireDecimal.ParseErrorIff | l1/order_wire.rs:167-202 | each error exactly: that of the first faulty byte, else no digit at all, else a scaled value past 64 bits |
| OrderWire.CloidParse | l1/order_wire.rs:242-255 | the loop accepts exactly 0x and 32 hexadecimal digits |
| OrderWire.CloidParseIff | l1/order_wire.rs:242-265 | an id parses to c exactly when it is the printed form of c up to letter case |
| OrderWire.CloidRoundTrip | l1/order_wire.rs:242-265 | printing then parsing returns every id |
| OrderWire.StringRoundTrip | l1/order_wire.rs:110-163 | every internal order survives its string form |
| OrderWire.StringReadsIff | l1/order_wire.rs:110-163 | the string form is read exactly when its numerals and client id are well formed, each field being what they denote |
| OrderWire.FlagsUnpack | l1/order_wire.rs:336-341 | every field packed into the flag byte is read back |
| OrderWire.OrderRoundTrip | l1/order_wire.rs:330-397 | packed orders are self-delimiting: decoding an encoding followed by anything returns the order and its exact length |
| OrderWire.ReencodeIff | l1/order_wire.rs:330-397 | a decoded order uses between 21 bytes and the input length, and re-encodes to the bytes read exactly when the top flag bit was clear |
| OrderWire.TopBitIgnored | l1/order_wire.rs:336-341 | setting the top flag bit changes nothing in the decoding |
| OrderWire.PackedExample | l1/order_wire.rs:379-397 | one packed order byte by byte: big-endian fields, then buy, reduce-only and type in the flag byte |
| OrderWire.DecodesIff | l1/order_wire.rs:330-377 | decoding succeeds exactly when the bytes, top flag bit cleared, begin with some order's encoding |
| OrderWire.DecodesTo | l1/order_wire.rs:330-377 | decoding yields an order and a length exactly when the bytes begin with its encoding, the unused bit aside |
| OrderWire.OrderErrors | l1/order_wire.rs:330-377 | an order fails exactly for missing bytes or a type code outside 1 to 9, with the error of each |
| OrderWire.TypeCodes | l1/order_wire.rs:414-426 | the nine type codes |
| OrderWire.EncodeCustomSlice | l1/order_wire.rs:284-292 | appends tag, encoded word, zero byte and the orders in sequence |
| OrderWire.DecodeCompactOrders | l1/order_wire.rs:320-328 | the loop terminates on all bytes and equals decoding order by order |
| OrderWire.OrdersRoundTrip | l1/order_wire.rs:320-397 | every list of orders survives encoding |
| OrderWire.BatchRoundTripIff | l1/order_wire.rs:275-318 | a batch survives exactly when its tag is the custom-slice one and its auxiliary fields are those its encoded word stands for |
| OrderWire.OrdersDecodeIff | l1/order_wire.rs:320-328 | bytes decode to a list of orders exactly when they are their encodings one after the other, unused bits aside |
| OrderWire.BatchDecodesIff | l1/order_wire.rs:275-318 | a batch is read exactly from tag 1, a word below 100000004, a zero byte and the orders; kind and extended index follow from the word |
| OrderWire.BatchErrors | l1/order_wire.rs:275-318 | each error of a batch in the order they are looked for |
| OrderWire.BatchCanChange | l1/order_wire.rs:275-318 | a batch that comes back with another tag and another auxiliary kind |
| Nonce.NonceTracker.CheckAndRemember | l1/nonce.rs:113-127 | validates, inserts and evicts smallest nonces down to the cap; a rejection still creates the signer's entry |
| Nonce.EvictKeepsLargest | l1/nonce.rs:122-125 | eviction keeps exactly the cap largest nonces |
| Nonce.RunCovered | l1/nonce.rs:74-127 | along every protected run each accepted nonce is still retained or lies below a full set |
| Nonce.NoReplay | l1/nonce.rs:74-127 | no nonce is accepted twice for a signer in any run that never raises its cap and never prunes it |
| Nonce.TakenIff | l1/nonce.rs:74-127 | in every state a nonce in the window is accepted exactly when it is not retained and the set is below the cap in force or has a smaller member |
| Nonce.RejectionReasons | l1/nonce.rs:74-109 | each refusal and its reason, with the caps of 100 and 400 and the window of a day written out |
| Nonce.AttemptExact | l1/nonce.rs:113-127 | the signer has an entry in any case; a success adds the nonce and keeps the largest up to the cap; nobody else's entry changes |
| Nonce.SafeNextIff | l1/nonce.rs:74-127 | after every run the next attempt rejects all used nonces in the window exactly when each of them is retained or below a full set |
| Nonce.PruneReadmits | l1/nonce.rs:134-166 | after a prune of the signer every nonce in the window is accepted, used or not |
| Nonce.RaisingCapReadmits | l1/nonce.rs:74-127 | after every run at the default cap an expanded attempt accepts exactly the nonces in the window not retained |
| Nonce.GrowingCapReplays | l1/nonce.rs:74-127 | a run of 102 attempts in which raising the cap readmits a nonce |
| Nonce.OneExpandedAttemptReplays | l1/nonce.rs:74-127 | a run of 103 attempts in which one expanded attempt lets a used nonce in later at the default cap, the set being over that cap |
| Nonce.PruneReplays | l1/nonce.rs:134-166 | a run in which pruning readmits a nonce |
| Nonce.ReplaysWithinTwoDays | l1/nonce.rs:94-108 | in every run two acceptances of one nonce are at most two days apart |
| Bridge.Bridge2.InsertWithdrawalSignature | l1/bridge2.rs:157-169 | inserts exactly when the key is free |
| Bridge.Bridge2.RecordAndDebit | l1/bridge2.rs:136-150 | records then debits, with the duplicate and underflow panics as outcomes |
| Bridge.Bridge2.FinalizeWithdrawal | l1/bridge2.rs:171-174 | moves a key from pending to finished |
| Bridge.Exchange.ProcessWithdraw3 | l1/nonce.rs:228-239 | signer nonce, withdrawal nonce, record and debit, remember, in that order |
| Bridge.Exchange.Apply | l1/nonce.rs:134-239 | withdrawals, finalisations and nonce prunes on the live objects are steps of the ledger |
| Bridge.PathsDifferIff | l1/nonce.rs:203-212 | the replay state and the handler's optional nonce disagree exactly on a first raw nonce of zero |
| Bridge.WithdrawalsAreSafe | l1/exchange/handlers/47_withdraw3.rs:287-320 | over every run of both paths, finalisations and nonce prunes, no (user, nonce) is debited twice, recording never finds a duplicate, and balance plus payments is the starting balance |
| Bridge.WithdrawalOutcome | l1/nonce.rs:203-239 | after every run a withdrawal is paid exactly when its signer nonce is accepted, its scaled nonce fits and exceeds every nonce its user was paid under, and the starting balance less all payments covers it; otherwise the exact refusal, which moves nothing |
| Bridge.PaidIffCovered | l1/bridge2.rs:136-150 | a withdrawal that passes both nonce checks is paid exactly when the balance covers it; amount and destination are then recorded under an unused (user, nonce) and the nonce is remembered |
| Bridge.DebitedButRejectedIff | l1/exchange/handlers/47_withdraw3.rs:319-324 | a withdrawal that passes both nonce checks is debited yet reported rejected exactly when the balance covers it and it exceeds the signed 64-bit range |
| Bridge.DebitedButRejected | l1/exchange/handlers/47_withdraw3.rs:319-324 | one withdrawal of 2^63 that is |
| AgentState.AgentTracker.SaveMainAgent | l1/agent_tracker.rs:117-166 | first insert, clear or refresh of the main agent, with the error codes in order |
| AgentState.AgentTracker.SaveExtraAgent | l1/agent_tracker.rs:168-250 | refresh, replacement or addition of a named agent, with the error codes in order |
| AgentState.AgentTracker.RemoveExtraAgentByName | l1/agent_tracker.rs:252-282 | removes the first agent of that name and queues its removal |
| AgentState.SplitPending | l1/agent_tracker.rs:289-307 | the walk over users yields exactly the unexpired removals and the expired agents |
| AgentState.AgentTracker.PrunePendingAgentRemovals | l1/agent_tracker.rs:284-317 | drops expired removals, their mappings, and their nonce sets unless a real user |
| AgentOwnership.OwnershipBacked | l1/agent_tracker.rs:117-349 | over every run each mapped agent is its user's main agent, extra agent or pending removal |
| AgentOwnership.ErrorsChangeNothing | l1/agent_tracker.rs:117-282 | an error code leaves the tracker unchanged |
| AgentOwnership.ActiveAgentsResolve | l1/agent_tracker.rs:117-317 | in every run that keeps main and extra agents apart an active agent maps to its user, awaits no removal and belongs to nobody else |
| AgentOwnership.PromotionLosesAgent | l1/agent_tracker.rs:117-317 | from every tracker in order, promoting an extra agent, removing it by name and pruning 2000 ms later leaves a live agent without mapping |
| AgentOwnership.SaveMainSafeIff | l1/agent_tracker.rs:117-317 | a saved main agent can lose its mapping while active, by later disciplined operations, exactly when it was already one of the user's extra agents |
| AgentOwnership.NamesStayDistinct | l1/agent_tracker.rs:168-282 | over every run no user has two extra agents of one name |
| AgentOwnership.SaveMainExact | l1/agent_tracker.rs:117-166 | when a main agent can be saved and the code otherwise; a success stores this address with this expiry, maps it, clears its removals and touches nobody else |
| AgentOwnership.ClearMainExact | l1/agent_tracker.rs:127-132 | clearing empties the slot, queues the old agent for 2000 ms later and does nothing else |
| AgentOwnership.SaveExtraCode | l1/agent_tracker.rs:168-250 | when an extra agent can be saved and the code otherwise, with the limit of three plus two per tier |
| AgentOwnership.SaveExtraExact | l1/agent_tracker.rs:168-250 | a success overwrites the entry of that name or appends one, queues a replaced address and changes nothing else |
| AgentOwnership.RemoveExtraExact | l1/agent_tracker.rs:252-282 | succeeds exactly on a listed name; takes out its first entry, queues its address and keeps the mapping |
| AgentOwnership.PruneExact | l1/agent_tracker.rs:284-317 | drops exactly the due removals, the mappings of their agents and, but for real users, their nonces |
| AgentOwnership.SaveRecords | l1/agent_tracker.rs:168-250 | a successful save lists the agent, maps it, cancels its removal, keeps the differently named ones and grows the list only within the limit |
| AgentOwnership.UndisciplinedLosesAgent | l1/agent_tracker.rs:117-317 | a four-step run after which a live main agent has no mapping |
| AgentOwnership.RemovalOpensWindow | l1/agent_tracker.rs:117-282 | however an agent is dropped, its removal falls due 2000 ms later |
| AgentOwnership.ClaimRefused | l1/agent_tracker.rs:139-228 | while a removal is pending no other user can claim the agent, nor can anyone list it as an extra |
| AgentOwnership.GraceHolds | l1/agent_tracker.rs:117-317 | a removed agent not re-approved keeps resolving to its old user through every operation and every prune before the due time |
| AgentOwnership.GraceEnds | l1/agent_tracker.rs:284-317 | the first prune at or after the due time drops its mapping, its removal and, unless a real user, its nonces |
| AgentReplay.NoncesFollow | l1/agent_tracker.rs:284-317 | with agents managed and nonces attempted in any order, the nonce sets go through a run of attempts and prunes of their own |
| AgentReplay.NoReplayAmongAgents | l1/nonce.rs:74-166 | in every such history no nonce of a signer is accepted twice while no prune takes its nonces and its cap does not grow |
| AgentReplay.ActiveAgentNeverReplays | l1/nonce.rs:74-166 | in disciplined histories being an active agent or a real user at every prune is enough |
| AgentReplay.ReapprovedAgentReplays | l1/nonce.rs:134-166 | once its removal has been pruned and its user approves it again, an agent has every nonce in the window accepted, used or not |
| DelayState.ActionDelayer.constructor | l1/action_delayer.rs:95-108 | an empty, disabled queue with exact counters |
| DelayState.ActionDelayer.SetEnabled | l1/action_delayer.rs:112-119 | sets the mode and nothing else |
| DelayState.ActionDelayer.SetMaxNDelayedActions | l1/action_delayer.rs:121-124 | sets the limit and nothing else |
| DelayState.ActionDelayer.QueueDelayedAction | l1/action_delayer.rs:130-161 | the four refusals in order, else queued and stamped; counters stay exact |
| DelayState.ActionDelayer.RemoveDelayedAction | l1/action_delayer.rs:198-202 | returns and removes the action; counters stay exact |
| DelayState.ActionDelayer.ReleaseDueActions | l1/action_delayer.rs:163-178 | releases exactly the due actions in id order; counters stay exact |
| DelayState.ActionDelayer.ReleaseOldestActions | l1/action_delayer.rs:180-196 | releases the min(n, size) first actions of the release order; counters stay exact |
| DelayState.ActionDelayer.Apply | l1/action_delayer.rs:112-202 | every operation keeps the counters exact, is one step of the run model and hands out exactly the actions that leave, each once |
| DelayState.Replay | l1/action_delayer.rs:95-202 | a new queue put through any run ends in the state of the run model, having handed out at each step what the model says left |
| DelayState.CountsAfterRemove | l1/action_delayer.rs:242-250 | the saturating subtractions never clip and no zero entry is left |
| DelayModel.AgeOrderSorts | l1/action_delayer.rs:181-186 | the candidates are listed once each by (expiry, referral time, id) |
| DelayModel.AgeOrderUnique | l1/action_delayer.rs:181-186 | any such listing is the same |
| DelayLedger.OldestAreLeast | l1/action_delayer.rs:180-196 | everything released precedes everything kept, by expiry, then referral time, then id |
| DelayLedger.DueFromExpiry | l1/action_delayer.rs:144-170 | a queued action is due exactly from its expiry on and changes no other due action |
| DelayLedger.QueuedExact | l1/action_delayer.rs:151-158 | queueing stamps referral time and expiry, keeps sender, id and frontend flag, and touches no other action |
| DelayLedger.EntriesBalanceExits | l1/action_delayer.rs:130-202 | over every run each admission is matched by one exit or is still queued, so no action leaves twice |
| DelayLedger.LimitRespected | l1/action_delayer.rs:126-137 | under a fixed nonzero limit the queue never exceeds it |
| FakeExponential.FakeExponential | evm_rpc/reth_rpc_helpers_copied.rs:321-336 | the loop ends on every input, the wrapping counter included, and returns the clipped series over the denominator; a zero denominator is the one failure |
| FakeExponential.CounterOverflowsIff | evm_rpc/reth_rpc_helpers_copied.rs:324-333 | the counter overflows exactly for the two largest numerators, the second only over denominator one |
| FakeExponential.CounterFits | evm_rpc/reth_rpc_helpers_copied.rs:317-333 | for 64-bit numerators the loop takes at most 2*numerator + 128 turns |
| FakeExponential.AgreesWithStandard | evm_rpc/reth_rpc_helpers_copied.rs:321-336 | equals the unbounded definition of the Helpers section of EIP-4844 whenever neither a term's product nor the sum saturates |
| FakeExponential.BlobFeeMonotone | evm_rpc/reth_rpc_helpers_copied.rs:317-319 | the blob fee is at least one and never falls as excess blob gas grows |
| FakeExponential.BlobFeeExact | evm_rpc/reth_rpc_helpers_copied.rs:317-319 | the blob fee is the standard's exponential with factor 1 and denominator 3338477 while nothing saturates |
| FakeExponential.BlobFeeExamples | evm_rpc/reth_rpc_helpers_copied.rs:317-336 | 1 without excess and 2 at an excess of 3338477 |
| BaseFee.MonotoneInGas | evm_rpc/reth_rpc_helpers_copied.rs:284-311 | more gas used never lowers the next fee when the products fit |
| BaseFee.MonotoneGuard | evm_rpc/reth_rpc_helpers_copied.rs:284-311 | for fees below 2^127, divisors up to 2^126 and a minimum of at most half the fee, the fee never falls over all gas amounts up to a given one exactly when the product fits at both ends |
| BaseFee.MonotoneAboveIff | evm_rpc/reth_rpc_helpers_copied.rs:297-303 | from the target up, with a minimum not above the fee, it never falls exactly when the product fits at the top |
| BaseFee.PinnedBelow | evm_rpc/reth_rpc_helpers_copied.rs:304-310 | a minimum at or above the fee keeps the fee from falling below the target, overflow or not |
| BaseFee.MonotoneIff | evm_rpc/reth_rpc_helpers_copied.rs:284-311 | for the remaining inputs: only gas amounts at which the product wraps need be looked at |
| BaseFee.BoundedChange | evm_rpc/reth_rpc_helpers_copied.rs:284-311 | at or above the floor, falls by at most parent/denominator, rises by at most max(1, (elasticity-1)*parent/denominator) within elasticity targets |
| BaseFee.DeltaExact | evm_rpc/reth_rpc_helpers_copied.rs:298-310 | when the product fits, the two divisions are the single floor of fee*gas over target*denominator |
| BaseFee.UpdateExact | evm_rpc/reth_rpc_helpers_copied.rs:284-311 | the next fee is the parent plus or minus that floor, at least 1 on a rise, raised to the minimum fee |
| BaseFee.DeltaExactIff | evm_rpc/reth_rpc_helpers_copied.rs:298-310 | the two divisions give the single exact floor exactly when the product fits in 128 bits |
| BaseFee.UpdateExactIff | evm_rpc/reth_rpc_helpers_copied.rs:284-311 | the next fee is the exact one exactly when the product fits or the error is hidden by the least rise, the 128-bit limit or the minimum |
| BaseFee.OverflowBreaksMonotonicity | evm_rpc/reth_rpc_helpers_copied.rs:299-303 | concrete inputs where the wrapped product lowers the fee |
| BaseFee.TargetExact | evm_rpc/reth_rpc_helpers_copied.rs:293 | the target is the whole part of gas limit over elasticity |
| BaseFee.NoUpdate | evm_rpc/reth_rpc_helpers_copied.rs:285-296 | no parent fee gives zero; zero parameters give the parent fee; no target gives the larger of fee and minimum |
| BlockRewards.Walk | evm_rpc/reth_rpc_helpers_copied.rs:235-246 | one pass answers each target as a fresh search for the largest target so far would; the saturating sum makes no difference |
| BlockRewards.ReachIsQuantile | evm_rpc/reth_rpc_helpers_copied.rs:231-246 | the position found in any sorting carries the weighted quantile of the unsorted rewards |
| BlockRewards.QuantileUnique | evm_rpc/reth_rpc_helpers_copied.rs:231-246 | that quantile is unique, so ties in the sort cannot matter |
| BlockRewards.RewardPercentiles | evm_rpc/reth_rpc_helpers_copied.rs:213-249 | under every order-keeping rounding: error on a missing body, zeros on an empty block, else nondecreasing fees, each the quantile of the transactions' rewards at its percentile's target when percentiles do not fall |
| BlockRewards.RewardExact | evm_rpc/reth_rpc_helpers_copied.rs:269-281 | a reward is what the receipt paid above the base fee, else the most the transaction was willing to pay, old style or new |
| BlockRewards.RewardsExact | evm_rpc/reth_rpc_helpers_copied.rs:223-229 | a block has exactly one list of rewards, with the gas of the receipts |
| BlockRewards.ValidatePercentiles | evm_rpc/reth_rpc_helpers_copied.rs:185-199 | accepts every list of at most one, and otherwise exactly the lists of numbers that never fall and exceed 100 at most at their end; not-a-number is rejected |
| BlockRewards.TargetMonotone | evm_rpc/reth_rpc_helpers_copied.rs:251-260 | under every order-keeping rounding, infinities included, a larger percentile has a target at least as large |
| BlockRewards.TargetIsShare | evm_rpc/reth_rpc_helpers_copied.rs:251-260 | without rounding error, up to 100 percent the target is the whole part of that share of the block's gas, at most the gas used |
| BlockRewards.TargetSpecial | evm_rpc/reth_rpc_helpers_copied.rs:251-260 | not-a-number, minus infinity and negative percentiles stand for no gas, infinity for the 64-bit limit |
| BlockRewards.AnswerIsQuantile | evm_rpc/reth_rpc_helpers_copied.rs:231-246 | a fee that answers a target on any sorting is the weighted quantile of the unsorted rewards |
| BlockRewards.AnswersMonotone | evm_rpc/reth_rpc_helpers_copied.rs:235-246 | larger targets have answers at least as large |
| BlockRewards.RewardBranchesAgree | evm_rpc/reth_rpc_helpers_copied.rs:269-281 | for a price charged by the fee-market rule, the receipt branch and the configured-fee branch give the same reward |
| MarginTable.Validate | l1/perp_meta.rs:582-597 | accepts exactly nonempty tables with positive leverages and strictly rising bounds; reports the first fault |
| MarginTable.TierForNotional | l1/perp_meta.rs:621-630 | the scan stops at the first bound above the notional |
| MarginTable.SelectionExact | l1/perp_meta.rs:621-630 | on a valid table it selects the last tier not above the notional, else the first |
| MarginTable.MonotoneIff | l1/perp_meta.rs:427-458 | margin never falls as notional grows exactly when it does not drop at any tier boundary |
| MarginTable.FallingLeverageIsMonotone | l1/perp_meta.rs:427-458 | leverages that do not increase are enough |
| MarginTable.RisingLeverageCanDrop | l1/perp_meta.rs:427-458 | a valid table where margin falls from 9 to 2 |
| MarginTable.RequirementErrors | l1/perp_meta.rs:427-436 | each failure exactly: negative input, a notional of 2^63 or more, a table not found |
| MarginTable.RequirementExact | l1/perp_meta.rs:427-458 | in every mode the notional is price times size, the leverage is the mode's own, in the table modes that of the tier the notional selects, and the margin is their quotient rounded down |
| MarginTable.AppliesUnique | l1/perp_meta.rs:437-448 | that leverage is unique |
| MarginTable.RequirementMonotone | l1/perp_meta.rs:427-458 | in every mode, over sound tables, a larger notional never requires less margin |
| MarginTable.CapLowersMarginIff | l1/perp_meta.rs:427-458 | the capped mode requires less than the isolated one exactly when the cap is zero, a position is held and the isolated mode requires something; a positive cap requires at least the notional over the cap |
| MarginTable.ZeroCapDropsMargin | l1/perp_meta.rs:427-458 | a cap of zero that requires 0 where the isolated mode requires 10 |

## Left out

- BookState.Book.ExecuteOrder: event logs, mark and oracle prices, impact state and display strings are not part of the model; only the resting orders, their views and the results are.
- BookState.Book.ApplySnapshotUpdate: the mark and oracle prices a snapshot also carries are not modelled.
- BooksState.Books.SettleUserBookEffects: the market metadata, the packed asset lookup and the flattened book vectors of the collection object are not modelled.
- BookRuns.MidIsFloorAverage: the two bitwise operators are their bit-by-bit definitions on natural numbers, not machine words.
- OrderWire.EncodeCustomSlice: the encoder's result type has an error case that no branch produces, so the model returns the bytes.
- Nonce.NonceTracker.CheckAndRemember: the copies of the agent maps kept beside the nonce sets are modelled in the agent tracker.
- Bridge.Exchange.ProcessWithdraw3: routing by user class, parsing of the strings, the refusal of zero amounts, the bridge limit, the clearinghouse debit and the volume counter itself are not modelled; a panic is a halted state.
- AgentState.AgentTracker.PrunePendingAgentRemovals: the real-user test is a finite set given by the caller, and the tracker's own nonce recording is not modelled.
- DelayState.ActionDelayer.QueueDelayedAction: the delay in seconds is an input (the curves are floating point), and the counters are unbounded, so an overflow at 2^64 queued actions is not captured.
- FakeExponential.FakeExponential: a build that checks overflow panics on the inputs of `CounterOverflowsIff` instead of wrapping.
- BaseFee.MonotoneInGas: a build that checks overflow panics when the product overflows instead of wrapping.
- BlockRewards.RewardPercentiles: rounding to floats is any function that keeps order and zero; its exact values are not modelled.
- BlockRewards.TargetIsShare: stated without rounding error, since the rounding function is not fixed.
- MarginTable.RequirementExact: stored tables are taken to be valid, since they are validated when stored and an empty one panics.
- Fee history assembly, gas-used ratios and block fetching: request plumbing around the modelled functions.
- Deposits, validator-set votes and field-name decoding in the bridge record: they would only add easy members.
- Premiums, impact prices, open-interest caps and size increments in the perpetuals metadata: floating point or single checks.
- Everything outside these files: networking, storage, consensus, the EVM and the action handlers.
