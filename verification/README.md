# Bookkeeping engines of the RDMA framework, in Dafny

This project models the in-memory state machines behind the framework's RPC path and proves what they keep
over whole runs. `dafny verify dfyconfig.toml` checks it.

Each engine comes in two forms. A value-level specification carries the properties: invariants over runs,
refinement of a simpler thing, exact conditions. Where the source updates objects in place, a class with the
same fields and loops is proved, method by method, to take exactly the specification's steps.

- **RPC slots** (`RpcSlotPool`, `RpcProtocol`, `RpcRuns`, `RpcDeadlines`, `RpcSuccess`, `RpcStale`, `RpcTiming`,
  `RpcRefusals`, `RpcDoubleFree`, `RpcEndpoint`, `WrId`).
  A request takes a slot and an 8-bit token and schedules a timeout; completions, responses and timeouts come
  back with the token alone. The state carries its own history: frees of each slot, the request of each
  incarnation, every callback made. `RpcProtocol.Inv` says what is promised.
- **Timing wheels** (`Timer`, `EntryLists`, `TimingWheel`, `HierarchicalWheel`). Both refine one abstract timer:
  a clock and, for each pool entry in use, the tick it is due.
- **Completion dispatcher** (`Dispatcher`, `DispatcherInvariant`, `DispatcherRuns`, `DispatcherStale`,
  `DispatcherCaching`, `CompletionDispatcher`). Two caches over a complete index, against a plain map.
- **Queues** (`MpscQueue`, `MpscProgress`, `TaskQueue`, `SpscRing`). Interleaved atomic steps, each atomic operation one step.
- **Key-value store** (`KvTable`, `KvRefinement`, `KvScatter`, `KvRuns`, `KvStore`, `PowerOfTwo`). A
  linear-probing table over a byte pool, against a bounded map from key to bytes.
- **Flow control** (`CreditProtocol`, `AdaptiveThreshold`, `CreditLiveness`, `FlowControl`). Two peers that exchange
  data and credits.
- **Buffers and sends** (`BufferRing`, `LocalBufferPool`, `SendQueue`, `SendPaths`, `QueuePair`).

`Base` holds the fixed-width integers, `Option` and a few lemmas about quotients and rings.

## Where the code departs from what it promises

The model follows the code. Each departure has a lemma with the input or the run that shows it, and the
condition under which the promise holds.

- A slot's generation has 12 bits, its token 8, and the check compares all 12. From the 257th use of a slot
  on, its own token is refused until the generation wraps: the slot and its request are lost for good
  (`RpcDeadlines.SendLosesSlotIff`, `RpcDeadlines.LostForever`).
- A refused send frees its slot but leaves its timeout on the wheel. After 4096 of them the first timeout is
  accepted by a free slot: a callback for a request that was refused, and a slot freed twice
  (`RpcDoubleFree.StaleTimeoutFreesTwice`). Tokens that see at most 255 further frees are safe
  (`RpcRuns.RecentRunsAreSafe`), and 256 are not (`RpcDoubleFree.TwoHundredFiftySixFreesAreEnough`).
- Timeouts are cut to their remainder modulo 1024, and modulo 65536 on the two-level wheel, whose second
  level spreads demoted entries by address: up to 254 ticks early and 511 late
  (`HierarchicalWheel.FiresInWindow`, `HierarchicalWheel.FiringBoundIsTight`).
- Unregistering a connection empties one copy per cache, and insertion past a hole can make two
  (`DispatcherStale.StaleHandlerIsInvoked`, `DispatcherInvariant.NextDispatchIsStaleIff`).
- Registering a live id again overwrites one copy per cache, and past a hole that need not be the only one
  (`DispatcherStale.ReplacedHandlerIsInvoked`, `DispatcherInvariant.RegisterKeepsCoherentIff`).
- A key-value put is refused when no slot is free even if it would only replace a value
  (`KvRefinement.PutIsRefusedIff`), slots smaller than a value are not refused (`KvRuns.NextSlotIsSafeIff`,
  `KvRuns.SmallSlotsOverlap`), and a scatter request can be 2^32 bytes longer than it says
  (`KvScatter.PutSglIsPutIff`, `KvScatter.WrappedSumIsAccepted`).
- A new first-in buffer pool has its tail one past the ring (`BufferRing.FirstFreeInBoundsIff`).
- A signalled send that the hardware refuses stays counted (`SendQueue.RefusalsCanStopSignaling`).
- Lazy credit return alone deadlocks when the receiver's threshold exceeds the sender's depth; only a
  piggybacking message or a lower threshold helps (`CreditProtocol.DifferentDepthsCanStarve`,
  `CreditProtocol.PiggybackServes`).

## Model

| member | source | states |
|---|---|---|
| `RpcRuns.RecentRunsAreSafe` | src/rpc/rpc_endpoint.cpp:34-81 | Safety over whole runs: from a new endpoint, in every run in which each token is looked at before its slot has been freed 256 more times, the protocol invariant holds at the end: the free stack has no duplicates, a slot is on it exactly when it is not in use (no double free), each request is called back at most once, while its slot was in use and with its own callback, and a sent request that is over has been called back; and no token was accepted by an incarnation other than its own. |
| `RpcRuns.SlotsAreConserved` | include/rdma/rpc/rpc_slot.h:162-182 | In every such state the free stack and the slots in use add up to 65536. |
| `RpcRuns.StepKeepsInv` | include/rdma/rpc/rpc_endpoint.h:58-89 | Every send, completion, response and tick keeps the protocol invariant as long as a token is accepted only by the incarnation it was issued for. |
| `RpcRuns.RecentIsOwnOnly` | include/rdma/rpc/rpc_slot.h:188-194 | A token that has lived through at most 255 frees of its slot is accepted only by the incarnation it was issued for. |
| `RpcRuns.RecentTokensAreOwnOnly` | src/rpc/rpc_endpoint.cpp:140-142 | The same for every token of an expired list at the moment the handler comes to it, although handling the earlier ones frees slots. |
| `RpcRuns.CheckTimeoutsKeepsInv` | src/rpc/rpc_endpoint.cpp:137-159 | Handling a whole expired list keeps the invariant and never lowers a slot's incarnation. |
| `RpcRuns.CheckTimeoutsEndsCurrent` | src/rpc/rpc_endpoint.cpp:137-159 | And it leaves no request of the list alive whose slot generation is below 256. |
| `RpcRuns.AfterTickKeepsInv` | include/rdma/common/timing_wheel.h:201-213 | Taking the due entries off the wheel keeps the invariant. |
| `RpcRuns.ExpiredAreIssued` | include/rdma/common/timing_wheel.h:204-210 | Every token a tick reports was issued for a request that was made. |
| `RpcProtocol.DeliverKeepsInvIff` | include/rdma/rpc/rpc_endpoint.h:58-70 | A completion keeps the invariant if and only if its token is not accepted by a slot that is free; in that one case the slot is freed twice. |
| `RpcProtocol.ExpireKeepsInvIff` | src/rpc/rpc_endpoint.cpp:140-154 | A timeout keeps the invariant if and only if its token is not accepted by a free slot whose counters are incomplete. |
| `RpcProtocol.RetireKeepsInv` | src/rpc/rpc_endpoint.cpp:161-170 | Calling back and freeing a slot in use keeps the invariant: its request now counts as called back, once. |
| `RpcProtocol.CountKeepsInv` | include/rdma/rpc/rpc_endpoint.h:65-67 | Counting a completion without reaching the total keeps the invariant, in which a slot in use has fewer completions than work requests. |
| `RpcProtocol.CarryOver` | include/rdma/rpc/rpc_endpoint.h:65-67 | What the invariant says of requests, callbacks and wheel entries does not depend on the slot counters. |
| `RpcProtocol.InitialInv` | src/rpc/rpc_slot.cpp:27-35 | The pool as constructed, with an empty wheel, satisfies the protocol invariant. |
| `RpcProtocol.SendKeepsInv` | src/rpc/rpc_endpoint.cpp:34-81 | SendRequest keeps the invariant, whether it finds no slot, is refused by the connection, or sends with or without data, and whether or not the wheel had an entry. |
| `RpcProtocol.BeginKeepsInv` | src/rpc/rpc_endpoint.cpp:37-51 | Taking and setting up the top slot keeps the invariant, and its incarnation had no request before. |
| `RpcProtocol.WithTimeoutKeepsInv` | src/rpc/rpc_endpoint.cpp:54 | Scheduling the token of a slot in use, or failing to, keeps the invariant. |
| `RpcProtocol.AbortKeepsInv` | src/rpc/rpc_endpoint.cpp:60-64 | Giving back the slot of a refused request keeps the invariant although its timeout stays on the wheel. |
| `RpcProtocol.PostKeepsInv` | src/rpc/rpc_endpoint.cpp:60-78 | Posting, with any outcome and with or without a data write, keeps the invariant. |
| `RpcProtocol.CompletionReportsSuccess` | src/rpc/rpc_endpoint.cpp:161-170 | A current completion ends its request exactly when it is the last outstanding one, with one callback of status 0 and the slot freed; otherwise only the count moves and exactly one more is missing. |
| `RpcProtocol.TimeoutReportsFailure` | src/rpc/rpc_endpoint.cpp:144-155 | A current timeout always ends its request, with one callback of status 1 and the slot freed. |
| `RpcSuccess.SuccessIsEarned` | include/rdma/rpc/rpc_endpoint.h:62-69 | In every run in which a token is accepted only by the incarnation it was issued for, a callback of status 0 comes after at least as many completions for its request as the request posted work requests. |
| `RpcSuccess.StepCounts` | include/rdma/rpc/rpc_endpoint.h:58-89 | Every event keeps the counters of slots in use equal to what was posted and within what has completed. |
| `RpcSuccess.RunKeepsInv` | include/rdma/rpc/rpc_endpoint.h:58-89 | Every such run keeps the protocol invariant, from any state that satisfies it. |
| `RpcStale.StaleTokenIsDropped` | include/rdma/rpc/rpc_endpoint.h:62-63 | A token of a request that is over changes nothing at all, as a completion and as a timeout, unless its slot has been freed 256 more times. |
| `RpcStale.DeliveryIsDroppedIff` | include/rdma/rpc/rpc_endpoint.h:58-70 | Where tokens are accepted only by their own incarnation, a completion changes nothing if and only if its request is over or the generation of its slot is past 255. |
| `RpcStale.StaleExpiryIsDropped` | src/rpc/rpc_endpoint.cpp:141-142 | Where a token is accepted only by its own incarnation, a timeout of a request that is over changes nothing. |
| `RpcStale.OthersAreUntouched` | src/rpc/rpc_endpoint.cpp:137-159 | The timeout handler leaves alone every slot whose current request has no token on the list, whatever stale tokens for the slot are on it: same word, same counters, same place, no callback. |
| `RpcStale.TokenChangesOneSlot` | include/rdma/rpc/rpc_endpoint.h:58-70 | A completion or a timeout, accepted or not, changes its own slot at most. |
| `RpcStale.SendChangesOneSlot` | src/rpc/rpc_endpoint.cpp:34-81 | A send changes the slot it takes at most, makes no callback and moves no clock; without a free slot it changes nothing. |
| `RpcStale.SentSlotHolds` | src/rpc/rpc_endpoint.cpp:37-51 | The slot of a request that was sent carries its connection, callback and context, no completions, no error, and as many work requests as were posted; it is off the free stack. |
| `RpcStale.RefusedSendGivesBack` | src/rpc/rpc_endpoint.cpp:60-64 | A refused send leaves the free stack as it was, moves its slot to the next generation, and calls nobody back. |
| `RpcStale.StepCauses` | include/rdma/rpc/rpc_endpoint.h:58-89 | Every callback an event makes is made for the current request of its slot: with success only by a completion that came for that same request, with failure only by a tick at which the wheel entry issued for that same request is due. |
| `RpcStale.CallbacksHaveCauses` | include/rdma/rpc/rpc_endpoint.h:58-89 | In every run from a new endpoint in which tokens are accepted only by their own incarnation, each callback ever made was made that way, by some event of the run. |
| `RpcTiming.FailuresAreOnTime` | src/rpc/rpc_endpoint.cpp:54 | In every such run, a failure is reported at the very tick its request asked for: the number of ticks between the send and the tick that reports it is the timeout modulo 1024, never fewer, never more. |
| `RpcTiming.StepIsTimed` | src/rpc/rpc_endpoint.cpp:54 | Every event keeps each pending wheel entry standing for the timeout of the request it was issued for. |
| `RpcDeadlines.CompletesInTime` | src/rpc/rpc_endpoint.cpp:54 | Bounded completion: a request whose timeout T was scheduled on a slot whose generation is below 256, and which is on the free stack only once, has been called back with its own callback and its slot freed by the end of the (T mod 1024 + 1)-th later tick, whatever else is sent and whatever completions and timeouts arrive, stale ones that are accepted included. |
| `RpcDeadlines.SendStartsWait` | src/rpc/rpc_endpoint.cpp:54 | After a send the request has its slot, completions to come, and its token on the wheel, due T mod 1024 ticks later; nothing is asked of the other slots. |
| `RpcDeadlines.SendKeepsWait` | src/rpc/rpc_endpoint.cpp:34-81 | Any other send leaves the request over, or in its slot with its token on the wheel. |
| `RpcDeadlines.TickKeepsWait` | src/rpc/rpc_endpoint.cpp:137-159 | Any tick leaves the request over, or in its slot with its token on the wheel and time left. |
| `RpcDeadlines.StepKeepsWait` | include/rdma/rpc/rpc_endpoint.h:58-89 | So does every event, whatever tokens it brings and whether or not they are stale, and only ticks move the clock. |
| `RpcDeadlines.RunKeepsWait` | include/rdma/rpc/rpc_endpoint.h:58-89 | And so does every run, with no condition on its tokens; its clock moves by its number of ticks. |
| `RpcDeadlines.CheckTimeoutsKeepsWait` | src/rpc/rpc_endpoint.cpp:137-159 | Handling any expired list ends a request whose current token is on it, if its generation is below 256, and otherwise leaves it alone or ends it with its callback. |
| `RpcDeadlines.DeliverKeepsWait` | include/rdma/rpc/rpc_endpoint.h:58-70 | Any completion, current or stale, leaves a request in its slot or ends it with its own callback made. |
| `RpcDeadlines.InvHasCleanTop` | include/rdma/rpc/rpc_slot.h:162-174 | In every state the protocol invariant describes, the next slot to be taken is on the free stack once and its word shows its own incarnation. |
| `RpcDeadlines.RunsHaveCleanTop` | include/rdma/rpc/rpc_slot.h:177-182 | In every state of every run, after double frees too, the same holds of a top slot that is not on the stack a second time. |
| `RpcDeadlines.RunsKeepNumbers` | include/rdma/rpc/rpc_slot.h:83-87 | Every slot word shows the number of frees of its slot in every state of every run. |
| `RpcDeadlines.SendLosesSlotIff` | include/rdma/rpc/rpc_slot.h:173 | A request that was sent loses its slot if and only if the slot's 12-bit generation is past 255: the token keeps 8 bits, the check compares 12. |
| `RpcDeadlines.LostForever` | include/rdma/rpc/rpc_slot.h:188-194 | No run ever touches a lost slot again: no completion, response or timeout is accepted for it and its request is never called back. |
| `RpcDeadlines.StepMissesLost` | src/rpc/rpc_endpoint.cpp:137-159 | No event touches a lost slot or calls back for it. |
| `RpcDeadlines.CheckTimeoutsMissesLost` | src/rpc/rpc_endpoint.cpp:140-142 | The timeout handler passes over a lost slot whatever tokens expire. |
| `RpcDoubleFree.StaleTimeoutFreesTwice` | src/rpc/rpc_endpoint.cpp:60-64 | For every configured timeout, every run of one endpoint that refuses 4096 requests in one tick and then ticks until their timeouts fire, with whatever wheel entries and listing orders, ends with a callback into a refused request, on a free slot, which is then on the full free stack a second time; and there is such a run. |
| `RpcDoubleFree.TwoHundredFiftySixFreesAreEnough` | include/rdma/rpc/rpc_slot.h:188-194 | The bound of 255 frees is the best there is, for every configured timeout: every run that refuses 4095 requests whose timeouts fire unheeded and then 256 more ends with a tick that accepts the token of incarnation 4095, and no other, at incarnation 4351, and frees the slot twice; and there is such a run. |
| `RpcDoubleFree.TwoBatchesAlwaysEnd` | src/rpc/rpc_endpoint.cpp:60-64 | The same for any two batch sizes of which the first has no token, and the second exactly one, that the slot accepts when they fire. |
| `RpcDoubleFree.OneBatchAlwaysEnds` | src/rpc/rpc_endpoint.cpp:60-64 | The same for any one batch of refused requests with a token that is accepted when it fires. |
| `RpcDoubleFree.PatternHasRun` | include/rdma/common/timing_wheel.h:189-213 | Every pattern of refused requests and ticks has a run: the wheel has an entry or is full, and can list what is due. |
| `RpcRefusals.BatchOfTrace` | src/rpc/rpc_endpoint.cpp:60-64 | A batch of refused requests on a quiet wheel: at the tick its timeouts fire the slot is freed twice if one of their tokens is accepted by then, and otherwise the slot is ready for the next batch. |
| `RpcRefusals.LastTick` | src/rpc/rpc_endpoint.cpp:140-155 | A tick over many timeouts of one free slot frees it twice if one of their tokens is accepted, whatever their order, and otherwise changes nothing but the wheel. |
| `RpcRefusals.OneTokenCounts` | src/rpc/rpc_endpoint.cpp:140-155 | Of many tokens for one slot, in any order, at most one ends a request: afterwards the counters are complete and the rest is skipped. |
| `RpcRefusals.OneRefusal` | src/rpc/rpc_endpoint.cpp:37-64 | A refused request gives its slot back at the next incarnation and leaves one more timeout pending. |
| `RpcSlotPool.TokenLaw` | include/rdma/rpc/rpc_slot.h:188-194 | A token issued at incarnation n is accepted at incarnation m if and only if m mod 4096 = n mod 256. |
| `RpcSlotPool.IncarnationFields` | include/rdma/rpc/rpc_slot.h:73-87 | After n frees a slot word still carries its index, generation n mod 4096 and token n mod 256, and one more free makes that n + 1. |
| `RpcSlotPool.StaleTokenGap` | include/rdma/rpc/rpc_slot.h:188-194 | A token accepted by a later incarnation than its own has seen at least 256 frees. |
| `RpcSlotPool.OwnToken` | include/rdma/rpc/rpc_slot.h:162-174 | The token Allocate hands out is accepted by its own slot if and only if the generation is below 256. |
| `RpcSlotPool.SlotsAreTakenInOrder` | src/rpc/rpc_slot.cpp:27-35 | A new pool hands out slots 0, 1, 2, ... in order; after a free the slot freed last comes first, one generation later. |
| `RpcSlotPool.RpcSlotPool.constructor` | src/rpc/rpc_slot.cpp:27-35 | A new pool: every slot free at generation 0 with its own index, the free stack descending so that slot 0 is taken first. |
| `RpcSlotPool.RpcSlotPool.Allocate` | include/rdma/rpc/rpc_slot.h:162-174 | Hands out the slot on top of the free stack, reset, with the low 8 bits of its generation; nothing, and no change, exactly when the stack is empty. |
| `RpcSlotPool.RpcSlotPool.Free` | include/rdma/rpc/rpc_slot.h:177-182 | Pushes the slot, marks it free and moves it to its next incarnation, everything else unchanged. |
| `RpcEndpoint.RpcEndpoint.SendRequest` | src/rpc/rpc_endpoint.cpp:34-81 | One send step of the protocol; the result tells the slot, an empty pool, or the refusal; and the work-request id and immediate that go out decode to the slot and token of exactly this request. |
| `RpcEndpoint.RpcEndpoint.TakeSlot` | src/rpc/rpc_endpoint.cpp:37-51 | Takes and initialises a slot for one work request as the protocol says, or reports an empty pool. |
| `RpcEndpoint.RpcEndpoint.ScheduleTimeout` | src/rpc/rpc_endpoint.cpp:54 | Schedules the token for the configured time; when all 65536 entries are pending it schedules nothing and says nothing. |
| `RpcEndpoint.RpcEndpoint.Post` | src/rpc/rpc_endpoint.cpp:60-78 | Frees the slot on a refused send, counts a data write otherwise. |
| `RpcEndpoint.RpcEndpoint.Complete` | src/rpc/rpc_endpoint.cpp:161-170 | One completion step: stale tokens dropped, otherwise counted, and at the total called back and freed; which tokens are dropped is RpcStale.DeliveryIsDroppedIff. |
| `RpcEndpoint.RpcEndpoint.OnSendComplete` | include/rdma/rpc/rpc_endpoint.h:58-70 | A send completion is the completion step for the slot and generation its wr_id decodes to; a stale one changes nothing (RpcStale.StaleTokenIsDropped). |
| `RpcEndpoint.RpcEndpoint.OnWriteWithImmRecv` | include/rdma/rpc/rpc_endpoint.h:73-89 | A zero-copy response is the completion step for the 16-bit slot and 8-bit generation of its immediate; a stale one changes nothing (RpcStale.StaleTokenIsDropped). |
| `RpcEndpoint.RpcEndpoint.ExpireOne` | src/rpc/rpc_endpoint.cpp:141-155 | One timeout step of the protocol for one expired token. |
| `RpcEndpoint.RpcEndpoint.CheckTimeouts` | src/rpc/rpc_endpoint.cpp:137-159 | The loop is the protocol's step for the whole list, and the count it returns is the number of slots freed. |
| `RpcEndpoint.RpcEndpoint.PollTimeouts` | src/rpc/rpc_endpoint.cpp:137-159 | The wheel's tick followed by the handler is one enabled tick of the protocol. |
| `RpcEndpoint.StackFits` | include/rdma/rpc/rpc_slot.h:181 | In every state the protocol invariant describes, the free stack fits its array, so the bound the methods ask for holds in every safe run. |
| `WrId.EncodingIsBijective` | include/rdma/common/wr_id.h:19-40 | A 64-bit id equals the encoding of four fields if and only if its getters return exactly those fields. |
| `WrId.FieldsOfEncoding` | include/rdma/common/wr_id.h:26-40 | Each getter returns the field that was encoded. |
| `WrId.EncodingOfFields` | include/rdma/common/wr_id.h:19-24 | Encoding the fields of an id gives the id back. |
| `WrId.EncodingIsOdometer` | include/rdma/common/wr_id.h:19-24 | Ids count like an odometer with wheels slot (2^32), generation and opcode (256 each) and connection (2^16): one more than the id of four fields is the id of the next four. |
| `WrId.ImmIsNumbered` | src/rpc/rpc_endpoint.cpp:70 | For slots below 65536 the immediate is 65536 times the generation plus the slot. |
| `WrId.ImmRoundTrip` | src/rpc/rpc_endpoint.cpp:70 | The immediate gives back the generation always and the slot exactly when it is below 65536, the size of the pool. |
| `TimingWheel.TimingWheel.Schedule` | include/rdma/common/timing_wheel.h:189-199 | Fails if and only if all 65536 entries are pending; otherwise exactly one unused entry becomes pending with the given token, due t mod 1024 ticks from now. |
| `TimingWheel.TimingWheel.Tick` | include/rdma/common/timing_wheel.h:201-213 | Reports exactly the entries that are due, each once, removes exactly those, and moves the clock by one. |
| `TimingWheel.TimingWheel.constructor` | include/rdma/common/timing_wheel.h:174-183 | A new wheel is at tick 0 with nothing pending. |
| `TimingWheel.TargetIsDue` | include/rdma/common/timing_wheel.h:196 | The bucket picked is drained t mod 1024 ticks from now even when the 32-bit sum of cursor and timeout wraps. |
| `TimingWheel.FiresInTime` | include/rdma/common/timing_wheel.h:189-213 | In every run after a Schedule with timeout t, whatever else is scheduled, the first tick to report the entry is the (t mod 1024 + 1)-th. |
| `TimingWheel.OtherBucketsKeepTheirTick` | include/rdma/common/timing_wheel.h:204-212 | A tick drains exactly the bucket that is due and does not move the due time of any other. |
| `TimingWheel.FreeListEmptyIffFull` | include/rdma/common/timing_wheel.h:222-227 | The free list is empty if and only if every entry of the pool is pending. |
| `TimingWheel.PushIsAdd` | include/rdma/common/timing_wheel.h:193-197 | Filling an entry and linking it into the chosen bucket makes that entry and no other pending. |
| `TimingWheel.DrainIsTick` | include/rdma/common/timing_wheel.h:204-212 | Moving the current bucket to the free list is one tick of the abstract clock. |
| `TimingWheel.BucketEnumeratesDue` | include/rdma/common/timing_wheel.h:204-210 | Walking the current bucket meets every due entry exactly once. |
| `Timer.FiresExactlyWhenDue` | include/rdma/common/timing_wheel.h:201-213 | Over any run of schedules and ticks, of the ticks up to the one at which an entry is due, that one reports it and no earlier one does. |
| `Timer.FirstReportIsWhenDue` | include/rdma/common/timing_wheel.h:201-213 | In a run that is long enough, the first tick to report a pending entry is the one at which it is due. |
| `Timer.StaysPendingUntilDue` | include/rdma/common/timing_wheel.h:189-199 | Until then the entry stays pending with its token unchanged. |
| `Timer.TickRemovesExactlyItsReport` | include/rdma/common/timing_wheel.h:201-213 | The entries reported and the entries left share out the pending ones, in number too. |
| `Timer.RunKeepsInv` | include/rdma/common/timing_wheel.h:189-213 | No entry is ever overdue, and the clock is the number of ticks. |
| `HierarchicalWheel.FiringBound` | include/rdma/common/timing_wheel.h:87-96 | A timeout t below 256 is due after t ticks exactly; a longer one, with m = t mod 65536, between m - 254 and m + 511 ticks from now, for every wheel position and every level-1 bucket the demotion picks. |
| `HierarchicalWheel.FiresInWindow` | include/rdma/common/timing_wheel.h:79-130 | In every run after a Schedule, whatever else is scheduled: with a timeout t below 256 the first tick to report the entry is exactly the (t+1)-th, with a longer one, m = t mod 65536, it is at most 254 ticks before and 511 after the (m+1)-th. |
| `HierarchicalWheel.SpreadReaches` | include/rdma/common/timing_wheel.h:122-124 | Every entry lands in every level-1 bucket for some 64-byte aligned address of the pool. |
| `HierarchicalWheel.SpreadGroupsFours` | include/rdma/common/timing_wheel.h:122-124 | On a 64-byte aligned pool four neighbouring entries share the bucket demotion puts them in, and 1024 entries go once around. |
| `HierarchicalWheel.FiringBoundIsTight` | include/rdma/common/timing_wheel.h:117-129 | Both ends are reached whichever entry Schedule hands out: for some pool address a timeout of 511 scheduled after 255 ticks of a new wheel is first reported 254 ticks early in every run, and for another one a timeout of 256 scheduled at once 511 ticks late; so the documented 256-tick precision of level 2 is not kept. |
| `HierarchicalWheel.LongTimeoutsWrap` | include/rdma/common/timing_wheel.h:93-95 | A long timeout and the same timeout plus 65536 fire at the same tick. |
| `HierarchicalWheel.TargetIsDue` | include/rdma/common/timing_wheel.h:87-96 | The bucket Schedule picks is drained, or demoted into a bucket that is drained, at exactly the stated firing tick. |
| `HierarchicalWheel.DueIsStable` | include/rdma/common/timing_wheel.h:114-129 | Turning both cursors and demoting a level-2 bucket keep the firing tick of every entry that is not reported, and only the current level-1 bucket is due. |
| `HierarchicalWheel.LongDueIsStable` | include/rdma/common/timing_wheel.h:118-128 | The level-2 half of that: an entry still on level 2 is never due, and demotion keeps its firing tick. |
| `HierarchicalWheel.CursorStep` | include/rdma/common/timing_wheel.h:115-128 | The two cursors are the two base-256 digits of the number of ticks. |
| `HierarchicalWheel.FreeChainComplementsPending` | include/rdma/common/timing_wheel.h:155-165 | The free list and the pending entries share out the pool. |
| `HierarchicalWheel.PushIsAdd` | include/rdma/common/timing_wheel.h:84-96 | Linking a filled entry into the chosen bucket of either level makes it, and no other, pending. |
| `HierarchicalWheel.DrainsAreTick` | include/rdma/common/timing_wheel.h:106-129 | Reporting a level-1 bucket and, at the end of a round, spreading a level-2 bucket over level 1 is one tick of the abstract clock. |
| `HierarchicalWheel.BucketEnumeratesDue` | include/rdma/common/timing_wheel.h:106-112 | Walking the current level-1 bucket meets every due entry exactly once. |
| `HierarchicalWheel.HierarchicalTimingWheel.Schedule` | include/rdma/common/timing_wheel.h:80-98 | Fails if and only if all 2^20 entries are pending; otherwise exactly one unused entry becomes pending at its firing tick. |
| `HierarchicalWheel.HierarchicalTimingWheel.Tick` | include/rdma/common/timing_wheel.h:102-130 | Reports exactly the due entries, each once, removes exactly those, and moves the clock by one, also when a level-2 bucket is demoted. |
| `HierarchicalWheel.HierarchicalTimingWheel.Turn` | include/rdma/common/timing_wheel.h:114-129 | Turns the cursors and, at the end of a round, moves each entry of the level-2 bucket to the level-1 bucket its address names. |
| `HierarchicalWheel.HierarchicalTimingWheel.GetFreeCount` | include/rdma/common/timing_wheel.h:135-143 | The walk over the free list ends, and counts what is not pending. |
| `HierarchicalWheel.HierarchicalTimingWheel.constructor` | include/rdma/common/timing_wheel.h:62-73 | A new wheel is at tick 0 with nothing pending. |
| `EntryLists.PushKeepsShape` | include/rdma/common/timing_wheel.h:26-30 | Linking an entry that is on no list keeps all lists acyclic and disjoint. |
| `EntryLists.PopKeepsShape` | include/rdma/common/timing_wheel.h:155-160 | So does taking the first entry of a list. |
| `EntryLists.ClearKeepsShape` | include/rdma/common/timing_wheel.h:32-37 | So does emptying a bucket, and the chain it held can still be walked. |
| `EntryLists.TopFirstEnumerates` | include/rdma/common/timing_wheel.h:106-112 | Walking a list from its head meets each of its entries exactly once. |
| `EntryLists.Lists.constructor` | include/rdma/common/timing_wheel.h:62-73 | All entries start on the free list, which is acyclic and complete. |
| `EntryLists.Lists.AllocEntry` | include/rdma/common/timing_wheel.h:155-160 | Returns null exactly when the free list is empty, and otherwise takes its first entry off. |
| `EntryLists.Lists.Push` | include/rdma/common/timing_wheel.h:26-30 | Puts a loose entry in front of one list and leaves the others alone. |
| `EntryLists.Lists.PopAll` | include/rdma/common/timing_wheel.h:32-37 | Empties one bucket and returns the chain it held with its links intact. |
| `EntryLists.Lists.Insert` | include/rdma/common/timing_wheel.h:189-199 | Either the pool is exhausted and nothing changes, or one free entry moves to the bucket with the token, and nothing else moves. |
| `EntryLists.Lists.Drain` | include/rdma/common/timing_wheel.h:106-126 | The loop of both wheels: reads each successor before relinking its entry, returns the tokens in list order, and moves every entry of the bucket, and no other, to its target list. |
| `DispatcherRuns.LookupRefinesMap` | src/rpc/completion_dispatcher.cpp:39-88 | For every run of registrations, re-registrations included, and dispatches, with ids other than 0xFFFF and non-null handlers, each dispatch invokes exactly what a plain map from id to handler holds. |
| `DispatcherRuns.ClearAllRefinesMap` | src/rpc/completion_dispatcher.cpp:103-122 | With unregistrations that empty every cached copy, every run agrees with the map in which each registration of a live id with another pair finds every copy of the id where it writes. |
| `DispatcherRuns.WrittenFormRefinesMap` | src/rpc/completion_dispatcher.cpp:90-123 | The written form, which stops at the first copy, agrees with the map in every run in which that is true of registrations and neither cache holds an id twice when it is unregistered. |
| `DispatcherRuns.RunStaysCoherentIff` | src/rpc/completion_dispatcher.cpp:39-123 | For both forms and every run of the three operations: the caches hold only right copies in every state of the run if and only if these conditions hold at each registration and unregistration. |
| `DispatcherRuns.CleanRunsRefineMap` | src/rpc/completion_dispatcher.cpp:39-123 | And then every dispatch of the run invokes exactly what a plain map holds. |
| `DispatcherRuns.StepKeepsCoherentIff` | src/rpc/completion_dispatcher.cpp:39-123 | The same for one operation of either form. |
| `DispatcherRuns.FreshRunsAreClean` | src/rpc/completion_dispatcher.cpp:39-123 | Runs of the clear-all form that register only unregistered ids always meet the conditions. |
| `DispatcherRuns.FreshRegistrationKeepsCoherent` | src/rpc/completion_dispatcher.cpp:39-88 | Registering an id that is not registered keeps every cached copy right, even when the caches have holes. |
| `DispatcherRuns.InitialIsCoherent` | src/rpc/completion_dispatcher.cpp:7-30 | The caches as constructed agree with the empty map. |
| `DispatcherInvariant.DispatchAgrees` | include/rdma/rpc/completion_dispatcher.h:68-111 | However many copies the caches hold, if each is right then a dispatch invokes exactly what is registered, or nothing, and keeps each copy right. |
| `DispatcherInvariant.RegisterKeepsBoth` | src/rpc/completion_dispatcher.cpp:39-88 | A registration or re-registration keeps every copy right and the caches compact: no empty way 0 before a full way 1, no id twice in a set, no entry past an empty slot or another copy of its id in its probes. |
| `DispatcherInvariant.RegisterKeepsCoherentIff` | src/rpc/completion_dispatcher.cpp:39-88 | A registration that gives a live id another pair leaves only right copies if and only if every cached copy of the id is the one it overwrites; any other registration always does. |
| `DispatcherInvariant.RegisterLevel0` | src/rpc/completion_dispatcher.cpp:49-84 | The level-0 half: right afterwards if and only if every way that holds the id is the way the loop picks. |
| `DispatcherInvariant.RegisterLevel1` | src/rpc/completion_dispatcher.cpp:130-165 | The level-1 half: right afterwards if and only if every slot that holds the id is the slot the probe loop picks. |
| `DispatcherInvariant.DispatchKeepsCompact` | src/rpc/completion_dispatcher.cpp:130-209 | Ageing, promotion to L0 and copying from L2 to L1 keep the caches compact. |
| `DispatcherInvariant.UnregisterKeepsCoherentIff` | src/rpc/completion_dispatcher.cpp:103-122 | The written unregistration leaves only right copies if and only if neither cache held the id twice. |
| `DispatcherInvariant.NextDispatchIsStaleIff` | src/rpc/completion_dispatcher.cpp:103-122 | After the written unregistration the next dispatch of the id invokes its old handler if and only if its set held the id twice, and is dropped otherwise. |
| `DispatcherInvariant.FilledHoleRevives` | src/rpc/completion_dispatcher.cpp:113-122 | A second copy left in level 1 is invoked once another id is registered into the emptied slot, if no other slot before the copy is empty. |
| `DispatcherInvariant.ClearedIsNotFound` | include/rdma/rpc/completion_dispatcher.h:169-177 | The lookup does not get past the slot that was emptied, whatever lies behind it. |
| `DispatcherInvariant.UnregisterAllKeepsCoherent` | src/rpc/completion_dispatcher.cpp:103-122 | Emptying every copy leaves only right copies, always. |
| `DispatcherInvariant.UnregisterLevel0` | src/rpc/completion_dispatcher.cpp:103-110 | The level-0 half: right afterwards if and only if the set held the id at most once. |
| `DispatcherInvariant.UnregisterLevel1` | src/rpc/completion_dispatcher.cpp:113-122 | The level-1 half: right afterwards if and only if at most one slot held the id. |
| `DispatcherInvariant.FindFacts` | include/rdma/rpc/completion_dispatcher.h:166-179 | The lookup loop finds a slot with only other ids before it, or stops at an empty slot, or has seen four other ids. |
| `DispatcherInvariant.InsertAtFacts` | src/rpc/completion_dispatcher.cpp:136-158 | The insertion loop takes the first probed slot that holds the id or is empty, and replaces another entry only when all four hold other ids. |
| `DispatcherInvariant.InsertTakesLeastUsed` | src/rpc/completion_dispatcher.cpp:153-157 | When all four probed slots hold other ids, none of them has been used less than the one that is replaced. |
| `DispatcherInvariant.LastHitIsKept` | include/rdma/rpc/completion_dispatcher.h:85-97 | The connection hit last in its set survives the next registration or promotion of another one. |
| `DispatcherInvariant.InsertIsCompact` | src/rpc/completion_dispatcher.cpp:130-165 | An insertion updates the only reachable copy, leaves other ids right, and keeps the probe windows without holes or duplicates. |
| `DispatcherInvariant.InsertKeepsEntries` | src/rpc/completion_dispatcher.cpp:130-165 | An insertion of what is registered keeps every hot entry right, holes or not. |
| `DispatcherInvariant.StoreAgrees` | src/rpc/completion_dispatcher.cpp:41-47 | Writing an entry of the two-level index changes that id in the map it stands for and no other, also when the bucket was not allocated. |
| `DispatcherInvariant.OnlyCopy` | src/rpc/completion_dispatcher.cpp:136-158 | A copy the lookup can reach is where the insertion goes. |
| `DispatcherCaching.UseMovesUp` | include/rdma/rpc/completion_dispatcher.h:84-110 | From any caches: each dispatch that invokes a handler moves its id one level up, and the next dispatch of the id invokes the same handler. |
| `DispatcherCaching.TwoUsesAreEnough` | include/rdma/rpc/completion_dispatcher.h:84-110 | So the third dispatch of an id in a row is a hit on the fast level, with the same handler. |
| `DispatcherCaching.RegisteredIsCached` | src/rpc/completion_dispatcher.cpp:39-88 | From any caches: a registered id is in all three levels, the next dispatch is a hit on the fast one, and it invokes what was registered. |
| `DispatcherCaching.RegisterLeavesOthers` | src/rpc/completion_dispatcher.cpp:39-88 | A registration writes one way, of the id's own set, one entry, and the id's own place in the index; the way starts at 128 uses, the entry at one or one more. |
| `DispatcherCaching.UnregisterLeavesOthers` | src/rpc/completion_dispatcher.cpp:90-123 | An unregistration clears no copy of another id and no other id of the index; what it clears keeps its count alone, and the id is gone from the index. |
| `DispatcherCaching.DispatchLeavesOthers` | include/rdma/rpc/completion_dispatcher.h:78-110 | What a dispatch changes, for each of the four levels it may end on: two counts of one set; one way and one count; one entry; nothing. The index is never changed. |
| `DispatcherCaching.HitsAge` | include/rdma/rpc/completion_dispatcher.h:85-97 | n dispatches in a row that hit one way of a set leave its count at 255 and the other one lower by n, but not below 0. |
| `DispatcherCaching.LessUsedWayIsLost` | src/rpc/completion_dispatcher.cpp:68-84 | A newcomer to a full set, registered or promoted, replaces the less used way, way 0 if they are used alike. |
| `DispatcherCaching.InsertTakesFirstOfLeastUsed` | src/rpc/completion_dispatcher.cpp:153-157 | Of equally little used entries an insertion replaces the one that is probed first. |
| `DispatcherCaching.HashesCollideIff` | include/rdma/rpc/completion_dispatcher.h:161-163 | Two ids probe from the same entry if and only if they agree modulo 64: the multiplicative hash is invertible on the low six bits. |
| `DispatcherStale.StaleHandlerIsInvoked` | src/rpc/completion_dispatcher.cpp:103-122 | The run that refutes the written unregistration: non-null handlers, ids registered only while unregistered, yet the last dispatch invokes a handler that was unregistered, where the map finds nothing. |
| `DispatcherStale.ReRegistrationUncoversOldHandler` | src/rpc/completion_dispatcher.cpp:53-84 | The copy such a registration leaves behind, in way 1 after a hole in way 0, is what the next unregistration uncovers. |
| `DispatcherStale.ReplacedHandlerIsInvoked` | src/rpc/completion_dispatcher.cpp:53-84 | A run, under either form of unregistration, in which a dispatch invokes the pair that a re-registration had replaced: the only unregistration meets a single copy, and the failing step is the registration past the hole. |
| `DispatcherStale.ExcludedArgumentsCallNull` | include/rdma/rpc/completion_dispatcher.h:85-89 | Why the two exclusions are needed: a completion for id 0xFFFF hits an empty way, and a registered null handler is invoked. |
| `CompletionDispatcher.CompletionDispatcher.constructor` | src/rpc/completion_dispatcher.cpp:7-30 | All ways and slots empty, no bucket allocated. |
| `CompletionDispatcher.CompletionDispatcher.RegisterConnection` | src/rpc/completion_dispatcher.cpp:39-88 | All three levels change as the value model says: the loop over the ways stops at the id or at an empty way and otherwise takes the least used. |
| `CompletionDispatcher.CompletionDispatcher.UnregisterConnection` | src/rpc/completion_dispatcher.cpp:90-123 | The index entry and the first copy in each cache are emptied, and nothing else. |
| `CompletionDispatcher.CompletionDispatcher.InsertHotCache` | src/rpc/completion_dispatcher.cpp:130-165 | The probe loop writes exactly the slot the value model names, with the counts the source keeps. |
| `CompletionDispatcher.CompletionDispatcher.FindInHotCache` | include/rdma/rpc/completion_dispatcher.h:166-179 | The probe loop returns exactly the slot the value model finds. |
| `CompletionDispatcher.CompletionDispatcher.MaybePromoteToL0` | src/rpc/completion_dispatcher.cpp:167-195 | The set changes as the value model says: an empty way first, nothing if the id is there, else the less used way. |
| `CompletionDispatcher.CompletionDispatcher.DispatchFromL2` | src/rpc/completion_dispatcher.cpp:197-209 | Invokes what the index holds and copies it to level 1; drops the completion and changes nothing when there is no bucket or no handler. |
| `CompletionDispatcher.CompletionDispatcher.Touch` | include/rdma/rpc/completion_dispatcher.h:85-97 | A hit saturates the count of its way, and the other count goes down by one but not below 0. |
| `CompletionDispatcher.CompletionDispatcher.Dispatch` | include/rdma/rpc/completion_dispatcher.h:78-110 | The handler invoked and the caches left behind are those of the value model, on every one of the four paths. |
| `MpscQueue.RunsKeepInv` | include/rdma/common/mpsc_queue.h:29-41 | For any number of producers and any interleaving of load, link, swap (also failing for no reason) and exchange, with popped nodes pushed again: in every state the chain from head is acyclic and holds exactly the nodes pushed and not taken, newest first. |
| `MpscQueue.StepKeepsInv` | include/rdma/common/mpsc_queue.h:29-41 | Each atomic step keeps that. |
| `MpscQueue.SwapKeepsInv` | include/rdma/common/mpsc_queue.h:33-34 | A swap that succeeds pushes onto the list as it is at that moment, whatever happened since the head was read: an equal head is enough. |
| `MpscQueue.TakeAllKeepsInv` | include/rdma/common/mpsc_queue.h:39-41 | The exchange takes the whole list, in reverse order of the swaps, and leaves the queue empty. |
| `MpscQueue.RunTaskKeepsInv` | src/reactor/reactor.cpp:142-148 | Running a task consumes exactly the next node of the taken list, although its node may be pushed again at once. |
| `MpscQueue.WalkKeepsInv` | src/reactor/reactor.cpp:142-143 | Reading the successor before running the task keeps the rest of the batch intact. |
| `MpscQueue.ProducerStepKeepsInv` | include/rdma/common/mpsc_queue.h:30-34 | Reading the head, linking and failed swaps do not disturb the queue. |
| `MpscQueue.PushesAreConserved` | src/reactor/reactor.cpp:136-150 | Counted with repetition, the nodes pushed are the tasks run, those taken and waiting, and those queued; so with an empty queue and an idle consumer every push has run exactly once. |
| `MpscQueue.BatchesKeepElements` | src/reactor/reactor.cpp:138 | The batches taken contain every node pushed before the last exchange, each as often as it was pushed. |
| `MpscQueue.TakeAllMovesStack` | include/rdma/common/mpsc_queue.h:39-41 | An exchange puts the queued nodes, newest first, behind what is still to be run. |
| `MpscQueue.BatchesIgnoreLaterPushes` | include/rdma/common/mpsc_queue.h:29-35 | Pushes never change a batch that has been taken. |
| `MpscQueue.AbaIsHarmless` | include/rdma/common/mpsc_queue.h:29-41 | The ABA case as a run from an empty queue: the expected head is taken, run and pushed again between the load and the swap; the swap succeeds, the invariant holds and the queue is 8 over 7, each once. |
| `MpscProgress.PushFinishesAlone` | include/rdma/common/mpsc_queue.h:29-35 | From any point of its push on, in every state of every interleaving, a producer that is left alone finishes within four steps, the swap failing once at most: its node is then the head, linked to the old head, and nothing else has changed. |
| `MpscProgress.PushCanBegin` | include/rdma/common/mpsc_queue.h:29-35 | Any node that no push, the queue or the consumer owns can be pushed, and that push can be finished. |
| `MpscProgress.ConsumerDrainsAlone` | src/reactor/reactor.cpp:136-150 | A consumer that is left alone runs exactly what is queued, newest first, in two steps a task and two more, and leaves the queue empty and the producers as they were. |
| `MpscProgress.WalkFinishesAlone` | src/reactor/reactor.cpp:139-150 | So does one that has already taken its batch, for what is left of it. |
| `TaskQueue.TaskQueue.Push` | include/rdma/common/mpsc_queue.h:29-35 | Used alone, adds the node on top and changes the link of no other node. |
| `TaskQueue.TaskQueue.PopAll` | include/rdma/common/mpsc_queue.h:39-41 | Returns the head of a chain of exactly the queued nodes and leaves the queue empty. |
| `TaskQueue.TaskQueue.ProcessTasks` | src/reactor/reactor.cpp:136-150 | Runs every queued task exactly once, newest first, and returns their number. |
| `SpscRing.StepRefinesFifo` | include/rdma/common/mpsc_queue.h:71-95 | Each load, copy or store of one producer and one consumer, in any interleaving, does to a FIFO exactly what its operation should at one moment: append at the head store, remove the first at the tail store, fail to push only with capacity - 1 queued and to pop only with none. |
| `SpscRing.PoppedIsPrefixOfPushed` | include/rdma/common/mpsc_queue.h:71-95 | In every reachable state the items popped are a prefix of the items pushed: none lost, duplicated, reordered or overwritten before it is copied, and fewer than capacity outstanding. |
| `SpscRing.PushAlone` | include/rdma/common/mpsc_queue.h:71-82 | A push, from its first step to its last and with the other side anywhere in a pop, appends its own item, or changes nothing because capacity - 1 items are queued. |
| `SpscRing.PopAlone` | include/rdma/common/mpsc_queue.h:85-95 | A pop, with the other side anywhere in a push, takes the oldest item, or changes nothing because none is queued. |
| `SpscRing.SizeIsLength` | include/rdma/common/mpsc_queue.h:101-105 | When quiescent Size is the queue length, the 64-bit subtraction wrapping or not. |
| `SpscRing.SpscRingBuffer.Push` | include/rdma/common/mpsc_queue.h:71-82 | Appends, or fails exactly when capacity - 1 items are queued. |
| `SpscRing.SpscRingBuffer.Pop` | include/rdma/common/mpsc_queue.h:85-95 | Removes and returns the first item, or fails exactly when nothing is queued. |
| `SpscRing.SpscRingBuffer.GetSize` | include/rdma/common/mpsc_queue.h:101-105 | Returns the number of queued items. |
| `KvRuns.RunsRefineMap` | examples/kv_store.h:95-249 | For any hash function, slot size and table size: every run of Put, PutSGL, Get and GetInfo in which accepted values fit a slot and are as long as stated answers as a map from key to bytes that refuses every put when all slots are used and a new key when all entries are; and no copy leaves the pool. |
| `KvRuns.StepRefinesMap` | examples/kv_store.h:95-249 | Each operation keeps the table invariant and the represented map in step, on tables of any size. |
| `KvRuns.PutSglIsInvalidIff` | examples/kv_store.h:154-170 | A scatter put is refused as invalid if and only if the total it states is not one of the sixteen sizes, or is not the 32-bit sum of its segments. |
| `KvRuns.NewKeyGoesToFirstRoom` | examples/kv_store.h:117-146 | A new key is stored in the first entry without a live key, counted from hash(key) modulo the table size and around, with the slot on top of the free stack; no other entry changes. |
| `KvRuns.LargeSlotsFit` | examples/kv_store.h:18-23 | On slots of at least 64 KB every Put, and every PutSGL of less than 2^32 bytes in all, meets the condition of that theorem. |
| `KvRuns.NextSlotIsSafeIff` | examples/kv_store.h:304-307 | A value written to slot k leaves the bytes of slot k + 1 alone, whatever they are, if and only if it is no longer than a slot. |
| `KvRuns.SmallSlotsOverlap` | examples/kv_store.h:95-150 | A run that shows it, for all slot sizes, hash functions and values: two puts of valid values to a new store are accepted, the first value longer than its slot; a get of its key then returns it if and only if the second value agrees with the part it was written over. |
| `KvRefinement.PutRefinesMap` | examples/kv_store.h:95-150 | On a table of any size, a put whose valid value fits a slot changes its key to the new bytes and no other key, on the insert and the update path, and is refused exactly when all slots are used or the key is new and all entries are used. |
| `KvRefinement.PutIsInvalidIff` | examples/kv_store.h:96-98 | A put is refused as invalid, with no change, if and only if its length is not one of the sixteen multiples of 4096 from 4096 to 65536; the map puts are compared with decides by those sizes too. |
| `KvRefinement.StorableSizes` | examples/kv_protocol.h:104-108 | The size check accepts exactly those sixteen sizes. |
| `KvRefinement.GetRefinesMap` | examples/kv_store.h:223-249 | Get returns the bytes of the last successful put, not-found for absent keys, and invalid for a buffer that is too small; GetInfo returns their number. |
| `KvRefinement.FindIsExact` | examples/kv_store.h:287-302 | FindEntry finds a live key wherever it was probed to, also past tombstones. |
| `KvRefinement.FindFindsLive` | examples/kv_store.h:287-302 | FindEntry returns something if and only if the key is live. |
| `KvRefinement.FindRoomFacts` | examples/kv_store.h:118-146 | The probe loop finds room unless every entry is live, and what it finds can be reached by lookups. |
| `KvRefinement.PutIsRefusedIff` | examples/kv_store.h:100-149 | A valid put is refused for space if and only if no slot is free, or the key is new and every entry is live; with at least as many entries as slots, if and only if no slot is free, so the last line is unreachable. |
| `KvRefinement.SizeOfContents` | examples/kv_store.h:140-141 | The number of keys is used_slots_, and with the free slots it makes up all slots. |
| `KvRefinement.InitialRepresents` | examples/kv_store.h:70-87 | The store as initialised satisfies the invariant and represents the empty map. |
| `KvRefinement.InsertKeepsInv` | examples/kv_store.h:124-143 | An insertion keeps free and used slots a partition, the counters exact, keys distinct and every live key reachable. |
| `KvRefinement.OverwriteKeepsInv` | examples/kv_store.h:107-115 | So does an update in place. |
| `KvRefinement.InsertRepresents` | examples/kv_store.h:124-143 | An insertion adds the key with its bytes and leaves the bytes of all other keys alone. |
| `KvRefinement.OverwriteRepresents` | examples/kv_store.h:107-115 | An update replaces the bytes of its key and leaves those of all other keys alone. |
| `KvRefinement.OtherSlotsKeepTheirBytes` | examples/kv_store.h:130-131 | A value that fits its slot leaves the bytes of every other slot alone. |
| `KvScatter.PutSglIsPut` | examples/kv_store.h:154-218 | For segments of less than 2^32 bytes in all, whose total fits a slot: PutSGL leaves the same store and status as Put of the concatenation on every path, and any other total is refused without change. |
| `KvScatter.PutSglIsPutIff` | examples/kv_store.h:154-218 | For any segments: it does so if and only if the 32-bit sum, where the request is accepted, is the true sum. |
| `KvScatter.TrueTotalIsPut` | examples/kv_store.h:174-217 | With the true total, insert, update and refusal leave what one Put leaves. |
| `KvScatter.WrappedSumIsAccepted` | examples/kv_store.h:160-167 | Segments 2^32 bytes longer than the request says pass every check. |
| `KvScatter.CopyIsOneWrite` | examples/kv_store.h:208-214 | Copying segment after segment is one copy of the concatenation. |
| `KvScatter.WrappedIsRemainder` | examples/kv_store.h:160-164 | The sum the request is checked against is the true total modulo 2^32. |
| `PowerOfTwo.NextPowerOfTwo` | examples/kv_store.h:310-320 | The least power of two that is at least n for every n up to 2^63 (1 for 0), and 0 above it. |
| `PowerOfTwo.Smear` | examples/kv_store.h:313-318 | Each of the six shifts doubles the run of ones at the top until it covers all bits. |
| `PowerOfTwo.AllOnesNext` | examples/kv_store.h:319 | All ones plus one is the least power of two, or wraps to 0. |
| `KvStore.KVStore.Initialize` | examples/kv_store.h:47-90 | Fails exactly when the storage does not hold one slot; otherwise the new store represents the empty map, its table size is the least power of two asked for, and an auto-sized table is never smaller than the number of slots. |
| `KvStore.KVStore.FindEntry` | examples/kv_store.h:287-302 | The loop returns what the specification of the probe sequence finds. |
| `KvStore.KVStore.FindRoom` | examples/kv_store.h:118-146 | The loop returns the first probed entry that is empty or deleted. |
| `KvStore.KVStore.Put` | examples/kv_store.h:95-150 | Table, free stack, byte pool, counters and status are those of the value model, whose size check is pinned by KvRefinement.PutIsInvalidIff. |
| `KvStore.KVStore.PutSGL` | examples/kv_store.h:154-218 | Table, free stack, byte pool, counters and status are those of the value model, whose size check is pinned by KvRuns.PutSglIsInvalidIff. |
| `KvStore.KVStore.Get` | examples/kv_store.h:223-239 | Status and bytes are those of the value model; nothing changes. |
| `KvStore.KVStore.GetInfo` | examples/kv_store.h:242-249 | The size, or its absence, is that of the value model; nothing changes. |
| `CreditProtocol.CreditsAreConserved` | include/rdma/transport/flow_control.h:37-66 | In every run of two peers, unspent credits, data in flight, pending credits and credits in flight add up to the receive depth in each direction, so never more than that many messages are unreceived. |
| `CreditProtocol.StepKeepsInv` | include/rdma/transport/flow_control.h:37-66 | Each send, piggyback, update, receive and threshold change of either end keeps that sum, and no 32-bit counter wraps. |
| `CreditProtocol.StarvedSenderIsServedIff` | include/rdma/transport/flow_control.h:54-56 | With no credits and nothing in flight, all credits are pending at the other end, which will return them if and only if its threshold is within the sender's depth. |
| `CreditProtocol.UpdateServes` | include/rdma/transport/flow_control.h:59-66 | With nothing in flight, one update and its arrival give the sender its whole depth back. |
| `CreditProtocol.SenderRecovers` | include/rdma/transport/flow_control.h:54-66 | From every reachable state there is a way, by deliveries and at most one lazy update, to give the sender credits again, if that threshold is within its depth. |
| `CreditProtocol.PeersNeverDeadlock` | include/rdma/transport/flow_control.h:83-94 | After any run of peers that keep their thresholds within the depth of the other end, either end can get credits again by deliveries and lazy updates of the other alone. |
| `CreditLiveness.AdaptivePeersNeverDeadlock` | src/transport/flow_control.cpp:36-57 | With adaptive thresholds: after any run in which the thresholds move as any receive rates make them, neither end deadlocks, if the largest threshold each can come to is within the depth of the other. |
| `CreditLiveness.StaysBelowCeiling` | src/transport/flow_control.cpp:54-56 | Whatever the rate samples, the threshold never exceeds that of the largest ratio configured. |
| `CreditLiveness.FractionsAreSafe` | src/transport/flow_control.cpp:54-56 | With ratios of at most 1 that is within the own receive depth, and so within that of a peer of equal depth. |
| `CreditProtocol.EitherSideRecovers` | include/rdma/transport/flow_control.h:54-66 | The same from every state the invariant describes, for the end whose peer has its threshold within that end's depth. |
| `CreditProtocol.MirroredRun` | include/rdma/transport/flow_control.h:32-66 | The protocol does not tell its ends apart: a run with the ends exchanged gives the exchanged state. |
| `CreditProtocol.DifferentDepthsCanStarve` | include/rdma/transport/flow_control.h:83-94 | With a threshold above the sender's depth, a sender that spends its credits has none in any later state of any run in which the other end neither piggybacks credits nor lowers its threshold to that depth. |
| `CreditProtocol.StarvedForever` | include/rdma/transport/flow_control.h:53-66 | The same from every state without credits, pending credits on their way, or a threshold within the depth, whatever else is sent, delivered or updated. |
| `CreditProtocol.PiggybackServes` | include/rdma/transport/flow_control.h:58-66 | One piggybacking message, even without data, gives such a sender its whole depth back. |
| `CreditProtocol.DeliveriesArrive` | include/rdma/transport/flow_control.h:45-46 | Everything in flight can be delivered, and then nothing is in flight. |
| `AdaptiveThreshold.TargetInRange` | src/transport/flow_control.cpp:36-52 | The interpolated target lies in the configured interval for every rate. |
| `AdaptiveThreshold.TargetIsMonotone` | src/transport/flow_control.cpp:39-51 | A higher rate never asks for a lower ratio. |
| `AdaptiveThreshold.TargetIsTheLine` | src/transport/flow_control.cpp:39-51 | Inside the rate interval (target - min) * (high - low) = (rate - low) * (max - min); from the high rate on the target is max, and up to the low rate, below the high one, min. |
| `AdaptiveThreshold.RateIsMessagesPerSecond` | src/transport/flow_control.cpp:26 | A rate sample is the messages times 1000, in 32 bits, over the elapsed milliseconds; below 4294968 messages nothing wraps. |
| `AdaptiveThreshold.FullWindowGivesOneSample` | src/transport/flow_control.cpp:15-34 | From an empty window, window_size completions give exactly one sample, at the last of them, of all their messages over the time since the last sample, and leave the window empty. |
| `AdaptiveThreshold.NoSampleWithoutTime` | src/transport/flow_control.cpp:19-33 | A window that fills in no time starts again without a sample, and outside adaptive mode nothing is counted. |
| `AdaptiveThreshold.RatioStaysInHull` | src/transport/flow_control.cpp:54-55 | Over any sequence of rate samples the ratio stays in the hull of that interval and its start value. |
| `AdaptiveThreshold.ThresholdWithinDepthIff` | src/transport/flow_control.cpp:56 | The threshold is within the receive depth if and only if the product is less than the depth plus one. |
| `AdaptiveThreshold.ThresholdIsTheShare` | src/transport/flow_control.cpp:56 | The threshold is the product of depth and ratio, less a fraction below one. |
| `AdaptiveThreshold.ThresholdStaysWithinDepth` | src/transport/flow_control.cpp:54-56 | With ratios of at most 1, the lazy threshold is within the receive depth after any samples. |
| `AdaptiveThreshold.ConstantRateConverges` | src/transport/flow_control.cpp:54-55 | Under a constant rate the distance to the target after n samples is 0.8^n of what it was. |
| `FlowControl.FlowControl.constructor` | src/transport/flow_control.cpp:5-13 | A new end has all its credits, none pending, and the configured threshold. |
| `FlowControl.FlowControl.TryConsume` | include/rdma/transport/flow_control.h:37-42 | Succeeds exactly when count <= send_credits, and then takes exactly that many. |
| `FlowControl.FlowControl.OnRecvCompleted` | include/rdma/transport/flow_control.h:45-51 | Adds to the pending credits; in adaptive mode a full window with time elapsed becomes one rate sample for the ratio, and the window starts again. |
| `FlowControl.FlowControl.UpdateRateStatistics` | src/transport/flow_control.cpp:15-34 | A full window gives one sample, computed in 32 bits, if time has passed, and starts again either way; otherwise it only counts. |
| `FlowControl.FlowControl.AdjustThreshold` | src/transport/flow_control.cpp:36-57 | One step of the ratio towards the target of the estimated rate, with the threshold that belongs to it; what the target has to be is AdaptiveThreshold.TargetIsTheLine. |
| `FlowControl.FlowControl.ShouldUpdateCredit` | include/rdma/transport/flow_control.h:54-56 | True exactly when the pending credits have reached the threshold. |
| `FlowControl.FlowControl.GetPiggybackCredits` | include/rdma/transport/flow_control.h:59-61 | Hands over all pending credits and leaves none. |
| `FlowControl.FlowControl.AddCredits` | include/rdma/transport/flow_control.h:64-66 | Adds returned credits and changes nothing else. |
| `FlowControl.FlowControl.Reset` | include/rdma/transport/flow_control.h:83-94 | Leaves the same state as a new end with that configuration. |
| `BufferRing.RunsKeepBooks` | include/rdma/memory/buffer_pool.h:47-77 | In every run from any state in which the free offsets and those handed out are a permutation of 0, s, ..., (N-1)s, and the tail is inside the ring once something is out, they stay one, so no buffer is handed out twice. |
| `BufferRing.NewPoolsKeepBooks` | src/memory/buffer_pool.cpp:70-78 | In particular for a last-in pool as created, and for either policy from a tail reduced modulo N. |
| `BufferRing.FirstFreeInBoundsIff` | src/memory/buffer_pool.cpp:75-78 | The first free after any allocations from a pool as created writes inside the ring if and only if the policy is last-in; under first-in it writes at index N. |
| `BufferRing.AllocateTakes` | include/rdma/memory/buffer_pool.h:47-65 | First-in takes the oldest free offset, last-in the newest, and the others keep their order. |
| `BufferRing.FreeAppends` | include/rdma/memory/buffer_pool.h:69-73 | A free with the tail inside the ring makes its offset the newest free one. |
| `BufferRing.AllocateKeepsBooks` | include/rdma/memory/buffer_pool.h:47-65 | What is handed out belongs to the pool and was not out. |
| `BufferRing.FreeKeepsBooks` | include/rdma/memory/buffer_pool.h:69-73 | What is given back is free again and no longer out. |
| `BufferRing.StepKeepsBooks` | include/rdma/memory/buffer_pool.h:47-77 | Either operation keeps the books, and the tail inside the ring once something is out. |
| `BufferRing.CreatedBooks` | src/memory/buffer_pool.cpp:70-78 | A new pool offers every offset once, with the tail as created or reduced. |
| `LocalBufferPool.LocalBufferPool.constructor` | src/memory/buffer_pool.cpp:70-78 | The fill loop gives the ring, tail past the end included, that the value model starts from. |
| `LocalBufferPool.LocalBufferPool.Create` | src/memory/buffer_pool.cpp:16-78 | Refuses too many buffers first and empty configurations next, and otherwise returns a new full pool. |
| `LocalBufferPool.LocalBufferPool.Allocate` | include/rdma/memory/buffer_pool.h:47-65 | Ring, pointers, count and offset are those of the value model; nothing is handed out when none is left. |
| `LocalBufferPool.LocalBufferPool.Free` | include/rdma/memory/buffer_pool.h:69-77 | Ring, pointers and count are those of the value model. |
| `SendQueue.FragmentsAreFaithful` | src/core/queue_pair.cpp:376-396 | If every post is taken, for limits from 1 to 16, the loop posts ceil(n / max_send_sge) fragments whose entries in order are the scatter list, none over the limit, with successive fragment ids, and none but the last signalled. |
| `SendQueue.FragmentIdsDifferIff` | src/core/queue_pair.cpp:385-386 | Two fragment ids are equal if and only if their indices agree modulo 256, and the generation and the low 24 bits of the base can be read back from each. |
| `SendQueue.FragmentNamesSlotIff` | src/core/queue_pair.cpp:385-386 | A fragment id decodes to the slot it was sent for if and only if its index is a multiple of 256. |
| `SendQueue.OutstandingIsBounded` | include/rdma/core/queue_pair.h:58-60 | With one signalled completion for each signalled request taken, outstanding_signaled_ equals those in flight plus those refused after being counted, and never exceeds half the completion queue, in every run. |
| `SendQueue.RefusedPostsStopSignaling` | include/rdma/core/queue_pair.h:107-117 | Requests refused after they were counted are never taken off: once they fill half the completion queue no request is signalled in any later state; before that, draining makes signalling possible again. |
| `SendQueue.RefusalsCanStopSignaling` | include/rdma/core/queue_pair.h:107-117 | A new queue gets there: after half a completion queue of intervals of refused requests, no request is signalled in any later state of any run. |
| `SendQueue.RefusalsAddUp` | include/rdma/core/queue_pair.h:107-117 | While every request is refused, one in each signal_interval is counted and stays counted. |
| `SendQueue.SignalsComeInTime` | include/rdma/core/queue_pair.h:107-117 | In every run of posts and completions without backpressure, every signal_interval-th request is signalled and no other. |
| `SendPaths.SendIsFaithful` | src/core/queue_pair.cpp:367-397 | On either path, if every post is taken, for limits from 1 to 16 the entries of what is added to the wire are the scatter list in order, in ceil(n / max_send_sge) requests, or one for a list within the limit; none but the last is signalled, and the last one is exactly when its turn has come. |
| `SendPaths.FastPathPostsOne` | src/core/queue_pair.cpp:371-374 | A list within the limit is one request with the base id, the whole list and the signal the interval count asks for; it is posted unless it has more than 16 entries or is refused, and the result says which. |
| `SendPaths.SendStopsAtRefusal` | src/core/queue_pair.cpp:381-396 | Whatever the hardware takes: the posts tried are taken up to the first refusal, which is the last one tried; what was posted before it is a prefix of the list, and the result is true exactly when that is the whole list. |
| `SendPaths.LoopStopsAtRefusal` | src/core/queue_pair.cpp:381-396 | The same for the fragmentation loop from any fragment on. |
| `SendPaths.LastFragmentTakesTheTurn` | src/core/queue_pair.cpp:383-388 | A fragmented send that is taken whole moves the interval count once, and its last fragment is signalled if and only if at least signal_interval requests are over with it and there is room. |
| `SendPaths.TooManyEntriesAreRefused` | src/core/queue_pair.cpp:402-404 | With a limit above 16, a list of more than 16 entries is refused and nothing is posted. |
| `SendPaths.SignalLaw` | include/rdma/core/queue_pair.h:107-117 | After every run, backpressure included: the next request is signalled if and only if, with it, at least signal_interval requests were posted since the last signalled one, and fewer than half a completion queue of signalled requests are in flight or were refused. The requests are counted from the run, not read from the counter; the count is taken below 2^32. |
| `SendPaths.CounterIsSinceSignal` | include/rdma/core/queue_pair.h:107-117 | In every run unsignaled_count_ is the number of requests posted since the last signalled one; a request that backpressure left unsignalled is still counted. |
| `QueuePair.QueuePair.ShouldSignal` | include/rdma/core/queue_pair.h:107-117 | Answer and counters are those of the value model, backpressure included; what they have to be is SendPaths.SignalLaw. |
| `QueuePair.QueuePair.OnSendComplete` | include/rdma/core/queue_pair.h:82-86 | A signalled completion takes one off, modulo 2^32. |
| `QueuePair.QueuePair.DoPostSendSGL` | src/core/queue_pair.cpp:399-425 | Refuses more than 16 entries without a post; otherwise posts exactly the request it was given. |
| `QueuePair.QueuePair.PostSendSGL` | src/core/queue_pair.cpp:367-397 | The loop terminates for every positive max_send_sge and leaves the posts, counters and result of the recursive specification, also when a post in the middle is refused; what those have to be is SendPaths.SendIsFaithful and SendPaths.SendStopsAtRefusal. |

## Left out

- Device, protection-domain, memory-region, completion-queue and queue-pair set-up, the TCP handshake, hugepage and NUMA allocation, logging and status texts: they call libraries whose code is not part of this model. Whether a post is taken is a parameter.
- RpcEndpoint.RpcEndpoint.OnSendComplete: asks for a slot index inside the pool, because the source indexes its arrays with it unchecked.
- RpcEndpoint.RpcEndpoint.Complete: asks that the free stack has room for what it frees, because the source writes past the array otherwise; `RpcEndpoint.StackFits` shows that safe runs meet it.
- RpcEndpoint.RpcEndpoint.Post: asks that the free stack is not full, which only a stale token can make it while a slot is out.
- RpcEndpoint.RpcEndpoint.ExpireOne: asks for room on the free stack, as Complete does.
- RpcEndpoint.RpcEndpoint.CheckTimeouts: asks for room on the free stack for what the list frees, as Complete does.
- RpcEndpoint.RpcEndpoint.PollTimeouts: asks for room on the free stack for what the tick frees, as Complete does.
- RpcEndpoint.RpcEndpoint.OnWriteWithImmRecv: asks for room on the free stack, as Complete does, and does not model reposting a receive buffer, nor the byte order of the immediate (the sender swaps it twice in one path).
- RpcDeadlines.CompletesInTime: is about endpoints with a wheel of their own; the reactor's own timeout step throws the expired list away, so the handler is driven from the tick.
- Data requests of SendRequestSGL: they carry the bare slot index or a fragment index in its high byte and are not tokens of the slot protocol (`SendQueue.FragmentNamesSlotIff`).
- Callbacks and handlers are recorded, not run: one that calls back into the same object is not modelled.
- The slot word's flag bits other than in-use, the receive buffer and extended slot information: nothing here reads them.
- The entry count of a wheel bucket: nothing reads it.
- HierarchicalWheel.HierarchicalTimingWheel.Turn: takes an entry to be 16 bytes and the pool to start at an address that is a parameter.
- Masks, shifts and bitwise-or of packed fields are written as remainders, quotients and sums; `PowerOfTwo` alone keeps the bits.
- CompletionDispatcher.CompletionDispatcher.Dispatch: models successful completions; a failed one only calls the error handler. The per-way generation counters, which nothing reads, and the prefetching of batches are left out.
- Hardware memory ordering: each atomic operation is one sequentially consistent step.
- SpscRing.SpscRingBuffer.GetSize: is about a quiescent ring; read during an operation of the other side the two loads need not belong together.
- TaskQueue.TaskQueue.Push: is the queue used by one thread; interleavings are in `MpscQueue`.
- KvStore.KVStore.Put: asks that the copy stays inside the pool, because the source writes past it otherwise; a value that runs over into the next slot is modelled.
- KvStore.KVStore.PutSGL: asks that the copy stays inside the pool, also when the 32-bit sum has wrapped.
- KvStore.KVStore.Initialize: asks for sizes whose doubling does not wrap, and does not model allocation failure or the truncation of slot numbers past 2^32.
- The FNV hash is a parameter: no property depends on it. GetValuePtr, which hands out a pointer into the pool, and the load factor, a quotient of two counters, are not modelled.
- FlowControl.FlowControl.AdjustThreshold: ratios are reals, so single-precision rounding is not modelled; negative ratios, whose conversion the source leaves undefined, are excluded.
- Clocks: the milliseconds since the last sample are a parameter.
- LocalBufferPool.LocalBufferPool.Free: asks for a tail inside the ring and takes an offset instead of a pointer; the write outside is `BufferRing.FirstFreeInBoundsIff`.
- QueuePair.QueuePair.PostSendSGL: asks for a positive max_send_sge, because with 0 the source's loop does not end; addresses and lengths of entries are carried along unread.
- The other posts of a queue pair, which fill one work request each from their arguments; the doorbell batcher, which links work requests into a list; connection ids and state names; reactor polling, batch sizing and backoff; the example clients and servers, whose buffer bookkeeping lives outside these classes.
