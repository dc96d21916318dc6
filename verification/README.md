# A verified model of a small TypeScript utility library

This project models five pieces of the library:

- **`TaskQueue`**: a keyed, deduplicating task scheduler with a concurrency limit. It has a root queue and child queues, and all of them share one set of counters.
- **`ArrayQueue`**: the two-array FIFO queue that the scheduler uses for its pending tasks.
- **The query-string helpers** `objToUrlParamString`, `extendUrl` and `getUrlParamsMap`.
- **The array helper `unique`.**
- **The object helper `cleanObj`.**

Everything is modelled with immutable datatypes and pure functions, as follows.

- **`ArrayQueue`** (`array_queue.dfy`):
  - A queue is a pair `(list, rev)` of sequences. Its meaning is `Contents(q) = Reverse(rev) + list`, which is also the order in which the iterator yields items.
  - Every operation is stated in terms of `Contents`.
  - `Run` replays any interleaving of `enqueue`/`dequeue`.
- **`TaskQueue`** (`task_queue.dfy`, `task_queue_proofs.dfy`) is a sequential state machine.
  - A `Tree` is the root node (index 0) followed by its direct children in registration order, plus the counters the root owns:
    - `activeTasks`, `parallelism`, `isScheduling`, `needProcessing`;
    - `pending`, the number of posted `root._schedule` passes.
  - Each node has:
    - its name;
    - an `ArrayQueue` of the keys of its queued tasks;
    - the key → entity table `_tasks`;
    - the `stopped` flag.
  - The events are:
    - adding a child;
    - `add`;
    - the event loop running a posted pass (`_schedule`);
    - the processor calling back for a PROCESSING task;
    - `stop`;
    - `increaseParallelism` and `decreaseParallelism`.
  - The processor is an oracle `reply(node, key)`. It answers either `Later`, meaning it calls back in a later event, or `Now(err, result)`, meaning it calls back synchronously or throws before calling back.
  - User callbacks are identities. Invoking them is recorded as a sequence of `Delivery` values, in order.
  - `Inv` is the invariant of every reachable tree, and `Forward` says that task states only move forward.
- **The query-string helpers** (`url.dfy`):
  - They are modelled over strings, with `encodeURIComponent`/`decodeURIComponent` passed in as a `Codec`.
  - The decoder may fail: it returns `None`, which stands for a thrown `URIError`.
  - The round trip is proved under the inverse law for the codec (section 2.1 of RFC 3986). The query is taken to start at the first `?`, as in section 3.4 of RFC 3986.
- **`unique`** (`array_unique.dfy`):
  - The key may be absent, a property name, or a key function.
  - JavaScript truthiness and property reads are passed in as a `Js` record.
  - The result is related to a back-recursive reference: "keep an item iff it is truthy and it is the first item with its key".
- **`cleanObj`** (`object_clean.dfy`):
  - An object is an ordered list of own properties over a small JavaScript value datatype.
  - The result is related to a plain filter, `Keep`.

`wrappers.dfy` holds `Option`/`Result`, and `sequences.dfy` holds the subsequence predicate that several files share.

## Model

| member | source | states |
|---|---|---|
| ArrayQueue.FromItems | dataStructure/ArrayQueue.ts:13-16 | a queue built from `items` holds exactly `items`, front first |
| ArrayQueue.Length | dataStructure/ArrayQueue.ts:27-29 | `length` (the sum of the two array lengths) is the number of items in the queue |
| ArrayQueue.Clear | dataStructure/ArrayQueue.ts:31-34 | after `clear` the queue holds nothing and has length 0 |
| ArrayQueue.Enqueue | dataStructure/ArrayQueue.ts:36-38 | `enqueue(x)` appends `x` at the back of the queue and adds one to its length |
| ArrayQueue.Dequeue | dataStructure/ArrayQueue.ts:40-52 | on an empty queue: returns nothing and leaves the queue as it was; otherwise, in every branch (single pop, `shift` below 16, reverse-and-swap, pop of the reversed half): returns the front item and leaves exactly the rest |
| ArrayQueue.IndexOf | dataStructure/ArrayQueue.ts:18-25 | `_indexOf` gives the first position whose item matches, or -1 exactly when no item matches |
| ArrayQueue.Delete | dataStructure/ArrayQueue.ts:54-64 | `delete` removes one matching item and keeps the order of the rest. It is the oldest match among the newer half if there is one, else the newest match among the older half. With no match the queue is unchanged |
| ArrayQueue.Iterate | dataStructure/ArrayQueue.ts:66-74 | iteration yields the queue's items front to back |
| ArrayQueue.RunIsFifo | dataStructure/ArrayQueue.ts:4 | for any interleaving of `enqueue`/`dequeue`, the dequeued items followed by what is left are the initial items followed by everything enqueued |
| ArrayQueue.OutputIsPrefixOfInput | dataStructure/ArrayQueue.ts:36-52 | starting from an empty queue, the dequeued items are a prefix of the enqueued items, in enqueue order |
| TaskQueue.NewTree | dataStructure/TaskQueue.ts:87-99 | a new queue is a root that is not stopped, with an empty queue and table, no active task, `needProcessing` and `isScheduling` clear and no pass posted; a missing or zero `parallelism` becomes 1 |
| TaskQueue.NewChild | dataStructure/TaskQueue.ts:95-98 | a child is registered after the existing children, empty and not stopped, and shares the root's counters |
| TaskQueue.Add | dataStructure/TaskQueue.ts:102-152 | on a stopped node: one delivery of the error "<name> task queue was stopped", nothing changes. For a DONE key: the cached `(error, result)` is delivered and nothing changes. For a pending key: the callback joins that entity's waiting list and nothing else changes. For a fresh key: a QUEUED entity is added to the table and to the back of the queue, `needProcessing` and `isScheduling` are set, and a pass is posted only if none was |
| TaskQueue.IncreaseParallelism | dataStructure/TaskQueue.ts:156-163 | the limit goes up by one; a pass is posted exactly when work is needed and none is posted |
| TaskQueue.Wake | dataStructure/TaskQueue.ts:253-256 | `isScheduling` becomes set when work is needed; a pass is posted exactly when it was not already scheduling and work is needed |
| TaskQueue.FanOut | dataStructure/TaskQueue.ts:258-275 | the original callback fires first, then each waiting callback in registration order, each exactly once and all with the same `(err, result)` |
| TaskQueue.HandleResult | dataStructure/TaskQueue.ts:241-276 | a finished task becomes DONE with the outcome cached, `activeTasks` drops by exactly one, a pass is posted if work is needed, and the deliveries are the fan-out |
| TaskQueue.Complete | dataStructure/TaskQueue.ts:225-228 | the processor calling back for a PROCESSING task changes only that entity (to DONE) and the counters, and delivers the fan-out |
| TaskQueue.StopEach | dataStructure/TaskQueue.ts:179-187 | the loop over the detached queue deletes exactly the queued keys from the table, leaves `activeTasks` as it was (+1 then −1 per task) and delivers each task's fan-out with the stopped error, in queue order |
| TaskQueue.Stop | dataStructure/TaskQueue.ts:172-188 | `stop` marks the node stopped and empties its queue. It removes exactly the queued keys from the table and leaves `activeTasks` unchanged. It fails every queued task's callbacks with the stopped error, in FIFO order. Other nodes are untouched |
| TaskQueue.DispatchFront | dataStructure/TaskQueue.ts:193-197 | one dispatch takes the front key off the queue, moves only that task forward, and raises `activeTasks` by at most one, in step with the number of PROCESSING tasks. The task is left PROCESSING if the processor answers later, with no callback fired. It is left DONE with the outcome if the processor answers at once, and then exactly its fan-out fires |
| TaskQueue.Drain | dataStructure/TaskQueue.ts:192-198 | the dispatch loop of one node hands out a prefix of its queue in FIFO order, exactly the rest stays queued, it dispatches only below the limit and stops early only at the limit, and the node invariant is kept. Each task handed out is left as the processor answered (PROCESSING, or DONE with its outcome), every other task is untouched, and the callbacks fired are, in dispatch order, the fan-outs of the tasks answered at once |
| TaskQueue.DrainChildren | dataStructure/TaskQueue.ts:203-214 | the sweep over the children from child `i` dispatches the removed queue prefixes in registration order, touches nothing after the first child it leaves non-empty, and runs to the end exactly when it leaves every child idle. Each task dispatched is left as the processor answered, and the callbacks fired are, in dispatch order, the fan-outs of the tasks answered at once |
| TaskQueue.Schedule | dataStructure/TaskQueue.ts:190-220 | a pass dispatches the root's queue first, then the children's, each FIFO. It returns at the first node left non-empty and leaves work behind only at the limit. It never exceeds the limit and does not change `parallelism`. It clears `needProcessing` only when every queue is empty and no pass was posted meanwhile |
| TaskQueue.ScheduleAnswers | dataStructure/TaskQueue.ts:190-233 | every task a pass hands to the processor is left PROCESSING if the processor answers later, or DONE with its outcome if it answers at once (calling back or throwing). The callbacks the pass fires are, in dispatch order, the fan-outs of the tasks answered at once, original callback first |
| TaskQueue.Settle | dataStructure/TaskQueue.ts:216-219 | `needProcessing` is cleared exactly when the sweep ran to the end and no pass was posted meanwhile; nothing else changes |
| TaskQueue.Next | dataStructure/TaskQueue.ts:102-276 | an event has a successor exactly when it is enabled (the node exists, a pass is posted, the task is PROCESSING), and no event removes a node |
| TaskQueueProofs.InitInv | dataStructure/TaskQueue.ts:87-99 | a new queue satisfies the scheduler invariant |
| TaskQueueProofs.NextInv | dataStructure/TaskQueue.ts:102-276 | every enabled event keeps the invariant: each queued key is a QUEUED entity of its node, `activeTasks` counts the PROCESSING tasks, queued work implies `needProcessing` and either a posted pass or a full limit, and at most one pass is posted |
| TaskQueueProofs.NextForward | dataStructure/TaskQueue.ts:13-17 | no event moves a task backwards: a task goes QUEUED → PROCESSING → DONE, a DONE task keeps its cached outcome, waiting callbacks are only appended, and a task leaves the table only when its node is stopped while it is QUEUED |
| TaskQueueProofs.RunKeepsInv | dataStructure/TaskQueue.ts:102-276 | any sequence of events keeps the invariant and only moves tasks forward |
| TaskQueueProofs.NextWithinLimit | dataStructure/TaskQueue.ts:192 | unless `decreaseParallelism` is called, the number of PROCESSING tasks never exceeds `parallelism` |
| TaskQueueProofs.IncreaseThenDecrease | dataStructure/TaskQueue.ts:156-170 | `increaseParallelism` then `decreaseParallelism` restores the limit, the nodes and the active count; the only other effect is that a pass may have been posted |
| TaskQueueProofs.RunPassDispatches | dataStructure/TaskQueue.ts:193-196 | every task a pass hands to a processor was QUEUED in its node and is no longer QUEUED afterwards |
| Url.Split | utils/url.ts:17 | `split` always yields at least one part and no part contains the separator |
| Url.SplitJoin | utils/url.ts:5 | joining the parts of a split restores the string |
| Url.JoinSplit | utils/url.ts:17 | splitting a join of separator-free parts restores the parts |
| Url.Items | utils/url.ts:2-6 | there is one `key=enc(value)` item per parameter, in key order, and the key is not encoded |
| Url.ParamString | utils/url.ts:2-6 | no parameters give the empty string |
| Url.ParamStringItems | utils/url.ts:2-6 | when the codec escapes `&`, `?` and `=` and keys contain none of them, splitting the parameter string at `&` gives back exactly the items |
| Url.ExtendedQuery | utils/url.ts:9-12 | for a base URL without `?`, the query part of the extended URL is exactly the parameter string |
| Url.ExtendUrl | utils/url.ts:9-12 | the connector is `&` iff the URL already contains `?`, else `?`; the original URL is a prefix of the result |
| Url.Collect | utils/url.ts:23-26 | the `forEach` throws exactly when some item's value fails to decode; otherwise no earlier key other than `__proto__` is lost |
| Url.CollectIsOverlay | utils/url.ts:23-26 | when every value decodes, the result is the items' `(key, decoded value)` pairs laid over the map in order, a later duplicate key overwriting an earlier one |
| Url.NoQueryIsEmpty | utils/url.ts:19-21 | with no `?`, or nothing after the first `?`, the map is empty |
| Url.OnlyFirstQuery | utils/url.ts:17 | text after a second `?` is ignored |
| Url.RoundTrip | utils/url.ts:2-29 | for a base URL without `?`, distinct keys free of `?&=`, and a codec whose decode inverts encode, `getUrlParamsMap(extendUrl(base, params))` has exactly the keys of `params`, each with its value |
| ArrayUnique.ReadKeys | dataHandler/array.ts:15 | reading the keys throws exactly when some item's key read fails; otherwise each item is paired with its key (`item[key]` or `key(item)`) |
| ArrayUnique.DedupIsFirstWithKey | dataHandler/array.ts:18-27 | the one-pass `map`/`filter` equals the reference: an item is kept iff it is truthy and no earlier item has its key (a falsy first item still marks its key) |
| ArrayUnique.DedupShape | dataHandler/array.ts:18-27 | the kept pairs are a subsequence of the input, each kept item is truthy with an unseen key, and no two kept items share a key |
| ArrayUnique.Unique | dataHandler/array.ts:11 | a null/undefined array is returned unchanged, and a result is never longer than its input |
| ArrayUnique.ByValue | dataHandler/array.ts:12 | without a key, the result is the first occurrence of each distinct value in input order, falsy values included: a subsequence with the same elements and no repeats |
| ArrayUnique.ByKey | dataHandler/array.ts:14-27 | for the corrected `unique` (the seen-set starts empty): with a key, the result throws exactly when a key read throws. Otherwise the result is the reference filter: a subsequence of truthy items with pairwise distinct keys |
| ArrayUnique.Idempotent | dataHandler/array.ts:7-30 | for the corrected `unique`: `unique(unique(a, k), k) = unique(a, k)` |
| ArrayUnique.AsWrittenShape | dataHandler/array.ts:11-27 | `unique` as written: without a key it equals the corrected function. With a key it throws exactly when a key read throws. Otherwise it keeps, in order, exactly the truthy items whose key is neither an `Object.prototype` name nor the key of an earlier item: a subsequence of truthy items with pairwise distinct keys |
| ArrayUnique.AsWrittenIdempotent | dataHandler/array.ts:7-30 | as written, too, `unique(unique(a, k), k) = unique(a, k)` |
| ArrayUnique.AsWrittenAgrees | dataHandler/array.ts:17-24 | when no item's key is an `Object.prototype` name, `unique` as written returns exactly what the corrected `unique` returns |
| ArrayUnique.AsWrittenDropsProtoNames | dataHandler/array.ts:17-24 | as written, no item whose key is an `Object.prototype` name (`constructor`, `toString`, `__proto__`, ...) is ever kept |
| ArrayUnique.ConstructorKeyCounterexample | dataHandler/array.ts:17-24 | as written, `unique(["constructor"], x => x)` is `[]`, while the corrected function keeps `"constructor"` |
| ArrayUnique.AgreeWithoutProtoNames | dataHandler/array.ts:17-24 | when no key is an `Object.prototype` name, the code as written and the corrected function agree |
| ObjectClean.Assign | dataHandler/object.ts:26 | `acc[key] = value` replaces an existing property in place or adds a new one last; assigning `__proto__` adds no own property |
| ObjectClean.CleanIsKeep | dataHandler/object.ts:7-29 | `cleanObj` is the filter over the entries: the kept properties are a subsequence of the input in the same order with the same values, and names stay distinct |
| ObjectClean.CleanKeeps | dataHandler/object.ts:10-24 | a property survives iff its value is not `undefined`, not `[]` and not a plain object without own keys (and its name is not `__proto__`) |
| ObjectClean.KeptValues | dataHandler/object.ts:19-21 | `null`, booleans, numbers, strings, non-empty arrays, empty non-plain objects and every object with own properties (whatever those hold: pruning is shallow) are kept |
| ObjectClean.CleanIdempotent | dataHandler/object.ts:7-29 | `cleanObj(cleanObj(o)) = cleanObj(o)` |

## Left out

- **Timing.** `setImmediate`, `process.nextTick` and the shared stack-depth counter `currentStackNum` (TaskQueue.ts:63-65, 115-122, 258-275) only choose whether a callback runs now or in a later tick, never whether it runs. A posted pass is the `pending` count together with `isScheduling`. Deliveries are recorded in the order they are made.
- **Re-entrancy.** A user callback or processor that calls back into the queue while a pass or a fan-out is in progress is not modelled. Such calls are separate, later events.
- **Processor errors.** A processor that throws after it has called back re-throws (TaskQueue.ts:230), and the model leaves this out. A processor that calls back twice is also left out: completion is only enabled for a PROCESSING task.
- TaskQueue.FanOut, TaskQueue.HandleResult, TaskQueue.StopEach, TaskQueue.Stop: these assume that every user callback returns. A callback that throws is left out, and so is a processor that throws from inside a user callback. In the code a throw ends the fan-out early, and the `currentStackNum--` at TaskQueue.ts:275 is skipped. In `stop` it also ends the loop: the unvisited tasks stay QUEUED in `_tasks`, although `_queue` has already been replaced. During a pass the effect depends on where the throw happens. A throw from a root task's callbacks, in the root's loop (TaskQueue.ts:192-198), escapes `_schedule` before `_isScheduling = false` (line 199), so `_handleTaskResult` never posts another pass and scheduling halts. A throw from a child task's callbacks, in the children's sweep (lines 203-214), comes after line 199. By then `_handleTaskResult` has already posted a pass (lines 253-256, before the callbacks at 258-275), so scheduling goes on. Only the `needProcessing` update at lines 217-219 is skipped.
- **Tree depth.** Trees deeper than a root and its direct children are left out. A grandchild's `_root` is its parent, not the top node (TaskQueue.ts:97), so such trees do not share one schedule.
- **Unreachable code.** TaskQueue.ts:131-139 is unreachable, because `stopped` was checked at line 103 and no user code runs in between.
- **Cleared callback fields.** A DONE entity keeps its callback fields in the model. The code clears them (TaskQueue.ts:248-249), but they are never read again.
- TaskQueue.NewTree: `parallelism` is an integer. In the code it is any JavaScript number (TaskQueue.ts:58, 90), and dispatch tests `_activeTasks < _parallelism` (lines 192, 205). A fractional limit `p` therefore lets ⌈p⌉ tasks run at once, and `Infinity` lifts the limit. `NextWithinLimit` and the counters' bounds are stated for integer limits only.
- TaskQueue.DecreaseParallelism: its contract only says which counter it changes. Its meaning is given by `IncreaseThenDecrease`. `NextWithinLimit` excludes it, because lowering the limit below the active count is allowed and breaks the bound until tasks finish.
- **`_indexOf` matching.** The two matching rules of `_indexOf` (same `key` field for objects, `===` for primitives) are given as one match predicate `m`, which always answers. With an object probe the code reads `arrItem.key` of every stored item (ArrayQueue.ts:21), which throws when a stored item is null or undefined.
- ArrayQueue.FromItems: the constructor's missing `items` (`items || []`, ArrayQueue.ts:14) is not a separate case. The caller passes the empty sequence instead.
- ArrayQueue.FromItems, ArrayQueue.Enqueue, ArrayQueue.Clear, ArrayQueue.Dequeue: a queue is a value, so sharing with the caller's array is left out. The code keeps the array passed to the constructor itself, not a copy (ArrayQueue.ts:14). `enqueue` pushes onto that array (line 37), `clear` truncates it (lines 32-33), and `dequeue` pops or shifts it (lines 43, 45), or reverses it in place and takes it over as its reversed half (lines 46-47). The caller's own later changes to it also change the queue. The scheduler never passes `items`, so it is not affected.
- **Percent-encoding.** The tables of `encodeURIComponent`/`decodeURIComponent` are a `Codec` parameter. The round trip assumes that decoding inverts encoding and that encoding escapes `&`, `?` and `=`.
- Url.Items, Url.ParamString, Url.ExtendUrl: the model's `encode` is total. `encodeURIComponent` throws a `URIError` on a string holding a lone surrogate (url.ts:4), so `objToUrlParamString` and `extendUrl` can throw. A Dafny `string` holds only Unicode scalar values and cannot express such a string.
- **URL parameter values.** Non-string values are left out; they go through JavaScript string conversion. `Object.keys` order is taken as given by the caller.
- **Set equality.** `new Set` compares values with SameValueZero, and the model uses Dafny equality instead. Numbers in `cleanObj` values are integers.
- **Prototype assignment.** In `getUrlParamsMap` the value assigned to `__proto__` is always a string (the decoded value), and the `__proto__` setter ignores non-objects, so nothing changes. In `cleanObj`, assigning an object value to `__proto__` changes the result's prototype rather than adding an own property. In both, the model records only that no own property is added.
- Url.ExtendUrl: its first clause spells out the concatenation. The query-part behaviour is stated by `ExtendedQuery` and `RoundTrip`.
- **Other helpers.** utils/func.ts, utils/dom.ts and utils/asyncSleep.ts are not part of this model. They cover JSON and number parsing, DOM script injection and timers.

## Findings

| source | as written | input that shows it | evidently intended | confidence | as-written member | corrected member |
|---|---|---|---|---|---|---|
| dataHandler/array.ts:17-24 | the seen-set is a plain object `{}`, so `obj[value]` finds the names inherited from `Object.prototype` and every item whose key is `constructor`, `toString`, `__proto__`, `hasOwnProperty`, ... counts as already seen and is dropped | `unique(["constructor"], x => x)` returns `[]` | keep the first item with each key, whatever the key's name | not executed | ArrayUnique.UniqueAsWritten | ArrayUnique.Unique |
