/**
 The task scheduler of dataStructure/TaskQueue.ts as a sequential state machine.

 A tree is a root node plus its direct children (`nodes[0]` is the root,
 `nodes[1..]` the children in registration order). Every node owns a FIFO of
 pending task keys and a key -> entity table; the root owns the counters that
 the whole tree shares. Each caller-visible operation is a pure function from
 the tree to the next tree and the callbacks it invoked. A pending
 `setImmediate(root._schedule)` is counted in `Counters.pending`; the
 processor's completion is a separate event.
 */
module TaskQueue {
  import opened Wrappers
  import AQ = ArrayQueue
  import Sequences

  /** A callback supplied to `add`, known to the model only by its identity. */
  type CallbackId = nat

  /** `TaskError`: every error the scheduler reports or relays carries a message. */
  datatype TaskError = TaskError(message: string)

  /** The message of the error reported by a stopped node. */
  function StoppedError(name: string): TaskError
  {
    TaskError(name + " task queue was stopped")
  }

  /** `ITASKSTATE`; a finished task keeps its `(error, result)` in its state. */
  datatype TaskState<R> = Queued | Processing | Done(err: Option<TaskError>, result: Option<R>)

  /** The numeric value of the source's enum: QUEUED = 0, PROCESSING = 1, DONE = 2. */
  function Rank<R>(s: TaskState<R>): nat
  {
    match s
    case Queued => 0
    case Processing => 1
    case Done(_, _) => 2
  }

  /** `TaskEntity`: the original callback plus the callbacks of later `add`s with the same key. */
  datatype Entity<P, R> = Entity(key: string, payload: P, state: TaskState<R>, callback: CallbackId, waiting: seq<CallbackId>)

  /** One invocation `callback(err, result)`. */
  datatype Delivery<R> = Delivery(callback: CallbackId, err: Option<TaskError>, result: Option<R>)

  /** One invocation of the processor on the task `key` of node `node`. */
  datatype Dispatch = Dispatch(node: nat, key: string)

  /** What the processor does when it is handed a task: call back later, or
      finish before returning (it called back synchronously, or threw before
      calling back, in which case `err` is the thrown error and `result` null). */
  datatype Reply<R> = Later | Now(err: Option<TaskError>, result: Option<R>)

  /** A `TaskQueue` instance: its own queue, table and stopped flag. */
  datatype Node<P, R> = Node(name: string, queue: AQ.Queue<string>, tasks: map<string, Entity<P, R>>, stopped: bool)

  /** The root's shared fields `_activeTasks`, `_parallelism`, `_isScheduling`,
      `_needProcessing`, and the number of `root._schedule` runs waiting in the event loop. */
  datatype Counters = Counters(active: int, parallelism: int, isScheduling: bool, needProcessing: bool, pending: nat)

  datatype Tree<P, R> = Tree(nodes: seq<Node<P, R>>, counters: Counters)

  function Max(a: int, b: int): int
  {
    if a < b then b else a
  }

  function Flag(b: bool): nat
  {
    if b then 1 else 0
  }

  function EmptyNode<P, R>(name: string): (n: Node<P, R>)
    ensures AQ.Contents(n.queue) == [] && n.tasks == map[] && !n.stopped
  {
    Node(name, AQ.FromItems([]), map[], false)
  }

  // ---------------------------------------------------------------------------
  // Invariants of a node and relations between successive states
  // ---------------------------------------------------------------------------

  /** The queue holds exactly the keys of the Queued entities, each once; a stopped node has an empty queue. */
  ghost predicate NodeInv<P, R>(n: Node<P, R>)
  {
    var q := AQ.Contents(n.queue);
    && (forall k :: k in n.tasks ==> n.tasks[k].key == k)
    && (forall j :: 0 <= j < |q| ==> q[j] in n.tasks && n.tasks[q[j]].state.Queued?)
    && (forall j1, j2 :: 0 <= j1 < j2 < |q| ==> q[j1] != q[j2])
    && (forall k :: k in n.tasks && n.tasks[k].state.Queued? ==> k in q)
    && (n.stopped ==> q == [])
  }

  /** The keys whose task is being processed. */
  ghost function ProcKeys<P, R>(n: Node<P, R>): set<string>
  {
    set k | k in n.tasks && n.tasks[k].state.Processing?
  }

  /** The number of tasks in PROCESSING state across the nodes. */
  ghost function ProcCount<P, R>(nodes: seq<Node<P, R>>): nat
  {
    if |nodes| == 0 then 0 else ProcCount(nodes[..|nodes| - 1]) + |ProcKeys(nodes[|nodes| - 1])|
  }

  /** An entity only moves forward: identity kept, state rank never decreases,
      a cached outcome never changes, waiting callbacks are only appended. */
  ghost predicate EntityAdvanced<P, R>(e: Entity<P, R>, e': Entity<P, R>)
  {
    && e'.key == e.key && e'.payload == e.payload && e'.callback == e.callback
    && e.waiting <= e'.waiting
    && Rank(e.state) <= Rank(e'.state)
    && (e.state.Done? ==> e'.state == e.state)
  }

  /** Node `n'` follows `n`: same name, stopped stays stopped, every surviving entity advanced. */
  ghost predicate NodeAdvanced<P, R>(n: Node<P, R>, n': Node<P, R>)
  {
    && n'.name == n.name
    && (n.stopped ==> n'.stopped)
    && forall k :: k in n.tasks && k in n'.tasks ==> EntityAdvanced(n.tasks[k], n'.tasks[k])
  }

  /** Counters `c'` follow `c` within a dispatch loop: the limit and the
      needs-processing flag are untouched, a pass may only become pending, and
      each new pending pass was posted exactly when the flag was raised. */
  ghost predicate CountersStep(c: Counters, c': Counters)
  {
    && c'.parallelism == c.parallelism
    && c'.needProcessing == c.needProcessing
    && (c.isScheduling ==> c'.isScheduling)
    && c'.pending + Flag(c.isScheduling) == c.pending + Flag(c'.isScheduling)
  }

  // ---------------------------------------------------------------------------
  // Completion: `_handleTaskResult`
  // ---------------------------------------------------------------------------

  /** If work is waiting and no pass is pending, post one: the guarded `setImmediate(root._schedule)`. */
  function Wake(c: Counters): (c': Counters)
    ensures c'.isScheduling == (c.isScheduling || c.needProcessing)
    ensures c'.pending == c.pending + (if !c.isScheduling && c.needProcessing then 1 else 0)
    ensures c'.active == c.active && c'.parallelism == c.parallelism && c'.needProcessing == c.needProcessing
  {
    if !c.isScheduling && c.needProcessing then c.(isScheduling := true, pending := c.pending + 1) else c
  }

  /** The callbacks of `e` invoked with one outcome: the original first, then the waiting ones in order. */
  function FanOut<P, R>(e: Entity<P, R>, err: Option<TaskError>, result: Option<R>): (ds: seq<Delivery<R>>)
    ensures |ds| == 1 + |e.waiting|
    ensures ds[0].callback == e.callback
    ensures forall j :: 0 <= j < |e.waiting| ==> ds[j + 1].callback == e.waiting[j]
    ensures forall j :: 0 <= j < |ds| ==> ds[j].err == err && ds[j].result == result
  {
    [Delivery(e.callback, err, result)] + seq(|e.waiting|, j requires 0 <= j < |e.waiting| => Delivery(e.waiting[j], err, result))
  }

  /** `_handleTaskResult`: the task becomes DONE with its outcome cached, the root
      counts one task less, a pass is posted if needed, and every callback fires once. */
  function HandleResult<P, R>(c: Counters, e: Entity<P, R>, err: Option<TaskError>, result: Option<R>)
    : (r: (Entity<P, R>, Counters, seq<Delivery<R>>))
    requires !e.state.Done?
    ensures EntityAdvanced(e, r.0) && r.0.state == Done(err, result) && r.0.waiting == e.waiting
    ensures r.1.active == c.active - 1
    ensures CountersStep(c, r.1) && r.1.isScheduling == (c.isScheduling || c.needProcessing)
    ensures r.2 == FanOut(e, err, result)
  {
    (e.(state := Done(err, result)), Wake(c.(active := c.active - 1)), FanOut(e, err, result))
  }

  /** The state a dispatched task is left in by the processor's answer: still
      PROCESSING until a later callback, or DONE with the outcome reported at once. */
  function Answered<R>(a: Reply<R>): TaskState<R>
  {
    match a
    case Later => Processing
    case Now(err, result) => Done(err, result)
  }

  /** The callbacks of `e` fired by the processor's answer: none until it calls back. */
  function Fired<P, R>(e: Entity<P, R>, a: Reply<R>): seq<Delivery<R>>
  {
    match a
    case Later => []
    case Now(err, result) => FanOut(e, err, result)
  }

  // ---------------------------------------------------------------------------
  // Construction
  // ---------------------------------------------------------------------------

  /** `new TaskQueue({name, parallelism})` without a parent: `parallelism || 1`. */
  function NewTree<P, R>(name: string, parallelism: Option<int>): (t: Tree<P, R>)
    ensures |t.nodes| == 1 && t.nodes[0].name == name
    ensures AQ.Contents(t.nodes[0].queue) == [] && t.nodes[0].tasks == map[] && !t.nodes[0].stopped
    ensures t.counters.active == 0 && !t.counters.isScheduling && !t.counters.needProcessing && t.counters.pending == 0
    ensures t.counters.parallelism == (if parallelism == None || parallelism == Some(0) then 1 else parallelism.value)
  {
    var p := match parallelism
      case Some(v) => if v == 0 then 1 else v
      case None => 1;
    Tree([EmptyNode(name)], Counters(0, p, false, false, 0))
  }

  /** `new TaskQueue({name, parent: root})`: the child is appended to the root's children. */
  function NewChild<P, R>(t: Tree<P, R>, name: string): (t': Tree<P, R>)
    ensures |t'.nodes| == |t.nodes| + 1 && t'.nodes[..|t.nodes|] == t.nodes
    ensures t'.nodes[|t.nodes|].name == name && AQ.Contents(t'.nodes[|t.nodes|].queue) == []
    ensures t'.nodes[|t.nodes|].tasks == map[] && !t'.nodes[|t.nodes|].stopped && t'.counters == t.counters
  {
    Tree(t.nodes + [EmptyNode(name)], t.counters)
  }

  // ---------------------------------------------------------------------------
  // `add`
  // ---------------------------------------------------------------------------

  /** `add(key, payload, callback)` on node `i`. */
  function Add<P, R>(t: Tree<P, R>, i: nat, key: string, payload: P, cb: CallbackId): (r: (Tree<P, R>, seq<Delivery<R>>))
    requires i < |t.nodes|
    ensures var n := t.nodes[i];
            n.stopped ==> r.0 == t && r.1 == [Delivery(cb, Some(StoppedError(n.name)), None)]
    ensures var n := t.nodes[i];
            !n.stopped && key in n.tasks && n.tasks[key].state.Done? ==>
              r.0 == t && r.1 == [Delivery(cb, n.tasks[key].state.err, n.tasks[key].state.result)]
    ensures var n := t.nodes[i];
            !n.stopped && key in n.tasks && !n.tasks[key].state.Done? ==>
              && r.1 == [] && r.0.counters == t.counters && |r.0.nodes| == |t.nodes|
              && (forall j :: 0 <= j < |t.nodes| && j != i ==> r.0.nodes[j] == t.nodes[j])
              && r.0.nodes[i] == n.(tasks := n.tasks[key := n.tasks[key].(waiting := n.tasks[key].waiting + [cb])])
    ensures var n := t.nodes[i];
            !n.stopped && key !in n.tasks ==>
              && r.1 == [] && |r.0.nodes| == |t.nodes|
              && (forall j :: 0 <= j < |t.nodes| && j != i ==> r.0.nodes[j] == t.nodes[j])
              && r.0.nodes[i].tasks == n.tasks[key := Entity(key, payload, Queued, cb, [])]
              && AQ.Contents(r.0.nodes[i].queue) == AQ.Contents(n.queue) + [key]
              && r.0.nodes[i].name == n.name && !r.0.nodes[i].stopped
              && r.0.counters.needProcessing && r.0.counters.isScheduling
              && r.0.counters.pending == t.counters.pending + (if t.counters.isScheduling then 0 else 1)
              && r.0.counters.active == t.counters.active
              && r.0.counters.parallelism == t.counters.parallelism
  {
    var n := t.nodes[i];
    if n.stopped then
      (t, [Delivery(cb, Some(StoppedError(n.name)), None)])
    else if key in n.tasks then
      var e := n.tasks[key];
      if e.state.Done? then
        (t, [Delivery(cb, e.state.err, e.state.result)])
      else
        var n' := n.(tasks := n.tasks[key := e.(waiting := e.waiting + [cb])]);
        (t.(nodes := t.nodes[i := n']), [])
    else
      var n' := n.(tasks := n.tasks[key := Entity(key, payload, Queued, cb, [])],
                   queue := AQ.Enqueue(n.queue, key));
      (Tree(t.nodes[i := n'], Wake(t.counters.(needProcessing := true))), [])
  }

  // ---------------------------------------------------------------------------
  // `increaseParallelism` / `decreaseParallelism`
  // ---------------------------------------------------------------------------

  function IncreaseParallelism<P, R>(t: Tree<P, R>): (t': Tree<P, R>)
    ensures t'.nodes == t.nodes
    ensures t'.counters.parallelism == t.counters.parallelism + 1
    ensures t'.counters.active == t.counters.active && t'.counters.needProcessing == t.counters.needProcessing
    ensures t'.counters.isScheduling == (t.counters.isScheduling || t.counters.needProcessing)
    ensures t'.counters.pending == t.counters.pending + (if t.counters.needProcessing && !t.counters.isScheduling then 1 else 0)
  {
    t.(counters := Wake(t.counters.(parallelism := t.counters.parallelism + 1)))
  }

  function DecreaseParallelism<P, R>(t: Tree<P, R>): (t': Tree<P, R>)
    ensures t'.nodes == t.nodes
    ensures t'.counters == t.counters.(parallelism := t.counters.parallelism - 1)
  {
    t.(counters := t.counters.(parallelism := t.counters.parallelism - 1))
  }

  // ---------------------------------------------------------------------------
  // Completion of a dispatched task
  // ---------------------------------------------------------------------------

  /** The processor of node `i` calls back for the PROCESSING task `key`. */
  function Complete<P, R>(t: Tree<P, R>, i: nat, key: string, err: Option<TaskError>, result: Option<R>)
    : (r: (Tree<P, R>, seq<Delivery<R>>))
    requires i < |t.nodes| && key in t.nodes[i].tasks && t.nodes[i].tasks[key].state.Processing?
    ensures var n := t.nodes[i]; var e := n.tasks[key];
            && |r.0.nodes| == |t.nodes|
            && (forall j :: 0 <= j < |t.nodes| && j != i ==> r.0.nodes[j] == t.nodes[j])
            && r.0.nodes[i] == n.(tasks := n.tasks[key := e.(state := Done(err, result))])
            && r.0.counters.active == t.counters.active - 1
            && CountersStep(t.counters, r.0.counters)
            && r.0.counters.isScheduling == (t.counters.isScheduling || t.counters.needProcessing)
            && r.1 == FanOut(e, err, result)
  {
    var n := t.nodes[i];
    var h := HandleResult(t.counters, n.tasks[key], err, result);
    (Tree(t.nodes[i := n.(tasks := n.tasks[key := h.0])], h.1), h.2)
  }

  // ---------------------------------------------------------------------------
  // `stop`
  // ---------------------------------------------------------------------------

  /** The callbacks of the tasks `keys`, in order, each task's callbacks fired with one outcome. */
  function FanOuts<P, R>(keys: seq<string>, tasks: map<string, Entity<P, R>>, err: Option<TaskError>): (ds: seq<Delivery<R>>)
    requires forall j :: 0 <= j < |keys| ==> keys[j] in tasks
    ensures forall j :: 0 <= j < |ds| ==> ds[j].err == err && ds[j].result == None
  {
    if |keys| == 0 then [] else FanOut(tasks[keys[0]], err, None) + FanOuts(keys[1..], tasks, err)
  }

  /** The loop of `stop` over the detached queue: each pending task leaves the
      table, is counted active, and is completed with the stopped error. */
  function StopEach<P, R>(keys: seq<string>, tasks: map<string, Entity<P, R>>, c: Counters, err: TaskError)
    : (r: (map<string, Entity<P, R>>, Counters, seq<Delivery<R>>))
    requires forall j :: 0 <= j < |keys| ==> keys[j] in tasks && tasks[keys[j]].state.Queued?
    requires forall j1, j2 :: 0 <= j1 < j2 < |keys| ==> keys[j1] != keys[j2]
    ensures r.0 == tasks - (set k | k in keys)
    ensures r.1.active == c.active
    ensures CountersStep(c, r.1)
    ensures |keys| > 0 ==> r.1.isScheduling == (c.isScheduling || c.needProcessing)
    ensures |keys| == 0 ==> r.1 == c
    ensures r.2 == FanOuts(keys, tasks, Some(err))
  {
    if |keys| == 0 then (tasks, c, [])
    else
      var k := keys[0];
      var h := HandleResult(c.(active := c.active + 1), tasks[k], Some(err), None);
      var tail := keys[1..];
      var tasks1 := tasks - {k};
      StopEachTail(keys, tasks, Some(err));
      var rest := StopEach(tail, tasks1, h.1, err);
      (rest.0, rest.1, h.2 + rest.2)
  }

  /** After the first key leaves the table, the rest of the keys still meet `StopEach`'s requirements. */
  lemma StopEachTail<P, R>(keys: seq<string>, tasks: map<string, Entity<P, R>>, err: Option<TaskError>)
    requires |keys| > 0
    requires forall j :: 0 <= j < |keys| ==> keys[j] in tasks && tasks[keys[j]].state.Queued?
    requires forall j1, j2 :: 0 <= j1 < j2 < |keys| ==> keys[j1] != keys[j2]
    ensures var tail, tasks1 := keys[1..], tasks - {keys[0]};
            && (forall j :: 0 <= j < |tail| ==> tail[j] in tasks1 && tasks1[tail[j]] == tasks[tail[j]])
            && (tasks1 - (set x | x in tail)) == tasks - (set x | x in keys)
            && FanOuts(keys, tasks, err) == FanOut(tasks[keys[0]], err, None) + FanOuts(tail, tasks1, err)
  {
    var tail, tasks1 := keys[1..], tasks - {keys[0]};
    forall j | 0 <= j < |tail|
      ensures tail[j] in tasks1 && tasks1[tail[j]] == tasks[tail[j]]
    {
      assert tail[j] == keys[j + 1] && keys[0] != keys[j + 1];
    }
    assert keys == [keys[0]] + tail;
    assert (set x | x in keys) == {keys[0]} + (set x | x in tail);
    FanOutsFrame(tail, tasks, tasks1, err);
  }

  lemma FanOutsFrame<P, R>(keys: seq<string>, tasks: map<string, Entity<P, R>>, tasks': map<string, Entity<P, R>>, err: Option<TaskError>)
    requires forall j :: 0 <= j < |keys| ==> keys[j] in tasks && keys[j] in tasks' && tasks'[keys[j]] == tasks[keys[j]]
    ensures FanOuts(keys, tasks, err) == FanOuts(keys, tasks', err)
  {
    if |keys| > 0 {
      FanOutsFrame(keys[1..], tasks, tasks', err);
    }
  }

  /** `stop()` on node `i`. */
  function Stop<P, R>(t: Tree<P, R>, i: nat): (r: (Tree<P, R>, seq<Delivery<R>>))
    requires i < |t.nodes| && NodeInv(t.nodes[i])
    ensures var n, q := t.nodes[i], AQ.Contents(t.nodes[i].queue);
            && |r.0.nodes| == |t.nodes|
            && (forall j :: 0 <= j < |t.nodes| && j != i ==> r.0.nodes[j] == t.nodes[j])
            && r.0.nodes[i].stopped && r.0.nodes[i].name == n.name
            && AQ.Contents(r.0.nodes[i].queue) == []
            && r.0.nodes[i].tasks == n.tasks - (set k | k in q)
            && r.0.counters.active == t.counters.active
            && CountersStep(t.counters, r.0.counters)
            && (q != [] ==> r.0.counters.isScheduling == (t.counters.isScheduling || t.counters.needProcessing))
            && (q == [] ==> r.0.counters == t.counters)
            && r.1 == FanOuts(q, n.tasks, Some(StoppedError(n.name)))
  {
    var n := t.nodes[i];
    var keys := AQ.Contents(n.queue);
    var s := StopEach(keys, n.tasks, t.counters, StoppedError(n.name));
    var n' := n.(stopped := true, queue := AQ.Clear(n.queue), tasks := s.0);
    (Tree(t.nodes[i := n'], s.1), s.2)
  }

  // ---------------------------------------------------------------------------
  // The scheduling pass: `_schedule` and `_processTask`
  // ---------------------------------------------------------------------------

  lemma NodeAdvancedTrans<P, R>(n1: Node<P, R>, n2: Node<P, R>, n3: Node<P, R>)
    requires NodeAdvanced(n1, n2) && NodeAdvanced(n2, n3) && n2.tasks.Keys == n1.tasks.Keys
    ensures NodeAdvanced(n1, n3)
  {
    forall k | k in n1.tasks && k in n3.tasks
      ensures EntityAdvanced(n1.tasks[k], n3.tasks[k])
    {
      var e1, e2, e3 := n1.tasks[k], n2.tasks[k], n3.tasks[k];
      assert e1.waiting <= e2.waiting <= e3.waiting;
    }
  }

  lemma CountersStepTrans(c1: Counters, c2: Counters, c3: Counters)
    requires CountersStep(c1, c2) && CountersStep(c2, c3)
    ensures CountersStep(c1, c3)
  {
  }

  /** Changing the entity of a key changes the set of processing keys by that key only. */
  lemma ProcKeysUpdate<P, R>(n: Node<P, R>, n': Node<P, R>, k: string, e: Entity<P, R>)
    requires k in n.tasks && n'.tasks == n.tasks[k := e]
    ensures e.state.Processing? ==> ProcKeys(n') == ProcKeys(n) + {k}
    ensures !e.state.Processing? ==> ProcKeys(n') == ProcKeys(n) - {k}
  {
  }

  /** Taking the front key off the queue and moving its task past QUEUED keeps the node invariant. */
  lemma TakeFront<P, R>(n: Node<P, R>, n': Node<P, R>, e': Entity<P, R>)
    requires NodeInv(n) && AQ.Contents(n.queue) != []
    requires var k := AQ.Contents(n.queue)[0];
             && AQ.Contents(n'.queue) == AQ.Contents(n.queue)[1..]
             && n'.tasks == n.tasks[k := e'] && n'.name == n.name && n'.stopped == n.stopped
             && EntityAdvanced(n.tasks[k], e') && !e'.state.Queued?
    ensures NodeInv(n') && NodeAdvanced(n, n')
    ensures |ProcKeys(n')| == |ProcKeys(n)| + Flag(e'.state.Processing?)
  {
    var q := AQ.Contents(n.queue);
    var k := q[0];
    assert k !in q[1..] by {
      forall j | 0 <= j < |q| - 1
        ensures q[1..][j] != k
      {
        assert q[1..][j] == q[j + 1];
      }
    }
    assert forall k' :: k' in n.tasks && n.tasks[k'].state.Queued? && k' != k ==> k' in q[1..] by {
      forall k' | k' in n.tasks && n.tasks[k'].state.Queued? && k' != k
        ensures k' in q[1..]
      {
        var j :| 0 <= j < |q| && q[j] == k';
        assert q[1..][j - 1] == k';
      }
    }
    assert k !in ProcKeys(n);
    ProcKeysUpdate(n, n', k, e');
  }

  /** One turn of the dispatch loop: dequeue the front task, mark it PROCESSING,
      count it active and hand it to the processor (`_processTask`). */
  function DispatchFront<P, R>(n: Node<P, R>, c: Counters, reply: string -> Reply<R>)
    : (r: (Node<P, R>, Counters, seq<Delivery<R>>))
    requires NodeInv(n) && AQ.Contents(n.queue) != []
    ensures AQ.Contents(r.0.queue) == AQ.Contents(n.queue)[1..]
    ensures NodeInv(r.0) && NodeAdvanced(n, r.0)
    ensures r.0.tasks.Keys == n.tasks.Keys && r.0.stopped == n.stopped
    ensures var k := AQ.Contents(n.queue)[0];
            forall k' :: k' in n.tasks && k' != k ==> r.0.tasks[k'] == n.tasks[k']
    ensures r.1.active <= c.active + 1
    ensures CountersStep(c, r.1)
    ensures r.1.active - c.active == |ProcKeys(r.0)| - |ProcKeys(n)|
    ensures var k := AQ.Contents(n.queue)[0];
            r.0.tasks[k].state == Answered(reply(k)) && r.2 == Fired(n.tasks[k], reply(k))
  {
    var d := AQ.Dequeue(n.queue);
    var k := d.0.value;
    var e := n.tasks[k].(state := Processing);
    var c1 := c.(active := c.active + 1);
    match reply(k)
    case Later =>
      var n' := n.(queue := d.1, tasks := n.tasks[k := e]);
      TakeFront(n, n', e);
      (n', c1, [])
    case Now(err, result) =>
      var h := HandleResult(c1, e, err, result);
      var n' := n.(queue := d.1, tasks := n.tasks[k := h.0]);
      TakeFront(n, n', h.0);
      (n', h.1, h.2)
  }

  /** The `while (activeTasks < parallelism)` loop of `_schedule` over one node's queue.
      Returns the node, the counters, the keys handed to the processor and the callbacks fired. */
  function Drain<P, R>(n: Node<P, R>, c: Counters, reply: string -> Reply<R>)
    : (r: (Node<P, R>, Counters, seq<string>, seq<Delivery<R>>))
    requires NodeInv(n)
    decreases |AQ.Contents(n.queue)|
    ensures DrainPost(n, c, r.0, r.1, r.2)
    ensures DrainAnswers(n, r.0, r.2, r.3, reply)
  {
    if c.active >= c.parallelism || AQ.Contents(n.queue) == [] then (n, c, [], [])
    else
      var q := AQ.Contents(n.queue);
      var step := DispatchFront(n, c, reply);
      var rest := Drain(step.0, step.1, reply);
      DrainCompose(n, c, step.0, step.1, rest.0, rest.1, rest.2);
      DrainAnswersCompose(n, c, reply, rest.0, rest.2, rest.3);
      (rest.0, rest.1, [q[0]] + rest.2, step.2 + rest.3)
  }

  /** What one node's dispatch loop guarantees: the node invariant is kept and
      every task only moves forward; the keys handed out are a prefix of the
      queue and exactly the rest stays queued; the loop stops early only at the
      concurrency limit, dispatches only below it, and the active count moves
      with the number of PROCESSING tasks. */
  ghost predicate DrainPost<P, R>(n: Node<P, R>, c: Counters, n': Node<P, R>, c': Counters, taken: seq<string>)
  {
    var q := AQ.Contents(n.queue);
    && NodeInv(n') && NodeAdvanced(n, n')
    && n'.tasks.Keys == n.tasks.Keys && n'.stopped == n.stopped
    && |taken| <= |q| && taken == q[..|taken|] && AQ.Contents(n'.queue) == q[|taken|..]
    && (|taken| < |q| ==> c'.active >= c'.parallelism)
    && (|taken| > 0 ==> c.active < c.parallelism)
    && c'.active <= Max(c.active, c.parallelism)
    && CountersStep(c, c')
    && c'.active - c.active == |ProcKeys(n')| - |ProcKeys(n)|
  }

  lemma DrainCompose<P, R>(n: Node<P, R>, c: Counters, n1: Node<P, R>, c1: Counters, n2: Node<P, R>, c2: Counters, taken: seq<string>)
    requires NodeInv(n) && AQ.Contents(n.queue) != [] && c.active < c.parallelism
    requires AQ.Contents(n1.queue) == AQ.Contents(n.queue)[1..]
    requires NodeInv(n1) && NodeAdvanced(n, n1)
    requires n1.tasks.Keys == n.tasks.Keys && n1.stopped == n.stopped
    requires c1.active <= c.active + 1
    requires CountersStep(c, c1)
    requires c1.active - c.active == |ProcKeys(n1)| - |ProcKeys(n)|
    requires DrainPost(n1, c1, n2, c2, taken)
    ensures DrainPost(n, c, n2, c2, [AQ.Contents(n.queue)[0]] + taken)
  {
    NodeAdvancedTrans(n, n1, n2);
    CountersStepTrans(c, c1, c2);
    PrefixCons(AQ.Contents(n.queue), taken);
  }

  lemma PrefixCons<T>(q: seq<T>, taken: seq<T>)
    requires |q| > 0 && |taken| <= |q| - 1 && taken == q[1..][..|taken|]
    ensures [q[0]] + taken == q[..|taken| + 1]
    ensures q[1..][|taken|..] == q[|taken| + 1..]
  {
  }

  /** The callbacks fired while the tasks `keys` are handed to the processor in order. */
  function FiredAll<P, R>(tasks: map<string, Entity<P, R>>, keys: seq<string>, reply: string -> Reply<R>): seq<Delivery<R>>
    requires forall j :: 0 <= j < |keys| ==> keys[j] in tasks
  {
    if |keys| == 0 then [] else Fired(tasks[keys[0]], reply(keys[0])) + FiredAll(tasks, keys[1..], reply)
  }

  /** What one node's dispatch loop does to the tasks it hands out: each is left
      as the processor answered, the callbacks fired are their answers' fan-outs
      in dispatch order, and every other task is untouched. */
  ghost predicate DrainAnswers<P, R>(n: Node<P, R>, n': Node<P, R>, taken: seq<string>, delivered: seq<Delivery<R>>,
                                     reply: string -> Reply<R>)
  {
    && (forall j :: 0 <= j < |taken| ==>
          taken[j] in n.tasks && taken[j] in n'.tasks && n'.tasks[taken[j]].state == Answered(reply(taken[j])))
    && (forall k :: k in n.tasks && k !in taken ==> k in n'.tasks && n'.tasks[k] == n.tasks[k])
    && delivered == FiredAll(n.tasks, taken, reply)
  }

  lemma {:induction false} FiredAllFrame<P, R>(tasks: map<string, Entity<P, R>>, tasks': map<string, Entity<P, R>>,
                                               keys: seq<string>, reply: string -> Reply<R>)
    requires forall j :: 0 <= j < |keys| ==> keys[j] in tasks && keys[j] in tasks' && tasks'[keys[j]] == tasks[keys[j]]
    ensures FiredAll(tasks, keys, reply) == FiredAll(tasks', keys, reply)
    decreases |keys|
  {
    if |keys| > 0 {
      FiredAllFrame(tasks, tasks', keys[1..], reply);
    }
  }

  /** One dispatch followed by the rest of the loop hands out the front task first. */
  lemma DrainAnswersCompose<P, R>(n: Node<P, R>, c: Counters, reply: string -> Reply<R>,
                                  n2: Node<P, R>, taken: seq<string>, delivered: seq<Delivery<R>>)
    requires NodeInv(n) && AQ.Contents(n.queue) != []
    requires var q := AQ.Contents(n.queue); |taken| <= |q| - 1 && taken == q[1..][..|taken|]
    requires DrainAnswers(DispatchFront(n, c, reply).0, n2, taken, delivered, reply)
    ensures var step := DispatchFront(n, c, reply);
            DrainAnswers(n, n2, [AQ.Contents(n.queue)[0]] + taken, step.2 + delivered, reply)
  {
    var step := DispatchFront(n, c, reply);
    var k := AQ.Contents(n.queue)[0];
    FrontNotTaken(n, taken);
    AnswersStates(n, step.0, n2, k, taken, delivered, reply);
    FiredAllFrame(step.0.tasks, n.tasks, taken, reply);
    AnswersFired(n.tasks, k, taken, reply);
  }

  /** The front key of a well-formed queue is not among the keys behind it. */
  lemma FrontNotTaken<P, R>(n: Node<P, R>, taken: seq<string>)
    requires NodeInv(n) && AQ.Contents(n.queue) != []
    requires var q := AQ.Contents(n.queue); |taken| <= |q| - 1 && taken == q[1..][..|taken|]
    ensures AQ.Contents(n.queue)[0] !in taken
  {
    var q := AQ.Contents(n.queue);
    forall j | 0 <= j < |taken|
      ensures taken[j] != q[0]
    {
      assert taken[j] == q[j + 1];
    }
  }

  lemma AnswersStates<P, R>(n: Node<P, R>, n1: Node<P, R>, n2: Node<P, R>, k: string, taken: seq<string>,
                            delivered: seq<Delivery<R>>, reply: string -> Reply<R>)
    requires k in n.tasks && k !in taken && n1.tasks.Keys == n.tasks.Keys
    requires n1.tasks[k].state == Answered(reply(k))
    requires forall k' :: k' in n.tasks && k' != k ==> n1.tasks[k'] == n.tasks[k']
    requires DrainAnswers(n1, n2, taken, delivered, reply)
    ensures var all := [k] + taken;
            && (forall j :: 0 <= j < |all| ==> all[j] in n.tasks && all[j] in n2.tasks && n2.tasks[all[j]].state == Answered(reply(all[j])))
            && (forall k' :: k' in n.tasks && k' !in all ==> k' in n2.tasks && n2.tasks[k'] == n.tasks[k'])
  {
    var all := [k] + taken;
    forall j | 0 <= j < |all|
      ensures all[j] in n.tasks && all[j] in n2.tasks && n2.tasks[all[j]].state == Answered(reply(all[j]))
    {
      if j > 0 {
        assert all[j] == taken[j - 1];
      }
    }
  }

  lemma AnswersFired<P, R>(tasks: map<string, Entity<P, R>>, k: string, taken: seq<string>, reply: string -> Reply<R>)
    requires k in tasks && forall j :: 0 <= j < |taken| ==> taken[j] in tasks
    ensures FiredAll(tasks, [k] + taken, reply) == Fired(tasks[k], reply(k)) + FiredAll(tasks, taken, reply)
  {
    assert ([k] + taken)[1..] == taken;
  }


  /** The dispatches of keys from node `i`. */
  function Tag(i: nat, keys: seq<string>): (ds: seq<Dispatch>)
    ensures |ds| == |keys| && forall j :: 0 <= j < |keys| ==> ds[j] == Dispatch(i, keys[j])
  {
    seq(|keys|, j requires 0 <= j < |keys| => Dispatch(i, keys[j]))
  }

  /** The keys that left the front of `a`'s queue to give `b`'s. */
  ghost function Removed<P, R>(a: Node<P, R>, b: Node<P, R>): seq<string>
  {
    var qa, qb := AQ.Contents(a.queue), AQ.Contents(b.queue);
    if |qb| <= |qa| then qa[..|qa| - |qb|] else []
  }

  /** The dispatches, node by node from index `i`, that turn `pre` into `post`. */
  ghost function Taken<P, R>(pre: seq<Node<P, R>>, post: seq<Node<P, R>>, i: nat): seq<Dispatch>
    requires |post| == |pre|
    decreases |pre| - i
  {
    if i >= |pre| then [] else Tag(i, Removed(pre[i], post[i])) + Taken(pre, post, i + 1)
  }

  /** Every node of `nodes` from index `i` on has an empty queue. */
  ghost predicate IdleFrom<P, R>(nodes: seq<Node<P, R>>, i: nat)
  {
    forall j :: i <= j < |nodes| ==> AQ.Contents(nodes[j].queue) == []
  }

  ghost predicate AllInv<P, R>(nodes: seq<Node<P, R>>)
  {
    forall j {:trigger NodeInv(nodes[j])} :: 0 <= j < |nodes| ==> NodeInv(nodes[j])
  }

  /** The children sweep of `_schedule`: its final nodes and counters, whether it
      ran to the end, the processor invocations and the callbacks fired. */
  datatype Sweep<P, R> = Sweep(nodes: seq<Node<P, R>>, counters: Counters, finished: bool,
                               dispatched: seq<Dispatch>, delivered: seq<Delivery<R>>)

  /** Nodes before `i` are untouched; every node keeps its invariant, moves its
      tasks forward and loses a prefix of its queue. */
  ghost predicate SweepShape<P, R>(nodes: seq<Node<P, R>>, i: nat, nodes': seq<Node<P, R>>)
  {
    && |nodes'| == |nodes|
    && (forall j :: 0 <= j < i && j < |nodes| ==> nodes'[j] == nodes[j])
    && AllInv(nodes')
    && (forall j {:trigger NodeStep(nodes[j], nodes'[j])} :: 0 <= j < |nodes| ==> NodeStep(nodes[j], nodes'[j]))
  }

  /** `n'` is `n` after some of its front tasks were dispatched. */
  ghost predicate NodeStep<P, R>(n: Node<P, R>, n': Node<P, R>)
  {
    && NodeAdvanced(n, n') && n'.tasks.Keys == n.tasks.Keys && n'.stopped == n.stopped
    && var qa, qb := AQ.Contents(n.queue), AQ.Contents(n'.queue);
       |qb| <= |qa| && qb == qa[|qa| - |qb|..]
  }

  /** The sweep runs to the end exactly when it leaves every queue from `i` on
      empty; otherwise the concurrency limit is reached and nothing after the
      first node left non-empty was touched. */
  ghost predicate SweepFlags<P, R>(nodes: seq<Node<P, R>>, i: nat, r: Sweep<P, R>)
    requires |r.nodes| == |nodes|
  {
    && (r.finished <==> IdleFrom(r.nodes, i))
    && (!r.finished ==> r.counters.active >= r.counters.parallelism)
    && (forall j1, j2 :: i <= j1 < j2 < |nodes| && AQ.Contents(r.nodes[j1].queue) != [] ==> r.nodes[j2] == nodes[j2])
  }

  /** The counters move as in a dispatch loop and the active count follows the PROCESSING tasks. */
  ghost predicate SweepCounters<P, R>(nodes: seq<Node<P, R>>, c: Counters, nodes': seq<Node<P, R>>, c': Counters)
  {
    && CountersStep(c, c')
    && c'.active <= Max(c.active, c.parallelism)
    && c'.active - c.active == ProcCount(nodes') - ProcCount(nodes)
  }

  /** What a sweep over `nodes[i..]` guarantees; the dispatches are the removed
      queue prefixes in node order. */
  ghost predicate SweepPost<P, R>(nodes: seq<Node<P, R>>, i: nat, c: Counters, r: Sweep<P, R>)
  {
    && SweepShape(nodes, i, r.nodes)
    && r.dispatched == Taken(nodes, r.nodes, i)
    && SweepFlags(nodes, i, r)
    && SweepCounters(nodes, c, r.nodes, r.counters)
  }

  lemma ProcCountUpdate<P, R>(nodes: seq<Node<P, R>>, i: nat, n: Node<P, R>)
    requires i < |nodes|
    ensures ProcCount(nodes[i := n]) == ProcCount(nodes) - |ProcKeys(nodes[i])| + |ProcKeys(n)|
    decreases |nodes|
  {
    var last := |nodes| - 1;
    if i < last {
      ProcCountUpdate(nodes[..last], i, n);
      assert nodes[i := n][..last] == nodes[..last][i := n];
    } else {
      assert nodes[i := n][..last] == nodes[..last];
    }
  }

  /** The processor's answers for the tasks of node `i`. */
  function At<R>(reply: (nat, string) -> Reply<R>, i: nat): (f: string -> Reply<R>)
    ensures forall k :: f(k) == reply(i, k)
  {
    k => reply(i, k)
  }

  /** The `for (const child of this._children)` loop of `_schedule`, from child `i`. */
  function DrainChildren<P, R>(nodes: seq<Node<P, R>>, i: nat, c: Counters, reply: (nat, string) -> Reply<R>)
    : (r: Sweep<P, R>)
    requires 1 <= i <= |nodes| && AllInv(nodes)
    decreases |nodes| - i
    ensures SweepPost(nodes, i, c, r)
    ensures Answers(nodes, r.nodes, r.dispatched, r.delivered, reply)
  {
    if i == |nodes| then
      SweepEnd(nodes, c);
      Sweep(nodes, c, true, [], [])
    else
      var f := At(reply, i);
      assert NodeInv(nodes[i]);
      var d := Drain(nodes[i], c, f);
      if AQ.Contents(d.0.queue) != [] then
        SweepStopAt(nodes, i, c, f);
        AnswersStopAt(nodes, i, c, f, reply);
        Sweep(nodes[i := d.0], d.1, false, Tag(i, d.2), d.3)
      else
        DrainedInv(nodes, i, c, f);
        var rest := DrainChildren(nodes[i := d.0], i + 1, d.1, reply);
        SweepContinueAt(nodes, i, c, f, rest);
        AnswersContinueAt(nodes, i, c, f, reply, rest);
        Sweep(rest.nodes, rest.counters, rest.finished, Tag(i, d.2) + rest.dispatched, d.3 + rest.delivered)
  }

  /** Every node of `nodes[i := n]` keeps its invariant when `n` has it. */
  lemma AllInvUpdate<P, R>(nodes: seq<Node<P, R>>, i: nat, n: Node<P, R>)
    requires i < |nodes| && AllInv(nodes) && NodeInv(n)
    ensures AllInv(nodes[i := n])
  {
    var nodes' := nodes[i := n];
    forall j | 0 <= j < |nodes'|
      ensures NodeInv(nodes'[j])
    {
      if j != i {
        assert nodes'[j] == nodes[j];
      }
    }
  }

  lemma DrainedInv<P, R>(nodes: seq<Node<P, R>>, i: nat, c: Counters, f: string -> Reply<R>)
    requires i < |nodes| && AllInv(nodes)
    ensures NodeInv(nodes[i]) && AllInv(nodes[i := Drain(nodes[i], c, f).0])
  {
    assert NodeInv(nodes[i]);
    AllInvUpdate(nodes, i, Drain(nodes[i], c, f).0);
  }

  /** A sweep with nothing left to visit. */
  lemma SweepEnd<P, R>(nodes: seq<Node<P, R>>, c: Counters)
    requires AllInv(nodes)
    ensures SweepPost(nodes, |nodes|, c, Sweep(nodes, c, true, [], []))
  {
    forall j | 0 <= j < |nodes|
      ensures NodeStep(nodes[j], nodes[j])
    {
      var n := nodes[j];
      assert forall k :: k in n.tasks ==> EntityAdvanced(n.tasks[k], n.tasks[k]);
      var q := AQ.Contents(n.queue);
      assert q == q[0..];
    }
  }

  lemma SweepStopAt<P, R>(nodes: seq<Node<P, R>>, i: nat, c: Counters, f: string -> Reply<R>)
    requires i < |nodes| && AllInv(nodes)
    requires NodeInv(nodes[i]) && AQ.Contents(Drain(nodes[i], c, f).0.queue) != []
    ensures var d := Drain(nodes[i], c, f);
            SweepPost(nodes, i, c, Sweep(nodes[i := d.0], d.1, false, Tag(i, d.2), d.3))
  {
    var d := Drain(nodes[i], c, f);
    ProcCountUpdate(nodes, i, d.0);
    SweepStop(nodes, i, c, d.0, d.1, d.2, Sweep(nodes[i := d.0], d.1, false, Tag(i, d.2), d.3));
  }

  lemma SweepContinueAt<P, R>(nodes: seq<Node<P, R>>, i: nat, c: Counters, f: string -> Reply<R>, rest: Sweep<P, R>)
    requires i < |nodes| && AllInv(nodes) && NodeInv(nodes[i])
    requires var d := Drain(nodes[i], c, f);
             AQ.Contents(d.0.queue) == [] && SweepPost(nodes[i := d.0], i + 1, d.1, rest)
    ensures var d := Drain(nodes[i], c, f);
            SweepPost(nodes, i, c, Sweep(rest.nodes, rest.counters, rest.finished, Tag(i, d.2) + rest.dispatched, d.3 + rest.delivered))
  {
    var d := Drain(nodes[i], c, f);
    ProcCountUpdate(nodes, i, d.0);
    SweepContinue(nodes, i, c, d.0, d.1, d.2, rest,
                  Sweep(rest.nodes, rest.counters, rest.finished, Tag(i, d.2) + rest.dispatched, d.3 + rest.delivered));
  }

  lemma SweepContinue<P, R>(nodes: seq<Node<P, R>>, i: nat, c: Counters, n': Node<P, R>, c': Counters, taken: seq<string>,
                            rest: Sweep<P, R>, r: Sweep<P, R>)
    requires i < |nodes| && AllInv(nodes)
    requires DrainPost(nodes[i], c, n', c', taken) && AQ.Contents(n'.queue) == []
    requires ProcCount(nodes[i := n']) == ProcCount(nodes) - |ProcKeys(nodes[i])| + |ProcKeys(n')|
    requires SweepPost(nodes[i := n'], i + 1, c', rest)
    requires r.nodes == rest.nodes && r.counters == rest.counters && r.finished == rest.finished
    requires r.dispatched == Tag(i, taken) + rest.dispatched
    ensures SweepPost(nodes, i, c, r)
  {
    DrainStep(nodes[i], c, n', c', taken);
    ContinueShape(nodes, i, n', taken, rest);
    ContinueFlagsCounters(nodes, i, c, n', c', rest, r);
  }

  lemma ContinueShape<P, R>(nodes: seq<Node<P, R>>, i: nat, n': Node<P, R>, taken: seq<string>, rest: Sweep<P, R>)
    requires i < |nodes| && AllInv(nodes) && NodeInv(n') && NodeStep(nodes[i], n') && Removed(nodes[i], n') == taken
    requires SweepShape(nodes[i := n'], i + 1, rest.nodes) && rest.dispatched == Taken(nodes[i := n'], rest.nodes, i + 1)
    ensures SweepShape(nodes, i, rest.nodes) && Taken(nodes, rest.nodes, i) == Tag(i, taken) + rest.dispatched
  {
    ShapeUpdate(nodes, i, n');
    ShapeCompose(nodes, nodes[i := n'], rest.nodes, i);
    ContinueTaken(nodes, i, n', taken, rest.nodes, rest.dispatched);
  }

  lemma ContinueFlagsCounters<P, R>(nodes: seq<Node<P, R>>, i: nat, c: Counters, n': Node<P, R>, c': Counters,
                                    rest: Sweep<P, R>, r: Sweep<P, R>)
    requires i < |nodes| && AQ.Contents(n'.queue) == [] && |rest.nodes| == |nodes| && rest.nodes[i] == n'
    requires CountersStep(c, c') && c'.active <= Max(c.active, c.parallelism)
    requires c'.active - c.active == |ProcKeys(n')| - |ProcKeys(nodes[i])|
    requires ProcCount(nodes[i := n']) == ProcCount(nodes) - |ProcKeys(nodes[i])| + |ProcKeys(n')|
    requires SweepFlags(nodes[i := n'], i + 1, rest) && SweepCounters(nodes[i := n'], c', rest.nodes, rest.counters)
    requires r.nodes == rest.nodes && r.counters == rest.counters && r.finished == rest.finished
    ensures SweepFlags(nodes, i, r) && SweepCounters(nodes, c, r.nodes, r.counters)
  {
    var nodes1 := nodes[i := n'];
    FlagsCompose(nodes, nodes1, i, rest, r);
    CountersCompose(nodes, nodes1, rest.nodes, c, c', rest.counters, |ProcKeys(n')| - |ProcKeys(nodes[i])|);
  }

  lemma DrainedPrefix<P, R>(n: Node<P, R>, n': Node<P, R>, taken: seq<string>)
    requires var q := AQ.Contents(n.queue);
             |taken| <= |q| && taken == q[..|taken|] && AQ.Contents(n'.queue) == q[|taken|..]
    ensures Removed(n, n') == taken
    ensures var qa, qb := AQ.Contents(n.queue), AQ.Contents(n'.queue); |qb| <= |qa| && qb == qa[|qa| - |qb|..]
  {
  }

  lemma TakenFrame<P, R>(pre: seq<Node<P, R>>, post: seq<Node<P, R>>, post2: seq<Node<P, R>>, i: nat)
    requires |post| == |pre| == |post2|
    requires forall j :: i <= j < |pre| ==> post[j] == post2[j]
    ensures Taken(pre, post, i) == Taken(pre, post2, i)
    decreases |pre| - i
  {
    if i < |pre| {
      TakenFrame(pre, post, post2, i + 1);
    }
  }

  lemma TakenUntouched<P, R>(pre: seq<Node<P, R>>, post: seq<Node<P, R>>, i: nat)
    requires |post| == |pre|
    requires forall j :: i <= j < |pre| ==> post[j] == pre[j]
    ensures Taken(pre, post, i) == []
    decreases |pre| - i
  {
    if i < |pre| {
      TakenUntouched(pre, post, i + 1);
    }
  }

  lemma ShapeUpdate<P, R>(nodes: seq<Node<P, R>>, i: nat, n': Node<P, R>)
    requires i < |nodes| && AllInv(nodes) && NodeInv(n') && NodeStep(nodes[i], n')
    ensures SweepShape(nodes, i, nodes[i := n'])
  {
    forall j | 0 <= j < |nodes| && j != i
      ensures NodeStep(nodes[j], nodes[j])
    {
      var n := nodes[j];
      assert forall k :: k in n.tasks ==> EntityAdvanced(n.tasks[k], n.tasks[k]);
      var q := AQ.Contents(n.queue);
      assert q == q[0..];
    }
  }

  lemma DrainStep<P, R>(n: Node<P, R>, c: Counters, n': Node<P, R>, c': Counters, taken: seq<string>)
    requires DrainPost(n, c, n', c', taken)
    ensures NodeInv(n') && NodeStep(n, n') && Removed(n, n') == taken
  {
    DrainedPrefix(n, n', taken);
  }

  lemma SweepStop<P, R>(nodes: seq<Node<P, R>>, i: nat, c: Counters, n': Node<P, R>, c': Counters, taken: seq<string>, r: Sweep<P, R>)
    requires i < |nodes| && AllInv(nodes)
    requires DrainPost(nodes[i], c, n', c', taken) && AQ.Contents(n'.queue) != []
    requires ProcCount(nodes[i := n']) == ProcCount(nodes) - |ProcKeys(nodes[i])| + |ProcKeys(n')|
    requires r.nodes == nodes[i := n'] && r.counters == c' && !r.finished && r.dispatched == Tag(i, taken)
    ensures SweepPost(nodes, i, c, r)
  {
    DrainStep(nodes[i], c, n', c', taken);
    ShapeUpdate(nodes, i, n');
    StopTaken(nodes, i, n', taken);
    StopFlags(nodes, i, n', r);
  }

  lemma StopTaken<P, R>(nodes: seq<Node<P, R>>, i: nat, n': Node<P, R>, taken: seq<string>)
    requires i < |nodes| && Removed(nodes[i], n') == taken
    ensures Taken(nodes, nodes[i := n'], i) == Tag(i, taken)
  {
    TakenUntouched(nodes, nodes[i := n'], i + 1);
    assert Taken(nodes, nodes[i := n'], i) == Tag(i, taken) + [];
  }

  lemma StopFlags<P, R>(nodes: seq<Node<P, R>>, i: nat, n': Node<P, R>, r: Sweep<P, R>)
    requires i < |nodes| && AQ.Contents(n'.queue) != []
    requires r.nodes == nodes[i := n'] && !r.finished && r.counters.active >= r.counters.parallelism
    ensures SweepFlags(nodes, i, r)
  {
    assert AQ.Contents(r.nodes[i].queue) != [];
  }

  lemma CountersCompose<P, R>(nodes: seq<Node<P, R>>, nodes1: seq<Node<P, R>>, nodes2: seq<Node<P, R>>,
                              c: Counters, c1: Counters, c2: Counters, delta: int)
    requires CountersStep(c, c1) && c1.active <= Max(c.active, c.parallelism) && c1.active - c.active == delta
    requires ProcCount(nodes1) == ProcCount(nodes) + delta
    requires SweepCounters(nodes1, c1, nodes2, c2)
    ensures SweepCounters(nodes, c, nodes2, c2)
  {
    CountersStepTrans(c, c1, c2);
  }

  lemma ContinueTaken<P, R>(nodes: seq<Node<P, R>>, i: nat, n': Node<P, R>, taken: seq<string>, nodes2: seq<Node<P, R>>, ds: seq<Dispatch>)
    requires i < |nodes| && |nodes2| == |nodes| && Removed(nodes[i], n') == taken
    requires nodes2[i] == n' && ds == Taken(nodes[i := n'], nodes2, i + 1)
    ensures Taken(nodes, nodes2, i) == Tag(i, taken) + ds
  {
    TakenShift(nodes, nodes[i := n'], nodes2, i + 1);
  }

  lemma ShapeCompose<P, R>(nodes: seq<Node<P, R>>, nodes1: seq<Node<P, R>>, nodes2: seq<Node<P, R>>, i: nat)
    requires i < |nodes|
    requires SweepShape(nodes, i, nodes1) && SweepShape(nodes1, i + 1, nodes2)
    requires forall j :: i < j < |nodes| ==> nodes1[j] == nodes[j]
    ensures SweepShape(nodes, i, nodes2)
  {
    assert nodes2[i] == nodes1[i];
  }

  lemma FlagsCompose<P, R>(nodes: seq<Node<P, R>>, nodes1: seq<Node<P, R>>, i: nat, rest: Sweep<P, R>, r: Sweep<P, R>)
    requires i < |nodes| && |nodes1| == |nodes| == |rest.nodes|
    requires forall j :: i < j < |nodes| ==> nodes1[j] == nodes[j]
    requires AQ.Contents(nodes1[i].queue) == [] && rest.nodes[i] == nodes1[i]
    requires SweepFlags(nodes1, i + 1, rest)
    requires r.nodes == rest.nodes && r.counters == rest.counters && r.finished == rest.finished
    ensures SweepFlags(nodes, i, r)
  {
  }

  /** Nodes that differ only before `i` do not change the dispatches counted from `i`. */
  lemma TakenShift<P, R>(pre: seq<Node<P, R>>, pre2: seq<Node<P, R>>, post: seq<Node<P, R>>, i: nat)
    requires |pre| == |pre2| == |post|
    requires forall j :: i <= j < |pre| ==> pre[j] == pre2[j]
    ensures Taken(pre, post, i) == Taken(pre2, post, i)
    decreases |pre| - i
  {
    if i < |pre| {
      TakenShift(pre, pre2, post, i + 1);
    }
  }

  /** The callbacks fired by the dispatches `ds`, in order, read from the tasks
      of `nodes`; a dispatch that names no task there fires nothing. */
  function FiredTree<P, R>(nodes: seq<Node<P, R>>, ds: seq<Dispatch>, reply: (nat, string) -> Reply<R>): seq<Delivery<R>>
  {
    Sequences.Flatten(d => FiredAt(nodes, d, reply), ds)
  }

  function FiredAt<P, R>(nodes: seq<Node<P, R>>, d: Dispatch, reply: (nat, string) -> Reply<R>): seq<Delivery<R>>
  {
    if d.node < |nodes| && d.key in nodes[d.node].tasks
    then Fired(nodes[d.node].tasks[d.key], reply(d.node, d.key)) else []
  }

  /** Every task dispatched by `ds` is left in `post` as the processor answered. */
  ghost predicate AnsweredAll<P, R>(pre: seq<Node<P, R>>, post: seq<Node<P, R>>, ds: seq<Dispatch>,
                                    reply: (nat, string) -> Reply<R>)
  {
    forall j :: 0 <= j < |ds| ==>
      && ds[j].node < |pre| && ds[j].node < |post| && ds[j].key in pre[ds[j].node].tasks
      && ds[j].key in post[ds[j].node].tasks
      && post[ds[j].node].tasks[ds[j].key].state == Answered(reply(ds[j].node, ds[j].key))
  }

  /** What a pass does to the tasks it hands out: each is left as the processor
      answered, and the callbacks fired are, in dispatch order, the fan-outs of
      the tasks that answered at once (original callback first, then the waiting ones). */
  ghost predicate Answers<P, R>(pre: seq<Node<P, R>>, post: seq<Node<P, R>>, ds: seq<Dispatch>,
                                delivered: seq<Delivery<R>>, reply: (nat, string) -> Reply<R>)
  {
    && |post| == |pre|
    && AnsweredAll(pre, post, ds, reply)
    && delivered == FiredTree(pre, ds, reply)
  }

  /** The callbacks fired by one node's dispatches, seen from the whole tree. */
  lemma {:induction false} TagFired<P, R>(nodes: seq<Node<P, R>>, i: nat, keys: seq<string>,
                                          reply: (nat, string) -> Reply<R>, f: string -> Reply<R>)
    requires i < |nodes| && forall j :: 0 <= j < |keys| ==> keys[j] in nodes[i].tasks
    requires forall k :: f(k) == reply(i, k)
    ensures FiredTree(nodes, Tag(i, keys), reply) == FiredAll(nodes[i].tasks, keys, f)
    decreases |keys|
  {
    if |keys| > 0 {
      TagFired(nodes, i, keys[1..], reply, f);
      assert Tag(i, keys)[1..] == Tag(i, keys[1..]);
    }
  }

  lemma FiredTreeAppend<P, R>(nodes: seq<Node<P, R>>, a: seq<Dispatch>, b: seq<Dispatch>,
                              reply: (nat, string) -> Reply<R>)
    ensures FiredTree(nodes, a + b, reply) == FiredTree(nodes, a, reply) + FiredTree(nodes, b, reply)
  {
    Sequences.FlattenAppend(d => FiredAt(nodes, d, reply), a, b);
  }

  /** Replacing a node that none of `ds` dispatches from does not change the callbacks they fire. */
  lemma {:induction false} FiredTreeFrame<P, R>(nodes: seq<Node<P, R>>, i: nat, n: Node<P, R>, ds: seq<Dispatch>,
                                                reply: (nat, string) -> Reply<R>)
    requires i < |nodes|
    requires forall j :: 0 <= j < |ds| ==> ds[j].node != i
    ensures FiredTree(nodes[i := n], ds, reply) == FiredTree(nodes, ds, reply)
    decreases |ds|
  {
    if |ds| > 0 {
      FiredTreeFrame(nodes, i, n, ds[1..], reply);
    }
  }

  /** The dispatches counted from node `i` come from node `i` or later. */
  lemma {:induction false} TakenFrom<P, R>(pre: seq<Node<P, R>>, post: seq<Node<P, R>>, i: nat)
    requires |post| == |pre|
    ensures forall j :: 0 <= j < |Taken(pre, post, i)| ==> Taken(pre, post, i)[j].node >= i
    decreases |pre| - i
  {
    if i < |pre| {
      TakenFrom(pre, post, i + 1);
      var head := Tag(i, Removed(pre[i], post[i]));
      var ds := Taken(pre, post, i);
      assert ds == head + Taken(pre, post, i + 1);
      forall j | 0 <= j < |ds|
        ensures ds[j].node >= i
      {
        if j >= |head| {
          assert ds[j] == Taken(pre, post, i + 1)[j - |head|];
        }
      }
    }
  }

  /** One node's answered dispatches, seen from the whole tree. */
  lemma TagAnswered<P, R>(pre: seq<Node<P, R>>, post: seq<Node<P, R>>, i: nat, keys: seq<string>,
                          f: string -> Reply<R>, reply: (nat, string) -> Reply<R>)
    requires i < |pre| && i < |post| && forall k :: f(k) == reply(i, k)
    requires forall j :: 0 <= j < |keys| ==>
               keys[j] in pre[i].tasks && keys[j] in post[i].tasks && post[i].tasks[keys[j]].state == Answered(f(keys[j]))
    ensures AnsweredAll(pre, post, Tag(i, keys), reply)
  {
  }

  lemma AnsweredAllAppend<P, R>(pre: seq<Node<P, R>>, post: seq<Node<P, R>>, a: seq<Dispatch>, b: seq<Dispatch>,
                                reply: (nat, string) -> Reply<R>)
    requires AnsweredAll(pre, post, a, reply) && AnsweredAll(pre, post, b, reply)
    ensures AnsweredAll(pre, post, a + b, reply)
  {
    forall j | |a| <= j < |a + b|
      ensures (a + b)[j] == b[j - |a|]
    {
    }
  }

  /** Replacing a node that none of `ds` dispatches from keeps them answered. */
  lemma AnsweredAllFrame<P, R>(pre: seq<Node<P, R>>, i: nat, n: Node<P, R>, post: seq<Node<P, R>>, ds: seq<Dispatch>,
                               reply: (nat, string) -> Reply<R>)
    requires i < |pre| && AnsweredAll(pre[i := n], post, ds, reply)
    requires forall j :: 0 <= j < |ds| ==> ds[j].node != i
    ensures AnsweredAll(pre, post, ds, reply)
  {
    forall j | 0 <= j < |ds|
      ensures pre[i := n][ds[j].node] == pre[ds[j].node]
    {
    }
  }

  /** A dispatch loop over node `i` alone, seen from the whole tree. */
  lemma AnswersStopAt<P, R>(nodes: seq<Node<P, R>>, i: nat, c: Counters, f: string -> Reply<R>, reply: (nat, string) -> Reply<R>)
    requires i < |nodes| && NodeInv(nodes[i]) && forall k :: f(k) == reply(i, k)
    ensures var d := Drain(nodes[i], c, f);
            Answers(nodes, nodes[i := d.0], Tag(i, d.2), d.3, reply)
  {
    var d := Drain(nodes[i], c, f);
    TagFired(nodes, i, d.2, reply, f);
    TagAnswered(nodes, nodes[i := d.0], i, d.2, f, reply);
  }

  /** A dispatch loop over node `i` followed by a sweep of the later nodes. */
  lemma AnswersContinueAt<P, R>(nodes: seq<Node<P, R>>, i: nat, c: Counters, f: string -> Reply<R>,
                                reply: (nat, string) -> Reply<R>, rest: Sweep<P, R>)
    requires i < |nodes| && NodeInv(nodes[i]) && forall k :: f(k) == reply(i, k)
    requires var nodes1 := nodes[i := Drain(nodes[i], c, f).0];
             && SweepShape(nodes1, i + 1, rest.nodes) && rest.dispatched == Taken(nodes1, rest.nodes, i + 1)
             && Answers(nodes1, rest.nodes, rest.dispatched, rest.delivered, reply)
    ensures var d := Drain(nodes[i], c, f);
            Answers(nodes, rest.nodes, Tag(i, d.2) + rest.dispatched, d.3 + rest.delivered, reply)
  {
    var d := Drain(nodes[i], c, f);
    var nodes1 := nodes[i := d.0];
    TakenFrom(nodes1, rest.nodes, i + 1);
    assert rest.nodes[i] == d.0;
    AnswersContinueFired(nodes, i, d.0, d.2, d.3, f, reply, rest.dispatched, rest.delivered);
    TagAnswered(nodes, rest.nodes, i, d.2, f, reply);
    AnsweredAllFrame(nodes, i, d.0, rest.nodes, rest.dispatched, reply);
    AnsweredAllAppend(nodes, rest.nodes, Tag(i, d.2), rest.dispatched, reply);
  }

  /** The callbacks of node `i`'s dispatches followed by those of later nodes. */
  lemma AnswersContinueFired<P, R>(nodes: seq<Node<P, R>>, i: nat, n: Node<P, R>, keys: seq<string>, fired: seq<Delivery<R>>,
                                   f: string -> Reply<R>, reply: (nat, string) -> Reply<R>,
                                   ds: seq<Dispatch>, delivered: seq<Delivery<R>>)
    requires i < |nodes| && forall k :: f(k) == reply(i, k)
    requires forall j :: 0 <= j < |keys| ==> keys[j] in nodes[i].tasks
    requires fired == FiredAll(nodes[i].tasks, keys, f)
    requires forall j :: 0 <= j < |ds| ==> ds[j].node > i && ds[j].node < |nodes| && ds[j].key in nodes[i := n][ds[j].node].tasks
    requires delivered == FiredTree(nodes[i := n], ds, reply)
    ensures fired + delivered == FiredTree(nodes, Tag(i, keys) + ds, reply)
  {
    TagFired(nodes, i, keys, reply, f);
    forall j | 0 <= j < |ds|
      ensures nodes[i := n][ds[j].node] == nodes[ds[j].node]
    {
    }
    FiredTreeFrame(nodes, i, n, ds, reply);
    FiredTreeAppend(nodes, Tag(i, keys), ds, reply);
  }

  /** What a scheduling pass guarantees about the tree it leaves behind: every
      node moves as in a sweep, the dispatches are FIFO within each node, the
      root first and then the children in registration order, and the flags
      and counters move as `ScheduleFlags` and `ScheduleCounters` say. */
  ghost predicate SchedulePost<P, R>(t: Tree<P, R>, t': Tree<P, R>, dispatched: seq<Dispatch>)
  {
    && SweepShape(t.nodes, 0, t'.nodes)
    && dispatched == Taken(t.nodes, t'.nodes, 0)
    && ScheduleFlags(t.nodes, t'.nodes, t'.counters)
    && ScheduleCounters(t.nodes, t.counters, t'.nodes, t'.counters)
  }

  /** The pass returns at the first node it leaves non-empty, and it leaves work
      behind only when the concurrency limit is reached. */
  ghost predicate ScheduleFlags<P, R>(nodes: seq<Node<P, R>>, nodes': seq<Node<P, R>>, c': Counters)
    requires |nodes'| == |nodes|
  {
    && (forall j1, j2 :: 0 <= j1 < j2 < |nodes| && AQ.Contents(nodes'[j1].queue) != [] ==> nodes'[j2] == nodes[j2])
    && (!IdleFrom(nodes', 0) ==> c'.active >= c'.parallelism)
  }

  /** Dispatching happens only below the limit and the active count follows the
      PROCESSING tasks; a pass that was pending when this one started is posted
      again only through a completion, and then exactly once; the tree is marked
      as needing no processing once every queue is empty and no pass is pending. */
  ghost predicate ScheduleCounters<P, R>(nodes: seq<Node<P, R>>, c: Counters, nodes': seq<Node<P, R>>, c': Counters)
  {
    && c'.active <= Max(c.active, c.parallelism)
    && c'.parallelism == c.parallelism
    && c'.active - c.active == ProcCount(nodes') - ProcCount(nodes)
    && (c.isScheduling ==> c'.pending == c.pending + Flag(c'.isScheduling))
    && (IdleFrom(nodes', 0) && !c'.isScheduling ==> !c'.needProcessing)
    && (!IdleFrom(nodes', 0) || c'.isScheduling ==> c'.needProcessing == c.needProcessing)
  }

  /** The end of `_schedule`: a sweep that ran to the end with no pass posted
      meanwhile clears `needProcessing`. */
  function Settle(finished: bool, c: Counters): (c': Counters)
    ensures c'.needProcessing == (c.needProcessing && !(finished && !c.isScheduling))
    ensures c' == c.(needProcessing := c'.needProcessing)
  {
    if finished && !c.isScheduling then c.(needProcessing := false) else c
  }

  /** `_schedule`, run by the root: drain the root's queue, clear `isScheduling`,
      return if the root still has work, else sweep the children; clear
      `needProcessing` if the sweep ran to the end and no pass was posted meanwhile. */
  function Schedule<P, R>(t: Tree<P, R>, reply: (nat, string) -> Reply<R>): (r: (Tree<P, R>, seq<Dispatch>, seq<Delivery<R>>))
    requires |t.nodes| >= 1 && AllInv(t.nodes)
    ensures SchedulePost(t, r.0, r.1)
  {
    var f := At(reply, 0);
    DrainedInv(t.nodes, 0, t.counters, f);
    var d := Drain(t.nodes[0], t.counters, f);
    var c1 := d.1.(isScheduling := false);
    if AQ.Contents(d.0.queue) != [] then
      ScheduleStopAt(t, f);
      (Tree(t.nodes[0 := d.0], c1), Tag(0, d.2), d.3)
    else
      var sw := DrainChildren(t.nodes[0 := d.0], 1, c1, reply);
      ScheduleContinueAt(t, f, sw);
      (Tree(sw.nodes, Settle(sw.finished, sw.counters)), Tag(0, d.2) + sw.dispatched, d.3 + sw.delivered)
  }

  /** Every task a pass hands to the processor is left as it answered, and the
      callbacks fired are the fan-outs of those that answered at once, in dispatch order. */
  lemma ScheduleAnswers<P, R>(t: Tree<P, R>, reply: (nat, string) -> Reply<R>)
    requires |t.nodes| >= 1 && AllInv(t.nodes)
    ensures var r := Schedule(t, reply);
            Answers(t.nodes, r.0.nodes, r.1, r.2, reply)
  {
    var f := At(reply, 0);
    assert NodeInv(t.nodes[0]);
    var d := Drain(t.nodes[0], t.counters, f);
    if AQ.Contents(d.0.queue) != [] {
      AnswersStopAt(t.nodes, 0, t.counters, f, reply);
    } else {
      DrainedInv(t.nodes, 0, t.counters, f);
      AnswersAfterSweep(t, reply);
    }
  }

  /** The branch of `ScheduleAnswers` where the root drained empty and the children were swept. */
  lemma AnswersAfterSweep<P, R>(t: Tree<P, R>, reply: (nat, string) -> Reply<R>)
    requires |t.nodes| >= 1 && AllInv(t.nodes)
    requires var d := Drain(t.nodes[0], t.counters, At(reply, 0));
             AQ.Contents(d.0.queue) == [] && AllInv(t.nodes[0 := d.0])
    ensures var d := Drain(t.nodes[0], t.counters, At(reply, 0));
            var sw := DrainChildren(t.nodes[0 := d.0], 1, d.1.(isScheduling := false), reply);
            Answers(t.nodes, sw.nodes, Tag(0, d.2) + sw.dispatched, d.3 + sw.delivered, reply)
  {
    var f := At(reply, 0);
    var d := Drain(t.nodes[0], t.counters, f);
    var nodes1 := t.nodes[0 := d.0];
    var sw := DrainChildren(nodes1, 1, d.1.(isScheduling := false), reply);
    assert SweepPost(nodes1, 1, d.1.(isScheduling := false), sw);
    assert SweepShape(nodes1, 1, sw.nodes) && sw.dispatched == Taken(nodes1, sw.nodes, 1);
    assert NodeInv(t.nodes[0]);
    AnswersContinueAt(t.nodes, 0, t.counters, f, reply, sw);
  }

  lemma ScheduleStopAt<P, R>(t: Tree<P, R>, f: string -> Reply<R>)
    requires |t.nodes| >= 1 && AllInv(t.nodes) && NodeInv(t.nodes[0])
    requires AQ.Contents(Drain(t.nodes[0], t.counters, f).0.queue) != []
    ensures var d := Drain(t.nodes[0], t.counters, f);
            SchedulePost(t, Tree(t.nodes[0 := d.0], d.1.(isScheduling := false)), Tag(0, d.2))
  {
    var d := Drain(t.nodes[0], t.counters, f);
    ProcCountUpdate(t.nodes, 0, d.0);
    ScheduleStop(t, d.0, d.1, d.2);
  }

  lemma ScheduleContinueAt<P, R>(t: Tree<P, R>, f: string -> Reply<R>, sw: Sweep<P, R>)
    requires |t.nodes| >= 1 && AllInv(t.nodes) && NodeInv(t.nodes[0])
    requires var d := Drain(t.nodes[0], t.counters, f);
             AQ.Contents(d.0.queue) == [] && SweepPost(t.nodes[0 := d.0], 1, d.1.(isScheduling := false), sw)
    ensures var d := Drain(t.nodes[0], t.counters, f);
            SchedulePost(t, Tree(sw.nodes, Settle(sw.finished, sw.counters)), Tag(0, d.2) + sw.dispatched)
  {
    var d := Drain(t.nodes[0], t.counters, f);
    ProcCountUpdate(t.nodes, 0, d.0);
    DrainStep(t.nodes[0], t.counters, d.0, d.1, d.2);
    ScheduleContinue(t, d.0, d.1, d.2, sw, Settle(sw.finished, sw.counters));
  }

  lemma ScheduleStop<P, R>(t: Tree<P, R>, n': Node<P, R>, c': Counters, taken: seq<string>)
    requires |t.nodes| >= 1 && AllInv(t.nodes)
    requires DrainPost(t.nodes[0], t.counters, n', c', taken) && AQ.Contents(n'.queue) != []
    requires ProcCount(t.nodes[0 := n']) == ProcCount(t.nodes) - |ProcKeys(t.nodes[0])| + |ProcKeys(n')|
    ensures SchedulePost(t, Tree(t.nodes[0 := n'], c'.(isScheduling := false)), Tag(0, taken))
  {
    var nodes1 := t.nodes[0 := n'];
    DrainStep(t.nodes[0], t.counters, n', c', taken);
    ShapeUpdate(t.nodes, 0, n');
    StopTaken(t.nodes, 0, n', taken);
    assert AQ.Contents(nodes1[0].queue) != [];
  }

  /** The root drained empty and the children sweep ran: the pass as a whole
      meets `SchedulePost`. */
  lemma ScheduleContinue<P, R>(t: Tree<P, R>, n': Node<P, R>, c': Counters, taken: seq<string>, sw: Sweep<P, R>, c2: Counters)
    requires |t.nodes| >= 1 && AllInv(t.nodes)
    requires NodeInv(n') && NodeStep(t.nodes[0], n') && Removed(t.nodes[0], n') == taken && AQ.Contents(n'.queue) == []
    requires CountersStep(t.counters, c') && c'.active <= Max(t.counters.active, t.counters.parallelism)
    requires c'.active - t.counters.active == ProcCount(t.nodes[0 := n']) - ProcCount(t.nodes)
    requires SweepPost(t.nodes[0 := n'], 1, c'.(isScheduling := false), sw) && c2 == Settle(sw.finished, sw.counters)
    ensures SchedulePost(t, Tree(sw.nodes, c2), Tag(0, taken) + sw.dispatched)
  {
    ScheduleContinueShape(t.nodes, n', taken, sw.nodes, sw.dispatched);
    ScheduleContinueFlags(t.nodes, t.nodes[0 := n'], sw, c2);
    ScheduleContinueCounters(t.nodes, t.counters, t.nodes[0 := n'], c', sw, c2);
  }

  lemma ScheduleContinueShape<P, R>(nodes: seq<Node<P, R>>, n': Node<P, R>, taken: seq<string>,
                                    nodes2: seq<Node<P, R>>, ds: seq<Dispatch>)
    requires |nodes| >= 1 && AllInv(nodes)
    requires NodeInv(n') && NodeStep(nodes[0], n') && Removed(nodes[0], n') == taken
    requires SweepShape(nodes[0 := n'], 1, nodes2) && ds == Taken(nodes[0 := n'], nodes2, 1)
    ensures SweepShape(nodes, 0, nodes2) && Tag(0, taken) + ds == Taken(nodes, nodes2, 0)
  {
    ShapeFromRoot(nodes, n', nodes2);
    ContinueTaken(nodes, 0, n', taken, nodes2, ds);
  }

  lemma ShapeFromRoot<P, R>(nodes: seq<Node<P, R>>, n': Node<P, R>, nodes2: seq<Node<P, R>>)
    requires |nodes| >= 1 && AllInv(nodes) && NodeInv(n') && NodeStep(nodes[0], n')
    requires SweepShape(nodes[0 := n'], 1, nodes2)
    ensures SweepShape(nodes, 0, nodes2)
  {
    ShapeUpdate(nodes, 0, n');
    ShapeCompose(nodes, nodes[0 := n'], nodes2, 0);
  }

  lemma ScheduleContinueFlags<P, R>(nodes: seq<Node<P, R>>, nodes1: seq<Node<P, R>>, sw: Sweep<P, R>, c2: Counters)
    requires |nodes| >= 1 && |nodes1| == |nodes| == |sw.nodes|
    requires forall j :: 0 < j < |nodes| ==> nodes1[j] == nodes[j]
    requires AQ.Contents(nodes1[0].queue) == [] && sw.nodes[0] == nodes1[0]
    requires SweepFlags(nodes1, 1, sw) && c2 == Settle(sw.finished, sw.counters)
    ensures ScheduleFlags(nodes, sw.nodes, c2)
  {
    assert IdleFrom(sw.nodes, 0) <==> IdleFrom(sw.nodes, 1);
  }

  lemma ScheduleContinueCounters<P, R>(nodes: seq<Node<P, R>>, c: Counters, nodes1: seq<Node<P, R>>, c': Counters, sw: Sweep<P, R>, c2: Counters)
    requires |nodes| >= 1 && |nodes1| == |nodes| == |sw.nodes|
    requires CountersStep(c, c') && c'.active <= Max(c.active, c.parallelism)
    requires c'.active - c.active == ProcCount(nodes1) - ProcCount(nodes)
    requires SweepCounters(nodes1, c'.(isScheduling := false), sw.nodes, sw.counters)
    requires AQ.Contents(sw.nodes[0].queue) == []
    requires (sw.finished <==> IdleFrom(sw.nodes, 1)) && c2 == Settle(sw.finished, sw.counters)
    ensures ScheduleCounters(nodes, c, sw.nodes, c2)
  {
    assert IdleFrom(sw.nodes, 0) <==> IdleFrom(sw.nodes, 1);
  }

  // ---------------------------------------------------------------------------
  // The whole scheduler as a state machine
  // ---------------------------------------------------------------------------

  /** The events that move a tree: the public methods of any node, the event
      loop running a posted `root._schedule`, and a processor calling back. */
  datatype Event<P, R> =
    | AddChild(name: string)
    | AddTask(node: nat, key: string, payload: P, cb: CallbackId)
    | RunPass(reply: (nat, string) -> Reply<R>)
    | Finish(node: nat, key: string, err: Option<TaskError>, result: Option<R>)
    | StopNode(node: nat)
    | Increase
    | Decrease

  /** The tree after an event, the processor invocations it made and the callbacks it fired. */
  datatype Step<P, R> = Step(tree: Tree<P, R>, dispatched: seq<Dispatch>, delivered: seq<Delivery<R>>)

  /** The invariant of every reachable tree: each node is well formed, the
      active count is the number of PROCESSING tasks, work in any queue means
      `needProcessing` is set, work is only left waiting while a pass is posted
      or the limit is reached, and at most one pass is posted, exactly while
      `isScheduling` is set. */
  ghost predicate Inv<P, R>(t: Tree<P, R>)
  {
    var c := t.counters;
    && |t.nodes| >= 1
    && AllInv(t.nodes)
    && c.active == ProcCount(t.nodes)
    && (!IdleFrom(t.nodes, 0) ==> c.needProcessing)
    && (!IdleFrom(t.nodes, 0) ==> c.isScheduling || c.active >= c.parallelism)
    && c.pending == Flag(c.isScheduling)
  }

  /** Whether `e` can happen in `t`: the node exists, a pass is posted, the task is being processed. */
  predicate Enabled<P, R>(t: Tree<P, R>, e: Event<P, R>)
  {
    match e
    case AddChild(_) => true
    case AddTask(i, _, _, _) => i < |t.nodes|
    case RunPass(_) => t.counters.pending > 0
    case Finish(i, key, _, _) => i < |t.nodes| && key in t.nodes[i].tasks && t.nodes[i].tasks[key].state.Processing?
    case StopNode(i) => i < |t.nodes|
    case Increase => true
    case Decrease => true
  }

  /** The event loop takes the posted `root._schedule` off its queue. */
  function TakePass<P, R>(t: Tree<P, R>): (t': Tree<P, R>)
    requires t.counters.pending > 0
    ensures t'.nodes == t.nodes && t'.counters == t.counters.(pending := t.counters.pending - 1)
  {
    t.(counters := t.counters.(pending := t.counters.pending - 1))
  }

  /** One step of the scheduler; `None` when the event cannot happen. */
  function Next<P, R>(t: Tree<P, R>, e: Event<P, R>): (r: Option<Step<P, R>>)
    requires Inv(t)
    ensures r.Some? <==> Enabled(t, e)
    ensures r.Some? ==> |r.value.tree.nodes| >= |t.nodes|
  {
    match e
    case AddChild(name) => Some(Step(NewChild(t, name), [], []))
    case AddTask(i, key, payload, cb) =>
      if i < |t.nodes| then var a := Add(t, i, key, payload, cb); Some(Step(a.0, [], a.1)) else None
    case RunPass(reply) =>
      if t.counters.pending > 0 then
        var s := Schedule(TakePass(t), reply);
        Some(Step(s.0, s.1, s.2))
      else None
    case Finish(i, key, err, result) =>
      if i < |t.nodes| && key in t.nodes[i].tasks && t.nodes[i].tasks[key].state.Processing? then
        var f := Complete(t, i, key, err, result);
        Some(Step(f.0, [], f.1))
      else None
    case StopNode(i) =>
      if i < |t.nodes| then var s := Stop(t, i); Some(Step(s.0, [], s.1)) else None
    case Increase => Some(Step(IncreaseParallelism(t), [], []))
    case Decrease => Some(Step(DecreaseParallelism(t), [], []))
  }
}
