/**
 Properties of the scheduler across events: the invariant `Inv` holds of every
 reachable tree, tasks only move forward through QUEUED -> PROCESSING -> DONE,
 and the concurrency limit bounds the active count as long as the limit is
 never lowered.
 */
module TaskQueueProofs {
  import opened Wrappers
  import AQ = ArrayQueue
  import opened TaskQueue

  // ---------------------------------------------------------------------------
  // Counting PROCESSING tasks
  // ---------------------------------------------------------------------------

  /** Tables that agree on which keys are PROCESSING have the same `ProcKeys`. */
  lemma SameProcKeys<P, R>(n: Node<P, R>, n': Node<P, R>)
    requires forall k :: k in n.tasks && n.tasks[k].state.Processing? ==> k in n'.tasks && n'.tasks[k].state.Processing?
    requires forall k :: k in n'.tasks && n'.tasks[k].state.Processing? ==> k in n.tasks && n.tasks[k].state.Processing?
    ensures ProcKeys(n') == ProcKeys(n)
  {
  }

  lemma ProcCountAppend<P, R>(nodes: seq<Node<P, R>>, n: Node<P, R>)
    requires n.tasks == map[]
    ensures ProcCount(nodes + [n]) == ProcCount(nodes)
  {
    assert (nodes + [n])[..|nodes|] == nodes;
    assert ProcKeys(n) == {};
  }

  /** Replacing node `i` by one with the same PROCESSING keys keeps the count. */
  lemma ProcCountSame<P, R>(nodes: seq<Node<P, R>>, i: nat, n: Node<P, R>)
    requires i < |nodes| && ProcKeys(n) == ProcKeys(nodes[i])
    ensures ProcCount(nodes[i := n]) == ProcCount(nodes)
  {
    ProcCountUpdate(nodes, i, n);
  }

  // ---------------------------------------------------------------------------
  // Idle queues
  // ---------------------------------------------------------------------------

  /** Replacing node `i` by one with an empty queue leaves no new work. */
  lemma IdleAfterEmptying<P, R>(nodes: seq<Node<P, R>>, i: nat, n: Node<P, R>)
    requires i < |nodes| && AQ.Contents(n.queue) == []
    ensures !IdleFrom(nodes[i := n], 0) ==> !IdleFrom(nodes, 0)
  {
    if !IdleFrom(nodes[i := n], 0) {
      var j :| 0 <= j < |nodes| && AQ.Contents(nodes[i := n][j].queue) != [];
      assert AQ.Contents(nodes[j].queue) != [];
    }
  }

  /** Replacing node `i` by one with the same queue keeps idleness. */
  lemma IdleSameQueue<P, R>(nodes: seq<Node<P, R>>, i: nat, n: Node<P, R>)
    requires i < |nodes| && AQ.Contents(n.queue) == AQ.Contents(nodes[i].queue)
    ensures IdleFrom(nodes[i := n], 0) == IdleFrom(nodes, 0)
  {
    if !IdleFrom(nodes, 0) {
      var j :| 0 <= j < |nodes| && AQ.Contents(nodes[j].queue) != [];
      assert AQ.Contents(nodes[i := n][j].queue) != [];
    }
  }

  // ---------------------------------------------------------------------------
  // Node invariant under each change of a single node
  // ---------------------------------------------------------------------------

  /** `add` of a new key: the entity is QUEUED and its key joins the back of the queue. */
  lemma FreshKeyInv<P, R>(n: Node<P, R>, n': Node<P, R>, key: string, payload: P, cb: CallbackId)
    requires NodeInv(n) && !n.stopped && key !in n.tasks
    requires n'.tasks == n.tasks[key := Entity(key, payload, Queued, cb, [])]
    requires AQ.Contents(n'.queue) == AQ.Contents(n.queue) + [key] && !n'.stopped
    ensures NodeInv(n') && ProcKeys(n') == ProcKeys(n)
  {
    var q, q' := AQ.Contents(n.queue), AQ.Contents(n'.queue);
    forall j | 0 <= j < |q|
      ensures q[j] != key
    {
      assert q[j] in n.tasks;
    }
    forall k | k in n'.tasks && n'.tasks[k].state.Queued?
      ensures k in q'
    {
      if k != key {
        assert k in q;
        var j :| 0 <= j < |q| && q[j] == k;
        assert q'[j] == k;
      } else {
        assert q'[|q|] == key;
      }
    }
  }

  /** `add` of a key that is still pending: the callback joins the waiting list. */
  lemma WaitingKeyInv<P, R>(n: Node<P, R>, key: string, cb: CallbackId)
    requires NodeInv(n) && key in n.tasks
    ensures var n' := n.(tasks := n.tasks[key := n.tasks[key].(waiting := n.tasks[key].waiting + [cb])]);
            NodeInv(n') && ProcKeys(n') == ProcKeys(n)
  {
    var n' := n.(tasks := n.tasks[key := n.tasks[key].(waiting := n.tasks[key].waiting + [cb])]);
    SameProcKeys(n, n');
  }

  /** A PROCESSING task finishes: it leaves `ProcKeys` and the queue is untouched. */
  lemma FinishKeyInv<P, R>(n: Node<P, R>, key: string, err: Option<TaskError>, result: Option<R>)
    requires NodeInv(n) && key in n.tasks && n.tasks[key].state.Processing?
    ensures var n' := n.(tasks := n.tasks[key := n.tasks[key].(state := Done(err, result))]);
            NodeInv(n') && ProcKeys(n') == ProcKeys(n) - {key} && |ProcKeys(n')| == |ProcKeys(n)| - 1
  {
    var n' := n.(tasks := n.tasks[key := n.tasks[key].(state := Done(err, result))]);
    var q := AQ.Contents(n.queue);
    forall j | 0 <= j < |q|
      ensures q[j] != key
    {
      assert n.tasks[q[j]].state.Queued?;
    }
    assert ProcKeys(n') == ProcKeys(n) - {key};
  }

  /** `stop`: the queue is emptied and the QUEUED entities leave the table. */
  lemma StoppedNodeInv<P, R>(n: Node<P, R>, n': Node<P, R>)
    requires NodeInv(n) && n'.stopped && AQ.Contents(n'.queue) == []
    requires n'.tasks == n.tasks - (set k | k in AQ.Contents(n.queue))
    ensures NodeInv(n') && ProcKeys(n') == ProcKeys(n)
  {
    var q := AQ.Contents(n.queue);
    forall k | k in n'.tasks
      ensures !n'.tasks[k].state.Queued?
    {
      assert k !in q;
    }
    forall k | k in n.tasks && n.tasks[k].state.Processing?
      ensures k in n'.tasks
    {
      assert forall j :: 0 <= j < |q| ==> q[j] != k;
    }
    SameProcKeys(n, n');
  }

  // ---------------------------------------------------------------------------
  // The invariant holds initially and after every event
  // ---------------------------------------------------------------------------

  lemma InitInv<P, R>(name: string, parallelism: Option<int>)
    ensures Inv(NewTree<P, R>(name, parallelism))
  {
    var t := NewTree<P, R>(name, parallelism);
    assert t.nodes[..0] == [];
  }

  lemma AddChildInv<P, R>(t: Tree<P, R>, name: string)
    requires Inv(t)
    ensures Inv(NewChild(t, name))
  {
    var t' := NewChild(t, name);
    assert t'.nodes == t.nodes + [t'.nodes[|t.nodes|]];
    ProcCountAppend(t.nodes, t'.nodes[|t.nodes|]);
    assert AllInv(t'.nodes) by {
      forall j | 0 <= j < |t'.nodes|
        ensures NodeInv(t'.nodes[j])
      {
        if j < |t.nodes| {
          assert t'.nodes[j] == t.nodes[j];
        }
      }
    }
    if !IdleFrom(t'.nodes, 0) {
      var j :| 0 <= j < |t'.nodes| && AQ.Contents(t'.nodes[j].queue) != [];
      assert t'.nodes[j] == t.nodes[j];
    }
  }

  lemma AddTaskInv<P, R>(t: Tree<P, R>, i: nat, key: string, payload: P, cb: CallbackId)
    requires Inv(t) && i < |t.nodes|
    ensures Inv(Add(t, i, key, payload, cb).0)
  {
    var n := t.nodes[i];
    var t' := Add(t, i, key, payload, cb).0;
    assert NodeInv(n);
    if n.stopped || (key in n.tasks && n.tasks[key].state.Done?) {
    } else if key in n.tasks {
      WaitingKeyInv(n, key, cb);
      assert t'.nodes == t.nodes[i := t'.nodes[i]];
      AllInvUpdate(t.nodes, i, t'.nodes[i]);
      ProcCountSame(t.nodes, i, t'.nodes[i]);
      IdleSameQueue(t.nodes, i, t'.nodes[i]);
    } else {
      FreshKeyInv(n, t'.nodes[i], key, payload, cb);
      assert t'.nodes == t.nodes[i := t'.nodes[i]];
      AllInvUpdate(t.nodes, i, t'.nodes[i]);
      ProcCountSame(t.nodes, i, t'.nodes[i]);
    }
  }

  lemma FinishInv<P, R>(t: Tree<P, R>, i: nat, key: string, err: Option<TaskError>, result: Option<R>)
    requires Inv(t) && i < |t.nodes| && key in t.nodes[i].tasks && t.nodes[i].tasks[key].state.Processing?
    ensures Inv(Complete(t, i, key, err, result).0)
  {
    var n := t.nodes[i];
    var t' := Complete(t, i, key, err, result).0;
    assert NodeInv(n);
    FinishKeyInv(n, key, err, result);
    assert t'.nodes == t.nodes[i := t'.nodes[i]];
    AllInvUpdate(t.nodes, i, t'.nodes[i]);
    ProcCountUpdate(t.nodes, i, t'.nodes[i]);
    IdleSameQueue(t.nodes, i, t'.nodes[i]);
  }

  lemma StopInv<P, R>(t: Tree<P, R>, i: nat)
    requires Inv(t) && i < |t.nodes|
    ensures Inv(Stop(t, i).0)
  {
    var n := t.nodes[i];
    var t' := Stop(t, i).0;
    assert NodeInv(n);
    StoppedNodeInv(n, t'.nodes[i]);
    assert t'.nodes == t.nodes[i := t'.nodes[i]];
    AllInvUpdate(t.nodes, i, t'.nodes[i]);
    ProcCountSame(t.nodes, i, t'.nodes[i]);
    IdleAfterEmptying(t.nodes, i, t'.nodes[i]);
  }

  lemma IncreaseInv<P, R>(t: Tree<P, R>)
    requires Inv(t)
    ensures Inv(IncreaseParallelism(t))
  {
  }

  lemma DecreaseInv<P, R>(t: Tree<P, R>)
    requires Inv(t)
    ensures Inv(DecreaseParallelism(t))
  {
  }

  lemma RunPassInv<P, R>(t: Tree<P, R>, reply: (nat, string) -> Reply<R>)
    requires Inv(t) && t.counters.pending > 0
    ensures Inv(Schedule(TakePass(t), reply).0)
  {
    var t1 := TakePass(t);
    var s := Schedule(t1, reply);
    ScheduledInv(t1, s.0, s.1);
  }

  /** A pass that starts while it is the one posted pass leaves a tree meeting `Inv`. */
  lemma ScheduledInv<P, R>(t: Tree<P, R>, t': Tree<P, R>, ds: seq<Dispatch>)
    requires |t.nodes| >= 1 && AllInv(t.nodes) && t.counters.active == ProcCount(t.nodes)
    requires !IdleFrom(t.nodes, 0) ==> t.counters.needProcessing
    requires t.counters.isScheduling && t.counters.pending == 0
    requires SchedulePost(t, t', ds)
    ensures Inv(t')
  {
    WorkWasThere(t.nodes, t'.nodes);
  }

  /** A sweep only removes queued keys, so work left behind was already there. */
  lemma WorkWasThere<P, R>(nodes: seq<Node<P, R>>, nodes': seq<Node<P, R>>)
    requires |nodes'| == |nodes|
    requires forall j {:trigger NodeStep(nodes[j], nodes'[j])} :: 0 <= j < |nodes| ==> NodeStep(nodes[j], nodes'[j])
    ensures !IdleFrom(nodes', 0) ==> !IdleFrom(nodes, 0)
  {
    if !IdleFrom(nodes', 0) {
      var j :| 0 <= j < |nodes'| && AQ.Contents(nodes'[j].queue) != [];
      assert NodeStep(nodes[j], nodes'[j]);
    }
  }

  /** `Inv` is preserved by every event that can happen. */
  lemma NextInv<P, R>(t: Tree<P, R>, e: Event<P, R>)
    requires Inv(t) && Enabled(t, e)
    ensures Next(t, e).Some? && Inv(Next(t, e).value.tree)
  {
    match e
    case AddChild(name) => AddChildInv(t, name);
    case AddTask(i, key, payload, cb) => AddTaskInv(t, i, key, payload, cb);
    case RunPass(reply) => RunPassInv(t, reply);
    case Finish(i, key, err, result) => FinishInv(t, i, key, err, result);
    case StopNode(i) => StopInv(t, i);
    case Increase => IncreaseInv(t);
    case Decrease => DecreaseInv(t);
  }

  // ---------------------------------------------------------------------------
  // Tasks only move forward
  // ---------------------------------------------------------------------------

  /** `n'` follows `n`: every entity advanced, an entity leaves the table only
      when its node is stopped while it is still QUEUED, and a stopped node
      takes no new tasks. */
  ghost predicate NodeForward<P, R>(n: Node<P, R>, n': Node<P, R>)
  {
    && NodeAdvanced(n, n')
    && (forall k :: k in n.tasks && k !in n'.tasks ==> n'.stopped && n.tasks[k].state.Queued?)
    && (n.stopped ==> n'.tasks.Keys <= n.tasks.Keys)
  }

  /** Tree `t'` follows `t`: nodes are only appended and each existing node moves forward. */
  ghost predicate Forward<P, R>(t: Tree<P, R>, t': Tree<P, R>)
  {
    && |t.nodes| <= |t'.nodes|
    && forall j {:trigger NodeForward(t.nodes[j], t'.nodes[j])} :: 0 <= j < |t.nodes| ==> NodeForward(t.nodes[j], t'.nodes[j])
  }

  lemma NodeForwardRefl<P, R>(n: Node<P, R>)
    ensures NodeForward(n, n)
  {
    assert forall k :: k in n.tasks ==> EntityAdvanced(n.tasks[k], n.tasks[k]);
  }

  /** Replacing node `i` by a successor of it moves the whole tree forward. */
  lemma ForwardUpdate<P, R>(t: Tree<P, R>, t': Tree<P, R>, i: nat)
    requires i < |t.nodes| == |t'.nodes| && t'.nodes == t.nodes[i := t'.nodes[i]]
    requires NodeForward(t.nodes[i], t'.nodes[i])
    ensures Forward(t, t')
  {
    forall j | 0 <= j < |t.nodes|
      ensures NodeForward(t.nodes[j], t'.nodes[j])
    {
      if j != i {
        NodeForwardRefl(t.nodes[j]);
      }
    }
  }

  lemma ForwardSameNodes<P, R>(t: Tree<P, R>, t': Tree<P, R>)
    requires t.nodes <= t'.nodes
    ensures Forward(t, t')
  {
    forall j | 0 <= j < |t.nodes|
      ensures NodeForward(t.nodes[j], t'.nodes[j])
    {
      NodeForwardRefl(t.nodes[j]);
    }
  }

  lemma AddChildForward<P, R>(t: Tree<P, R>, name: string)
    ensures Forward(t, NewChild(t, name))
  {
    ForwardSameNodes(t, NewChild(t, name));
  }

  lemma ParallelismForward<P, R>(t: Tree<P, R>)
    ensures Forward(t, IncreaseParallelism(t)) && Forward(t, DecreaseParallelism(t))
  {
    ForwardSameNodes(t, IncreaseParallelism(t));
    ForwardSameNodes(t, DecreaseParallelism(t));
  }

  lemma AddTaskForward<P, R>(t: Tree<P, R>, i: nat, key: string, payload: P, cb: CallbackId)
    requires Inv(t) && i < |t.nodes|
    ensures Forward(t, Add(t, i, key, payload, cb).0)
  {
    var n := t.nodes[i];
    var t' := Add(t, i, key, payload, cb).0;
    if n.stopped || (key in n.tasks && n.tasks[key].state.Done?) {
      ForwardSameNodes(t, t');
    } else {
      assert t'.nodes == t.nodes[i := t'.nodes[i]];
      forall k | k in n.tasks && k in t'.nodes[i].tasks
        ensures EntityAdvanced(n.tasks[k], t'.nodes[i].tasks[k])
      {
      }
      ForwardUpdate(t, t', i);
    }
  }

  lemma FinishForward<P, R>(t: Tree<P, R>, i: nat, key: string, err: Option<TaskError>, result: Option<R>)
    requires Inv(t) && i < |t.nodes| && key in t.nodes[i].tasks && t.nodes[i].tasks[key].state.Processing?
    ensures Forward(t, Complete(t, i, key, err, result).0)
  {
    var t' := Complete(t, i, key, err, result).0;
    assert t'.nodes == t.nodes[i := t'.nodes[i]];
    ForwardUpdate(t, t', i);
  }

  lemma StopForward<P, R>(t: Tree<P, R>, i: nat)
    requires Inv(t) && i < |t.nodes|
    ensures Forward(t, Stop(t, i).0)
  {
    var n := t.nodes[i];
    var t' := Stop(t, i).0;
    assert NodeInv(n);
    assert t'.nodes == t.nodes[i := t'.nodes[i]];
    var q := AQ.Contents(n.queue);
    forall k | k in n.tasks && k !in t'.nodes[i].tasks
      ensures n.tasks[k].state.Queued?
    {
      assert k in q;
      var j :| 0 <= j < |q| && q[j] == k;
    }
    ForwardUpdate(t, t', i);
  }

  lemma RunPassForward<P, R>(t: Tree<P, R>, reply: (nat, string) -> Reply<R>)
    requires Inv(t) && t.counters.pending > 0
    ensures Forward(t, Schedule(TakePass(t), reply).0)
  {
    var t1 := TakePass(t);
    var t' := Schedule(t1, reply).0;
    ShapeForward(t.nodes, t'.nodes);
  }

  lemma ShapeForward<P, R>(nodes: seq<Node<P, R>>, nodes': seq<Node<P, R>>)
    requires SweepShape(nodes, 0, nodes')
    ensures forall j {:trigger NodeForward(nodes[j], nodes'[j])} :: 0 <= j < |nodes| ==> NodeForward(nodes[j], nodes'[j])
  {
    forall j | 0 <= j < |nodes|
      ensures NodeForward(nodes[j], nodes'[j])
    {
      assert NodeStep(nodes[j], nodes'[j]);
    }
  }

  /** Every event moves the tree forward. */
  lemma NextForward<P, R>(t: Tree<P, R>, e: Event<P, R>)
    requires Inv(t) && Enabled(t, e)
    ensures Next(t, e).Some? && Forward(t, Next(t, e).value.tree)
  {
    var t' := Next(t, e).value.tree;
    match e
    case AddChild(name) =>
      assert t' == NewChild(t, name);
      AddChildForward(t, name);
    case AddTask(i, key, payload, cb) =>
      assert t' == Add(t, i, key, payload, cb).0;
      AddTaskForward(t, i, key, payload, cb);
    case RunPass(reply) =>
      assert t' == Schedule(TakePass(t), reply).0;
      RunPassForward(t, reply);
    case Finish(i, key, err, result) =>
      assert t' == Complete(t, i, key, err, result).0;
      FinishForward(t, i, key, err, result);
    case StopNode(i) =>
      assert t' == Stop(t, i).0;
      StopForward(t, i);
    case Increase =>
      assert t' == IncreaseParallelism(t);
      ParallelismForward(t);
    case Decrease =>
      assert t' == DecreaseParallelism(t);
      ParallelismForward(t);
  }

  // ---------------------------------------------------------------------------
  // The concurrency limit
  // ---------------------------------------------------------------------------

  /** At most `parallelism` tasks are PROCESSING (none while it is below one). */
  ghost predicate WithinLimit<P, R>(t: Tree<P, R>)
  {
    t.counters.active <= Max(t.counters.parallelism, 0)
  }

  /** As long as the limit is never lowered, every event keeps the active count within it. */
  lemma NextWithinLimit<P, R>(t: Tree<P, R>, e: Event<P, R>)
    requires Inv(t) && Enabled(t, e) && !e.Decrease? && WithinLimit(t)
    ensures Next(t, e).Some? && WithinLimit(Next(t, e).value.tree)
  {
    var t' := Next(t, e).value.tree;
    match e
    case AddChild(name) =>
    case AddTask(i, key, payload, cb) =>
      assert t' == Add(t, i, key, payload, cb).0;
    case RunPass(reply) =>
      var s := Schedule(TakePass(t), reply);
      assert t' == s.0;
      assert ScheduleCounters(t.nodes, TakePass(t).counters, t'.nodes, t'.counters);
    case Finish(i, key, err, result) =>
      assert t' == Complete(t, i, key, err, result).0;
    case StopNode(i) =>
      assert t' == Stop(t, i).0;
    case Increase =>
  }

  /** `increaseParallelism` followed by `decreaseParallelism` restores the limit
      and the nodes; only a pass may have been posted meanwhile. */
  lemma IncreaseThenDecrease<P, R>(t: Tree<P, R>)
    ensures var t' := DecreaseParallelism(IncreaseParallelism(t));
            && t'.nodes == t.nodes
            && t'.counters.parallelism == t.counters.parallelism
            && t'.counters.active == t.counters.active
            && t'.counters.needProcessing == t.counters.needProcessing
            && t'.counters.isScheduling == (t.counters.isScheduling || t.counters.needProcessing)
  {
  }

  // ---------------------------------------------------------------------------
  // Runs of events
  // ---------------------------------------------------------------------------

  /** The tree after the events `es` in order, or `None` if one of them cannot happen. */
  ghost function Run<P, R>(t: Tree<P, R>, es: seq<Event<P, R>>): Option<Tree<P, R>>
    requires Inv(t)
    decreases |es|
  {
    if |es| == 0 then Some(t)
    else if !Enabled(t, es[0]) then None
    else
      NextInv(t, es[0]);
      Run(Next(t, es[0]).value.tree, es[1..])
  }

  /** Every tree reachable from a new root satisfies `Inv` and has moved forward from it. */
  lemma {:induction false} RunKeepsInv<P, R>(t: Tree<P, R>, es: seq<Event<P, R>>)
    requires Inv(t)
    ensures Run(t, es).Some? ==> Inv(Run(t, es).value) && Forward(t, Run(t, es).value)
    decreases |es|
  {
    if |es| == 0 {
      ForwardSameNodes(t, t);
    } else if Enabled(t, es[0]) {
      NextInv(t, es[0]);
      NextForward(t, es[0]);
      var t1 := Next(t, es[0]).value.tree;
      RunKeepsInv(t1, es[1..]);
      if Run(t, es).Some? {
        ForwardTrans(t, t1, Run(t1, es[1..]).value);
      }
    }
  }

  lemma ForwardTrans<P, R>(t1: Tree<P, R>, t2: Tree<P, R>, t3: Tree<P, R>)
    requires Forward(t1, t2) && Forward(t2, t3)
    ensures Forward(t1, t3)
  {
    forall j | 0 <= j < |t1.nodes|
      ensures NodeForward(t1.nodes[j], t3.nodes[j])
    {
      var n1, n2, n3 := t1.nodes[j], t2.nodes[j], t3.nodes[j];
      assert NodeForward(n1, n2) && NodeForward(n2, n3);
      forall k | k in n1.tasks && k in n3.tasks
        ensures EntityAdvanced(n1.tasks[k], n3.tasks[k])
      {
      assert k in n2.tasks;
      }
    }
  }

  // ---------------------------------------------------------------------------
  // What a scheduling pass dispatches
  // ---------------------------------------------------------------------------

  /** `d` names a task of an existing node that was QUEUED before and is no
      longer QUEUED after (it is PROCESSING, or DONE if the processor called back at once). */
  ghost predicate WasDispatched<P, R>(pre: seq<Node<P, R>>, post: seq<Node<P, R>>, d: Dispatch)
  {
    && d.node < |pre| == |post|
    && d.key in pre[d.node].tasks && pre[d.node].tasks[d.key].state.Queued?
    && d.key in post[d.node].tasks && !post[d.node].tasks[d.key].state.Queued?
  }

  /** The keys a node lost from the front of its queue were QUEUED and are no longer. */
  lemma RemovedWereQueued<P, R>(n: Node<P, R>, n': Node<P, R>)
    requires NodeInv(n) && NodeInv(n') && NodeStep(n, n')
    ensures forall k :: k in Removed(n, n') ==>
              && k in n.tasks && n.tasks[k].state.Queued?
              && k in n'.tasks && !n'.tasks[k].state.Queued?
  {
    var qa, qb := AQ.Contents(n.queue), AQ.Contents(n'.queue);
    var cut := |qa| - |qb|;
    forall k | k in Removed(n, n')
      ensures k in n.tasks && n.tasks[k].state.Queued? && k in n'.tasks && !n'.tasks[k].state.Queued?
    {
      var j :| 0 <= j < cut && qa[j] == k;
      DroppedFront(qa, qb, j);
    }
  }

  /** An item cut from the front of a sequence without repeats is not in what remains. */
  lemma DroppedFront<X>(qa: seq<X>, qb: seq<X>, j: nat)
    requires |qb| <= |qa| && qb == qa[|qa| - |qb|..] && j < |qa| - |qb|
    requires forall j1, j2 :: 0 <= j1 < j2 < |qa| ==> qa[j1] != qa[j2]
    ensures qa[j] !in qb
  {
    forall m | 0 <= m < |qb|
      ensures qb[m] != qa[j]
    {
      assert qb[m] == qa[|qa| - |qb| + m];
    }
  }

  /** Every dispatch counted from node `i` on is of a task that was QUEUED and no longer is. */
  lemma {:induction false} TakenWereQueued<P, R>(pre: seq<Node<P, R>>, post: seq<Node<P, R>>, i: nat)
    requires AllInv(pre) && SweepShape(pre, 0, post)
    ensures forall d :: d in Taken(pre, post, i) ==> i <= d.node && WasDispatched(pre, post, d)
    decreases |pre| - i
  {
    if i < |pre| {
      TakenWereQueued(pre, post, i + 1);
      assert NodeInv(pre[i]) && NodeInv(post[i]) && NodeStep(pre[i], post[i]);
      RemovedWereQueued(pre[i], post[i]);
      var keys := Removed(pre[i], post[i]);
      forall d | d in Tag(i, keys)
        ensures i <= d.node && WasDispatched(pre, post, d)
      {
        var j :| 0 <= j < |keys| && Tag(i, keys)[j] == d;
        assert keys[j] in keys;
      }
    }
  }

  /** A scheduling pass hands the processor only tasks that were QUEUED, and
      each of them leaves the QUEUED state. */
  lemma RunPassDispatches<P, R>(t: Tree<P, R>, reply: (nat, string) -> Reply<R>)
    requires Inv(t) && t.counters.pending > 0
    ensures var s := Schedule(TakePass(t), reply);
            forall d :: d in s.1 ==> WasDispatched(t.nodes, s.0.nodes, d)
  {
    var s := Schedule(TakePass(t), reply);
    TakenWereQueued(t.nodes, s.0.nodes, 0);
  }
}
