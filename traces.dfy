/** Sequences of calls to the scheduler's public operations, and what holds
    of the registry after any of them. */
module Traces {
  import opened ReturnCodes
  import opened Registry

  /** One call of a public operation, with its arguments. */
  datatype Op =
    | CallInit
    | CallRegisterNode(nodeId: int32)
    | CallUnregisterNode(nodeId: int32)
    | CallAddTask(taskId: int32, consumption: int32)
    | CallDeleteTask(taskId: int32)
    | CallScheduleTask(threshold: int32)
    | CallQueryTaskStatus(tasks: Option<seq<TaskInfo>>)

  /** The result of one call on registry `s`. */
  function Step(s: State, op: Op): Outcome {
    match op
    case CallInit => Registry.Init(s)
    case CallRegisterNode(n) => Registry.RegisterNode(s, n)
    case CallUnregisterNode(n) => Registry.UnregisterNode(s, n)
    case CallAddTask(t, c) => Registry.AddTask(s, t, c)
    case CallDeleteTask(t) => Registry.DeleteTask(s, t)
    case CallScheduleTask(th) => Registry.ScheduleTask(s, th)
    case CallQueryTaskStatus(ts) => Outcome(s, Registry.QueryTaskStatus(ts))
  }

  /** The registry after the calls `ops`, made in order from `s`. */
  function Run(s: State, ops: seq<Op>): State
    decreases |ops|
  {
    if ops == [] then s else Run(Step(s, ops[0]).state, ops[1..])
  }

  /** The result code of the last call of `ops`. */
  function LastCode(s: State, ops: seq<Op>): ReturnCode
    requires ops != []
    decreases |ops|
  {
    if |ops| == 1 then Step(s, ops[0]).code
    else LastCode(Step(s, ops[0]).state, ops[1..])
  }

  /** Every call keeps the registry invariant: the node list never holds an
      id twice, and only positive ids are stored. */
  lemma StepKeepsInv(s: State, op: Op)
    requires Inv(s)
    ensures Inv(Step(s, op).state)
  {
    match op
    case CallUnregisterNode(n) =>
      if n > 0 && n in s.nodes {
        RemoveFirstKeepsNoDuplicates(s.nodes, n);
        forall y ensures y in RemoveFirst(s.nodes, n) ==> y in s.nodes {
          RemoveFirstMembers(s.nodes, n, y);
        }
      }
    case CallRegisterNode(n) =>
      if n > 0 && n !in s.nodes {
        var r := s.nodes + [n];
        forall i, j | 0 <= i < j < |r| ensures r[i] != r[j] {
          if j == |s.nodes| { assert r[i] in s.nodes; }
        }
      }
    case _ =>
  }

  /** Whatever calls are made, in whatever order, the invariant survives. */
  lemma {:induction false} RunKeepsInv(s: State, ops: seq<Op>)
    requires Inv(s)
    ensures Inv(Run(s, ops))
    decreases |ops|
  {
    if ops != [] {
      StepKeepsInv(s, ops[0]);
      RunKeepsInv(Step(s, ops[0]).state, ops[1..]);
    }
  }

  /** From the initial registry, no sequence of calls ever puts a node id
      into `registeredNodes` twice, nor a non-positive id into it. */
  lemma ReachableHasNoDuplicateNodes(ops: seq<Op>)
    ensures NoDuplicates(Run(Initial(), ops).nodes)
    ensures forall n :: n in Run(Initial(), ops).nodes ==> n > 0
  {
    RunKeepsInv(Initial(), ops);
  }

  /** A call that reports an error leaves the registry exactly as it was. */
  lemma RejectedCallChangesNothing(s: State, op: Op)
    requires Step(s, op).code.IsError()
    ensures Step(s, op).state == s
  {
    match op
    case CallInit =>
    case _ =>
  }

  /** Registering a fresh id twice: the second call is refused with `E005`
      and the list holds the id exactly once. */
  lemma RegisterTwice(s: State, nodeId: int32)
    requires nodeId > 0 && nodeId !in s.nodes
    ensures var first := Registry.RegisterNode(s, nodeId);
      && first.code == E003
      && Registry.RegisterNode(first.state, nodeId) == Outcome(first.state, E005)
      && multiset(first.state.nodes)[nodeId] == 1
  {
    var first := Registry.RegisterNode(s, nodeId);
    assert multiset(s.nodes)[nodeId] == 0;
    assert multiset(first.state.nodes) == multiset(s.nodes) + multiset{nodeId};
  }

  /** Unregistering the id just registered restores the registry. */
  lemma RegisterThenUnregister(s: State, nodeId: int32)
    requires nodeId > 0 && nodeId !in s.nodes
    ensures Registry.UnregisterNode(Registry.RegisterNode(s, nodeId).state, nodeId) == Outcome(s, E006)
  {
    var r := s.nodes + [nodeId];
    var i := IndexOf(r, nodeId);
    assert forall k :: 0 <= k < |s.nodes| ==> r[k] == s.nodes[k];
    assert i == |s.nodes|;
    assert r[..i] == s.nodes;
  }

  /** Deleting the task just added restores the registry. */
  lemma AddThenDelete(s: State, taskId: int32, consumption: int32)
    requires taskId > 0 && taskId !in s.consumption
    ensures Registry.DeleteTask(Registry.AddTask(s, taskId, consumption).state, taskId) == Outcome(s, E011)
  {
    assert s.consumption[taskId := consumption] - {taskId} == s.consumption;
  }

  /** Deleting a task and adding it back with its old consumption restores
      the registry. */
  lemma DeleteThenAdd(s: State, taskId: int32)
    requires taskId > 0 && taskId in s.consumption
    ensures var d := Registry.DeleteTask(s, taskId).state;
      Registry.AddTask(d, taskId, s.consumption[taskId]) == Outcome(s, E008)
  {
    assert (s.consumption - {taskId})[taskId := s.consumption[taskId]] == s.consumption;
  }

  /** `init` forgets the nodes but not the tasks: a task added before it is
      still known afterwards, so adding its id again is refused with `E010`
      and the old consumption is kept. */
  lemma InitKeepsTasks(taskId: int32, consumption: int32, again: int32)
    requires taskId > 0
    ensures var ops := [CallAddTask(taskId, consumption), CallInit, CallAddTask(taskId, again)];
      && LastCode(Initial(), ops) == E010
      && Run(Initial(), ops).consumption == map[taskId := consumption]
  {
    var ops := [CallAddTask(taskId, consumption), CallInit, CallAddTask(taskId, again)];
    var s1 := Step(Initial(), ops[0]).state;
    var s2 := Step(s1, ops[1]).state;
    assert s1.consumption == map[taskId := consumption];
    assert s2.consumption == map[taskId := consumption];
    assert ops[1..][1..] == [CallAddTask(taskId, again)];
    assert Run(s2, [CallAddTask(taskId, again)]) == s2;
    assert LastCode(s2, [CallAddTask(taskId, again)]) == E010;
  }

  /** `scheduleTask` answers from the threshold alone: any two registries get
      the same code, and neither changes. */
  lemma ScheduleIgnoresRegistry(s: State, t: State, threshold: int32)
    ensures Registry.ScheduleTask(s, threshold).code == Registry.ScheduleTask(t, threshold).code
    ensures Registry.ScheduleTask(s, threshold).state == s
  {
  }

  /** Querying twice in a row gives the same code and leaves the registry
      unchanged. */
  lemma QueryTwice(s: State, tasks: Option<seq<TaskInfo>>)
    ensures var q := Step(s, CallQueryTaskStatus(tasks));
      q.state == s && Step(q.state, CallQueryTaskStatus(tasks)) == q
  {
  }
}
