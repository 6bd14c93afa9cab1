/** The scheduler's registry as a value: the three collections `Schedule`
    keeps, and one function per public operation giving the result code and
    the registry afterwards. The class in scheduler.dfy is proved to follow
    these functions step for step. */
module Registry {
  import opened ReturnCodes

  /** Java's `int`: ids and consumptions are stored and compared, never
      computed with, so no wrap-around arises. */
  newtype int32 = x: int | -0x8000_0000 <= x < 0x8000_0000

  /** A task record. Its fields play no part in any operation: the only thing
      done to the list of them is clearing it. */
  type TaskInfo

  datatype Option<T> = None | Some(value: T)

  /** `registeredNodes`, `scheduleTasks` and `taskConsumptionMap`. */
  datatype State = State(nodes: seq<int32>, tasks: seq<TaskInfo>, consumption: map<int32, int32>)

  /** What an operation returns together with the registry it leaves. */
  datatype Outcome = Outcome(state: State, code: ReturnCode)

  /** The registry as the static initialiser creates it. */
  function Initial(): State {
    State([], [], map[])
  }

  predicate NoDuplicates(s: seq<int32>) {
    forall i, j :: 0 <= i < j < |s| ==> s[i] != s[j]
  }

  /** What every reachable registry satisfies: no node id twice, and every
      stored node id and task id positive. */
  predicate Inv(s: State) {
    && NoDuplicates(s.nodes)
    && (forall n :: n in s.nodes ==> n > 0)
    && (forall t :: t in s.consumption ==> t > 0)
  }

  /** The position of the first occurrence of `x` in `s`. */
  function IndexOf(s: seq<int32>, x: int32): (i: nat)
    requires x in s
    ensures i < |s| && s[i] == x && x !in s[..i]
  {
    if s[0] == x then 0 else 1 + IndexOf(s[1..], x)
  }

  /** `List.remove(Object)`: drops the first element equal to `x`, if any,
      and keeps the others in order. */
  function RemoveFirst(s: seq<int32>, x: int32): (r: seq<int32>)
    ensures x !in s ==> r == s
    ensures x in s ==> r == s[..IndexOf(s, x)] + s[IndexOf(s, x) + 1..]
  {
    if s == [] then []
    else if s[0] == x then s[1..]
    else
      var t := s[1..];
      assert x in s ==> (
        && x in t && IndexOf(s, x) == 1 + IndexOf(t, x)
        && s[..IndexOf(s, x)] == [s[0]] + t[..IndexOf(t, x)]
        && s[IndexOf(s, x) + 1..] == t[IndexOf(t, x) + 1..]);
      [s[0]] + RemoveFirst(t, x)
  }

  /** Removing one id from a list without duplicates leaves a list without
      duplicates. */
  lemma RemoveFirstKeepsNoDuplicates(s: seq<int32>, x: int32)
    requires NoDuplicates(s)
    ensures NoDuplicates(RemoveFirst(s, x))
  {
  }

  /** In a list without duplicates, removing `x` leaves exactly the other
      ids. */
  lemma RemoveFirstMembers(s: seq<int32>, x: int32, y: int32)
    requires NoDuplicates(s)
    ensures y in RemoveFirst(s, x) <==> y in s && y != x
  {
  }

  /** `init`: empties the node list and the task list, leaves the task
      consumption map as it is, and reports success. */
  function Init(s: State): (o: Outcome)
    ensures o.code == E001
    ensures o.state.nodes == [] && o.state.tasks == []
    ensures o.state.consumption == s.consumption
  {
    Outcome(s.(nodes := [], tasks := []), E001)
  }

  /** `registerNode`: a non-positive id is refused first, then an id already
      registered; otherwise the id is appended. */
  function RegisterNode(s: State, nodeId: int32): (o: Outcome)
    ensures o.code == E004 <==> nodeId <= 0
    ensures o.code == E005 <==> nodeId > 0 && nodeId in s.nodes
    ensures o.code == E003 <==> nodeId > 0 && nodeId !in s.nodes
    ensures o.code != E003 ==> o.state == s
    ensures o.code == E003 ==> o.state.nodes == s.nodes + [nodeId]
    ensures o.state.tasks == s.tasks && o.state.consumption == s.consumption
  {
    if nodeId <= 0 then Outcome(s, E004)
    else if nodeId in s.nodes then Outcome(s, E005)
    else Outcome(s.(nodes := s.nodes + [nodeId]), E003)
  }

  /** `unregisterNode`: a non-positive id is refused first, then an id not
      registered; otherwise the id is removed by value. Tasks are not
      touched. */
  function UnregisterNode(s: State, nodeId: int32): (o: Outcome)
    ensures o.code == E004 <==> nodeId <= 0
    ensures o.code == E007 <==> nodeId > 0 && nodeId !in s.nodes
    ensures o.code == E006 <==> nodeId > 0 && nodeId in s.nodes
    ensures o.code != E006 ==> o.state == s
    ensures o.code == E006 ==>
      var i := IndexOf(s.nodes, nodeId);
      o.state.nodes == s.nodes[..i] + s.nodes[i + 1..]
    ensures o.state.tasks == s.tasks && o.state.consumption == s.consumption
  {
    if nodeId <= 0 then Outcome(s, E004)
    else if nodeId !in s.nodes then Outcome(s, E007)
    else Outcome(s.(nodes := RemoveFirst(s.nodes, nodeId)), E006)
  }

  /** On a registry without duplicate nodes, a successful `unregisterNode`
      leaves every other node registered and the removed one gone. */
  lemma UnregisterRemovesNode(s: State, nodeId: int32, other: int32)
    requires Inv(s)
    ensures var o := UnregisterNode(s, nodeId);
      o.code == E006 ==> nodeId !in o.state.nodes && (other in o.state.nodes <==> other in s.nodes && other != nodeId)
  {
    if nodeId > 0 && nodeId in s.nodes {
      RemoveFirstMembers(s.nodes, nodeId, nodeId);
      RemoveFirstMembers(s.nodes, nodeId, other);
    }
  }

  /** `addTask`: a non-positive id is refused first, then an id already in the
      consumption map (whose entry is kept); otherwise the id is mapped to the
      consumption, which is stored without any check. */
  function AddTask(s: State, taskId: int32, consumption: int32): (o: Outcome)
    ensures o.code == E009 <==> taskId <= 0
    ensures o.code == E010 <==> taskId > 0 && taskId in s.consumption
    ensures o.code == E008 <==> taskId > 0 && taskId !in s.consumption
    ensures o.code != E008 ==> o.state == s
    ensures o.code == E008 ==>
      && o.state.consumption.Keys == s.consumption.Keys + {taskId}
      && o.state.consumption[taskId] == consumption
      && (forall t :: t in s.consumption ==> o.state.consumption[t] == s.consumption[t])
    ensures o.state.nodes == s.nodes && o.state.tasks == s.tasks
  {
    if taskId <= 0 then Outcome(s, E009)
    else if taskId in s.consumption then Outcome(s, E010)
    else Outcome(s.(consumption := s.consumption[taskId := consumption]), E008)
  }

  /** `deleteTask`: a non-positive id is refused first, then an id absent from
      the consumption map; otherwise exactly that entry is removed. */
  function DeleteTask(s: State, taskId: int32): (o: Outcome)
    ensures o.code == E009 <==> taskId <= 0
    ensures o.code == E012 <==> taskId > 0 && taskId !in s.consumption
    ensures o.code == E011 <==> taskId > 0 && taskId in s.consumption
    ensures o.code != E011 ==> o.state == s
    ensures o.code == E011 ==>
      && o.state.consumption.Keys == s.consumption.Keys - {taskId}
      && (forall t :: t in o.state.consumption ==> o.state.consumption[t] == s.consumption[t])
    ensures o.state.nodes == s.nodes && o.state.tasks == s.tasks
  {
    if taskId <= 0 then Outcome(s, E009)
    else if taskId !in s.consumption then Outcome(s, E012)
    else Outcome(s.(consumption := s.consumption - {taskId}), E011)
  }

  /** `scheduleTask`: only the threshold is checked; no plan is computed and
      nothing changes. */
  function ScheduleTask(s: State, threshold: int32): (o: Outcome)
    ensures o.code == E002 <==> threshold <= 0
    ensures o.code == E013 <==> threshold > 0
    ensures o.state == s
  {
    if threshold <= 0 then Outcome(s, E002) else Outcome(s, E013)
  }

  /** `queryTaskStatus`: refuses a null (`None`) or empty output list and
      otherwise reports success. The registry is neither read nor changed. */
  function QueryTaskStatus(tasks: Option<seq<TaskInfo>>): (code: ReturnCode)
    ensures code == E016 <==> tasks.None? || |tasks.value| == 0
    ensures code == E015 <==> tasks.Some? && |tasks.value| > 0
  {
    if tasks.None? || |tasks.value| == 0 then E016 else E015
  }
}
