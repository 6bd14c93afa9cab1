/** The `Schedule` class: the three collections are fields that each public
    operation updates in place. Every method is proved to produce the code
    and the new collections that the matching function of `Registry` gives
    for the old ones, and to keep the registry invariant. */
module Scheduler {
  import opened ReturnCodes
  import opened Registry
  import opened Traces

  class Schedule {
    /** Registered node ids, in registration order. */
    var registeredNodes: seq<int32>
    /** Tasks prepared for scheduling. */
    var scheduleTasks: seq<TaskInfo>
    /** Consumption of every added task, by task id. */
    var taskConsumptionMap: map<int32, int32>

    /** The collections as a registry value. */
    function Model(): State
      reads this
    {
      State(registeredNodes, scheduleTasks, taskConsumptionMap)
    }

    ghost predicate Valid()
      reads this
    {
      Inv(Model())
    }

    /** The static initialiser: three empty collections. */
    constructor ()
      ensures Valid() && Model() == Initial()
    {
      registeredNodes := [];
      scheduleTasks := [];
      taskConsumptionMap := map[];
    }

    method Init() returns (r: ReturnCode)
      requires Valid()
      modifies this
      ensures Valid()
      ensures Outcome(Model(), r) == Registry.Init(old(Model()))
    {
      registeredNodes := [];
      scheduleTasks := [];
      r := E001;
    }

    method RegisterNode(nodeId: int32) returns (r: ReturnCode)
      requires Valid()
      modifies this
      ensures Valid()
      ensures Outcome(Model(), r) == Registry.RegisterNode(old(Model()), nodeId)
    {
      if nodeId <= 0 {
        return E004;
      }
      if nodeId in registeredNodes {
        return E005;
      }
      StepKeepsInv(Model(), CallRegisterNode(nodeId));
      registeredNodes := registeredNodes + [nodeId];
      r := E003;
    }

    method UnregisterNode(nodeId: int32) returns (r: ReturnCode)
      requires Valid()
      modifies this
      ensures Valid()
      ensures Outcome(Model(), r) == Registry.UnregisterNode(old(Model()), nodeId)
      ensures r == E006 ==> nodeId !in registeredNodes
    {
      if nodeId <= 0 {
        return E004;
      }
      if nodeId !in registeredNodes {
        return E007;
      }
      StepKeepsInv(Model(), CallUnregisterNode(nodeId));
      UnregisterRemovesNode(Model(), nodeId, nodeId);
      registeredNodes := RemoveFirst(registeredNodes, nodeId);
      r := E006;
    }

    method AddTask(taskId: int32, consumption: int32) returns (r: ReturnCode)
      requires Valid()
      modifies this
      ensures Valid()
      ensures Outcome(Model(), r) == Registry.AddTask(old(Model()), taskId, consumption)
    {
      if taskId <= 0 {
        return E009;
      }
      if taskId in taskConsumptionMap {
        return E010;
      }
      taskConsumptionMap := taskConsumptionMap[taskId := consumption];
      r := E008;
    }

    method DeleteTask(taskId: int32) returns (r: ReturnCode)
      requires Valid()
      modifies this
      ensures Valid()
      ensures Outcome(Model(), r) == Registry.DeleteTask(old(Model()), taskId)
    {
      if taskId <= 0 {
        return E009;
      }
      if taskId !in taskConsumptionMap {
        return E012;
      }
      taskConsumptionMap := taskConsumptionMap - {taskId};
      r := E011;
    }

    /** Changes nothing, so it has no `modifies` clause. */
    method ScheduleTask(threshold: int32) returns (r: ReturnCode)
      ensures r == Registry.ScheduleTask(Model(), threshold).code
    {
      if threshold <= 0 {
        return E002;
      }
      r := E013;
    }

    /** Neither reads nor changes the collections, and leaves the caller's
        list as it was. */
    method QueryTaskStatus(tasks: Option<seq<TaskInfo>>) returns (r: ReturnCode)
      ensures r == Registry.QueryTaskStatus(tasks)
    {
      if tasks.None? || |tasks.value| == 0 {
        return E016;
      }
      r := E015;
    }
  }
}
