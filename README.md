# Schedule registry

A Dafny model of the `Schedule` class of the task scheduler. The class keeps three collections:

- `registeredNodes`, the registered node ids;
- `scheduleTasks`, the tasks prepared for scheduling;
- `taskConsumptionMap`, the consumption of each added task, by task id.

Seven public operations read and update these collections: `init`, `registerNode`, `unregisterNode`, `addTask`, `deleteTask`, `scheduleTask` and `queryTaskStatus`. Each operation checks its argument in a fixed order and returns one result code (`E001`–`E016`).

The project has four files:

- `return_codes.dfy` (module `ReturnCodes`): the result codes as constructors of one datatype.
- `registry.dfy` (module `Registry`): the three collections as a `State` value, plus one function per operation. Each function gives the result code and the new state, and its `ensures` clauses characterise each code by an if-and-only-if. `RemoveFirst` models `List.remove(Object)`, which removes the first element equal to its argument.
- `traces.dfy` (module `Traces`): any sequence of calls (`Op`, `Step`, `Run`), and lemmas about them. These include the invariant that the node list never holds an id twice, plus round trips and the behaviour of `init`.
- `scheduler.dfy` (module `Scheduler`): the class `Schedule`. Its fields are the three collections, and its methods update them in place. Each method is proved to return the code and leave the collections that the matching `Registry` function gives, and to keep the invariant.

The model follows the code as written, including where the code and its doc comments disagree:

- `init` clears the node list and the task list, but it does not clear `taskConsumptionMap` (Schedule.java:46-49). The comment at line 38 says everything is cleared. So a task added before `init` is still known afterwards, and adding its id again returns `E010`. `Traces.InitKeepsTasks` proves this.
- `unregisterNode` removes only the node id. The comment at line 77 says running tasks move to the pending queue, but the class records no task placement, so there is nothing to move.
- `scheduleTask` checks only the threshold and then returns `E013`. No balancing plan is computed, and `E014` is never returned.
- `queryTaskStatus` returns `E016` for a null or empty list and `E015` otherwise. It does not fill the list.

## Model

| member | source | states |
|---|---|---|
| `Scheduler.Schedule.constructor` | src/main/java/com/migu/schedule/Schedule.java:31-35 | the three collections start empty and the invariant holds |
| `Scheduler.Schedule.Init` | src/main/java/com/migu/schedule/Schedule.java:46-50 | returns the code and leaves the collections that `Registry.Init` gives for the old ones; keeps the invariant |
| `Scheduler.Schedule.RegisterNode` | src/main/java/com/migu/schedule/Schedule.java:61-72 | returns the code and leaves the collections that `Registry.RegisterNode` gives; keeps the invariant (no duplicate node id) |
| `Scheduler.Schedule.UnregisterNode` | src/main/java/com/migu/schedule/Schedule.java:87-98 | returns the code and leaves the collections that `Registry.UnregisterNode` gives; after `E006` the node id is no longer registered; keeps the invariant |
| `Scheduler.Schedule.AddTask` | src/main/java/com/migu/schedule/Schedule.java:114-123 | returns the code and leaves the collections that `Registry.AddTask` gives; keeps the invariant |
| `Scheduler.Schedule.DeleteTask` | src/main/java/com/migu/schedule/Schedule.java:136-145 | returns the code and leaves the collections that `Registry.DeleteTask` gives; keeps the invariant |
| `Scheduler.Schedule.ScheduleTask` | src/main/java/com/migu/schedule/Schedule.java:155-164 | changes nothing; returns the code `Registry.ScheduleTask` gives |
| `Scheduler.Schedule.QueryTaskStatus` | src/main/java/com/migu/schedule/Schedule.java:178-185 | changes nothing and does not depend on the collections; returns the code `Registry.QueryTaskStatus` gives |
| `Registry.Init` | src/main/java/com/migu/schedule/Schedule.java:46-50 | always `E001`; node and task lists become empty; the consumption map is kept as it was |
| `Registry.RegisterNode` | src/main/java/com/migu/schedule/Schedule.java:61-72 | `E004` iff id <= 0 (checked first); `E005` iff positive and already registered; `E003` iff positive and new, and then exactly that id is appended; on any refusal the state is unchanged; tasks never change |
| `Registry.UnregisterNode` | src/main/java/com/migu/schedule/Schedule.java:87-98 | `E004` iff id <= 0; `E007` iff positive and not registered, with the state unchanged; `E006` iff registered, and then only the first occurrence is dropped, the other ids keep their order, and the tasks and the map are untouched |
| `Registry.AddTask` | src/main/java/com/migu/schedule/Schedule.java:114-123 | `E009` iff id <= 0; `E010` iff positive and already present, and then the original consumption is kept; `E008` iff new, and then the map gains exactly that key, mapped to the unvalidated consumption, and every other entry is unchanged |
| `Registry.DeleteTask` | src/main/java/com/migu/schedule/Schedule.java:136-145 | `E009` iff id <= 0; `E012` iff positive and absent, with the state unchanged; `E011` iff present, and then exactly that key is removed, with every other entry and the node list unchanged |
| `Registry.ScheduleTask` | src/main/java/com/migu/schedule/Schedule.java:155-164 | `E002` iff threshold <= 0, `E013` iff threshold > 0; the state never changes |
| `Registry.QueryTaskStatus` | src/main/java/com/migu/schedule/Schedule.java:178-185 | `E016` iff the list is null or empty, `E015` iff it has an element; no state is an argument |
| `Registry.IndexOf` | src/main/java/com/migu/schedule/Schedule.java:96 | the result is the position of the first occurrence of the id |
| `Registry.RemoveFirst` | src/main/java/com/migu/schedule/Schedule.java:96 | removal by value: an absent id leaves the list unchanged; otherwise the list is the part before the first occurrence followed by the part after it |
| `Registry.RemoveFirstKeepsNoDuplicates` | src/main/java/com/migu/schedule/Schedule.java:96 | removing by value from a list without duplicates leaves a list without duplicates |
| `Registry.RemoveFirstMembers` | src/main/java/com/migu/schedule/Schedule.java:96 | in a list without duplicates, removing an id leaves exactly the other ids |
| `Registry.UnregisterRemovesNode` | src/main/java/com/migu/schedule/Schedule.java:87-98 | on a registry without duplicate nodes, after `E006` the removed id is gone and every other id is still registered exactly when it was before |
| `Traces.StepKeepsInv` | src/main/java/com/migu/schedule/Schedule.java:61-145 | every operation keeps the invariant: no duplicate node id, and only positive node and task ids stored |
| `Traces.RunKeepsInv` | src/main/java/com/migu/schedule/Schedule.java:61-145 | any sequence of operations keeps the invariant |
| `Traces.ReachableHasNoDuplicateNodes` | src/main/java/com/migu/schedule/Schedule.java:65-71 | from the initial state, no sequence of operations puts a node id into the list twice or puts a non-positive id into it |
| `Traces.RejectedCallChangesNothing` | src/main/java/com/migu/schedule/Schedule.java:61-185 | every operation that returns an error code leaves the state exactly as it was |
| `Traces.RegisterTwice` | src/main/java/com/migu/schedule/Schedule.java:65-71 | registering a new id twice gives `E003` and then `E005`, and the list holds the id exactly once |
| `Traces.RegisterThenUnregister` | src/main/java/com/migu/schedule/Schedule.java:61-98 | unregistering the id just registered restores the previous state, with `E006` |
| `Traces.AddThenDelete` | src/main/java/com/migu/schedule/Schedule.java:114-145 | deleting the task just added restores the previous state, with `E011` |
| `Traces.DeleteThenAdd` | src/main/java/com/migu/schedule/Schedule.java:114-145 | deleting a task and then adding it back with its old consumption restores the state, with `E008` |
| `Traces.InitKeepsTasks` | src/main/java/com/migu/schedule/Schedule.java:46-123 | after `addTask(t, c)`, then `init`, then `addTask(t, c')`, the last call returns `E010` and the map still maps `t` to `c` |
| `Traces.ScheduleIgnoresRegistry` | src/main/java/com/migu/schedule/Schedule.java:155-164 | `scheduleTask` gives the same code on every state and changes none |
| `Traces.QueryTwice` | src/main/java/com/migu/schedule/Schedule.java:178-185 | querying twice gives the same code both times and leaves the state unchanged |

## Left out

- `main` and `analysis` (Schedule.java:188-254): they only print, and nothing they compute is returned or stored.
- Load balancing: the class has no balancing algorithm. `scheduleTask` is a stub that returns `E013`, so no placement and no `E014` path are modelled.
- Concurrency: the `CopyOnWriteArrayList` only provides thread safety. The model treats the state as one sequential object.
- Static state: the Java fields are `static`, so every `Schedule` instance shares them. The model gives one object its own fields. This is the same thing for a single instance, but aliasing between instances is not modelled.
- The insertion order of the `LinkedHashMap`: no operation observes it, so the map is a Dafny `map`.
- `TaskInfo`: its definition is not part of this model. It is an abstract type, and the task list's only observable behaviour is being cleared by `init`.
- `ReturnCodeKeys`: its numeric values are not part of this model. The codes are constructors of a datatype.
- Boxing with `new Integer`, the unused `copyList` and `totalConsumption` locals, and the unused `java.sql.Array` import have no effect on behaviour.
- Scheduler.Schedule.QueryTaskStatus: the caller's list is passed as a value (`None` for null), so the promise that the list is left unfilled holds by construction and is not a separate postcondition.
