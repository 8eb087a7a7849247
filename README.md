# FIFO scheduler decision engine

This project models the SCHED_FIFO-style decision engine of the OMNeT++ scheduler
(`Fifo::initialize`, `Fifo::add`, `Fifo::schedule`). The engine keeps one FIFO
queue per priority level and a fixed array of cores. At each decision point it:

1. charges the elapsed time `now - lastTime` to every running task, then releases
   each core whose task has no time left and emits that task as completed;
2. visits the priority levels from the highest down, and the cores in index order
   within a level. An idle core takes the head of the level. A busy core whose task
   has a priority strictly below the level is preempted: the old head takes the
   core, and the displaced task goes to the FRONT of the same level's queue;
3. returns `lastTime + min(remaining time of the busy cores)`, or the "no wake"
   sentinel when every core is idle.

Files:

- `tasks.dfy` (module `Tasks`): tasks, cores (`Idle | Busy(task)`), the wake result,
  and multiset views of the tasks held by the cores (`Running`) and waiting in the
  queues (`Queued`).
- `fifo_policy.dfy` (module `FifoPolicy`): each phase of `schedule` as a function
  on values: `Aged`/`Finished` for accounting, and
  `CoreStep`/`LevelUpTo`/`PassUpTo`/`Reassign` for reassignment. It also holds the
  lemmas for the properties the engine promises: conservation of tasks, work
  conservation, no preemption by an equal or lower level, FIFO order within a
  level, and where displaced tasks are queued.
- `fifo.dfy` (module `FifoScheduler`): the class `Fifo`. It has the queue ladder
  (`queues`), the core array (`cpu`) and `lastTime`, and runs the same loops as the
  source: accounting, the nested level/core loops with the early exit on an empty
  queue, and the `remaining` vector with its first minimum. `AccountElapsed`,
  `ServeLevel`, `Reschedule` and `Schedule` are proved to compute exactly the
  matching policy functions (`Aged`/`Finished`, `LevelUpTo`, `Reassign`). The
  constructor, `Add`, `NextWake` and `MinElement` state their results directly in
  their own postconditions.

Two behaviours are modelled as the code has them:

- The displaced task is requeued at the level that displaced it, not at its own
  priority level.
- The preemption test compares that level, not the incoming task's own priority.
  So a displaced low-priority task at the head of a high level can displace
  another task whose priority is higher than its own (`DisplacedTaskPreemptsHigherPriority`).

Time is an integer number of ticks. The negative return sentinel is `Wake.NoWake`.

## Model

| member | source | states |
|---|---|---|
| FifoScheduler.Fifo.constructor | OMNET++/src/scheduler/FIFO/Fifo.cc:8-15 | builds exactly max - min + 1 queues, all empty; every core starts idle and lastTime is 0 |
| FifoScheduler.Fifo.Add | OMNET++/src/scheduler/FIFO/Fifo.cc:17-18 | appends its argument to the tail of queue priority - min; every other queue, every core and lastTime are unchanged; the held tasks grow by exactly that one element |
| FifoPolicy.EnqueueAddsOne | OMNET++/src/scheduler/FIFO/Fifo.cc:18 | a tail enqueue adds exactly one task to the ladder's multiset of waiting tasks |
| FifoScheduler.Fifo.AccountElapsed | OMNET++/src/scheduler/FIFO/Fifo.cc:34-46 | the cores become Aged(old cores, diff) and the completed tasks are Finished(old cores, diff), in core order |
| FifoPolicy.AccountingReleases | OMNET++/src/scheduler/FIFO/Fifo.cc:34-46 | every completed task has time <= 0; every core still busy holds its old task minus exactly diff with time > 0; every released busy core's charged task is among the completed |
| FifoPolicy.AccountingConserves | OMNET++/src/scheduler/FIFO/Fifo.cc:34-46 | accounting loses no task: the tasks still running plus the completed tasks are exactly the charged tasks |
| FifoPolicy.CompletedTasksLeave | OMNET++/src/scheduler/FIFO/Fifo.cc:39-43 | if no task is held twice, a completed task is afterwards in no queue of the ladder and on no core |
| FifoPolicy.CoreStep | OMNET++/src/scheduler/FIFO/Fifo.cc:53-71 | one core visit: a core busy at or above the level is left alone; any change gives the core the old head; an idle core removes the head; a preempted core has priority below the level and its task becomes the new head; conversely, with a non-empty queue an idle core always takes the head and a busy core below the level is always preempted |
| FifoPolicy.CoreStepConserves | OMNET++/src/scheduler/FIFO/Fifo.cc:56-69 | one core visit neither loses nor duplicates a task |
| FifoScheduler.Fifo.ServeLevel | OMNET++/src/scheduler/FIFO/Fifo.cc:52-72 | the inner core loop with its break computes LevelUpTo on queue p and the cores; other queues are unchanged |
| FifoPolicy.LevelStopsWhenEmpty | OMNET++/src/scheduler/FIFO/Fifo.cc:50-53 | once the level's queue is empty, visiting more cores changes nothing, so the break and the skip agree with a full visit |
| FifoPolicy.LevelUntouched | OMNET++/src/scheduler/FIFO/Fifo.cc:52 | cores not yet visited at a level are unchanged |
| FifoPolicy.LevelConserves | OMNET++/src/scheduler/FIFO/Fifo.cc:52-72 | for every task, a level visit keeps the number of its copies in the level's queue plus on the cores: no task is lost or duplicated |
| FifoPolicy.LevelFills | OMNET++/src/scheduler/FIFO/Fifo.cc:52-72 | a level visit never idles a busy core; afterwards the queue is empty or every visited core is busy |
| FifoPolicy.LevelKeepsHigherPriority | OMNET++/src/scheduler/FIFO/Fifo.cc:63 | a core whose task has priority >= the level is not touched at that level |
| FifoPolicy.LevelPreempts | OMNET++/src/scheduler/FIFO/Fifo.cc:62-69 | a core whose task has priority below the level, reached while the level's queue is non-empty, takes the head of the queue as it stands then, and keeps it for the rest of the level |
| FifoPolicy.LevelPlacement | OMNET++/src/scheduler/FIFO/Fifo.cc:68 | every task left in the level's queue was already there or was displaced and has priority strictly below the level |
| FifoPolicy.LevelFifo | OMNET++/src/scheduler/FIFO/Fifo.cc:56-61 | with no preemptable core, idle cores in index order receive the queue's tasks in queue order and the queue loses exactly that prefix |
| FifoPolicy.DisplacedTaskPreemptsHigherPriority | OMNET++/src/scheduler/FIFO/Fifo.cc:63-68 | on cores running priorities 1 and 3, a priority-5 head displaces the priority-1 task to the front of level 5, and that task then displaces the priority-3 task |
| FifoScheduler.Fifo.Reschedule | OMNET++/src/scheduler/FIFO/Fifo.cc:49-73 | the outer level loop computes Reassign on the queues and cores, keeps every queued task at or above its own priority level, and holds no task twice afterwards if it held none twice before |
| FifoPolicy.PassConserves | OMNET++/src/scheduler/FIFO/Fifo.cc:49-73 | for every task, the reassignment pass keeps the number of its copies in the queues plus on the cores |
| FifoPolicy.PassFills | OMNET++/src/scheduler/FIFO/Fifo.cc:49-73 | during the pass no busy core goes idle, no empty queue gains a task, and each visited level ends empty unless every core is busy |
| FifoPolicy.ReassignWorkConserving | OMNET++/src/scheduler/FIFO/Fifo.cc:49-73 | after the pass, if any core is idle then every queue is empty |
| FifoPolicy.PassKeepsHigherPriority | OMNET++/src/scheduler/FIFO/Fifo.cc:49-73 | a running task with no non-empty level above its priority keeps its core through the whole pass |
| FifoPolicy.PassPlacement | OMNET++/src/scheduler/FIFO/Fifo.cc:63-68 | the pass keeps every queued task at a level at or above its own priority |
| FifoPolicy.ReassignConserves | OMNET++/src/scheduler/FIFO/Fifo.cc:49-73 | the whole pass keeps the multiset of tasks held by the queues and the cores |
| FifoPolicy.PassKeepsNoDuplicates | OMNET++/src/scheduler/FIFO/Fifo.cc:49-73 | if no task is held twice by the queues and cores before the pass, none is held twice after it |
| FifoPolicy.ReassignNoCoreSharing | OMNET++/src/scheduler/FIFO/Fifo.cc:56-69 | if no task is held twice before the pass, no two busy cores run the same task after it |
| FifoPolicy.StepKeepsNoDuplicates | OMNET++/src/scheduler/FIFO/Fifo.cc:30-73 | if no task is held twice before a step (running tasks charged), none is held twice by the queues and cores after it |
| Tasks.NoCoreSharing | OMNET++/src/scheduler/FIFO/Fifo.cc:56-69 | while no task is held twice, no two busy cores hold the same task |
| FifoPolicy.StepConserves | OMNET++/src/scheduler/FIFO/Fifo.cc:30-73 | a whole step loses and duplicates no task: queued + running + completed afterwards equals queued + charged running before |
| FifoScheduler.MinElement | OMNET++/src/scheduler/FIFO/Fifo.cc:86 | returns the index of the first smallest element |
| FifoScheduler.Fifo.NextWake | OMNET++/src/scheduler/FIFO/Fifo.cc:75-91 | no-wake exactly when every core is idle; otherwise lastTime plus the remaining time of some busy core, and no more than lastTime plus any busy core's remaining time |
| FifoScheduler.Fifo.Schedule | OMNET++/src/scheduler/FIFO/Fifo.cc:29-92 | sets lastTime to now; the completed tasks are Finished and the new queues and cores are Reassign applied to the aged cores; an idle core implies every queue is empty; the wake time is now plus the least remaining busy time, or no-wake when all cores are idle |

## Left out

- Statistics calls (`Stats::recordTaskAdd`, `recordTaskRun`, `recordTaskCompleted`) and `EV_INFO` logging: they do not change the scheduler's state.
- Delivery of a completed task to the module that sent it: modelled as the `completed` sequence that `Schedule` returns.
- `simTime()` and the simulation clock: `now` is a parameter of `Schedule`. `simtime_t` and `double` arithmetic are modelled as integer ticks, so rounding is not modelled.
- `Scheduler::initialize` and the `Cpu` and `Task` classes are not part of this model. The constructor takes the core count and priority range, and assumes the cores start idle and `lastTime` starts at 0. A task is a value `(id, priority, time)`. The sending module of a task is not modelled.
- Pointer identity: the source keeps `Task*` pointers, so one task object added twice would be charged on every core holding it. Here tasks are values. `Tasks.NoCoreSharing`, `FifoPolicy.CompletedTasksLeave` and `FifoPolicy.ReassignNoCoreSharing` state what holds while no task is held twice, and `FifoPolicy.PassKeepsNoDuplicates`, `FifoPolicy.StepKeepsNoDuplicates` and `FifoScheduler.Fifo.Reschedule` show that the pass and a step keep that condition. It is not part of `Fifo.Valid`: `add` accepts any task, including one the scheduler already holds. Also, with tasks as values, charging a running task can make it equal to a queued one, which the pointer-based source would tell apart.
- The per-level `new std::deque` that is copied and never freed: it has no behavioural content.
- FifoScheduler.Fifo.Add: requires the priority to be within `[minPriority, maxPriority]`. The code does not check this and indexes the queue vector directly. A typed configuration error for an out-of-range priority is described for the engine, but the code has none, so the model follows the code.
- FifoScheduler.Fifo.Schedule: does not repeat the task-conservation multiset equation in its own contract. That property is `FifoPolicy.StepConserves`, which is stated over the same `Reassign` and `Finished` functions that `Schedule` is proved to compute.
- The analysis plotting script: it only reads files and draws plots.
