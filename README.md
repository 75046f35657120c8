# Exhaustive search for a static task order

The program takes a set of periodic tasks, each with a name, an execution cost
`C_i` and a period. It looks for the order of those tasks that gives the
smallest total waiting time while every job still finishes within its period.
It works in five stages:

1. The hyper-period is the least common multiple of all periods.
2. Every arrangement (permutation) of the task set is enumerated.
3. Each arrangement is simulated over the hyper-period. The tasks are expanded
   into jobs, the jobs are sorted by release time, and then time runs in unit
   ticks. At each tick the first ready job in the list runs for one unit. A
   tick with no ready job counts as idle.
4. Each run's records are reduced to a waiting cost (the sum of response time
   minus cost) and to a viability verdict. A run is viable when every response
   time fits in its task's period, or the task is the exempt one.
5. The viable arrangements are kept, and the first one with the smallest
   waiting cost is chosen.

The model has one module per stage. It also has modules for the data the
stages share and for one worked scenario:

- `Wrappers`: `Option` and `Result`.
- `Tasks`: the task record and the scheduler's two fields.
- `HyperPeriod`: `computeHyperPeriod`, with gcd and lcm and their algebra.
- `Arrangements`: `listAllArrangements`, as the list it generates.
- `Jobs`:
  - the job records and their expansion over the horizon;
  - the stable sort by release time;
  - the dispatch loop's two scans: which jobs are ready, and which are still
    unfinished.
- `Records`: the response-time dictionary, which keeps its keys in insertion
  order.
- `Simulation`:
  - `simulateSystem` as a tick function `Step` iterated to a fixpoint `Run`;
  - the imperative procedure, proved equal to that fixpoint.
- `Evaluation`: `computeWaitingCost` and `isArrangementViable`. Each is an
  imperative procedure proved equal to a reduction over the flattened records.
- `Search`: the exploration loop and the selection loop of `main`, and the
  optimality theorem they give.
- `Scenario`: the two-task example T1 (cost 2, period 10) and T2 (cost 3,
  period 10), calculated tick by tick.

On the simulation's stopping rule, the model follows the code. The loop runs
while the job list is not empty. It therefore stops once the last job has
finished, and does not run to the end of the hyper-period. Idle ticks after
the last completion are never counted. `Scenario.ScenarioRun` shows this for
the two-task example. The clock stops at 5 and the idle count is 0, whereas an
accounting over the whole hyper-period would report 5. `Simulation.SimulateTime`
states the general rule: the final clock equals the idle count plus the total
work, not the horizon.

## Model

| member | source | states |
|---|---|---|
| Tasks.Periods | Final_assignment_Python_ex_BOUHABEN_Julien_A5.py:163 | `[task["period"] for task in tasksSet]`: one entry per task, in order, each the period of the task at the same position |
| HyperPeriod.Gcd | Final_assignment_Python_ex_BOUHABEN_Julien_A5.py:22 | `math.gcd` by Euclid's remainder recursion; it is positive when either argument is. That it divides both arguments is `HyperPeriod.GcdDivides`, and that every common divisor divides it is `HyperPeriod.GcdGreatest` |
| HyperPeriod.GcdDivides | Final_assignment_Python_ex_BOUHABEN_Julien_A5.py:22 | when either argument is positive, the gcd is a positive divisor of both |
| HyperPeriod.GcdGreatest | Final_assignment_Python_ex_BOUHABEN_Julien_A5.py:22 | every positive common divisor of the two arguments divides their gcd |
| HyperPeriod.Lcm | Final_assignment_Python_ex_BOUHABEN_Julien_A5.py:22 | `abs(a*b) // gcd(a,b)` of two positive periods is a positive common multiple that divides every positive common multiple |
| HyperPeriod.ComputeHyperPeriod | Final_assignment_Python_ex_BOUHABEN_Julien_A5.py:14-23 | the fold over the period list yields the least common multiple of all periods: it is a multiple of each, divides every common multiple, and no smaller positive number is a common multiple |
| HyperPeriod.LcmUnique | Final_assignment_Python_ex_BOUHABEN_Julien_A5.py:20-23 | the hyper-period depends only on the set of periods, not on their order or repetition |
| Arrangements.AllArrangements | Final_assignment_Python_ex_BOUHABEN_Julien_A5.py:26-38 | the recursive generator, with the `yield` order made a sequence: a list of length at most one yields itself, and otherwise for each position `i` in turn it yields `s[i]` followed by each arrangement of the rest. Its contract is carried by the four lemmas below: `ArrangementsCount`, `ArrangementsExactlyPermutations`, `ArrangementsDistinct` and `FirstArrangementIsInput` |
| Arrangements.ArrangementsCount | Final_assignment_Python_ex_BOUHABEN_Julien_A5.py:26-38 | a sequence of length n has exactly n! arrangements |
| Arrangements.ArrangementsExactlyPermutations | Final_assignment_Python_ex_BOUHABEN_Julien_A5.py:26-38 | a sequence is generated if and only if it is a permutation (same multiset) of the input |
| Arrangements.ArrangementsDistinct | Final_assignment_Python_ex_BOUHABEN_Julien_A5.py:32-38 | with pairwise distinct elements, no arrangement is generated twice |
| Arrangements.FirstArrangementIsInput | Final_assignment_Python_ex_BOUHABEN_Julien_A5.py:32-38 | the first arrangement generated is the input order itself, and there is always at least one (the empty input yields one empty arrangement) |
| Tasks.Names | Final_assignment_Python_ex_BOUHABEN_Julien_A5.py:66-67 | the set of task names holds exactly the names of the listed tasks |
| Jobs.Expand | Final_assignment_Python_ex_BOUHABEN_Julien_A5.py:50-59 | the activation list: for each task in arrangement order, jobs `0 .. globalPeriod // period - 1`, released at `k * period` with their whole cost left. Its content is fixed by `Jobs.ExpandCounts`, `Jobs.ExpandJobs` and `Jobs.ExpandReleasedAt` |
| Jobs.ExpandCounts | Final_assignment_Python_ex_BOUHABEN_Julien_A5.py:50-59 | the expansion has as many jobs with each name as the tasks of that name have activations (`globalPeriod // period` each), and its total cost is the workload Σ C_i · activations |
| Jobs.ExpandJobs | Final_assignment_Python_ex_BOUHABEN_Julien_A5.py:53-59 | every expanded job belongs to a task of the arrangement, starts with its whole positive cost left, and is released at a non-negative time |
| Jobs.ExpandReleasedAt | Final_assignment_Python_ex_BOUHABEN_Julien_A5.py:50-59 | the jobs released at time r are, in arrangement order, the activations `r / period` of the tasks whose period divides r within the horizon |
| Jobs.SortByStart | Final_assignment_Python_ex_BOUHABEN_Julien_A5.py:62 | `tasksInTime.sort(key=startPoint)` as an insertion sort that places a job before the first job released at the same time or later, so jobs released together keep their list order. That it is sorted and stable, a permutation, and sum-preserving is `Jobs.SortFacts` |
| Jobs.SortFacts | Final_assignment_Python_ex_BOUHABEN_Julien_A5.py:62 | the sort by release time yields a sorted permutation of the job list, keeps the list order of jobs released together (stability) and preserves every sum over the jobs |
| Jobs.SortedJobsReleasedAt | Final_assignment_Python_ex_BOUHABEN_Julien_A5.py:50-62 | in the sorted job list, the jobs released together appear in arrangement order: this order is the dispatch priority |
| Jobs.ReadyIndices | Final_assignment_Python_ex_BOUHABEN_Julien_A5.py:75-78 | `readyList` holds, in increasing list order, exactly the positions of the jobs that are released and unfinished |
| Jobs.FirstReady | Final_assignment_Python_ex_BOUHABEN_Julien_A5.py:80-82 | `readyList` is empty if and only if no job is ready; otherwise its head is the first ready job in list order |
| Jobs.DropFinished | Final_assignment_Python_ex_BOUHABEN_Julien_A5.py:97-101 | `nextCycle`: the list with its exhausted jobs filtered out, in order. `Jobs.DropFinishedAt` and `Jobs.DropFinishedNone` say what it does to the lists a tick produces |
| Jobs.DropFinishedNone | Final_assignment_Python_ex_BOUHABEN_Julien_A5.py:97-101 | a list with no exhausted job is kept whole |
| Jobs.DropFinishedAt | Final_assignment_Python_ex_BOUHABEN_Julien_A5.py:97-101 | when only the job that just ran can be exhausted, `nextCycle` either is the whole list or is the list without that job |
| Records.InitLog | Final_assignment_Python_ex_BOUHABEN_Julien_A5.py:65-67 | the initial dictionary has one key per distinct task name, each mapped to an empty list |
| Records.ResponseLog.Put | Final_assignment_Python_ex_BOUHABEN_Julien_A5.py:67 | assignment to a dictionary key keeps the key's position if present and appends it otherwise, and keeps the dictionary well-formed |
| Records.ResponseLog.Append | Final_assignment_Python_ex_BOUHABEN_Julien_A5.py:88-90 | appending a record changes only that key's list, which gains the record at its end |
| Simulation.Step | Final_assignment_Python_ex_BOUHABEN_Julien_A5.py:74-101 | one iteration of the dispatch loop. `Simulation.StepIdle` and `Simulation.StepBusy` give its effect case by case, and `Simulation.StepProgress` and `Simulation.StepInv` say what it preserves |
| Simulation.StepInv | Final_assignment_Python_ex_BOUHABEN_Julien_A5.py:74-101 | one tick keeps the run invariant and the record keys. The invariant: every job has `0 < timeLeft <= executionTime` and cannot have run before its release; for each name, the records plus the listed jobs number the initial activations; every record is well-timed; and the clock equals idle time plus the work done |
| Simulation.StepIdle | Final_assignment_Python_ex_BOUHABEN_Julien_A5.py:91-94 | a tick with no ready job leaves the jobs and records alone, advances the clock and counts one idle unit |
| Simulation.StepBusy | Final_assignment_Python_ex_BOUHABEN_Julien_A5.py:80-101 | a tick with a ready job runs the first ready job for one unit; if that finishes it, the response `timeIndex + 1 - startPoint` and the cost are recorded under its task and the job leaves the list, and otherwise only its remaining time drops |
| Simulation.StepProgress | Final_assignment_Python_ex_BOUHABEN_Julien_A5.py:73-101 | each tick keeps every job unfinished and filed under a known name, and either does one unit of work or moves the clock toward the next release, so the loop terminates |
| Simulation.Run | Final_assignment_Python_ex_BOUHABEN_Julien_A5.py:73-103 | the `while tasksInTime` loop as `Step` repeated until the job list is empty; termination is `Simulation.StepProgress` |
| Simulation.RunInv | Final_assignment_Python_ex_BOUHABEN_Julien_A5.py:73-103 | from any state satisfying the run invariant, the loop ends with an empty job list, the invariant still holding and the record keys unchanged |
| Simulation.Simulate | Final_assignment_Python_ex_BOUHABEN_Julien_A5.py:41-103 | `simulateSystem` as a function: the run from the sorted expansion with an empty record list per task name, clock 0 and no idle time. What it returns is stated by `Simulation.SimulateTime`, `Simulation.SimulateKeys` and `Simulation.SimulateRecords` |
| Simulation.InitialState | Final_assignment_Python_ex_BOUHABEN_Julien_A5.py:48-70 | the state before the loop: the expansion sorted by release time, an empty list per task name, clock and idle count 0. `Simulation.InitialJobs` states that its dictionary is well-formed with empty lists and that every job has its whole positive cost left and a known name |
| Simulation.SimulateTime | Final_assignment_Python_ex_BOUHABEN_Julien_A5.py:69-103 | the run ends with no jobs left, a non-negative idle count, and a final clock equal to the idle count plus the total workload |
| Simulation.SimulateKeys | Final_assignment_Python_ex_BOUHABEN_Julien_A5.py:64-103 | the returned dictionary is well-formed, has the same keys in the same order as the initial one, and its keys are exactly the task names |
| Simulation.SimulateRecords | Final_assignment_Python_ex_BOUHABEN_Julien_A5.py:84-103 | every job finishes: each name gets as many records as its tasks have activations, and every record's response time is at least its positive cost |
| Simulation.TaskJobCountDistinct | Final_assignment_Python_ex_BOUHABEN_Julien_A5.py:51-52 | with distinct task names, a task's activation total is `globalPeriod // period` |
| Simulation.BuildJobs | Final_assignment_Python_ex_BOUHABEN_Julien_A5.py:48-59 | the nested loop builds exactly the expansion of the arrangement |
| Simulation.BuildRecords | Final_assignment_Python_ex_BOUHABEN_Julien_A5.py:64-67 | the loop builds exactly the initial dictionary |
| Simulation.CollectReady | Final_assignment_Python_ex_BOUHABEN_Julien_A5.py:75-78 | the loop collects exactly the ready positions |
| Simulation.KeepUnfinished | Final_assignment_Python_ex_BOUHABEN_Julien_A5.py:97-101 | the loop keeps exactly the unfinished jobs, in order |
| Simulation.Tick | Final_assignment_Python_ex_BOUHABEN_Julien_A5.py:74-101 | one iteration of the dispatch loop computes exactly one tick of the model |
| Simulation.SimulateSystem | Final_assignment_Python_ex_BOUHABEN_Julien_A5.py:41-103 | `simulateSystem` returns the records and idle count of the terminating run: a well-formed dictionary, a non-negative idle count, one record per activation, and response times at least the costs |
| Evaluation.AllMeasuresMembers | Final_assignment_Python_ex_BOUHABEN_Julien_A5.py:113-114 | iterating the dictionary's items and each item's list visits exactly the records it holds |
| Evaluation.WaitCost | Final_assignment_Python_ex_BOUHABEN_Julien_A5.py:106-117 | the waiting cost as a function: the sum of `response - duration` over all records in dictionary order. `Evaluation.ComputeWaitingCost` computes it, and `Evaluation.WaitCostBounds` says what it means |
| Evaluation.SumWaitNonNegative | Final_assignment_Python_ex_BOUHABEN_Julien_A5.py:112-117 | a sum of waits that are each non-negative is non-negative, and is zero if and only if every wait is zero |
| Evaluation.AddWaits | Final_assignment_Python_ex_BOUHABEN_Julien_A5.py:114-116 | the inner loop over one key's records: starting from the sum of waits of the records already visited, it returns that sum extended by the wait `finishTime - duration` of each record of this key, in order |
| Evaluation.ComputeWaitingCost | Final_assignment_Python_ex_BOUHABEN_Julien_A5.py:106-117 | the nested loops return the sum over all records of response minus cost |
| Evaluation.WaitCostBounds | Final_assignment_Python_ex_BOUHABEN_Julien_A5.py:112-117 | for records from a run, the waiting cost is non-negative, and it is zero if and only if no job ever waited |
| Evaluation.Constraint | Final_assignment_Python_ex_BOUHABEN_Julien_A5.py:128-138 | the verdict for one record: `response <= period` or the task is the exempt one, or `Err(name)` when no task has the name. Its meaning is `Evaluation.ConstraintAt`, and over a list it is `Evaluation.ConstraintsMeaning` |
| Evaluation.Constraints | Final_assignment_Python_ex_BOUHABEN_Julien_A5.py:128-138 | `allConstraints` as a function of the records in visiting order: one verdict per record, appended in order, or the error of the first record whose task is unknown. Its meaning is `Evaluation.ConstraintsMeaning` |
| Evaluation.PeriodOf | Final_assignment_Python_ex_BOUHABEN_Julien_A5.py:131-135 | the lookup finds no period if and only if no task has that name, and otherwise returns the period of the first task with that name |
| Evaluation.FindPeriod | Final_assignment_Python_ex_BOUHABEN_Julien_A5.py:131-135 | the loop with `break` computes that lookup |
| Evaluation.CheckRecords | Final_assignment_Python_ex_BOUHABEN_Julien_A5.py:130-138 | the inner loop extends the constraint list by one verdict per record of a key, or reports the failed lookup |
| Evaluation.All | Final_assignment_Python_ex_BOUHABEN_Julien_A5.py:141 | Python's `all`: true if and only if every entry of the list is true, so true on the empty list |
| Evaluation.IsViable | Final_assignment_Python_ex_BOUHABEN_Julien_A5.py:120-141 | `all` of the verdicts over the dictionary's records, in order, or the first error. `Evaluation.IsArrangementViable` computes it and `Evaluation.ViableMeaning` says what it means |
| Evaluation.IsArrangementViable | Final_assignment_Python_ex_BOUHABEN_Julien_A5.py:120-141 | `isArrangementViable` returns `all` of the per-record constraints, or the error that the comparison with a missing period raises |
| Evaluation.ConstraintsMeaning | Final_assignment_Python_ex_BOUHABEN_Julien_A5.py:128-141 | over any list of records, the check has no error if and only if every record names a task; then it holds if and only if every record meets its deadline or is exempt; an error names a record of an unknown task |
| Evaluation.ViableMeaning | Final_assignment_Python_ex_BOUHABEN_Julien_A5.py:120-141 | for a dictionary, the check has no error if and only if every key with records is a task name; it is true if and only if every record fits its task's period or belongs to the exempt task |
| Search.Evaluate | Final_assignment_Python_ex_BOUHABEN_Julien_A5.py:173-178 | the configuration for one arrangement: its simulated records and idle time, and its waiting cost. `Search.TryArrangement` computes it, and its records are well-formed by its own contract |
| Search.KeepViable | Final_assignment_Python_ex_BOUHABEN_Julien_A5.py:170-182 | `validConfigs` as a function of the evaluated arrangements: the accepted ones, in order. `Search.KeepViableMembers` gives membership in both directions, and `Search.Explore` computes it |
| Search.Better | Final_assignment_Python_ex_BOUHABEN_Julien_A5.py:190-196 | `waitSum < bestWaitTime` with `float('inf')` before any choice: always true when nothing is chosen yet, otherwise a strict comparison. `Search.SelectBest` states the first-minimum choice that follows from it |
| Search.SelectBest | Final_assignment_Python_ex_BOUHABEN_Julien_A5.py:189-200 | nothing is chosen exactly when there are no viable configurations; otherwise the choice has the minimal waiting cost, every earlier entry costs strictly more, and `bestWaitTime` is its cost |
| Search.TryArrangement | Final_assignment_Python_ex_BOUHABEN_Julien_A5.py:173-178 | one loop iteration simulates the pattern, scores it and decides viability: the configuration it builds is the evaluation of that pattern, and it is reported viable exactly when the check succeeds with true |
| Search.KeepViableMembers | Final_assignment_Python_ex_BOUHABEN_Julien_A5.py:170-182 | a configuration is kept if and only if it was evaluated and is viable |
| Search.ViableDefined | Final_assignment_Python_ex_BOUHABEN_Julien_A5.py:129-138 | for an arrangement of the task set itself, the viability check never hits a missing period |
| Search.Explore | Final_assignment_Python_ex_BOUHABEN_Julien_A5.py:156-200 | `main` computes the hyper-period, keeps exactly the viable evaluations in enumeration order, and picks the first one of minimal waiting cost, or nothing when none is viable |
| Search.BestOfKept | Final_assignment_Python_ex_BOUHABEN_Julien_A5.py:170-200 | over any candidate list, selection from the kept list finds nothing if and only if no candidate is accepted, and otherwise an accepted candidate costing no more than any accepted one |
| Search.ExploreOptimal | Final_assignment_Python_ex_BOUHABEN_Julien_A5.py:163-200 | a best configuration exists if and only if some permutation of the task set is viable; it is then the evaluation of a viable permutation, and no viable permutation has a smaller waiting cost |
| Scenario.ScenarioHorizon | Final_assignment_Python_ex_BOUHABEN_Julien_A5.py:163 | tasks with periods 10 and 10 have hyper-period 10 |
| Scenario.ScenarioRun | Final_assignment_Python_ex_BOUHABEN_Julien_A5.py:41-103 | order [T1, T2]: T1 completes with response 2 and T2 with response 5, the clock stops at 5, and no idle tick is counted |
| Scenario.ScenarioCost | Final_assignment_Python_ex_BOUHABEN_Julien_A5.py:106-117 | those records cost (2 - 2) + (5 - 3) = 2 |
| Scenario.ScenarioViable | Final_assignment_Python_ex_BOUHABEN_Julien_A5.py:120-141 | both responses are within the period 10, so the arrangement is viable |

## Left out

- Printing: every line of `main` that prints results is left out. This includes the final `if bestOrder:` test, which only decides what to print.
- The literal seven-task set of `main` and its `ignoredTaskName = None`: `Search.Explore` takes any scheduler instead.
- `float('inf')` as the initial best wait is modelled as `None`, meaning "no best yet".
- `listAllArrangements` is a lazy generator that `main` forces with `list(...)`. It is modelled as the list it produces, in the same order.
- Job dictionaries are values in a list. `readyList` holds positions in `tasksInTime`, not references to the dictionaries. This has the same effect as Python's aliasing when `timeLeft` is decremented.
- The Python `list.sort` is modelled as a stable insertion sort, `Jobs.SortByStart`. `Simulation.SimulateSystem` uses that function rather than an in-place sort.
- HyperPeriod.ComputeHyperPeriod: requires a non-empty list of positive periods. An empty list raises `IndexError` at line 20. Zero or negative periods are outside the task model, and a zero period would fail at line 51 anyway.
- Simulation.SimulateSystem: requires positive costs and periods, as the task record demands. A zero period would divide by zero at line 51. The code's handling of a cost of 0 or less is not modelled: such a job is never ready, because `timeLeft > 0` fails. It is dropped at the end of the first tick and, despite the `+ 1` in the response formula, never recorded.
- Evaluation.IsArrangementViable: a record of a task that is not in `tasksSet` makes Python raise `TypeError` at line 137, because it compares an int with `None`. The model returns `Err(name)` instead. For the arrangements `main` passes, this cannot happen (`Search.ViableDefined`).
- Evaluation.IsArrangementViable: the `arrangement` parameter is unused in the source, and it is unused in the model too.
- Integers are unbounded, as in Python, so no overflow is modelled.
- The runtime of the search, which is factorial in the number of tasks, is not modelled.
- `ipsa_sched.c` is not part of this model.
