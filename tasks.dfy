/** The task set: periodic tasks with a name, an execution cost C_i and a period T_i. */
module Tasks {
  import opened Wrappers

  /** One periodic task, the `{"name", "C_i", "period"}` dictionary. The period
      is also the task's deadline. */
  datatype Task = Task(name: string, cost: int, period: int)

  /** A task the engine is meant for: positive cost and positive period. */
  predicate WellFormed(t: Task) {
    t.cost > 0 && t.period > 0
  }

  predicate AllWellFormed(ts: seq<Task>) {
    forall i :: 0 <= i < |ts| ==> WellFormed(ts[i])
  }

  /** The `Scheduler` object: a task set and the name of the one task that may
      miss its deadline (None if every task must meet it). Its fields are never
      updated, so it is a value. */
  datatype Scheduler = Scheduler(tasksSet: seq<Task>, ignoredTaskName: Option<string>)

  /** The list `[task["period"] for task in tasksSet]`. */
  function Periods(ts: seq<Task>): (ps: seq<int>)
    ensures |ps| == |ts|
    ensures forall i :: 0 <= i < |ts| ==> ps[i] == ts[i].period
  {
    if |ts| == 0 then [] else Periods(ts[..|ts| - 1]) + [ts[|ts| - 1].period]
  }

  /** The set of names occurring in a task list. */
  function Names(ts: seq<Task>): (ns: set<string>)
    ensures forall n :: n in ns <==> exists i :: 0 <= i < |ts| && ts[i].name == n
  {
    if |ts| == 0 then {} else Names(ts[..|ts| - 1]) + {ts[|ts| - 1].name}
  }
}
