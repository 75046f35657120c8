/** `simulateSystem`: unit-time, non-preemptive-in-list-order dispatch of the
    expanded jobs over one hyper-period. At every tick the first ready job in
    the (release-sorted) job list runs for one unit; a tick with no ready job
    is idle; exhausted jobs leave the list at the end of the tick. */
module Simulation {
  import opened Tasks
  import opened Jobs
  import opened Records

  /** The loop variables of `simulateSystem`. */
  datatype SimState = SimState(tasksInTime: seq<Job>, timeIndex: int, idleDurations: int, records: ResponseLog)

  /** What holds at the top of every iteration: no job in the list is
      exhausted, and every job's task has an entry in the records. */
  predicate Live(s: SimState) {
    forall i :: 0 <= i < |s.tasksInTime| ==>
      s.tasksInTime[i].timeLeft > 0 && s.tasksInTime[i].refName in s.records.values
  }

  /** One iteration of the `while tasksInTime` loop: run the first ready job
      for one unit (recording it if it finishes) or count an idle unit, advance
      the clock, and drop the exhausted jobs. */
  function Step(s: SimState): SimState
    requires Live(s)
  {
    var ready := ReadyIndices(s.tasksInTime, s.timeIndex);
    if |ready| > 0 then
      var job := s.tasksInTime[ready[0]];
      var current := job.(timeLeft := job.timeLeft - 1);
      var records :=
        if current.timeLeft == 0
        then s.records.Append(current.refName, Completion(s.timeIndex + 1 - current.startPoint, current.executionTime))
        else s.records;
      SimState(DropFinished(s.tasksInTime[ready[0] := current]), s.timeIndex + 1, s.idleDurations, records)
    else
      SimState(DropFinished(s.tasksInTime), s.timeIndex + 1, s.idleDurations + 1, s.records)
  }

  // ---- what one tick does ----

  /** `k` is the position of the first ready job: `readyList[0]`. */
  predicate FirstReadyAt(jobs: seq<Job>, timeIndex: int, k: nat) {
    && k < |jobs|
    && IsReady(jobs[k], timeIndex)
    && forall i :: 0 <= i < k ==> !IsReady(jobs[i], timeIndex)
  }

  predicate NoneReady(jobs: seq<Job>, timeIndex: int) {
    forall i :: 0 <= i < |jobs| ==> !IsReady(jobs[i], timeIndex)
  }

  /** The effect of running the job at `k` for one unit, described job by job:
      that job alone loses a unit; it leaves the list, and its response time
      and cost are recorded, exactly when that unit was its last. */
  function RunUnit(s: SimState, k: nat): SimState
    requires k < |s.tasksInTime| && s.tasksInTime[k].refName in s.records.values
  {
    var job := s.tasksInTime[k];
    if job.timeLeft == 1 then
      SimState(s.tasksInTime[..k] + s.tasksInTime[k + 1..], s.timeIndex + 1, s.idleDurations,
               s.records.Append(job.refName, Completion(s.timeIndex + 1 - job.startPoint, job.executionTime)))
    else
      SimState(s.tasksInTime[k := job.(timeLeft := job.timeLeft - 1)], s.timeIndex + 1, s.idleDurations, s.records)
  }

  /** A tick with no ready job is idle and changes nothing else. */
  lemma StepIdle(s: SimState)
    requires Live(s) && NoneReady(s.tasksInTime, s.timeIndex)
    ensures Step(s) == SimState(s.tasksInTime, s.timeIndex + 1, s.idleDurations + 1, s.records)
  {
    FirstReady(s.tasksInTime, s.timeIndex);
    assert |ReadyIndices(s.tasksInTime, s.timeIndex)| == 0;
    DropFinishedNone(s.tasksInTime);
    assert Step(s).tasksInTime == s.tasksInTime;
  }

  /** Otherwise the first ready job, and only it, runs for one unit. */
  lemma StepBusy(s: SimState, k: nat)
    requires Live(s) && FirstReadyAt(s.tasksInTime, s.timeIndex, k)
    ensures Step(s) == RunUnit(s, k)
  {
    var jobs := s.tasksInTime;
    ReadyHead(jobs, s.timeIndex, k);
    StepRuns(s, k);
    RunDrop(jobs, k);
  }

  /** `readyList[0]` is the first ready position. */
  lemma ReadyHead(jobs: seq<Job>, timeIndex: int, k: nat)
    requires FirstReadyAt(jobs, timeIndex, k)
    ensures var ready := ReadyIndices(jobs, timeIndex); |ready| > 0 && ready[0] == k
  {
    FirstReady(jobs, timeIndex);
    var ready := ReadyIndices(jobs, timeIndex);
    assert k in ready;
  }

  /** A tick whose first ready position is `k` runs the job there. */
  lemma StepRuns(s: SimState, k: nat)
    requires Live(s)
    requires var ready := ReadyIndices(s.tasksInTime, s.timeIndex); |ready| > 0 && ready[0] == k
    ensures k < |s.tasksInTime|
    ensures var job := s.tasksInTime[k];
      Step(s) == SimState(DropFinished(s.tasksInTime[k := job.(timeLeft := job.timeLeft - 1)]), s.timeIndex + 1, s.idleDurations,
                          if job.timeLeft == 1
                          then s.records.Append(job.refName, Completion(s.timeIndex + 1 - job.startPoint, job.executionTime))
                          else s.records)
  {
  }

  /** After the job at `k` runs for one unit, dropping the exhausted jobs
      removes it if it finished and nothing otherwise. */
  lemma RunDrop(jobs: seq<Job>, k: nat)
    requires k < |jobs| && forall i :: 0 <= i < |jobs| ==> jobs[i].timeLeft > 0
    ensures var updated := jobs[k := jobs[k].(timeLeft := jobs[k].timeLeft - 1)];
      DropFinished(updated) == if jobs[k].timeLeft == 1 then jobs[..k] + jobs[k + 1..] else updated
  {
    var updated := jobs[k := jobs[k].(timeLeft := jobs[k].timeLeft - 1)];
    DropFinishedAt(updated, k);
    assert updated[..k] == jobs[..k];
    assert updated[k + 1..] == jobs[k + 1..];
  }

  /** How far the clock is from the last release; it shrinks on idle ticks. */
  function Slack(s: SimState): nat {
    if MaxStart(s.tasksInTime) > s.timeIndex then MaxStart(s.tasksInTime) - s.timeIndex else 0
  }

  /** Each tick keeps the loop invariant and either does one unit of work or
      moves the clock towards the next release: the loop terminates. */
  lemma StepProgress(s: SimState)
    requires Live(s) && |s.tasksInTime| > 0
    ensures Live(Step(s))
    ensures || (0 <= WorkLeft(Step(s).tasksInTime) == WorkLeft(s.tasksInTime) - 1)
            || (WorkLeft(Step(s).tasksInTime) == WorkLeft(s.tasksInTime) && Slack(Step(s)) < Slack(s))
  {
    var jobs := s.tasksInTime;
    FirstReady(jobs, s.timeIndex);
    var ready := ReadyIndices(jobs, s.timeIndex);
    if |ready| > 0 {
      var k := ready[0];
      assert FirstReadyAt(jobs, s.timeIndex, k);
      StepBusy(s, k);
      RunUnitWork(s, k);
    } else {
      StepIdle(s);
      MaxStartAbove(jobs, s.timeIndex);
    }
  }

  lemma RunUnitWork(s: SimState, k: nat)
    requires Live(s) && k < |s.tasksInTime|
    ensures Live(RunUnit(s, k))
    ensures 0 <= WorkLeft(RunUnit(s, k).tasksInTime) == WorkLeft(s.tasksInTime) - 1
  {
    var jobs := s.tasksInTime;
    var job := jobs[k];
    var next := RunUnit(s, k);
    SumSplit(TimeLeftOf, jobs, k);
    SumNonNegative(TimeLeftOf, jobs[..k]);
    var rest := jobs[k + 1..];
    forall i | 0 <= i < |rest| ensures TimeLeftOf(rest[i]) >= 0 {
      assert rest[i] == jobs[k + 1 + i];
    }
    SumNonNegative(TimeLeftOf, rest);
    if job.timeLeft == 1 {
      SumRemove(TimeLeftOf, jobs, k);
      forall i | 0 <= i < |next.tasksInTime|
        ensures next.tasksInTime[i].timeLeft > 0 && next.tasksInTime[i].refName in next.records.values
      {
        assert next.tasksInTime[i] == if i < k then jobs[i] else jobs[i + 1];
      }
    } else {
      SumUpdate(TimeLeftOf, jobs, k, job.(timeLeft := job.timeLeft - 1));
    }
  }

  /** The `while tasksInTime` loop, run to the end. */
  function Run(s: SimState): SimState
    requires Live(s)
    decreases WorkLeft(s.tasksInTime), Slack(s)
  {
    if |s.tasksInTime| == 0 then s
    else
      StepProgress(s);
      Run(Step(s))
  }

  /** The state before the loop: the expansion sorted by release time, an
      empty list per task name, clock and idle count at 0. */
  function InitialState(arrangement: seq<Task>, globalPeriod: int): SimState
    requires forall i :: 0 <= i < |arrangement| ==> arrangement[i].period > 0
  {
    SimState(SortByStart(Expand(arrangement, globalPeriod)), 0, 0, InitLog(arrangement))
  }

  // ---- the loop invariant ----

  /** A job that has run `executionTime - timeLeft` units since its release
      `startPoint` cannot have done so before `startPoint + done`. */
  predicate Progressed(j: Job, timeIndex: int) {
    && 0 < j.timeLeft <= j.executionTime
    && (j.timeLeft < j.executionTime ==> j.startPoint + (j.executionTime - j.timeLeft) <= timeIndex)
  }

  /** The invariant of the dispatch loop relative to the initial job list `J0`:
      each job is either still listed or recorded, never both; every tick is
      either idle or spent on exactly one unit of work. */
  ghost predicate Inv(J0: seq<Job>, s: SimState) {
    && Live(s)
    && s.records.Valid()
    && s.idleDurations >= 0
    && (forall i :: 0 <= i < |s.tasksInTime| ==> Progressed(s.tasksInTime[i], s.timeIndex))
    && (forall n :: RecordCount(s.records, n) + CountNamed(s.tasksInTime, n) == CountNamed(J0, n))
    && (forall n :: n in s.records.values ==> WellTimed(s.records.values[n]))
    && s.timeIndex == s.idleDurations + Sum(CostOf, J0) - WorkLeft(s.tasksInTime)
  }

  lemma RunUnitInv(J0: seq<Job>, s: SimState, k: nat)
    requires Inv(J0, s) && FirstReadyAt(s.tasksInTime, s.timeIndex, k)
    ensures Inv(J0, RunUnit(s, k))
    ensures RunUnit(s, k).records.keys == s.records.keys
  {
    RunUnitWork(s, k);
    if s.tasksInTime[k].timeLeft == 1 {
      FinishInv(J0, s, k);
    } else {
      ContinueInv(J0, s, k);
    }
  }

  /** The job that runs finishes: it leaves the list and its record is kept. */
  lemma FinishInv(J0: seq<Job>, s: SimState, k: nat)
    requires Inv(J0, s) && FirstReadyAt(s.tasksInTime, s.timeIndex, k) && s.tasksInTime[k].timeLeft == 1
    requires Live(RunUnit(s, k))
    requires RunUnit(s, k).timeIndex == RunUnit(s, k).idleDurations + Sum(CostOf, J0) - WorkLeft(RunUnit(s, k).tasksInTime)
    ensures Inv(J0, RunUnit(s, k))
  {
    var jobs := s.tasksInTime;
    var job := jobs[k];
    assert Progressed(job, s.timeIndex);
    FinishProgressed(jobs, k, s.timeIndex, jobs[..k] + jobs[k + 1..]);
    var c := Completion(s.timeIndex + 1 - job.startPoint, job.executionTime);
    var rest, log := jobs[..k] + jobs[k + 1..], s.records.Append(job.refName, c);
    assert RunUnit(s, k) == SimState(rest, s.timeIndex + 1, s.idleDurations, log);
    FinishCounts(J0, s.records, jobs, k, c);
    FinishWellTimed(s.records, job.refName, c);
  }

  lemma FinishProgressed(jobs: seq<Job>, k: nat, t: int, rest: seq<Job>)
    requires k < |jobs| && forall i :: 0 <= i < |jobs| ==> Progressed(jobs[i], t)
    requires rest == jobs[..k] + jobs[k + 1..]
    ensures forall i :: 0 <= i < |rest| ==> Progressed(rest[i], t + 1)
  {
    forall i | 0 <= i < |rest| ensures Progressed(rest[i], t + 1) {
      assert rest[i] == if i < k then jobs[i] else jobs[i + 1];
    }
  }

  lemma FinishCounts(J0: seq<Job>, log: ResponseLog, jobs: seq<Job>, k: nat, c: Completion)
    requires k < |jobs| && jobs[k].refName in log.values
    requires forall n :: RecordCount(log, n) + CountNamed(jobs, n) == CountNamed(J0, n)
    ensures forall n ::
      RecordCount(log.Append(jobs[k].refName, c), n) + CountNamed(jobs[..k] + jobs[k + 1..], n) == CountNamed(J0, n)
  {
    forall n ensures RecordCount(log.Append(jobs[k].refName, c), n) + CountNamed(jobs[..k] + jobs[k + 1..], n) == CountNamed(J0, n) {
      SumRemove(NameIndicator(n), jobs, k);
    }
  }

  lemma FinishWellTimed(log: ResponseLog, name: string, c: Completion)
    requires name in log.values && 0 < c.duration <= c.response
    requires forall n :: n in log.values ==> WellTimed(log.values[n])
    ensures forall n :: n in log.Append(name, c).values ==> WellTimed(log.Append(name, c).values[n])
  {
    var next := log.Append(name, c);
    forall n | n in next.values ensures WellTimed(next.values[n]) {
      if n == name {
        var cs := next.values[n];
        assert forall i :: 0 <= i < |cs| - 1 ==> cs[i] == log.values[n][i];
      }
    }
  }

  /** The job that runs does not finish: only its remaining time drops. */
  lemma ContinueInv(J0: seq<Job>, s: SimState, k: nat)
    requires Inv(J0, s) && FirstReadyAt(s.tasksInTime, s.timeIndex, k) && s.tasksInTime[k].timeLeft != 1
    requires Live(RunUnit(s, k))
    requires RunUnit(s, k).timeIndex == RunUnit(s, k).idleDurations + Sum(CostOf, J0) - WorkLeft(RunUnit(s, k).tasksInTime)
    ensures Inv(J0, RunUnit(s, k))
  {
    var jobs := s.tasksInTime;
    var job := jobs[k];
    var current := job.(timeLeft := job.timeLeft - 1);
    assert Progressed(job, s.timeIndex);
    forall n ensures RecordCount(RunUnit(s, k).records, n) + CountNamed(RunUnit(s, k).tasksInTime, n) == CountNamed(J0, n) {
      SumUpdate(NameIndicator(n), jobs, k, current);
    }
  }

  /** One tick keeps the invariant and leaves the keys of the records alone. */
  lemma StepInv(J0: seq<Job>, s: SimState)
    requires Inv(J0, s) && |s.tasksInTime| > 0
    ensures Inv(J0, Step(s))
    ensures Step(s).records.keys == s.records.keys
  {
    FirstReady(s.tasksInTime, s.timeIndex);
    var ready := ReadyIndices(s.tasksInTime, s.timeIndex);
    if |ready| > 0 {
      assert FirstReadyAt(s.tasksInTime, s.timeIndex, ready[0]);
      StepBusy(s, ready[0]);
      RunUnitInv(J0, s, ready[0]);
    } else {
      StepIdle(s);
    }
  }

  /** The loop ends with every job gone, the invariant still holding and the
      record keys as they were. */
  lemma {:induction false} RunInv(J0: seq<Job>, s: SimState)
    requires Inv(J0, s)
    ensures Inv(J0, Run(s))
    ensures Run(s).tasksInTime == []
    ensures Run(s).records.keys == s.records.keys
    decreases WorkLeft(s.tasksInTime), Slack(s)
  {
    if |s.tasksInTime| > 0 {
      StepProgress(s);
      StepInv(J0, s);
      RunInv(J0, Step(s));
    }
  }

  lemma {:induction false} SumAgree(f: Job -> int, g: Job -> int, s: seq<Job>)
    requires forall i :: 0 <= i < |s| ==> f(s[i]) == g(s[i])
    ensures Sum(f, s) == Sum(g, s)
    decreases |s|
  {
    if |s| > 0 {
      SumAgree(f, g, s[1..]);
    }
  }

  /** The invariant holds before the first iteration. */
  lemma InitialInv(arrangement: seq<Task>, globalPeriod: int)
    requires AllWellFormed(arrangement)
    ensures Inv(InitialState(arrangement, globalPeriod).tasksInTime, InitialState(arrangement, globalPeriod))
  {
    InitialJobs(arrangement, globalPeriod);
    var s := InitialState(arrangement, globalPeriod);
    StartInv(s.tasksInTime, s.records);
  }

  /** Fresh jobs filed under the keys of a dictionary whose lists are all
      empty satisfy the invariant at clock 0. */
  lemma StartInv(jobs: seq<Job>, log: ResponseLog)
    requires log.Valid() && forall n :: n in log.values ==> log.values[n] == []
    requires forall i :: 0 <= i < |jobs| ==>
      jobs[i].timeLeft == jobs[i].executionTime > 0 && jobs[i].refName in log.values
    ensures Inv(jobs, SimState(jobs, 0, 0, log))
  {
    assert forall n :: RecordCount(log, n) == 0;
    SumAgree(CostOf, TimeLeftOf, jobs);
  }

  /** The sorted job list holds exactly the expanded jobs, each of a task of
      the arrangement and with its whole cost left. */
  lemma InitialJobs(arrangement: seq<Task>, globalPeriod: int)
    requires AllWellFormed(arrangement)
    ensures var s := InitialState(arrangement, globalPeriod);
      && s.records.Valid()
      && (forall n :: n in s.records.values ==> s.records.values[n] == [])
      && forall i :: 0 <= i < |s.tasksInTime| ==>
        s.tasksInTime[i].timeLeft == s.tasksInTime[i].executionTime > 0 && s.tasksInTime[i].refName in s.records.values
  {
    var jobs := SortByStart(Expand(arrangement, globalPeriod));
    var log := InitLog(arrangement);
    ExpandJobs(arrangement, globalPeriod);
    SortFacts(Expand(arrangement, globalPeriod));
    forall i | 0 <= i < |jobs|
      ensures jobs[i].timeLeft == jobs[i].executionTime > 0 && jobs[i].refName in log.values
    {
      assert jobs[i] in multiset(jobs);
    }
  }

  /** The outcome of `simulateSystem(arrangement, globalPeriod)`: the state
      when the loop ends. */
  function Simulate(arrangement: seq<Task>, globalPeriod: int): SimState
    requires AllWellFormed(arrangement)
  {
    InitialLive(arrangement, globalPeriod);
    Run(InitialState(arrangement, globalPeriod))
  }

  lemma InitialLive(arrangement: seq<Task>, globalPeriod: int)
    requires AllWellFormed(arrangement)
    ensures Live(InitialState(arrangement, globalPeriod))
  {
    InitialInv(arrangement, globalPeriod);
  }

  /** The records a run returns form a well-formed dictionary. */
  lemma SimulateValid(arrangement: seq<Task>, globalPeriod: int)
    requires AllWellFormed(arrangement)
    ensures Simulate(arrangement, globalPeriod).records.Valid()
  {
    SimulateKeys(arrangement, globalPeriod);
  }

  /** The loop ends with the job list empty, and the clock stops at the idle
      time plus the total work Σ C_i * (H // T_i): every tick is either idle
      or spent on one unit of some job. */
  lemma SimulateTime(arrangement: seq<Task>, globalPeriod: int)
    requires AllWellFormed(arrangement)
    ensures var f := Simulate(arrangement, globalPeriod);
      && f.tasksInTime == []
      && f.idleDurations >= 0
      && f.timeIndex == f.idleDurations + Workload(arrangement, globalPeriod)
  {
    var s := InitialState(arrangement, globalPeriod);
    InitialInv(arrangement, globalPeriod);
    RunInv(s.tasksInTime, s);
    InitialCounts(arrangement, globalPeriod);
  }

  /** The record keys are the arrangement's task names, each once, in the
      order the arrangement first names them. */
  lemma SimulateKeys(arrangement: seq<Task>, globalPeriod: int)
    requires AllWellFormed(arrangement)
    ensures var f := Simulate(arrangement, globalPeriod);
      && f.records.Valid()
      && f.records.keys == InitLog(arrangement).keys
      && (forall n :: n in f.records.values <==> n in Names(arrangement))
  {
    var s := InitialState(arrangement, globalPeriod);
    InitialInv(arrangement, globalPeriod);
    RunInv(s.tasksInTime, s);
    var f := Run(s);
    forall n ensures n in f.records.values <==> n in Names(arrangement) {
      assert n in f.records.values <==> n in f.records.keys;
    }
  }

  /** Every expanded job is recorded once under its task's name, with a
      response time at least its positive cost. */
  lemma SimulateRecords(arrangement: seq<Task>, globalPeriod: int)
    requires AllWellFormed(arrangement)
    ensures var f := Simulate(arrangement, globalPeriod);
      && (forall n :: RecordCount(f.records, n) == TaskJobCount(arrangement, globalPeriod, n))
      && (forall n :: n in f.records.values ==> WellTimed(f.records.values[n]))
  {
    var s := InitialState(arrangement, globalPeriod);
    InitialInv(arrangement, globalPeriod);
    RunInv(s.tasksInTime, s);
    InitialCounts(arrangement, globalPeriod);
  }

  /** The sorted job list has as many jobs per name, and as much total cost,
      as the tasks of the arrangement call for. */
  lemma InitialCounts(arrangement: seq<Task>, globalPeriod: int)
    requires AllWellFormed(arrangement)
    ensures var jobs := SortByStart(Expand(arrangement, globalPeriod));
      && (forall n :: CountNamed(jobs, n) == TaskJobCount(arrangement, globalPeriod, n))
      && Sum(CostOf, jobs) == Workload(arrangement, globalPeriod)
  {
    var e := Expand(arrangement, globalPeriod);
    SortFacts(e);
    ExpandCounts(arrangement, globalPeriod, "");
    forall n ensures CountNamed(SortByStart(e), n) == TaskJobCount(arrangement, globalPeriod, n) {
      ExpandCounts(arrangement, globalPeriod, n);
      assert Sum(NameIndicator(n), SortByStart(e)) == Sum(NameIndicator(n), e);
    }
  }

  /** With pairwise distinct task names, each task gets exactly
      `globalPeriod // period` records. */
  lemma {:induction false} TaskJobCountDistinct(arrangement: seq<Task>, globalPeriod: int, i: nat)
    requires AllWellFormed(arrangement) && i < |arrangement|
    requires forall a, b :: 0 <= a < b < |arrangement| ==> arrangement[a].name != arrangement[b].name
    ensures TaskJobCount(arrangement, globalPeriod, arrangement[i].name) == JobCount(arrangement[i], globalPeriod)
    decreases |arrangement|
  {
    var init := arrangement[..|arrangement| - 1];
    if i < |arrangement| - 1 {
      TaskJobCountDistinct(init, globalPeriod, i);
    } else {
      TaskJobCountAbsent(init, globalPeriod, arrangement[i].name);
    }
  }

  lemma {:induction false} TaskJobCountAbsent(arrangement: seq<Task>, globalPeriod: int, n: string)
    requires AllWellFormed(arrangement)
    requires forall a :: 0 <= a < |arrangement| ==> arrangement[a].name != n
    ensures TaskJobCount(arrangement, globalPeriod, n) == 0
    decreases |arrangement|
  {
    if |arrangement| > 0 {
      TaskJobCountAbsent(arrangement[..|arrangement| - 1], globalPeriod, n);
    }
  }

  // ---- the procedure itself ----

  /** The activations of every task within the horizon, task after task. */
  method BuildJobs(arrangement: seq<Task>, globalPeriod: int) returns (tasksInTime: seq<Job>)
    requires forall i :: 0 <= i < |arrangement| ==> arrangement[i].period > 0
    ensures tasksInTime == Expand(arrangement, globalPeriod)
  {
    tasksInTime := [];
    for i := 0 to |arrangement|
      invariant tasksInTime == Expand(arrangement[..i], globalPeriod)
    {
      var item := arrangement[i];
      var howManyInHyper := globalPeriod / item.period;
      var timeslot := 0;
      while timeslot < howManyInHyper
        invariant 0 <= timeslot <= RangeLength(howManyInHyper)
        invariant tasksInTime == Expand(arrangement[..i], globalPeriod) + JobsUpTo(item, timeslot)
      {
        assert JobsUpTo(item, timeslot + 1) == JobsUpTo(item, timeslot) + [JobAt(item, timeslot)];
        tasksInTime := tasksInTime + [Job(item.name, item.cost, item.period, timeslot * item.period, item.cost)];
        timeslot := timeslot + 1;
      }
      assert arrangement[..i + 1][..i] == arrangement[..i];
    }
    assert arrangement[..|arrangement|] == arrangement;
  }

  /** The initial dictionary: an empty record list per task name. */
  method BuildRecords(arrangement: seq<Task>) returns (answerTimeRecords: ResponseLog)
    ensures answerTimeRecords == InitLog(arrangement)
  {
    answerTimeRecords := ResponseLog([], map[]);
    for i := 0 to |arrangement|
      invariant answerTimeRecords == InitLog(arrangement[..i])
    {
      assert arrangement[..i + 1][..i] == arrangement[..i];
      answerTimeRecords := answerTimeRecords.Put(arrangement[i].name, []);
    }
    assert arrangement[..|arrangement|] == arrangement;
  }

  /** The positions of the ready jobs, in list order. */
  method CollectReady(tasksInTime: seq<Job>, timeIndex: int) returns (readyList: seq<nat>)
    ensures readyList == ReadyIndices(tasksInTime, timeIndex)
  {
    readyList := [];
    for idx := 0 to |tasksInTime|
      invariant readyList == ReadyIndices(tasksInTime[..idx], timeIndex)
    {
      assert tasksInTime[..idx + 1][..idx] == tasksInTime[..idx];
      var job := tasksInTime[idx];
      if job.startPoint <= timeIndex && job.timeLeft > 0 {
        readyList := readyList + [idx];
      }
    }
    assert tasksInTime[..|tasksInTime|] == tasksInTime;
  }

  /** The jobs with time left, in list order. */
  method KeepUnfinished(tasksInTime: seq<Job>) returns (nextCycle: seq<Job>)
    ensures nextCycle == DropFinished(tasksInTime)
  {
    nextCycle := [];
    for idx := 0 to |tasksInTime|
      invariant nextCycle == DropFinished(tasksInTime[..idx])
    {
      assert tasksInTime[..idx + 1][..idx] == tasksInTime[..idx];
      if tasksInTime[idx].timeLeft > 0 {
        nextCycle := nextCycle + [tasksInTime[idx]];
      }
    }
    assert tasksInTime[..|tasksInTime|] == tasksInTime;
  }

  /** One pass of the `while tasksInTime` body. */
  method Tick(cur: SimState) returns (next: SimState)
    requires Live(cur)
    ensures next == Step(cur)
  {
    var tasksInTime, timeIndex, idleDurations, answerTimeRecords :=
      cur.tasksInTime, cur.timeIndex, cur.idleDurations, cur.records;
    var readyList := CollectReady(tasksInTime, timeIndex);
    if |readyList| > 0 {
      var k := readyList[0];
      var currentJob := tasksInTime[k];
      currentJob := currentJob.(timeLeft := currentJob.timeLeft - 1);
      tasksInTime := tasksInTime[k := currentJob];
      if currentJob.timeLeft == 0 {
        var actualFinish := timeIndex + 1 - currentJob.startPoint;
        answerTimeRecords := answerTimeRecords.Append(currentJob.refName, Completion(actualFinish, currentJob.executionTime));
      }
    } else {
      idleDurations := idleDurations + 1;
    }
    timeIndex := timeIndex + 1;
    tasksInTime := KeepUnfinished(tasksInTime);
    next := SimState(tasksInTime, timeIndex, idleDurations, answerTimeRecords);
  }

  /** `simulateSystem(arrangement, globalPeriod)`: builds the job list, sorts
      it, creates the record lists, then runs the dispatch loop until no job
      is left; returns the records and the number of idle ticks. */
  method SimulateSystem(arrangement: seq<Task>, globalPeriod: int)
    returns (answerTimeRecords: ResponseLog, idleDurations: int)
    requires AllWellFormed(arrangement)
    ensures answerTimeRecords == Simulate(arrangement, globalPeriod).records
    ensures idleDurations == Simulate(arrangement, globalPeriod).idleDurations
    ensures answerTimeRecords.Valid() && idleDurations >= 0
    ensures forall n :: RecordCount(answerTimeRecords, n) == TaskJobCount(arrangement, globalPeriod, n)
    ensures forall n :: n in answerTimeRecords.values ==> WellTimed(answerTimeRecords.values[n])
  {
    var tasksInTime := BuildJobs(arrangement, globalPeriod);
    tasksInTime := SortByStart(tasksInTime);
    answerTimeRecords := BuildRecords(arrangement);
    var timeIndex := 0;
    idleDurations := 0;
    var state := SimState(tasksInTime, timeIndex, idleDurations, answerTimeRecords);
    InitialInv(arrangement, globalPeriod);
    while |state.tasksInTime| > 0
      invariant Live(state)
      invariant Run(state) == Simulate(arrangement, globalPeriod)
      decreases WorkLeft(state.tasksInTime), Slack(state)
    {
      StepProgress(state);
      state := Tick(state);
    }
    answerTimeRecords, idleDurations := state.records, state.idleDurations;
    SimulateKeys(arrangement, globalPeriod);
    SimulateTime(arrangement, globalPeriod);
    SimulateRecords(arrangement, globalPeriod);
  }
}
