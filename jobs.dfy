/** The jobs of one simulation run: their expansion from an arrangement over the
    hyper-period, the stable sort by release time, and the two scans the
    dispatch loop makes over the job list (the ready jobs, the unfinished jobs). */
module Jobs {
  import opened Tasks
  import HyperPeriod

  /** One activation of a task: a task's name, cost and period, its release
      time and its remaining time `timeLeft`, which the simulation counts down. */
  datatype Job = Job(refName: string, executionTime: int, period: int, startPoint: int, timeLeft: int)

  /** Python's `range(n)` is empty for a negative `n`. */
  function RangeLength(n: int): nat {
    if n > 0 then n else 0
  }

  /** `globalPeriod // item["period"]` activations (none for a negative horizon). */
  function JobCount(t: Task, globalPeriod: int): nat
    requires t.period > 0
  {
    RangeLength(globalPeriod / t.period)
  }

  /** The activation of `t` in slot `k`, released at `k * period` with its whole cost left. */
  function JobAt(t: Task, k: int): Job {
    Job(t.name, t.cost, t.period, k * t.period, t.cost)
  }

  /** The first `m` activations of `t`, in slot order. */
  function JobsUpTo(t: Task, m: nat): seq<Job> {
    seq(m, k => JobAt(t, k))
  }

  /** `for timeslot in range(howManyInHyper)`: all activations of `t`. */
  function JobsOf(t: Task, globalPeriod: int): seq<Job>
    requires t.period > 0
  {
    JobsUpTo(t, JobCount(t, globalPeriod))
  }

  /** The job list before sorting: each task's activations, task after task
      in arrangement order. */
  function Expand(arrangement: seq<Task>, globalPeriod: int): seq<Job>
    requires forall i :: 0 <= i < |arrangement| ==> arrangement[i].period > 0
  {
    if |arrangement| == 0 then []
    else Expand(arrangement[..|arrangement| - 1], globalPeriod) + JobsOf(arrangement[|arrangement| - 1], globalPeriod)
  }

  // ---- sums over job lists ----

  function Sum(f: Job -> int, s: seq<Job>): int {
    if |s| == 0 then 0 else f(s[0]) + Sum(f, s[1..])
  }

  function TimeLeftOf(j: Job): int { j.timeLeft }

  function CostOf(j: Job): int { j.executionTime }

  /** 1 for a job of task `n`, 0 otherwise: summing it counts the jobs of `n`. */
  function NameIndicator(n: string): Job -> int {
    (j: Job) => if j.refName == n then 1 else 0
  }

  /** Σ timeLeft over the list: the work still to do. */
  function WorkLeft(s: seq<Job>): int { Sum(TimeLeftOf, s) }

  /** The number of jobs of task `n` in the list. */
  function CountNamed(s: seq<Job>, n: string): int { Sum(NameIndicator(n), s) }

  lemma {:induction false} SumConcat(f: Job -> int, a: seq<Job>, b: seq<Job>)
    ensures Sum(f, a + b) == Sum(f, a) + Sum(f, b)
    decreases |a|
  {
    if |a| > 0 {
      assert (a + b)[1..] == a[1..] + b;
      SumConcat(f, a[1..], b);
    } else {
      assert a + b == b;
    }
  }

  lemma SumSplit(f: Job -> int, s: seq<Job>, k: nat)
    requires k < |s|
    ensures Sum(f, s) == Sum(f, s[..k]) + f(s[k]) + Sum(f, s[k + 1..])
  {
    assert s == s[..k] + ([s[k]] + s[k + 1..]);
    SumConcat(f, s[..k], [s[k]] + s[k + 1..]);
    SumConcat(f, [s[k]], s[k + 1..]);
  }

  /** Changing one job changes the sum by the difference at that job. */
  lemma SumUpdate(f: Job -> int, s: seq<Job>, k: nat, x: Job)
    requires k < |s|
    ensures Sum(f, s[k := x]) == Sum(f, s) - f(s[k]) + f(x)
  {
    SumSplit(f, s, k);
    SumSplit(f, s[k := x], k);
    assert s[k := x][..k] == s[..k] && s[k := x][k + 1..] == s[k + 1..];
  }

  /** Removing one job lowers the sum by that job's share. */
  lemma SumRemove(f: Job -> int, s: seq<Job>, k: nat)
    requires k < |s|
    ensures Sum(f, s[..k] + s[k + 1..]) == Sum(f, s) - f(s[k])
  {
    SumSplit(f, s, k);
    SumConcat(f, s[..k], s[k + 1..]);
  }

  lemma {:induction false} SumNonNegative(f: Job -> int, s: seq<Job>)
    requires forall i :: 0 <= i < |s| ==> f(s[i]) >= 0
    ensures Sum(f, s) >= 0
    decreases |s|
  {
    if |s| > 0 {
      SumNonNegative(f, s[1..]);
    }
  }

  lemma {:induction false} SumConstant(f: Job -> int, s: seq<Job>, v: int)
    requires forall i :: 0 <= i < |s| ==> f(s[i]) == v
    ensures Sum(f, s) == |s| * v
    decreases |s|
  {
    if |s| > 0 {
      SumConstant(f, s[1..], v);
    }
  }

  // ---- what the expansion contains ----

  /** Σ over the tasks of `arrangement` named `n` of their activation counts. */
  function TaskJobCount(arrangement: seq<Task>, globalPeriod: int, n: string): int
    requires forall i :: 0 <= i < |arrangement| ==> arrangement[i].period > 0
  {
    if |arrangement| == 0 then 0
    else
      var t := arrangement[|arrangement| - 1];
      TaskJobCount(arrangement[..|arrangement| - 1], globalPeriod, n) + (if t.name == n then JobCount(t, globalPeriod) else 0)
  }

  /** Σ C_i × activation count over `arrangement`: the processor time all jobs need. */
  function Workload(arrangement: seq<Task>, globalPeriod: int): int
    requires forall i :: 0 <= i < |arrangement| ==> arrangement[i].period > 0
  {
    if |arrangement| == 0 then 0
    else
      var t := arrangement[|arrangement| - 1];
      Workload(arrangement[..|arrangement| - 1], globalPeriod) + t.cost * JobCount(t, globalPeriod)
  }

  /** Each task contributes exactly `globalPeriod // period` jobs under its
      name, and each of them needs `C_i` units. */
  lemma {:induction false} ExpandCounts(arrangement: seq<Task>, globalPeriod: int, n: string)
    requires forall i :: 0 <= i < |arrangement| ==> arrangement[i].period > 0
    ensures CountNamed(Expand(arrangement, globalPeriod), n) == TaskJobCount(arrangement, globalPeriod, n)
    ensures Sum(CostOf, Expand(arrangement, globalPeriod)) == Workload(arrangement, globalPeriod)
    decreases |arrangement|
  {
    if |arrangement| > 0 {
      var init, t := arrangement[..|arrangement| - 1], arrangement[|arrangement| - 1];
      ExpandCounts(init, globalPeriod, n);
      var js := JobsOf(t, globalPeriod);
      SumConcat(NameIndicator(n), Expand(init, globalPeriod), js);
      SumConcat(CostOf, Expand(init, globalPeriod), js);
      SumConstant(NameIndicator(n), js, if t.name == n then 1 else 0);
      SumConstant(CostOf, js, t.cost);
    }
  }

  /** Every expanded job is an activation of some task of the arrangement, at
      a non-negative release time, with its whole cost left. */
  lemma {:induction false} ExpandJobs(arrangement: seq<Task>, globalPeriod: int)
    requires AllWellFormed(arrangement)
    ensures forall j :: j in Expand(arrangement, globalPeriod) ==>
      && j.refName in Names(arrangement)
      && j.timeLeft == j.executionTime > 0
      && j.startPoint >= 0
    decreases |arrangement|
  {
    if |arrangement| > 0 {
      var init, t := arrangement[..|arrangement| - 1], arrangement[|arrangement| - 1];
      ExpandJobs(init, globalPeriod);
      assert Names(arrangement) == Names(init) + {t.name};
      forall j | j in JobsOf(t, globalPeriod)
        ensures j.startPoint >= 0
      {
        var k :| 0 <= k < JobCount(t, globalPeriod) && j == JobAt(t, k);
        assert k * t.period >= 0;
      }
    }
  }

  // ---- release times ----

  /** The jobs of `s` released at `r`, in list order. */
  function ReleasedAt(s: seq<Job>, r: int): seq<Job> {
    if |s| == 0 then []
    else (if s[0].startPoint == r then [s[0]] else []) + ReleasedAt(s[1..], r)
  }

  lemma {:induction false} ReleasedAtConcat(a: seq<Job>, b: seq<Job>, r: int)
    ensures ReleasedAt(a + b, r) == ReleasedAt(a, r) + ReleasedAt(b, r)
    decreases |a|
  {
    if |a| > 0 {
      assert (a + b)[1..] == a[1..] + b;
      ReleasedAtConcat(a[1..], b, r);
    } else {
      assert a + b == b;
    }
  }

  /** `t` has an activation released at `r` within the horizon. */
  predicate HasSlotAt(t: Task, globalPeriod: int, r: int)
    requires t.period > 0
  {
    r >= 0 && r % t.period == 0 && r / t.period < JobCount(t, globalPeriod)
  }

  /** The tasks of `arrangement` with an activation at `r`, each as that
      activation, in arrangement order. */
  function ReleasedTasks(arrangement: seq<Task>, globalPeriod: int, r: int): seq<Job>
    requires forall i :: 0 <= i < |arrangement| ==> arrangement[i].period > 0
  {
    if |arrangement| == 0 then []
    else
      var t := arrangement[|arrangement| - 1];
      ReleasedTasks(arrangement[..|arrangement| - 1], globalPeriod, r)
        + (if HasSlotAt(t, globalPeriod, r) then [JobAt(t, r / t.period)] else [])
  }

  lemma {:induction false} ReleasedInSlots(t: Task, m: nat, r: int)
    requires t.period > 0
    ensures ReleasedAt(JobsUpTo(t, m), r)
         == if r >= 0 && r % t.period == 0 && r / t.period < m then [JobAt(t, r / t.period)] else []
    decreases m
  {
    if m > 0 {
      var last := JobAt(t, m - 1);
      assert JobsUpTo(t, m) == JobsUpTo(t, m - 1) + [last];
      ReleasedInSlots(t, m - 1, r);
      ReleasedAtConcat(JobsUpTo(t, m - 1), [last], r);
      assert ReleasedAt([last], r) == if last.startPoint == r then [last] else [] by {
        assert [last][1..] == [];
      }
      SlotStep(r, t.period, m);
    }
  }

  /** Slot `r / p` is below `m` exactly when it is below `m - 1` or it is `m - 1` itself. */
  lemma SlotStep(r: int, p: int, m: nat)
    requires p > 0 && m > 0
    ensures (r >= 0 && r % p == 0 && r / p < m) <==> ((r >= 0 && r % p == 0 && r / p < m - 1) || (m - 1) * p == r)
    ensures (m - 1) * p == r ==> r >= 0 && r % p == 0 && r / p == m - 1
  {
    if (m - 1) * p == r {
      HyperPeriod.DivModUnique(r, p, m - 1, 0);
    }
    if r >= 0 && r % p == 0 && r / p == m - 1 {
      assert r == p * (r / p) + r % p;
    }
  }

  /** Before sorting, the jobs released at time `r` are one activation per
      task that has a slot at `r`, in arrangement order. */
  lemma {:induction false} ExpandReleasedAt(arrangement: seq<Task>, globalPeriod: int, r: int)
    requires forall i :: 0 <= i < |arrangement| ==> arrangement[i].period > 0
    ensures ReleasedAt(Expand(arrangement, globalPeriod), r) == ReleasedTasks(arrangement, globalPeriod, r)
    decreases |arrangement|
  {
    if |arrangement| > 0 {
      var init, t := arrangement[..|arrangement| - 1], arrangement[|arrangement| - 1];
      ExpandReleasedAt(init, globalPeriod, r);
      ReleasedAtConcat(Expand(init, globalPeriod), JobsOf(t, globalPeriod), r);
      ReleasedInSlots(t, JobCount(t, globalPeriod), r);
    }
  }

  // ---- `tasksInTime.sort(key=lambda x: x["startPoint"])` ----

  predicate SortedByStart(s: seq<Job>) {
    forall i, j :: 0 <= i < j < |s| ==> s[i].startPoint <= s[j].startPoint
  }

  /** Insert `x` in front of the first job released no earlier than `x`. */
  function Insert(x: Job, s: seq<Job>): seq<Job> {
    if |s| == 0 then [x]
    else if x.startPoint <= s[0].startPoint then [x] + s
    else [s[0]] + Insert(x, s[1..])
  }

  /** A stable sort by release time (Python's `list.sort` is stable). */
  function SortByStart(s: seq<Job>): seq<Job> {
    if |s| == 0 then [] else Insert(s[0], SortByStart(s[1..]))
  }

  lemma {:induction false} InsertMultiset(x: Job, s: seq<Job>)
    ensures multiset(Insert(x, s)) == multiset{x} + multiset(s)
    decreases |s|
  {
    if |s| > 0 && x.startPoint > s[0].startPoint {
      InsertMultiset(x, s[1..]);
      assert s == [s[0]] + s[1..];
    }
  }

  lemma {:induction false} InsertSorted(x: Job, s: seq<Job>)
    requires SortedByStart(s)
    ensures SortedByStart(Insert(x, s))
    decreases |s|
  {
    if |s| > 0 && x.startPoint > s[0].startPoint {
      var rest := Insert(x, s[1..]);
      InsertSorted(x, s[1..]);
      InsertAbove(x, s[1..], s[0].startPoint);
      var out := [s[0]] + rest;
      forall i, j | 0 <= i < j < |out|
        ensures out[i].startPoint <= out[j].startPoint
      {
        assert out[j] == rest[j - 1];
        if i > 0 {
          assert out[i] == rest[i - 1];
        }
      }
    }
  }

  /** Inserting a job released no earlier than `b` into jobs released no
      earlier than `b` keeps every release at or after `b`. */
  lemma {:induction false} InsertAbove(x: Job, s: seq<Job>, b: int)
    requires x.startPoint >= b
    requires forall i :: 0 <= i < |s| ==> s[i].startPoint >= b
    ensures forall i :: 0 <= i < |Insert(x, s)| ==> Insert(x, s)[i].startPoint >= b
    decreases |s|
  {
    if |s| > 0 && x.startPoint > s[0].startPoint {
      InsertAbove(x, s[1..], b);
      var rest := Insert(x, s[1..]);
      forall i | 0 <= i < |[s[0]] + rest| ensures ([s[0]] + rest)[i].startPoint >= b {
        if i > 0 {
          assert ([s[0]] + rest)[i] == rest[i - 1];
        }
      }
    }
  }

  lemma {:induction false} InsertReleasedAt(x: Job, s: seq<Job>, r: int)
    ensures ReleasedAt(Insert(x, s), r) == ReleasedAt([x] + s, r)
    decreases |s|
  {
    if |s| > 0 && x.startPoint > s[0].startPoint {
      var rest := Insert(x, s[1..]);
      InsertReleasedAt(x, s[1..], r);
      assert ([s[0]] + rest)[1..] == rest;
      assert ([x] + s)[1..] == s;
      assert ([x] + s[1..])[1..] == s[1..];
    }
  }

  lemma {:induction false} InsertSum(f: Job -> int, x: Job, s: seq<Job>)
    ensures Sum(f, Insert(x, s)) == f(x) + Sum(f, s)
    decreases |s|
  {
    if |s| > 0 && x.startPoint > s[0].startPoint {
      var rest := Insert(x, s[1..]);
      InsertSum(f, x, s[1..]);
      assert ([s[0]] + rest)[1..] == rest;
    } else {
      assert ([x] + s)[1..] == s;
    }
  }

  /** The sort returns a sorted permutation of the job list, and keeps the
      relative order of jobs released at the same time (stability). */
  lemma {:induction false} SortFacts(s: seq<Job>)
    ensures SortedByStart(SortByStart(s))
    ensures multiset(SortByStart(s)) == multiset(s)
    ensures forall r :: ReleasedAt(SortByStart(s), r) == ReleasedAt(s, r)
    ensures forall f: Job -> int :: Sum(f, SortByStart(s)) == Sum(f, s)
    decreases |s|
  {
    if |s| > 0 {
      var sorted := SortByStart(s[1..]);
      SortFacts(s[1..]);
      InsertMultiset(s[0], sorted);
      InsertSorted(s[0], sorted);
      assert s == [s[0]] + s[1..];
      forall r
        ensures ReleasedAt(SortByStart(s), r) == ReleasedAt(s, r)
      {
        InsertReleasedAt(s[0], sorted, r);
        assert ([s[0]] + sorted)[1..] == sorted;
      }
      forall f: Job -> int
        ensures Sum(f, SortByStart(s)) == Sum(f, s)
      {
        InsertSum(f, s[0], sorted);
      }
    }
  }

  /** After the stable sort, the jobs released at `r` are, in order, one
      activation per task that has a slot at `r`, in arrangement order. */
  lemma SortedJobsReleasedAt(arrangement: seq<Task>, globalPeriod: int, r: int)
    requires forall i :: 0 <= i < |arrangement| ==> arrangement[i].period > 0
    ensures ReleasedAt(SortByStart(Expand(arrangement, globalPeriod)), r) == ReleasedTasks(arrangement, globalPeriod, r)
  {
    SortFacts(Expand(arrangement, globalPeriod));
    ExpandReleasedAt(arrangement, globalPeriod, r);
  }

  // ---- the two scans of the dispatch loop ----

  /** A job can run at `timeIndex`: released and not finished (`startPoint <= timeIndex` and `timeLeft > 0`). */
  predicate IsReady(j: Job, timeIndex: int) {
    j.startPoint <= timeIndex && j.timeLeft > 0
  }

  /** `readyList`, as the positions in the job list of the ready jobs, in list order. */
  function ReadyIndices(jobs: seq<Job>, timeIndex: int): (r: seq<nat>)
    ensures forall a :: 0 <= a < |r| ==> r[a] < |jobs| && IsReady(jobs[r[a]], timeIndex)
    ensures forall i :: 0 <= i < |jobs| && IsReady(jobs[i], timeIndex) ==> i in r
    ensures forall a, b :: 0 <= a < b < |r| ==> r[a] < r[b]
  {
    if |jobs| == 0 then []
    else
      var r0 := ReadyIndices(jobs[..|jobs| - 1], timeIndex);
      if IsReady(jobs[|jobs| - 1], timeIndex) then r0 + [|jobs| - 1] else r0
  }

  /** `readyList[0]` is the first ready job in list order; an empty
      `readyList` means no job is ready. */
  lemma FirstReady(jobs: seq<Job>, timeIndex: int)
    ensures var r := ReadyIndices(jobs, timeIndex);
      (|r| == 0 <==> forall i :: 0 <= i < |jobs| ==> !IsReady(jobs[i], timeIndex))
      && (|r| > 0 ==> r[0] < |jobs| && IsReady(jobs[r[0]], timeIndex)
                      && forall i :: 0 <= i < r[0] ==> !IsReady(jobs[i], timeIndex))
  {
  }

  /** `nextCycle`: the jobs whose `timeLeft` is not exhausted, in list order. */
  function DropFinished(jobs: seq<Job>): seq<Job> {
    if |jobs| == 0 then []
    else
      var last := jobs[|jobs| - 1];
      DropFinished(jobs[..|jobs| - 1]) + (if last.timeLeft > 0 then [last] else [])
  }

  /** When only the job at `k` may be exhausted, dropping the exhausted jobs
      removes that job or nothing. */
  lemma {:induction false} DropFinishedAt(jobs: seq<Job>, k: nat)
    requires k < |jobs|
    requires forall i :: 0 <= i < |jobs| && i != k ==> jobs[i].timeLeft > 0
    ensures jobs[k].timeLeft > 0 ==> DropFinished(jobs) == jobs
    ensures jobs[k].timeLeft <= 0 ==> DropFinished(jobs) == jobs[..k] + jobs[k + 1..]
    decreases |jobs|
  {
    var init, last := jobs[..|jobs| - 1], jobs[|jobs| - 1];
    assert jobs == init + [last];
    if k == |jobs| - 1 {
      DropFinishedNone(init);
      assert DropFinished(jobs) == init + (if last.timeLeft > 0 then [last] else []);
      assert jobs[..k] == init && jobs[k + 1..] == [];
    } else {
      forall i | 0 <= i < |init| && i != k ensures init[i].timeLeft > 0 {
        assert init[i] == jobs[i];
      }
      DropFinishedAt(init, k);
      assert DropFinished(jobs) == DropFinished(init) + [last];
      if jobs[k].timeLeft <= 0 {
        assert init[..k] == jobs[..k];
        assert init[k + 1..] + [last] == jobs[k + 1..];
        assert DropFinished(jobs) == jobs[..k] + (init[k + 1..] + [last]);
      }
    }
  }

  /** With no job exhausted, nothing is dropped. */
  lemma {:induction false} DropFinishedNone(jobs: seq<Job>)
    requires forall i :: 0 <= i < |jobs| ==> jobs[i].timeLeft > 0
    ensures DropFinished(jobs) == jobs
    decreases |jobs|
  {
    if |jobs| > 0 {
      DropFinishedNone(jobs[..|jobs| - 1]);
      assert jobs == jobs[..|jobs| - 1] + [jobs[|jobs| - 1]];
    }
  }

  /** The latest release time in the list (0 for an empty list). */
  function MaxStart(jobs: seq<Job>): int {
    if |jobs| == 0 then 0
    else if |jobs| == 1 || jobs[0].startPoint >= MaxStart(jobs[1..]) then jobs[0].startPoint
    else MaxStart(jobs[1..])
  }

  lemma {:induction false} MaxStartAbove(jobs: seq<Job>, t: int)
    requires |jobs| > 0
    requires forall i :: 0 <= i < |jobs| ==> jobs[i].startPoint > t
    ensures MaxStart(jobs) > t
    decreases |jobs|
  {
    if |jobs| > 1 {
      MaxStartAbove(jobs[1..], t);
    }
  }
}
