/** `computeWaitingCost` and `isArrangementViable`: the two reductions of the
    response records of one arrangement. Both walk the records in dictionary
    order, key by key and, within a key, in completion order. */
module Evaluation {
  import opened Wrappers
  import opened Tasks
  import opened Records

  /** One record together with the key it is filed under. */
  datatype Measure = Measure(refName: string, completion: Completion)

  /** The records of a list, tagged with their key, in list order. */
  function Tagged(name: string, cs: seq<Completion>): seq<Measure> {
    seq(|cs|, i requires 0 <= i < |cs| => Measure(name, cs[i]))
  }

  /** All records in iteration order: `for refName, data in records.items():
      for item in data`. */
  function Measures(keys: seq<string>, values: map<string, seq<Completion>>): seq<Measure>
    requires forall i :: 0 <= i < |keys| ==> keys[i] in values
  {
    if |keys| == 0 then []
    else Measures(keys[..|keys| - 1], values) + Tagged(keys[|keys| - 1], values[keys[|keys| - 1]])
  }

  function AllMeasures(log: ResponseLog): seq<Measure>
    requires log.Valid()
  {
    Measures(log.keys, log.values)
  }

  /** A record is met by a listed key's list, and only so. */
  lemma {:induction false} MeasuresMembers(keys: seq<string>, values: map<string, seq<Completion>>, m: Measure)
    requires forall i :: 0 <= i < |keys| ==> keys[i] in values
    ensures m in Measures(keys, values) <==> m.refName in keys && m.completion in values[m.refName]
    decreases |keys|
  {
    if |keys| > 0 {
      var init, k := keys[..|keys| - 1], keys[|keys| - 1];
      MeasuresMembers(init, values, m);
      assert keys == init + [k];
      var t := Tagged(k, values[k]);
      if m in t {
        var i :| 0 <= i < |t| && t[i] == m;
        assert values[k][i] == m.completion;
      }
      if m.refName == k && m.completion in values[k] {
        var i :| 0 <= i < |values[k]| && values[k][i] == m.completion;
        assert t[i] == m;
      }
    }
  }

  /** Each record of a valid log is filed under its key, and only there. */
  lemma AllMeasuresMembers(log: ResponseLog, m: Measure)
    requires log.Valid()
    ensures m in AllMeasures(log) <==> m.refName in log.values && m.completion in log.values[m.refName]
  {
    MeasuresMembers(log.keys, log.values, m);
  }

  // ---- the waiting cost ----

  /** `finishTime - duration`: how long the job waited in all. */
  function Wait(m: Measure): int {
    m.completion.response - m.completion.duration
  }

  /** Σ waits over the records, in order. */
  function SumWait(ms: seq<Measure>): int {
    if |ms| == 0 then 0 else SumWait(ms[..|ms| - 1]) + Wait(ms[|ms| - 1])
  }

  /** The waiting cost of a record dictionary: the sum of every record's wait. */
  function WaitCost(log: ResponseLog): int
    requires log.Valid()
  {
    SumWait(AllMeasures(log))
  }

  /** `computeWaitingCost`: the sum of response minus cost over all records,
      key by key in insertion order and record by record within a key. */
  method ComputeWaitingCost(answerTimeRecords: ResponseLog) returns (totalCost: int)
    requires answerTimeRecords.Valid()
    ensures totalCost == WaitCost(answerTimeRecords)
  {
    var keys, values := answerTimeRecords.keys, answerTimeRecords.values;
    totalCost := 0;
    for ki := 0 to |keys|
      invariant totalCost == SumWait(Measures(keys[..ki], values))
    {
      var refName := keys[ki];
      totalCost := AddWaits(refName, values[refName], Measures(keys[..ki], values), totalCost);
      MeasuresSnoc(keys, values, ki);
    }
    assert keys[..|keys|] == keys;
  }

  /** The inner loop: adds the waits of one key's records to the running total. */
  method AddWaits(refName: string, dataPoints: seq<Completion>, ghost done: seq<Measure>, acc: int)
    returns (totalCost: int)
    requires acc == SumWait(done)
    ensures totalCost == SumWait(done + Tagged(refName, dataPoints))
  {
    totalCost := acc;
    TaggedStart(done, refName, dataPoints);
    for mi := 0 to |dataPoints|
      invariant totalCost == SumWait(done + Tagged(refName, dataPoints[..mi]))
    {
      var finishTime, duration := dataPoints[mi].response, dataPoints[mi].duration;
      var waitSpan := finishTime - duration;
      TaggedStep(done, refName, dataPoints, mi);
      SumWaitSnoc(done + Tagged(refName, dataPoints[..mi]), Measure(refName, dataPoints[mi]));
      totalCost := totalCost + waitSpan;
    }
    assert dataPoints[..|dataPoints|] == dataPoints;
  }

  /** Before the inner loop, no record of the key is visited yet. */
  lemma TaggedStart(done: seq<Measure>, name: string, cs: seq<Completion>)
    ensures done + Tagged(name, cs[..0]) == done
  {
    assert cs[..0] == [];
  }

  /** The inner loop visits one more record of the key. */
  lemma TaggedStep(done: seq<Measure>, name: string, cs: seq<Completion>, m: nat)
    requires m < |cs|
    ensures done + Tagged(name, cs[..m + 1]) == (done + Tagged(name, cs[..m])) + [Measure(name, cs[m])]
  {
    TaggedSnoc(name, cs, m);
  }

  lemma SumWaitSnoc(ms: seq<Measure>, m: Measure)
    ensures SumWait(ms + [m]) == SumWait(ms) + Wait(m)
  {
    assert (ms + [m])[..|ms|] == ms;
  }

  /** With every response time at least its cost, no wait is negative. */
  lemma {:induction false} SumWaitNonNegative(ms: seq<Measure>)
    requires forall i :: 0 <= i < |ms| ==> Wait(ms[i]) >= 0
    ensures SumWait(ms) >= 0
    ensures SumWait(ms) == 0 <==> forall i :: 0 <= i < |ms| ==> Wait(ms[i]) == 0
    decreases |ms|
  {
    if |ms| > 0 {
      SumWaitNonNegative(ms[..|ms| - 1]);
    }
  }

  /** For records whose responses cover their costs (as every simulation
      produces), the waiting cost is non-negative, and it is zero exactly when
      no job ever waited. */
  lemma WaitCostBounds(log: ResponseLog)
    requires log.Valid()
    requires forall n :: n in log.values ==> WellTimed(log.values[n])
    ensures WaitCost(log) >= 0
    ensures WaitCost(log) == 0 <==>
      forall n, i :: n in log.values && 0 <= i < |log.values[n]| ==>
        log.values[n][i].response == log.values[n][i].duration
  {
    var ms := AllMeasures(log);
    forall i | 0 <= i < |ms| ensures Wait(ms[i]) >= 0 {
      AllMeasuresMembers(log, ms[i]);
    }
    SumWaitNonNegative(ms);
    if WaitCost(log) == 0 {
      forall n, i | n in log.values && 0 <= i < |log.values[n]|
        ensures log.values[n][i].response == log.values[n][i].duration
      {
        var m := Measure(n, log.values[n][i]);
        AllMeasuresMembers(log, m);
        var j :| 0 <= j < |ms| && ms[j] == m;
      }
    }
    if forall n, i :: n in log.values && 0 <= i < |log.values[n]| ==>
        log.values[n][i].response == log.values[n][i].duration {
      forall j | 0 <= j < |ms| ensures Wait(ms[j]) == 0 {
        AllMeasuresMembers(log, ms[j]);
        var i :| 0 <= i < |log.values[ms[j].refName]| && log.values[ms[j].refName][i] == ms[j].completion;
      }
    }
  }

  // ---- the deadline check ----

  /** The period of the first task named `name` in the task set, if any (the
      inner `for dic in self.tasksSet` loop with its `break`). */
  function PeriodOf(tasks: seq<Task>, name: string): (r: Option<int>)
    ensures r.None? <==> name !in Names(tasks)
    ensures r.Some? ==> exists i :: 0 <= i < |tasks| && tasks[i].name == name && r.value == tasks[i].period
                                    && forall j :: 0 <= j < i ==> tasks[j].name != name
  {
    if |tasks| == 0 then None
    else if tasks[0].name == name then Some(tasks[0].period)
    else
      var r := PeriodOf(tasks[1..], name);
      assert forall i :: 0 <= i < |tasks[1..]| ==> tasks[1..][i] == tasks[i + 1];
      assert Names(tasks) == {tasks[0].name} + Names(tasks[1..]) by {
        forall n ensures n in Names(tasks) <==> n == tasks[0].name || n in Names(tasks[1..]) {
          if n in Names(tasks) && n != tasks[0].name {
            var i :| 0 <= i < |tasks| && tasks[i].name == n;
            assert tasks[1..][i - 1] == tasks[i];
          }
        }
      }
      r
  }

  /** The linear search for a task name's period; the first task with that
      name wins (`break`), and no match leaves the period unset. */
  method FindPeriod(tasksSet: seq<Task>, refName: string) returns (periodVal: Option<int>)
    ensures periodVal == PeriodOf(tasksSet, refName)
  {
    periodVal := None;
    for i := 0 to |tasksSet|
      invariant PeriodOf(tasksSet, refName) == PeriodOf(tasksSet[i..], refName)
    {
      assert tasksSet[i..][1..] == tasksSet[i + 1..];
      if tasksSet[i].name == refName {
        periodVal := Some(tasksSet[i].period);
        break;
      }
    }
    if periodVal.None? {
      assert tasksSet[|tasksSet|..] == [];
    }
  }

  /** The deadline verdict for one record: met if the response fits in the task's
      period or the task is the exempt one. With no task of that name, the
      comparison `finVal <= None` raises, reported here as `Err(refName)`. */
  function Constraint(sched: Scheduler, m: Measure): Result<bool, string> {
    match PeriodOf(sched.tasksSet, m.refName)
    case None => Err(m.refName)
    case Some(p) => Ok(m.completion.response <= p || sched.ignoredTaskName == Some(m.refName))
  }

  /** `allConstraints`, or the first failing lookup. */
  function Constraints(sched: Scheduler, ms: seq<Measure>): Result<seq<bool>, string> {
    if |ms| == 0 then Ok([])
    else
      match Constraints(sched, ms[..|ms| - 1])
      case Err(e) => Err(e)
      case Ok(bs) =>
        match Constraint(sched, ms[|ms| - 1])
        case Err(e) => Err(e)
        case Ok(b) => Ok(bs + [b])
  }

  /** Python's `all`. */
  function All(bs: seq<bool>): (r: bool)
    ensures r <==> forall i :: 0 <= i < |bs| ==> bs[i]
  {
    if |bs| == 0 then true else All(bs[..|bs| - 1]) && bs[|bs| - 1]
  }

  /** The outcome of `isArrangementViable` on a record dictionary. */
  function IsViable(sched: Scheduler, log: ResponseLog): Result<bool, string>
    requires log.Valid()
  {
    match Constraints(sched, AllMeasures(log))
    case Err(e) => Err(e)
    case Ok(bs) => Ok(All(bs))
  }

  /** Once a lookup has failed, later records do not matter. */
  lemma {:induction false} ConstraintsErrPersists(sched: Scheduler, a: seq<Measure>, b: seq<Measure>)
    requires Constraints(sched, a).Err?
    ensures Constraints(sched, a + b) == Constraints(sched, a)
    decreases |b|
  {
    if |b| == 0 {
      assert a + b == a;
    } else {
      ConstraintsErrPersists(sched, a, b[..|b| - 1]);
      assert (a + b)[..|a + b| - 1] == a + b[..|b| - 1];
    }
  }

  /** `isArrangementViable`: `all` of the deadline verdicts, one per record, or
      the error of the first record whose task is unknown. The `arrangement`
      parameter is accepted but never used. */
  method IsArrangementViable(sched: Scheduler, arrangement: seq<Task>, answerTimeRecords: ResponseLog)
    returns (r: Result<bool, string>)
    requires answerTimeRecords.Valid()
    ensures r == IsViable(sched, answerTimeRecords)
  {
    var keys, values := answerTimeRecords.keys, answerTimeRecords.values;
    assert keys[..|keys|] == keys;
    var allConstraints: seq<bool> := [];
    for ki := 0 to |keys|
      invariant Constraints(sched, Measures(keys[..ki], values)) == Ok(allConstraints)
    {
      var refName := keys[ki];
      MeasuresSnoc(keys, values, ki);
      var checked := CheckRecords(sched, refName, values[refName], Measures(keys[..ki], values), allConstraints);
      if checked.Err? {
        ErrorPersists(sched, keys, values, ki + 1);
        return Err(checked.error);
      }
      allConstraints := checked.value;
    }
    r := Ok(All(allConstraints));
  }

  /** The per-record verdicts for the records `measures` of one key, extending the
      constraints `allConstraints` already gathered for the records `done`. */
  method CheckRecords(sched: Scheduler, refName: string, measures: seq<Completion>,
                      ghost done: seq<Measure>, allConstraints: seq<bool>)
    returns (r: Result<seq<bool>, string>)
    requires Constraints(sched, done) == Ok(allConstraints)
    ensures r == Constraints(sched, done + Tagged(refName, measures))
  {
    var acc := allConstraints;
    TaggedStart(done, refName, measures);
    for mi := 0 to |measures|
      invariant Constraints(sched, done + Tagged(refName, measures[..mi])) == Ok(acc)
    {
      TaggedStep(done, refName, measures, mi);
      var prefix := done + Tagged(refName, measures[..mi]);
      var periodVal := FindPeriod(sched.tasksSet, refName);
      if periodVal.None? {
        LookupFails(sched, done, refName, measures, mi);
        return Err(refName);
      }
      var constraint := (measures[mi].response <= periodVal.value) || (sched.ignoredTaskName == Some(refName));
      CheckStep(sched, prefix, Measure(refName, measures[mi]), acc, periodVal.value);
      acc := acc + [constraint];
    }
    assert measures[..|measures|] == measures;
    r := Ok(acc);
  }

  /** One more verdict, for a record whose task has period `p`: the response
      fits in `p`, or the task is the exempt one. */
  lemma CheckStep(sched: Scheduler, prefix: seq<Measure>, m: Measure, acc: seq<bool>, p: int)
    requires Constraints(sched, prefix) == Ok(acc)
    requires PeriodOf(sched.tasksSet, m.refName) == Some(p)
    ensures Constraints(sched, prefix + [m])
         == Ok(acc + [m.completion.response <= p || sched.ignoredTaskName == Some(m.refName)])
  {
    ConstraintsSnoc(sched, prefix, m, acc, m.completion.response <= p || sched.ignoredTaskName == Some(m.refName));
  }

  /** A record whose name no task carries makes the check fail with that
      name, whatever records follow it. */
  lemma LookupFails(sched: Scheduler, done: seq<Measure>, refName: string, measures: seq<Completion>, mi: nat)
    requires mi < |measures|
    requires Constraints(sched, done + Tagged(refName, measures[..mi])).Ok?
    requires PeriodOf(sched.tasksSet, refName).None?
    ensures Constraints(sched, done + Tagged(refName, measures)) == Err(refName)
  {
    var prefix := done + Tagged(refName, measures[..mi]);
    var m := Measure(refName, measures[mi]);
    var rest := Tagged(refName, measures[mi + 1..]);
    ConstraintsSnocErr(sched, prefix, m);
    ConstraintsErrPersists(sched, prefix + [m], rest);
    TaggedAround(done, refName, measures, mi);
  }

  /** The records of a key split around the one at `mi`. */
  lemma TaggedAround(done: seq<Measure>, name: string, cs: seq<Completion>, mi: nat)
    requires mi < |cs|
    ensures done + Tagged(name, cs)
         == ((done + Tagged(name, cs[..mi])) + [Measure(name, cs[mi])]) + Tagged(name, cs[mi + 1..])
  {
    TaggedSnoc(name, cs, mi);
    TaggedSplit(name, cs, mi + 1);
  }

  /** Once the records of the first `ki` keys contain a failing lookup, so do
      all the records. */
  lemma ErrorPersists(sched: Scheduler, keys: seq<string>, values: map<string, seq<Completion>>, ki: nat)
    requires forall i :: 0 <= i < |keys| ==> keys[i] in values
    requires ki <= |keys| && Constraints(sched, Measures(keys[..ki], values)).Err?
    ensures Constraints(sched, Measures(keys, values)) == Constraints(sched, Measures(keys[..ki], values))
  {
    assert keys == keys[..ki] + keys[ki..];
    MeasuresSplit(keys[..ki], keys[ki..], values);
    ConstraintsErrPersists(sched, Measures(keys[..ki], values), Measures(keys[ki..], values));
  }

  lemma TaggedSnoc(name: string, cs: seq<Completion>, m: nat)
    requires m < |cs|
    ensures Tagged(name, cs[..m + 1]) == Tagged(name, cs[..m]) + [Measure(name, cs[m])]
  {
    assert cs[..m + 1][..m] == cs[..m];
  }

  lemma MeasuresSnoc(keys: seq<string>, values: map<string, seq<Completion>>, ki: nat)
    requires forall i :: 0 <= i < |keys| ==> keys[i] in values
    requires ki < |keys|
    ensures Measures(keys[..ki + 1], values) == Measures(keys[..ki], values) + Tagged(keys[ki], values[keys[ki]])
  {
    assert keys[..ki + 1][..ki] == keys[..ki];
  }

  lemma {:induction false} MeasuresSplit(a: seq<string>, b: seq<string>, values: map<string, seq<Completion>>)
    requires forall i :: 0 <= i < |a| ==> a[i] in values
    requires forall i :: 0 <= i < |b| ==> b[i] in values
    ensures Measures(a + b, values) == Measures(a, values) + Measures(b, values)
    decreases |b|
  {
    if |b| == 0 {
      assert a + b == a;
    } else {
      var init, last := b[..|b| - 1], b[|b| - 1];
      MeasuresSplit(a, init, values);
      var t := Tagged(last, values[last]);
      var ab := a + b;
      assert ab[..|ab| - 1] == a + init && ab[|ab| - 1] == last;
      assert Measures(ab, values) == Measures(a + init, values) + t;
      assert Measures(b, values) == Measures(init, values) + t;
    }
  }

  lemma ConstraintsSnoc(sched: Scheduler, prefix: seq<Measure>, m: Measure, bs: seq<bool>, b: bool)
    requires Constraints(sched, prefix) == Ok(bs)
    requires Constraint(sched, m) == Ok(b)
    ensures Constraints(sched, prefix + [m]) == Ok(bs + [b])
  {
    assert (prefix + [m])[..|prefix|] == prefix;
  }

  lemma ConstraintsSnocErr(sched: Scheduler, prefix: seq<Measure>, m: Measure)
    requires Constraints(sched, prefix).Ok?
    requires Constraint(sched, m).Err?
    ensures Constraints(sched, prefix + [m]) == Err(Constraint(sched, m).error)
  {
    assert (prefix + [m])[..|prefix|] == prefix;
  }

  lemma TaggedSplit(name: string, cs: seq<Completion>, m: nat)
    requires m <= |cs|
    ensures Tagged(name, cs) == Tagged(name, cs[..m]) + Tagged(name, cs[m..])
  {
    var a, b := Tagged(name, cs[..m]), Tagged(name, cs[m..]);
    forall i | 0 <= i < |cs| ensures Tagged(name, cs)[i] == (a + b)[i] {
      if i >= m {
        assert (a + b)[i] == b[i - m];
      }
    }
  }

  // ---- what the deadline check means ----

  /** A record meets its deadline: its task is in the task set, and the
      response time is within the period or the task is the exempt one. */
  predicate Meets(sched: Scheduler, m: Measure) {
    match PeriodOf(sched.tasksSet, m.refName)
    case None => false
    case Some(p) => m.completion.response <= p || sched.ignoredTaskName == Some(m.refName)
  }

  /** One record's constraint: defined exactly when its name is a task name,
      and then true exactly when the record meets its deadline. */
  lemma ConstraintAt(sched: Scheduler, m: Measure)
    ensures Constraint(sched, m).Ok? <==> m.refName in Names(sched.tasksSet)
    ensures Constraint(sched, m).Ok? ==> (Constraint(sched, m).value <==> Meets(sched, m))
    ensures Constraint(sched, m).Err? ==> Constraint(sched, m).error == m.refName
  {
  }

  /** The constraint list exists exactly when every record's name is a task
      name (otherwise the error names the first record whose name is not);
      its conjunction holds exactly when every record meets its deadline. */
  lemma ConstraintsMeaning(sched: Scheduler, ms: seq<Measure>)
    ensures Constraints(sched, ms).Ok? <==> forall j :: 0 <= j < |ms| ==> ms[j].refName in Names(sched.tasksSet)
    ensures Constraints(sched, ms).Ok? ==>
      (All(Constraints(sched, ms).value) <==> forall j :: 0 <= j < |ms| ==> Meets(sched, ms[j]))
    ensures Constraints(sched, ms).Err? ==>
      exists j :: 0 <= j < |ms| && ms[j].refName == Constraints(sched, ms).error && ms[j].refName !in Names(sched.tasksSet)
  {
    ConstraintsDefined(sched, ms);
    ConstraintsErr(sched, ms);
    if Constraints(sched, ms).Ok? {
      ConstraintsAll(sched, ms);
    }
  }

  lemma {:induction false} ConstraintsDefined(sched: Scheduler, ms: seq<Measure>)
    ensures Constraints(sched, ms).Ok? <==> forall j :: 0 <= j < |ms| ==> ms[j].refName in Names(sched.tasksSet)
    decreases |ms|
  {
    if |ms| > 0 {
      var init, m := ms[..|ms| - 1], ms[|ms| - 1];
      assert ms == init + [m];
      ConstraintsDefined(sched, init);
      ConstraintAt(sched, m);
      assert forall j :: 0 <= j < |init| ==> init[j] == ms[j];
      if Constraints(sched, init).Err? {
        ConstraintsErrPersists(sched, init, [m]);
      } else if Constraint(sched, m).Err? {
        ConstraintsSnocErr(sched, init, m);
      } else {
        ConstraintsSnoc(sched, init, m, Constraints(sched, init).value, Constraint(sched, m).value);
      }
    }
  }

  lemma {:induction false} ConstraintsAll(sched: Scheduler, ms: seq<Measure>)
    requires Constraints(sched, ms).Ok?
    ensures All(Constraints(sched, ms).value) <==> forall j :: 0 <= j < |ms| ==> Meets(sched, ms[j])
    decreases |ms|
  {
    if |ms| > 0 {
      var init, m := ms[..|ms| - 1], ms[|ms| - 1];
      assert ms == init + [m];
      var bs, b := Constraints(sched, init).value, Constraint(sched, m).value;
      ConstraintsAll(sched, init);
      ConstraintAt(sched, m);
      ConstraintsSnoc(sched, init, m, bs, b);
      assert forall j :: 0 <= j < |init| ==> init[j] == ms[j];
      assert (bs + [b])[..|bs|] == bs;
    }
  }

  lemma {:induction false} ConstraintsErr(sched: Scheduler, ms: seq<Measure>)
    ensures Constraints(sched, ms).Err? ==>
      exists j :: 0 <= j < |ms| && ms[j].refName == Constraints(sched, ms).error && ms[j].refName !in Names(sched.tasksSet)
    decreases |ms|
  {
    if |ms| > 0 && Constraints(sched, ms).Err? {
      var init, m := ms[..|ms| - 1], ms[|ms| - 1];
      assert ms == init + [m];
      ConstraintAt(sched, m);
      if Constraints(sched, init).Err? {
        ConstraintsErr(sched, init);
        ConstraintsErrPersists(sched, init, [m]);
        var j :| 0 <= j < |init| && init[j].refName == Constraints(sched, init).error && init[j].refName !in Names(sched.tasksSet);
        assert ms[j] == init[j];
      } else {
        ConstraintsSnocErr(sched, init, m);
        assert ms[|ms| - 1] == m;
      }
    }
  }

  /** `isArrangementViable` succeeds exactly when every non-empty record list
      belongs to a task of the task set, and then answers true exactly when
      every record meets its deadline; its error names a key of that kind. */
  lemma ViableMeaning(sched: Scheduler, log: ResponseLog)
    requires log.Valid()
    ensures IsViable(sched, log).Ok? <==>
      forall n :: n in log.values && |log.values[n]| > 0 ==> n in Names(sched.tasksSet)
    ensures IsViable(sched, log) == Ok(true) <==>
      forall n, c :: n in log.values && c in log.values[n] ==> Meets(sched, Measure(n, c))
    ensures IsViable(sched, log).Err? ==>
      var n := IsViable(sched, log).error;
      n in log.values && |log.values[n]| > 0 && n !in Names(sched.tasksSet)
  {
    var ms := AllMeasures(log);
    ConstraintsMeaning(sched, ms);
    forall j | 0 <= j < |ms| ensures ms[j].refName in log.values && ms[j].completion in log.values[ms[j].refName] {
      AllMeasuresMembers(log, ms[j]);
    }
    forall n, c | n in log.values && c in log.values[n] ensures Measure(n, c) in ms {
      AllMeasuresMembers(log, Measure(n, c));
    }
    if forall n :: n in log.values && |log.values[n]| > 0 ==> n in Names(sched.tasksSet) {
      forall j | 0 <= j < |ms| ensures ms[j].refName in Names(sched.tasksSet) {
        assert |log.values[ms[j].refName]| > 0;
      }
    }
    if IsViable(sched, log).Ok? {
      forall n | n in log.values && |log.values[n]| > 0 ensures n in Names(sched.tasksSet) {
        assert Measure(n, log.values[n][0]) in ms;
      }
    }
  }
}
