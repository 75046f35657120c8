/** The exploration in `main`: simulate every arrangement of the task set over
    the hyper-period, keep the viable ones, and pick the one with the smallest
    waiting cost (the first one found, on ties). */
module Search {
  import opened Wrappers
  import opened Tasks
  import opened HyperPeriod
  import opened Arrangements
  import opened Records
  import opened Simulation
  import opened Evaluation

  /** One entry of `validConfigs`: `(pattern, answers, waitScore, idleLen)`. */
  datatype Config = Config(arrangement: seq<Task>, answers: ResponseLog, waitScore: int, idleLen: int)

  // ---- the selection loop ----

  /** `waitSum < bestWaitTime`, where no best yet stands for `float('inf')`. */
  predicate Better(waitSum: int, bestWaitTime: Option<int>) {
    match bestWaitTime
    case None => true
    case Some(b) => waitSum < b
  }

  /** `configs[k]` has the smallest waiting cost of all, and every entry
      before it costs strictly more: the first minimum. */
  predicate FirstMinimum(configs: seq<Config>, k: nat) {
    && k < |configs|
    && (forall j :: 0 <= j < |configs| ==> configs[k].waitScore <= configs[j].waitScore)
    && (forall j :: 0 <= j < k ==> configs[j].waitScore > configs[k].waitScore)
  }

  /** The running best over `validConfigs`: a later entry replaces the best
      only when it is strictly cheaper. The chosen entry
      carries `bestOrder`, `bestAnswers` and `bestIdleTime`; `bestWaitTime`
      is its `waitScore`. Nothing is chosen from an empty list. */
  method SelectBest(validConfigs: seq<Config>) returns (best: Option<Config>, bestWaitTime: Option<int>)
    ensures best.None? <==> |validConfigs| == 0
    ensures best.None? <==> bestWaitTime.None?
    ensures best.Some? ==> exists k: nat :: FirstMinimum(validConfigs, k) && best.value == validConfigs[k]
    ensures best.Some? ==> bestWaitTime == Some(best.value.waitScore)
  {
    best, bestWaitTime := None, None;
    ghost var bestIndex: nat := 0;
    for i := 0 to |validConfigs|
      invariant best.None? <==> i == 0
      invariant best.None? <==> bestWaitTime.None?
      invariant i > 0 ==> FirstMinimum(validConfigs[..i], bestIndex)
      invariant i > 0 ==> best == Some(validConfigs[bestIndex]) && bestWaitTime == Some(validConfigs[bestIndex].waitScore)
    {
      var entry := validConfigs[i];
      if Better(entry.waitScore, bestWaitTime) {
        bestWaitTime := Some(entry.waitScore);
        best := Some(entry);
        bestIndex := i;
      }
      assert validConfigs[..i + 1][..i] == validConfigs[..i];
    }
    assert validConfigs[..|validConfigs|] == validConfigs;
  }

  // ---- the exploration ----

  /** What the search loop computes for one arrangement: its records and idle
      time from the simulation and its waiting cost. */
  function Evaluate(pattern: seq<Task>, globalPeriod: int): (c: Config)
    requires AllWellFormed(pattern)
    ensures c.answers.Valid()
  {
    var f := Simulate(pattern, globalPeriod);
    SimulateValid(pattern, globalPeriod);
    Config(pattern, f.records, WaitCost(f.records), f.idleDurations)
  }

  /** `if viableArrangement:`, on a configuration's records. */
  ghost predicate Accepted(sched: Scheduler, c: Config) {
    c.answers.Valid() && IsViable(sched, c.answers) == Ok(true)
  }

  /** A well-formed arrangement whose simulation passes the deadline check. */
  ghost predicate Viable(sched: Scheduler, pattern: seq<Task>, globalPeriod: int) {
    AllWellFormed(pattern) && Accepted(sched, Evaluate(pattern, globalPeriod))
  }

  /** The evaluation of every arrangement, in enumeration order. */
  function Evaluations(orders: seq<seq<Task>>, globalPeriod: int): seq<Config>
    requires forall i :: 0 <= i < |orders| ==> AllWellFormed(orders[i])
  {
    seq(|orders|, i requires 0 <= i < |orders| => Evaluate(orders[i], globalPeriod))
  }

  /** `validConfigs`: the accepted configurations, in order. */
  ghost function KeepViable(sched: Scheduler, configs: seq<Config>): seq<Config> {
    if |configs| == 0 then []
    else
      var c := configs[|configs| - 1];
      KeepViable(sched, configs[..|configs| - 1]) + (if Accepted(sched, c) then [c] else [])
  }

  /** A configuration is kept exactly when it is one of the candidates and is accepted. */
  lemma {:induction false} KeepViableMembers(sched: Scheduler, configs: seq<Config>, c: Config)
    ensures c in KeepViable(sched, configs) <==> c in configs && Accepted(sched, c)
    decreases |configs|
  {
    if |configs| > 0 {
      var init := configs[..|configs| - 1];
      KeepViableMembers(sched, init, c);
      assert configs == init + [configs[|configs| - 1]];
    }
  }

  /** Every arrangement of well-formed tasks is well-formed. */
  lemma OrdersWellFormed(ts: seq<Task>)
    requires AllWellFormed(ts)
    ensures forall i :: 0 <= i < |AllArrangements(ts)| ==> AllWellFormed(AllArrangements(ts)[i])
  {
    ArrangementsArePermutations(ts);
    forall i | 0 <= i < |AllArrangements(ts)| ensures AllWellFormed(AllArrangements(ts)[i]) {
      PermutationWellFormed(ts, AllArrangements(ts)[i]);
    }
  }

  /** A rearrangement of well-formed tasks is well-formed. */
  lemma PermutationWellFormed(ts: seq<Task>, r: seq<Task>)
    requires AllWellFormed(ts) && multiset(r) == multiset(ts)
    ensures AllWellFormed(r)
  {
    forall i | 0 <= i < |r| ensures WellFormed(r[i]) {
      assert r[i] in multiset(ts);
    }
  }

  /** A rearrangement names the same tasks. */
  lemma PermutationNames(ts: seq<Task>, r: seq<Task>)
    requires multiset(r) == multiset(ts)
    ensures Names(r) == Names(ts)
  {
    forall n | n in Names(r) ensures n in Names(ts) {
      var i :| 0 <= i < |r| && r[i].name == n;
      assert r[i] in multiset(ts);
    }
    forall n | n in Names(ts) ensures n in Names(r) {
      var i :| 0 <= i < |ts| && ts[i].name == n;
      assert ts[i] in multiset(r);
    }
  }

  /** For an arrangement of the task set itself, every record's period is
      found: the deadline check never fails. */
  lemma ViableDefined(sched: Scheduler, pattern: seq<Task>, globalPeriod: int)
    requires AllWellFormed(pattern) && multiset(pattern) == multiset(sched.tasksSet)
    ensures IsViable(sched, Evaluate(pattern, globalPeriod).answers).Ok?
  {
    SimulateKeys(pattern, globalPeriod);
    PermutationNames(sched.tasksSet, pattern);
    ViableMeaning(sched, Evaluate(pattern, globalPeriod).answers);
  }

  /** `main` up to the selection, printing aside: the
      hyper-period of the task set, every arrangement simulated and
      evaluated, the viable ones kept in enumeration order, and the first
      minimum-cost one chosen. */
  method Explore(sched: Scheduler)
    returns (globalPeriod: int, validConfigs: seq<Config>, best: Option<Config>)
    requires |sched.tasksSet| > 0 && AllWellFormed(sched.tasksSet)
    ensures IsLcm(Periods(sched.tasksSet), globalPeriod)
    ensures forall i :: 0 <= i < |AllArrangements(sched.tasksSet)| ==> AllWellFormed(AllArrangements(sched.tasksSet)[i])
    ensures validConfigs == KeepViable(sched, Evaluations(AllArrangements(sched.tasksSet), globalPeriod))
    ensures best.None? <==> |validConfigs| == 0
    ensures best.Some? ==> exists k: nat :: FirstMinimum(validConfigs, k) && best.value == validConfigs[k]
  {
    var periodsList := Periods(sched.tasksSet);
    globalPeriod := ComputeHyperPeriod(periodsList);
    var allPossibleOrders := AllArrangements(sched.tasksSet);
    OrdersWellFormed(sched.tasksSet);
    ArrangementsArePermutations(sched.tasksSet);
    ghost var evaluations := Evaluations(allPossibleOrders, globalPeriod);
    validConfigs := [];
    for i := 0 to |allPossibleOrders|
      invariant validConfigs == KeepViable(sched, evaluations[..i])
    {
      var pattern := allPossibleOrders[i];
      assert pattern in allPossibleOrders;
      var config, viableArrangement := TryArrangement(sched, pattern, globalPeriod);
      KeepViableSnoc(sched, evaluations, i);
      if viableArrangement {
        validConfigs := validConfigs + [config];
      }
    }
    assert evaluations[..|allPossibleOrders|] == evaluations;
    var bestWaitTime;
    best, bestWaitTime := SelectBest(validConfigs);
  }

  /** One pass of the search loop for an arrangement of the task set:
      simulate it, score it and check its deadlines. */
  method TryArrangement(sched: Scheduler, pattern: seq<Task>, globalPeriod: int)
    returns (config: Config, viableArrangement: bool)
    requires AllWellFormed(pattern) && multiset(pattern) == multiset(sched.tasksSet)
    ensures config == Evaluate(pattern, globalPeriod)
    ensures viableArrangement <==> Accepted(sched, config)
  {
    var answers, idleLen := SimulateSystem(pattern, globalPeriod);
    var waitScore := ComputeWaitingCost(answers);
    var verdict := IsArrangementViable(sched, pattern, answers);
    ViableDefined(sched, pattern, globalPeriod);
    config := Config(pattern, answers, waitScore, idleLen);
    viableArrangement := verdict.value;
  }

  /** Keeping the viable entries of one more candidate. */
  lemma KeepViableSnoc(sched: Scheduler, configs: seq<Config>, i: nat)
    requires i < |configs|
    ensures KeepViable(sched, configs[..i + 1])
         == KeepViable(sched, configs[..i]) + (if Accepted(sched, configs[i]) then [configs[i]] else [])
  {
    assert configs[..i + 1][..i] == configs[..i];
  }

  /** The selection over the kept configurations, stated on the candidates:
      nothing is chosen exactly when no candidate is accepted, and otherwise
      the choice is an accepted candidate that costs no more than any other. */
  lemma BestOfKept(sched: Scheduler, evals: seq<Config>, best: Option<Config>)
    requires best.None? <==> |KeepViable(sched, evals)| == 0
    requires best.Some? ==> exists k: nat :: FirstMinimum(KeepViable(sched, evals), k) && best.value == KeepViable(sched, evals)[k]
    ensures best.None? <==> forall i :: 0 <= i < |evals| ==> !Accepted(sched, evals[i])
    ensures best.Some? ==> exists i :: 0 <= i < |evals| && Accepted(sched, evals[i]) && best.value == evals[i]
    ensures best.Some? ==> forall j :: 0 <= j < |evals| && Accepted(sched, evals[j]) ==> best.value.waitScore <= evals[j].waitScore
  {
    var configs := KeepViable(sched, evals);
    forall j | 0 <= j < |evals| && Accepted(sched, evals[j]) ensures evals[j] in configs {
      KeepViableMembers(sched, evals, evals[j]);
    }
    if best.Some? {
      var k: nat :| FirstMinimum(configs, k) && best.value == configs[k];
      KeepViableMembers(sched, evals, configs[k]);
      forall j | 0 <= j < |evals| && Accepted(sched, evals[j])
        ensures best.value.waitScore <= evals[j].waitScore
      {
        var m :| 0 <= m < |configs| && configs[m] == evals[j];
      }
    }
  }

  /** The arrangement at position `i` of the enumeration is a rearrangement
      of the task set, and its evaluation sits at the same position. */
  lemma EvaluationAt(ts: seq<Task>, globalPeriod: int, i: int)
    requires AllWellFormed(ts)
    requires (OrdersWellFormed(ts); 0 <= i < |Evaluations(AllArrangements(ts), globalPeriod)|)
    ensures multiset(AllArrangements(ts)[i]) == multiset(ts)
    ensures Evaluations(AllArrangements(ts), globalPeriod)[i] == Evaluate(AllArrangements(ts)[i], globalPeriod)
  {
    ArrangementsArePermutations(ts);
    assert AllArrangements(ts)[i] in AllArrangements(ts);
  }

  /** Every rearrangement of the task set is evaluated somewhere in the enumeration. */
  lemma EvaluationOf(ts: seq<Task>, globalPeriod: int, r: seq<Task>)
    requires AllWellFormed(ts) && multiset(r) == multiset(ts)
    ensures (OrdersWellFormed(ts);
      exists i :: (0 <= i < |AllArrangements(ts)| && AllArrangements(ts)[i] == r &&
        Evaluations(AllArrangements(ts), globalPeriod)[i] == Evaluate(r, globalPeriod)))
  {
    OrdersWellFormed(ts);
    ArrangementsExactlyPermutations(ts, r);
    var i :| 0 <= i < |AllArrangements(ts)| && AllArrangements(ts)[i] == r;
    assert Evaluations(AllArrangements(ts), globalPeriod)[i] == Evaluate(r, globalPeriod);
  }

  /** With a best configuration, it is the evaluation of a viable
      rearrangement costing no more than any viable rearrangement. */
  lemma ChosenOptimal(sched: Scheduler, globalPeriod: int, c: Config)
    requires AllWellFormed(sched.tasksSet)
    requires (OrdersWellFormed(sched.tasksSet);
      var evals := Evaluations(AllArrangements(sched.tasksSet), globalPeriod);
      && (exists i :: 0 <= i < |evals| && Accepted(sched, evals[i]) && c == evals[i])
      && (forall j :: 0 <= j < |evals| && Accepted(sched, evals[j]) ==> c.waitScore <= evals[j].waitScore))
    ensures multiset(c.arrangement) == multiset(sched.tasksSet)
    ensures Viable(sched, c.arrangement, globalPeriod)
    ensures c == Evaluate(c.arrangement, globalPeriod)
    ensures forall r :: multiset(r) == multiset(sched.tasksSet) && Viable(sched, r, globalPeriod) ==>
      c.waitScore <= Evaluate(r, globalPeriod).waitScore
  {
    var ts := sched.tasksSet;
    OrdersWellFormed(ts);
    var evals := Evaluations(AllArrangements(ts), globalPeriod);
    var i :| 0 <= i < |evals| && Accepted(sched, evals[i]) && c == evals[i];
    EvaluationAt(ts, globalPeriod, i);
    forall r | multiset(r) == multiset(ts) && Viable(sched, r, globalPeriod)
      ensures c.waitScore <= Evaluate(r, globalPeriod).waitScore
    {
      EvaluationOf(ts, globalPeriod, r);
    }
  }

  /** When no enumerated configuration is accepted, no rearrangement is viable. */
  lemma NoneViable(sched: Scheduler, globalPeriod: int)
    requires AllWellFormed(sched.tasksSet)
    requires (OrdersWellFormed(sched.tasksSet);
      var evals := Evaluations(AllArrangements(sched.tasksSet), globalPeriod);
      forall i :: 0 <= i < |evals| ==> !Accepted(sched, evals[i]))
    ensures forall r :: multiset(r) == multiset(sched.tasksSet) ==> !Viable(sched, r, globalPeriod)
  {
    forall r | multiset(r) == multiset(sched.tasksSet) ensures !Viable(sched, r, globalPeriod) {
      EvaluationOf(sched.tasksSet, globalPeriod, r);
    }
  }

  /** What the exploration finds: a best configuration exists exactly when
      some rearrangement of the task set is viable, and then it is the
      evaluation of a viable rearrangement whose waiting cost is no larger
      than that of any viable rearrangement. */
  lemma ExploreOptimal(sched: Scheduler, globalPeriod: int, best: Option<Config>)
    requires AllWellFormed(sched.tasksSet)
    requires (OrdersWellFormed(sched.tasksSet);
      var configs := KeepViable(sched, Evaluations(AllArrangements(sched.tasksSet), globalPeriod));
      && (best.None? <==> |configs| == 0)
      && (best.Some? ==> exists k: nat :: FirstMinimum(configs, k) && best.value == configs[k]))
    ensures best.None? <==>
      forall r :: multiset(r) == multiset(sched.tasksSet) ==> !Viable(sched, r, globalPeriod)
    ensures best.Some? ==>
      && multiset(best.value.arrangement) == multiset(sched.tasksSet)
      && Viable(sched, best.value.arrangement, globalPeriod)
      && best.value == Evaluate(best.value.arrangement, globalPeriod)
      && forall r :: multiset(r) == multiset(sched.tasksSet) && Viable(sched, r, globalPeriod) ==>
           best.value.waitScore <= Evaluate(r, globalPeriod).waitScore
  {
    OrdersWellFormed(sched.tasksSet);
    BestOfKept(sched, Evaluations(AllArrangements(sched.tasksSet), globalPeriod), best);
    if best.Some? {
      ChosenOptimal(sched, globalPeriod, best.value);
    } else {
      NoneViable(sched, globalPeriod);
    }
  }
}
