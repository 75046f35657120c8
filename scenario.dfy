/** A two-task example, T1 (cost 2, period 10) and T2 (cost 3, period 10) in
    the order [T1, T2], worked through the model. */
module Scenario {
  import opened Tasks
  import opened Records
  import opened Jobs
  import opened Simulation
  import opened HyperPeriod
  import opened Wrappers
  import opened Evaluation

  const T1 := Task("T1", 2, 10)
  const T2 := Task("T2", 3, 10)
  const J1 := Job("T1", 2, 10, 0, 2)
  const J2 := Job("T2", 3, 10, 0, 3)
  const Log0 := ResponseLog(["T1", "T2"], map["T1" := [], "T2" := []])
  const Log1 := ResponseLog(["T1", "T2"], map["T1" := [Completion(2, 2)], "T2" := []])
  const Log2 := ResponseLog(["T1", "T2"], map["T1" := [Completion(2, 2)], "T2" := [Completion(5, 3)]])

  lemma ScenarioExpand()
    ensures Expand([T1, T2], 10) == [J1, J2]
  {
    assert [T1, T2][..1] == [T1];
    assert [T1][..0] == [];
    assert JobCount(T1, 10) == 1 && JobCount(T2, 10) == 1;
    assert JobsUpTo(T1, 1)[0] == J1 && JobsUpTo(T2, 1)[0] == J2;
    assert JobsOf(T1, 10) == [J1];
    assert JobsOf(T2, 10) == [J2];
    assert Expand([T1], 10) == Expand([], 10) + [J1];
  }

  lemma ScenarioInitial()
    ensures InitialState([T1, T2], 10) == SimState([J1, J2], 0, 0, Log0)
  {
    ScenarioExpand();
    assert [J1, J2][1..] == [J2];
    assert SortByStart([J1, J2]) == [J1, J2];
    assert [T1, T2][..1] == [T1];
    assert [T1][..0] == [];
    assert InitLog([T1]) == ResponseLog(["T1"], map["T1" := []]);
  }

  lemma Tick0()
    ensures Live(SimState([J1, J2], 0, 0, Log0))
    ensures Step(SimState([J1, J2], 0, 0, Log0)) == SimState([J1.(timeLeft := 1), J2], 1, 0, Log0)
  {
    StepBusy(SimState([J1, J2], 0, 0, Log0), 0);
  }

  lemma Tick1()
    ensures Live(SimState([J1.(timeLeft := 1), J2], 1, 0, Log0))
    ensures Step(SimState([J1.(timeLeft := 1), J2], 1, 0, Log0)) == SimState([J2], 2, 0, Log1)
  {
    var s := SimState([J1.(timeLeft := 1), J2], 1, 0, Log0);
    StepBusy(s, 0);
    assert s.tasksInTime[..0] + s.tasksInTime[1..] == [J2];
    assert "T1" != "T2" by { assert "T1"[1] != "T2"[1]; }
    assert [] + [Completion(2, 2)] == [Completion(2, 2)];
  }

  lemma Tick2()
    ensures Live(SimState([J2], 2, 0, Log1))
    ensures Step(SimState([J2], 2, 0, Log1)) == SimState([J2.(timeLeft := 2)], 3, 0, Log1)
  {
    StepBusy(SimState([J2], 2, 0, Log1), 0);
  }

  lemma Tick3()
    ensures Live(SimState([J2.(timeLeft := 2)], 3, 0, Log1))
    ensures Step(SimState([J2.(timeLeft := 2)], 3, 0, Log1)) == SimState([J2.(timeLeft := 1)], 4, 0, Log1)
  {
    StepBusy(SimState([J2.(timeLeft := 2)], 3, 0, Log1), 0);
  }

  lemma Tick4()
    ensures Live(SimState([J2.(timeLeft := 1)], 4, 0, Log1))
    ensures Step(SimState([J2.(timeLeft := 1)], 4, 0, Log1)) == SimState([], 5, 0, Log2)
  {
    var s := SimState([J2.(timeLeft := 1)], 4, 0, Log1);
    StepBusy(s, 0);
    assert s.tasksInTime[..0] + s.tasksInTime[1..] == [];
    assert "T1" != "T2" by { assert "T1"[1] != "T2"[1]; }
    assert [] + [Completion(5, 3)] == [Completion(5, 3)];
  }

  /** T1 runs at ticks 0-1 (response 2), T2 at ticks 2-4 (response 5); the
      loop then stops at clock 5 because the job list is empty, so no idle
      tick is counted after the last completion. */
  lemma ScenarioRun()
    ensures Simulate([T1, T2], 10) == SimState([], 5, 0, Log2)
  {
    ScenarioInitial();
    Tick0(); Tick1(); Tick2(); Tick3(); Tick4();
    assert Run(SimState([], 5, 0, Log2)) == SimState([], 5, 0, Log2);
    assert Run(SimState([J2.(timeLeft := 1)], 4, 0, Log1)) == SimState([], 5, 0, Log2);
    assert Run(SimState([J2.(timeLeft := 2)], 3, 0, Log1)) == SimState([], 5, 0, Log2);
    assert Run(SimState([J2], 2, 0, Log1)) == SimState([], 5, 0, Log2);
    assert Run(SimState([J1.(timeLeft := 1), J2], 1, 0, Log0)) == SimState([], 5, 0, Log2);
    assert Run(SimState([J1, J2], 0, 0, Log0)) == SimState([], 5, 0, Log2);
  }

  /** The horizon of the two tasks is 10. */
  lemma ScenarioHorizon()
    ensures Periods([T1, T2]) == [10, 10]
    ensures IsLcm([10, 10], 10)
  {
    assert [T1, T2][..1] == [T1];
    assert [T1][..0] == [];
  }

  const M1 := Measure("T1", Completion(2, 2))
  const M2 := Measure("T2", Completion(5, 3))

  /** The records of the run, in iteration order. */
  lemma ScenarioMeasures()
    ensures Log2.Valid()
    ensures AllMeasures(Log2) == [M1, M2]
  {
    assert "T1" != "T2" by { assert "T1"[1] != "T2"[1]; }
    assert Tagged("T1", [Completion(2, 2)]) == [M1];
    assert Tagged("T2", [Completion(5, 3)]) == [M2];
    assert ["T1", "T2"][..1] == ["T1"];
    assert ["T1"][..0] == [];
  }

  /** The records of the run cost (2 - 2) + (5 - 3) = 2. */
  lemma ScenarioCost()
    ensures Log2.Valid() && WaitCost(Log2) == 2
  {
    ScenarioMeasures();
    assert [M1, M2][..1] == [M1];
    assert [M1][..0] == [];
    assert SumWait([M1]) == 0;
    assert SumWait([M1, M2]) == 2;
  }

  /** Both responses fit in the period 10: the run is viable. */
  lemma ScenarioViable()
    ensures Log2.Valid() && IsViable(Scheduler([T1, T2], None), Log2) == Ok(true)
  {
    ScenarioMeasures();
    var sched := Scheduler([T1, T2], None);
    assert PeriodOf([T1, T2], "T1") == Some(10);
    assert PeriodOf([T1, T2], "T2") == Some(10) by {
      assert "T1" != "T2" by { assert "T1"[1] != "T2"[1]; }
      assert [T1, T2][1..] == [T2];
    }
    assert Constraint(sched, M1) == Ok(true) && Constraint(sched, M2) == Ok(true);
    assert [M1, M2][..1] == [M1];
    assert [M1][..0] == [];
    assert Constraints(sched, []) == Ok([]);
    assert [] + [true] == [true] && [true] + [true] == [true, true];
    assert Constraints(sched, [M1]) == Ok([true]);
  }
}
