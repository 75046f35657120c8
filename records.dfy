/** `answerTimeRecords`: for each task name, the list of `(actualFinish,
    executionTime)` pairs of its completed jobs, in completion order. A Python
    dict remembers the order in which its keys were first inserted; the model
    keeps that order in `keys`. */
module Records {
  import opened Tasks

  /** One completion record: the response time (finish - release) and the
      job's execution time. */
  datatype Completion = Completion(response: int, duration: int)

  predicate DistinctNames(ns: seq<string>) {
    forall i, j :: 0 <= i < j < |ns| ==> ns[i] != ns[j]
  }

  /** An insertion-ordered dictionary from task names to completion lists. */
  datatype ResponseLog = ResponseLog(keys: seq<string>, values: map<string, seq<Completion>>) {

    /** Every key is listed once, and the listed keys are the map's keys. */
    ghost predicate Valid() {
      && DistinctNames(keys)
      && (forall n :: n in values <==> n in keys)
    }

    /** `records[name] = v`: a new key goes last; an existing key keeps its place. */
    function Put(name: string, v: seq<Completion>): (r: ResponseLog)
      requires Valid()
      ensures r.Valid()
      ensures r.values == values[name := v]
      ensures name in values ==> r.keys == keys
      ensures name !in values ==> r.keys == keys + [name]
    {
      if name in values then ResponseLog(keys, values[name := v])
      else ResponseLog(keys + [name], values[name := v])
    }

    /** `records[name].append(c)`: one more record for `name`, nothing else changes. */
    function Append(name: string, c: Completion): (r: ResponseLog)
      requires name in values
      ensures r.keys == keys
      ensures r.values == values[name := values[name] + [c]]
      ensures Valid() ==> r.Valid()
    {
      ResponseLog(keys, values[name := values[name] + [c]])
    }
  }

  /** Every response time in the list is at least its job's positive cost. */
  predicate WellTimed(cs: seq<Completion>) {
    forall i :: 0 <= i < |cs| ==> 0 < cs[i].duration <= cs[i].response
  }

  /** How many completions the log holds for `n` (none for an absent key). */
  function RecordCount(log: ResponseLog, n: string): nat {
    if n in log.values then |log.values[n]| else 0
  }

  /** The initial dictionary: an empty list for the name of each task of the
      arrangement, keys in order of first appearance. */
  function InitLog(arrangement: seq<Task>): (r: ResponseLog)
    ensures r.Valid()
    ensures forall n :: n in r.values <==> n in Names(arrangement)
    ensures forall n :: n in r.values ==> r.values[n] == []
  {
    if |arrangement| == 0 then ResponseLog([], map[])
    else
      var init := arrangement[..|arrangement| - 1];
      assert Names(arrangement) == Names(init) + {arrangement[|arrangement| - 1].name};
      InitLog(init).Put(arrangement[|arrangement| - 1].name, [])
  }
}
