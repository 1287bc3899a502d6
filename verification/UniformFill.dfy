/** The scheduler that gives every task to the least loaded resource. */
module UniformFill {
  import opened Wrappers

  /** Loads are microseconds in 64 bits. */
  const MAX_TICKS: int := 0x7FFF_FFFF_FFFF_FFFF

  /** Loads of the resources after one with load `loads[k]` has received a task.  When its load would
      overflow, all loads are lowered by it and it starts again at 0. */
  function Assigned(loads: seq<int>, k: nat, estimate: Option<int>): (r: seq<int>)
    requires k < |loads|
    ensures |r| == |loads|
  {
    match estimate
    case None => loads
    case Some(runtime) =>
      if loads[k] + runtime > MAX_TICKS then Lowered(loads, loads[k])[k := 0]
      else loads[k := loads[k] + runtime]
  }

  function Lowered(loads: seq<int>, amount: int): (r: seq<int>)
    ensures |r| == |loads| && forall i :: 0 <= i < |loads| ==> r[i] == loads[i] - amount
  {
    seq(|loads|, i requires 0 <= i < |loads| => loads[i] - amount)
  }

  predicate IsLeast(loads: seq<int>, k: nat) {
    k < |loads| && forall i :: 0 <= i < |loads| ==> loads[k] <= loads[i]
  }

  /** A priority queue of resources, the least loaded one on top.  `workloads` holds the entries that
      are in the queue, one for each resource added. */
  class UniformFillScheduler<Vpu(==)> {
    var resources: seq<Vpu>
    var workloads: map<nat, int>

    ghost predicate Valid()
      reads this
    {
      && (forall k: nat :: k in workloads <==> k < |resources|)
      && (forall k: nat :: k in workloads ==> 0 <= workloads[k] <= MAX_TICKS)
    }

    ghost function Loads(): (r: seq<int>)
      requires Valid()
      reads this
      ensures |r| == |resources| && forall k: nat :: k < |r| ==> r[k] == workloads[k]
    {
      seq(|resources|, (k: nat) requires 0 <= k < |resources| reads this requires Valid() => workloads[k])
    }

    constructor ()
      ensures Valid() && Loads() == []
    {
      resources, workloads := [], map[];
      new;
      assert Valid();
    }

    method AddResource(vpu: Vpu)
      requires Valid()
      modifies this
      ensures Valid() && resources == old(resources) + [vpu] && Loads() == old(Loads()) + [0]
    {
      workloads := workloads[|resources| := 0];
      resources := resources + [vpu];
    }

    /** A least loaded entry; among equals any may be on top. */
    method Top() returns (k: nat)
      requires workloads.Keys != {}
      ensures k in workloads && forall i :: i in workloads ==> workloads[k] <= workloads[i]
    {
      var rest := workloads.Keys;
      var first :| first in rest;
      k, rest := first, rest - {first};
      while rest != {}
        invariant rest <= workloads.Keys && k in workloads
        invariant forall i :: i in workloads && i !in rest ==> workloads[k] <= workloads[i]
        decreases |rest|
      {
        var i :| i in rest;
        if workloads[i] < workloads[k] {
          k := i;
        }
        rest := rest - {i};
      }
    }

    /** The queue without entry `k`: what `Schedule` has between popping and pushing. */
    ghost predicate Popped(before: seq<int>, k: nat)
      reads this
    {
      && |before| == |resources| && k < |before|
      && (forall i: nat :: i in workloads <==> i < |before| && i != k)
      && (forall i: nat :: i in workloads ==> workloads[i] == before[i])
    }

    /** Moves all entries to a new queue, lowering their loads. */
    method Rescale(amount: int, ghost before: seq<int>, ghost k: nat)
      requires Popped(before, k)
      modifies `workloads
      ensures Popped(Lowered(before, amount), k)
    {
      var rescaledWorkloads: map<nat, int> := map[];
      while workloads.Keys != {}
        invariant forall i: nat :: i in workloads || i in rescaledWorkloads <==> i < |before| && i != k
        invariant forall i: nat :: i in workloads ==> workloads[i] == before[i]
        invariant forall i: nat :: i in rescaledWorkloads ==> i !in workloads && rescaledWorkloads[i] == before[i] - amount
        decreases |workloads.Keys|
      {
        var top := Top();
        var workload := workloads[top];
        ghost var keys := workloads.Keys;
        workloads := workloads - {top};
        assert workloads.Keys == keys - {top};
        rescaledWorkloads := rescaledWorkloads[top := workload - amount];
      }
      workloads := rescaledWorkloads;
    }

    method Push(k: nat, load: int, ghost before: seq<int>)
      requires Popped(before, k) && 0 <= load <= MAX_TICKS && forall i :: 0 <= i < |before| && i != k ==> 0 <= before[i] <= MAX_TICKS
      modifies `workloads
      ensures Valid() && Loads() == before[k := load]
    {
      workloads := workloads[k := load];
    }

    method Pop() returns (k: nat, load: int)
      requires Valid() && resources != []
      modifies `workloads
      ensures Popped(old(Loads()), k) && IsLeast(old(Loads()), k) && load == old(Loads())[k]
    {
      ghost var before := Loads();
      assert 0 in workloads;
      k := Top();
      load := workloads[k];
      assert forall i :: 0 <= i < |before| ==> i in workloads;
      workloads := workloads - {k};
    }

    /** `estimates` is what the resources answer when asked for the expected runtime of the task. */
    method Schedule(estimates: nat -> Option<int>) returns (chosen: Vpu, ghost k: nat)
      requires Valid() && resources != []
      requires forall i :: estimates(i).Some? ==> 0 <= estimates(i).value <= MAX_TICKS
      modifies `workloads
      ensures Valid() && IsLeast(old(Loads()), k) && chosen == resources[k]
      ensures Loads() == Assigned(old(Loads()), k, estimates(k))
    {
      ghost var before := Loads();
      var least, leastWorkload := Pop();
      k := least;
      hide Popped, Loads, IsLeast;
      var estimate := estimates(least);
      if estimate.Some? {
        if leastWorkload + estimate.value > MAX_TICKS {
          Rescale(leastWorkload, before, k);
          Push(least, 0, Lowered(before, leastWorkload));
        } else {
          Push(least, leastWorkload + estimate.value, before);
        }
      } else {
        Push(least, leastWorkload, before);
        assert before[k := before[k]] == before;
      }
      chosen := resources[least];
    }
  }

  // Whole runs.

  /** One call of `schedule`: the resource it chose and the estimate it got. */
  datatype Step = Step(entry: nat, estimate: Option<int>)

  predicate IsStep(loads: seq<int>, s: Step) {
    IsLeast(loads, s.entry) && (s.estimate.Some? ==> 0 <= s.estimate.value <= MAX_TICKS)
  }

  /** Some least loaded resource is chosen in every step. */
  predicate IsRun(loads: seq<int>, steps: seq<Step>)
    decreases |steps|, 0
  {
    steps == [] ||
    (IsRun(loads, steps[..|steps| - 1]) && IsStep(After(loads, steps[..|steps| - 1]), steps[|steps| - 1]))
  }

  function After(loads: seq<int>, steps: seq<Step>): (r: seq<int>)
    requires IsRun(loads, steps)
    ensures |r| == |loads|
    decreases |steps|, 1
  {
    if steps == [] then loads
    else
      var last := steps[|steps| - 1];
      Assigned(After(loads, steps[..|steps| - 1]), last.entry, last.estimate)
  }

  /** The largest estimate seen. */
  function Largest(steps: seq<Step>): (r: int)
    ensures r >= 0
  {
    if steps == [] then 0
    else
      var before, last := Largest(steps[..|steps| - 1]), steps[|steps| - 1];
      if last.estimate.Some? && last.estimate.value > before then last.estimate.value else before
  }

  predicate Balanced(loads: seq<int>, spread: int) {
    && (forall i :: 0 <= i < |loads| ==> 0 <= loads[i] <= MAX_TICKS)
    && (forall i, j :: 0 <= i < |loads| && 0 <= j < |loads| ==> loads[i] - loads[j] <= spread)
  }

  lemma StepKeepsBalance(loads: seq<int>, s: Step, spread: int, spread': int)
    requires Balanced(loads, spread) && IsStep(loads, s)
    requires 0 <= spread <= spread' && (s.estimate.Some? ==> s.estimate.value <= spread')
    ensures Balanced(Assigned(loads, s.entry, s.estimate), spread')
  {
  }

  /** After any run from equal loads, rescaling included, no load is negative and any two differ by
      at most the largest estimate seen. */
  lemma {:induction false} RunIsBalanced(loads: seq<int>, steps: seq<Step>)
    requires IsRun(loads, steps) && Balanced(loads, 0)
    ensures Balanced(After(loads, steps), Largest(steps))
  {
    if steps != [] {
      var before, last := steps[..|steps| - 1], steps[|steps| - 1];
      RunIsBalanced(loads, before);
      StepKeepsBalance(After(loads, before), last, Largest(before), Largest(steps));
    }
  }

  // Without overflow: how far from the best assignment.

  function Sum(s: seq<int>): int {
    if s == [] then 0 else Sum(s[..|s| - 1]) + s[|s| - 1]
  }

  lemma {:induction false} SumUpdate(s: seq<int>, k: nat, v: int)
    requires k < |s|
    ensures Sum(s[k := v]) == Sum(s) - s[k] + v
  {
    var n := |s| - 1;
    if k == n {
      assert s[k := v][..n] == s[..n];
    } else {
      SumUpdate(s[..n], k, v);
      assert s[k := v][..n] == s[..n][k := v];
    }
  }

  lemma {:induction false} SumAtLeast(s: seq<int>, low: int)
    requires forall i :: 0 <= i < |s| ==> s[i] >= low
    ensures Sum(s) >= |s| * low
  {
    if s != [] {
      SumAtLeast(s[..|s| - 1], low);
      assert |s| * low == (|s| - 1) * low + low;
    }
  }

  lemma {:induction false} SumAtMost(s: seq<int>, high: int)
    requires forall i :: 0 <= i < |s| ==> s[i] <= high
    ensures Sum(s) <= |s| * high
  {
    if s != [] {
      SumAtMost(s[..|s| - 1], high);
      assert |s| * high == (|s| - 1) * high + high;
    }
  }

  function Runtime(s: Step): int { if s.estimate.Some? then s.estimate.value else 0 }

  function Runtimes(steps: seq<Step>): (r: seq<int>)
    ensures |r| == |steps| && forall i :: 0 <= i < |r| ==> r[i] == Runtime(steps[i])
  {
    seq(|steps|, i requires 0 <= i < |steps| => Runtime(steps[i]))
  }

  lemma RuntimesSplit(steps: seq<Step>)
    requires steps != []
    ensures Sum(Runtimes(steps)) == Sum(Runtimes(steps[..|steps| - 1])) + Runtime(steps[|steps| - 1])
  {
    assert Runtimes(steps)[..|steps| - 1] == Runtimes(steps[..|steps| - 1]);
  }

  /** `m` times any load is at most the sum of the loads and `m - 1` times the largest estimate. */
  ghost predicate Greedy(loads: seq<int>, total: int, largest: int) {
    && Sum(loads) == total
    && forall i :: 0 <= i < |loads| ==> WithinBound(loads[i], |loads|, total, largest)
  }

  ghost predicate WithinBound(load: int, m: int, total: int, largest: int) {
    m * load <= total + (m - 1) * largest
  }

  lemma BoundGrows(load: int, m: int, total: int, largest: int, total': int, largest': int)
    requires WithinBound(load, m, total, largest) && m >= 1 && total <= total' && largest <= largest'
    ensures WithinBound(load, m, total', largest')
  {
    assert (m - 1) * largest <= (m - 1) * largest';
  }

  lemma ChosenWithinBound(load: int, m: int, total: int, largest: int, runtime: int)
    requires m * load <= total && m >= 1 && runtime <= largest
    ensures WithinBound(load + runtime, m, total + runtime, largest)
  {
    assert m * (load + runtime) == m * load + (m - 1) * runtime + runtime;
    assert (m - 1) * runtime <= (m - 1) * largest;
  }

  lemma StepIsGreedy(loads: seq<int>, s: Step, total: int, largest: int, largest': int)
    requires Greedy(loads, total, largest) && IsStep(loads, s) && loads[s.entry] + Runtime(s) <= MAX_TICKS
    requires 0 <= largest <= largest' && Runtime(s) <= largest'
    ensures Greedy(Assigned(loads, s.entry, s.estimate), total + Runtime(s), largest')
  {
    var loads', r := Assigned(loads, s.entry, s.estimate), Runtime(s);
    SumUpdate(loads, s.entry, loads[s.entry] + r);
    assert loads' == loads[s.entry := loads[s.entry] + r];
    SumAtLeast(loads, loads[s.entry]);
    hide WithinBound;
    ChosenWithinBound(loads[s.entry], |loads|, total, largest', r);
    forall i | 0 <= i < |loads| && i != s.entry
      ensures WithinBound(loads'[i], |loads|, total + r, largest')
    {
      BoundGrows(loads[i], |loads|, total, largest, total + r, largest');
    }
  }

  /** Resources that have just been added. */
  function Idle(m: nat): (r: seq<int>)
    ensures |r| == m && forall i :: 0 <= i < m ==> r[i] == 0
  {
    seq(m, i => 0)
  }

  lemma ZeroSum(m: nat)
    ensures Sum(Idle(m)) == 0
  {
    SumAtLeast(Idle(m), 0);
    SumAtMost(Idle(m), 0);
  }

  /** No step of the run takes the overflow branch. */
  predicate NoOverflow(loads: seq<int>, steps: seq<Step>)
    requires IsRun(loads, steps)
  {
    steps == [] ||
    var before, last := steps[..|steps| - 1], steps[|steps| - 1];
    NoOverflow(loads, before) && After(loads, before)[last.entry] + Runtime(last) <= MAX_TICKS
  }

  /** As long as no step overflows, a run from zero loads obeys the bound for greedy scheduling:
      max <= total / m + (1 - 1 / m) * largest. */
  lemma {:induction false} RunIsGreedy(m: nat, steps: seq<Step>)
    requires m > 0 && IsRun(Idle(m), steps) && NoOverflow(Idle(m), steps)
    ensures Greedy(After(Idle(m), steps), Sum(Runtimes(steps)), Largest(steps))
  {
    var zero := Idle(m);
    if steps == [] {
      ZeroSum(m);
      assert Sum(Runtimes([])) == 0;
    } else {
      var before, last := steps[..|steps| - 1], steps[|steps| - 1];
      RuntimesSplit(steps);
      RunIsGreedy(m, before);
      StepIsGreedy(After(zero, before), last, Sum(Runtimes(before)), Largest(before), Largest(steps));
    }
  }

  /** Load of resource `k` if task `i` goes to resource `assignment[i]`. */
  function LoadUnder(runtimes: seq<int>, assignment: seq<nat>, k: nat): int
    requires |runtimes| == |assignment|
  {
    if runtimes == [] then 0
    else
      var n := |runtimes| - 1;
      LoadUnder(runtimes[..n], assignment[..n], k) + (if assignment[n] == k then runtimes[n] else 0)
  }

  function LoadsUnder(runtimes: seq<int>, assignment: seq<nat>, m: nat): (r: seq<int>)
    requires |runtimes| == |assignment|
    ensures |r| == m && forall k :: 0 <= k < m ==> r[k] == LoadUnder(runtimes, assignment, k)
  {
    seq(m, k requires 0 <= k => LoadUnder(runtimes, assignment, k))
  }

  /** Every assignment distributes the same total. */
  lemma {:induction false} AssignmentsDistribute(runtimes: seq<int>, assignment: seq<nat>, m: nat)
    requires |runtimes| == |assignment| && forall i :: 0 <= i < |assignment| ==> assignment[i] < m
    ensures Sum(LoadsUnder(runtimes, assignment, m)) == Sum(runtimes)
  {
    if runtimes == [] {
      SumAtLeast(LoadsUnder(runtimes, assignment, m), 0);
      SumAtMost(LoadsUnder(runtimes, assignment, m), 0);
    } else {
      var n := |runtimes| - 1;
      var before := LoadsUnder(runtimes[..n], assignment[..n], m);
      AssignmentsDistribute(runtimes[..n], assignment[..n], m);
      SumUpdate(before, assignment[n], before[assignment[n]] + runtimes[n]);
      assert LoadsUnder(runtimes, assignment, m) == before[assignment[n] := before[assignment[n]] + runtimes[n]];
    }
  }

  lemma {:induction false} TaskBelowLoad(runtimes: seq<int>, assignment: seq<nat>, i: nat)
    requires |runtimes| == |assignment| && i < |runtimes| && forall j :: 0 <= j < |runtimes| ==> runtimes[j] >= 0
    ensures runtimes[i] <= LoadUnder(runtimes, assignment, assignment[i])
  {
    var n := |runtimes| - 1;
    if i < n {
      TaskBelowLoad(runtimes[..n], assignment[..n], i);
    } else {
      LoadNotNegative(runtimes[..n], assignment[..n], assignment[i]);
    }
  }

  lemma {:induction false} LoadNotNegative(runtimes: seq<int>, assignment: seq<nat>, k: nat)
    requires |runtimes| == |assignment| && forall j :: 0 <= j < |runtimes| ==> runtimes[j] >= 0
    ensures LoadUnder(runtimes, assignment, k) >= 0
  {
    if runtimes != [] {
      LoadNotNegative(runtimes[..|runtimes| - 1], assignment[..|runtimes| - 1], k);
    }
  }

  lemma {:induction false} LargestIsSeen(steps: seq<Step>)
    requires Largest(steps) > 0
    ensures exists i :: 0 <= i < |steps| && Runtimes(steps)[i] == Largest(steps)
  {
    var n := |steps| - 1;
    if Runtime(steps[n]) == Largest(steps) {
      assert Runtimes(steps)[n] == Largest(steps);
    } else {
      LargestIsSeen(steps[..n]);
      var i :| 0 <= i < n && Runtimes(steps[..n])[i] == Largest(steps[..n]);
      assert Runtimes(steps)[i] == Largest(steps);
    }
  }

  lemma {:induction false} RuntimesNotNegative(loads: seq<int>, steps: seq<Step>)
    requires IsRun(loads, steps)
    ensures forall i :: 0 <= i < |steps| ==> Runtime(steps[i]) >= 0
  {
    if steps != [] {
      RuntimesNotNegative(loads, steps[..|steps| - 1]);
    }
  }

  /** If some assignment of the same tasks, however it was found, keeps all loads within `makespan`,
      the scheduler's loads are within (2 - 1 / m) times that. */
  lemma WithinTwiceAnyAssignment(m: nat, steps: seq<Step>, assignment: seq<nat>, makespan: int)
    requires m > 0 && IsRun(Idle(m), steps) && NoOverflow(Idle(m), steps)
    requires |assignment| == |steps| && forall i :: 0 <= i < |assignment| ==> assignment[i] < m
    requires forall k :: 0 <= k < m ==> LoadUnder(Runtimes(steps), assignment, k) <= makespan
    ensures var loads := After(Idle(m), steps); forall k :: 0 <= k < |loads| ==> m * loads[k] <= (2 * m - 1) * makespan
  {
    var runtimes, loads := Runtimes(steps), After(Idle(m), steps);
    RunIsGreedy(m, steps);
    RuntimesNotNegative(Idle(m), steps);
    AssignmentsDistribute(runtimes, assignment, m);
    SumAtMost(LoadsUnder(runtimes, assignment, m), makespan);
    LoadNotNegative(runtimes, assignment, 0);
    assert Largest(steps) <= makespan by {
      if Largest(steps) > 0 {
        LargestIsSeen(steps);
        var i :| 0 <= i < |steps| && runtimes[i] == Largest(steps);
        TaskBelowLoad(runtimes, assignment, i);
      }
    }
    forall k | 0 <= k < m
      ensures m * loads[k] <= (2 * m - 1) * makespan
    {
      Combine(m, loads[k], Sum(runtimes), Largest(steps), makespan);
    }
  }

  lemma Combine(m: int, load: int, total: int, largest: int, makespan: int)
    requires m >= 1 && WithinBound(load, m, total, largest) && total <= m * makespan && largest <= makespan
    ensures m * load <= (2 * m - 1) * makespan
  {
    assert (m - 1) * largest <= (m - 1) * makespan;
    assert m * makespan + (m - 1) * makespan == (2 * m - 1) * makespan;
  }
}
