/**
 * `ExecutionEnvironments`: the result of colouring the step-dependency graph
 * of a process. Every step is mapped to the number of the environment it runs
 * in; steps that share an environment can run at the same time.
 */
module Concurrency {
  import opened Wrappers

  /** `ProcessStep`: a step of a process, identified by its name. */
  datatype ProcessStep = ProcessStep(name: string)

  /** Java's `int`. */
  newtype int32 = x: int | -0x8000_0000 <= x < 0x8000_0000

  const MIN_VALUE: int32 := -0x8000_0000
  const MAX_VALUE: int32 := 0x7fff_ffff

  /** Java's `x + 1` on an `int`: `Integer.MAX_VALUE + 1` wraps to `Integer.MIN_VALUE`. */
  function Successor(x: int32): (r: int32)
    ensures x < MAX_VALUE ==> r as int == x as int + 1
    ensures x == MAX_VALUE ==> r == MIN_VALUE
  {
    if x == MAX_VALUE then MIN_VALUE else x + 1
  }

  /** `m` is the largest element of `values`. */
  predicate IsMax(values: set<int32>, m: int32)
  {
    m in values && forall v | v in values :: v <= m
  }

  /** A finite non-empty set of `int`s has a largest element. */
  lemma {:induction false} MaxExists(values: set<int32>)
    requires values != {}
    ensures exists m :: IsMax(values, m)
    decreases |values|
  {
    var v :| v in values;
    if values == {v} {
      assert IsMax(values, v);
    } else {
      var rest := values - {v};
      MaxExists(rest);
      var m :| IsMax(rest, m);
      var top := if v <= m then m else v;
      forall w | w in values
        ensures w <= top
      {
        if w != v {
          assert w in rest;
        }
      }
      assert IsMax(values, top);
    }
  }

  /** The largest of a finite non-empty set of `int`s (`stream().max(Integer::compare)`). */
  function Max(values: set<int32>): (m: int32)
    requires values != {}
    ensures m in values
    ensures forall v | v in values :: v <= m
  {
    MaxExists(values);
    var m :| IsMax(values, m);
    m
  }

  /** The steps of `keys` that `assignment` puts in `environment`. */
  function StepsAmong(assignment: map<ProcessStep, int32>, keys: set<ProcessStep>, environment: int32): set<ProcessStep>
  {
    set s | s in keys && s in assignment && assignment[s] == environment
  }

  lemma StepsAmongStep(assignment: map<ProcessStep, int32>, done: set<ProcessStep>, s: ProcessStep, environment: int32,
                       before: set<ProcessStep>, after: set<ProcessStep>)
    requires s in assignment
    requires before == StepsAmong(assignment, done, environment)
    requires after == before + (if assignment[s] == environment then {s} else {})
    ensures after == StepsAmong(assignment, done + {s}, environment)
  {
  }

  /** The step → environment assignment. */
  datatype ExecutionEnvironments = ExecutionEnvironments(stepToEnvironment: map<ProcessStep, int32>)
  {
    /**
     * `environmentCount`: one more than the largest environment number, 0 when
     * no step is mapped. The `+ 1` is Java `int` arithmetic, so a map using
     * `Integer.MAX_VALUE` yields `Integer.MIN_VALUE`.
     */
    function EnvironmentCount(): (n: int32)
      ensures stepToEnvironment == map[] ==> n == 0
      ensures stepToEnvironment != map[] && MAX_VALUE !in stepToEnvironment.Values ==>
                (forall s | s in stepToEnvironment :: stepToEnvironment[s] < n) &&
                (exists s | s in stepToEnvironment :: stepToEnvironment[s] as int == n as int - 1)
      ensures MAX_VALUE in stepToEnvironment.Values ==> n == MIN_VALUE
    {
      if stepToEnvironment == map[] then 0
      else
        var max := Max(stepToEnvironment.Values);
        assert forall s | s in stepToEnvironment :: stepToEnvironment[s] in stepToEnvironment.Values;
        Successor(max)
    }

    /** `getEnvironment`: the environment of `step`, `null` (None) when it is not mapped. */
    function GetEnvironment(step: ProcessStep): (r: Option<int32>)
      ensures r.Some? <==> step in stepToEnvironment
      ensures r.Some? ==> r.value in stepToEnvironment.Values
    {
      if step in stepToEnvironment then Some(stepToEnvironment[step]) else None
    }

    /** The steps mapped to `environment`. */
    function StepsIn(environment: int32): set<ProcessStep>
    {
      StepsAmong(stepToEnvironment, stepToEnvironment.Keys, environment)
    }

    /** `getStepsInEnvironment`: walks the entries and keeps the steps mapped to `environment`. */
    method GetStepsInEnvironment(environment: int32) returns (steps: set<ProcessStep>)
      ensures steps == StepsIn(environment)
    {
      steps := {};
      var pending := stepToEnvironment.Keys;
      ghost var done: set<ProcessStep> := {};
      while pending != {}
        invariant done + pending == stepToEnvironment.Keys
        invariant steps == StepsAmong(stepToEnvironment, done, environment)
        decreases |pending|
      {
        var step :| step in pending;
        ghost var before := steps;
        if stepToEnvironment[step] == environment {
          steps := steps + {step};
        }
        StepsAmongStep(stepToEnvironment, done, step, environment, before, steps);
        done := done + {step};
        pending := pending - {step};
      }
    }

    /** `canRunConcurrently`: both steps are mapped, to the same environment. */
    function CanRunConcurrently(step1: ProcessStep, step2: ProcessStep): (r: bool)
      ensures r <==> GetEnvironment(step1).Some? && GetEnvironment(step1) == GetEnvironment(step2)
    {
      step1 in stepToEnvironment && step2 in stepToEnvironment &&
      stepToEnvironment[step1] == stepToEnvironment[step2]
    }
  }

  /** A step is in the steps of an environment iff it is mapped to that environment. */
  lemma StepsInIff(environments: ExecutionEnvironments, environment: int32, step: ProcessStep)
    ensures step in environments.StepsIn(environment) <==> environments.GetEnvironment(step) == Some(environment)
  {
  }

  /** Every mapped step lies in the steps of its own environment. */
  lemma StepInOwnEnvironment(environments: ExecutionEnvironments, step: ProcessStep)
    requires environments.GetEnvironment(step).Some?
    ensures step in environments.StepsIn(environments.GetEnvironment(step).value)
  {
  }

  /** Distinct environments hold disjoint steps, and together they hold every mapped step. */
  lemma EnvironmentsPartitionSteps(environments: ExecutionEnvironments, e1: int32, e2: int32)
    ensures e1 != e2 ==> environments.StepsIn(e1) !! environments.StepsIn(e2)
    ensures forall s | s in environments.stepToEnvironment :: s in environments.StepsIn(environments.stepToEnvironment[s])
  {
  }

  /** Unless it wrapped around, the count exceeds every environment a step is in. */
  lemma EnvironmentBelowCount(environments: ExecutionEnvironments, step: ProcessStep)
    requires environments.GetEnvironment(step).Some?
    requires MAX_VALUE !in environments.stepToEnvironment.Values
    ensures environments.GetEnvironment(step).value < environments.EnvironmentCount()
  {
  }

  /** An environment at or above the count holds no step (again unless the count wrapped around). */
  lemma NoStepsBeyondCount(environments: ExecutionEnvironments, environment: int32)
    requires MAX_VALUE !in environments.stepToEnvironment.Values
    requires environment >= environments.EnvironmentCount()
    ensures environments.StepsIn(environment) == {}
  {
    if step :| step in environments.StepsIn(environment) {
      EnvironmentBelowCount(environments, step);
    }
  }

  /** Concurrency is symmetric. */
  lemma ConcurrencySymmetric(environments: ExecutionEnvironments, step1: ProcessStep, step2: ProcessStep)
    ensures environments.CanRunConcurrently(step1, step2) == environments.CanRunConcurrently(step2, step1)
  {
  }

  /** A mapped step can run concurrently with itself; an unmapped step with nothing. */
  lemma ConcurrencyReflexiveOnMapped(environments: ExecutionEnvironments, step: ProcessStep, other: ProcessStep)
    ensures environments.CanRunConcurrently(step, step) <==> step in environments.stepToEnvironment
    ensures step !in environments.stepToEnvironment ==>
              !environments.CanRunConcurrently(step, other) && !environments.CanRunConcurrently(other, step)
  {
  }

  /** Two steps can run concurrently iff some environment holds both. */
  lemma ConcurrentIffSharedEnvironment(environments: ExecutionEnvironments, step1: ProcessStep, step2: ProcessStep)
    ensures environments.CanRunConcurrently(step1, step2) <==>
              exists e :: step1 in environments.StepsIn(e) && step2 in environments.StepsIn(e)
  {
    if environments.CanRunConcurrently(step1, step2) {
      var e := environments.stepToEnvironment[step1];
      assert step1 in environments.StepsIn(e) && step2 in environments.StepsIn(e);
    }
  }

  /** Concurrency is transitive: it is the "same environment" equivalence on mapped steps. */
  lemma ConcurrencyTransitive(environments: ExecutionEnvironments, a: ProcessStep, b: ProcessStep, c: ProcessStep)
    requires environments.CanRunConcurrently(a, b) && environments.CanRunConcurrently(b, c)
    ensures environments.CanRunConcurrently(a, c)
  {
  }
}
