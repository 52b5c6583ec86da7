/** The simulator's clock (simulator/__init__.py): `run` steps the time from
    where it stands by a fixed delta while it is before the end time, calling the
    trader's policy once per step, and then has the market sell everything. Times
    are whole seconds; the policy and the market's `sell_all` are callbacks whose
    calls are recorded. */
module Simulation {
  import opened Collections

  /** One call of the trader's policy: the time and the step number it was given. */
  datatype PolicyCall = PolicyCall(time: int, step: nat)

  /** `t` advanced by `n` steps of `d`. */
  function Advanced(t: int, n: nat, d: int): int {
    if n == 0 then t else Advanced(t, n - 1, d) + d
  }

  lemma {:induction false} AdvancedIsLinear(t: int, n: nat, d: int)
    ensures Advanced(t, n, d) == t + n * d
  {
    if n > 0 {
      AdvancedIsLinear(t, n - 1, d);
    }
  }

  /** Advancing by a positive delta moves strictly forward. */
  lemma {:induction false} AdvancedMonotone(t: int, m: nat, n: nat, d: int)
    requires d > 0 && m < n
    ensures Advanced(t, m, d) < Advanced(t, n, d)
  {
    if m < n - 1 {
      AdvancedMonotone(t, m, n - 1, d);
    }
  }

  /** The number of steps `run` takes from `t`: how often `d` is added before
      the time reaches `end`. */
  function StepCount(t: int, end: int, d: int): nat
    requires t < end ==> d > 0
    decreases end - t
  {
    if t >= end then 0 else 1 + StepCount(t + d, end, d)
  }

  /** The step count is the least number of steps after which the time is not
      before the end: none when the run starts at or after the end, whatever
      the delta. */
  lemma {:induction false} StepCountIsLeast(t: int, end: int, d: int)
    requires t < end ==> d > 0
    ensures StepCount(t, end, d) == 0 <==> t >= end
    ensures Advanced(t, StepCount(t, end, d), d) >= end
    ensures forall n: nat :: n < StepCount(t, end, d) ==> Advanced(t, n, d) < end
    decreases end - t
  {
    if t < end {
      StepCountIsLeast(t + d, end, d);
      var k := StepCount(t + d, end, d);
      ShiftAdvanced(t, k, d);
      forall n: nat | n < StepCount(t, end, d)
        ensures Advanced(t, n, d) < end
      {
        if n > 0 {
          ShiftAdvanced(t, n - 1, d);
        }
      }
    }
  }

  /** Starting one step later is the same as taking one step more. */
  lemma {:induction false} ShiftAdvanced(t: int, n: nat, d: int)
    ensures Advanced(t + d, n, d) == Advanced(t, n + 1, d)
  {
    if n > 0 {
      ShiftAdvanced(t, n - 1, d);
    }
  }

  /** The policy calls of `n` steps from `t`. */
  function Schedule(t: int, n: nat, d: int): (calls: seq<PolicyCall>)
    ensures |calls| == n
    ensures forall i :: 0 <= i < n ==> calls[i] == PolicyCall(Advanced(t, i, d), i)
  {
    seq(n, i requires 0 <= i < n => PolicyCall(Advanced(t, i, d), i))
  }

  class Simulator {
    const startTime: int
    const endTime: int
    const timeDelta: int
    var time: int
    /** The step counter: unset until `run` sets it, as `__init__` never assigns it. */
    var steps: Option<nat>
    var policyCalls: seq<PolicyCall>
    var sellAllCalls: nat

    /** `Simulator.__init__`: the clock starts at the start time; there is no
        step counter yet. */
    constructor(startTime: int, endTime: int, timeDelta: int)
      ensures this.startTime == startTime && this.endTime == endTime && this.timeDelta == timeDelta
      ensures time == startTime && steps == None
      ensures policyCalls == [] && sellAllCalls == 0
    {
      this.startTime := startTime;
      this.endTime := endTime;
      this.timeDelta := timeDelta;
      time := startTime;
      steps := None;
      policyCalls := [];
      sellAllCalls := 0;
    }

    /** `simulation_step`: the policy is called with the current time and step
        number, then the time advances by the delta and the step number by one.
        Without a step counter (before `run`) the source raises `AttributeError`. */
    method SimulationStep()
      requires steps.Some?
      modifies this
      ensures policyCalls == old(policyCalls) + [PolicyCall(old(time), old(steps).value)]
      ensures time == old(time) + timeDelta && steps == Some(old(steps).value + 1)
      ensures sellAllCalls == old(sellAllCalls)
    {
      policyCalls := policyCalls + [PolicyCall(time, steps.value)];
      time := time + timeDelta;
      steps := Some(steps.value + 1);
    }

    /** `run`: the step number restarts at 0, steps are taken while the time is
        before the end time, and the market sells everything once afterwards. */
    method Run()
      requires time < endTime ==> timeDelta > 0
      modifies this
      ensures steps == Some(StepCount(old(time), endTime, timeDelta))
      ensures time == old(time) + steps.value * timeDelta
      ensures time >= endTime
      ensures policyCalls == old(policyCalls) + Schedule(old(time), steps.value, timeDelta)
      ensures sellAllCalls == old(sellAllCalls) + 1
    {
      ghost var t0 := time;
      ghost var calls0 := policyCalls;
      steps := Some(0);
      while time < endTime
        invariant steps.Some?
        invariant timeDelta <= 0 ==> time >= endTime
        invariant time == Advanced(t0, steps.value, timeDelta)
        invariant steps.value + StepCount(time, endTime, timeDelta) == StepCount(t0, endTime, timeDelta)
        invariant policyCalls == calls0 + Schedule(t0, steps.value, timeDelta)
        invariant sellAllCalls == old(sellAllCalls)
        decreases endTime - time
      {
        SimulationStep();
        assert Schedule(t0, steps.value, timeDelta)
               == Schedule(t0, steps.value - 1, timeDelta) + [PolicyCall(Advanced(t0, steps.value - 1, timeDelta), steps.value - 1)];
      }
      sellAllCalls := sellAllCalls + 1;
      AdvancedIsLinear(t0, steps.value, timeDelta);
    }
  }
}
