/** Physics::Level::Trigger: how many fixed-size steps the simulation takes, in one call and
    over whole runs. Time is real-valued; rounding is not modelled. */
module PhysicsTrigger {

  /** An interval longer than this is dropped. */
  const MAX_INTERVAL := 0.5

  /** The time the simulation starts from in a call: the current time after an exception. */
  function StartOf(simTimeStamp: real, time: real): real {
    if time - simTimeStamp < 0.0 || time - simTimeStamp > MAX_INTERVAL then time else simTimeStamp
  }

  /** n steps of size s. */
  function Steps(n: int, s: real): real {
    n as real * s
  }

  lemma NoSteps(s: real)
    ensures Steps(0, s) == 0.0
  {
  }

  lemma OneMoreStep(n: int, s: real)
    ensures Steps(n + 1, s) == Steps(n, s) + s
  {
  }

  lemma StepsOfBoth(m: int, n: int, s: real)
    ensures Steps(m + n, s) == Steps(m, s) + Steps(n, s)
  {
  }

  lemma MoreIsLater(m: int, n: int, s: real)
    requires s > 0.0
    ensures m < n <==> Steps(m, s) < Steps(n, s)
  {
    assert (n - m) as real * s == Steps(n, s) - Steps(m, s);
    if m < n {
      assert (n - m) as real * s > 0.0;
    } else if m > n {
      assert (m - n) as real * s > 0.0;
    }
  }

  /** The number of whole steps in an interval. */
  function Whole(interval: real, s: real): int
    requires s > 0.0
  {
    (interval / s).Floor
  }

  lemma WholeIs(interval: real, s: real)
    requires s > 0.0 && interval >= 0.0
    ensures Whole(interval, s) >= 0
    ensures Steps(Whole(interval, s), s) <= interval < Steps(Whole(interval, s) + 1, s)
  {
    var q := interval / s;
    Quotient(interval, s);
    WholeOf(q, q.Floor, s, interval);
  }

  lemma Quotient(interval: real, s: real)
    requires s > 0.0
    ensures (interval / s) * s == interval
    ensures interval >= 0.0 ==> interval / s >= 0.0
  {
  }

  lemma WholeOf(q: real, n: int, s: real, interval: real)
    requires s > 0.0 && q * s == interval && n as real <= q < n as real + 1.0
    ensures Steps(n, s) <= interval < Steps(n + 1, s)
  {
    OneMoreStep(n, s);
    Excess(q, n as real, s, interval, Steps(n, s));
  }

  lemma Excess(q: real, a: real, s: real, qs: real, steps: real)
    requires s > 0.0 && a <= q < a + 1.0 && qs == q * s && steps == a * s
    ensures steps <= qs < steps + s
  {
    var d := q - a;
    assert d * s == qs - steps;
    Positive(d, s);
    Positive(1.0 - d, s);
    assert (1.0 - d) * s == s - d * s;
  }

  lemma Positive(d: real, s: real)
    requires s > 0.0
    ensures d >= 0.0 ==> d * s >= 0.0
    ensures d > 0.0 ==> d * s > 0.0
  {
  }

  /** What a call does, as a relation: from its start, it takes the fewest steps that reach
      the current time. */
  predicate Triggered(before: real, time: real, s: real, after: real, steps: int) {
    && steps >= 0
    && after == StartOf(before, time) + Steps(steps, s)
    && time <= after < time + s
  }

  /** The result of a call is unique. */
  lemma TriggeredOnce(before: real, time: real, s: real, a: real, m: int, b: real, n: int)
    requires s > 0.0 && Triggered(before, time, s, a, m) && Triggered(before, time, s, b, n)
    ensures m == n && a == b
  {
    if m < n {
      Between(m, n, s);
    } else if n < m {
      Between(n, m, s);
    }
  }

  lemma Between(m: int, n: int, s: real)
    requires s > 0.0 && m < n
    ensures Steps(m, s) + s <= Steps(n, s)
  {
    hide Steps;
    OneMoreStep(m, s);
    MoreIsLater(n, m + 1, s);
  }

  class Level {
    var time: real
    var simTimeStamp: real
    var stepSize: real
    var simSteps: int
    /** How many times the world was stepped. */
    ghost var stepsLog: int

    constructor ()
      ensures time == 0.0 && simTimeStamp == 0.0 && stepSize == 0.01 && simSteps == 0 && stepsLog == 0
    {
      time, simTimeStamp, stepSize, simSteps, stepsLog := 0.0, 0.0, 0.01, 0, 0;
    }

    method SetTime(t: real)
      modifies this`time
      ensures time == t
    {
      time := t;
    }

    /** Steps the simulation until it has caught up with the time. The number of steps is
        the number announced beforehand, or one more; it is the same exactly if the steps
        come out even. */
    method Trigger()
      requires stepSize > 0.0
      modifies this`simTimeStamp, this`simSteps, this`stepsLog
      ensures Triggered(old(simTimeStamp), time, stepSize, simTimeStamp, stepsLog - old(stepsLog))
      ensures 0 <= simSteps <= stepsLog - old(stepsLog) <= simSteps + 1
      ensures stepsLog - old(stepsLog) == simSteps <==> simTimeStamp == time
    {
      hide Steps, Whole;
      var timeDiff := time - simTimeStamp;
      if timeDiff < 0.0 {
        simTimeStamp := time;
      } else if timeDiff > MAX_INTERVAL {
        simTimeStamp := time;
      }
      ghost var start := simTimeStamp;
      simSteps := Whole(time - simTimeStamp, stepSize);
      WholeIs(time - start, stepSize);
      NoSteps(stepSize);
      ghost var n, whole := 0, simSteps;
      while simTimeStamp < time
        invariant simSteps == whole && 0 <= n <= whole + 1 && stepsLog == old(stepsLog) + n
                  && simTimeStamp == start + Steps(n, stepSize)
        invariant simTimeStamp < time + stepSize
        decreases simSteps + 1 - n
      {
        MoreIsLater(n, simSteps + 1, stepSize);
        OneMoreStep(n, stepSize);
        simTimeStamp := simTimeStamp + stepSize;
        n := n + 1;
        stepsLog := stepsLog + 1;
      }
      CountIs(n, simSteps, time - start, stepSize);
    }
  }

  lemma CountIs(n: int, whole: int, interval: real, s: real)
    requires s > 0.0 && Steps(whole, s) <= interval < Steps(whole + 1, s)
    requires interval <= Steps(n, s) < interval + s
    ensures whole <= n <= whole + 1
    ensures n == whole <==> Steps(n, s) == interval
  {
    hide Steps;
    MoreIsLater(n, whole, s);
    OneMoreStep(whole, s);
    OneMoreStep(whole + 1, s);
    MoreIsLater(whole + 1, n, s);
    if n > whole + 1 {
      Between(whole + 1, n, s);
    }
  }

  // ----- whole runs

  /** A call that is more than half a second behind, or ahead of the time, takes no step, and
      the simulation is at the time afterwards. Any other call goes on from where the
      simulation was. */
  lemma ExceptionsAre(before: real, time: real, s: real, after: real, steps: int)
    requires s > 0.0 && Triggered(before, time, s, after, steps)
    ensures time - before > 0.5 || time < before ==> steps == 0 && after == time
    ensures 0.0 <= time - before <= 0.5 ==> after == before + steps as real * s
  {
    if time - before > 0.5 || time < before {
      MoreIsLater(steps, 1, s);
      MoreIsLater(1, steps, s);
    }
  }

  /** The calls of a run: the time of each, the simulation time after it, and its steps. */
  datatype Call = Call(time: real, after: real, steps: int)

  /** The simulation time before call i. */
  function Before(initial: real, calls: seq<Call>, i: nat): real
    requires i <= |calls|
  {
    if i == 0 then initial else calls[i - 1].after
  }

  predicate IsRun(initial: real, calls: seq<Call>, s: real) {
    && (forall i :: 0 <= i < |calls| ==>
       Triggered(Before(initial, calls, i), calls[i].time, s, calls[i].after, calls[i].steps))
    && (forall i :: 0 < i < |calls| ==> calls[i - 1].time <= calls[i].time)
  }

  /** All steps of the first n calls. */
  function TotalSteps(calls: seq<Call>, n: nat): int
    requires n <= |calls|
  {
    if n == 0 then 0 else TotalSteps(calls, n - 1) + calls[n - 1].steps
  }

  /** The intervals that were dropped because they were too long. */
  function Dropped(initial: real, calls: seq<Call>, n: nat): real
    requires n <= |calls|
  {
    if n == 0 then 0.0 else
    var interval := calls[n - 1].time - Before(initial, calls, n - 1);
    Dropped(initial, calls, n - 1) + if interval > MAX_INTERVAL then interval else 0.0
  }

  /** How often the simulation was ahead of the time and was set back. */
  function SetBacks(initial: real, calls: seq<Call>, n: nat): int
    requires n <= |calls|
  {
    if n == 0 then 0 else
    SetBacks(initial, calls, n - 1) + if calls[n - 1].time < Before(initial, calls, n - 1) then 1 else 0
  }

  /** By how much. */
  function SetBack(initial: real, calls: seq<Call>, n: nat): real
    requires n <= |calls|
  {
    if n == 0 then 0.0 else
    var ahead := Before(initial, calls, n - 1) - calls[n - 1].time;
    SetBack(initial, calls, n - 1) + if ahead > 0.0 then ahead else 0.0
  }

  /** What one call adds. */
  lemma CallBalance(before: real, call: Call, s: real)
    requires Triggered(before, call.time, s, call.after, call.steps)
    ensures var interval := call.time - before;
            call.after - before == Steps(call.steps, s) + (if interval > MAX_INTERVAL then interval else 0.0)
                                   - if -interval > 0.0 then -interval else 0.0
  {
    hide Steps;
  }

  /** Where simulated time has gone: it was stepped through, dropped, or set back. */
  lemma {:induction false} Balance(initial: real, calls: seq<Call>, s: real, n: nat)
    requires IsRun(initial, calls, s) && n <= |calls|
    ensures Before(initial, calls, n) - initial
         == Steps(TotalSteps(calls, n), s) + Dropped(initial, calls, n) - SetBack(initial, calls, n)
  {
    hide Steps, Triggered;
    NoSteps(s);
    if n > 0 {
      Balance(initial, calls, s, n - 1);
      StepsOfBoth(TotalSteps(calls, n - 1), calls[n - 1].steps, s);
      CallBalance(Before(initial, calls, n - 1), calls[n - 1], s);
    }
  }

  /** By how much more than a step the initial time stamp is ahead of the first call. */
  function HeadStart(initial: real, calls: seq<Call>, s: real): (ahead: real)
    ensures ahead >= 0.0
    ensures calls != [] && initial < calls[0].time + s ==> ahead == 0.0
  {
    if calls != [] && initial - calls[0].time > s then initial - calls[0].time - s else 0.0
  }

  /** Each time it is set back by at most one step, and by less than that after the first
      call; a head start of the initial time stamp comes on top. */
  lemma {:induction false} SetBackBounds(initial: real, calls: seq<Call>, s: real, n: nat)
    requires s > 0.0 && IsRun(initial, calls, s) && n <= |calls|
    ensures 0.0 <= SetBack(initial, calls, n) <= Steps(SetBacks(initial, calls, n), s) + HeadStart(initial, calls, s)
    ensures SetBacks(initial, calls, n) >= 0
  {
    hide Steps;
    NoSteps(s);
    if n > 0 {
      SetBackBounds(initial, calls, s, n - 1);
      OneMoreStep(SetBacks(initial, calls, n - 1), s);
      if n > 1 {
        assert Triggered(Before(initial, calls, n - 2), calls[n - 2].time, s, calls[n - 2].after, calls[n - 2].steps);
        assert calls[(n - 1) - 1].time <= calls[n - 1].time;
      }
    }
  }

  /** Over any run with non-decreasing times, at least the time is simulated that has passed
      since the initial time stamp and was not dropped. */
  lemma SimulatedAtLeast(initial: real, calls: seq<Call>, s: real)
    requires s > 0.0 && calls != [] && IsRun(initial, calls, s)
    ensures var n := |calls|;
            calls[n - 1].time - initial - Dropped(initial, calls, n) <= Steps(TotalSteps(calls, n), s)
  {
    hide Steps;
    var n := |calls|;
    Balance(initial, calls, s, n);
    SetBackBounds(initial, calls, s, n);
    assert Triggered(Before(initial, calls, n - 1), calls[n - 1].time, s, calls[n - 1].after, calls[n - 1].steps);
  }

  /** Main result. Over any run with non-decreasing times, the time that was simulated is the
      time that has passed since the initial time stamp, less what was dropped, plus less
      than one step, and at most one more for each time the simulation was set back. Only
      an initial time stamp more than a step ahead of the first call adds to that. */
  lemma SimulatedTime(initial: real, calls: seq<Call>, s: real)
    requires s > 0.0 && calls != [] && IsRun(initial, calls, s)
    ensures var n := |calls|;
            var elapsed := calls[n - 1].time - initial;
            var simulated := Steps(TotalSteps(calls, n), s);
            && elapsed - Dropped(initial, calls, n) <= simulated
            && simulated < elapsed - Dropped(initial, calls, n) + Steps(SetBacks(initial, calls, n) + 1, s)
                           + HeadStart(initial, calls, s)
  {
    hide Steps;
    var n := |calls|;
    SimulatedAtLeast(initial, calls, s);
    Balance(initial, calls, s, n);
    SetBackBounds(initial, calls, s, n);
    OneMoreStep(SetBacks(initial, calls, n), s);
    assert Triggered(Before(initial, calls, n - 1), calls[n - 1].time, s, calls[n - 1].after, calls[n - 1].steps);
  }
}
