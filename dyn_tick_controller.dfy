/** The dynamic tick controller: a two-state lifecycle (stopped, running with a
    control thread) and the pacing of its per-cycle loop. Time is integer
    milliseconds. The scan is modelled separately by `ScriptLocator.ScanWorld`;
    `Run` models only its duration. */
module DynTick {

  datatype Option<T> = None | Some(value: T)

  datatype LogLevel = Error
  /** A line handed to the engine log. */
  datatype LogEntry = LogEntry(level: LogLevel, message: string)

  const StartWhileRunning: string := "Cannot start the already started dynamic tick controller!"
  const StopWhileStopped: string := "Cannot stop the not started dynamic tick controller!"

  function Max(a: int, b: int): int {
    if a < b then b else a
  }

  // ---------------------------------------------------------------------------
  // Pacing of one cycle

  /** The deadline of a cycle: one period after its start, so a cycle whose
      work takes no time idles for a whole period. */
  function IdealStopTime(tickStart: int, period: nat): (r: int)
    ensures r >= tickStart
    ensures IdleWait(tickStart, r) == period
  {
    tickStart + period
  }

  /** How long the control thread sleeps at the end of a cycle: positive
      exactly when the cycle finished before its deadline, and waiting it out
      resumes at the deadline, or at once when the deadline has passed. */
  function IdleWait(tickEnd: int, idealStopTime: int): (w: nat)
    ensures w > 0 <==> tickEnd < idealStopTime
    ensures tickEnd + w == Max(tickEnd, idealStopTime)
  {
    if tickEnd < idealStopTime then idealStopTime - tickEnd else 0
  }

  /** One whole cycle, its scan taking `work`, followed by its idle wait, lasts
      the period or the work, whichever is longer. */
  lemma CycleLength(tickStart: int, period: nat, work: nat)
    ensures var tickEnd := tickStart + work;
            tickEnd + IdleWait(tickEnd, IdealStopTime(tickStart, period)) == tickStart + Max(period, work)
  {
  }

  /** The time from the start of the first cycle to the end of the last, when
      cycle `k`'s scan takes `work[k]`: each cycle lasts a period, or longer
      when its work overran the period. Sleeping never shortens a cycle, so
      the cycles take at least their total work. */
  function Elapsed(period: nat, work: seq<nat>): (r: int)
    ensures r >= Sum(work)
    decreases |work|
  {
    if work == [] then 0
    else Elapsed(period, work[..|work| - 1]) + Max(period, work[|work| - 1])
  }

  /** The total work of the cycles. */
  function Sum(work: seq<nat>): int
    decreases |work|
  {
    if work == [] then 0 else Sum(work[..|work| - 1]) + work[|work| - 1]
  }

  /** The controller never runs faster than its target rate, and no cycle is
      skipped or merged: the elapsed time covers a period per cycle and all of
      the cycles' work. */
  lemma {:induction false} ElapsedBounds(period: nat, work: seq<nat>)
    ensures Elapsed(period, work) >= |work| * period
    ensures Elapsed(period, work) >= Sum(work)
    decreases |work|
  {
    if work != [] {
      ElapsedBounds(period, work[..|work| - 1]);
    }
  }

  /** When no cycle overruns the period, cycles start exactly one period apart. */
  lemma {:induction false} OnSchedule(period: nat, work: seq<nat>)
    requires forall k :: 0 <= k < |work| ==> work[k] <= period
    ensures Elapsed(period, work) == |work| * period
    decreases |work|
  {
    if work != [] {
      OnSchedule(period, work[..|work| - 1]);
    }
  }

  /** When every cycle overruns the period, cycles run back to back. */
  lemma {:induction false} Overloaded(period: nat, work: seq<nat>)
    requires forall k :: 0 <= k < |work| ==> work[k] >= period
    ensures Elapsed(period, work) == Sum(work)
    decreases |work|
  {
    if work != [] {
      Overloaded(period, work[..|work| - 1]);
    }
  }

  /** Ten cycles at a 10 ms period whose work takes no time end 100 ms after the first started. */
  lemma TenIdleCyclesAtTenMs()
    ensures Elapsed(10, seq(10, k => 0)) == 100
  {
    OnSchedule(10, seq(10, k => 0));
  }

  // ---------------------------------------------------------------------------
  // The lifecycle

  /** The `std::jthread` that runs the control loop, as far as the controller
      acts on it: a stop request and a join. */
  class ControlThread {
    var stopRequested: bool
    var joined: bool

    constructor()
      ensures !stopRequested && !joined
    {
      stopRequested, joined := false, false;
    }

    method RequestStop()
      modifies this
      ensures stopRequested && joined == old(joined)
    {
      stopRequested := true;
    }

    /** Waits for the control loop, which observes the stop request at the next cycle boundary. */
    method Join()
      requires stopRequested
      modifies this
      ensures joined && stopRequested
    {
      joined := true;
    }
  }

  class DynTickController {
    var isRunning: bool
    var thread: ControlThread?

    /** A running controller owns a control thread; a stopped one owns none. */
    ghost predicate Valid()
      reads this
    {
      isRunning <==> thread != null
    }

    ghost predicate Stopped()
      reads this
    {
      !isRunning && thread == null
    }

    /** A fresh controller is stopped. */
    constructor()
      ensures Stopped() && Valid()
    {
      isRunning, thread := false, null;
    }

    /** Starting a running controller only logs an error; otherwise the
        controller is marked running and gets a new control thread. */
    method Start() returns (log: Option<LogEntry>)
      modifies this
      ensures old(isRunning) ==>
                log == Some(LogEntry(Error, StartWhileRunning)) &&
                isRunning && thread == old(thread)
      ensures !old(isRunning) ==>
                log == None && isRunning && thread != null && fresh(thread) &&
                !thread.stopRequested && !thread.joined
      ensures old(Valid()) ==> Valid()
    {
      if isRunning {
        log := Some(LogEntry(Error, StartWhileRunning));
        return;
      }
      log := None;
      isRunning := true;
      thread := new ControlThread();
    }

    /** Stopping a stopped controller only logs an error; otherwise the control
        thread is asked to stop, joined and released, and the controller is
        stopped. */
    method Stop() returns (log: Option<LogEntry>)
      requires Valid()
      modifies this, thread
      ensures Valid()
      ensures !old(isRunning) ==>
                log == Some(LogEntry(Error, StopWhileStopped)) && Stopped()
      ensures old(isRunning) ==>
                log == None && Stopped() &&
                old(thread).stopRequested && old(thread).joined
    {
      if !isRunning {
        log := Some(LogEntry(Error, StopWhileStopped));
        return;
      }
      log := None;
      thread.RequestStop();
      thread.Join();
      thread := null;
      isRunning := false;
    }

    /** The control loop, with time as integer milliseconds from `t0`. Cycle
        `k` scans for `work[k]` ms and then sleeps until its deadline, one
        `period` after its start, if that has not passed; the stop request is
        observed after `|work|` cycles. Returns each cycle's start time, each
        idle wait, and the time the loop ends. */
    method Run(t0: int, period: nat, work: seq<nat>)
      returns (starts: seq<int>, sleeps: seq<nat>, finish: int)
      ensures |starts| == |work| && |sleeps| == |work|
      ensures |work| > 0 ==> starts[0] == t0
      ensures forall k :: 0 <= k < |work| ==>
                sleeps[k] == (if work[k] < period then period - work[k] else 0)
      ensures forall k :: 0 <= k < |work| - 1 ==> starts[k + 1] == starts[k] + Max(period, work[k])
      ensures finish == t0 + Elapsed(period, work)
    {
      starts, sleeps := [], [];
      var now := t0;
      var i := 0;
      while i < |work|
        invariant 0 <= i <= |work| && |starts| == i && |sleeps| == i
        invariant now == t0 + Elapsed(period, work[..i])
        invariant i > 0 ==> starts[0] == t0
        invariant forall k :: 0 <= k < i ==>
                    sleeps[k] == (if work[k] < period then period - work[k] else 0)
        invariant forall k :: 0 <= k < i - 1 ==> starts[k + 1] == starts[k] + Max(period, work[k])
        invariant i > 0 ==> now == starts[i - 1] + Max(period, work[i - 1])
      {
        var tickStart := now;
        var idealStopTime := IdealStopTime(tickStart, period);
        var tickEnd := tickStart + work[i];
        var wait := IdleWait(tickEnd, idealStopTime);
        now := tickEnd + wait;
        starts, sleeps := starts + [tickStart], sleeps + [wait];
        assert work[..i + 1][..i] == work[..i];
        i := i + 1;
      }
      assert work[..i] == work;
      finish := now;
    }
  }

  /** Starting a stopped controller and stopping it again returns it to the stopped state. */
  method StartThenStop(c: DynTickController) returns (started: Option<LogEntry>, stopped: Option<LogEntry>)
    requires c.Stopped()
    modifies c
    ensures started == None && stopped == None
    ensures c.Stopped()
  {
    started := c.Start();
    stopped := c.Stop();
  }

  /** A second `Start` without a `Stop` in between logs an error and keeps the
      control thread `t1` made by the first, still unstopped and not joined. */
  method StartTwice(c: DynTickController)
    returns (first: Option<LogEntry>, second: Option<LogEntry>, ghost t1: ControlThread?)
    requires c.Stopped()
    modifies c
    ensures first == None && second == Some(LogEntry(Error, StartWhileRunning))
    ensures c.isRunning && t1 != null && fresh(t1) && c.thread == t1
    ensures !t1.stopRequested && !t1.joined
  {
    first := c.Start();
    t1 := c.thread;
    second := c.Start();
  }
}
