/**
 * `cleanup` of src/container.rs, run when the server is a container's init
 * process: call the blocking "wait for any child" primitive until it reports
 * that no children remain.  The process table is a finite set of child ids; the
 * errors a wait may be interrupted by are an input, one per call.
 */
module Reaper {
  import opened Types

  type Pid = nat

  /** The errors `wait` can report. */
  datatype Errno = ECHILD | EINTR | EINVAL

  /** An error other than "no children" that interrupts a wait while children exist. */
  datatype Interruption = Interrupted | Invalid

  function ErrnoOf(i: Interruption): (e: Errno)
    ensures e != ECHILD
  {
    match i
    case Interrupted => EINTR
    case Invalid => EINVAL
  }

  /** What one call of `wait` returned. */
  datatype WaitResult = Reaped(pid: Pid) | Failed(errno: Errno)

  /** The interruption scheduled for call number `k`, if any. */
  function InterruptionAt(faults: seq<Option<Interruption>>, k: nat): Option<Interruption> {
    if k < |faults| then faults[k] else None
  }

  /**
   * The kernel's `wait`: with no children it fails with ECHILD at once; otherwise
   * either the scheduled interruption is reported or one child is reaped and
   * leaves the table.  Which child is left open.
   */
  method Wait(children: set<Pid>, fault: Option<Interruption>) returns (res: WaitResult, rest: set<Pid>)
    ensures res == Failed(ECHILD) <==> children == {}
    ensures res.Failed? ==> rest == children
    ensures children != {} && fault.Some? ==> res == Failed(ErrnoOf(fault.value))
    ensures children != {} && fault.None? ==> res.Reaped?
    ensures res.Reaped? ==> res.pid in children && rest == children - {res.pid} && |rest| == |children| - 1
  {
    if children == {} {
      return Failed(ECHILD), children;
    }
    if fault.Some? {
      return Failed(ErrnoOf(fault.value)), children;
    }
    var pid :| pid in children;
    return Reaped(pid), children - {pid};
  }

  /** The ids reaped by a run of successful waits. */
  function ReapedPids(trace: seq<WaitResult>): (pids: set<Pid>)
    requires forall k :: 0 <= k < |trace| ==> trace[k].Reaped?
    ensures forall k :: 0 <= k < |trace| ==> trace[k].pid in pids
    ensures |pids| <= |trace|
    decreases |trace|
  {
    if |trace| == 0 then {}
    else ReapedPids(trace[..|trace| - 1]) + {trace[|trace| - 1].pid}
  }

  /** No child id is reaped twice. */
  predicate Distinct(trace: seq<WaitResult>)
    requires forall k :: 0 <= k < |trace| ==> trace[k].Reaped?
  {
    forall a, b :: 0 <= a < b < |trace| ==> trace[a].pid != trace[b].pid
  }

  /**
   * The state between two waits: every call so far reaped a distinct child and
   * was not interrupted, and the table holds exactly the children not yet reaped.
   */
  predicate Reaping(children: set<Pid>, remaining: set<Pid>, trace: seq<WaitResult>, faults: seq<Option<Interruption>>) {
    && |remaining| + |trace| == |children|
    && (forall k :: 0 <= k < |trace| ==> trace[k].Reaped? && trace[k].pid in children)
    && ReapedPids(trace) <= children
    && remaining == children - ReapedPids(trace)
    && Distinct(trace)
    && (forall k :: 0 <= k < |trace| ==> InterruptionAt(faults, k).None?)
  }

  /** Reaping a child still in the table keeps the loop's state consistent. */
  lemma ReapStep(children: set<Pid>, remaining: set<Pid>, trace: seq<WaitResult>, faults: seq<Option<Interruption>>, pid: Pid)
    requires Reaping(children, remaining, trace, faults)
    requires pid in remaining && InterruptionAt(faults, |trace|).None?
    ensures Reaping(children, remaining - {pid}, trace + [Reaped(pid)], faults)
  {
    var next := trace + [Reaped(pid)];
    assert next[..|next| - 1] == trace;
    assert ReapedPids(next) == ReapedPids(trace) + {pid};
    forall k | 0 <= k < |trace| ensures trace[k].pid != pid {
      assert trace[k].pid in ReapedPids(trace);
    }
  }

  /** The wait that ends the loop fixes the result: the postcondition of `Cleanup`. */
  lemma FinalWait(children: set<Pid>, remaining: set<Pid>, trace: seq<WaitResult>, faults: seq<Option<Interruption>>,
                  res: WaitResult, r: Result<(), Errno>)
    requires Reaping(children, remaining, trace, faults)
    requires res.Failed?
    requires res == Failed(ECHILD) <==> remaining == {}
    requires remaining != {} ==>
      InterruptionAt(faults, |trace|).Some? && res == Failed(ErrnoOf(InterruptionAt(faults, |trace|).value))
    requires r == if res.errno == ECHILD then Ok(()) else Err(res.errno)
    ensures var trace := trace + [res];
      && |trace| >= 1 && |trace| <= |children| + 1
      && (forall k :: 0 <= k < |trace| - 1 ==> trace[k].Reaped?)
      && trace[|trace| - 1].Failed?
      && (r.Ok? <==> trace[|trace| - 1] == Failed(ECHILD))
      && (r.Err? ==> r.error == trace[|trace| - 1].errno && r.error != ECHILD)
      && (r.Ok? <==> remaining == {})
      && (r.Ok? <==> forall k :: 0 <= k < |children| ==> InterruptionAt(faults, k).None?)
      && ReapedPids(trace[..|trace| - 1]) <= children
      && remaining == children - ReapedPids(trace[..|trace| - 1])
      && (forall a, b :: 0 <= a < b < |trace| - 1 ==> trace[a].pid != trace[b].pid)
  {
    var next := trace + [res];
    assert next[..|next| - 1] == trace;
    if remaining != {} {
      assert |trace| < |children| && InterruptionAt(faults, |trace|).Some?;
    }
  }

  /**
   * `cleanup` for the container build: wait in a loop; a reaped child continues
   * the loop, ECHILD ends it with `Ok`, any other error ends it with that error.
   * `trace` is every wait result consumed, `remaining` the children left.
   */
  method Cleanup(children: set<Pid>, faults: seq<Option<Interruption>>)
    returns (r: Result<(), Errno>, trace: seq<WaitResult>, remaining: set<Pid>)
    ensures |trace| >= 1 && |trace| <= |children| + 1
    ensures forall k :: 0 <= k < |trace| - 1 ==> trace[k].Reaped?
    ensures trace[|trace| - 1].Failed?
    ensures r.Ok? <==> trace[|trace| - 1] == Failed(ECHILD)
    ensures r.Err? ==> r.error == trace[|trace| - 1].errno && r.error != ECHILD
    ensures r.Ok? <==> remaining == {}
    ensures r.Ok? <==> forall k :: 0 <= k < |children| ==> InterruptionAt(faults, k).None?
    ensures ReapedPids(trace[..|trace| - 1]) <= children
    ensures remaining == children - ReapedPids(trace[..|trace| - 1])
    ensures forall a, b :: 0 <= a < b < |trace| - 1 ==> trace[a].pid != trace[b].pid
  {
    remaining := children;
    trace := [];
    while true
      invariant Reaping(children, remaining, trace, faults)
      decreases |remaining|
    {
      var res, rest := Wait(remaining, InterruptionAt(faults, |trace|));
      if res.Reaped? {
        ReapStep(children, remaining, trace, faults, res.pid);
        trace, remaining := trace + [res], rest;
      } else {
        r := if res.errno == ECHILD then Ok(()) else Err(res.errno);
        FinalWait(children, remaining, trace, faults, res, r);
        trace := trace + [res];
        return;
      }
    }
  }
}
