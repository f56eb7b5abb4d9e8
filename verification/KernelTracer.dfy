/**
 The consecutive-kernel callback in place: its static variables as fields, one method
 for each unlocked test and each locked body, and the two whole callbacks.
 */
module KernelTracer {
  import opened MachineWords
  import opened TraceController
  import opened TraceWindow

  class ConsecutiveKernelTracer {
    const window: uint64
    var isProfiling: bool
    var stopProfiling: bool
    var numConsecutiveKernels: uint64
    var capturedIds: set<nat>
    var lowestDispatchId: uint64
    // The device context, and the histories of `Controller`.
    var running: bool
    var calls: seq<DeviceCall>
    var phases: map<nat, Phase>
    ghost var session: set<nat>
    ghost var ever: set<nat>
    ghost var bodies: seq<Body>
    ghost var bodyIds: set<nat>

    ghost function View(): Controller
      reads this
    {
      Controller(isProfiling, stopProfiling, numConsecutiveKernels, capturedIds, lowestDispatchId, running,
                 calls, phases, session, ever, bodies, bodyIds)
    }

    constructor (window: uint64)
      requires window >= 1
      ensures this.window == window && View() == Initial
    {
      this.window := window;
      isProfiling, stopProfiling, numConsecutiveKernels := false, false, 0;
      capturedIds, lowestDispatchId := {}, NO_ID;
      running, calls, phases := false, [], map[];
      session, ever, bodies, bodyIds := {}, {}, [], {};
    }

    /** True when the ENTER callback goes on to take the lock. */
    method TestEnter(id: nat, isTarget: bool) returns (goOn: bool)
      requires Fits(View(), Enter(id, isTarget))
      modifies `phases
      ensures View() == Next(old(View()), Enter(id, isTarget), window)
      ensures goOn <==> phases[id] == Entering(isTarget)
    {
      goOn := isTarget || isProfiling;
      phases := phases[id := if goOn then Entering(isTarget) else InFlight];
    }

    /** A target resets the count and starts the context if it is not running. */
    method OpenWindow()
      modifies `numConsecutiveKernels, `isProfiling, `running, `calls
      ensures numConsecutiveKernels == 0 && isProfiling
      ensures running == (old(running) || !old(isProfiling))
      ensures calls == if old(isProfiling) then old(calls) else old(calls) + [Start]
    {
      numConsecutiveKernels := 0;
      if !isProfiling {
        isProfiling, running, calls := true, true, calls + [Start];
      }
    }

    method StopContext()
      modifies `isProfiling, `running, `calls, `stopProfiling, `lowestDispatchId, `session
      ensures !isProfiling && !running && calls == old(calls) + [Stop]
      ensures !stopProfiling && lowestDispatchId == NO_ID && session == {}
    {
      isProfiling, running, calls := false, false, calls + [Stop];
      stopProfiling, lowestDispatchId, session := false, NO_ID, {};
    }

    method Capture(id: nat)
      modifies `capturedIds, `lowestDispatchId, `session, `ever
      requires id < NO_ID
      ensures capturedIds == old(capturedIds) + {id}
      ensures lowestDispatchId == if id < old(lowestDispatchId) then id else old(lowestDispatchId)
      ensures session == old(session) + {id} && ever == old(ever) + {id}
    {
      capturedIds, session, ever := capturedIds + {id}, session + {id}, ever + {id};
      if lowestDispatchId > id {
        lowestDispatchId := id;
      }
    }

    method BodyOfEnter(id: nat, isTarget: bool)
      requires id in phases && phases[id] == Entering(isTarget) && id < NO_ID
      modifies this
      ensures View() == Next(old(View()), EnterBody(id), window)
    {
      if isTarget {
        OpenWindow();
      }
      var localCount := numConsecutiveKernels;
      if isProfiling && localCount < window {
        Capture(id);
      }
      numConsecutiveKernels := Wrap64(localCount + 1);
      if localCount >= window {
        stopProfiling := true;
      }
      phases, bodies, bodyIds := phases[id := InFlight], bodies + [Body(id, isTarget)], bodyIds + {id};
    }

    method TestComplete(id: nat) returns (goOn: bool)
      requires Fits(View(), Complete(id))
      modifies `phases
      ensures View() == Next(old(View()), Complete(id), window)
      ensures goOn <==> phases[id].Completing?
    {
      goOn := isProfiling;
      phases := phases[id := if goOn then Completing else Finished];
    }

    method BodyOfComplete(id: nat)
      requires Fits(View(), CompleteBody(id))
      modifies this
      ensures View() == Next(old(View()), CompleteBody(id), window)
    {
      phases, capturedIds := phases[id := Finished], capturedIds - {id};
      if capturedIds != {} || !stopProfiling {
        return;
      }
      // The compare-and-exchange fails when profiling is already off.
      if !isProfiling {
        return;
      }
      StopContext();
    }

    /** The whole ENTER callback, uninterrupted. */
    method OnEnter(id: nat, isTarget: bool)
      requires Fits(View(), Enter(id, isTarget))
      modifies this
      ensures View() == Happens(old(View()), Arrive(id, isTarget), window)
    {
      var goOn := TestEnter(id, isTarget);
      if goOn {
        BodyOfEnter(id, isTarget);
      }
    }

    /** The whole completion callback, uninterrupted. */
    method OnComplete(id: nat)
      requires Fits(View(), Complete(id))
      modifies this
      ensures View() == Happens(old(View()), Finish(id), window)
      ensures old(Settled(View())) && window >= 1 && (forall d :: d in phases ==> phases[d].Finished?) ==> !stopProfiling
    {
      if Settled(View()) && window >= 1 {
        HappensKeepsSettled(View(), Finish(id), window);
      }
      var goOn := TestComplete(id);
      if goOn {
        BodyOfComplete(id);
      }
    }
  }
}
