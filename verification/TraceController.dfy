/**
 The controller of consecutive-kernel thread tracing. A targeted kernel starts the
 device context and opens a window of K dispatches; once a dispatch arrives beyond
 the window, the context is stopped when all captured dispatches have completed.

 Two grains. A callback is an unlocked test followed by a body under the lock, and
 the machine interleaves these four kinds of turn of any number of dispatches. At the
 coarser grain each callback runs as one event. Start and stop of the device context
 are taken to succeed.
 */
module TraceController {
  import opened MachineWords

  /** `UINT64_MAX`, the stored lowest id while nothing is traced. */
  const NO_ID := TWO_64 - 1

  datatype Phase = Entering(isTarget: bool) | InFlight | Completing | Finished

  datatype DeviceCall = Start | Stop

  /** History of one locked ENTER body. */
  datatype Body = Body(id: nat, isTarget: bool)

  /** The static variables of the callback and the device context, then histories:
      calls to the device, progress of every dispatch, the ids captured since the
      last start, the ids ever captured, and the locked ENTER bodies. */
  datatype Controller = Controller(
    isProfiling: bool,
    stopProfiling: bool,
    count: uint64,
    captured: set<nat>,
    lowest: uint64,
    running: bool,
    calls: seq<DeviceCall>,
    phases: map<nat, Phase>,
    session: set<nat>,
    ever: set<nat>,
    bodies: seq<Body>,
    bodyIds: set<nat>)

  const Initial := Controller(false, false, 0, {}, NO_ID, false, [], map[], {}, {}, [], {})

  datatype Turn =
    | Enter(id: nat, isTarget: bool)
    | EnterBody(id: nat)
    | Complete(id: nat)
    | CompleteBody(id: nat)

  function SetPhase(c: Controller, id: nat, p: Phase): Controller {
    c.(phases := c.phases[id := p])
  }

  /** The unlocked test of the ENTER phase. */
  function EnterTest(c: Controller, id: nat, isTarget: bool): Controller {
    if !isTarget && !c.isProfiling then SetPhase(c, id, InFlight)
    else SetPhase(c, id, Entering(isTarget))
  }

  /** The body of the ENTER phase, with the lock held. */
  function EnterLocked(c: Controller, id: nat, isTarget: bool, window: uint64): Controller {
    var starts := isTarget && !c.isProfiling;
    var local := if isTarget then 0 else c.count;
    var profiling := c.isProfiling || starts;
    var takes := profiling && local < window;
    Controller(
      profiling,
      c.stopProfiling || local >= window,
      Wrap64(local + 1),
      if takes then c.captured + {id} else c.captured,
      if takes && id < c.lowest then id else c.lowest,
      c.running || starts,
      if starts then c.calls + [Start] else c.calls,
      c.phases[id := InFlight],
      if takes then c.session + {id} else c.session,
      if takes then c.ever + {id} else c.ever,
      c.bodies + [Body(id, isTarget)],
      c.bodyIds + {id})
  }

  /** The unlocked test of the completion phase. */
  function CompleteTest(c: Controller, id: nat): Controller {
    SetPhase(c, id, if c.isProfiling then Completing else Finished)
  }

  /** The body of the completion phase, with the lock held. */
  function CompleteLocked(c: Controller, id: nat): Controller {
    var c' := SetPhase(c, id, Finished).(captured := c.captured - {id});
    if c'.captured != {} || !c.stopProfiling || !c.isProfiling then c'
    else c'.(isProfiling := false, running := false, calls := c.calls + [Stop],
             stopProfiling := false, lowest := NO_ID, session := {})
  }

  /** Dispatch ids are unique and below UINT64_MAX, and each dispatch completes once,
      after its ENTER; a turn that does not fit is ignored. */
  predicate Fits(c: Controller, turn: Turn) {
    match turn
    case Enter(id, _) => id < NO_ID && id !in c.phases
    case EnterBody(id) => id in c.phases && c.phases[id].Entering?
    case Complete(id) => id in c.phases && c.phases[id].InFlight?
    case CompleteBody(id) => id in c.phases && c.phases[id].Completing?
  }

  function Next(c: Controller, turn: Turn, window: uint64): Controller {
    if !Fits(c, turn) then c
    else
      match turn
      case Enter(id, isTarget) => EnterTest(c, id, isTarget)
      case EnterBody(id) => EnterLocked(c, id, c.phases[id].isTarget, window)
      case Complete(id) => CompleteTest(c, id)
      case CompleteBody(id) => CompleteLocked(c, id)
  }

  function Run(c: Controller, turns: seq<Turn>, window: uint64): Controller {
    if turns == [] then c
    else Next(Run(c, turns[..|turns| - 1], window), turns[|turns| - 1], window)
  }

  // ------------------------------------------------------- safety, split grain

  predicate Alternates(calls: seq<DeviceCall>) {
    forall i :: 0 <= i < |calls| ==> calls[i] == if i % 2 == 0 then Start else Stop
  }

  /** Locked ENTERs since the latest target, which counts as the first. */
  function SinceTarget(bodies: seq<Body>): (n: nat)
    ensures n <= |bodies|
  {
    if bodies == [] then 0
    else if bodies[|bodies| - 1].isTarget then 1
    else 1 + SinceTarget(bodies[..|bodies| - 1])
  }

  /** ENTER has run and the completion body has not. */
  predicate Open(c: Controller, id: nat) {
    id in c.phases && (c.phases[id].InFlight? || c.phases[id].Completing?)
  }

  ghost predicate DeviceOk(c: Controller) {
    && c.running == c.isProfiling
    && Alternates(c.calls)
    && (c.isProfiling <==> |c.calls| % 2 == 1)
  }

  /** What is captured is the open part of the session; the stored id is its minimum. */
  ghost predicate SessionOk(c: Controller) {
    && (!c.isProfiling ==> c.session == {} && c.lowest == NO_ID)
    && (c.isProfiling ==> c.lowest in c.session && forall d :: d in c.session ==> c.lowest <= d)
    && (forall d :: d in c.captured <==> d in c.session && Open(c, d))
    && (forall d :: d in c.session ==> d in c.phases && !c.phases[d].Entering?)
    && (forall d :: d in c.phases ==> d < NO_ID)
  }

  ghost predicate CountOk(c: Controller) {
    && c.count == SinceTarget(c.bodies)
    && |c.bodies| == |c.bodyIds|
    && (forall d :: d in c.bodyIds ==> d in c.phases && !c.phases[d].Entering?)
    && c.ever <= c.bodyIds
  }

  ghost predicate Inv(c: Controller) {
    DeviceOk(c) && SessionOk(c) && CountOk(c)
  }

  lemma {:induction false} RangeSize(s: set<nat>, n: nat)
    requires forall x :: x in s ==> x < n
    ensures |s| <= n
  {
    if n == 0 {
      assert s == {};
    } else {
      RangeSize(s - {n - 1}, n - 1);
      assert s <= s - {n - 1} + {n - 1};
    }
  }

  /** Unique 64-bit ids cannot make the counter wrap. */
  lemma CounterNeverWraps(c: Controller, id: nat)
    requires Inv(c) && id in c.phases && c.phases[id].Entering?
    ensures c.count + 1 < TWO_64
  {
    RangeSize(c.bodyIds + {id}, NO_ID);
  }

  lemma EnterLockedSession(c: Controller, id: nat, isTarget: bool, window: uint64)
    requires SessionOk(c) && id in c.phases && c.phases[id].Entering? && window >= 1
    ensures SessionOk(EnterLocked(c, id, isTarget, window))
  {
    var c' := EnterLocked(c, id, isTarget, window);
    assert forall d :: d != id ==> (Open(c', d) <==> Open(c, d));
    assert Open(c', id) && !Open(c, id);
  }

  lemma EnterLockedDevice(c: Controller, id: nat, isTarget: bool, window: uint64)
    requires DeviceOk(c)
    ensures DeviceOk(EnterLocked(c, id, isTarget, window))
  {
  }

  lemma EnterLockedCount(c: Controller, id: nat, isTarget: bool, window: uint64)
    requires CountOk(c) && id in c.phases && c.phases[id].Entering? && c.count + 1 < TWO_64
    ensures CountOk(EnterLocked(c, id, isTarget, window))
  {
    var c' := EnterLocked(c, id, isTarget, window);
    assert c'.bodies[..|c.bodies|] == c.bodies;
  }

  lemma EnterLockedKeepsInv(c: Controller, id: nat, window: uint64)
    requires Inv(c) && Fits(c, EnterBody(id)) && window >= 1
    ensures Inv(EnterLocked(c, id, c.phases[id].isTarget, window))
  {
    CounterNeverWraps(c, id);
    EnterLockedDevice(c, id, c.phases[id].isTarget, window);
    EnterLockedSession(c, id, c.phases[id].isTarget, window);
    EnterLockedCount(c, id, c.phases[id].isTarget, window);
  }

  lemma CompleteLockedKeepsInv(c: Controller, id: nat)
    requires Inv(c) && Fits(c, CompleteBody(id))
    ensures Inv(CompleteLocked(c, id))
  {
    var c' := CompleteLocked(c, id);
    assert forall d :: Open(c', d) <==> Open(c, d) && d != id;
  }

  lemma TestsKeepInv(c: Controller, turn: Turn, window: uint64)
    requires Inv(c) && (turn.Enter? || turn.Complete?)
    ensures Inv(Next(c, turn, window))
  {
    var c' := Next(c, turn, window);
    assert forall d :: d != turn.id ==> (Open(c', d) <==> Open(c, d));
  }

  lemma StepKeepsInv(c: Controller, turn: Turn, window: uint64)
    requires Inv(c) && window >= 1
    ensures Inv(Next(c, turn, window))
  {
    if Fits(c, turn) {
      match turn
      case Enter(_, _) => TestsKeepInv(c, turn, window);
      case Complete(_) => TestsKeepInv(c, turn, window);
      case EnterBody(id) => EnterLockedKeepsInv(c, id, window);
      case CompleteBody(id) => CompleteLockedKeepsInv(c, id);
    }
  }

  /** Whatever the interleaving of tests and bodies: the device context is running
      exactly while profiling is on, starts and stops alternate, nothing is captured
      while it is off, and the stored id is UINT64_MAX when off and the minimum of
      all ids captured since the start when on. */
  lemma {:induction false} SplitSafety(turns: seq<Turn>, window: uint64)
    requires window >= 1
    ensures Inv(Run(Initial, turns, window))
    ensures var c := Run(Initial, turns, window);
      && c.running == c.isProfiling && Alternates(c.calls) && (c.isProfiling <==> |c.calls| % 2 == 1)
      && (!c.isProfiling ==> c.captured == {} && c.lowest == NO_ID)
      && (c.isProfiling ==> c.lowest in c.session && forall d :: d in c.session ==> c.lowest <= d)
      && (forall d :: d in c.captured <==> d in c.session && Open(c, d))
  {
    if turns != [] {
      SplitSafety(turns[..|turns| - 1], window);
      StepKeepsInv(Run(Initial, turns[..|turns| - 1], window), turns[|turns| - 1], window);
    }
  }

  /** A dispatch is captured exactly when profiling is on in its locked body and fewer
      than K locked ENTERs came since the latest target, counting the target. */
  lemma CaptureIff(turns: seq<Turn>, id: nat, window: uint64)
    requires window >= 1 && Fits(Run(Initial, turns, window), EnterBody(id))
    ensures var c := Run(Initial, turns, window); var c' := Next(c, EnterBody(id), window);
      && (id in c'.captured <==> c'.isProfiling && SinceTarget(c'.bodies) <= window)
      && c'.captured - {id} == c.captured
      && id !in c.captured
  {
    SplitSafety(turns, window);
    var c := Run(Initial, turns, window);
    CounterNeverWraps(c, id);
    var c' := Next(c, EnterBody(id), window);
    assert c'.bodies[..|c.bodies|] == c.bodies;
    assert !Open(c, id);
  }

  lemma RunTwo(c: Controller, turns: seq<Turn>, a: Turn, b: Turn, window: uint64)
    ensures Run(c, turns + [a, b], window) == Next(Next(Run(c, turns, window), a, window), b, window)
  {
    assert (turns + [a, b])[..|turns| + 1] == turns + [a];
    assert (turns + [a])[..|turns|] == turns;
  }

  // ------------------------------------------------------ what stops the device

  /** Turn m is the unlocked completion test of the dispatch, and finds profiling on. */
  ghost predicate TestsOn(turns: seq<Turn>, m: nat, id: nat, window: uint64) {
    && m < |turns| && turns[m] == Complete(id)
    && Fits(Run(Initial, turns[..m], window), turns[m]) && Run(Initial, turns[..m], window).isProfiling
  }

  /** A completion waits for its locked body only if its test found profiling on. */
  lemma {:induction false} CompletingMeans(turns: seq<Turn>, id: nat, window: uint64) returns (m: nat)
    requires id in Run(Initial, turns, window).phases && Run(Initial, turns, window).phases[id].Completing?
    ensures TestsOn(turns, m, id, window)
  {
    var n := |turns| - 1;
    var b := Run(Initial, turns[..n], window);
    if id in b.phases && b.phases[id].Completing? {
      m := CompletingMeans(turns[..n], id, window);
      assert turns[..n][..m] == turns[..m];
    } else {
      m := n;
    }
  }

  /** Over every interleaving the device is stopped exactly by a locked completion body that
      finds profiling on, a stop pending and nothing captured but its own dispatch; and
      then the unlocked test of that completion had found profiling on as well. */
  lemma StoppedIff(turns: seq<Turn>, turn: Turn, window: uint64) returns (m: nat)
    ensures var c := Run(Initial, turns, window);
      Next(c, turn, window).calls == c.calls + [Stop] <==>
        && turn.CompleteBody? && Fits(c, turn)
        && c.isProfiling && c.stopProfiling && c.captured <= {turn.id}
    ensures turn.CompleteBody? && Fits(Run(Initial, turns, window), turn) ==> TestsOn(turns, m, turn.id, window)
  {
    m := 0;
    var c := Run(Initial, turns, window);
    if turn.CompleteBody? && Fits(c, turn) {
      m := CompletingMeans(turns, turn.id, window);
      assert c.captured <= {turn.id} <==> c.captured - {turn.id} == {};
    }
    assert (c.calls + [Start])[|c.calls|] != (c.calls + [Stop])[|c.calls|] && |c.calls + [Stop]| != |c.calls|;
  }

  // -------------------------------------------- a stop pending while profiling is off

  predicate PendingWhileOff(c: Controller) {
    c.stopProfiling && !c.isProfiling
  }

  /** The locked body of a dispatch that is no target runs after the stop, with the count
      of the old window used up. */
  predicate IsLate(c: Controller, turn: Turn, window: uint64) {
    && turn.EnterBody? && Fits(c, turn)
    && !c.phases[turn.id].isTarget && !c.isProfiling && c.count >= window
  }

  predicate IsTargetBody(c: Controller, turn: Turn) {
    turn.EnterBody? && Fits(c, turn) && c.phases[turn.id].isTarget
  }

  /** Whatever the state, a stop is pending while profiling is off after a turn exactly
      when the turn is a late body, or it already was and the turn is no target's body. */
  lemma PendingStepIff(c: Controller, turn: Turn, window: uint64)
    ensures PendingWhileOff(Next(c, turn, window)) <==>
      IsLate(c, turn, window) || (PendingWhileOff(c) && !IsTargetBody(c, turn))
  {
  }

  ghost predicate LateAt(turns: seq<Turn>, i: nat, window: uint64)
    requires i < |turns|
  {
    IsLate(Run(Initial, turns[..i], window), turns[i], window)
  }

  ghost predicate TargetBodyAt(turns: seq<Turn>, i: nat, window: uint64)
    requires i < |turns|
  {
    IsTargetBody(Run(Initial, turns[..i], window), turns[i])
  }

  /** A late body that no target's body has followed. */
  ghost predicate LateLast(turns: seq<Turn>, i: nat, window: uint64) {
    i < |turns| && LateAt(turns, i, window) && forall j :: i < j < |turns| ==> !TargetBodyAt(turns, j, window)
  }

  lemma LateLastExtends(turns: seq<Turn>, i: nat, window: uint64)
    requires turns != [] && i < |turns| - 1
    ensures var n := |turns| - 1;
      LateLast(turns, i, window) <==> LateLast(turns[..n], i, window) && !TargetBodyAt(turns, n, window)
  {
    var n := |turns| - 1;
    forall j: nat | j < n
      ensures turns[..n][..j] == turns[..j] && turns[..n][j] == turns[j]
    {
    }
    forall j: nat | j < n
      ensures TargetBodyAt(turns, j, window) <==> TargetBodyAt(turns[..n], j, window)
    {
      assert turns[..n][..j] == turns[..j];
    }
    assert LateAt(turns, i, window) <==> LateAt(turns[..n], i, window);
  }

  /** Over every interleaving a stop is pending while profiling is off exactly when some
      late body has run and no target's body since. */
  lemma {:induction false} PendingWhileOffIff(turns: seq<Turn>, window: uint64)
    ensures PendingWhileOff(Run(Initial, turns, window)) <==> exists i :: LateLast(turns, i, window)
  {
    if turns != [] {
      var n := |turns| - 1;
      PendingWhileOffIff(turns[..n], window);
      PendingStepIff(Run(Initial, turns[..n], window), turns[n], window);
      forall i: nat | i < n
        ensures LateLast(turns, i, window) <==> LateLast(turns[..n], i, window) && !TargetBodyAt(turns, n, window)
      {
        LateLastExtends(turns, i, window);
      }
      assert LateLast(turns, n, window) <==> LateAt(turns, n, window);
      if i: nat :| LateLast(turns[..n], i, window) {
        LateLastExtends(turns, i, window);
      }
    }
  }

  ghost predicate OffAt(turns: seq<Turn>, n: nat, window: uint64)
    requires n <= |turns|
  {
    PendingWhileOff(Run(Initial, turns[..n], window))
  }

  lemma LateMeansOff(turns: seq<Turn>, i: nat, window: uint64)
    requires i < |turns| && LateAt(turns, i, window)
    ensures OffAt(turns, i + 1, window)
  {
    assert turns[..i + 1][..i] == turns[..i];
    PendingStepIff(Run(Initial, turns[..i], window), turns[i], window);
  }

  lemma OffMeansLate(turns: seq<Turn>, n: nat, window: uint64) returns (i: nat)
    requires n <= |turns| && OffAt(turns, n, window)
    ensures i < n && LateAt(turns, i, window)
  {
    PendingWhileOffIff(turns[..n], window);
    i :| LateLast(turns[..n], i, window);
    assert turns[..n][..i] == turns[..i];
  }

  /** So a pending stop implies profiling throughout a run exactly when no late body runs. */
  lemma StopImpliesProfilingIff(turns: seq<Turn>, window: uint64)
    ensures (forall n :: 0 <= n <= |turns| ==> !OffAt(turns, n, window))
      <==> (forall i :: 0 <= i < |turns| ==> !LateAt(turns, i, window))
  {
    if i: nat :| i < |turns| && LateAt(turns, i, window) {
      LateMeansOff(turns, i, window);
    }
    if n: nat :| n <= |turns| && OffAt(turns, n, window) {
      var i := OffMeansLate(turns, n, window);
    }
  }

  /** Such a late body does happen: a dispatch that passed the test while profiling was on
      runs its body after the stop. */
  lemma StopPendingWhileOff() returns (turns: seq<Turn>)
    ensures var c := Run(Initial, turns, 1); !c.isProfiling && c.stopProfiling
  {
    var c2 := Next(Next(Initial, Enter(1, true), 1), EnterBody(1), 1);
    assert c2.phases == map[1 := InFlight] && c2.captured == {1} && c2.count == 1;
    var c4 := Next(Next(c2, Enter(2, false), 1), EnterBody(2), 1);
    assert c4.phases == map[1 := InFlight, 2 := InFlight] && c4.captured == {1} && c4.count == 2;
    var c6 := Next(Next(c4, Enter(3, false), 1), Complete(1), 1);
    assert c6.phases == map[1 := Completing, 2 := InFlight, 3 := Entering(false)];
    var c8 := Next(Next(c6, CompleteBody(1), 1), EnterBody(3), 1);
    RunTwo(Initial, [], Enter(1, true), EnterBody(1), 1);
    turns := [] + [Enter(1, true), EnterBody(1)];
    RunTwo(Initial, turns, Enter(2, false), EnterBody(2), 1);
    turns := turns + [Enter(2, false), EnterBody(2)];
    RunTwo(Initial, turns, Enter(3, false), Complete(1), 1);
    turns := turns + [Enter(3, false), Complete(1)];
    RunTwo(Initial, turns, CompleteBody(1), EnterBody(3), 1);
    turns := turns + [CompleteBody(1), EnterBody(3)];
  }
}
