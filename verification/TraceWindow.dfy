/**
 The trace controller with each callback as one event: a requested stop always takes
 effect, and exactly when a target can count on its whole window.
 */
module TraceWindow {
  import opened MachineWords
  import opened TraceController

  /** A whole ENTER callback or a whole completion callback. */
  datatype Event = Arrive(id: nat, isTarget: bool) | Finish(id: nat)

  function Happens(c: Controller, e: Event, window: uint64): Controller {
    match e
    case Arrive(id, isTarget) => Next(Next(c, Enter(id, isTarget), window), EnterBody(id), window)
    case Finish(id) => Next(Next(c, Complete(id), window), CompleteBody(id), window)
  }

  function AllHappen(c: Controller, es: seq<Event>, window: uint64): Controller
    decreases |es|
  {
    if es == [] then c else AllHappen(Happens(c, es[0], window), es[1..], window)
  }

  lemma {:induction false} HappenInTurn(c: Controller, es: seq<Event>, fs: seq<Event>, window: uint64)
    ensures AllHappen(c, es + fs, window) == AllHappen(AllHappen(c, es, window), fs, window)
    decreases |es|
  {
    if es == [] {
      assert es + fs == fs;
    } else {
      assert (es + fs)[1..] == es[1..] + fs;
      HappenInTurn(Happens(c, es[0], window), es[1..], fs, window);
    }
  }

  predicate InFlightIn(c: Controller, id: nat) {
    id in c.phases && c.phases[id].InFlight?
  }

  /** Between events no callback is half done, and a pending stop has a dispatch in
      flight that will take it. */
  ghost predicate Settled(c: Controller) {
    Inv(c) && Resting(c)
  }

  ghost predicate Resting(c: Controller) {
    && (forall d :: d in c.phases ==> c.phases[d].InFlight? || c.phases[d].Finished?)
    && (forall d :: d in c.ever ==> d in c.phases)
    && (c.stopProfiling ==> c.isProfiling && exists d :: InFlightIn(c, d))
  }

  /** A whole ENTER callback: ignored, returning early, or running its body. */
  lemma ArriveIs(c: Controller, id: nat, isTarget: bool, window: uint64)
    requires forall d :: d in c.phases ==> !c.phases[d].Entering?
    ensures Happens(c, Arrive(id, isTarget), window) ==
      if !Fits(c, Enter(id, isTarget)) then c
      else if !isTarget && !c.isProfiling then SetPhase(c, id, InFlight)
      else EnterLocked(SetPhase(c, id, Entering(isTarget)), id, isTarget, window)
  {
  }

  lemma HappensKeepsInv(c: Controller, e: Event, window: uint64)
    requires Inv(c) && window >= 1
    ensures Inv(Happens(c, e, window))
  {
    if e.Arrive? {
      StepKeepsInv(c, Enter(e.id, e.isTarget), window);
      StepKeepsInv(Next(c, Enter(e.id, e.isTarget), window), EnterBody(e.id), window);
    } else {
      StepKeepsInv(c, Complete(e.id), window);
      StepKeepsInv(Next(c, Complete(e.id), window), CompleteBody(e.id), window);
    }
  }

  lemma ArriveRests(c: Controller, id: nat, isTarget: bool, window: uint64)
    requires Resting(c)
    ensures Resting(Happens(c, Arrive(id, isTarget), window))
  {
    ArriveIs(c, id, isTarget, window);
    if Fits(c, Enter(id, isTarget)) {
      assert InFlightIn(Happens(c, Arrive(id, isTarget), window), id);
    }
  }

  lemma FinishRests(c: Controller, id: nat, window: uint64)
    requires Resting(c) && SessionOk(c) && SessionOk(Happens(c, Finish(id), window))
    ensures Resting(Happens(c, Finish(id), window))
  {
    var c' := Happens(c, Finish(id), window);
    if Fits(c, Complete(id)) && c'.stopProfiling {
      var d :| d in c'.captured;
      assert Open(c', d);
      assert InFlightIn(c', d);
    }
  }

  lemma HappensKeepsSettled(c: Controller, e: Event, window: uint64)
    requires Settled(c) && window >= 1
    ensures Settled(Happens(c, e, window))
  {
    HappensKeepsInv(c, e, window);
    match e
    case Arrive(id, isTarget) => ArriveRests(c, id, isTarget, window);
    case Finish(id) => FinishRests(c, id, window);
  }

  lemma {:induction false} AllKeepSettled(c: Controller, es: seq<Event>, window: uint64)
    requires Settled(c) && window >= 1
    ensures Settled(AllHappen(c, es, window))
    decreases |es|
  {
    if es != [] {
      HappensKeepsSettled(c, es[0], window);
      AllKeepSettled(Happens(c, es[0], window), es[1..], window);
    }
  }

  /** A stop is only ever pending while profiling, and never once the last outstanding
      dispatch has completed. */
  lemma Quiescence(es: seq<Event>, window: uint64)
    requires window >= 1
    ensures var c := AllHappen(Initial, es, window);
      && Settled(c)
      && (c.stopProfiling ==> c.isProfiling)
      && ((forall d :: !InFlightIn(c, d)) ==> !c.stopProfiling)
  {
    AllKeepSettled(Initial, es, window);
  }

  // ---------------------------------------------------------------- windows

  function Arrivals(es: seq<Event>): nat {
    if es == [] then 0 else (if es[0].Arrive? then 1 else 0) + Arrivals(es[1..])
  }

  ghost predicate Arrived(es: seq<Event>, id: nat) {
    exists i :: 0 <= i < |es| && es[i].Arrive? && es[i].id == id
  }

  predicate NoTargets(es: seq<Event>) {
    forall i :: 0 <= i < |es| && es[i].Arrive? ==> !es[i].isTarget
  }

  /** Every ENTER of the sequence is of a dispatch not seen before. */
  predicate AllFit(c: Controller, es: seq<Event>, window: uint64)
    decreases |es|
  {
    es != [] ==>
      && (es[0].Arrive? ==> es[0].id < NO_ID && es[0].id !in c.phases)
      && AllFit(Happens(c, es[0], window), es[1..], window)
  }

  lemma {:induction false} EverGrows(c: Controller, es: seq<Event>, window: uint64)
    ensures c.ever <= AllHappen(c, es, window).ever
    decreases |es|
  {
    if es != [] {
      EverGrows(Happens(c, es[0], window), es[1..], window);
    }
  }

  /** One event inside an open window: the window stays open and an ENTER is captured. */
  lemma InsideWindow(c: Controller, e: Event, window: uint64)
    requires Resting(c) && c.isProfiling && !c.stopProfiling
    requires window >= 1
    requires e.Arrive? ==> e.id < NO_ID && e.id !in c.phases && c.count < window
    ensures var c' := Happens(c, e, window);
      && c'.isProfiling && !c'.stopProfiling
      && c'.count <= c.count + (if e.Arrive? then 1 else 0)
      && (e.Arrive? ==> e.id in c'.ever)
  {
    if e.Arrive? {
      ArriveIs(c, e.id, e.isTarget, window);
      assert c.count + 1 <= window;
    }
  }

  /** With no stop pending, whatever completions and further targets come between, every
      ENTER up to the K-th since the target is captured and tracing goes on. */
  lemma {:induction false} WindowHolds(c: Controller, es: seq<Event>, window: uint64)
    requires Settled(c) && c.isProfiling && !c.stopProfiling && window >= 1
    requires AllFit(c, es, window) && c.count + Arrivals(es) <= window
    ensures var c' := AllHappen(c, es, window);
      && c'.isProfiling && !c'.stopProfiling
      && forall id :: Arrived(es, id) ==> id in c'.ever
    decreases |es|
  {
    if es != [] {
      var c1 := Happens(c, es[0], window);
      InsideWindow(c, es[0], window);
      HappensKeepsSettled(c, es[0], window);
      WindowHolds(c1, es[1..], window);
      EverGrows(c1, es[1..], window);
      forall id | Arrived(es, id)
        ensures id in AllHappen(c, es, window).ever
      {
        var i :| 0 <= i < |es| && es[i].Arrive? && es[i].id == id;
        if i > 0 {
          assert es[1..][i - 1] == es[i];
          assert Arrived(es[1..], id);
        }
      }
    }
  }

  ghost function Flying(c: Controller): set<nat> {
    set d | d in c.phases && c.phases[d].InFlight?
  }

  predicate OnlyFinishes(es: seq<Event>) {
    forall i :: 0 <= i < |es| ==> es[i].Finish?
  }

  lemma {:induction false} FinishesFit(c: Controller, es: seq<Event>, window: uint64)
    requires OnlyFinishes(es)
    ensures AllFit(c, es, window) && Arrivals(es) == 0
    ensures AllHappen(c, es, window).phases.Keys == c.phases.Keys
    decreases |es|
  {
    if es != [] {
      FinishesFit(Happens(c, es[0], window), es[1..], window);
    }
  }

  /** A completion takes its dispatch out of the air; a pending stop stays pending or
      is taken. */
  lemma FinishLands(c: Controller, d: nat, window: uint64)
    requires Resting(c) && InFlightIn(c, d) && (c.stopProfiling || !c.isProfiling)
    ensures var c' := Happens(c, Finish(d), window);
      Flying(c') == Flying(c) - {d} && (c'.stopProfiling || !c'.isProfiling)
  {
    var c' := Happens(c, Finish(d), window);
    assert c'.phases == c.phases[d := Finished] by {
      assert c.phases[d := Completing][d := Finished] == c.phases[d := Finished];
    }
  }

  /** All outstanding dispatches complete; a pending stop is taken on the way. */
  lemma {:induction false} Drain(c: Controller, window: uint64) returns (es: seq<Event>)
    requires Settled(c) && window >= 1 && (c.stopProfiling || !c.isProfiling)
    ensures OnlyFinishes(es)
    ensures !AllHappen(c, es, window).isProfiling
    decreases |Flying(c)|
  {
    if d :| d in Flying(c) {
      FinishLands(c, d, window);
      HappensKeepsSettled(c, Finish(d), window);
      var rest := Drain(Happens(c, Finish(d), window), window);
      es := [Finish(d)] + rest;
      assert es[1..] == rest;
    } else {
      es := [];
      assert forall d :: InFlightIn(c, d) ==> d in Flying(c);
    }
  }

  lemma {:induction false} FitInTurn(c: Controller, es: seq<Event>, e: Event, window: uint64)
    requires AllFit(c, es, window)
    requires e.Arrive? ==> e.id < NO_ID && e.id !in AllHappen(c, es, window).phases
    ensures AllFit(c, es + [e], window) && Arrivals(es + [e]) == Arrivals(es) + (if e.Arrive? then 1 else 0)
    decreases |es|
  {
    if es == [] {
      assert es + [e] == [e];
    } else {
      assert (es + [e])[1..] == es[1..] + [e];
      FitInTurn(Happens(c, es[0], window), es[1..], e, window);
    }
  }

  /** After a target with a stop pending, the outstanding dispatches may all complete
      before the next ENTER, which is then not captured. */
  lemma WindowCut(c: Controller, spare: nat, window: uint64) returns (es: seq<Event>)
    requires Settled(c) && c.stopProfiling && window >= 2
    requires spare < NO_ID && spare !in c.phases
    ensures AllFit(c, es, window) && NoTargets(es) && Arrivals(es) == 1
    ensures Arrived(es, spare) && spare !in AllHappen(c, es, window).ever
  {
    var drain := Drain(c, window);
    FinishesFit(c, drain, window);
    AllKeepSettled(c, drain, window);
    var c' := AllHappen(c, drain, window);
    es := drain + [Arrive(spare, false)];
    FitInTurn(c, drain, Arrive(spare, false), window);
    HappenInTurn(c, drain, [Arrive(spare, false)], window);
    assert es[|drain|] == Arrive(spare, false);
    assert AllHappen(c', [Arrive(spare, false)], window) == Happens(c', Arrive(spare, false), window);
  }

  /** Two dispatches after a target with K = 2 leave a stop pending. */
  lemma StopCanBePending() returns (es: seq<Event>)
    ensures AllFit(Initial, es, 2) && AllHappen(Initial, es, 2).stopProfiling
  {
    es := [Arrive(1, true), Arrive(2, false), Arrive(3, false)];
    var c1 := Happens(Initial, es[0], 2);
    assert c1.isProfiling && c1.count == 1 && c1.phases == map[1 := InFlight];
    var c2 := Happens(c1, es[1], 2);
    assert c2.isProfiling && c2.count == 2 && c2.phases == map[1 := InFlight, 2 := InFlight];
    assert es[1..] == [es[1], es[2]] && es[2..] == [es[2]] && es[1..][1..] == es[2..] && es[2..][1..] == [];
  }

  /** What may follow a target while its window is still open: any completions, and up to
      K-1 ENTERs of any kernels, targets among them. */
  ghost predicate FollowsTarget(c: Controller, es: seq<Event>, window: uint64) {
    AllFit(c, es, window) && Arrivals(es) <= window - 1
  }

  ghost predicate AllCaptured(c: Controller, es: seq<Event>, window: uint64) {
    forall id :: Arrived(es, id) ==> id in AllHappen(c, es, window).ever
  }

  /** A fresh target is captured and restarts the count; a pending stop stays pending. */
  lemma TargetOpens(c: Controller, target: nat, window: uint64)
    requires forall d :: d in c.phases ==> !c.phases[d].Entering?
    requires window >= 1 && target < NO_ID && target !in c.phases
    ensures var c1 := Happens(c, Arrive(target, true), window);
      && c1.isProfiling && c1.count == 1 && c1.stopProfiling == c.stopProfiling
      && target in c1.ever && c1.phases == c.phases[target := InFlight]
  {
    ArriveIs(c, target, true, window);
    assert c.phases[target := Entering(true)][target := InFlight] == c.phases[target := InFlight];
  }

  /** A target that arrives in a reachable state has its next K-1 ENTERs captured,
      whatever completions interleave and whichever of them are targets, exactly when no
      stop is pending on arrival or K is 1. (`spare` is any further unused id.) */
  lemma WindowExactIff(before: seq<Event>, target: nat, spare: nat, window: uint64)
    requires window >= 1 && target < NO_ID && spare < NO_ID && target != spare
    requires target !in AllHappen(Initial, before, window).phases && spare !in AllHappen(Initial, before, window).phases
    ensures var c := AllHappen(Initial, before, window); var c1 := Happens(c, Arrive(target, true), window);
      && target in c1.ever
      && ((forall es :: FollowsTarget(c1, es, window) ==> AllCaptured(c1, es, window))
          <==> !c.stopProfiling || window == 1)
  {
    var c := AllHappen(Initial, before, window);
    AllKeepSettled(Initial, before, window);
    var c1 := Happens(c, Arrive(target, true), window);
    HappensKeepsSettled(c, Arrive(target, true), window);
    TargetOpens(c, target, window);
    if c.stopProfiling && window > 1 {
      var es := WindowCut(c1, spare, window);
      assert FollowsTarget(c1, es, window) && !AllCaptured(c1, es, window);
    } else {
      forall es | FollowsTarget(c1, es, window)
        ensures AllCaptured(c1, es, window)
      {
        if window == 1 {
          if id :| Arrived(es, id) {
            ArrivedCounts(es, id);
          }
        } else {
          WindowHolds(c1, es, window);
        }
      }
    }
  }

  lemma {:induction false} ArrivedCounts(es: seq<Event>, id: nat)
    requires Arrived(es, id)
    ensures Arrivals(es) >= 1
  {
    var i :| 0 <= i < |es| && es[i].Arrive? && es[i].id == id;
    if i > 0 {
      assert es[1..][i - 1] == es[i];
      ArrivedCounts(es[1..], id);
    }
  }
}
