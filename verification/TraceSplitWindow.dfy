/**
 The capture window with tests and locked bodies apart: the window is counted in locked
 ENTER bodies, and tests, completions and bodies of other dispatches come in between.
 */
module TraceSplitWindow {
  import opened MachineWords
  import opened TraceController

  lemma {:induction false} RunInTurn(c: Controller, turns: seq<Turn>, more: seq<Turn>, window: uint64)
    ensures Run(c, turns + more, window) == Run(Run(c, turns, window), more, window)
  {
    if more == [] {
      assert turns + more == turns;
    } else {
      var n := |more| - 1;
      assert (turns + more)[..|turns + more| - 1] == turns + more[..n];
      RunInTurn(c, turns, more[..n], window);
    }
  }

  /** Dispatches whose locked ENTER body ran between two states. */
  function BodiesSince(c: Controller, e: Controller): set<nat> {
    e.bodyIds - c.bodyIds
  }

  predicate WindowOpen(c: Controller) {
    c.isProfiling && !c.stopProfiling
  }

  /** One turn while the window is open and not used up. */
  lemma TurnInWindow(c: Controller, turn: Turn, window: uint64)
    requires Inv(c) && WindowOpen(c) && window >= 1
    requires |Next(c, turn, window).bodies| > |c.bodies| ==> c.count < window
    ensures var c' := Next(c, turn, window);
      && WindowOpen(c') && |c.bodies| <= |c'.bodies|
      && c'.count <= c.count + |c'.bodies| - |c.bodies|
      && c.ever <= c'.ever && c.bodyIds <= c'.bodyIds && BodiesSince(c, c') <= c'.ever
  {
    if Fits(c, turn) && turn.EnterBody? {
      CounterNeverWraps(c, turn.id);
    }
  }

  /** The histories only grow. */
  lemma {:induction false} BodiesGrow(c: Controller, turns: seq<Turn>, window: uint64)
    ensures |c.bodies| <= |Run(c, turns, window).bodies|
  {
    if turns != [] {
      BodiesGrow(c, turns[..|turns| - 1], window);
    }
  }

  /** From an open window, whatever turns follow: as long as no more bodies run than the
      window has left, every one of them captures its dispatch and tracing goes on. */
  lemma {:induction false} SplitWindowHolds(c: Controller, turns: seq<Turn>, window: uint64)
    requires Inv(c) && WindowOpen(c) && window >= 1
    requires c.count + |Run(c, turns, window).bodies| - |c.bodies| <= window
    ensures var e := Run(c, turns, window);
      && Inv(e) && WindowOpen(e) && e.count <= c.count + |e.bodies| - |c.bodies|
      && c.ever <= e.ever && c.bodyIds <= e.bodyIds && BodiesSince(c, e) <= e.ever
  {
    if turns != [] {
      var before := turns[..|turns| - 1];
      var b := Run(c, before, window);
      var last := turns[|turns| - 1];
      BodiesGrow(c, before, window);
      assert |b.bodies| <= |Next(b, last, window).bodies|;
      SplitWindowHolds(c, before, window);
      TurnInWindow(b, last, window);
      StepKeepsInv(b, last, window);
    }
  }

  /** The captured dispatches may all complete while `spare` waits between its test and
      its body; a pending stop is then taken. */
  lemma {:induction false} DrainAround(c: Controller, spare: nat, window: uint64) returns (turns: seq<Turn>)
    requires Inv(c) && c.isProfiling && c.stopProfiling && c.captured != {} && window >= 1
    requires spare in c.phases && c.phases[spare] == Entering(false)
    ensures var e := Run(c, turns, window);
      && !e.isProfiling && spare in e.phases && e.phases[spare] == Entering(false)
      && e.bodies == c.bodies && e.bodyIds == c.bodyIds && e.ever == c.ever
    decreases |c.captured|
  {
    var d :| d in c.captured;
    assert Open(c, d);
    var c1 := if c.phases[d].InFlight? then Next(c, Complete(d), window) else c;
    var c2 := Next(c1, CompleteBody(d), window);
    turns := if c.phases[d].InFlight? then [Complete(d), CompleteBody(d)] else [CompleteBody(d)];
    RunInTurn(c, turns[..|turns| - 1], [CompleteBody(d)], window);
    OneTurn(c1, CompleteBody(d), window);
    OneTurn(c, Complete(d), window);
    assert turns == turns[..|turns| - 1] + [CompleteBody(d)];
    assert Run(c, turns, window) == c2;
    assert c1.captured == c.captured;
    if c2.isProfiling {
      StepKeepsInv(c, Complete(d), window);
      StepKeepsInv(c1, CompleteBody(d), window);
      assert c2.captured == c.captured - {d};
      var rest := DrainAround(c2, spare, window);
      RunInTurn(c, turns, rest, window);
      turns := turns + rest;
    }
  }

  lemma OneTurn(c: Controller, turn: Turn, window: uint64)
    ensures Run(c, [], window) == c && Run(c, [turn], window) == Next(c, turn, window)
  {
    assert [turn][..0] == [];
  }

  /** With a stop pending, the first body after the target may find tracing off. */
  lemma SplitWindowCut(c: Controller, spare: nat, window: uint64) returns (turns: seq<Turn>)
    requires Inv(c) && c.isProfiling && c.stopProfiling && c.captured != {} && window >= 1
    requires spare < NO_ID && spare !in c.phases
    ensures var e := Run(c, turns, window);
      |e.bodies| == |c.bodies| + 1 && BodiesSince(c, e) == {spare} && spare !in e.ever
  {
    var c1 := Next(c, Enter(spare, false), window);
    StepKeepsInv(c, Enter(spare, false), window);
    var drain := DrainAround(c1, spare, window);
    OneTurn(c, Enter(spare, false), window);
    RunInTurn(c, [Enter(spare, false)], drain, window);
    var c2 := Run(c1, drain, window);
    OneTurn(c2, EnterBody(spare), window);
    RunInTurn(c, [Enter(spare, false)] + drain, [EnterBody(spare)], window);
    turns := [Enter(spare, false)] + drain + [EnterBody(spare)];
  }

  /** The next K-1 locked bodies after c capture their dispatches, whatever comes between. */
  ghost predicate HasWindow(c: Controller, window: uint64) {
    forall turns :: WithinWindow(c, turns, window) ==>
      BodiesSince(c, Run(c, turns, window)) <= Run(c, turns, window).ever
  }

  predicate WithinWindow(c: Controller, turns: seq<Turn>, window: uint64) {
    |Run(c, turns, window).bodies| - |c.bodies| <= window - 1
  }

  /** Over every interleaving of tests and bodies: the locked body of a target captures it,
      and the next K-1 locked bodies capture theirs in every continuation, exactly when no
      stop is pending at the target's body or K is 1. */
  lemma SplitWindowExactIff(before: seq<Turn>, target: nat, spare: nat, window: uint64)
    requires window >= 1 && spare < NO_ID && spare !in Run(Initial, before, window).phases
    requires IsTargetBody(Run(Initial, before, window), EnterBody(target))
    ensures var c := Run(Initial, before, window); var c1 := Next(c, EnterBody(target), window);
      && target in c1.captured
      && (HasWindow(c1, window) <==> !c.stopProfiling || window == 1)
  {
    var c := Run(Initial, before, window);
    SplitSafety(before, window);
    StepKeepsInv(c, EnterBody(target), window);
    var c1 := Next(c, EnterBody(target), window);
    assert c1.isProfiling && c1.count == 1 && c1.stopProfiling == c.stopProfiling;
    if c.stopProfiling && window > 1 {
      var turns := SplitWindowCut(c1, spare, window);
      assert WithinWindow(c1, turns, window);
    } else {
      forall turns | WithinWindow(c1, turns, window)
        ensures BodiesSince(c1, Run(c1, turns, window)) <= Run(c1, turns, window).ever
      {
        if c.stopProfiling {
          NoBodies(c1, turns, window);
        } else {
          SplitWindowHolds(c1, turns, window);
        }
      }
    }
  }

  lemma {:induction false} NoBodies(c: Controller, turns: seq<Turn>, window: uint64)
    requires |Run(c, turns, window).bodies| <= |c.bodies|
    ensures Run(c, turns, window).bodyIds == c.bodyIds
  {
    if turns != [] {
      BodiesGrow(c, turns[..|turns| - 1], window);
      NoBodies(c, turns[..|turns| - 1], window);
    }
  }
}
