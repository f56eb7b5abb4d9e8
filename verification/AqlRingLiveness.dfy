/**
 Progress of the submission ring. It is never stuck. Under any schedule that keeps giving
 every thread and the packet processor a turn, every call returns and every reserved
 index is consumed, also while other threads go on submitting and also when a call has
 more packets than the queue has slots. If the calls cease, the ring drains.
 */
module AqlRingLiveness {
  import opened MachineWords
  import opened AqlRing
  import opened AqlRingProof
  import opened AqlRingTheorems

  /** Turns a thread still needs, weighted so that a reservation costs more than the
      packet it adds for the GPU. */
  function Work(t: Thread): int {
    var left := 21 * (|t.packets| - t.pos);
    match t.pc
    case Idle => 0
    case Aborted => 0
    case Loop => left + 1
    case Spin => left - 1
    case Copy(j) => left - 2 - j
    case Bell => left - 18
  }

  function TotalWork(threads: seq<Thread>): int {
    if threads == [] then 0 else TotalWork(threads[..|threads| - 1]) + Work(threads[|threads| - 1])
  }

  lemma {:induction false} WorkUpdate(threads: seq<Thread>, i: nat, t: Thread)
    requires i < |threads|
    ensures TotalWork(threads[i := t]) == TotalWork(threads) - Work(threads[i]) + Work(t)
  {
    var n := |threads| - 1;
    if i == n {
      assert threads[i := t][..n] == threads[..n];
    } else {
      assert threads[i := t][..n] == threads[..n][i := t];
      WorkUpdate(threads[..n], i, t);
    }
  }

  lemma {:induction false} WorkIsNatural(threads: seq<Thread>)
    requires forall i :: 0 <= i < |threads| ==> Work(threads[i]) >= 0
    ensures TotalWork(threads) >= 0
  {
    if threads != [] {
      WorkIsNatural(threads[..|threads| - 1]);
    }
  }

  /** All turns still to be taken before everything is finished. */
  function Measure(s: Ring): int {
    TotalWork(s.threads) + |s.issued| - |s.consumed|
  }

  lemma MeasureIsNatural(s: Ring)
    requires Inv(s)
    ensures Measure(s) >= 0
  {
    forall i | 0 <= i < |s.threads|
      ensures Work(s.threads[i]) >= 0
    {
      assert TicketsOk(s.issued, i, s.threads[i]) && CopyOk(s, s.threads[i]);
    }
    WorkIsNatural(s.threads);
  }

  /** A turn that is not a call either changes nothing or uses up some of the measure. */
  lemma TurnDecreases(s: Ring, turn: Turn)
    requires Inv(s) && !turn.Call?
    ensures |Next(s, turn).threads| == |s.threads|
    ensures Next(s, turn) == s || Measure(Next(s, turn)) < Measure(s)
  {
    if turn.Gpu? {
      GpuConsumes(s, turn.reset);
    } else if turn.id < |s.threads| {
      HostDecreases(s, turn.id);
    }
  }

  lemma HostDecreases(s: Ring, id: nat)
    requires Inv(s) && id < |s.threads|
    ensures |ThreadStep(s, id).threads| == |s.threads|
    ensures ThreadStep(s, id) == s || Measure(ThreadStep(s, id)) < Measure(s)
  {
    var s' := ThreadStep(s, id);
    var t := s.threads[id];
    assert TicketsOk(s.issued, id, t) && CopyOk(s, t);
    if s' != s {
      assert s'.threads == s.threads[id := s'.threads[id]];
      WorkUpdate(s.threads, id, s'.threads[id]);
    }
  }

  /** Who can act: a thread by its number, or the packet processor. */
  datatype Actor = Host(id: nat) | Device

  predicate ActsIn(a: Actor, turn: Turn) {
    match a
    case Host(id) => turn == Step(id)
    case Device => turn.Gpu?
  }

  /** The actor can change the state, whatever header value the device writes back. */
  ghost predicate Enabled(s: Ring, a: Actor)
    requires Operable(s)
  {
    forall turn :: ActsIn(a, turn) ==> Next(s, turn) != s
  }

  /** In every reachable state with an index reserved but not taken, either the thread
      that reserved the index at the read position or the packet processor can act. */
  lemma NeverStuck(s: Ring)
    requires Inv(s) && Taken(s) < Reserved(s)
    ensures if Stored(s, Taken(s)) then Enabled(s, Device) else Enabled(s, Host(s.issued[Taken(s)].owner))
  {
    var r := Taken(s);
    if Stored(s, r) {
      forall turn | ActsIn(Device, turn)
        ensures Next(s, turn) != s
      {
        GpuConsumes(s, turn.reset);
      }
    } else {
      var id := s.issued[r].owner;
      var t := s.threads[id];
      assert Holds(t, r);
      assert TicketsOk(s.issued, id, t) && CopyOk(s, t);
      PollIsExact(s, r, t.writeIdx);
      assert ThreadStep(s, id).threads[id] != t;
    }
  }

  /** Unless all is finished, someone can act. */
  lemma SomeoneEnabled(s: Ring) returns (a: Actor)
    requires Inv(s) && !Finished(s)
    ensures a.Host? ==> a.id < |s.threads|
    ensures Enabled(s, a)
  {
    if Taken(s) < Reserved(s) {
      NeverStuck(s);
      a := if Stored(s, Taken(s)) then Device else Host(s.issued[Taken(s)].owner);
    } else {
      var id :| 0 <= id < |s.threads| && !s.threads[id].pc.Idle? && !s.threads[id].pc.Aborted?;
      var t := s.threads[id];
      assert TicketsOk(s.issued, id, t) && CopyOk(s, t);
      a := Host(id);
      assert t.pc.Loop? || t.pc.Bell?;
      assert ThreadStep(s, id).threads[id] != t;
    }
  }

  // ------------------------------------------------------------------ endless runs

  /** An endless run from a fresh queue: state n + 1 follows from state n by turn n, and
      threads may begin new calls at any time. */
  ghost predicate IsRun(states: nat -> Ring, schedule: nat -> Turn) {
    && IsFresh(states(0))
    && forall n: nat :: Operable(states(n)) && Legal(schedule(n)) && states(n + 1) == Next(states(n), schedule(n))
  }

  ghost predicate ActsAfter(schedule: nat -> Turn, a: Actor, n: nat, m: nat) {
    n <= m && ActsIn(a, schedule(m))
  }

  ghost predicate ActsAgain(schedule: nat -> Turn, a: Actor, n: nat) {
    exists m: nat :: ActsAfter(schedule, a, n, m)
  }

  /** Every thread and the packet processor act again and again. */
  ghost predicate Fair(schedule: nat -> Turn, threads: nat) {
    forall a: Actor, n: nat :: (a.Host? ==> a.id < threads) ==> ActsAgain(schedule, a, n)
  }

  ghost predicate NoCallsFrom(schedule: nat -> Turn, n: nat) {
    forall i: nat :: i >= n ==> !schedule(i).Call?
  }

  lemma {:induction false} RunKeeps(states: nat -> Ring, schedule: nat -> Turn, n: nat)
    requires IsRun(states, schedule)
    ensures Inv(states(n)) && |states(n).threads| == |states(0).threads|
  {
    if n == 0 {
      FreshInv(states(0));
    } else {
      RunKeeps(states, schedule, n - 1);
      StepKeepsInv(states(n - 1), schedule(n - 1));
      assert states(n - 1 + 1) == Next(states(n - 1), schedule(n - 1));
    }
  }

  // ------------------------------------------------- every index is consumed

  /** What a turn does to a reserved index: its packet and owner stay, and nothing is
      ever un-stored or un-consumed. */
  lemma SlipKept(s: Ring, turn: Turn, n: nat)
    requires Inv(s) && Legal(turn) && n < Reserved(s)
    ensures var s' := Next(s, turn);
      && n < Reserved(s') && Taken(s) <= Taken(s')
      && s'.issued[n].packet == s.issued[n].packet && s'.issued[n].owner == s.issued[n].owner
      && (s.issued[n].stored ==> s'.issued[n].stored)
  {
    if turn.Gpu? {
      GpuConsumes(s, turn.reset);
    }
  }

  lemma {:induction false} SlipStays(states: nat -> Ring, schedule: nat -> Turn, n: nat, i: nat, k: nat)
    requires IsRun(states, schedule) && i <= k && n < Reserved(states(i))
    ensures n < Reserved(states(k)) && Taken(states(i)) <= Taken(states(k))
    ensures states(k).issued[n].packet == states(i).issued[n].packet
    decreases k
  {
    if i < k {
      SlipStays(states, schedule, n, i, k - 1);
      RunKeeps(states, schedule, k - 1);
      SlipKept(states(k - 1), schedule(k - 1), n);
      assert states(k - 1 + 1) == Next(states(k - 1), schedule(k - 1));
    }
  }

  /** Turns the index at the read position still needs from its mover before it is taken. */
  function PcStage(pc: Pc): nat {
    match pc
    case Spin => 18
    case Copy(j) => if j <= 15 then 17 - j else 2
    case _ => 2
  }

  function Stage(s: Ring, n: nat): nat
    requires n < Reserved(s)
  {
    if n < Taken(s) then 0
    else if s.issued[n].stored || s.issued[n].owner >= |s.threads| then 1
    else PcStage(s.threads[s.issued[n].owner].pc)
  }

  /** Who has to act for the index at the read position. */
  function Mover(s: Ring, n: nat): Actor
    requires n < Reserved(s)
  {
    if s.issued[n].stored then Device else Host(s.issued[n].owner)
  }

  /** The mover brings its index on, and nobody sets it back, new calls included. */
  lemma StageStep(s: Ring, turn: Turn, n: nat)
    requires Inv(s) && Legal(turn) && Taken(s) == n < Reserved(s)
    ensures n < Reserved(Next(s, turn))
    ensures var s' := Next(s, turn);
      && (Stage(s', n) < Stage(s, n)
          || (Stage(s', n) == Stage(s, n) && Mover(s', n) == Mover(s, n) && !ActsIn(Mover(s, n), turn)))
      && (Stage(s', n) == 0 <==> Taken(s') > n)
      && Taken(s') >= n
  {
    SlipKept(s, turn, n);
    match turn
    case Gpu(reset) => GpuConsumes(s, reset);
    case Call(_, _, _) => assert s.issued[n].stored || Holds(s.threads[s.issued[n].owner], n);
    case Step(id) => HostStage(s, id, n);
  }

  lemma HostStage(s: Ring, id: nat, n: nat)
    requires Inv(s) && Taken(s) == n < Reserved(s)
    ensures n < Reserved(ThreadStep(s, id)) && Taken(ThreadStep(s, id)) == n
    ensures var s' := ThreadStep(s, id);
      && Stage(s', n) > 0
      && (Stage(s', n) < Stage(s, n)
          || (Stage(s', n) == Stage(s, n) && Mover(s', n) == Mover(s, n) && Mover(s, n) != Host(id)))
  {
    if !s.issued[n].stored {
      var owner := s.issued[n].owner;
      var t := s.threads[owner];
      assert Holds(t, n);
      assert TicketsOk(s.issued, owner, t) && CopyOk(s, t);
      PollIsExact(s, n, t.writeIdx);
      if id != owner && id < |s.threads| {
        assert TicketsOk(s.issued, id, s.threads[id]);
      }
    }
  }

  lemma {:induction false} StageDrops(states: nat -> Ring, schedule: nat -> Turn, i: nat, n: nat, m: nat) returns (k: nat)
    requires IsRun(states, schedule) && Taken(states(i)) == n < Reserved(states(i))
    requires ActsAfter(schedule, Mover(states(i), n), i, m)
    ensures k > i && n < Reserved(states(k)) && Taken(states(k)) >= n
    ensures Stage(states(k), n) < Stage(states(i), n)
    decreases m - i
  {
    RunKeeps(states, schedule, i);
    StageStep(states(i), schedule(i), n);
    assert states(i + 1) == Next(states(i), schedule(i));
    if Stage(states(i + 1), n) < Stage(states(i), n) {
      k := i + 1;
    } else {
      k := StageDrops(states, schedule, i + 1, n, m);
    }
  }

  /** Whenever an index is outstanding, the read position moves on. */
  lemma {:induction false} TakenAdvances(states: nat -> Ring, schedule: nat -> Turn, i: nat, n: nat) returns (k: nat)
    requires IsRun(states, schedule) && Fair(schedule, |states(0).threads|)
    requires Taken(states(i)) == n < Reserved(states(i))
    ensures k > i && Taken(states(k)) > n
    decreases Stage(states(i), n)
  {
    RunKeeps(states, schedule, i);
    var a := Mover(states(i), n);
    assert a.Host? ==> Holds(states(i).threads[a.id], n);
    assert ActsAgain(schedule, a, i);
    var m: nat :| ActsAfter(schedule, a, i, m);
    k := StageDrops(states, schedule, i, n, m);
    if Taken(states(k)) == n {
      k := TakenAdvances(states, schedule, k, n);
    }
  }

  lemma {:induction false} TakenReaches(states: nat -> Ring, schedule: nat -> Turn, i: nat, n: nat) returns (k: nat)
    requires IsRun(states, schedule) && Fair(schedule, |states(0).threads|)
    requires n < Reserved(states(i))
    ensures k >= i && Taken(states(k)) > n
    decreases n + 1 - Taken(states(i))
  {
    if Taken(states(i)) > n {
      k := i;
    } else {
      var j := TakenAdvances(states, schedule, i, Taken(states(i)));
      SlipStays(states, schedule, n, i, j);
      k := TakenReaches(states, schedule, j, n);
    }
  }

  /** On every fair run, whatever calls begin meanwhile, each reserved index is consumed,
      with the packet it was reserved for. */
  lemma EveryIndexConsumed(states: nat -> Ring, schedule: nat -> Turn, i: nat, n: nat) returns (k: nat)
    requires IsRun(states, schedule) && Fair(schedule, |states(0).threads|)
    requires n < Reserved(states(i))
    ensures k >= i && n < Taken(states(k))
    ensures states(k).consumed[n] == states(i).issued[n].packet
  {
    k := TakenReaches(states, schedule, i, n);
    SlipStays(states, schedule, n, i, k);
    RunKeeps(states, schedule, k);
  }

  // ------------------------------------------------------- every call returns

  predicate InSubmit(t: Thread) {
    !t.pc.Idle? && !t.pc.Aborted?
  }

  /** Only its own turns change a thread that is inside `Submit`, and they use up its work. */
  lemma OnlyOwnTurns(s: Ring, turn: Turn, id: nat)
    requires Inv(s) && Legal(turn) && id < |s.threads| && InSubmit(s.threads[id])
    ensures var t, t' := s.threads[id], Next(s, turn).threads[id];
      && (t' == t || (Work(t') < Work(t) && t'.packets == t.packets && t'.asked == t.asked && !t'.pc.Aborted?))
      && (turn == Step(id) && (t.pc.Loop? || t.pc.Bell?) ==> t' != t)
    ensures Work(s.threads[id]) > 0
  {
    if turn.Step? {
      HostTurns(s, turn.id, id);
    } else {
      assert TicketsOk(s.issued, id, s.threads[id]) && CopyOk(s, s.threads[id]);
    }
  }

  lemma HostTurns(s: Ring, actor: nat, id: nat)
    requires Inv(s) && id < |s.threads| && InSubmit(s.threads[id])
    ensures var t, t' := s.threads[id], Next(s, Step(actor)).threads[id];
      && (t' == t || (Work(t') < Work(t) && t'.packets == t.packets && t'.asked == t.asked && !t'.pc.Aborted?))
      && (actor == id && (t.pc.Loop? || t.pc.Bell?) ==> t' != t)
    ensures Work(s.threads[id]) > 0
  {
    assert TicketsOk(s.issued, id, s.threads[id]) && CopyOk(s, s.threads[id]);
    if actor != id {
      StepsApart(s, actor, id);
    }
  }

  lemma StepsApart(s: Ring, actor: nat, id: nat)
    requires Operable(s) && id < |s.threads| && actor != id
    ensures Next(s, Step(actor)).threads[id] == s.threads[id]
  {
  }

  lemma {:induction false} FirstChange(states: nat -> Ring, schedule: nat -> Turn, id: nat, i: nat, k: nat) returns (j: nat)
    requires IsRun(states, schedule) && i <= k
    requires id < |states(i).threads| && |states(k).threads| == |states(i).threads|
    requires InSubmit(states(i).threads[id]) && states(k).threads[id] != states(i).threads[id]
    ensures j > i && |states(j).threads| == |states(i).threads|
    ensures var t, t' := states(i).threads[id], states(j).threads[id];
      Work(t') < Work(t) && t'.packets == t.packets && t'.asked == t.asked && !t'.pc.Aborted?
    decreases k - i
  {
    RunKeeps(states, schedule, i);
    OnlyOwnTurns(states(i), schedule(i), id);
    assert states(i + 1) == Next(states(i), schedule(i));
    if states(i + 1).threads[id] != states(i).threads[id] {
      j := i + 1;
    } else {
      j := FirstChange(states, schedule, id, i + 1, k);
    }
  }

  /** A thread inside `Submit` gets on: at once when it is due, and out of the wait loop
      and the copy because its index is consumed sooner or later. */
  lemma GetsOn(states: nat -> Ring, schedule: nat -> Turn, id: nat, i: nat) returns (k: nat)
    requires IsRun(states, schedule) && Fair(schedule, |states(0).threads|)
    requires id < |states(i).threads| && InSubmit(states(i).threads[id])
    ensures k >= i && |states(k).threads| == |states(i).threads|
    ensures states(k).threads[id] != states(i).threads[id]
  {
    RunKeeps(states, schedule, i);
    var t := states(i).threads[id];
    assert TicketsOk(states(i).issued, id, t);
    if t.pc.Spin? || t.pc.Copy? {
      k := TakenReaches(states, schedule, i, Last(t.tickets));
      RunKeeps(states, schedule, k);
      assert TicketsOk(states(k).issued, id, states(k).threads[id]);
    } else {
      assert ActsAgain(schedule, Host(id), i);
      k :| ActsAfter(schedule, Host(id), i, k);
      RunKeeps(states, schedule, k);
      if states(k).threads[id] == t {
        OnlyOwnTurns(states(k), schedule(k), id);
        assert states(k + 1) == Next(states(k), schedule(k));
        k := k + 1;
      }
    }
  }

  /** On every fair run, whatever calls begin meanwhile, each outstanding `Submit` returns:
      the thread becomes idle in that very call. */
  lemma {:induction false} EveryCallReturns(states: nat -> Ring, schedule: nat -> Turn, id: nat, i: nat) returns (k: nat)
    requires IsRun(states, schedule) && Fair(schedule, |states(0).threads|)
    requires id < |states(i).threads| && InSubmit(states(i).threads[id])
    ensures k > i && |states(k).threads| == |states(i).threads| && states(k).threads[id].pc.Idle?
    ensures states(k).threads[id].packets == states(i).threads[id].packets
    ensures states(k).threads[id].asked == states(i).threads[id].asked
    decreases if Work(states(i).threads[id]) < 0 then 0 else Work(states(i).threads[id])
  {
    RunKeeps(states, schedule, i);
    OnlyOwnTurns(states(i), schedule(i), id);
    var j := GetsOn(states, schedule, id, i);
    k := FirstChange(states, schedule, id, i, j);
    if !states(k).threads[id].pc.Idle? {
      k := EveryCallReturns(states, schedule, id, k);
    }
  }

  // ------------------------------------------------------------ the ring drains

  /** An enabled actor acts sooner or later, so the measure sinks once calls have ceased. */
  lemma {:induction false} Sinks(states: nat -> Ring, schedule: nat -> Turn, n: nat, a: Actor, m: nat) returns (k: nat)
    requires IsRun(states, schedule) && NoCallsFrom(schedule, n)
    requires Enabled(states(n), a) && ActsAfter(schedule, a, n, m)
    ensures k > n && Measure(states(k)) < Measure(states(n))
    decreases m - n
  {
    RunKeeps(states, schedule, n);
    TurnDecreases(states(n), schedule(n));
    assert states(n + 1) == Next(states(n), schedule(n));
    if states(n + 1) != states(n) {
      k := n + 1;
    } else {
      k := Sinks(states, schedule, n + 1, a, m);
    }
  }

  /** On every fair run whose calls cease, every call ends and the GPU takes every packet. */
  lemma {:induction false} FairlyFinishes(states: nat -> Ring, schedule: nat -> Turn, n: nat) returns (k: nat)
    requires IsRun(states, schedule) && Fair(schedule, |states(0).threads|) && NoCallsFrom(schedule, n)
    ensures k >= n && Finished(states(k))
    decreases if Measure(states(n)) < 0 then 0 else Measure(states(n))
  {
    RunKeeps(states, schedule, n);
    MeasureIsNatural(states(n));
    if Finished(states(n)) {
      k := n;
    } else {
      var a := SomeoneEnabled(states(n));
      assert ActsAgain(schedule, a, n);
      var m: nat :| ActsAfter(schedule, a, n, m);
      var n' := Sinks(states, schedule, n, a, m);
      RunKeeps(states, schedule, n');
      MeasureIsNatural(states(n'));
      k := FairlyFinishes(states, schedule, n');
    }
  }
}
