/**
 The collection schedule: a queue of periods, each a delay, a start, a duration and a
 stop, executed once or `repeat` times.
 */
module CollectionPeriods {
  import opened MachineWords

  datatype Period = Period(delay: uint64, duration: uint64, repeat: uint64)

  datatype Act = Delay(ns: uint64) | Start | Duration(ns: uint64) | Stop

  /** Rounds of a period; 0 repeats is one round. */
  function Rounds(p: Period): nat {
    if p.repeat == 0 then 1 else p.repeat
  }

  function Round(p: Period): seq<Act> {
    [Delay(p.delay), Start, Duration(p.duration), Stop]
  }

  function Repeated(p: Period, rounds: nat): seq<Act> {
    if rounds == 0 then [] else Repeated(p, rounds - 1) + Round(p)
  }

  /** What the whole queue is meant to do, in order. */
  function Schedule(periods: seq<Period>): seq<Act> {
    if periods == [] then []
    else Schedule(periods[..|periods| - 1]) + Repeated(periods[|periods| - 1], Rounds(periods[|periods| - 1]))
  }

  /** One collection as an observer sees it: the time spent stopped before it and the time
      spent collecting. */
  datatype Session = Session(waited: nat, collected: nat)

  /** What an observer of the context has seen: whether it is collecting, whether every
      start and stop came in turn, the time slept since the last start or stop while
      stopped and while collecting, and the sessions so far. */
  datatype Observed = Observed(on: bool, orderly: bool, waited: nat, collected: nat, log: seq<Session>)

  function Observe(acts: seq<Act>): Observed {
    if acts == [] then Observed(false, true, 0, 0, [])
    else
      var o := Observe(acts[..|acts| - 1]);
      match acts[|acts| - 1]
      case Delay(ns) => Sleep(o, ns)
      case Duration(ns) => Sleep(o, ns)
      case Start => o.(on := true, orderly := o.orderly && !o.on)
      case Stop =>
        Observed(false, o.orderly && o.on, 0, 0, o.log + [Session(o.waited, o.collected)])
  }

  function Sleep(o: Observed, ns: uint64): Observed {
    if o.on then o.(collected := o.collected + ns) else o.(waited := o.waited + ns)
  }

  function Max(a: nat, b: nat): nat {
    if a < b then b else a
  }

  /** The sessions the periods ask for. */
  function Sessions(periods: seq<Period>): seq<Session> {
    if periods == [] then []
    else
      var p := periods[|periods| - 1];
      Sessions(periods[..|periods| - 1]) + seq(Max(1, p.repeat), _ => Session(p.delay, p.duration))
  }

  lemma ObserveRound(acts: seq<Act>, p: Period)
    requires var o := Observe(acts); !o.on && o.waited == 0 && o.collected == 0
    ensures var o := Observe(acts);
      Observe(acts + Round(p)) == Observed(false, o.orderly, 0, 0, o.log + [Session(p.delay, p.duration)])
  {
    var r := Round(p);
    forall k | 0 <= k < 4
      ensures (acts + r[..k + 1])[..|acts| + k] == acts + r[..k]
    {
    }
    assert acts + r[..0] == acts && acts + r[..4] == acts + r;
    var o := Observe(acts);
    assert Observe(acts + r[..1]) == o.(waited := p.delay);
    assert Observe(acts + r[..2]) == o.(waited := p.delay, on := true);
    assert Observe(acts + r[..3]) == o.(waited := p.delay, on := true, collected := p.duration);
  }

  lemma {:induction false} ObserveRepeated(acts: seq<Act>, p: Period, rounds: nat)
    requires var o := Observe(acts); !o.on && o.waited == 0 && o.collected == 0
    ensures var o := Observe(acts);
      Observe(acts + Repeated(p, rounds))
        == Observed(false, o.orderly, 0, 0, o.log + seq(rounds, _ => Session(p.delay, p.duration)))
  {
    var o := Observe(acts);
    if rounds == 0 {
      assert acts + [] == acts;
      assert o.log + seq(0, _ => Session(p.delay, p.duration)) == o.log;
    } else {
      ObserveRepeated(acts, p, rounds - 1);
      ObserveRound(acts + Repeated(p, rounds - 1), p);
      assert acts + Repeated(p, rounds) == acts + Repeated(p, rounds - 1) + Round(p);
      assert o.log + seq(rounds - 1, _ => Session(p.delay, p.duration)) + [Session(p.delay, p.duration)]
        == o.log + seq(rounds, _ => Session(p.delay, p.duration));
    }
  }

  /** Starts and stops alternate, the run ends stopped, and the sessions are those the
      periods ask for, in order: max(1, repeat) times the delay of a period while stopped
      and then its duration while collecting. */
  lemma {:induction false} ScheduleIsOrderly(periods: seq<Period>)
    ensures Observe(Schedule(periods)) == Observed(false, true, 0, 0, Sessions(periods))
  {
    if periods != [] {
      var n := |periods| - 1;
      ScheduleIsOrderly(periods[..n]);
      ObserveRepeated(Schedule(periods[..n]), periods[n], Rounds(periods[n]));
    }
  }

  function Waited(log: seq<Session>): nat {
    if log == [] then 0 else Waited(log[..|log| - 1]) + log[|log| - 1].waited
  }

  function Collected(log: seq<Session>): nat {
    if log == [] then 0 else Collected(log[..|log| - 1]) + log[|log| - 1].collected
  }

  function TotalDelay(periods: seq<Period>): nat {
    if periods == [] then 0
    else TotalDelay(periods[..|periods| - 1]) + Max(1, periods[|periods| - 1].repeat) * periods[|periods| - 1].delay
  }

  function TotalActive(periods: seq<Period>): nat {
    if periods == [] then 0
    else TotalActive(periods[..|periods| - 1]) + Max(1, periods[|periods| - 1].repeat) * periods[|periods| - 1].duration
  }

  lemma {:induction false} AddSessions(log: seq<Session>, s: Session, n: nat)
    ensures Waited(log + seq(n, _ => s)) == Waited(log) + n * s.waited
    ensures Collected(log + seq(n, _ => s)) == Collected(log) + n * s.collected
  {
    if n == 0 {
      assert log + seq(0, _ => s) == log;
    } else {
      AddSessions(log, s, n - 1);
      var after := log + seq(n, _ => s);
      assert after[..|after| - 1] == log + seq(n - 1, _ => s);
      OneMore(n, s.waited);
      OneMore(n, s.collected);
    }
  }

  lemma OneMore(n: int, x: int)
    ensures n * x == (n - 1) * x + x
  {
  }

  /** The total time collecting is the sum of max(1, repeat) * duration, and the total time
      stopped before collections that of max(1, repeat) * delay. */
  lemma {:induction false} TotalTimes(periods: seq<Period>)
    ensures Collected(Observe(Schedule(periods)).log) == TotalActive(periods)
    ensures Waited(Observe(Schedule(periods)).log) == TotalDelay(periods)
  {
    ScheduleIsOrderly(periods);
    if periods != [] {
      var n := |periods| - 1;
      ScheduleIsOrderly(periods[..n]);
      TotalTimes(periods[..n]);
      AddSessions(Sessions(periods[..n]), Session(periods[n].delay, periods[n].duration), Max(1, periods[n].repeat));
    }
  }

  /** The thread that drains the queue of periods. */
  method CollectionPeriodControl(queue: seq<Period>) returns (acts: seq<Act>)
    ensures acts == Schedule(queue)
  {
    acts := [];
    var periods := queue;
    ghost var done := 0;
    while periods != []
      invariant 0 <= done <= |queue| && periods == queue[done..]
      invariant acts == Schedule(queue[..done])
      decreases |periods|
    {
      var period := periods[0];
      periods := periods[1..];
      assert queue[..done + 1][..done] == queue[..done];
      ghost var before := acts;
      if period.repeat == 0 {
        acts := acts + Round(period);
        assert Repeated(period, 1) == [] + Round(period);
      } else {
        var i := 0;
        assert before == before + [];
        while i < period.repeat
          invariant 0 <= i <= period.repeat
          invariant acts == before + Repeated(period, i)
        {
          acts := acts + Round(period);
          i := i + 1;
        }
      }
      done := done + 1;
    }
    assert queue[..done] == queue;
  }
}
