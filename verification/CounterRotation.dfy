/**
 Rotation of counter profiles: every targeted dispatch on an agent takes the next value
 of that agent's counter and the profile at `(value / rotation) % number of profiles`.
 */
module CounterRotation {
  import opened MachineWords
  import opened KernelTargets

  /** The index of the profile that the i-th use of an agent takes, counting from 0. */
  function ProfileAt(i: nat, rotation: nat, profiles: nat): (j: nat)
    requires rotation > 0 && profiles > 0
    ensures j < profiles
  {
    (i / rotation) % profiles
  }

  /** How often profile j is taken by the first n uses. */
  function Uses(n: nat, j: nat, rotation: nat, profiles: nat): nat
    requires rotation > 0 && profiles > 0
  {
    if n == 0 then 0
    else Uses(n - 1, j, rotation, profiles) + (if ProfileAt(n - 1, rotation, profiles) == j then 1 else 0)
  }

  function Clamp(x: int, hi: nat): nat {
    if x < 0 then 0 else if x > hi then hi else x
  }

  // ---------------------------------------------------- mixed-radix arithmetic

  lemma Distribute(a: int, b: int, c: int)
    ensures (a + b) * c == a * c + b * c
  {
  }

  lemma Below(j: nat, k: nat, rotation: nat)
    requires j <= k
    ensures j * rotation <= k * rotation
  {
    Distribute(j, k - j, rotation);
  }

  /** The value written with the digits turn, block and offset, and its digits again. */
  lemma ValueOfDigits(turn: nat, block: nat, offset: nat, rotation: nat, profiles: nat) returns (i: nat)
    requires block < profiles && offset < rotation
    ensures i == (turn * profiles + block) * rotation + offset
    ensures i == turn * (rotation * profiles) + block * rotation + offset
    ensures rotation * profiles > 0
    ensures i / (rotation * profiles) == turn && i % (rotation * profiles) == block * rotation + offset
  {
    Below(0, block, rotation);
    AtLeastOnce(profiles, rotation);
    Below(0, turn, rotation * profiles);
    i := turn * (rotation * profiles) + block * rotation + offset;
    Distribute(turn * profiles, block, rotation);
    Regroup(turn, profiles, rotation);
    BlockFits(block, profiles, rotation);
    Quotient(i, rotation * profiles, turn, block * rotation + offset);
  }

  lemma Divided(i: nat, m: nat) returns (q: nat, r: nat)
    requires m > 0
    ensures q == i / m && r == i % m && i == q * m + r && r < m
  {
    q, r := i / m, i % m;
  }

  /** i = turn * (rotation * profiles) + block * rotation + offset. */
  lemma Digits(i: nat, rotation: nat, profiles: nat) returns (turn: nat, block: nat, offset: nat)
    requires rotation > 0 && profiles > 0
    ensures rotation * profiles > 0
    ensures block < profiles && offset < rotation
    ensures i == turn * (rotation * profiles) + block * rotation + offset
    ensures i / (rotation * profiles) == turn && i % (rotation * profiles) == block * rotation + offset
    ensures ProfileAt(i, rotation, profiles) == block
  {
    var b: nat;
    b, offset := Divided(i, rotation);
    turn, block := Divided(b, profiles);
    var j := ValueOfDigits(turn, block, offset, rotation, profiles);
  }

  lemma BlockFits(block: nat, profiles: nat, rotation: nat)
    requires block < profiles
    ensures block * rotation + rotation <= rotation * profiles
  {
    Distribute(block, 1, rotation);
    Distribute(block + 1, profiles - block - 1, rotation);
    Below(0, profiles - block - 1, rotation);
  }

  // ------------------------------------------------------------------ fairness

  /** What profile j has had when `turns` full turns and r uses of the next are over. */
  function Share(turns: nat, r: nat, j: nat, rotation: nat): int {
    turns * rotation + Clamp(r - j * rotation, rotation)
  }

  /** The use with the digits turn, block and offset adds to the share of its block. */
  lemma ShareStep(turn: nat, block: nat, offset: nat, j: nat, rotation: nat, profiles: nat)
    requires block < profiles && offset < rotation && j < profiles
    ensures var r := block * rotation + offset; var n := turn * (rotation * profiles) + r;
      && 0 <= r < rotation * profiles && n >= 0
      && (n + 1) / (rotation * profiles) >= 0
      && Share((n + 1) / (rotation * profiles), (n + 1) % (rotation * profiles), j, rotation)
         == Share(turn, r, j, rotation) + (if block == j then 1 else 0)
  {
    var period := rotation * profiles;
    BlockFits(block, profiles, rotation);
    BlockFits(j, profiles, rotation);
    Below(0, block, rotation);
    Below(0, turn, period);
    ClampStep(block, offset, j, rotation);
    var r := block * rotation + offset;
    if r + 1 < period {
      Quotient(turn * period + r + 1, period, turn, r + 1);
    } else {
      Distribute(turn, 1, period);
      Quotient(turn * period + r + 1, period, turn + 1, 0);
      Distribute(turn, 1, rotation);
      Below(0, j, rotation);
      LastBlock(block, offset, rotation, profiles);
      Below(j, profiles - 1, rotation);
    }
  }

  /** After n uses profile j has been taken once per full turn for `rotation` uses, and
      in the running turn as far as the turn has reached into its block. */
  lemma {:induction false} UsesExact(n: nat, j: nat, rotation: nat, profiles: nat)
    requires rotation > 0 && j < profiles && rotation * profiles > 0
    ensures Uses(n, j, rotation, profiles) ==
      (n / (rotation * profiles)) * rotation + Clamp(n % (rotation * profiles) - j * rotation, rotation)
  {
    if n == 0 {
      Quotient(0, rotation * profiles, 0, 0);
      Below(0, j, rotation);
    } else {
      UsesExact(n - 1, j, rotation, profiles);
      var turn, block, offset := Digits(n - 1, rotation, profiles);
      ShareStep(turn, block, offset, j, rotation, profiles);
    }
  }

  /** One more use reaches into block j exactly when it lies in block j. */
  lemma ClampStep(block: nat, offset: nat, j: nat, rotation: nat)
    requires offset < rotation
    ensures Clamp(block * rotation + offset + 1 - j * rotation, rotation)
      == Clamp(block * rotation + offset - j * rotation, rotation) + (if block == j then 1 else 0)
  {
    assert block * rotation - j * rotation == (block - j) * rotation;
    if block > j {
      AtLeastOnce(block - j, rotation);
    } else if block < j {
      AtLeastOnce(j - block, rotation);
      assert (block - j) * rotation == -((j - block) * rotation);
    }
  }

  lemma LastBlock(block: nat, offset: nat, rotation: nat, profiles: nat)
    requires block < profiles && offset < rotation
    requires block * rotation + offset + 1 == rotation * profiles
    ensures block == profiles - 1
  {
    assert (block + 1) * rotation == block * rotation + rotation;
    if block + 1 < profiles {
      BlockFits(block + 1, profiles, rotation);
    }
  }

  /** Any two profiles have been taken equally often up to one run of `rotation`. */
  lemma UsesDifferByRotation(n: nat, j: nat, k: nat, rotation: nat, profiles: nat)
    requires rotation > 0 && j < profiles && k < profiles
    ensures Uses(n, j, rotation, profiles) <= Uses(n, k, rotation, profiles) + rotation
  {
    AtLeastOnce(profiles, rotation);
    UsesExact(n, j, rotation, profiles);
    UsesExact(n, k, rotation, profiles);
  }

  /** Every aligned run of `rotation` uses takes one profile, and the next run the next. */
  lemma AlignedRunsUseOneProfile(run: nat, i: nat, rotation: nat, profiles: nat)
    requires rotation > 0 && profiles > 0 && i < rotation
    ensures ProfileAt(run * rotation + i, rotation, profiles) == run % profiles
  {
    Quotient(run * rotation + i, rotation, run, i);
  }

  /** The 64-bit counter keeps the rotation going across its wrap exactly when a full
      turn divides 2^64, or there is only one profile. */
  lemma WrapSeamlessIff(rotation: uint64, profiles: nat)
    requires rotation > 0 && profiles > 0 && rotation * profiles > 0
    ensures (forall n: nat :: ProfileAt(Wrap64(n), rotation, profiles) == ProfileAt(n, rotation, profiles))
      <==> profiles == 1 || TWO_64 % (rotation * profiles) == 0
  {
    var period := rotation * profiles;
    if profiles > 1 && TWO_64 % period == 0 {
      var c := TWO_64 / period;
      forall n: nat
        ensures ProfileAt(Wrap64(n), rotation, profiles) == ProfileAt(n, rotation, profiles)
      {
        var turn, block, offset := Digits(Wrap64(n), rotation, profiles);
        var a := n / TWO_64;
        assert n == a * (c * period) + Wrap64(n);
        assert a * (c * period) == (a * c) * period;
        SameDigits(n, a * c + turn, block, offset, rotation, profiles);
      }
    } else if profiles > 1 {
      var n := SeamAt(rotation, profiles);
    }
  }

  lemma SameDigits(n: nat, turn: nat, block: nat, offset: nat, rotation: nat, profiles: nat)
    requires block < profiles && offset < rotation
    requires n == turn * (rotation * profiles) + block * rotation + offset
    ensures ProfileAt(n, rotation, profiles) == block
  {
    Regroup(turn, profiles, rotation);
    Distribute(turn * profiles, block, rotation);
    Quotient(n, rotation, turn * profiles + block, offset);
    Quotient(turn * profiles + block, profiles, turn, block);
  }

  /** A use around the wrap that takes another profile than the unbounded count would. */
  lemma SeamAt(rotation: uint64, profiles: nat) returns (n: nat)
    requires rotation > 0 && profiles > 1 && rotation * profiles > 0 && TWO_64 % (rotation * profiles) != 0
    ensures ProfileAt(Wrap64(n), rotation, profiles) != ProfileAt(n, rotation, profiles)
  {
    var turn, block, offset := Digits(TWO_64, rotation, profiles);
    if block > 0 {
      n := TWO_64;
      assert ProfileAt(0, rotation, profiles) == 0 by { SameDigits(0, 0, 0, 0, rotation, profiles); }
    } else {
      // The last use of block 0 after the wrap is already in block 1 of the unbounded count.
      n := TWO_64 + (rotation - offset);
      assert offset > 0;
      assert Wrap64(n) == rotation - offset;
      SameDigits(n, turn, 1, 0, rotation, profiles);
      assert rotation * profiles >= rotation + rotation by { BlockFits(1, profiles, rotation); }
      SameDigits(rotation - offset, 0, 0, rotation - offset, rotation, profiles);
    }
  }

  // -------------------------------------------------------------- dispatching

  /** The profile handles of each agent and the number of uses before moving on. */
  datatype Profiles = Profiles(rotation: uint64, lists: map<nat, seq<nat>>)

  /** The targeting tables and the use counter of each GPU agent. */
  datatype Counting = Counting(tables: Tables, current: map<nat, uint64>)

  datatype Dispatch = Dispatch(kernel: nat, agent: nat)

  /** `get_device_counting_service`: the counter moves on also when the agent has no
      profile to give. */
  function Service(current: map<nat, uint64>, p: Profiles, agent: nat): (map<nat, uint64>, Option<nat>)
    requires p.rotation > 0
  {
    if agent !in current then (current, None)
    else
      var i := current[agent];
      var current' := current[agent := Increment64(i)];
      if agent !in p.lists || p.lists[agent] == [] then (current', None)
      else (current', Some(p.lists[agent][ProfileAt(i, p.rotation, |p.lists[agent]|)]))
  }

  /** The dispatch callback: is the kernel targeted, and with which profile. */
  function DispatchStep(c: Counting, p: Profiles, d: Dispatch, threadTrace: bool): (Counting, Option<nat>)
    requires p.rotation > 0
  {
    var (tables, targeted) := OpStep(c.tables, Query(d.kernel), threadTrace);
    if !targeted then (Counting(tables, c.current), None)
    else
      var (current, profile) := Service(c.current, p, d.agent);
      (Counting(tables, current), profile)
  }

  function RunDispatches(c: Counting, p: Profiles, ds: seq<Dispatch>, threadTrace: bool): Counting
    requires p.rotation > 0
  {
    if ds == [] then c
    else DispatchStep(RunDispatches(c, p, ds[..|ds| - 1], threadTrace), p, ds[|ds| - 1], threadTrace).0
  }

  /** What dispatch i is configured with. */
  function Chosen(c: Counting, p: Profiles, ds: seq<Dispatch>, i: nat, threadTrace: bool): Option<nat>
    requires p.rotation > 0 && i < |ds|
  {
    DispatchStep(RunDispatches(c, p, ds[..i], threadTrace), p, ds[i], threadTrace).1
  }

  predicate TargetedAt(c: Counting, p: Profiles, ds: seq<Dispatch>, i: nat, threadTrace: bool)
    requires p.rotation > 0 && i < |ds|
  {
    OpStep(RunDispatches(c, p, ds[..i], threadTrace).tables, Query(ds[i].kernel), threadTrace).1
  }

  function Count(f: nat -> bool, n: nat): (k: nat)
    ensures k <= n
  {
    if n == 0 then 0 else Count(f, n - 1) + (if f(n - 1) then 1 else 0)
  }

  /** Dispatch i is on the agent and targeted. */
  function HitsOn(c: Counting, p: Profiles, ds: seq<Dispatch>, agent: nat, threadTrace: bool): nat -> bool
    requires p.rotation > 0
  {
    (i: nat) => i < |ds| && ds[i].agent == agent && TargetedAt(c, p, ds, i, threadTrace)
  }

  /** Dispatch i is on the agent and configured with the profile. */
  function GivesOn(c: Counting, p: Profiles, ds: seq<Dispatch>, agent: nat, profile: nat, threadTrace: bool): nat -> bool
    requires p.rotation > 0
  {
    (i: nat) => i < |ds| && ds[i].agent == agent && Chosen(c, p, ds, i, threadTrace) == Some(profile)
  }

  /** Targeted dispatches on the agent among the first n. */
  function TargetedOn(c: Counting, p: Profiles, ds: seq<Dispatch>, n: nat, agent: nat, threadTrace: bool): (k: nat)
    requires p.rotation > 0
    ensures k <= n
  {
    Count(HitsOn(c, p, ds, agent, threadTrace), n)
  }

  /** Dispatches on the agent among the first n that are configured with the profile. */
  function ChosenOn(c: Counting, p: Profiles, ds: seq<Dispatch>, n: nat, agent: nat, profile: nat, threadTrace: bool): nat
    requires p.rotation > 0
  {
    Count(GivesOn(c, p, ds, agent, profile, threadTrace), n)
  }

  /** If g picks those hits of f whose ordinal rotation gives to j, it picks as many as
      rotation gives to j. */
  lemma {:induction false} CountUses(f: nat -> bool, g: nat -> bool, n: nat, j: nat, rotation: nat, profiles: nat)
    requires rotation > 0 && profiles > 0
    requires forall i :: 0 <= i < n ==> (g(i) <==> f(i) && ProfileAt(Count(f, i), rotation, profiles) == j)
    ensures Count(g, n) == Uses(Count(f, n), j, rotation, profiles)
  {
    if n > 0 {
      CountUses(f, g, n - 1, j, rotation, profiles);
    }
  }

  /** What one dispatch does to the counter of an agent and what it may be given. */
  lemma StepFor(c: Counting, p: Profiles, d: Dispatch, agent: nat, threadTrace: bool)
    requires p.rotation > 0 && agent in c.current
    ensures var (c', profile) := DispatchStep(c, p, d, threadTrace);
      var hit := d.agent == agent && OpStep(c.tables, Query(d.kernel), threadTrace).1;
      && agent in c'.current
      && c'.current[agent] == (if hit then Increment64(c.current[agent]) else c.current[agent])
      && (d.agent == agent && agent in p.lists && p.lists[agent] != [] ==>
            profile == if hit then Some(p.lists[agent][ProfileAt(c.current[agent], p.rotation, |p.lists[agent]|)]) else None)
  {
  }

  lemma RunNext(c: Counting, p: Profiles, ds: seq<Dispatch>, n: nat, threadTrace: bool)
    requires p.rotation > 0 && 0 < n <= |ds|
    ensures RunDispatches(c, p, ds[..n], threadTrace)
      == DispatchStep(RunDispatches(c, p, ds[..n - 1], threadTrace), p, ds[n - 1], threadTrace).0
  {
    assert ds[..n][..n - 1] == ds[..n - 1];
  }

  /** An agent's counter is the number of targeted dispatches on it, whatever happens on
      the other agents. */
  lemma {:induction false} CounterMeans(c: Counting, p: Profiles, ds: seq<Dispatch>, n: nat, agent: nat, threadTrace: bool)
    requires p.rotation > 0 && n <= |ds| && agent in c.current && c.current[agent] == 0
    ensures var e := RunDispatches(c, p, ds[..n], threadTrace);
      agent in e.current && e.current[agent] == Wrap64(TargetedOn(c, p, ds, n, agent, threadTrace))
  {
    if n > 0 {
      CounterMeans(c, p, ds, n - 1, agent, threadTrace);
      RunNext(c, p, ds, n, threadTrace);
      StepFor(RunDispatches(c, p, ds[..n - 1], threadTrace), p, ds[n - 1], agent, threadTrace);
      IncrementWraps(TargetedOn(c, p, ds, n - 1, agent, threadTrace));
    }
  }

  predicate Distinct(s: seq<nat>) {
    forall i, j :: 0 <= i < j < |s| ==> s[i] != s[j]
  }

  /** A dispatch on the agent gets profile j exactly when it is targeted and its number
      among the targeted dispatches on the agent is one that rotation gives to j. */
  lemma ChosenIff(c: Counting, p: Profiles, ds: seq<Dispatch>, i: nat, agent: nat, j: nat, threadTrace: bool)
    requires p.rotation > 0 && i < |ds| < TWO_64 && agent in c.current && c.current[agent] == 0
    requires agent in p.lists && j < |p.lists[agent]| && Distinct(p.lists[agent]) && ds[i].agent == agent
    ensures Chosen(c, p, ds, i, threadTrace) == Some(p.lists[agent][j]) <==>
      && TargetedAt(c, p, ds, i, threadTrace)
      && ProfileAt(TargetedOn(c, p, ds, i, agent, threadTrace), p.rotation, |p.lists[agent]|) == j
  {
    CounterMeans(c, p, ds, i, agent, threadTrace);
    StepFor(RunDispatches(c, p, ds[..i], threadTrace), p, ds[i], agent, threadTrace);
  }

  /** The targeting calls that dispatches make. */
  function Queries(ds: seq<Dispatch>): seq<Op> {
    seq(|ds|, i requires 0 <= i < |ds| => Query(ds[i].kernel))
  }

  /** Every dispatch is one targeting call, whether or not it is targeted. */
  lemma {:induction false} TablesFollow(c: Counting, p: Profiles, ds: seq<Dispatch>, ops: seq<Op>, threadTrace: bool)
    requires p.rotation > 0 && c.tables == RunTables(ops)
    ensures RunDispatches(c, p, ds, threadTrace).tables == RunTables(ops + Queries(ds))
  {
    if ds == [] {
      assert ops + Queries(ds) == ops;
    } else {
      var n := |ds| - 1;
      TablesFollow(c, p, ds[..n], ops, threadTrace);
      var all := ops + Queries(ds);
      assert all[..|all| - 1] == ops + Queries(ds[..n]) && all[|all| - 1] == Query(ds[n].kernel);
    }
  }

  /** So a dispatch is targeted exactly when its call, among all targeting calls, is
      answered with yes. */
  lemma TargetedAtIff(c: Counting, p: Profiles, ds: seq<Dispatch>, ops: seq<Op>, calls: seq<Op>, i: nat, threadTrace: bool)
    requires p.rotation > 0 && i < |ds| && calls == ops + Queries(ds[..i + 1])
    requires c.tables == RunTables(ops)
    ensures |calls| == |ops| + i + 1
    ensures TargetedAt(c, p, ds, i, threadTrace) <==> Answer(calls, |calls| - 1, threadTrace)
  {
    TablesFollow(c, p, ds[..i], ops, threadTrace);
    assert calls[..|calls| - 1] == ops + Queries(ds[..i]);
  }

  /** The agents with a counter never change. */
  lemma {:induction false} AgentsStay(c: Counting, p: Profiles, ds: seq<Dispatch>, threadTrace: bool)
    requires p.rotation > 0
    ensures RunDispatches(c, p, ds, threadTrace).current.Keys == c.current.Keys
  {
    if ds != [] {
      AgentsStay(c, p, ds[..|ds| - 1], threadTrace);
    }
  }

  /** A dispatch gets no profile exactly when it is not targeted or its agent has none. */
  lemma ChosenNoneIff(c: Counting, p: Profiles, ds: seq<Dispatch>, i: nat, threadTrace: bool)
    requires p.rotation > 0 && i < |ds|
    ensures Chosen(c, p, ds, i, threadTrace) == None <==>
      || !TargetedAt(c, p, ds, i, threadTrace)
      || ds[i].agent !in c.current || ds[i].agent !in p.lists || p.lists[ds[i].agent] == []
  {
    AgentsStay(c, p, ds[..i], threadTrace);
  }

  /** Over any dispatches on any agents, an agent's profile j is chosen as often as the
      rotation gives it out in that many uses. */
  lemma ChosenMeans(c: Counting, p: Profiles, ds: seq<Dispatch>, agent: nat, j: nat, threadTrace: bool)
    requires p.rotation > 0 && |ds| < TWO_64 && agent in c.current && c.current[agent] == 0
    requires agent in p.lists && j < |p.lists[agent]| && Distinct(p.lists[agent])
    ensures ChosenOn(c, p, ds, |ds|, agent, p.lists[agent][j], threadTrace)
      == Uses(TargetedOn(c, p, ds, |ds|, agent, threadTrace), j, p.rotation, |p.lists[agent]|)
  {
    var f := HitsOn(c, p, ds, agent, threadTrace);
    var g := GivesOn(c, p, ds, agent, p.lists[agent][j], threadTrace);
    forall i | 0 <= i < |ds|
      ensures g(i) <==> f(i) && ProfileAt(Count(f, i), p.rotation, |p.lists[agent]|) == j
    {
      if ds[i].agent == agent {
        ChosenIff(c, p, ds, i, agent, j, threadTrace);
      }
    }
    CountUses(f, g, |ds|, j, p.rotation, |p.lists[agent]|);
  }

  /** Rotation fairness over whole runs: in n targeted dispatches on an agent, profile j
      is used once per full turn for `rotation` dispatches plus its part of the turn
      under way, so no two profiles of the agent are ever more than `rotation` apart. */
  lemma RotationFair(c: Counting, p: Profiles, ds: seq<Dispatch>, agent: nat, j: nat, k: nat, threadTrace: bool)
    requires p.rotation > 0 && |ds| < TWO_64 && agent in c.current && c.current[agent] == 0
    requires agent in p.lists && j < |p.lists[agent]| && k < |p.lists[agent]| && Distinct(p.lists[agent])
    ensures p.rotation * |p.lists[agent]| > 0
    ensures var list := p.lists[agent]; var R := p.rotation; var S := |list|;
      var n := TargetedOn(c, p, ds, |ds|, agent, threadTrace);
      && ChosenOn(c, p, ds, |ds|, agent, list[j], threadTrace) == (n / (R * S)) * R + Clamp(n % (R * S) - j * R, R)
      && ChosenOn(c, p, ds, |ds|, agent, list[j], threadTrace) <= ChosenOn(c, p, ds, |ds|, agent, list[k], threadTrace) + R
  {
    var n := TargetedOn(c, p, ds, |ds|, agent, threadTrace);
    AtLeastOnce(|p.lists[agent]|, p.rotation);
    ChosenMeans(c, p, ds, agent, j, threadTrace);
    ChosenMeans(c, p, ds, agent, k, threadTrace);
    UsesExact(n, j, p.rotation, |p.lists[agent]|);
    UsesDifferByRotation(n, j, k, p.rotation, |p.lists[agent]|);
  }

  /** The counting service in place: one fetch-add counter per GPU agent. */
  class CountingService {
    const profiles: Profiles
    var currentIter: map<nat, uint64>

    constructor (profiles: Profiles, agents: set<nat>)
      ensures this.profiles == profiles
      ensures currentIter.Keys == agents && forall a :: a in agents ==> currentIter[a] == 0
    {
      this.profiles := profiles;
      currentIter := map a | a in agents :: 0;
    }

    method GetDeviceCountingService(agent: nat) returns (profile: Option<nat>)
      requires profiles.rotation > 0
      modifies this
      ensures (currentIter, profile) == Service(old(currentIter), profiles, agent)
    {
      if agent !in currentIter {
        return None;
      }
      var myIter := currentIter[agent];
      currentIter := currentIter[agent := Increment64(myIter)];
      if agent !in profiles.lists {
        return None;
      }
      var list := profiles.lists[agent];
      if list == [] {
        return None;
      }
      var profilePos := myIter / profiles.rotation;
      profile := Some(list[profilePos % |list|]);
    }

    method CounterDispatchCallback(targeting: KernelTargeting, d: Dispatch) returns (config: Option<nat>)
      requires profiles.rotation > 0
      modifies this, targeting
      ensures (Counting(targeting.View(), currentIter), config)
        == DispatchStep(old(Counting(targeting.View(), currentIter)), profiles, d, targeting.threadTrace)
    {
      var targeted := targeting.IsTargetedKernel(d.kernel);
      config := None;
      if targeted {
        config := GetDeviceCountingService(d.agent);
      }
    }
  }
}
