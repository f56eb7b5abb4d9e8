/**
 Iteration targeting: `add_kernel_target` registers a kernel with the iterations to
 profile, `is_targeted_kernel` counts the calls for a registered kernel and answers
 whether the current one is to be profiled.
 */
module KernelTargets {
  import opened MachineWords

  /** Both tables: the registered ranges and the calls counted for each kernel. */
  datatype Tables = Tables(targets: map<nat, set<uint64>>, iteration: map<nat, uint64>)

  const NoTables := Tables(map[], map[])

  datatype Op = Add(kernel: nat, range: set<uint64>) | Query(kernel: nat)

  /** An empty range means every iteration, or only the first with thread trace on. */
  predicate Accepts(range: set<uint64>, n: uint64, threadTrace: bool) {
    if range == {} then !threadTrace || n == 1 else n in range
  }

  /** `emplace`: the first registration of a kernel stays. */
  function AddStep(t: Tables, kernel: nat, range: set<uint64>): (Tables, bool) {
    if kernel in t.targets then (t, false)
    else (t.(targets := t.targets[kernel := range]), true)
  }

  /** The first of the two locked regions of `is_targeted_kernel`. */
  function BumpStep(t: Tables, kernel: nat): Tables {
    if kernel !in t.targets then t
    else
      var n: uint64 := if kernel in t.iteration then Increment64(t.iteration[kernel]) else 1;
      t.(iteration := t.iteration[kernel := n])
  }

  /** The second locked region. */
  predicate LookAnswer(t: Tables, kernel: nat, threadTrace: bool) {
    && kernel in t.targets && kernel in t.iteration
    && Accepts(t.targets[kernel], t.iteration[kernel], threadTrace)
  }

  function OpStep(t: Tables, op: Op, threadTrace: bool): (Tables, bool) {
    match op
    case Add(kernel, range) => AddStep(t, kernel, range)
    case Query(kernel) => var t' := BumpStep(t, kernel); (t', LookAnswer(t', kernel, threadTrace))
  }

  function RunTables(ops: seq<Op>): Tables {
    if ops == [] then NoTables
    else OpStep(RunTables(ops[..|ops| - 1]), ops[|ops| - 1], false).0
  }

  /** The answer of call i of a sequence. */
  predicate Answer(ops: seq<Op>, i: nat, threadTrace: bool)
    requires i < |ops|
  {
    OpStep(RunTables(ops[..i]), ops[i], threadTrace).1
  }

  // ------------------------------------------- what the answers are meant to be

  /** Position f holds the first registration of the kernel. */
  predicate FirstAt(ops: seq<Op>, f: nat, kernel: nat, range: set<uint64>) {
    && f < |ops| && ops[f] == Add(kernel, range)
    && forall g :: 0 <= g < f ==> !(ops[g].Add? && ops[g].kernel == kernel)
  }

  ghost predicate Registered(ops: seq<Op>, kernel: nat) {
    exists f, range :: FirstAt(ops, f, kernel, range)
  }

  function Calls(ops: seq<Op>, kernel: nat): (n: nat)
    ensures n <= |ops|
  {
    if ops == [] then 0
    else Calls(ops[..|ops| - 1], kernel) + (if ops[|ops| - 1] == Query(kernel) then 1 else 0)
  }

  lemma {:induction false} UnregisteredMeans(ops: seq<Op>, kernel: nat)
    requires forall g :: 0 <= g < |ops| ==> !(ops[g].Add? && ops[g].kernel == kernel)
    ensures kernel !in RunTables(ops).targets && kernel !in RunTables(ops).iteration
  {
    if ops != [] {
      UnregisteredMeans(ops[..|ops| - 1], kernel);
    }
  }

  /** The tables say of a registered kernel its first range, and how often it was asked
      for since. */
  lemma {:induction false} RegisteredMeans(ops: seq<Op>, f: nat, kernel: nat, range: set<uint64>)
    requires FirstAt(ops, f, kernel, range)
    ensures var t := RunTables(ops); var n := Calls(ops[f + 1..], kernel);
      && kernel in t.targets && t.targets[kernel] == range
      && (n == 0 ==> kernel !in t.iteration)
      && (n > 0 ==> kernel in t.iteration && t.iteration[kernel] == Wrap64(n))
  {
    var last := |ops| - 1;
    if f == last {
      UnregisteredMeans(ops[..last], kernel);
    } else {
      RegisteredMeans(ops[..last], f, kernel, range);
      assert ops[f + 1..][..last - f - 1] == ops[..last][f + 1..];
      IncrementWraps(Calls(ops[..last][f + 1..], kernel));
    }
  }

  /** A kernel is registered, with a first position, or was never mentioned. */
  lemma {:induction false} FirstExists(ops: seq<Op>, kernel: nat)
    ensures Registered(ops, kernel) || forall g :: 0 <= g < |ops| ==> !(ops[g].Add? && ops[g].kernel == kernel)
  {
    if ops != [] {
      var last := |ops| - 1;
      FirstExists(ops[..last], kernel);
      if Registered(ops[..last], kernel) {
        var f, range :| FirstAt(ops[..last], f, kernel, range);
        assert FirstAt(ops, f, kernel, range);
      } else if ops[last].Add? && ops[last].kernel == kernel {
        assert FirstAt(ops, last, kernel, ops[last].range);
      }
    }
  }

  lemma IncrementWraps(n: nat)
    ensures Increment64(Wrap64(n)) == Wrap64(n + 1)
  {
  }

  /** The answer to a call for a registered kernel, from the number of calls since. */
  lemma AnswerFor(ops: seq<Op>, i: nat, f: nat, range: set<uint64>, threadTrace: bool)
    requires i < |ops| && ops[i].Query? && FirstAt(ops[..i], f, ops[i].kernel, range)
    ensures var n := Wrap64(Calls(ops[f + 1..i + 1], ops[i].kernel));
      Answer(ops, i, threadTrace) <==> n in range || (range == {} && (threadTrace ==> n == 1))
  {
    RegisteredMeans(ops[..i], f, ops[i].kernel, range);
    assert ops[f + 1..i + 1][..i - f - 1] == ops[..i][f + 1..];
    IncrementWraps(Calls(ops[..i][f + 1..], ops[i].kernel));
  }

  /** A call for a kernel is answered with yes exactly when the kernel is registered and
      the number of calls since, this one included, is in its first range, or that range
      is empty and, with thread trace on, this is the first call. */
  lemma TargetedIff(ops: seq<Op>, i: nat, threadTrace: bool)
    requires i < |ops| && ops[i].Query?
    ensures Answer(ops, i, threadTrace) <==>
      exists f, range :: FirstAt(ops[..i], f, ops[i].kernel, range)
        && var n := Wrap64(Calls(ops[f + 1..i + 1], ops[i].kernel));
          n in range || (range == {} && (threadTrace ==> n == 1))
  {
    var kernel := ops[i].kernel;
    FirstExists(ops[..i], kernel);
    if Registered(ops[..i], kernel) {
      var f, range :| FirstAt(ops[..i], f, kernel, range);
      AnswerFor(ops, i, f, range, threadTrace);
    } else {
      UnregisteredMeans(ops[..i], kernel);
    }
  }

  /** A registration succeeds exactly when it is the first of its kernel. */
  lemma AddedIff(ops: seq<Op>, i: nat, threadTrace: bool)
    requires i < |ops| && ops[i].Add?
    ensures Answer(ops, i, threadTrace) <==> !Registered(ops[..i], ops[i].kernel)
  {
    FirstExists(ops[..i], ops[i].kernel);
    if Registered(ops[..i], ops[i].kernel) {
      var f, range :| FirstAt(ops[..i], f, ops[i].kernel, range);
      RegisteredMeans(ops[..i], f, ops[i].kernel, range);
    } else {
      UnregisteredMeans(ops[..i], ops[i].kernel);
    }
  }

  /** How many calls for the kernel were answered with yes. */
  ghost function Yeses(ops: seq<Op>, n: nat, kernel: nat, threadTrace: bool): nat
    requires n <= |ops|
  {
    if n == 0 then 0 else
    var yes := ops[n - 1] == Query(kernel) && Answer(ops, n - 1, threadTrace);
    Yeses(ops, n - 1, kernel, threadTrace) + (if yes then 1 else 0)
  }

  /** For an empty range, with thread trace off every call since is answered with yes, and
      with thread trace on exactly the first is. */
  lemma EmptyRangeAnswer(ops: seq<Op>, i: nat, f: nat, kernel: nat, threadTrace: bool)
    requires f < i < |ops| < TWO_64 && ops[i] == Query(kernel) && FirstAt(ops, f, kernel, {})
    ensures Answer(ops, i, threadTrace) <==> !threadTrace || Calls(ops[f + 1..i], kernel) == 0
  {
    CallsNext(ops, f, i + 1, kernel);
    AnswerFor(ops, i, f, {}, threadTrace);
  }

  /** So all calls since are answered with yes, or one of them. */
  lemma {:induction false} EmptyRangeYeses(ops: seq<Op>, n: nat, f: nat, kernel: nat, threadTrace: bool)
    requires n <= |ops| < TWO_64 && FirstAt(ops, f, kernel, {})
    ensures Yeses(ops, n, kernel, threadTrace) ==
      if n <= f then 0
      else
        var calls := Calls(ops[f + 1..n], kernel);
        if threadTrace && calls > 0 then 1 else calls
  {
    if n > 0 {
      EmptyRangeYeses(ops, n - 1, f, kernel, threadTrace);
      if n - 1 < f {
        if ops[n - 1] == Query(kernel) {
          UnregisteredMeans(ops[..n - 1], kernel);
        }
      } else if n - 1 > f {
        CallsNext(ops, f, n, kernel);
        if ops[n - 1] == Query(kernel) {
          EmptyRangeAnswer(ops, n - 1, f, kernel, threadTrace);
        }
      }
    }
  }

  ghost function UpTo(range: set<uint64>, n: nat): set<uint64> {
    set k | k in range && 1 <= k <= n
  }

  lemma CallsNext(ops: seq<Op>, f: nat, n: nat, kernel: nat)
    requires f + 1 < n <= |ops|
    ensures Calls(ops[f + 1..n], kernel)
      == Calls(ops[f + 1..n - 1], kernel) + (if ops[n - 1] == Query(kernel) then 1 else 0)
  {
    assert ops[f + 1..n][..n - f - 2] == ops[f + 1..n - 1];
  }

  lemma YesIff(ops: seq<Op>, n: nat, f: nat, kernel: nat, range: set<uint64>, threadTrace: bool)
    requires f + 1 < n <= |ops| < TWO_64 && FirstAt(ops, f, kernel, range) && range != {}
    requires ops[n - 1] == Query(kernel)
    ensures Answer(ops, n - 1, threadTrace) <==> Calls(ops[f + 1..n - 1], kernel) + 1 in range
  {
    CallsNext(ops, f, n, kernel);
    AnswerFor(ops, n - 1, f, range, threadTrace);
  }

  lemma UpToNext(range: set<uint64>, m: nat)
    ensures UpTo(range, m + 1) == UpTo(range, m) + (if m + 1 in range then {m + 1} else {})
    ensures |UpTo(range, m + 1)| == |UpTo(range, m)| + (if m + 1 in range then 1 else 0)
  {
    assert UpTo(range, m + 1) == UpTo(range, m) + (if m + 1 in range then {m + 1} else {});
  }

  /** For a non-empty range the calls answered with yes number exactly the iterations of
      the range that were reached. */
  lemma {:induction false} YesesCountRange(ops: seq<Op>, n: nat, f: nat, kernel: nat, range: set<uint64>, threadTrace: bool)
    requires n <= |ops| < TWO_64 && FirstAt(ops, f, kernel, range) && range != {}
    ensures Yeses(ops, n, kernel, threadTrace) ==
      if n <= f then 0 else |UpTo(range, Calls(ops[f + 1..n], kernel))|
  {
    if n > 0 {
      YesesCountRange(ops, n - 1, f, kernel, range, threadTrace);
      if n - 1 < f {
        if ops[n - 1] == Query(kernel) {
          UnregisteredMeans(ops[..n - 1], kernel);
        }
      } else if n - 1 == f {
        assert UpTo(range, 0) == {};
      } else {
        var m := Calls(ops[f + 1..n - 1], kernel);
        CallsNext(ops, f, n, kernel);
        if ops[n - 1] == Query(kernel) {
          YesIff(ops, n, f, kernel, range, threadTrace);
          UpToNext(range, m);
        }
      }
    }
  }

  // ------------------------------------------------------------- independence

  function Only(ops: seq<Op>, kernel: nat): seq<Op> {
    if ops == [] then []
    else Only(ops[..|ops| - 1], kernel) + (if ops[|ops| - 1].kernel == kernel then [ops[|ops| - 1]] else [])
  }

  predicate SameFor(a: Tables, b: Tables, kernel: nat) {
    && (kernel in a.targets <==> kernel in b.targets)
    && (kernel in a.targets ==> a.targets[kernel] == b.targets[kernel])
    && (kernel in a.iteration <==> kernel in b.iteration)
    && (kernel in a.iteration ==> a.iteration[kernel] == b.iteration[kernel])
  }

  /** Kernels do not affect each other: what the tables hold for a kernel depends only
      on the registrations and calls of that kernel. */
  lemma {:induction false} KernelsIndependent(ops: seq<Op>, kernel: nat)
    ensures SameFor(RunTables(ops), RunTables(Only(ops, kernel)), kernel)
  {
    if ops != [] {
      var before := ops[..|ops| - 1];
      KernelsIndependent(before, kernel);
      var own := Only(ops, kernel);
      if ops[|ops| - 1].kernel == kernel {
        assert own[..|own| - 1] == Only(before, kernel);
      } else {
        assert own == Only(before, kernel);
      }
    }
  }

  // -------------------------------------------- the two locked regions apart

  datatype Half = Bump(kernel: nat) | Look(kernel: nat)

  function RunHalves(t: Tables, halves: seq<Half>): Tables {
    if halves == [] then t
    else
      var t' := RunHalves(t, halves[..|halves| - 1]);
      var half := halves[|halves| - 1];
      if half.Bump? then BumpStep(t', half.kernel) else t'
  }

  function Bumps(halves: seq<Half>, kernel: nat): (n: nat)
    ensures n <= |halves|
  {
    if halves == [] then 0
    else Bumps(halves[..|halves| - 1], kernel) + (if halves[|halves| - 1] == Bump(kernel) then 1 else 0)
  }

  /** The stored count of a kernel, 0 while there is none. */
  function CountOf(t: Tables, kernel: nat): uint64 {
    if kernel in t.iteration then t.iteration[kernel] else 0
  }

  /** With the regions of several threads interleaved, a look sees every bump before it,
      whoever made it. */
  lemma {:induction false} LookSeesAllBumps(t: Tables, halves: seq<Half>, kernel: nat)
    requires kernel in t.targets
    ensures var e := RunHalves(t, halves);
      && e.targets == t.targets
      && (kernel in e.iteration <==> kernel in t.iteration || Bumps(halves, kernel) > 0)
      && CountOf(e, kernel) == Wrap64(CountOf(t, kernel) + Bumps(halves, kernel))
  {
    if halves != [] {
      var before := halves[..|halves| - 1];
      LookSeesAllBumps(t, before, kernel);
      IncrementWraps(CountOf(t, kernel) + Bumps(before, kernel));
    }
  }

  lemma {:induction false} BumpsAdd(a: seq<Half>, b: seq<Half>, kernel: nat)
    ensures Bumps(a + b, kernel) == Bumps(a, kernel) + Bumps(b, kernel)
  {
    if b == [] {
      assert a + b == a;
    } else {
      assert (a + b)[..|a + b| - 1] == a + b[..|b| - 1];
      BumpsAdd(a, b[..|b| - 1], kernel);
    }
  }

  lemma {:induction false} NoBumpsIff(halves: seq<Half>, kernel: nat)
    ensures Bumps(halves, kernel) == 0 <==> forall j :: 0 <= j < |halves| ==> halves[j] != Bump(kernel)
  {
    if halves != [] {
      NoBumpsIff(halves[..|halves| - 1], kernel);
    }
  }

  predicate NoneBetween(halves: seq<Half>, p: nat, q: nat, kernel: nat)
    requires q <= |halves|
  {
    forall j :: p < j < q ==> halves[j] != Bump(kernel)
  }

  lemma BumpsBetween(halves: seq<Half>, p: nat, q: nat, kernel: nat)
    requires p < q <= |halves|
    ensures Bumps(halves[..p + 1], kernel) <= Bumps(halves[..q], kernel) < Bumps(halves[..p + 1], kernel) + q
    ensures Bumps(halves[..q], kernel) == Bumps(halves[..p + 1], kernel) <==> NoneBetween(halves, p, q, kernel)
  {
    var between := halves[p + 1..q];
    assert halves[..q] == halves[..p + 1] + between;
    BumpsAdd(halves[..p + 1], between, kernel);
    NoBumpsIff(between, kernel);
    forall j | p < j < q
      ensures between[j - p - 1] == halves[j]
    {
    }
  }

  lemma WrapsTogether(c: nat, a: nat, b: nat)
    requires a <= b < a + TWO_64
    ensures Wrap64(c + a) == Wrap64(c + b) <==> a == b
  {
    var d := b - a;
    if Wrap64(c + a) == Wrap64(c + b) {
      assert d % TWO_64 == 0;
    }
  }

  /** A call that bumped at p and looks after q turns is answered for the count of its own
      bump exactly when no call for the kernel has bumped in between; then the answer is
      what its own ordinal deserves. */
  lemma OwnOrdinalIff(t: Tables, halves: seq<Half>, p: nat, q: nat, kernel: nat, threadTrace: bool)
    requires kernel in t.targets && p < q <= |halves| && q < TWO_64 && halves[p] == Bump(kernel)
    ensures var own := CountOf(RunHalves(t, halves[..p + 1]), kernel); var e := RunHalves(t, halves[..q]);
      && (CountOf(e, kernel) == own <==> NoneBetween(halves, p, q, kernel))
      && (NoneBetween(halves, p, q, kernel) ==>
            (LookAnswer(e, kernel, threadTrace) <==>
              own in t.targets[kernel] || (t.targets[kernel] == {} && (threadTrace ==> own == 1))))
  {
    LookSeesAllBumps(t, halves[..p + 1], kernel);
    LookSeesAllBumps(t, halves[..q], kernel);
    BumpsBetween(halves, p, q, kernel);
    WrapsTogether(CountOf(t, kernel), Bumps(halves[..p + 1], kernel), Bumps(halves[..q], kernel));
    NoBumpsIff(halves[..p + 1], kernel);
    assert halves[..p + 1][p] == Bump(kernel);
  }

  /** The answer of the look at position i. */
  predicate LookAt(t: Tables, halves: seq<Half>, i: nat, threadTrace: bool)
    requires i < |halves|
  {
    LookAnswer(RunHalves(t, halves[..i]), halves[i].kernel, threadTrace)
  }

  /** Two overlapping first calls are both answered for iteration 2: with range {1} both
      with no, with range {2} both with yes, though each range names one iteration. */
  lemma OverlappingCalls(kernel: nat, threadTrace: bool)
    ensures var halves := [Bump(kernel), Bump(kernel), Look(kernel), Look(kernel)];
      forall only: uint64 | only in {1, 2} ::
        var t := NoTables.(targets := map[kernel := {only}]);
        && (LookAt(t, halves, 2, threadTrace) <==> only == 2)
        && (LookAt(t, halves, 3, threadTrace) <==> only == 2)
  {
    var halves := [Bump(kernel), Bump(kernel), Look(kernel), Look(kernel)];
    BumpsBetween(halves, 0, 2, kernel);
    BumpsBetween(halves, 1, 2, kernel);
    BumpsBetween(halves, 1, 3, kernel);
    assert halves[..1] == [Bump(kernel)] && Bumps([Bump(kernel)], kernel) == 1;
    assert halves[..2][..1] == halves[..1] && Bumps(halves[..2], kernel) == 2;
    forall only: uint64 | only in {1, 2}
      ensures var t := NoTables.(targets := map[kernel := {only}]);
        && (LookAt(t, halves, 2, threadTrace) <==> only == 2)
        && (LookAt(t, halves, 3, threadTrace) <==> only == 2)
    {
      var t := NoTables.(targets := map[kernel := {only}]);
      LookSeesAllBumps(t, halves[..2], kernel);
      LookSeesAllBumps(t, halves[..3], kernel);
    }
  }

  // ------------------------------------------------------------------ in place

  /** The two tables as the callbacks update them. */
  class KernelTargeting {
    var targetKernels: map<nat, set<uint64>>
    var kernelIteration: map<nat, uint64>
    const threadTrace: bool

    ghost function View(): Tables
      reads this
    {
      Tables(targetKernels, kernelIteration)
    }

    constructor (threadTrace: bool)
      ensures View() == NoTables && this.threadTrace == threadTrace
    {
      this.threadTrace := threadTrace;
      targetKernels, kernelIteration := map[], map[];
    }

    method AddKernelTarget(kernel: nat, range: set<uint64>) returns (added: bool)
      modifies `targetKernels
      ensures (View(), added) == OpStep(old(View()), Add(kernel, range), threadTrace)
    {
      added := kernel !in targetKernels;
      if added {
        targetKernels := targetKernels[kernel := range];
      }
    }

    method IsTargetedKernel(kernel: nat) returns (yes: bool)
      modifies `kernelIteration
      ensures (View(), yes) == OpStep(old(View()), Query(kernel), threadTrace)
    {
      if kernel !in targetKernels {
        return false;
      }
      if kernel !in kernelIteration {
        kernelIteration := kernelIteration[kernel := 1];
      } else {
        kernelIteration := kernelIteration[kernel := Increment64(kernelIteration[kernel])];
      }
      var range, itr := targetKernels[kernel], kernelIteration[kernel];
      if range == {} {
        return !threadTrace || itr == 1;
      }
      return itr in range;
    }
  }
}
