# Verified model of the ROCm profiling tools

Dafny models of the concurrent and stateful cores of two rocprofiler client tools (version 1 and
version 3 under `Codes/`), with proofs of what each core is for. Concurrent code is a state machine
with one shared-memory access or one locked region per turn; theorems quantify over every schedule.
Beside each machine a class holds the same state in fields and arrays, and each of its methods is
proved to do what the machine does, so the theorems hold of the code in place.

| files | what they model |
|---|---|
| `AqlRing`, `AqlRingProof`, `AqlRingTheorems`, `AqlRingLiveness`, `AqlQueue` | `Submit` and `GetReadPointer`: many producers and the GPU packet processor on one AQL ring |
| `TraceController`, `TraceSplitWindow`, `TraceWindow`, `KernelTracer` | the consecutive-kernel thread-trace callback, with tests and locked bodies apart, and with whole callbacks as events |
| `KernelTargets`, `CounterRotation` | iteration targeting and the rotation of counter profiles per agent |
| `CollectionPeriods` | the thread that runs the collection periods |
| `KernelNameTable`, `KernelNameSafety`, `KernelNames` | the reference-counted table of kernel names |
| `ClockCorrelation` | means and shifts that relate the device timestamp to host clocks |
| `ContextTable`, `ContextLedger`, `ContextTool` | the version 1 context table, its counters and the two paths that collect contexts |
| `KernelNameFilter` | the backward scanner that reduces a kernel name to its base |
| `MachineWords` | unsigned words |

## Assumptions

- Atomics, locked regions and the body-then-header publication are sequentially consistent steps.
- The packet processor follows sections 2.8 and 2.9 of the HSA Platform System Architecture
  Specification: it takes the packet at the read index once its header is not INVALID, writes some
  INVALID header back and advances the read index. A fresh queue has a power-of-two size and only
  INVALID headers, callers submit no INVALID header, and threads plus slots number at most 2^64.
- `memcpy` moves the fifteen body dwords in an order that is fixed but arbitrary.
- Starting and stopping the device context succeeds. Dispatch ids are unique and below
  UINT64_MAX, and a dispatch completes once, after its ENTER. Whether a kernel is targeted is a free
  input of the trace controller. K is at least 1 (`Codes/version3/tool.cpp:2197`).
- The rotation interval is positive, since the source divides by it; the profile handles of an agent
  are distinct.
- No two `SetKernelNameRef` calls for one address overlap; `OverlappingFreesFault` shows that the
  safety fails without this.
- A context handler runs only after its context is published, and fewer than 2^32 contexts are
  counted.
- At least two clock samples are taken and not 2^31 + 1: the source divides by `2 * steps` in 32 bits.

## Where the code does less than it seems to

- A target does not clear a pending stop, so its window can be cut short. `WindowExactIff` says
  exactly when a target has its whole window: no stop pending on arrival, or K = 1.
  `SplitWindowExactIff` says the same with tests and locked bodies apart, and `StopCanBePending`
  reaches such a state.
- With the unlocked test apart from the locked body, a stop can be pending while profiling is off.
  `PendingWhileOffIff` and `StopImpliesProfilingIff` say exactly when: a dispatch that is no target and
  was tested while profiling was on runs its body after the stop, with the count used up.
  `StopPendingWhileOff` is such a run.
- `is_targeted_kernel` counts and looks under two locks. In sequence it is exact (`TargetedIff`); with
  calls interleaved a call is answered for its own count if and only if no other call for the kernel
  counts in between (`OwnOrdinalIff`). Two overlapping first calls with range {1} are both refused, and
  with range {2} both accepted (`OverlappingCalls`).
- The 32-bit byte product of the slot address is exact up to 2^26 slots and wraps above:
  `OffsetsExactIff`.
- Rotation goes on unbroken over the wrap of the 64-bit counter exactly when a full turn divides 2^64
  or there is one profile: `WrapSeamlessIff`.
- The insertion branch of `SetKernelNameRef` never locks but unlocks
  (`Codes/version1/util/hsa_rsrc_factory.h:489-498`). The model inserts in one step under the lock, and
  claims nothing about the balance of the literal lock calls.
- A context that is opened without a pool acquires its kernel name (`Codes/version1/tool.cpp:584`) and
  never releases it. `HeldBlocksForever` says what that does to a free of the name which has found the
  entry: it never gets to delete it.
- `correlated_pair_ns` takes offsets of raw device ticks from a base in nanoseconds. Once the base
  exceeds the mean tick, the 64-bit sum of offsets wraps and the device value is wrong. `DeviceMeanIff`
  says exactly when it is the mean of the ticks, and `DeviceRightIffFactorOne` that, for samples close
  together, this is so exactly when a tick is one nanosecond. `DeviceMeanFails` is a wrong value for a
  tick of ten nanoseconds.

## Model

| member | source | states |
|---|---|---|
| AqlRingTheorems.RefinesFifo | Codes/version1/util/hsa_rsrc_factory.cpp:674-717 | Each turn in a reachable state is one FIFO operation or invisible: passing the fetch-add enqueues the caller's packet, the packet processor delivers the head exactly when its header has been stored, and nothing else shows |
| AqlRingTheorems.ConsumedInOrder | Codes/version1/util/hsa_rsrc_factory.cpp:674-699 | Over every schedule of any number of producers, the packets taken by the GPU are those of the reserved indices, in index order, each once, all 16 dwords from one submission, none with an INVALID header |
| AqlRingTheorems.AllDelivered | Codes/version1/util/hsa_rsrc_factory.cpp:701-717 | When all calls have ended and the ring is drained, the GPU has taken exactly what the schedule requested: of each thread the packets of its calls of a whole number of packets, in the order it passed them |
| AqlRingTheorems.AskedIsRequested | Codes/version1/util/hsa_rsrc_factory.cpp:703-713 | What a thread has asked for is what the schedule alone says: the packets of those of its calls that find it idle and whose byte size is a multiple of 64 |
| AqlRingTheorems.AbortedIff | Codes/version1/util/hsa_rsrc_factory.cpp:703-706 | A thread has aborted if and only if a call of another size found it idle |
| AqlRingTheorems.SubmitResult | Codes/version1/util/hsa_rsrc_factory.cpp:701-717 | A call that has returned gave its packets strictly increasing indices in source order, each with its header stored, and returned the last index, or 0 when it had no packets |
| AqlRingTheorems.SlotExclusion | Codes/version1/util/hsa_rsrc_factory.cpp:678-693 | Producers past the wait loop write different slots, each with an INVALID header and no packet still to be taken, however stale the read index they loaded |
| AqlRingTheorems.DoorbellNamesStored | Codes/version1/util/hsa_rsrc_factory.cpp:691-696 | The doorbell never names a packet whose header is not stored |
| AqlRingTheorems.DoorbellIsLastRung | Codes/version1/util/hsa_rsrc_factory.cpp:696-696 | Over every schedule the doorbell holds the index of the packet whose doorbell turn came last |
| AqlRingTheorems.OffsetsExactIff | Codes/version1/util/hsa_rsrc_factory.cpp:683-684 | The 32-bit byte offsets of all slots of a power-of-two queue are exact and inside the ring if and only if the queue has at most 2^26 slots |
| AqlRingProof.StepKeepsInv | Codes/version1/util/hsa_rsrc_factory.cpp:674-717 | The ring's invariant is inductive over every turn of every thread and of the GPU |
| AqlRingProof.Reachable | Codes/version1/util/hsa_rsrc_factory.cpp:674-717 | Every schedule from a fresh queue keeps the invariant |
| AqlRingProof.OutstandingBound | Codes/version1/util/hsa_rsrc_factory.cpp:678-681 | Reserved indices run ahead of consumed ones by at most the ring plus one per thread |
| AqlRingProof.PollIsExact | Codes/version1/util/hsa_rsrc_factory.cpp:679-679 | The modular 64-bit full test agrees with the test on unbounded indices, also across 2^64 |
| AqlRingProof.SlotOfWrapped | Codes/version1/util/hsa_rsrc_factory.cpp:683-683 | The slot of a wrapped index is the slot of the unbounded index when the size is a power of two |
| AqlRingProof.SlotsDiffer | Codes/version1/util/hsa_rsrc_factory.cpp:683-683 | No two indices of one window share a slot |
| AqlRingProof.HeaderCompletes | Codes/version1/util/hsa_rsrc_factory.cpp:690-693 | The header store makes the slot the whole packet of one submission, in whatever order the body was copied |
| AqlRingProof.HeaderGatesGpu | Codes/version1/util/hsa_rsrc_factory.cpp:687-693 | The header at the read index is valid exactly when the next index in order has been stored, and then the slot holds that packet whole |
| AqlRingLiveness.NeverStuck | Codes/version1/util/hsa_rsrc_factory.cpp:679-681 | With an index reserved but not consumed, the GPU or the holder of the index at the read position can act |
| AqlRingLiveness.SomeoneEnabled | Codes/version1/util/hsa_rsrc_factory.cpp:701-717 | Unless every call has ended and the ring is drained, someone can change the state |
| AqlRingLiveness.TurnDecreases | Codes/version1/util/hsa_rsrc_factory.cpp:674-717 | Every turn but a new call changes nothing or uses up some of a bounded amount of work |
| AqlRingLiveness.EveryCallReturns | Codes/version1/util/hsa_rsrc_factory.cpp:679-717 | On every endless fair run, with new calls beginning at any time, each outstanding `Submit` returns, also one with more packets than the queue has slots |
| AqlRingLiveness.EveryIndexConsumed | Codes/version1/util/hsa_rsrc_factory.cpp:678-699 | On every such run each reserved index is consumed by the GPU, with the packet it was reserved for |
| AqlRingLiveness.FairlyFinishes | Codes/version1/util/hsa_rsrc_factory.cpp:679-717 | On a fair run whose new calls cease, every call ends and the ring drains |
| AqlQueue.StoreOneDword | Codes/version1/util/hsa_rsrc_factory.cpp:684-693 | A store to the flat ring changes one dword of one slot |
| AqlQueue.SubmissionQueue.SlotStart | Codes/version1/util/hsa_rsrc_factory.cpp:683-684 | The uint32 byte product addresses slot `index % size`, inside the ring |
| AqlQueue.SubmissionQueue.GetReadPointer | Codes/version1/util/hsa_rsrc_factory.cpp:666-672 | Points at the slot of the read index; with a valid header there, at the next packet in order |
| AqlQueue.SubmissionQueue.TakeTurn | Codes/version1/util/hsa_rsrc_factory.cpp:674-717 | Each access of `Submit` to the indices, the slot memory, the header and the doorbell, done in place, is the machine's turn |
| AqlQueue.SubmissionQueue.Play | Codes/version1/util/hsa_rsrc_factory.cpp:674-717 | Any schedule in place ends in the machine's state, with the packets taken in index order and each thread's requests those of the schedule |
| TraceController.SplitSafety | Codes/version3/tool.cpp:1463-1525 | Over every interleaving of tests and locked bodies the device context runs exactly while profiling, starts and stops alternate, nothing is captured when off, and the stored id is UINT64_MAX when off and the minimum captured this session when on |
| TraceController.StepKeepsInv | Codes/version3/tool.cpp:1470-1525 | The controller's invariant is inductive over tests and bodies |
| TraceController.CounterNeverWraps | Codes/version3/tool.cpp:1488-1488 | With unique 64-bit ids the consecutive-kernel counter cannot wrap |
| TraceController.CaptureIff | Codes/version3/tool.cpp:1472-1497 | A dispatch is captured exactly when profiling is on in its locked body and it is among the first K locked ENTERs counted from the latest target |
| TraceController.StoppedIff | Codes/version3/tool.cpp:1509-1525 | The device is stopped exactly by a locked completion body that finds profiling on, a stop pending and nothing captured but its own dispatch; the unlocked test of that completion had found profiling on too |
| TraceController.CompletingMeans | Codes/version3/tool.cpp:1509-1509 | A completion waits for its locked body only if its test found profiling on |
| TraceController.PendingWhileOffIff | Codes/version3/tool.cpp:1472-1525 | Over every interleaving, a stop is pending while profiling is off if and only if a late body has run - the locked ENTER body of a dispatch that is no target, with profiling off and the count used up - and no target's body since |
| TraceController.StopImpliesProfilingIff | Codes/version3/tool.cpp:1472-1525 | A pending stop implies profiling throughout a run if and only if no late body runs in it |
| TraceController.StopPendingWhileOff | Codes/version3/tool.cpp:1472-1525 | A run with a late body, which ends with a stop pending while profiling is off |
| TraceWindow.Quiescence | Codes/version3/tool.cpp:1480-1525 | With whole callbacks, a pending stop implies profiling, and none is pending once no dispatch is in flight |
| TraceWindow.WindowHolds | Codes/version3/tool.cpp:1472-1525 | With no stop pending every ENTER up to the K-th since the target is captured, whatever completions and further targets interleave, and tracing goes on |
| TraceWindow.WindowCut | Codes/version3/tool.cpp:1479-1525 | With a stop pending and K at least 2, some continuation of the target leaves its next ENTER uncaptured |
| TraceWindow.StopCanBePending | Codes/version3/tool.cpp:1497-1497 | A stop pending is reachable |
| TraceWindow.WindowExactIff | Codes/version3/tool.cpp:1472-1525 | A target in any reachable state is captured itself, and has its next K-1 ENTERs captured in every continuation, further targets included, if and only if no stop is pending on arrival or K is 1 |
| TraceWindow.Drain | Codes/version3/tool.cpp:1509-1525 | A pending stop is taken by completions alone |
| TraceSplitWindow.SplitWindowHolds | Codes/version3/tool.cpp:1472-1525 | With tests and locked bodies apart: from a started window with no stop pending, every body up to the K-th since the target captures its dispatch, whatever turns come between |
| TraceSplitWindow.SplitWindowExactIff | Codes/version3/tool.cpp:1472-1525 | Over every interleaving, a target's body captures it, and the next K-1 bodies capture theirs in every continuation, if and only if no stop is pending at the target's body or K is 1 |
| KernelTracer.ConsecutiveKernelTracer.constructor | Codes/version3/tool.cpp:1463-1466 | The static variables start as the machine's initial state |
| KernelTracer.ConsecutiveKernelTracer.BodyOfEnter | Codes/version3/tool.cpp:1474-1500 | The locked ENTER body, as in the machine |
| KernelTracer.ConsecutiveKernelTracer.BodyOfComplete | Codes/version3/tool.cpp:1512-1525 | The locked completion body, as in the machine |
| KernelTracer.ConsecutiveKernelTracer.OnEnter | Codes/version3/tool.cpp:1468-1503 | The whole ENTER callback is one event of the coarse machine |
| KernelTracer.ConsecutiveKernelTracer.OnComplete | Codes/version3/tool.cpp:1505-1525 | The whole completion callback is one event of the coarse machine; after the last outstanding completion no stop is pending |
| KernelTargets.TargetedIff | Codes/version3/tool.cpp:315-361 | In any sequence of registrations and calls, a call is answered yes if and only if the kernel is registered and the number of calls since is in its first range, or that range is empty and thread trace is off or it is the first call |
| KernelTargets.RegisteredMeans | Codes/version3/tool.cpp:300-337 | The tables hold the first registered range and the number of calls since |
| KernelTargets.AddedIff | Codes/version3/tool.cpp:300-313 | A registration succeeds if and only if it is the first of its kernel |
| KernelTargets.YesesCountRange | Codes/version3/tool.cpp:315-361 | For a non-empty range, the yes answers after n calls number the elements of the range among 1 to n |
| KernelTargets.EmptyRangeAnswer | Codes/version3/tool.cpp:344-350 | For an empty range, with thread trace off every call since is answered yes, with thread trace on exactly the first |
| KernelTargets.EmptyRangeYeses | Codes/version3/tool.cpp:344-350 | So the yes answers number all calls since, or one |
| KernelTargets.KernelsIndependent | Codes/version3/tool.cpp:315-361 | What is stored for a kernel depends only on that kernel's own registrations and calls |
| KernelTargets.LookSeesAllBumps | Codes/version3/tool.cpp:328-358 | With the two locked regions of several threads interleaved, a look sees all counts before it, whoever made them |
| KernelTargets.OwnOrdinalIff | Codes/version3/tool.cpp:328-358 | A call is answered for the count of its own increment if and only if no other call for the kernel has incremented between its two regions; then yes if and only if its range holds that count, or is empty and thread trace is off or the count is 1 |
| KernelTargets.OverlappingCalls | Codes/version3/tool.cpp:328-358 | Two overlapping first calls are both refused with range {1} and both accepted with range {2} |
| KernelTargets.KernelTargeting.IsTargetedKernel | Codes/version3/tool.cpp:315-361 | Counting and answering in place, as the specified step |
| CounterRotation.RotationFair | Codes/version3/tool.cpp:1257-1268 | After n targeted dispatches on an agent profile j has been chosen (n / (R*S))*R + clamp(n % (R*S) - j*R, 0, R) times, so any two of its profiles differ by at most R |
| CounterRotation.ChosenIff | Codes/version3/tool.cpp:1528-1548 | A dispatch gets profile j if and only if it is targeted and its number among the agent's targeted dispatches falls to j |
| CounterRotation.TargetedAtIff | Codes/version3/tool.cpp:1528-1541 | A dispatch is targeted if and only if its call, among all targeting calls so far, is answered yes; every dispatch counts as a call |
| CounterRotation.ChosenNoneIff | Codes/version3/tool.cpp:1246-1265 | A dispatch gets no profile if and only if it is not targeted or its agent has none |
| CounterRotation.ChosenMeans | Codes/version3/tool.cpp:1257-1268 | Over any dispatches on any agents a profile is chosen as often as the rotation hands it out |
| CounterRotation.CounterMeans | Codes/version3/tool.cpp:1257-1257 | An agent's counter is the number of targeted dispatches on that agent, whatever happens on others |
| CounterRotation.UsesExact | Codes/version3/tool.cpp:1267-1268 | The closed form of how often the rotation hands out a profile |
| CounterRotation.AlignedRunsUseOneProfile | Codes/version3/tool.cpp:1267-1268 | Every aligned run of R uses takes one profile, the next run the next |
| CounterRotation.WrapSeamlessIff | Codes/version3/tool.cpp:1257-1268 | The rotation goes on unbroken across the counter's wrap if and only if R*S divides 2^64 or there is one profile |
| CounterRotation.CountingService.constructor | Codes/version3/tool.cpp:1223-1243 | Every GPU agent starts with counter zero |
| CounterRotation.CountingService.GetDeviceCountingService | Codes/version3/tool.cpp:1246-1269 | The service in place; an agent without profiles still advances its counter |
| CounterRotation.CountingService.CounterDispatchCallback | Codes/version3/tool.cpp:1528-1548 | A dispatch that is not targeted gets no profile and leaves the counters alone; a targeted one takes the next |
| CollectionPeriods.ScheduleIsOrderly | Codes/version3/tool.cpp:428-455 | Starts and stops alternate, the run ends stopped, and an observer sees, in order, max(1, repeat) sessions per period, each the period's delay while stopped and then its duration while collecting |
| CollectionPeriods.TotalTimes | Codes/version3/tool.cpp:428-455 | The total time collecting is the sum of max(1, repeat) * duration, and the total time stopped before collections that of max(1, repeat) * delay |
| CollectionPeriods.CollectionPeriodControl | Codes/version3/tool.cpp:428-455 | The nested loops end and emit, in order, max(1, repeat) rounds of delay, start, duration, stop per period |
| KernelNameSafety.NameReferenceSafety | Codes/version1/util/hsa_rsrc_factory.h:438-499 | Over every interleaving no erased entry or deleted name is used and nothing is deleted twice; each count is the number of holders, and a holder has a live entry with its name |
| KernelNameSafety.DeletedOnlyUnheld | Codes/version1/util/hsa_rsrc_factory.h:471-484 | Whatever turn deletes a name or erases an entry, nobody holds it |
| KernelNameSafety.RecheckIff | Codes/version1/util/hsa_rsrc_factory.h:476-476 | The recheck under the lock goes on to delete if and only if nobody holds the entry |
| KernelNameSafety.TurnKeepsInv | Codes/version1/util/hsa_rsrc_factory.h:438-499 | One turn of any client keeps the table's invariant, or the program has aborted |
| KernelNameSafety.Reachable | Codes/version1/util/hsa_rsrc_factory.h:438-499 | Every schedule from an empty table is free of faults |
| KernelNameSafety.LockComesBack | Codes/version1/util/hsa_rsrc_factory.h:471-498 | In every reachable state the owner of the lock can act; at most four of its turns give the lock back or abort, and no other turn sets it back |
| KernelNameSafety.SpinIff | Codes/version1/util/hsa_rsrc_factory.h:474-474 | The wait loop is left if and only if nobody holds the entry |
| KernelNameSafety.HeldBlocksForever | Codes/version1/util/hsa_rsrc_factory.h:471-479 | On every run in which a holder does not release, a `SetKernelNameRef` that waits for the entry never gets to delete it, and one that spins goes on spinning |
| KernelNameSafety.OverlapFaults | Codes/version1/util/hsa_rsrc_factory.h:471-484 | Whenever two frees of one entry have both found it, with nobody holding it or the lock, some continuation touches the erased entry |
| KernelNameSafety.OverlappingFreesFault | Codes/version1/util/hsa_rsrc_factory.h:465-499 | From an empty table two overlapping frees of one address reach such a fault |
| KernelNames.AcquireReaches | Codes/version1/util/hsa_rsrc_factory.h:438-457 | An uninterrupted acquire adds one to the count of a known address and aborts on an unknown one |
| KernelNames.SetReaches | Codes/version1/util/hsa_rsrc_factory.h:465-499 | An uninterrupted set inserts, frees, aborts or spins, as address, count and flag decide |
| KernelNames.NameTable.constructor | Codes/version1/util/hsa_rsrc_factory.h:466-469 | The table starts empty |
| KernelNames.NameTable.AcquireKernelNameRef | Codes/version1/util/hsa_rsrc_factory.h:438-457 | The acquire in place equals its turns of the machine; it aborts if and only if the address is unknown |
| KernelNames.NameTable.SetKernelNameRef | Codes/version1/util/hsa_rsrc_factory.h:465-499 | The set in place equals its turns of the machine; it spins if and only if someone holds the name, and else aborts if and only if it frees an unknown or sets a known address |
| ClockCorrelation.ConversionKeepsOrder | Codes/version1/util/hsa_rsrc_factory.h:208-210 | For normalized times in range the conversion to nanoseconds keeps the order and loses nothing |
| ClockCorrelation.ComputedIsMeanIff | Codes/version1/util/hsa_rsrc_factory.h:263-274 | From any base, the wrapped arithmetic gives the floored mean if and only if the sum of offsets lies within one word, or below it by one word per sample |
| ClockCorrelation.HostMeanIff | Codes/version1/util/hsa_rsrc_factory.h:262-273 | With the first sample as the base it gives the mean if and only if the offsets add up to a 64-bit value |
| ClockCorrelation.NoOverflow | Codes/version1/util/hsa_rsrc_factory.h:262-273 | It gives the mean for n samples none before the first with n times their span below 2^64 |
| ClockCorrelation.PlainSumFails | Codes/version1/util/hsa_rsrc_factory.h:265-273 | Samples for which a plain 64-bit sum gives a wrong mean and the offsets the right one |
| ClockCorrelation.MeanIffFit | Codes/version1/util/hsa_rsrc_factory.h:263-274 | From any base, the computed value is the mean if and only if the base is at most the mean and the offsets do not overflow, or the base is so high that they add up to minus one word per sample |
| ClockCorrelation.DeviceMeanIff | Codes/version1/util/hsa_rsrc_factory.h:261-272 | The device value is the mean of the ticks plus the error if and only if the converted first sample fits the ticks in that sense; below 2^63 that is if and only if it is not above their mean and the offsets do not overflow |
| ClockCorrelation.DeviceRightIffFactorOne | Codes/version1/util/hsa_rsrc_factory.h:261-272 | For a sampling shorter than the clock has run, the device value without the error is the mean of the ticks, and the mean of the nanoseconds, if and only if a tick is one nanosecond |
| ClockCorrelation.DeviceMeanFails | Codes/version1/util/hsa_rsrc_factory.h:261-272 | With ten nanoseconds to a tick, ticks 100 and 102 give 2^63 + 101 |
| ClockCorrelation.Accumulate | Codes/version1/util/hsa_rsrc_factory.h:265-270 | The loop leaves the sums of offsets modulo 2^64 |
| ClockCorrelation.ErrorMeans | Codes/version1/util/hsa_rsrc_factory.h:263-263 | For up to 2^31 samples with the last not before the first, 2 * (n - 1) times the error fits between them, and no larger error does |
| ClockCorrelation.CorrelatedPair | Codes/version1/util/hsa_rsrc_factory.h:254-275 | The device value, the host value and the error; exactly when the host value is the mean of its samples; the error is half the mean step between the first and last tick, rounded down |
| ClockCorrelation.TimeShifts.constructor | Codes/version1/util/hsa_rsrc_factory.h:525-538 | One shift and one error for each of the five clocks |
| ClockCorrelation.TimeShifts.CorrelateTime | Codes/version1/util/hsa_rsrc_factory.h:525-532 | The stored shift takes the device value to the host value modulo 2^64, also when negative; the stored error is half the mean step, rounded down; other clocks keep theirs |
| ClockCorrelation.TimesKeepDistance | Codes/version1/util/hsa_rsrc_factory.h:534-538 | Timestamps converted with one shift keep their distance modulo 2^64, and their order if and only if the 64-bit wrap does not come between the two times |
| ClockCorrelation.TimeShifts.CorrelateAndConvert | Codes/version1/util/hsa_rsrc_factory.h:525-538 | After correlating, where the host offsets fit, the device mean moved by d converts to the host mean moved by d if and only if the device offsets fit |
| ContextTable.ContextConservation | Codes/version1/tool.cpp:235-274 | In every reachable state context_count is context_collected plus filtered dispatches plus unpublished plus published active entries |
| ContextTable.CollectedAtMostOnce | Codes/version1/tool.cpp:259-264 | Indices never repeat, the corruption abort is unreachable, and each context is output at most once although handler and pass race |
| ContextTable.FinalPassLeavesNoneActive | Codes/version1/tool.cpp:439-472 | When the pass with nothing left to come back for ends, every entry is published and none of the queue is active |
| ContextTable.AllErased | Codes/version1/tool.cpp:475-504 | With the table empty, each allocated context has been output, and exactly those |
| ContextTable.StepKeepsInv | Codes/version1/tool.cpp:235-504 | The table's invariant is inductive over all turns |
| ContextTable.Reachable | Codes/version1/tool.cpp:235-504 | Every schedule keeps the invariant |
| ContextLedger.LedgerBalances | Codes/version1/tool.cpp:235-504 | The books balance with the turns of a run: context_count is filtered plus created, created is unpublished plus published, published is context_collected plus active, and created is the table plus what handlers took |
| ContextLedger.OutputWasReady | Codes/version1/tool.cpp:342-347 | A context that is output was published before, and if it has a record, the record was completed after the publication and before the output |
| ContextLedger.IncompleteIff | Codes/version1/tool.cpp:484-490 | The abort over an incomplete context happens if and only if a handler ran for an active context published with a record that no completion had followed |
| ContextLedger.PublishedOnce | Codes/version1/tool.cpp:674-675 | No context is published twice |
| ContextLedger.EntryMeans | Codes/version1/tool.cpp:674-675 | A published entry tells its queue and record as published, and whether a completion came since |
| ContextLedger.PassMeans | Codes/version1/tool.cpp:439-446 | A pass was begun for its queue and has held the mutex since |
| ContextLedger.FinalPassOutputs | Codes/version1/tool.cpp:439-472 | When a pass for a queue ends with nothing left to come back for, every context published for that queue has been output; for no queue, every published context |
| ContextLedger.PassOutputsOwn | Codes/version1/tool.cpp:457-457 | A pass outputs no context that was published for another queue |
| ContextLedger.RetriesOnlyIf | Codes/version1/tool.cpp:458-460 | A pass comes again only for an active context of its queue whose record was still open when visited |
| ContextLedger.PassOutputs | Codes/version1/tool.cpp:442-469 | From every reachable state with the mutex free and every entry published, a pass can be run to its end and outputs every active context of its queue but those with an open record |
| ContextLedger.CorruptIff | Codes/version1/tool.cpp:259-264 | Allocation aborts over a repeated index if and only if a context still has the number the counter shows |
| ContextTool.Contexts.constructor | Codes/version1/tool.cpp:125-128 | Both counters zero and no contexts |
| ContextTool.Contexts.TakeTurn | Codes/version1/tool.cpp:235-504 | Each function of the context table, done in place, is the machine's turn |
| ContextTool.Contexts.AllocContextEntry | Codes/version1/tool.cpp:249-274 | Allocation in place; the index is the old count and was not in the table |
| ContextTool.Contexts.DumpContextEntry | Codes/version1/tool.cpp:336-349 | One round: an entry that is not valid is waited for; a valid one is counted and output if and only if its record, if any, is complete |
| ContextTool.Contexts.ContextHandler | Codes/version1/tool.cpp:475-504 | An active entry is collected and then erased, an inactive one only erased, an incomplete one aborts |
| ContextTool.Contexts.VisitEntry | Codes/version1/tool.cpp:450-461 | One entry of a pass, as in the machine; an entry that is not valid blocks it |
| ContextTool.Contexts.DumpContextArray | Codes/version1/tool.cpp:439-472 | Pass after pass, with turns of other threads before each of its own: when it returns, every entry is published and none of its queue is active; it fails to return only if those turns run out or the program aborts |
| KernelNameFilter.FilteredIff | Codes/version1/tool.cpp:192-232 | The filter returns a non-empty r if and only if r is a base name of the input: at the beginning or after a separator, without separators or a final closing bracket, before spaces and balanced groups |
| KernelNameFilter.FilterOfPieces | Codes/version1/tool.cpp:192-232 | For any prefix that is empty or ends in a space or colon, any base, and any spaces and groups written in ( ), < > or [ ] of any nesting, the filter of their concatenation is the base |
| KernelNameFilter.FilteredAlways | Codes/version1/tool.cpp:227-231 | On any input the result is a substring without separators, after a separator or at the beginning, and filtering again changes nothing |
| KernelNameFilter.FilterFindsBase | Codes/version1/tool.cpp:192-232 | Where there is a base name the filter returns it |
| KernelNameFilter.SkipTrailer | Codes/version1/tool.cpp:198-226 | The first loop skips any sequence of spaces and bracket groups |
| KernelNameFilter.SkippedIsTrailer | Codes/version1/tool.cpp:198-226 | What the first loop skips, unless it runs off the beginning, is a sequence of spaces and balanced groups |
| KernelNameFilter.RenderBalanced | Codes/version1/tool.cpp:221-224 | Text with nested brackets of a kind is balanced in that kind, by induction on nesting |
| KernelNameFilter.SkipTail | Codes/version1/tool.cpp:198-226 | The first loop with its 32-bit counter stops exactly where a scan with unbounded depth stops |
| KernelNameFilter.FilterKernelName | Codes/version1/tool.cpp:192-232 | The function with its 32-bit position and length returns the filtered name, and on any input a substring of it |

## Left out

- AqlQueue.SubmissionQueue.constructor: queue creation is the runtime's; queue sizes above 2^26, where the 32-bit slot product wraps (`OffsetsExactIff`); the machine in `AqlRing` covers every power of two.
- AqlQueue.SubmissionQueue.CallSubmit: a rejected size stops that thread only; the source ends the process, so its runs are among those of the model that give no turn afterwards.
- AqlRingTheorems.DoorbellNamesStored: no claim that the doorbell only grows; two producers may ring it out of order.
- ContextTool.Contexts.DumpContextArray: the other threads' turns are a finite argument and none of them is another pass; passes of any queues over all schedules are in `ContextTable`.
- ContextTool.Contexts.PublishEntry: the stores of `active` and of `valid` are one turn.
- KernelNameFilter.FilterKernelName: exact for names shorter than 2^32 characters; for longer ones only that the result is a substring.
- KernelTracer.ConsecutiveKernelTracer.TestEnter: the answer of `is_targeted_kernel` is an argument.
- CounterRotation.CountingService.CounterDispatchCallback: dispatch callbacks run one after another; the two locked regions of targeting interleaved are in `KernelTargets`.
- ClockCorrelation.ErrorMeans: for more than 2^31 samples the 32-bit divisor wraps, and nothing is said of the error.
- ClockCorrelation.CorrelatedPair: the samples and the long-double conversion `sysclock_to_ns` are arguments; an invalid clock number aborts in the source and is excluded here. `GetTimeErr`, which does not check its index, is not part of this model.
- KernelNames.NameTable.SetKernelNameRef: one go without interruption, and the lock calls of the insertion branch are not the literal ones; interleavings are in `KernelNameSafety`. The find outside the lock is one atomic step, and creating the map itself is not modelled.
- Counting in the pool mode of version 1, where `context_pool_handler` collects without counting up. The gate on outstanding contexts is off in the source (`Codes/version1/tool.cpp:141`).
- Duplicate copies of these functions in `Codes/util` and `Codes/version2`.
- Sleeping, logging and output of the collection periods, and user pause and resume beside them.
- Weak memory orders.
- LDMS transport, result formats, files and environment variables.
- HSA tables, agent discovery, code objects and memory pools, setup and teardown, signal chaining, feature-set slicing.
