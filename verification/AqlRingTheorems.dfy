/** What the invariant of the submission ring gives its users. */
module AqlRingTheorems {
  import opened MachineWords
  import opened AqlRing
  import opened AqlRingProof

  // --------------------------------------------------------- FIFO refinement

  /** The abstract queue: what has been reserved and not delivered, and what has
      been delivered. */
  datatype Fifo = Fifo(queue: seq<Packet>, delivered: seq<Packet>)

  function PacketsOf(issued: seq<Slip>): (r: seq<Packet>)
    ensures |r| == |issued|
  {
    seq(|issued|, i requires 0 <= i < |issued| => issued[i].packet)
  }

  function Abstract(s: Ring): Fifo
    requires |s.consumed| <= |s.issued|
  {
    Fifo(PacketsOf(s.issued)[|s.consumed|..], s.consumed)
  }

  predicate Enqueues(a: Fifo, b: Fifo, p: Packet) {
    b == Fifo(a.queue + [p], a.delivered)
  }

  predicate Dequeues(a: Fifo, b: Fifo) {
    a.queue != [] && b == Fifo(a.queue[1..], a.delivered + [a.queue[0]])
  }

  /** Every turn of the machine is a FIFO operation or invisible: a thread that
      passes its fetch-add enqueues the packet it is at, the packet processor either
      waits or delivers the head, and nothing else shows. */
  lemma RefinesFifo(s: Ring, turn: Turn)
    requires Inv(s) && Legal(turn)
    ensures |Next(s, turn).consumed| <= |Next(s, turn).issued|
    ensures var a, b := Abstract(s), Abstract(Next(s, turn));
      match turn
      case Call(_, _, _) => b == a
      case Gpu(_) => if Stored(s, Taken(s)) then Dequeues(a, b) else b == a
      case Step(id) =>
        if id < |s.threads| && s.threads[id].pc.Loop? && s.threads[id].pos < |s.threads[id].packets|
        then Enqueues(a, b, s.threads[id].packets[s.threads[id].pos])
        else b == a
  {
    match turn
    case Call(_, _, _) =>
    case Gpu(reset) => DeviceRefines(s, reset);
    case Step(id) => HostRefines(s, id);
  }

  lemma DeviceRefines(s: Ring, reset: uint32)
    requires Inv(s)
    ensures |GpuStep(s, reset).consumed| <= |GpuStep(s, reset).issued|
    ensures var a, b := Abstract(s), Abstract(GpuStep(s, reset));
      if Stored(s, Taken(s)) then Dequeues(a, b) else b == a
  {
    GpuConsumes(s, reset);
  }

  lemma HostRefines(s: Ring, id: nat)
    requires Inv(s)
    ensures |ThreadStep(s, id).consumed| <= |ThreadStep(s, id).issued|
    ensures var a, b := Abstract(s), Abstract(ThreadStep(s, id));
      if id < |s.threads| && s.threads[id].pc.Loop? && s.threads[id].pos < |s.threads[id].packets|
      then Enqueues(a, b, s.threads[id].packets[s.threads[id].pos])
      else b == a
  {
    if id < |s.threads| && s.threads[id].pc.Copy? {
      StoringKeepsPackets(s, id);
    }
  }

  lemma StoringKeepsPackets(s: Ring, id: nat)
    requires Inv(s) && id < |s.threads| && s.threads[id].pc.Copy?
    ensures var s' := ThreadStep(s, id);
      s'.consumed == s.consumed && PacketsOf(s'.issued) == PacketsOf(s.issued)
  {
    assert TicketsOk(s.issued, id, s.threads[id]);
  }

  /** Over every schedule, the packets the GPU took are the packets of the reserved
      indices, whole and in index order, and each had its header stored. */
  lemma ConsumedInOrder(s: Ring, turns: seq<Turn>)
    requires IsFresh(s) && LegalTurns(turns)
    ensures var e := Run(s, turns);
      && Taken(e) <= Reserved(e)
      && e.consumed == PacketsOf(e.issued)[..Taken(e)]
      && (forall n :: 0 <= n < Taken(e) ==> e.issued[n].stored && e.consumed[n][0] % 256 != 1)
  {
    Reachable(s, turns);
  }

  // ------------------------------------------------- what each caller asked for

  /** The packets of the indices that one thread reserved, in index order. */
  function Own(issued: seq<Slip>, id: nat): seq<Packet> {
    if issued == [] then []
    else
      var n := |issued| - 1;
      Own(issued[..n], id) + (if issued[n].owner == id then [issued[n].packet] else [])
  }

  /** What a thread asked for is what it has reserved followed by the rest of its call. */
  ghost predicate AskedOk(s: Ring) {
    forall id :: 0 <= id < |s.threads| ==>
      && |s.threads[id].tickets| <= |s.threads[id].packets|
      && s.threads[id].asked == Own(s.issued, id) + s.threads[id].packets[|s.threads[id].tickets|..]
  }

  lemma {:induction false} OwnIgnoresStored(issued: seq<Slip>, n: nat, id: nat)
    requires n < |issued|
    ensures Own(issued[n := issued[n].(stored := true)], id) == Own(issued, id)
  {
    var last := |issued| - 1;
    var after := issued[n := issued[n].(stored := true)];
    if n < last {
      OwnIgnoresStored(issued[..last], n, id);
      assert after[..last] == issued[..last][n := issued[n].(stored := true)];
    } else {
      assert after[..last] == issued[..last];
    }
  }

  lemma ReserveKeepsAsked(s: Ring, id: nat)
    requires AskedOk(s) && id < |s.threads|
    requires s.threads[id].pc.Loop? && s.threads[id].pos < |s.threads[id].packets|
    requires |s.threads[id].tickets| == s.threads[id].pos
    ensures AskedOk(ReserveStep(s, id, s.threads[id]))
  {
    var t := s.threads[id];
    var s' := ReserveStep(s, id, t);
    assert s'.issued[..|s.issued|] == s.issued;
    assert t.packets[t.pos..] == [t.packets[t.pos]] + t.packets[t.pos + 1..];
    forall i | 0 <= i < |s.threads|
      ensures s'.threads[i].asked == Own(s'.issued, i) + s'.threads[i].packets[|s'.threads[i].tickets|..]
    {
      if i == id {
        assert Own(s'.issued, i) == Own(s.issued, i) + [t.packets[t.pos]];
      } else {
        assert Own(s'.issued, i) == Own(s.issued, i) + [];
      }
    }
  }

  /** What a thread has asked for fits when neither it nor its own slips change. */
  lemma AskedFrame(s: Ring, s': Ring)
    requires AskedOk(s) && |s'.threads| == |s.threads|
    requires forall i :: 0 <= i < |s.threads| ==>
      && s'.threads[i].packets == s.threads[i].packets && s'.threads[i].tickets == s.threads[i].tickets
      && s'.threads[i].asked == s.threads[i].asked && Own(s'.issued, i) == Own(s.issued, i)
    ensures AskedOk(s')
  {
  }

  lemma CallKeepsAsked(s: Ring, id: nat, packets: seq<Packet>, excess: nat)
    requires Inv(s) && AskedOk(s)
    ensures AskedOk(CallStep(s, id, packets, excess))
  {
    if id < |s.threads| && s.threads[id].pc.Idle? {
      var t := s.threads[id];
      assert TicketsOk(s.issued, id, t);
      assert t.asked + packets == Own(s.issued, id) + packets[0..];
    }
  }

  /** Completing a slot changes no slip but its `stored` mark, and no call. */
  lemma HeaderLeavesCalls(s: Ring, id: nat)
    requires Inv(s) && id < |s.threads| && s.threads[id].pc == Copy(15)
    ensures var t := s.threads[id]; var s' := ThreadStep(s, id);
      && t.tickets != [] && Last(t.tickets) < |s.issued|
      && s'.issued == s.issued[Last(t.tickets) := s.issued[Last(t.tickets)].(stored := true)]
      && s'.threads == s.threads[id := t.(pc := Bell)]
  {
    assert TicketsOk(s.issued, id, s.threads[id]);
  }

  lemma HeaderKeepsAsked(s: Ring, id: nat)
    requires Inv(s) && AskedOk(s) && id < |s.threads| && s.threads[id].pc == Copy(15)
    ensures AskedOk(ThreadStep(s, id))
  {
    HeaderLeavesCalls(s, id);
    forall i | 0 <= i < |s.threads|
      ensures Own(ThreadStep(s, id).issued, i) == Own(s.issued, i)
    {
      OwnIgnoresStored(s.issued, Last(s.threads[id].tickets), i);
    }
    AskedFrame(s, ThreadStep(s, id));
  }

  lemma OtherStepKeepsAsked(s: Ring, id: nat)
    requires Inv(s) && AskedOk(s) && id < |s.threads| && s.threads[id].pc != Copy(15)
    requires !(s.threads[id].pc.Loop? && s.threads[id].pos < |s.threads[id].packets|)
    ensures AskedOk(ThreadStep(s, id))
  {
    var t := s.threads[id];
    assert CopyOk(s, t) && TicketsOk(s.issued, id, t);
    assert ThreadStep(s, id).issued == s.issued;
    AskedFrame(s, ThreadStep(s, id));
  }

  lemma StepKeepsAsked(s: Ring, turn: Turn)
    requires Inv(s) && AskedOk(s) && Legal(turn)
    ensures AskedOk(Next(s, turn))
  {
    match turn
    case Call(id, packets, excess) => CallKeepsAsked(s, id, packets, excess);
    case Gpu(reset) => AskedFrame(s, GpuStep(s, reset));
    case Step(id) =>
      if id < |s.threads| {
        assert TicketsOk(s.issued, id, s.threads[id]);
        if s.threads[id].pc == Copy(15) {
          HeaderKeepsAsked(s, id);
        } else if s.threads[id].pc.Loop? && s.threads[id].pos < |s.threads[id].packets| {
          ReserveKeepsAsked(s, id);
        } else {
          OtherStepKeepsAsked(s, id);
        }
      }
  }

  lemma {:induction false} AskedReachable(s: Ring, turns: seq<Turn>)
    requires IsFresh(s) && LegalTurns(turns)
    ensures Inv(Run(s, turns)) && AskedOk(Run(s, turns))
  {
    Reachable(s, turns);
    if turns != [] {
      var before := turns[..|turns| - 1];
      AskedReachable(s, before);
      StepKeepsAsked(Run(s, before), turns[|turns| - 1]);
    }
  }

  // ------------------------------------------------ requests, from the schedule

  /** Turn i of the schedule is a call of the thread, which is idle. */
  predicate CalledAt(s: Ring, turns: seq<Turn>, i: nat, id: nat)
    requires Operable(s)
  {
    && i < |turns| && turns[i].Call? && turns[i].id == id && id < |s.threads|
    && Run(s, turns[..i]).threads[id].pc.Idle?
  }

  /** The `size_bytes` of a call. */
  function Bytes(call: Turn): nat
    requires call.Call?
  {
    64 * |call.packets| + call.excess
  }

  /** What a thread has requested: the packets of its calls whose size is a whole number of
      64-byte packets, in order. */
  function Requested(s: Ring, turns: seq<Turn>, id: nat): seq<Packet>
    requires Operable(s)
  {
    if turns == [] then []
    else
      var n := |turns| - 1;
      Requested(s, turns[..n], id)
      + (if CalledAt(s, turns, n, id) && Bytes(turns[n]) % 64 == 0 then turns[n].packets else [])
  }

  lemma BytesRemainder(call: Turn)
    requires call.Call?
    ensures Bytes(call) % 64 == call.excess % 64
  {
  }

  /** No turn but a call of the thread itself changes what it has asked for, and none but a
      call ends in an abort. */
  lemma AskedStep(s: Ring, turn: Turn, id: nat)
    requires Operable(s) && id < |s.threads|
    ensures var t, t' := s.threads[id], Next(s, turn).threads[id];
      if turn.Call? && turn.id == id && t.pc.Idle? then
        if Bytes(turn) % 64 == 0 then t'.asked == t.asked + turn.packets && !t'.pc.Aborted?
        else t'.asked == t.asked && t'.pc.Aborted?
      else t'.asked == t.asked && (t'.pc.Aborted? <==> t.pc.Aborted?)
  {
    if turn.Call? {
      BytesRemainder(turn);
    }
  }

  /** What a thread has asked for is what the schedule says it requested. */
  lemma {:induction false} AskedIsRequested(s: Ring, turns: seq<Turn>, id: nat)
    requires IsFresh(s) && id < |s.threads|
    ensures Run(s, turns).threads[id].asked == Requested(s, turns, id)
  {
    if turns != [] {
      var n := |turns| - 1;
      AskedIsRequested(s, turns[..n], id);
      AskedStep(Run(s, turns[..n]), turns[n], id);
    }
  }

  predicate RejectedAt(s: Ring, turns: seq<Turn>, i: nat, id: nat)
    requires Operable(s)
  {
    CalledAt(s, turns, i, id) && Bytes(turns[i]) % 64 != 0
  }

  /** A thread has aborted exactly when one of its calls had a size that is not a whole
      number of packets. */
  lemma {:induction false} AbortedIff(s: Ring, turns: seq<Turn>, id: nat)
    requires IsFresh(s) && id < |s.threads|
    ensures Run(s, turns).threads[id].pc.Aborted? <==> exists i :: RejectedAt(s, turns, i, id)
  {
    if turns != [] {
      var n := |turns| - 1;
      AbortedIff(s, turns[..n], id);
      AskedStep(Run(s, turns[..n]), turns[n], id);
      forall i: nat | i < n
        ensures RejectedAt(s, turns, i, id) <==> RejectedAt(s, turns[..n], i, id)
      {
        RejectedBefore(s, turns, n, i, id);
      }
      if i :| RejectedAt(s, turns[..n], i, id) {
        assert RejectedAt(s, turns, i, id);
      }
      assert Run(s, turns).threads[id].pc.Aborted?
        <==> Run(s, turns[..n]).threads[id].pc.Aborted? || RejectedAt(s, turns, n, id);
    }
  }

  lemma RejectedBefore(s: Ring, turns: seq<Turn>, n: nat, i: nat, id: nat)
    requires Operable(s) && i < n <= |turns|
    ensures RejectedAt(s, turns, i, id) <==> RejectedAt(s, turns[..n], i, id)
  {
    assert turns[..n][..i] == turns[..i];
  }

  /** Every call returned or rejected, and the ring drained. */
  ghost predicate Finished(s: Ring) {
    && (forall id :: 0 <= id < |s.threads| ==> s.threads[id].pc.Idle? || s.threads[id].pc.Aborted?)
    && Taken(s) == Reserved(s)
  }

  /** When all is done the GPU took exactly what the schedule requested: its packets are
      those of all reserved indices, and those of each thread are the packets of that
      thread's calls in the order it passed them, none lost, repeated or torn. */
  lemma AllDelivered(s: Ring, turns: seq<Turn>)
    requires IsFresh(s) && LegalTurns(turns) && Finished(Run(s, turns))
    ensures var e := Run(s, turns);
      && e.consumed == PacketsOf(e.issued)
      && (forall n :: 0 <= n < |e.issued| ==> e.issued[n].owner < |s.threads|)
      && forall id :: 0 <= id < |s.threads| ==> Own(e.issued, id) == Requested(s, turns, id)
  {
    AskedReachable(s, turns);
    var e := Run(s, turns);
    ConsumedInOrder(s, turns);
    forall id | 0 <= id < |e.threads|
      ensures Own(e.issued, id) == Requested(s, turns, id)
    {
      AskedIsRequested(s, turns, id);
      assert TicketsOk(e.issued, id, e.threads[id]);
    }
    OwnersExist(s, turns);
  }

  /** Every index belongs to a thread. */
  lemma {:induction false} OwnersExist(s: Ring, turns: seq<Turn>)
    requires IsFresh(s)
    ensures forall n :: 0 <= n < |Run(s, turns).issued| ==> Run(s, turns).issued[n].owner < |s.threads|
  {
    if turns != [] {
      OwnersExist(s, turns[..|turns| - 1]);
      OwnersStay(Run(s, turns[..|turns| - 1]), turns[|turns| - 1]);
    }
  }

  lemma OwnersStay(s: Ring, turn: Turn)
    requires Operable(s) && forall n :: 0 <= n < |s.issued| ==> s.issued[n].owner < |s.threads|
    ensures forall n :: 0 <= n < |Next(s, turn).issued| ==> Next(s, turn).issued[n].owner < |s.threads|
  {
  }

  /** A call that has returned: its packets hold strictly increasing indices in source
      order, all their headers are stored, and the value returned is the last 64-bit
      index, or 0 for a call without packets. */
  lemma SubmitResult(s: Ring, turns: seq<Turn>, id: nat)
    requires IsFresh(s) && LegalTurns(turns)
    requires id < |s.threads| && Run(s, turns).threads[id].pc.Idle?
    ensures var e := Run(s, turns); var t := e.threads[id];
      && |t.tickets| == |t.packets|
      && (forall j :: 0 <= j < |t.tickets| ==>
            && t.tickets[j] < Reserved(e)
            && e.issued[t.tickets[j]] == Slip(t.packets[j], id, true))
      && (forall i, j :: 0 <= i < j < |t.tickets| ==> t.tickets[i] < t.tickets[j])
      && t.writeIdx == (if t.packets == [] then 0 else Wrap64(Last(t.tickets)))
  {
    Reachable(s, turns);
    assert TicketsOk(Run(s, turns).issued, id, Run(s, turns).threads[id]);
  }

  /** The doorbell holds what it held at first or the index of a packet whose header is
      stored: it never names a slot that is still being written. */
  ghost predicate BellOk(s: Ring, first: uint64) {
    s.doorbell == first || exists n: nat :: Stored(s, n) && s.doorbell == Wrap64(n)
  }

  lemma StepKeepsBell(s: Ring, turn: Turn, first: uint64)
    requires Inv(s) && BellOk(s, first) && Legal(turn)
    ensures BellOk(Next(s, turn), first)
  {
    var s' := Next(s, turn);
    if turn.Gpu? {
      GpuConsumes(s, turn.reset);
    } else if turn.Step? && turn.id < |s.threads| {
      var t := s.threads[turn.id];
      assert TicketsOk(s.issued, turn.id, t);
      if t.pc.Bell? {
        assert Stored(s', Last(t.tickets));
      }
    }
    assert forall n: nat :: Stored(s, n) ==> Stored(s', n);
  }

  lemma {:induction false} DoorbellNamesStored(s: Ring, turns: seq<Turn>)
    requires IsFresh(s) && LegalTurns(turns)
    ensures BellOk(Run(s, turns), s.doorbell)
  {
    if turns != [] {
      var before := turns[..|turns| - 1];
      Reachable(s, before);
      DoorbellNamesStored(s, before);
      StepKeepsBell(Run(s, before), turns[|turns| - 1], s.doorbell);
    }
  }

  /** The thread is due to ring the doorbell. */
  predicate RingsAt(s: Ring, turns: seq<Turn>, i: nat)
    requires Operable(s)
  {
    && i < |turns| && turns[i].Step? && turns[i].id < |s.threads|
    && Run(s, turns[..i]).threads[turns[i].id].pc.Bell?
    && Run(s, turns[..i]).threads[turns[i].id].tickets != []
  }

  /** What the doorbell was last rung with: the index of the packet whose turn it was. */
  function LastRung(s: Ring, turns: seq<Turn>): uint64
    requires Operable(s)
  {
    if turns == [] then s.doorbell
    else
      var n := |turns| - 1;
      if RingsAt(s, turns, n) then Wrap64(Last(Run(s, turns[..n]).threads[turns[n].id].tickets))
      else LastRung(s, turns[..n])
  }

  /** The doorbell always holds the index of the packet it was last rung for. */
  lemma {:induction false} DoorbellIsLastRung(s: Ring, turns: seq<Turn>)
    requires IsFresh(s) && LegalTurns(turns)
    ensures Run(s, turns).doorbell == LastRung(s, turns)
  {
    if turns != [] {
      var before := turns[..|turns| - 1];
      var turn := turns[|turns| - 1];
      DoorbellIsLastRung(s, before);
      Reachable(s, before);
      var b := Run(s, before);
      if turn.Step? && turn.id < |b.threads| {
        assert TicketsOk(b.issued, turn.id, b.threads[turn.id]);
      }
    }
  }

  // ------------------------------------------------------------ slot exclusion

  /** Threads past the wait loop write different slots, and none of those slots holds
      a packet that the GPU has still to take, however old the read index was that
      let them pass. */
  lemma SlotExclusion(s: Ring, turns: seq<Turn>, i: nat)
    requires IsFresh(s) && LegalTurns(turns)
    requires i < |Run(s, turns).threads| && Run(s, turns).threads[i].pc.Copy?
    ensures var e := Run(s, turns); var slot := e.threads[i].writeIdx % e.size;
      && (forall j :: 0 <= j < |e.threads| && j != i && e.threads[j].pc.Copy? ==> e.threads[j].writeIdx % e.size != slot)
      && IsInvalid(e.slots[slot][0])
      && (forall m: nat :: Taken(e) <= m && Stored(e, m) ==> Wrap64(m) % e.size != slot)
  {
    Reachable(s, turns);
    var e := Run(s, turns);
    var t := e.threads[i];
    assert TicketsOk(e.issued, i, t) && CopyOk(e, t);
    var n := Last(t.tickets);
    SlotOfWrapped(e.size, n);
    forall m: nat | InWindow(e, m) && m != n
      ensures Wrap64(m) % e.size != t.writeIdx % e.size
    {
      SlotOfWrapped(e.size, m);
      if m < n { SlotsDiffer(e.size, m, n); } else { SlotsDiffer(e.size, n, m); }
    }
    forall j | 0 <= j < |e.threads| && j != i && e.threads[j].pc.Copy?
      ensures e.threads[j].writeIdx % e.size != t.writeIdx % e.size
    {
      assert TicketsOk(e.issued, j, e.threads[j]) && CopyOk(e, e.threads[j]);
      TicketsApart(e, i, j);
    }
    assert !Stored(e, n);
  }

  // --------------------------------------------------------------- addressing

  /** The byte offset of a slot: a product of two `uint32_t` values. */
  function SlotOffset(slot: uint32): uint32 {
    Wrap32(slot * 64)
  }

  /** For a power-of-two queue, the slots lie apart inside the ring exactly when the
      queue has at most 2^26 packets; above that the product wraps. */
  lemma OffsetsExactIff(size: uint32)
    requires size > 0 && IsPowerOfTwo(size)
    ensures (forall slot :: 0 <= slot < size ==> SlotOffset(slot) == 64 * slot && SlotOffset(slot) + 64 <= 64 * size)
      <==> size <= 0x400_0000
    ensures size > 0x400_0000 ==> SlotOffset(0x400_0000) == SlotOffset(0)
  {
    if size > 0x400_0000 {
      assert SlotOffset(0x400_0000) == 0;
    } else {
      forall slot | 0 <= slot < size
        ensures SlotOffset(slot) == 64 * slot
      {
        assert slot * 64 < TWO_32;
      }
    }
  }
}
