/**
 Safety of the submission ring over every schedule: the inductive invariant, the
 refinement to a FIFO queue and what follows for slots and for callers.
 */
module AqlRingProof {
  import opened MachineWords
  import opened AqlRing

  // ---------------------------------------------------------------- slots

  /** The slot of an unbounded index, `n % size`, by repeated subtraction. */
  function Slot(size: nat, n: nat): (i: nat)
    requires size > 0
    ensures i < size
    decreases n
  {
    if n < size then n else Slot(size, n - size)
  }

  lemma {:induction false} SlotIsRemainder(size: nat, n: nat) returns (q: nat)
    requires size > 0
    ensures n == q * size + Slot(size, n)
    ensures Slot(size, n) == n % size
    decreases n
  {
    if n < size {
      q := 0;
    } else {
      var q' := SlotIsRemainder(size, n - size);
      q := q' + 1;
    }
    Quotient(n, size, q, Slot(size, n));
  }

  /** Within a window of `size` indices no two share a slot. */
  lemma {:induction false} SlotsDiffer(size: nat, m: nat, n: nat)
    requires size > 0 && m < n < m + size
    ensures Slot(size, m) != Slot(size, n)
    decreases m
  {
    if m >= size {
      SlotsDiffer(size, m - size, n - size);
    }
  }

  /** The 64-bit index selects the slot of the unbounded index, across the wrap. */
  lemma SlotOfWrapped(size: nat, n: nat)
    requires IsPowerOfTwo(size) && size <= TWO_64
    ensures Wrap64(n) % size == Slot(size, n)
  {
    var k := DividesTwo64(size);
    var a := n / TWO_64;
    assert n == Wrap64(n) + (a * k) * size by {
      Regroup(a, k, size);
    }
    SlotShift(size, Wrap64(n), a * k);
    var _ := SlotIsRemainder(size, Wrap64(n));
  }

  lemma {:induction false} SlotShift(size: nat, n: nat, c: nat)
    requires size > 0
    ensures c * size >= 0 && Slot(size, n + c * size) == Slot(size, n)
  {
    if c > 0 {
      SlotShift(size, n, c - 1);
      assert c * size == (c - 1) * size + size;
    }
  }

  // ------------------------------------------------------------ invariant

  function Taken(s: Ring): nat { |s.consumed| }
  function Reserved(s: Ring): nat { |s.issued| }

  /** A thread that has reserved index n and not yet stored its header. */
  predicate Holds(t: Thread, n: nat) {
    (t.pc.Spin? || t.pc.Copy?) && t.tickets != [] && Last(t.tickets) == n
  }

  predicate InWindow(s: Ring, n: nat) {
    Taken(s) <= n < Taken(s) + s.size
  }

  predicate Stored(s: Ring, n: nat) {
    n < Reserved(s) && s.issued[n].stored
  }

  ghost predicate Shape(s: Ring) {
    && IsPowerOfTwo(s.size) && Operable(s)
    && |s.threads| + s.size <= TWO_64
    && Taken(s) <= Reserved(s)
    && s.writeIndex == Wrap64(Reserved(s))
    && s.readIndex == Wrap64(Taken(s))
    && (forall n :: 0 <= n < Reserved(s) ==> !IsInvalid(s.issued[n].packet[0]))
  }

  ghost predicate ConsumedOk(s: Ring) {
    && Taken(s) <= Reserved(s)
    && forall n :: 0 <= n < Taken(s) ==> s.issued[n].stored && s.consumed[n] == s.issued[n].packet
  }

  /** A reserved index without a header is held by the thread that reserved it. */
  ghost predicate HoldersOk(s: Ring) {
    forall n :: 0 <= n < Reserved(s) && !s.issued[n].stored ==>
      s.issued[n].owner < |s.threads| && Holds(s.threads[s.issued[n].owner], n)
  }

  ghost predicate SlotsOk(s: Ring)
    requires Operable(s)
  {
    && (forall n: nat :: InWindow(s, n) && !Stored(s, n) ==> IsInvalid(s.slots[Slot(s.size, n)][0]))
    && (forall n: nat :: Taken(s) <= n && Stored(s, n) ==>
          n < Taken(s) + s.size && s.slots[Slot(s.size, n)] == s.issued[n].packet)
  }

  /** Slips and tickets of one thread agree; finished packets have their header stored. */
  ghost predicate TicketsOk(issued: seq<Slip>, id: nat, t: Thread) {
    && t.pos <= |t.packets|
    && (forall j :: 0 <= j < |t.packets| ==> !IsInvalid(t.packets[j][0]))
    && (t.pc.Spin? || t.pc.Copy? || t.pc.Bell? ==> t.pos < |t.packets|)
    && (t.pc.Idle? || t.pc.Aborted? ==> t.pos == |t.packets|)
    && |t.tickets| == (if t.pc.Spin? || t.pc.Copy? || t.pc.Bell? then t.pos + 1 else t.pos)
    && (forall j :: 0 <= j < |t.tickets| ==>
          && t.tickets[j] < |issued|
          && issued[t.tickets[j]].packet == t.packets[j]
          && issued[t.tickets[j]].owner == id
          && (issued[t.tickets[j]].stored <==> j < t.pos || t.pc.Bell?))
    && (forall i, j :: 0 <= i < j < |t.tickets| ==> t.tickets[i] < t.tickets[j])
    && t.writeIdx == (if t.tickets == [] then 0 else Wrap64(Last(t.tickets)))
  }

  /** A copying thread owns a slot of the window and has moved a prefix of its order. */
  ghost predicate CopyOk(s: Ring, t: Thread)
    requires Operable(s)
  {
    t.pc.Copy? && t.pos < |t.packets| && t.tickets != [] ==>
      && t.pc.copied <= 15
      && InWindow(s, Last(t.tickets))
      && forall j :: 0 <= j < t.pc.copied ==>
           s.slots[Slot(s.size, Last(t.tickets))][s.copyOrder[j]] == t.packets[t.pos][s.copyOrder[j]]
  }

  ghost predicate ThreadsOk(s: Ring)
    requires Operable(s)
  {
    forall id :: 0 <= id < |s.threads| ==>
      TicketsOk(s.issued, id, s.threads[id]) && CopyOk(s, s.threads[id])
  }

  ghost predicate Inv(s: Ring) {
    Shape(s) && ConsumedOk(s) && HoldersOk(s) && SlotsOk(s) && ThreadsOk(s)
  }

  lemma FreshInv(s: Ring)
    requires IsFresh(s)
    ensures Inv(s)
  {
  }

  // ------------------------------------------------ how many are outstanding

  lemma {:induction false} Pigeonhole(owners: seq<nat>, bound: nat)
    requires forall i :: 0 <= i < |owners| ==> owners[i] < bound
    requires forall i, j :: 0 <= i < j < |owners| ==> owners[i] != owners[j]
    ensures |owners| <= bound
  {
    if owners != [] {
      assert 0 <= owners[0] < bound;
      var top: nat := bound - 1;
      if top in owners {
        var i :| 0 <= i < |owners| && owners[i] == top;
        Pigeonhole(owners[..i] + owners[i + 1..], top);
      } else {
        Pigeonhole(owners[1..], top);
      }
    }
  }

  /** At most one index per thread is outstanding beyond the ring itself. */
  lemma OutstandingBound(s: Ring)
    requires Inv(s)
    ensures Reserved(s) <= Taken(s) + s.size + |s.threads|
  {
    var lo := Taken(s) + s.size;
    if Reserved(s) > lo {
      var owners := seq(Reserved(s) - lo, i requires 0 <= i < Reserved(s) - lo => s.issued[lo + i].owner);
      forall i | 0 <= i < |owners|
        ensures owners[i] < |s.threads| && Holds(s.threads[owners[i]], lo + i)
      {
        assert !Stored(s, lo + i);
      }
      Pigeonhole(owners, |s.threads|);
    }
  }

  /** The 64-bit full test decides exactly whether the unbounded index is in the
      window, for every index a thread can be polling with. */
  lemma PollIsExact(s: Ring, n: nat, writeIdx: uint64)
    requires Inv(s) && n < Reserved(s) && !s.issued[n].stored && writeIdx == Wrap64(n)
    ensures Taken(s) <= n
    ensures Wrap64(writeIdx - s.readIndex) >= s.size <==> n >= Taken(s) + s.size
  {
    OutstandingBound(s);
    WrapDifference(n, Taken(s));
  }

  lemma WrapDifference(a: nat, b: nat)
    requires 0 <= a - b < TWO_64
    ensures Wrap64(Wrap64(a) - Wrap64(b)) == a - b
  {
  }

  // ------------------------------------------------------------ each step

  /** A turn that changes only one thread, and not which index it holds. */
  lemma LocalStep(s: Ring, id: nat, t: Thread, bell: uint64)
    requires Inv(s) && id < |s.threads|
    requires TicketsOk(s.issued, id, t) && CopyOk(s, t)
    requires forall n :: Holds(s.threads[id], n) ==> Holds(t, n)
    ensures Inv(SetThread(s, id, t).(doorbell := bell))
  {
    var s' := SetThread(s, id, t).(doorbell := bell);
    assert forall n: nat :: Stored(s', n) <==> Stored(s, n);
    assert SlotsOk(s');
    forall i | 0 <= i < |s.threads|
      ensures TicketsOk(s'.issued, i, s'.threads[i]) && CopyOk(s', s'.threads[i])
    {
      assert i != id ==> TicketsOk(s.issued, i, s.threads[i]) && CopyOk(s, s.threads[i]);
    }
  }

  lemma CallKeepsInv(s: Ring, id: nat, packets: seq<Packet>, excess: nat)
    requires Inv(s) && Legal(Call(id, packets, excess))
    ensures Inv(CallStep(s, id, packets, excess))
  {
    if id < |s.threads| && s.threads[id].pc.Idle? {
      var t := s.threads[id];
      assert TicketsOk(s.issued, id, t);
      var t' := if excess % 64 != 0 then t.(pc := Aborted) else Thread(packets, 0, Loop, 0, [], t.asked + packets);
      LocalStep(s, id, t', s.doorbell);
    }
  }

  /** Slips only grow or become stored, and other threads keep their tickets. */
  lemma TicketsFrame(before: seq<Slip>, after: seq<Slip>, id: nat, t: Thread)
    requires TicketsOk(before, id, t)
    requires |before| <= |after|
    requires forall n :: 0 <= n < |before| && before[n].owner == id ==> after[n] == before[n]
    ensures TicketsOk(after, id, t)
  {
  }

  lemma ReserveTickets(s: Ring, id: nat)
    requires Shape(s) && id < |s.threads| && TicketsOk(s.issued, id, s.threads[id])
    requires s.threads[id].pc.Loop? && s.threads[id].pos < |s.threads[id].packets|
    ensures var s' := ReserveStep(s, id, s.threads[id]);
      TicketsOk(s'.issued, id, s'.threads[id])
  {
  }

  lemma ReserveHolders(s: Ring, id: nat)
    requires HoldersOk(s) && id < |s.threads|
    requires s.threads[id].pc.Loop? && s.threads[id].pos < |s.threads[id].packets|
    ensures HoldersOk(ReserveStep(s, id, s.threads[id]))
  {
  }

  lemma ReserveSlots(s: Ring, s': Ring, slip: Slip)
    requires Operable(s) && Operable(s') && SlotsOk(s) && !slip.stored
    requires s'.slots == s.slots && s'.size == s.size && s'.consumed == s.consumed
    requires s'.issued == s.issued + [slip]
    ensures SlotsOk(s')
  {
    assert forall n: nat :: Stored(s', n) <==> Stored(s, n);
  }

  lemma ReserveShape(s: Ring, id: nat)
    requires Shape(s) && ConsumedOk(s) && id < |s.threads|
    requires TicketsOk(s.issued, id, s.threads[id])
    requires s.threads[id].pc.Loop? && s.threads[id].pos < |s.threads[id].packets|
    ensures Shape(ReserveStep(s, id, s.threads[id])) && ConsumedOk(ReserveStep(s, id, s.threads[id]))
  {
    WrapSuccessor(Reserved(s));
  }

  lemma ReserveKeepsInv(s: Ring, id: nat)
    requires Inv(s) && id < |s.threads| && s.threads[id].pc.Loop? && s.threads[id].pos < |s.threads[id].packets|
    ensures Inv(ReserveStep(s, id, s.threads[id]))
  {
    var s' := ReserveStep(s, id, s.threads[id]);
    ReserveHolders(s, id);
    ReserveTickets(s, id);
    ReserveShape(s, id);
    ReserveSlots(s, s', Slip(s.threads[id].packets[s.threads[id].pos], id, false));
    forall i | 0 <= i < |s.threads|
      ensures TicketsOk(s'.issued, i, s'.threads[i]) && CopyOk(s', s'.threads[i])
    {
      if i != id {
        TicketsFrame(s.issued, s'.issued, i, s.threads[i]);
      }
    }
  }

  lemma EnterKeepsInv(s: Ring, id: nat)
    requires Inv(s) && id < |s.threads| && s.threads[id].pc.Spin?
    requires s.threads[id].tickets != [] && InWindow(s, Last(s.threads[id].tickets))
    ensures Inv(SetThread(s, id, s.threads[id].(pc := Copy(0))))
  {
    var t := s.threads[id];
    assert TicketsOk(s.issued, id, t);
    LocalStep(s, id, t.(pc := Copy(0)), s.doorbell);
  }

  /** A thread that leaves the wait loop has its index inside the window. */
  lemma PollEntersWindow(s: Ring, id: nat)
    requires Inv(s) && id < |s.threads| && s.threads[id].pc.Spin?
    ensures s.threads[id].tickets != []
    ensures InWindow(s, Last(s.threads[id].tickets)) || PollStep(s, id, s.threads[id]) == s
  {
    var t := s.threads[id];
    assert TicketsOk(s.issued, id, t);
    PollIsExact(s, Last(t.tickets), t.writeIdx);
  }

  lemma PollKeepsInv(s: Ring, id: nat)
    requires Inv(s) && id < |s.threads| && s.threads[id].pc.Spin?
    ensures Inv(PollStep(s, id, s.threads[id]))
  {
    PollEntersWindow(s, id);
    if PollStep(s, id, s.threads[id]) != s {
      EnterKeepsInv(s, id);
    }
  }

  /** A store into the slot of a held index touches no other slot of the window. */
  lemma WriteTouchesOneSlot(s: Ring, n: nat, k: nat, v: uint32)
    requires Inv(s) && InWindow(s, n) && k < 16
    ensures var s' := WriteDword(s, Wrap64(n), k, v);
      && s'.slots == s.slots[Slot(s.size, n) := s.slots[Slot(s.size, n)][k := v]]
      && (forall m: nat :: InWindow(s, m) && m != n ==> s'.slots[Slot(s.size, m)] == s.slots[Slot(s.size, m)])
  {
    SizeFits(s);
    SlotOfWrapped(s.size, n);
    forall m: nat | InWindow(s, m) && m != n
      ensures Slot(s.size, m) != Slot(s.size, n)
    {
      if m < n { SlotsDiffer(s.size, m, n); } else { SlotsDiffer(s.size, n, m); }
    }
  }

  lemma SizeFits(s: Ring)
    requires Inv(s)
    ensures s.size <= TWO_64
  {
  }

  /** The window part of the invariant after a store into the slot of held index n. */
  lemma HeldWrite(s: Ring, s': Ring, n: nat, k: nat, v: uint32)
    requires Inv(s) && InWindow(s, n) && n < Reserved(s) && !Stored(s, n) && 0 < k < 16
    requires s' == WriteDword(s, Wrap64(n), k, v).(threads := s'.threads)
    ensures SlotsOk(s')
    ensures forall i :: 0 <= i < |s.threads| && (s.threads[i].tickets == [] || Last(s.threads[i].tickets) != n) ==>
      CopyOk(s', s.threads[i])
  {
    WriteTouchesOneSlot(s, n, k, v);
    assert forall m: nat :: Stored(s', m) <==> Stored(s, m);
    forall i | 0 <= i < |s.threads| && (s.threads[i].tickets == [] || Last(s.threads[i].tickets) != n)
      ensures CopyOk(s', s.threads[i])
    {
      assert CopyOk(s, s.threads[i]);
    }
  }

  /** Tickets of different threads differ. */
  lemma TicketsApart(s: Ring, i: nat, j: nat)
    requires Operable(s) && ThreadsOk(s) && i < |s.threads| && j < |s.threads| && i != j
    requires s.threads[i].tickets != [] && s.threads[j].tickets != []
    ensures Last(s.threads[i].tickets) != Last(s.threads[j].tickets)
  {
    assert TicketsOk(s.issued, i, s.threads[i]);
    assert TicketsOk(s.issued, j, s.threads[j]);
  }

  lemma CopyHolders(s: Ring, s': Ring, id: nat)
    requires HoldersOk(s) && id < |s.threads| && s.threads[id].pc.Copy?
    requires s'.issued == s.issued
    requires s'.threads == s.threads[id := s.threads[id].(pc := Copy(s.threads[id].pc.copied + 1))]
    ensures HoldersOk(s')
  {
  }

  /** The copying thread's own slot gains the dword it has just moved. */
  lemma CopyExtends(s: Ring, id: nat)
    requires Inv(s) && id < |s.threads|
    requires s.threads[id].pc.Copy? && s.threads[id].pc.copied < 15
    ensures var t := s.threads[id]; var s' := CopyStep(s, id, t);
      && t.tickets != [] && t.pos < |t.packets| && t.writeIdx == Wrap64(Last(t.tickets))
      && InWindow(s, Last(t.tickets)) && Last(t.tickets) < Reserved(s) && !Stored(s, Last(t.tickets))
      && CopyOk(s', s'.threads[id])
      && TicketsOk(s'.issued, id, s'.threads[id])
  {
    var t := s.threads[id];
    assert TicketsOk(s.issued, id, t) && CopyOk(s, t);
    var k := s.copyOrder[t.pc.copied];
    WriteTouchesOneSlot(s, Last(t.tickets), k, t.packets[t.pos][k]);
  }

  lemma CopyKeepsInv(s: Ring, id: nat)
    requires Inv(s) && id < |s.threads|
    requires s.threads[id].pc.Copy? && s.threads[id].pc.copied < 15
    ensures Inv(CopyStep(s, id, s.threads[id]))
  {
    var t := s.threads[id];
    CopyExtends(s, id);
    var n := Last(t.tickets);
    var k := s.copyOrder[t.pc.copied];
    var s' := CopyStep(s, id, t);
    HeldWrite(s, s', n, k, t.packets[t.pos][k]);
    CopyHolders(s, s', id);
    forall i | 0 <= i < |s.threads|
      ensures TicketsOk(s'.issued, i, s'.threads[i]) && CopyOk(s', s'.threads[i])
    {
      if i != id {
        if s.threads[i].tickets != [] {
          TicketsApart(s, i, id);
        }
        assert TicketsOk(s.issued, i, s.threads[i]);
      }
    }
  }

  /** The last store completes the slot: all sixteen dwords are of this packet. */
  lemma HeaderCompletes(s: Ring, id: nat)
    requires Inv(s) && id < |s.threads|
    requires s.threads[id].pc.Copy? && s.threads[id].pc.copied == 15
    ensures var t := s.threads[id];
      && t.tickets != [] && t.pos < |t.packets| && t.writeIdx == Wrap64(Last(t.tickets))
      && InWindow(s, Last(t.tickets)) && Last(t.tickets) < Reserved(s) && !Stored(s, Last(t.tickets))
      && s.issued[Last(t.tickets)].owner == id
      && var s' := CopyStep(s, id, t);
      && s'.slots == s.slots[Slot(s.size, Last(t.tickets)) := t.packets[t.pos]]
      && s.issued[Last(t.tickets)].packet == t.packets[t.pos]
  {
    var t := s.threads[id];
    assert TicketsOk(s.issued, id, t) && CopyOk(s, t);
    var n := Last(t.tickets);
    WriteTouchesOneSlot(s, n, 0, t.packets[t.pos][0]);
    var w := s.slots[Slot(s.size, n)][0 := t.packets[t.pos][0]];
    forall k | 0 <= k < 16
      ensures w[k] == t.packets[t.pos][k]
    {
      if k > 0 {
        assert k in s.copyOrder;
        var j :| 0 <= j < 15 && s.copyOrder[j] == k;
      }
    }
    assert w == t.packets[t.pos];
  }

  lemma HeaderSlots(s: Ring, s': Ring, n: nat)
    requires Shape(s) && SlotsOk(s) && InWindow(s, n) && n < Reserved(s) && !Stored(s, n)
    requires s'.size == s.size && s'.copyOrder == s.copyOrder && s'.consumed == s.consumed
    requires s'.slots == s.slots[Slot(s.size, n) := s.issued[n].packet]
    requires s'.issued == s.issued[n := s.issued[n].(stored := true)]
    ensures Operable(s') && SlotsOk(s')
  {
    forall m: nat | InWindow(s, m) && m != n
      ensures Slot(s.size, m) != Slot(s.size, n)
    {
      if m < n { SlotsDiffer(s.size, m, n); } else { SlotsDiffer(s.size, n, m); }
    }
    assert forall m: nat :: Stored(s', m) <==> Stored(s, m) || m == n;
    assert forall m: nat :: InWindow(s', m) <==> InWindow(s, m);
  }

  lemma HeaderHolders(s: Ring, id: nat, n: nat, s': Ring)
    requires HoldersOk(s) && id < |s.threads| && n < Reserved(s) && Holds(s.threads[id], n)
    requires s'.threads == s.threads[id := s.threads[id].(pc := Bell)]
    requires s'.issued == s.issued[n := s.issued[n].(stored := true)]
    ensures HoldersOk(s')
  {
  }

  lemma HeaderKeepsInv(s: Ring, id: nat)
    requires Inv(s) && id < |s.threads|
    requires s.threads[id].pc.Copy? && s.threads[id].pc.copied == 15
    ensures Inv(CopyStep(s, id, s.threads[id]))
  {
    var t := s.threads[id];
    HeaderCompletes(s, id);
    var n := Last(t.tickets);
    var s' := CopyStep(s, id, t);
    HeaderSlots(s, s', n);
    HeaderHolders(s, id, n, s');
    assert Shape(s') && ConsumedOk(s');
    forall i | 0 <= i < |s.threads|
      ensures TicketsOk(s'.issued, i, s'.threads[i]) && CopyOk(s', s'.threads[i])
    {
      assert TicketsOk(s.issued, i, s.threads[i]) && CopyOk(s, s.threads[i]);
      if i != id {
        TicketsFrame(s.issued, s'.issued, i, s.threads[i]);
        OtherSlot(s, s', i, id, n);
      }
    }
  }

  /** Completing index n leaves the slots that other threads are copying into alone. */
  lemma OtherSlot(s: Ring, s': Ring, i: nat, id: nat, n: nat)
    requires Inv(s) && i < |s.threads| && id < |s.threads| && i != id
    requires InWindow(s, n) && Holds(s.threads[id], n)
    requires Operable(s') && s'.size == s.size && s'.copyOrder == s.copyOrder && s'.consumed == s.consumed
    requires forall j :: 0 <= j < s.size && j != Slot(s.size, n) ==> s'.slots[j] == s.slots[j]
    ensures CopyOk(s', s.threads[i])
  {
    var t := s.threads[i];
    assert CopyOk(s, t);
    if t.pc.Copy? && t.pos < |t.packets| && t.tickets != [] {
      TicketsApart(s, i, id);
      var m := Last(t.tickets);
      if m < n { SlotsDiffer(s.size, m, n); } else { SlotsDiffer(s.size, n, m); }
    }
  }

  lemma BellKeepsInv(s: Ring, id: nat)
    requires Inv(s) && id < |s.threads| && s.threads[id].pc.Bell?
    ensures Inv(BellStep(s, id, s.threads[id]))
  {
    var t := s.threads[id];
    assert TicketsOk(s.issued, id, t);
    LocalStep(s, id, t.(pc := Loop, pos := t.pos + 1), t.writeIdx);
  }

  lemma ReturnKeepsInv(s: Ring, id: nat)
    requires Inv(s) && id < |s.threads| && s.threads[id].pc.Loop? && s.threads[id].pos == |s.threads[id].packets|
    ensures Inv(SetThread(s, id, s.threads[id].(pc := Idle)))
  {
    var t := s.threads[id];
    assert TicketsOk(s.issued, id, t);
    LocalStep(s, id, t.(pc := Idle), s.doorbell);
  }

  /** A header that is not INVALID at the read index belongs to the next index in
      order, and the slot holds that submission whole. */
  lemma HeaderGatesGpu(s: Ring)
    requires Inv(s)
    ensures var slot := s.readIndex % s.size;
      && slot == Slot(s.size, Taken(s))
      && (!IsInvalid(s.slots[slot][0]) <==> Stored(s, Taken(s)))
      && (Stored(s, Taken(s)) ==> s.slots[slot] == s.issued[Taken(s)].packet)
  {
    SlotOfWrapped(s.size, Taken(s));
    assert InWindow(s, Taken(s));
  }

  /** The freed slot is the one the window gains at its upper end. */
  lemma GpuSlots(s: Ring, s': Ring)
    requires Shape(s) && SlotsOk(s) && Stored(s, Taken(s))
    requires s'.size == s.size && s'.copyOrder == s.copyOrder && s'.issued == s.issued
    requires Operable(s') && Taken(s') == Taken(s) + 1
    requires forall j :: 0 <= j < s.size && j != Slot(s.size, Taken(s)) ==> s'.slots[j] == s.slots[j]
    requires IsInvalid(s'.slots[Slot(s.size, Taken(s))][0])
    ensures SlotsOk(s')
  {
    var r := Taken(s);
    assert forall n: nat :: Stored(s', n) <==> Stored(s, n);
    forall m: nat | r < m < r + s.size
      ensures s'.slots[Slot(s.size, m)] == s.slots[Slot(s.size, m)]
    {
      SlotsDiffer(s.size, r, m);
    }
    assert Slot(s.size, r + s.size) == Slot(s.size, r);
    assert !Stored(s, r + s.size);
  }

  lemma GpuCopies(s: Ring, s': Ring, i: nat)
    requires Inv(s) && Stored(s, Taken(s)) && i < |s.threads|
    requires s'.size == s.size && s'.copyOrder == s.copyOrder
    requires Operable(s') && Taken(s') == Taken(s) + 1
    requires forall j :: 0 <= j < s.size && j != Slot(s.size, Taken(s)) ==> s'.slots[j] == s.slots[j]
    ensures CopyOk(s', s.threads[i])
  {
    var t := s.threads[i];
    assert TicketsOk(s.issued, i, t) && CopyOk(s, t);
    if t.pc.Copy? && t.pos < |t.packets| && t.tickets != [] {
      assert !Stored(s, Last(t.tickets));
      SlotsDiffer(s.size, Taken(s), Last(t.tickets));
    }
  }

  /** What one turn of the packet processor does to a slot that is ready. */
  lemma GpuTakes(s: Ring, reset: uint32, i: nat)
    requires Operable(s) && i < s.size && s.readIndex % s.size == i
    ensures IsInvalid(s.slots[i][0]) ==> GpuStep(s, reset) == s
    ensures !IsInvalid(s.slots[i][0]) ==>
      var s' := GpuStep(s, reset);
      && s'.consumed == s.consumed + [s.slots[i]]
      && s'.readIndex == Wrap64(s.readIndex + 1)
      && IsInvalid(s'.slots[i][0])
      && (forall j :: 0 <= j < s.size && j != i ==> s'.slots[j] == s.slots[j])
      && s' == s.(slots := s'.slots, readIndex := s'.readIndex, consumed := s'.consumed)
  {
  }

  lemma WrapSuccessor(n: nat)
    ensures Wrap64(Wrap64(n) + 1) == Wrap64(n + 1)
  {
  }

  lemma GpuConsumes(s: Ring, reset: uint32)
    requires Inv(s)
    ensures Operable(GpuStep(s, reset))
    ensures !Stored(s, Taken(s)) ==> GpuStep(s, reset) == s
    ensures Stored(s, Taken(s)) ==>
      var s' := GpuStep(s, reset);
      && s'.consumed == s.consumed + [s.issued[Taken(s)].packet]
      && s'.readIndex == Wrap64(Taken(s) + 1)
      && IsInvalid(s'.slots[Slot(s.size, Taken(s))][0])
      && (forall j :: 0 <= j < s.size && j != Slot(s.size, Taken(s)) ==> s'.slots[j] == s.slots[j])
      && s' == s.(slots := s'.slots, readIndex := s'.readIndex, consumed := s'.consumed)
  {
    HeaderGatesGpu(s);
    GpuTakes(s, reset, Slot(s.size, Taken(s)));
    WrapSuccessor(Taken(s));
  }

  lemma GpuKeepsInv(s: Ring, reset: uint32)
    requires Inv(s)
    ensures Inv(GpuStep(s, reset))
  {
    var s' := GpuStep(s, reset);
    GpuConsumes(s, reset);
    if Stored(s, Taken(s)) {
      GpuSlots(s, s');
      forall i | 0 <= i < |s.threads|
        ensures TicketsOk(s'.issued, i, s'.threads[i]) && CopyOk(s', s'.threads[i])
      {
        assert TicketsOk(s.issued, i, s.threads[i]);
        GpuCopies(s, s', i);
      }
      GpuHistory(s, s');
    }
  }

  lemma GpuHistory(s: Ring, s': Ring)
    requires Inv(s) && Stored(s, Taken(s))
    requires s'.consumed == s.consumed + [s.issued[Taken(s)].packet]
    requires |s'.slots| == |s.slots|
    requires s' == s.(slots := s'.slots, readIndex := Wrap64(Taken(s) + 1), consumed := s'.consumed)
    ensures Shape(s') && ConsumedOk(s') && HoldersOk(s')
  {
  }

  lemma StepKeepsInv(s: Ring, turn: Turn)
    requires Inv(s) && Legal(turn)
    ensures Inv(Next(s, turn))
  {
    match turn
    case Call(id, packets, excess) => CallKeepsInv(s, id, packets, excess);
    case Gpu(reset) => GpuKeepsInv(s, reset);
    case Step(id) =>
      if id < |s.threads| {
        var t := s.threads[id];
        assert TicketsOk(s.issued, id, t) && CopyOk(s, t);
        match t.pc
        case Idle =>
        case Aborted =>
        case Loop => if t.pos < |t.packets| { ReserveKeepsInv(s, id); } else { ReturnKeepsInv(s, id); }
        case Spin => PollKeepsInv(s, id);
        case Copy(j) => if j < 15 { CopyKeepsInv(s, id); } else { HeaderKeepsInv(s, id); }
        case Bell => BellKeepsInv(s, id);
      }
  }

  /** The invariant holds after every schedule of legal turns from a fresh queue. */
  lemma {:induction false} Reachable(s: Ring, turns: seq<Turn>)
    requires IsFresh(s) && LegalTurns(turns)
    ensures Inv(Run(s, turns))
  {
    if turns == [] {
      FreshInv(s);
    } else {
      Reachable(s, turns[..|turns| - 1]);
      StepKeepsInv(Run(s, turns[..|turns| - 1]), turns[|turns| - 1]);
    }
  }
}
