/**
 The submission ring in place: one flat array of dwords behind `base_address`, the
 two 64-bit indices and the doorbell. Each method is one shared-memory access of
 `Submit` or one turn of the packet processor and does what the machine in `AqlRing`
 says, so every run of these methods has the properties proved there.
 */
module AqlQueue {
  import opened MachineWords
  import opened AqlRing
  import opened AqlRingProof
  import opened AqlRingTheorems

  /** The dwords of slot i. */
  function SlotWords(words: seq<uint32>, i: nat): Packet
    requires 16 * i + 16 <= |words|
  {
    words[16 * i..16 * i + 16]
  }

  function AllSlots(words: seq<uint32>, size: nat): seq<Packet>
    requires 16 * size <= |words|
  {
    seq(size, i requires 0 <= i < size => SlotWords(words, i))
  }

  /** Storing one dword changes one dword of one slot. */
  lemma StoreOneDword(words: seq<uint32>, size: nat, i: nat, k: nat, v: uint32)
    requires 16 * size <= |words| && i < size && k < 16
    ensures AllSlots(words[16 * i + k := v], size)
      == AllSlots(words, size)[i := AllSlots(words, size)[i][k := v]]
  {
    var after := words[16 * i + k := v];
    forall j | 0 <= j < size
      ensures SlotWords(after, j) == if j == i then SlotWords(words, i)[k := v] else SlotWords(words, j)
    {
    }
  }

  class SubmissionQueue {
    const size: nat
    const copyOrder: seq<nat>
    const base: array<uint32>
    var writeIndex: uint64
    var readIndex: uint64
    var doorbell: uint64
    var threads: seq<Thread>
    // Histories; the queue itself never reads them.
    var issued: seq<Slip>
    var consumed: seq<Packet>

    ghost predicate Valid()
      reads this
    {
      0 < size <= 0x400_0000 && base.Length == 16 * size && IsCopyOrder(copyOrder)
    }

    ghost function View(): (s: Ring)
      requires Valid()
      reads this, base
      ensures Operable(s)
    {
      Ring(size, copyOrder, AllSlots(base[..], size), writeIndex, readIndex, doorbell, threads, issued, consumed)
    }

    /** The queue as created: every header INVALID, both indices zero. */
    constructor (size: nat, copyOrder: seq<nat>, threadCount: nat)
      requires 0 < size <= 0x400_0000 && IsPowerOfTwo(size) && IsCopyOrder(copyOrder)
      requires threadCount + size <= TWO_64
      ensures Valid() && fresh(base) && this.size == size && |threads| == threadCount
      ensures IsFresh(View())
    {
      this.size, this.copyOrder := size, copyOrder;
      base := new uint32[16 * size](_ => 1);
      writeIndex, readIndex, doorbell := 0, 0, 0;
      threads := seq(threadCount, _ => Thread([], 0, Idle, 0, [], []));
      issued, consumed := [], [];
      new;
      assert forall i :: 0 <= i < size ==> AllSlots(base[..], size)[i][0] == base[..][16 * i];
    }

    /** Where the slot of a 64-bit index starts, in dwords: the `uint32_t` byte product. */
    function SlotStart(idx: uint64): (at: nat)
      requires Valid()
      reads this
      ensures at == 16 * (idx % size) && at + 16 <= base.Length
    {
      var slot: uint32 := Wrap32(idx % size);
      assert idx % size < size;
      SlotOffset(slot) / 4
    }

    /** `GetReadPointer`: the slot the packet processor looks at next. */
    method GetReadPointer() returns (at: nat)
      requires Valid()
      ensures at + 16 <= base.Length
      ensures base[at..at + 16] == View().slots[readIndex % size]
      ensures Inv(View()) && |consumed| < |issued| && !IsInvalid(base[at]) ==>
        base[at..at + 16] == issued[|consumed|].packet
    {
      at := SlotStart(readIndex);
      assert base[at..at + 16] == SlotWords(base[..], readIndex % size);
      if Inv(View()) {
        HeaderGatesGpu(View());
      }
    }

    method StoreDword(idx: uint64, k: nat, v: uint32)
      requires Valid() && k < 16
      modifies base
      ensures View() == WriteDword(old(View()), idx, k, v)
    {
      ghost var before := base[..];
      var at := SlotStart(idx);
      base[at + k] := v;
      StoreOneDword(before, size, idx % size, k, v);
      assert base[..] == before[16 * (idx % size) + k := v];
    }

    /** Entry of the multi-packet overload, with its size check. */
    method CallSubmit(id: nat, packets: seq<Packet>, excess: nat)
      requires Valid() && id < |threads| && threads[id].pc.Idle?
      modifies `threads
      ensures View() == Next(old(View()), Call(id, packets, excess))
    {
      if excess % 64 != 0 {
        threads := threads[id := threads[id].(pc := Aborted)];
      } else {
        threads := threads[id := Thread(packets, 0, Loop, 0, [], threads[id].asked + packets)];
      }
    }

    /** Head of the packet loop: the fetch-add for the next packet, or the return. */
    method NextPacket(id: nat) returns (result: uint64)
      requires Valid() && id < |threads| && threads[id].pc.Loop?
      modifies `threads, `writeIndex, `issued
      ensures View() == Next(old(View()), Step(id))
      ensures threads[id].pc.Idle? ==> result == old(threads[id].writeIdx)
    {
      var t := threads[id];
      result := t.writeIdx;
      if t.pos < |t.packets| {
        threads := threads[id := t.(pc := Spin, writeIdx := writeIndex, tickets := t.tickets + [|issued|])];
        issued := issued + [Slip(t.packets[t.pos], id, false)];
        writeIndex := Wrap64(writeIndex + 1);
      } else {
        threads := threads[id := t.(pc := Idle)];
      }
    }

    /** One round of the wait loop. */
    method PollReadIndex(id: nat) returns (room: bool)
      requires Valid() && id < |threads| && threads[id].pc.Spin?
      modifies `threads
      ensures View() == Next(old(View()), Step(id))
      ensures room <==> threads[id].pc.Copy?
    {
      var t := threads[id];
      room := Wrap64(t.writeIdx - readIndex) < size;
      if room {
        threads := threads[id := t.(pc := Copy(0))];
      }
    }

    /** One dword of the `memcpy`, or the header store that publishes the packet. */
    method StoreNext(id: nat)
      requires Valid() && id < |threads| && threads[id].pc.Copy?
      requires threads[id].pos < |threads[id].packets| && threads[id].pc.copied <= 15
      requires threads[id].tickets != [] && Last(threads[id].tickets) < |issued|
      modifies `threads, `issued, base
      ensures View() == Next(old(View()), Step(id))
    {
      var t := threads[id];
      if t.pc.copied < 15 {
        var k := copyOrder[t.pc.copied];
        StoreDword(t.writeIdx, k, t.packets[t.pos][k]);
        threads := threads[id := t.(pc := Copy(t.pc.copied + 1))];
      } else {
        StoreDword(t.writeIdx, 0, t.packets[t.pos][0]);
        threads := threads[id := t.(pc := Bell)];
        issued := issued[Last(t.tickets) := issued[Last(t.tickets)].(stored := true)];
      }
    }

    method RingDoorbell(id: nat)
      requires Valid() && id < |threads| && threads[id].pc.Bell?
      modifies `threads, `doorbell
      ensures View() == Next(old(View()), Step(id))
    {
      var t := threads[id];
      doorbell := t.writeIdx;
      threads := threads[id := t.(pc := Loop, pos := t.pos + 1)];
    }

    /** One turn of the packet processor. */
    method ProcessPacket(reset: uint32) returns (taken: bool, packet: Packet)
      requires Valid()
      modifies `readIndex, `consumed, base
      ensures View() == Next(old(View()), Gpu(reset))
      ensures taken ==> consumed == old(consumed) + [packet]
      ensures !taken ==> unchanged(this) && unchanged(base)
    {
      var at := SlotStart(readIndex);
      packet := SlotWords(base[..], readIndex % size);
      taken := !IsInvalid(base[at]);
      if taken {
        StoreDword(readIndex, 0, if IsInvalid(reset) then reset else 1);
        readIndex := Wrap64(readIndex + 1);
        consumed := consumed + [packet];
      }
    }

    /** One turn of a schedule, by the method of the access that is due. */
    method TakeTurn(turn: Turn)
      requires Valid() && Inv(View())
      modifies this, base
      ensures View() == Next(old(View()), turn)
    {
      match turn
      case Gpu(reset) =>
        var _, _ := ProcessPacket(reset);
      case Call(id, packets, excess) =>
        if id < |threads| && threads[id].pc.Idle? {
          CallSubmit(id, packets, excess);
        }
      case Step(id) =>
        if id < |threads| {
          assert TicketsOk(issued, id, threads[id]) && CopyOk(View(), View().threads[id]);
          match threads[id].pc
          case Idle =>
          case Aborted =>
          case Loop => var _ := NextPacket(id);
          case Spin => var _ := PollReadIndex(id);
          case Copy(_) => StoreNext(id);
          case Bell => RingDoorbell(id);
        }
    }

    /** A whole schedule in place, from a fresh queue: the GPU has taken the submitted
        packets in index order. */
    method Play(turns: seq<Turn>)
      requires Valid() && IsFresh(View()) && LegalTurns(turns)
      modifies this, base
      ensures View() == Run(old(View()), turns)
      ensures |consumed| <= |issued| && consumed == PacketsOf(issued)[..|consumed|]
      ensures |threads| == old(|threads|)
      ensures forall id :: 0 <= id < |threads| ==> threads[id].asked == Requested(old(View()), turns, id)
    {
      ghost var start := View();
      var i := 0;
      Reachable(start, []);
      while i < |turns|
        invariant 0 <= i <= |turns|
        invariant View() == Run(start, turns[..i]) && Inv(View())
      {
        TakeTurn(turns[i]);
        assert turns[..i + 1][..i] == turns[..i];
        i := i + 1;
        Reachable(start, turns[..i]);
      }
      assert turns[..i] == turns;
      ConsumedInOrder(start, turns);
      forall id | 0 <= id < |threads|
        ensures threads[id].asked == Requested(start, turns, id)
      {
        AskedIsRequested(start, turns, id);
      }
    }
  }
}
