/**
 The AQL submission ring: any number of host threads run `Submit` against one
 user-mode queue while the packet processor of the GPU drains it.

 The machine below takes one shared-memory access per turn. A thread reserves a
 write index with fetch-add, polls the read index, copies dwords 1..15 of its
 packet one at a time in the order the C library chooses, stores the header dword
 and rings the doorbell. The packet processor (sections 2.8 and 2.9 of the HSA
 Platform System Architecture Specification) waits for a header that is not
 INVALID, takes the packet, makes the header INVALID again and advances the read
 index. Accesses are sequentially consistent.
 */
module AqlRing {
  import opened MachineWords

  type Packet = p: seq<uint32> | |p| == 16
    witness [0, 0, 0, 0, 0, 0, 0, 0, 0, 0, 0, 0, 0, 0, 0, 0]

  /** Packet type 1 in the low byte of the header marks an empty slot. */
  predicate IsInvalid(header: uint32) {
    header % 256 == 1
  }

  /** Where a thread is inside `Submit`; `Copy(j)` has copied j body dwords. */
  datatype Pc = Idle | Loop | Spin | Copy(copied: nat) | Bell | Aborted

  /** A host thread: the packets of its current call and the locals of `Submit`.
      Two histories: the unbounded indices this call has reserved, and every packet
      the thread has ever asked `Submit` to send. */
  datatype Thread = Thread(
    packets: seq<Packet>, pos: nat, pc: Pc, writeIdx: uint64, tickets: seq<nat>, asked: seq<Packet>)

  /** History of one reserved index: its packet, the thread that reserved it and
      whether the header has been stored. */
  datatype Slip = Slip(packet: Packet, owner: nat, stored: bool)

  /** The queue, the threads, and two histories: every index ever reserved and
      every packet the GPU has taken. */
  datatype Ring = Ring(
    size: nat,
    copyOrder: seq<nat>,
    slots: seq<Packet>,
    writeIndex: uint64,
    readIndex: uint64,
    doorbell: uint64,
    threads: seq<Thread>,
    issued: seq<Slip>,
    consumed: seq<Packet>)

  /** One turn of the schedule. A call passes `64 * |packets| + excess` bytes. The
      packet processor may write any INVALID header value back. */
  datatype Turn =
    | Call(id: nat, packets: seq<Packet>, excess: nat)
    | Step(id: nat)
    | Gpu(reset: uint32)

  /** The order in which `memcpy` moves dwords 1..15. */
  predicate IsCopyOrder(order: seq<nat>) {
    && |order| == 15
    && (forall i :: 0 <= i < 15 ==> 1 <= order[i] < 16)
    && (forall k :: 1 <= k < 16 ==> k in order)
  }

  /** What a caller promises: no packet it submits carries an INVALID header. */
  predicate Legal(turn: Turn) {
    turn.Call? ==> forall j :: 0 <= j < |turn.packets| ==> turn.packets[j][0] % 256 != 1
  }

  predicate LegalTurns(turns: seq<Turn>) {
    forall i :: 0 <= i < |turns| ==> Legal(turns[i])
  }

  /** A queue as the runtime hands it out: empty, every header INVALID. */
  predicate IsFresh(s: Ring) {
    && IsPowerOfTwo(s.size) && |s.slots| == s.size
    && IsCopyOrder(s.copyOrder)
    && |s.threads| + s.size <= TWO_64
    && s.writeIndex == 0 && s.readIndex == 0
    && (forall i :: 0 <= i < s.size ==> s.slots[i][0] % 256 == 1)
    && (forall i :: 0 <= i < |s.threads| ==> s.threads[i] == Thread([], 0, Idle, 0, [], []))
    && s.issued == [] && s.consumed == []
  }

  function SetThread(s: Ring, id: nat, t: Thread): Ring
    requires id < |s.threads|
  {
    s.(threads := s.threads[id := t])
  }

  function Last(tickets: seq<nat>): nat
    requires tickets != []
  {
    tickets[|tickets| - 1]
  }

  /** The multi-packet overload aborts on a size that is not a multiple of 64. */
  function CallStep(s: Ring, id: nat, packets: seq<Packet>, excess: nat): Ring {
    if id >= |s.threads| || !s.threads[id].pc.Idle? then s
    else if excess % 64 != 0 then SetThread(s, id, s.threads[id].(pc := Aborted))
    else SetThread(s, id, Thread(packets, 0, Loop, 0, [], s.threads[id].asked + packets))
  }

  /** Fetch-add on the write index. */
  function ReserveStep(s: Ring, id: nat, t: Thread): Ring
    requires id < |s.threads| && t.pos < |t.packets|
  {
    SetThread(s, id, t.(pc := Spin, writeIdx := s.writeIndex, tickets := t.tickets + [|s.issued|]))
      .(writeIndex := Wrap64(s.writeIndex + 1), issued := s.issued + [Slip(t.packets[t.pos], id, false)])
  }

  /** One load of the read index: the loop is left when the difference of the two
      64-bit indices is below the queue size. */
  function PollStep(s: Ring, id: nat, t: Thread): Ring
    requires id < |s.threads|
  {
    if Wrap64(t.writeIdx - s.readIndex) >= s.size then s
    else SetThread(s, id, t.(pc := Copy(0)))
  }

  function WriteDword(s: Ring, idx: uint64, k: nat, v: uint32): Ring
    requires s.size > 0 && |s.slots| == s.size && k < 16
  {
    var slot := idx % s.size;
    s.(slots := s.slots[slot := s.slots[slot][k := v]])
  }

  function CopyStep(s: Ring, id: nat, t: Thread): Ring
    requires id < |s.threads| && t.pos < |t.packets| && t.pc.Copy?
    requires s.size > 0 && |s.slots| == s.size && IsCopyOrder(s.copyOrder)
  {
    if t.pc.copied < 15 then
      var k := s.copyOrder[t.pc.copied];
      SetThread(WriteDword(s, t.writeIdx, k, t.packets[t.pos][k]), id, t.(pc := Copy(t.pc.copied + 1)))
    else if t.tickets == [] || Last(t.tickets) >= |s.issued| then s
    else
      var n := Last(t.tickets);
      SetThread(WriteDword(s, t.writeIdx, 0, t.packets[t.pos][0]), id, t.(pc := Bell))
        .(issued := s.issued[n := s.issued[n].(stored := true)])
  }

  function BellStep(s: Ring, id: nat, t: Thread): Ring
    requires id < |s.threads|
  {
    SetThread(s, id, t.(pc := Loop, pos := t.pos + 1)).(doorbell := t.writeIdx)
  }

  /** One turn of a thread inside `Submit`. */
  function ThreadStep(s: Ring, id: nat): Ring
    requires s.size > 0 && |s.slots| == s.size && IsCopyOrder(s.copyOrder)
  {
    if id >= |s.threads| then s
    else
      var t := s.threads[id];
      match t.pc
      case Idle => s
      case Aborted => s
      case Loop =>
        if t.pos < |t.packets| then ReserveStep(s, id, t) else SetThread(s, id, t.(pc := Idle))
      case Spin => PollStep(s, id, t)
      case Copy(_) => if t.pos < |t.packets| then CopyStep(s, id, t) else s
      case Bell => BellStep(s, id, t)
  }

  /** One turn of the packet processor. */
  function GpuStep(s: Ring, reset: uint32): Ring
    requires s.size > 0 && |s.slots| == s.size
  {
    var slot := s.readIndex % s.size;
    var packet := s.slots[slot];
    if IsInvalid(packet[0]) then s
    else
      var header: uint32 := if IsInvalid(reset) then reset else 1;
      s.(slots := s.slots[slot := packet[0 := header]],
         readIndex := Wrap64(s.readIndex + 1),
         consumed := s.consumed + [packet])
  }

  predicate Operable(s: Ring) {
    s.size > 0 && |s.slots| == s.size && IsCopyOrder(s.copyOrder)
  }

  function Next(s: Ring, turn: Turn): (s': Ring)
    requires Operable(s)
    ensures Operable(s') && |s'.threads| == |s.threads|
  {
    match turn
    case Call(id, packets, excess) => CallStep(s, id, packets, excess)
    case Step(id) => ThreadStep(s, id)
    case Gpu(reset) => GpuStep(s, reset)
  }

  /** The state after a schedule, turn by turn. */
  function Run(s: Ring, turns: seq<Turn>): (s': Ring)
    requires Operable(s)
    ensures Operable(s') && |s'.threads| == |s.threads|
  {
    if turns == [] then s
    else Next(Run(s, turns[..|turns| - 1]), turns[|turns| - 1])
  }
}
