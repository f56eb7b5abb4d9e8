/**
 The table of kernel names and its reference counts. Clients acquire a reference under
 the lock and release it without; a client that frees or re-sets an address spins until
 the count is zero, takes the lock, checks again and only then deletes the name.

 One shared-memory access per turn, sequentially consistent. A table entry stays in
 `entries` after it is erased, so that touching it later can be recorded as a fault.
 The insertion of a new entry is taken as one step under the lock.
 */
module KernelNameTable {
  import opened MachineWords

  /** A map node: its key, count, and whether node and name still exist. */
  datatype Entry = Entry(addr: uint64, refs: uint64, alive: bool, nameAlive: bool)

  /** Where a client is. `e` is the iterator it holds, `free` the argument of
      `SetKernelNameRef`. */
  datatype Pc =
    | Idle
    | AcquireLock(addr: uint64)
    | AcquireFind(addr: uint64)
    | AcquireAdd(e: nat)
    | AcquireUnlock(e: nat)
    | Holding(e: nat)
    | SetFind(addr: uint64, free: bool)
    | SetSpin(e: nat, free: bool)
    | SetLock(e: nat, free: bool)
    | SetRecheck(e: nat, free: bool)
    | SetRetry(e: nat, free: bool)
    | SetDelete(e: nat, free: bool)
    | SetErase(e: nat)
    | SetUnlock

  /** The map, the mutex and the clients. `aborted` is an `abort()`; `fault` records a
      use of an erased node or a deleted name, or a second delete. */
  datatype Table = Table(
    entries: seq<Entry>,
    index: map<uint64, nat>,
    owner: int,
    clients: seq<Pc>,
    aborted: bool,
    fault: bool)

  const NOBODY := -1

  datatype Turn =
    | Acquire(id: nat, addr: uint64)
    | Set(id: nat, addr: uint64, free: bool)
    | Use(id: nat)
    | Release(id: nat)
    | Step(id: nat)

  predicate IsFresh(t: Table) {
    && t.entries == [] && t.index == map[] && t.owner == NOBODY && !t.aborted && !t.fault
    && |t.clients| < TWO_64
    && forall i :: 0 <= i < |t.clients| ==> t.clients[i].Idle?
  }

  /** Between the find and the unlock of `SetKernelNameRef` for the address. */
  predicate IsSetting(t: Table, pc: Pc, addr: uint64) {
    match pc
    case SetFind(a, _) => a == addr
    case SetSpin(e, _) => e < |t.entries| && t.entries[e].addr == addr
    case SetLock(e, _) => e < |t.entries| && t.entries[e].addr == addr
    case SetRecheck(e, _) => e < |t.entries| && t.entries[e].addr == addr
    case SetRetry(e, _) => e < |t.entries| && t.entries[e].addr == addr
    case SetDelete(e, _) => e < |t.entries| && t.entries[e].addr == addr
    case SetErase(e) => e < |t.entries| && t.entries[e].addr == addr
    case _ => false
  }

  /** What callers promise: no two `SetKernelNameRef` calls for one address overlap. */
  predicate Exclusive(t: Table, turn: Turn) {
    turn.Set? ==> forall i :: 0 <= i < |t.clients| ==> !IsSetting(t, t.clients[i], turn.addr)
  }

  function Goto(t: Table, id: nat, pc: Pc): Table
    requires id < |t.clients|
  {
    t.(clients := t.clients[id := pc])
  }

  /** Reading or writing the node behind an iterator. */
  predicate Touches(t: Table, e: nat) {
    e < |t.entries| && t.entries[e].alive
  }

  function Fault(t: Table): Table {
    t.(fault := true)
  }

  function SetRefs(t: Table, e: nat, refs: uint64): Table
    requires e < |t.entries|
  {
    t.(entries := t.entries[e := t.entries[e].(refs := refs)])
  }

  function SetFindStep(t: Table, id: nat, addr: uint64, free: bool): Table
    requires id < |t.clients|
  {
    if addr in t.index then Goto(t, id, SetSpin(t.index[addr], free))
    else if free then t.(aborted := true)
    else if t.owner != NOBODY then t
    else
      Goto(t, id, Idle).(entries := t.entries + [Entry(addr, 0, true, true)],
                         index := t.index[addr := |t.entries|])
  }

  function SetDeleteStep(t: Table, id: nat, e: nat, free: bool): Table
    requires id < |t.clients| && e < |t.entries|
  {
    if !t.entries[e].nameAlive then Fault(t)
    else
      var t' := t.(entries := t.entries[e := t.entries[e].(nameAlive := false)]);
      if free then Goto(t', id, SetErase(e)) else t'.(aborted := true)
  }

  function SetEraseStep(t: Table, id: nat, e: nat): Table
    requires id < |t.clients| && e < |t.entries|
  {
    Goto(t, id, SetUnlock).(entries := t.entries[e := t.entries[e].(alive := false)],
                            index := t.index - {t.entries[e].addr})
  }

  function ClientStep(t: Table, id: nat): Table
    requires id < |t.clients|
  {
    match t.clients[id]
    case Idle => t
    case Holding(_) => t
    case AcquireLock(addr) =>
      if t.owner != NOBODY then t else Goto(t, id, AcquireFind(addr)).(owner := id)
    case AcquireFind(addr) =>
      if addr in t.index then Goto(t, id, AcquireAdd(t.index[addr])) else t.(aborted := true)
    case AcquireAdd(e) =>
      if !Touches(t, e) then Fault(t)
      else Goto(SetRefs(t, e, Increment64(t.entries[e].refs)), id, AcquireUnlock(e))
    case AcquireUnlock(e) => Goto(t, id, Holding(e)).(owner := NOBODY)
    case SetFind(addr, free) => SetFindStep(t, id, addr, free)
    case SetSpin(e, free) =>
      if !Touches(t, e) then Fault(t)
      else if t.entries[e].refs != 0 then t else Goto(t, id, SetLock(e, free))
    case SetLock(e, free) =>
      if t.owner != NOBODY then t else Goto(t, id, SetRecheck(e, free)).(owner := id)
    case SetRecheck(e, free) =>
      if !Touches(t, e) then Fault(t)
      else Goto(t, id, if t.entries[e].refs == 0 then SetDelete(e, free) else SetRetry(e, free))
    case SetRetry(e, free) => Goto(t, id, SetSpin(e, free)).(owner := NOBODY)
    case SetDelete(e, free) => if !Touches(t, e) then Fault(t) else SetDeleteStep(t, id, e, free)
    case SetErase(e) => if !Touches(t, e) then Fault(t) else SetEraseStep(t, id, e)
    case SetUnlock => Goto(t, id, Idle).(owner := NOBODY)
  }

  function UseStep(t: Table, id: nat): Table
    requires id < |t.clients|
  {
    if !t.clients[id].Holding? then t
    else if !Touches(t, t.clients[id].e) || !t.entries[t.clients[id].e].nameAlive then Fault(t)
    else t
  }

  function ReleaseStep(t: Table, id: nat): Table
    requires id < |t.clients|
  {
    if !t.clients[id].Holding? then t
    else
      var e := t.clients[id].e;
      if !Touches(t, e) then Fault(t)
      else Goto(SetRefs(t, e, Subtract64(t.entries[e].refs, 1)), id, Idle)
  }

  function Next(t: Table, turn: Turn): Table {
    if t.aborted || t.fault || turn.id >= |t.clients| then t
    else
      match turn
      case Acquire(id, addr) => if t.clients[id].Idle? then Goto(t, id, AcquireLock(addr)) else t
      case Set(id, addr, free) => if t.clients[id].Idle? then Goto(t, id, SetFind(addr, free)) else t
      case Use(id) => UseStep(t, id)
      case Release(id) => ReleaseStep(t, id)
      case Step(id) => ClientStep(t, id)
  }

  function Run(t: Table, turns: seq<Turn>): Table {
    if turns == [] then t else Next(Run(t, turns[..|turns| - 1]), turns[|turns| - 1])
  }

  /** Every set begins while no other set of its address is under way. */
  predicate AllExclusive(t: Table, turns: seq<Turn>) {
    turns != [] ==>
      && AllExclusive(t, turns[..|turns| - 1])
      && Exclusive(Run(t, turns[..|turns| - 1]), turns[|turns| - 1])
  }

  // ---------------------------------------------------------------- invariant

  /** A reference to the entry is held: from the fetch-add to the fetch-sub. */
  predicate HasRef(pc: Pc, e: nat) {
    (pc.AcquireUnlock? || pc.Holding?) && pc.e == e
  }

  function Holders(clients: seq<Pc>, e: nat): (n: nat)
    ensures n <= |clients|
  {
    if clients == [] then 0
    else Holders(clients[..|clients| - 1], e) + (if HasRef(clients[|clients| - 1], e) then 1 else 0)
  }

  predicate InCritical(pc: Pc) {
    pc.AcquireFind? || pc.AcquireAdd? || pc.AcquireUnlock? || pc.SetRecheck? || pc.SetRetry?
    || pc.SetDelete? || pc.SetErase? || pc.SetUnlock?
  }

  predicate UsesEntry(pc: Pc) {
    pc.AcquireAdd? || pc.AcquireUnlock? || pc.Holding? || pc.SetSpin? || pc.SetLock?
    || pc.SetRecheck? || pc.SetRetry? || pc.SetDelete? || pc.SetErase?
  }

  ghost predicate LockOk(t: Table) {
    forall i :: 0 <= i < |t.clients| ==> (InCritical(t.clients[i]) <==> t.owner == i)
  }

  ghost predicate IndexOk(t: Table) {
    && (forall a :: a in t.index ==> t.index[a] < |t.entries| && t.entries[t.index[a]].addr == a)
    && (forall e :: 0 <= e < |t.entries| ==>
          (t.entries[e].alive <==> t.entries[e].addr in t.index && t.index[t.entries[e].addr] == e))
  }

  /** The count of every entry is the number of references held to it. */
  ghost predicate RefsOk(t: Table) {
    && |t.clients| < TWO_64
    && forall e :: 0 <= e < |t.entries| ==> t.entries[e].refs == Holders(t.clients, e)
  }

  /** A client that has found an entry can rely on it; past the recheck nobody holds it. */
  ghost predicate ClientOk(t: Table, pc: Pc) {
    && (UsesEntry(pc) ==> pc.e < |t.entries| && t.entries[pc.e].alive)
    && (pc.AcquireAdd? || pc.AcquireUnlock? || pc.Holding? || pc.SetDelete? ==> t.entries[pc.e].nameAlive)
    && (pc.SetDelete? || pc.SetErase? ==> t.entries[pc.e].refs == 0)
  }

  /** Only a client about to erase an entry has left it without a name. */
  ghost predicate NamesOk(t: Table) {
    forall e :: 0 <= e < |t.entries| && t.entries[e].alive && !t.entries[e].nameAlive ==>
      0 <= t.owner < |t.clients| && t.clients[t.owner] == SetErase(e)
  }

  ghost predicate SettersApart(t: Table) {
    forall i, j, a {:trigger IsSetting(t, t.clients[i], a), IsSetting(t, t.clients[j], a)} ::
      0 <= i < j < |t.clients| && IsSetting(t, t.clients[i], a) ==> !IsSetting(t, t.clients[j], a)
  }

  ghost predicate Inv(t: Table) {
    && LockOk(t) && IndexOk(t) && RefsOk(t) && NamesOk(t) && SettersApart(t)
    && (forall i :: 0 <= i < |t.clients| ==> ClientOk(t, t.clients[i]))
  }
}
