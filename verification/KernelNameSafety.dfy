/** Safety of the kernel-name table over every interleaving. */
module KernelNameSafety {
  import opened MachineWords
  import opened KernelNameTable

  lemma {:induction false} HoldersUpdate(clients: seq<Pc>, id: nat, pc: Pc, e: nat)
    requires id < |clients|
    ensures Holders(clients[id := pc], e)
      == Holders(clients, e) - (if HasRef(clients[id], e) then 1 else 0) + (if HasRef(pc, e) then 1 else 0)
  {
    var n := |clients| - 1;
    if id == n {
      assert clients[id := pc][..n] == clients[..n];
    } else {
      assert clients[id := pc][..n] == clients[..n][id := pc];
      HoldersUpdate(clients[..n], id, pc, e);
    }
  }

  lemma {:induction false} NoHolders(clients: seq<Pc>, e: nat)
    requires forall i :: 0 <= i < |clients| ==> !HasRef(clients[i], e)
    ensures Holders(clients, e) == 0
  {
    if clients != [] {
      NoHolders(clients[..|clients| - 1], e);
    }
  }

  lemma {:induction false} SomeHolder(clients: seq<Pc>, id: nat, e: nat)
    requires id < |clients| && HasRef(clients[id], e)
    ensures Holders(clients, e) > 0
  {
    if id < |clients| - 1 {
      SomeHolder(clients[..|clients| - 1], id, e);
    }
  }

  /** The owner after a client goes from one place to another. */
  function OwnerAfter(t: Table, id: nat, pc: Pc): int {
    if InCritical(pc) then id else if t.owner == id then NOBODY else t.owner
  }

  /** A turn that moves one client and perhaps the lock, and touches no entry. */
  lemma MoveKeepsInv(t: Table, id: nat, pc: Pc)
    requires Inv(t) && id < |t.clients|
    requires InCritical(pc) ==> t.owner == NOBODY || t.owner == id
    requires forall e :: HasRef(pc, e) <==> HasRef(t.clients[id], e)
    requires ClientOk(t, pc) && !t.clients[id].SetErase?
    requires forall a, j :: 0 <= j < |t.clients| && j != id && IsSetting(t, pc, a) ==> !IsSetting(t, t.clients[j], a)
    ensures Inv(Goto(t, id, pc).(owner := OwnerAfter(t, id, pc)))
  {
    var t' := Goto(t, id, pc).(owner := OwnerAfter(t, id, pc));
    forall e | 0 <= e < |t.entries|
      ensures t'.entries[e].refs == Holders(t'.clients, e)
    {
      HoldersUpdate(t.clients, id, pc, e);
    }
    forall i | 0 <= i < |t.clients|
      ensures ClientOk(t', t'.clients[i])
    {
      assert i != id ==> ClientOk(t, t.clients[i]);
    }
    assert NamesOk(t');
    SettersFrame(t, t', id, pc);
  }

  /** Setters stay apart when one client moves and no entry changes its address. */
  lemma SettersFrame(t: Table, t': Table, id: nat, pc: Pc)
    requires SettersApart(t) && id < |t.clients| && t'.clients == t.clients[id := pc]
    requires |t.entries| <= |t'.entries|
    requires forall e :: 0 <= e < |t.entries| ==> t'.entries[e].addr == t.entries[e].addr
    requires forall i :: 0 <= i < |t.clients| && UsesEntry(t'.clients[i]) ==> t'.clients[i].e < |t.entries|
    requires forall a, j :: 0 <= j < |t.clients| && j != id && IsSetting(t, pc, a) ==> !IsSetting(t, t.clients[j], a)
    ensures SettersApart(t')
  {
    forall i, j, a | 0 <= i < j < |t.clients| && IsSetting(t', t'.clients[i], a)
      ensures !IsSetting(t', t'.clients[j], a)
    {
      assert IsSetting(t, t'.clients[i], a);
      assert IsSetting(t', t'.clients[j], a) ==> IsSetting(t, t'.clients[j], a);
      if i != id && j != id {
        assert IsSetting(t, t.clients[i], a);
      }
    }
  }

  lemma AcquireAddKeepsInv(t: Table, id: nat)
    requires Inv(t) && id < |t.clients| && t.clients[id].AcquireAdd?
    ensures Inv(ClientStep(t, id)) && ClientStep(t, id).fault == t.fault
  {
    var e := t.clients[id].e;
    assert ClientOk(t, t.clients[id]);
    var t' := ClientStep(t, id);
    forall x | 0 <= x < |t.entries|
      ensures t'.entries[x].refs == Holders(t'.clients, x)
    {
      HoldersUpdate(t.clients, id, AcquireUnlock(e), x);
    }
    forall i | 0 <= i < |t.clients|
      ensures ClientOk(t', t'.clients[i])
    {
      assert ClientOk(t, t.clients[i]);
      assert i != id ==> !InCritical(t.clients[i]);
    }
    assert NamesOk(t');
    SettersFrame(t, t', id, AcquireUnlock(e));
  }

  lemma ReleaseKeepsInv(t: Table, id: nat)
    requires Inv(t) && id < |t.clients| && t.clients[id].Holding?
    ensures Inv(ReleaseStep(t, id)) && ReleaseStep(t, id).fault == t.fault
  {
    var e := t.clients[id].e;
    assert ClientOk(t, t.clients[id]);
    SomeHolder(t.clients, id, e);
    var t' := ReleaseStep(t, id);
    forall x | 0 <= x < |t.entries|
      ensures t'.entries[x].refs == Holders(t'.clients, x)
    {
      HoldersUpdate(t.clients, id, Idle, x);
    }
    forall i | 0 <= i < |t.clients|
      ensures ClientOk(t', t'.clients[i])
    {
      assert ClientOk(t, t.clients[i]);
    }
    assert NamesOk(t');
    SettersFrame(t, t', id, Idle);
  }

  /** No other client relies on the entry that a client is about to delete. */
  lemma DeleterAlone(t: Table, id: nat, i: nat)
    requires Inv(t) && id < |t.clients| && i < |t.clients| && i != id
    requires t.clients[id].SetDelete? || t.clients[id].SetErase?
    ensures UsesEntry(t.clients[i]) ==> t.clients[i].e != t.clients[id].e
  {
    var e := t.clients[id].e;
    var pc := t.clients[i];
    assert ClientOk(t, t.clients[id]) && ClientOk(t, pc);
    if UsesEntry(pc) && pc.e == e {
      if HasRef(pc, e) {
        SomeHolder(t.clients, i, e);
      } else if !InCritical(pc) {
        var a := t.entries[e].addr;
        assert IsSetting(t, t.clients[id], a) && IsSetting(t, pc, a);
      }
    }
  }

  lemma DeleteKeepsInv(t: Table, id: nat)
    requires Inv(t) && id < |t.clients| && t.clients[id].SetDelete? && t.clients[id].free
    ensures Inv(ClientStep(t, id)) && ClientStep(t, id).fault == t.fault
  {
    var e := t.clients[id].e;
    assert ClientOk(t, t.clients[id]);
    var t' := ClientStep(t, id);
    forall x | 0 <= x < |t.entries|
      ensures t'.entries[x].refs == Holders(t'.clients, x)
    {
      HoldersUpdate(t.clients, id, SetErase(e), x);
    }
    forall i | 0 <= i < |t.clients|
      ensures ClientOk(t', t'.clients[i])
    {
      assert ClientOk(t, t.clients[i]);
      if i != id {
        DeleterAlone(t, id, i);
      }
    }
    assert NamesOk(t');
    assert forall a :: IsSetting(t, SetErase(e), a) ==> IsSetting(t, t.clients[id], a);
    SettersMove(t, id, SetErase(e));
    SettersFrame(t, t', id, SetErase(e));
  }

  /** A client that goes on setting the same address stays apart from the others. */
  lemma SettersMove(t: Table, id: nat, pc: Pc)
    requires SettersApart(t) && id < |t.clients|
    requires forall a :: IsSetting(t, pc, a) ==> IsSetting(t, t.clients[id], a)
    ensures forall a, j :: 0 <= j < |t.clients| && j != id && IsSetting(t, pc, a) ==> !IsSetting(t, t.clients[j], a)
  {
    forall a, j | 0 <= j < |t.clients| && j != id && IsSetting(t, pc, a)
      ensures !IsSetting(t, t.clients[j], a)
    {
      assert IsSetting(t, t.clients[id], a);
    }
  }

  lemma EraseKeepsInv(t: Table, id: nat)
    requires Inv(t) && id < |t.clients| && t.clients[id].SetErase?
    ensures Inv(ClientStep(t, id)) && ClientStep(t, id).fault == t.fault
  {
    var e := t.clients[id].e;
    assert ClientOk(t, t.clients[id]);
    var t' := ClientStep(t, id);
    forall x | 0 <= x < |t.entries|
      ensures t'.entries[x].refs == Holders(t'.clients, x)
    {
      HoldersUpdate(t.clients, id, SetUnlock, x);
    }
    forall i | 0 <= i < |t.clients|
      ensures ClientOk(t', t'.clients[i])
    {
      assert ClientOk(t, t.clients[i]);
      if i != id {
        DeleterAlone(t, id, i);
      }
    }
    assert IndexOk(t');
    assert NamesOk(t');
    SettersFrame(t, t', id, SetUnlock);
  }

  lemma InsertKeepsInv(t: Table, id: nat)
    requires Inv(t) && id < |t.clients| && t.clients[id].SetFind? && !t.clients[id].free
    requires t.clients[id].addr !in t.index && t.owner == NOBODY
    ensures Inv(ClientStep(t, id)) && ClientStep(t, id).fault == t.fault
  {
    var t' := ClientStep(t, id);
    var e := |t.entries|;
    forall x | 0 <= x <= e
      ensures t'.entries[x].refs == Holders(t'.clients, x)
    {
      HoldersUpdate(t.clients, id, Idle, x);
      if x == e {
        forall i | 0 <= i < |t.clients|
          ensures !HasRef(t.clients[i], e)
        {
          assert ClientOk(t, t.clients[i]);
        }
        NoHolders(t.clients, e);
      }
    }
    forall i | 0 <= i < |t.clients|
      ensures ClientOk(t', t'.clients[i]) && (UsesEntry(t'.clients[i]) ==> t'.clients[i].e < e)
    {
      assert ClientOk(t, t.clients[i]);
    }
    assert IndexOk(t');
    assert NamesOk(t');
    SettersFrame(t, t', id, Idle);
  }

  /** Where the next turn of a client leads when it changes nothing but its place. */
  function MovesTo(t: Table, id: nat): Pc
    requires id < |t.clients|
  {
    match t.clients[id]
    case AcquireLock(addr) => AcquireFind(addr)
    case AcquireFind(addr) => if addr in t.index then AcquireAdd(t.index[addr]) else t.clients[id]
    case AcquireUnlock(e) => Holding(e)
    case SetFind(addr, free) => if addr in t.index then SetSpin(t.index[addr], free) else t.clients[id]
    case SetSpin(e, free) => SetLock(e, free)
    case SetLock(e, free) => SetRecheck(e, free)
    case SetRecheck(e, free) => if e < |t.entries| && t.entries[e].refs == 0 then SetDelete(e, free) else SetRetry(e, free)
    case SetRetry(e, free) => SetSpin(e, free)
    case SetUnlock => Idle
    case pc => pc
  }

  lemma MoveFits(t: Table, id: nat)
    requires Inv(t) && id < |t.clients|
    requires InCritical(MovesTo(t, id)) ==> t.owner == NOBODY || t.owner == id
    requires !t.clients[id].SetErase?
    ensures forall e :: HasRef(MovesTo(t, id), e) <==> HasRef(t.clients[id], e)
    ensures ClientOk(t, MovesTo(t, id))
    ensures forall a :: IsSetting(t, MovesTo(t, id), a) ==> IsSetting(t, t.clients[id], a)
  {
    assert ClientOk(t, t.clients[id]);
    if t.clients[id].SetRecheck? || t.clients[id].AcquireFind? {
      assert t.owner == id;
    }
  }

  lemma GoKeepsInv(t: Table, id: nat)
    requires Inv(t) && id < |t.clients| && !t.clients[id].SetErase?
    requires InCritical(MovesTo(t, id)) ==> t.owner == NOBODY || t.owner == id
    ensures Inv(Goto(t, id, MovesTo(t, id)).(owner := OwnerAfter(t, id, MovesTo(t, id))))
  {
    MoveFits(t, id);
    SettersMove(t, id, MovesTo(t, id));
    MoveKeepsInv(t, id, MovesTo(t, id));
  }

  lemma SetFindKeepsInv(t: Table, id: nat)
    requires Inv(t) && id < |t.clients| && !t.aborted && !t.fault && t.clients[id].SetFind?
    ensures var t' := ClientStep(t, id); !t'.fault && (t'.aborted || Inv(t'))
  {
    if t.clients[id].addr in t.index {
      GoKeepsInv(t, id);
    } else if !t.clients[id].free && t.owner == NOBODY {
      InsertKeepsInv(t, id);
    }
  }

  /** A client's own turn keeps the invariant, makes no fault, and may only abort. */
  lemma ClientKeepsInv(t: Table, id: nat)
    requires Inv(t) && id < |t.clients| && !t.aborted && !t.fault
    ensures var t' := ClientStep(t, id); !t'.fault && (t'.aborted || Inv(t'))
  {
    var pc := t.clients[id];
    assert ClientOk(t, pc);
    match pc
    case AcquireAdd(_) => AcquireAddKeepsInv(t, id);
    case SetDelete(_, free) => if free { DeleteKeepsInv(t, id); }
    case SetErase(_) => EraseKeepsInv(t, id);
    case SetFind(_, _) => SetFindKeepsInv(t, id);
    case _ =>
      if InCritical(MovesTo(t, id)) ==> t.owner == NOBODY || t.owner == id {
        GoKeepsInv(t, id);
      }
  }

  lemma TurnKeepsInv(t: Table, turn: Turn)
    requires !t.fault && (t.aborted || Inv(t)) && Exclusive(t, turn)
    ensures var t' := Next(t, turn); !t'.fault && (t'.aborted || Inv(t'))
  {
    if !t.aborted && turn.id < |t.clients| {
      var pc := t.clients[turn.id];
      assert ClientOk(t, pc);
      match turn
      case Step(id) => ClientKeepsInv(t, id);
      case Use(_) =>
      case Release(id) => if pc.Holding? { ReleaseKeepsInv(t, id); }
      case Acquire(id, addr) => if pc.Idle? { MoveKeepsInv(t, id, AcquireLock(addr)); }
      case Set(id, addr, free) => if pc.Idle? { MoveKeepsInv(t, id, SetFind(addr, free)); }
    }
  }

  lemma {:induction false} Reachable(t: Table, turns: seq<Turn>)
    requires IsFresh(t) && AllExclusive(t, turns)
    ensures var e := Run(t, turns); !e.fault && (e.aborted || Inv(e))
  {
    if turns == [] {
      forall i | 0 <= i < |t.clients|
        ensures ClientOk(t, t.clients[i])
      {
      }
    } else {
      Reachable(t, turns[..|turns| - 1]);
      TurnKeepsInv(Run(t, turns[..|turns| - 1]), turns[|turns| - 1]);
    }
  }

  /** Over every interleaving no erased entry or deleted name is ever used and nothing is
      deleted twice; every count is the number of references held, and whoever holds a
      reference has a live entry with its name. */
  lemma NameReferenceSafety(t: Table, turns: seq<Turn>)
    requires IsFresh(t) && AllExclusive(t, turns)
    ensures !Run(t, turns).fault
    ensures !Run(t, turns).aborted ==>
      var e := Run(t, turns);
      && (forall x :: 0 <= x < |e.entries| ==> e.entries[x].refs == Holders(e.clients, x))
      && (forall i :: 0 <= i < |e.clients| && e.clients[i].Holding? ==>
            e.clients[i].e < |e.entries| && e.entries[e.clients[i].e].alive && e.entries[e.clients[i].e].nameAlive)
  {
    Reachable(t, turns);
    var e := Run(t, turns);
    if !e.aborted {
      forall i | 0 <= i < |e.clients| && e.clients[i].Holding?
        ensures ClientOk(e, e.clients[i])
      {
      }
    }
  }

  /** A turn that takes away an entry or its name is the delete or the erase of a client
      that has found the count at zero. */
  lemma OnlyDeletersDelete(t: Table, turn: Turn, x: nat)
    requires Inv(t) && turn.id < |t.clients| && x < |t.entries| && x < |Next(t, turn).entries|
    requires var before, after := t.entries[x], Next(t, turn).entries[x];
      (before.alive && !after.alive) || (before.nameAlive && !after.nameAlive)
    ensures t.entries[x].refs == 0
  {
    assert ClientOk(t, t.clients[turn.id]);
    assert turn.Step?;
  }

  /** A name is deleted, and an entry erased, only when nobody holds it. */
  lemma DeletedOnlyUnheld(t: Table, turns: seq<Turn>, turn: Turn, x: nat)
    requires IsFresh(t) && AllExclusive(t, turns) && Exclusive(Run(t, turns), turn)
    requires x < |Run(t, turns).entries| && x < |Next(Run(t, turns), turn).entries|
    requires var before, after := Run(t, turns).entries[x], Next(Run(t, turns), turn).entries[x];
      (before.alive && !after.alive) || (before.nameAlive && !after.nameAlive)
    ensures Holders(Run(t, turns).clients, x) == 0
  {
    Reachable(t, turns);
    OnlyDeletersDelete(Run(t, turns), turn, x);
  }

  /** The recheck under the lock goes on to delete exactly when nobody holds the entry. */
  lemma RecheckIff(t: Table, turns: seq<Turn>, id: nat)
    requires IsFresh(t) && AllExclusive(t, turns)
    requires id < |Run(t, turns).clients| && Run(t, turns).clients[id].SetRecheck? && !Run(t, turns).aborted
    ensures var e := Run(t, turns);
      ClientStep(e, id).clients[id].SetDelete? <==> Holders(e.clients, e.clients[id].e) == 0
  {
    Reachable(t, turns);
    var e := Run(t, turns);
    assert ClientOk(e, e.clients[id]);
  }

  /** Using a reference is a fault exactly when the entry or its name is gone. */
  lemma UseFaultsIff(t: Table, id: nat)
    requires !t.aborted && !t.fault && id < |t.clients| && t.clients[id].Holding?
    ensures Next(t, Use(id)).fault <==>
      var e := t.clients[id].e; e >= |t.entries| || !t.entries[e].alive || !t.entries[e].nameAlive
  {
  }

  // ------------------------------------------------------------ the lock is given back

  /** Turns the owner of the lock needs to give it back. */
  function LockRank(pc: Pc): nat {
    match pc
    case AcquireFind(_) => 3
    case AcquireAdd(_) => 2
    case SetRecheck(_, _) => 4
    case SetDelete(_, _) => 3
    case SetErase(_) => 2
    case _ => if InCritical(pc) then 1 else 0
  }

  /** A turn of the owner brings it nearer to giving the lock back, or aborts. */
  lemma OwnerTurn(t: Table, id: nat)
    requires Inv(t) && !t.aborted && !t.fault && id < |t.clients| && t.owner == id
    ensures 0 < LockRank(t.clients[id]) <= 4
    ensures var t' := Next(t, Step(id));
      && id < |t'.clients|
      && (t'.aborted || LockRank(t'.clients[id]) < LockRank(t.clients[id]))
      && (LockRank(t'.clients[id]) == 0 ==> t'.owner == NOBODY)
  {
    assert InCritical(t.clients[id]) && ClientOk(t, t.clients[id]);
  }

  /** No other turn takes the lock from its owner or moves it. */
  lemma OtherTurn(t: Table, turn: Turn, id: nat)
    requires LockOk(t) && id < |t.clients| && t.owner == id && turn != Step(id)
    ensures var t' := Next(t, turn); id < |t'.clients| && t'.clients[id] == t.clients[id] && t'.owner == id
  {
    assert InCritical(t.clients[id]);
    if turn.id != id && turn.id < |t.clients| {
      assert !InCritical(t.clients[turn.id]);
    }
  }

  /** In every reachable state whoever owns the lock can act, and each of its turns brings it
      nearer to giving the lock back, or aborts; at most four turns are needed. No other
      turn takes the lock away or sets the owner back. */
  lemma LockComesBack(t: Table, turns: seq<Turn>, turn: Turn, id: nat)
    requires IsFresh(t) && AllExclusive(t, turns) && !Run(t, turns).aborted
    requires id < |Run(t, turns).clients| && Run(t, turns).owner == id
    ensures var e := Run(t, turns); var e' := Next(e, turn);
      && 0 < LockRank(e.clients[id]) <= 4
      && id < |e'.clients|
      && (if turn == Step(id) then
            && (e'.aborted || LockRank(e'.clients[id]) < LockRank(e.clients[id]))
            && (LockRank(e'.clients[id]) == 0 ==> e'.owner == NOBODY)
          else e'.clients[id] == e.clients[id] && e'.owner == id)
  {
    Reachable(t, turns);
    OwnerTurn(Run(t, turns), id);
    if turn != Step(id) {
      OtherTurn(Run(t, turns), turn, id);
    }
  }

  // ------------------------------------------------------------ a name that is held

  /** Between the find and the delete of `SetKernelNameRef` for the entry. */
  predicate WaitsFor(pc: Pc, e: nat) {
    (pc.SetSpin? || pc.SetLock? || pc.SetRecheck? || pc.SetRetry?) && pc.e == e
  }

  ghost predicate Blocked(t: Table, i: nat, j: nat, e: nat) {
    && i < |t.clients| && WaitsFor(t.clients[i], e)
    && j < |t.clients| && t.clients[j] == Holding(e)
  }

  /** While client j holds the entry, no turn but its release lets setter i go on. */
  lemma BlockedStep(t: Table, turn: Turn, i: nat, j: nat, e: nat)
    requires Inv(t) && !t.aborted && Blocked(t, i, j, e) && turn != Release(j)
    ensures var t' := Next(t, turn);
      && Blocked(t', i, j, e)
      && (t.clients[i].SetSpin? ==> t'.clients[i] == t.clients[i])
  {
    assert ClientOk(t, t.clients[i]);
    SomeHolder(t.clients, j, e);
    if turn == Step(i) {
      WaiterStays(t, i, e);
    } else {
      OthersStay(t, turn, i, e);
      OthersStay(t, turn, j, e);
    }
  }

  /** Only its own step moves a waiting client, and only its release one that holds. */
  lemma OthersStay(t: Table, turn: Turn, i: nat, e: nat)
    requires i < |t.clients|
    requires (WaitsFor(t.clients[i], e) && turn != Step(i)) || (t.clients[i] == Holding(e) && turn != Release(i))
    ensures var t' := Next(t, turn); i < |t'.clients| && t'.clients[i] == t.clients[i]
  {
  }

  lemma WaiterStays(t: Table, i: nat, e: nat)
    requires i < |t.clients| && WaitsFor(t.clients[i], e)
    requires e < |t.entries| && t.entries[e].alive && t.entries[e].refs != 0
    ensures var t' := ClientStep(t, i);
      && WaitsFor(t'.clients[i], e) && t'.clients == t.clients[i := t'.clients[i]]
      && (t.clients[i].SetSpin? ==> t' == t)
  {
  }

  /** A setter in the wait loop moves on exactly when nobody holds the entry. */
  lemma SpinIff(t: Table, turns: seq<Turn>, id: nat)
    requires IsFresh(t) && AllExclusive(t, turns)
    requires id < |Run(t, turns).clients| && Run(t, turns).clients[id].SetSpin? && !Run(t, turns).aborted
    ensures var e := Run(t, turns);
      Next(e, Step(id)).clients[id] == e.clients[id] <==> Holders(e.clients, e.clients[id].e) != 0
  {
    Reachable(t, turns);
    var e := Run(t, turns);
    assert ClientOk(e, e.clients[id]);
  }

  lemma {:induction false} StaysBlocked(t: Table, more: seq<Turn>, i: nat, j: nat, e: nat)
    requires Inv(t) && !t.aborted && !t.fault && AllExclusive(t, more) && Blocked(t, i, j, e)
    requires forall k :: 0 <= k < |more| ==> more[k] != Release(j)
    ensures var last := Run(t, more);
      && !last.fault
      && (!last.aborted ==>
            Inv(last) && Blocked(last, i, j, e) && (t.clients[i].SetSpin? ==> last.clients[i] == t.clients[i]))
  {
    if more != [] {
      var n := |more| - 1;
      StaysBlocked(t, more[..n], i, j, e);
      var before := Run(t, more[..n]);
      TurnKeepsInv(before, more[n]);
      if !before.aborted {
        BlockedStep(before, more[n], i, j, e);
      }
    }
  }

  /** On every run, a name that a client holds and does not release is never deleted: a
      `SetKernelNameRef` that waits for it waits as long as the program runs, and one that
      spins goes on spinning. */
  lemma HeldBlocksForever(t: Table, turns: seq<Turn>, more: seq<Turn>, i: nat, j: nat, e: nat)
    requires IsFresh(t) && AllExclusive(t, turns) && AllExclusive(Run(t, turns), more)
    requires !Run(t, turns).aborted && Blocked(Run(t, turns), i, j, e)
    requires forall k :: 0 <= k < |more| ==> more[k] != Release(j)
    ensures var now, last := Run(t, turns), Run(Run(t, turns), more);
      !last.aborted ==>
        && Blocked(last, i, j, e)
        && e < |last.entries| && last.entries[e].alive && last.entries[e].nameAlive
        && (now.clients[i].SetSpin? ==> last.clients[i] == now.clients[i])
  {
    Reachable(t, turns);
    StaysBlocked(Run(t, turns), more, i, j, e);
    var last := Run(Run(t, turns), more);
    assert last.aborted || ClientOk(last, last.clients[j]);
  }

  // -------------------------------------------------------- frees that overlap

  lemma {:induction false} RunInTurn(t: Table, turns: seq<Turn>, more: seq<Turn>)
    ensures Run(t, turns + more) == Run(Run(t, turns), more)
  {
    if more == [] {
      assert turns + more == turns;
    } else {
      assert (turns + more)[..|turns + more| - 1] == turns + more[..|more| - 1];
      RunInTurn(t, turns, more[..|more| - 1]);
    }
  }

  /** Two frees of one entry that have both found it, with nobody holding the entry or the lock. */
  predicate Overlap(t: Table, i: nat, j: nat, e: nat) {
    && !t.aborted && !t.fault && t.owner == NOBODY
    && i < |t.clients| && j < |t.clients| && i != j
    && t.clients[i] == SetSpin(e, true) && t.clients[j].SetSpin? && t.clients[j].e == e
    && e < |t.entries| && t.entries[e].alive && t.entries[e].nameAlive && t.entries[e].refs == 0
  }

  lemma FirstDeletes(t: Table, i: nat, j: nat, e: nat)
    requires Overlap(t, i, j, e)
    ensures var t4 := Next(Next(Next(Next(t, Step(i)), Step(i)), Step(i)), Step(i));
      t4 == Goto(t, i, SetErase(e)).(owner := i, entries := t.entries[e := t.entries[e].(nameAlive := false)])
  {
    var t1 := Next(t, Step(i));
    assert t1 == Goto(t, i, SetLock(e, true));
    var t2 := Next(t1, Step(i));
    assert t2 == Goto(t, i, SetRecheck(e, true)).(owner := i);
    var t3 := Next(t2, Step(i));
    assert t3 == Goto(t, i, SetDelete(e, true)).(owner := i);
  }

  lemma SecondFaults(t: Table, i: nat, j: nat, e: nat)
    requires !t.aborted && !t.fault && i < |t.clients| && j < |t.clients| && i != j
    requires t.clients[i] == SetErase(e) && t.clients[j].SetSpin? && t.clients[j].e == e
    requires e < |t.entries| && t.entries[e].alive
    ensures Next(Next(t, Step(i)), Step(j)).fault
  {
    var t1 := Next(t, Step(i));
    assert !t1.entries[e].alive && t1.clients[j] == t.clients[j];
  }

  /** The promise is needed: whenever two frees overlap like this, the first can erase the
      entry, and then the second touches it. */
  lemma OverlapFaults(t: Table, i: nat, j: nat, e: nat) returns (turns: seq<Turn>)
    requires Overlap(t, i, j, e)
    ensures Run(t, turns).fault
  {
    FirstDeletes(t, i, j, e);
    turns := RunTwo(t, [], Step(i), Step(i));
    turns := RunTwo(t, turns, Step(i), Step(i));
    SecondFaults(Run(t, turns), i, j, e);
    turns := RunTwo(t, turns, Step(i), Step(j));
  }

  const Named := Entry(7, 0, true, true)

  function Pair(index: map<uint64, nat>, entries: seq<Entry>, a: Pc, b: Pc): Table {
    Table(entries, index, NOBODY, [a, b], false, false)
  }

  lemma OverlapFinds()
    ensures Next(Next(Pair(map[], [], Idle, Idle), Set(0, 7, false)), Step(0)) == Pair(map[7 := 0], [Named], Idle, Idle)
    ensures Next(Next(Pair(map[7 := 0], [Named], Idle, Idle), Set(0, 7, true)), Step(0))
      == Pair(map[7 := 0], [Named], SetSpin(0, true), Idle)
    ensures Next(Next(Pair(map[7 := 0], [Named], SetSpin(0, true), Idle), Set(1, 7, true)), Step(1))
      == Pair(map[7 := 0], [Named], SetSpin(0, true), SetSpin(0, true))
  {
  }

  /** From an empty table: a set and two overlapping frees of one address reach such a state. */
  lemma OverlappingFreesFault() returns (t: Table, turns: seq<Turn>)
    ensures IsFresh(t) && Run(t, turns).fault
  {
    t := Pair(map[], [], Idle, Idle);
    OverlapFinds();
    turns := RunTwo(t, [], Set(0, 7, false), Step(0));
    turns := RunTwo(t, turns, Set(0, 7, true), Step(0));
    turns := RunTwo(t, turns, Set(1, 7, true), Step(1));
    var more := OverlapFaults(Pair(map[7 := 0], [Named], SetSpin(0, true), SetSpin(0, true)), 0, 1, 0);
    RunInTurn(t, turns, more);
    turns := turns + more;
  }

  lemma RunTwo(t: Table, turns: seq<Turn>, a: Turn, b: Turn) returns (longer: seq<Turn>)
    ensures Run(t, longer) == Next(Next(Run(t, turns), a), b)
  {
    longer := turns + [a, b];
    assert longer[..|turns| + 1] == turns + [a];
    assert (turns + [a])[..|turns|] == turns;
  }
}
