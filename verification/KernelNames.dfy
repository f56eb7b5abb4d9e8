/**
 The kernel-name table in place. Each method is one of the functions of the source run
 without interruption; it does what the machine does when only that client has turns.
 */
module KernelNames {
  import opened MachineWords
  import opened KernelNameTable
  import opened KernelNameSafety

  function Iterate<T>(f: T -> T, t: T, n: nat): T
    decreases n
  {
    if n == 0 then t else Iterate(f, f(t), n - 1)
  }

  lemma {:induction false} IterateStay<T>(f: T -> T, t: T, n: nat)
    requires f(t) == t
    ensures Iterate(f, t, n) == t
  {
    if n > 0 {
      IterateStay(f, t, n - 1);
    }
  }

  /** n turns of one client. */
  function Steps(t: Table, id: nat, n: nat): Table {
    Iterate((x: Table) => Next(x, Step(id)), t, n)
  }

  lemma StepsNext(t: Table, id: nat, n: nat)
    ensures Steps(t, id, n + 1) == Steps(Next(t, Step(id)), id, n)
  {
  }

  /** A client that is idle, waiting or aborted stays where it is. */
  lemma StepsStay(t: Table, id: nat, n: nat)
    requires Next(t, Step(id)) == t
    ensures Steps(t, id, n) == t
  {
    IterateStay((x: Table) => Next(x, Step(id)), t, n);
  }

  ghost predicate Ready(t: Table, id: nat) {
    Inv(t) && !t.aborted && !t.fault && t.owner == NOBODY && id < |t.clients| && t.clients[id].Idle?
  }

  /** An acquire with the lock free: the count goes up by one, or the program aborts. */
  function Acquired(t: Table, id: nat, addr: uint64): Table
    requires id < |t.clients| && (addr in t.index ==> t.index[addr] < |t.entries|)
  {
    if addr !in t.index then Goto(t, id, AcquireFind(addr)).(owner := id, aborted := true)
    else
      var it := t.index[addr];
      Goto(SetRefs(t, it, Increment64(t.entries[it].refs)), id, Holding(it))
  }

  lemma AcquireReaches(t: Table, id: nat, addr: uint64)
    requires Ready(t, id)
    ensures addr in t.index ==> t.index[addr] < |t.entries|
    ensures Steps(Next(t, Acquire(id, addr)), id, 4) == Acquired(t, id, addr)
  {
    var t0 := Next(t, Acquire(id, addr));
    var t1 := Next(t0, Step(id));
    assert t1 == Goto(t, id, AcquireFind(addr)).(owner := id);
    var t2 := Next(t1, Step(id));
    StepsNext(t0, id, 3);
    StepsNext(t1, id, 2);
    if addr in t.index {
      var it := t.index[addr];
      assert t.entries[it].alive;
      assert t2 == Goto(t, id, AcquireAdd(it)).(owner := id);
      var t3 := Next(t2, Step(id));
      assert t3 == Goto(SetRefs(t, it, Increment64(t.entries[it].refs)), id, AcquireUnlock(it)).(owner := id);
      StepsNext(t2, id, 1);
      assert Next(t3, Step(id)) == Acquired(t, id, addr);
    } else {
      StepsStay(t2, id, 2);
    }
  }

  /** A set with the lock free: the name is freed or inserted, the program aborts on a
      missing or repeated address, or the client spins on a name that is held. */
  function WasSet(t: Table, id: nat, addr: uint64, free: bool): Table
    requires id < |t.clients| && (addr in t.index ==> t.index[addr] < |t.entries|)
  {
    if addr !in t.index then
      if free then Goto(t, id, SetFind(addr, free)).(aborted := true)
      else t.(entries := t.entries + [Entry(addr, 0, true, true)], index := t.index[addr := |t.entries|])
    else
      var it := t.index[addr];
      if t.entries[it].refs != 0 then Goto(t, id, SetSpin(it, free))
      else if free then
        t.(entries := t.entries[it := t.entries[it].(nameAlive := false, alive := false)], index := t.index - {addr})
      else
        Goto(t, id, SetDelete(it, free))
          .(owner := id, aborted := true, entries := t.entries[it := t.entries[it].(nameAlive := false)])
  }

  lemma SetReaches(t: Table, id: nat, addr: uint64, free: bool)
    requires Ready(t, id)
    ensures addr in t.index ==> t.index[addr] < |t.entries|
    ensures Steps(Next(t, Set(id, addr, free)), id, 7) == WasSet(t, id, addr, free)
  {
    var t0 := Next(t, Set(id, addr, free));
    assert t0 == Goto(t, id, SetFind(addr, free));
    var t1 := Next(t0, Step(id));
    StepsNext(t0, id, 6);
    if addr !in t.index {
      assert t.clients[id := Idle] == t.clients;
      assert t1 == WasSet(t, id, addr, free);
      StepsStay(t1, id, 6);
    } else if t.entries[t.index[addr]].refs != 0 {
      assert t.entries[t.index[addr]].alive;
      assert t1 == WasSet(t, id, addr, free);
      StepsStay(t1, id, 6);
    } else {
      DeleteReaches(t, id, addr, free);
    }
  }

  lemma DeleteReaches(t: Table, id: nat, addr: uint64, free: bool)
    requires Ready(t, id) && addr in t.index && t.index[addr] < |t.entries| && t.entries[t.index[addr]].refs == 0
    ensures Steps(Next(Next(t, Set(id, addr, free)), Step(id)), id, 6) == WasSet(t, id, addr, free)
  {
    var it := t.index[addr];
    assert t.entries[it].alive && t.entries[it].nameAlive;
    var t1 := Next(Next(t, Set(id, addr, free)), Step(id));
    assert t1 == Goto(t, id, SetSpin(it, free));
    var t2 := Next(t1, Step(id));
    assert t2 == Goto(t, id, SetLock(it, free));
    var t3 := Next(t2, Step(id));
    assert t3 == Goto(t, id, SetRecheck(it, free)).(owner := id);
    var t4 := Next(t3, Step(id));
    assert t4 == Goto(t, id, SetDelete(it, free)).(owner := id);
    StepsNext(t1, id, 5);
    StepsNext(t2, id, 4);
    StepsNext(t3, id, 3);
    EraseReaches(t, id, addr, free);
  }

  lemma EraseReaches(t: Table, id: nat, addr: uint64, free: bool)
    requires Ready(t, id) && addr in t.index && t.index[addr] < |t.entries| && t.entries[t.index[addr]].refs == 0
    ensures Steps(Goto(t, id, SetDelete(t.index[addr], free)).(owner := id), id, 3) == WasSet(t, id, addr, free)
  {
    var it := t.index[addr];
    assert t.entries[it].alive && t.entries[it].nameAlive && t.entries[it].addr == addr;
    var t4 := Goto(t, id, SetDelete(it, free)).(owner := id);
    var t5 := Next(t4, Step(id));
    StepsNext(t4, id, 2);
    if free {
      var t6 := Next(t5, Step(id));
      assert t6.clients[id] == SetUnlock && t6.index == t.index - {addr};
      StepsNext(t5, id, 1);
      assert t.clients[id := Idle] == t.clients;
      assert Next(t6, Step(id)) == WasSet(t, id, addr, free);
    } else {
      assert t5 == WasSet(t, id, addr, free);
      StepsStay(t5, id, 2);
    }
  }

  class NameTable {
    var nodes: seq<Entry>
    var symbolsMap: map<uint64, nat>
    var aborted: bool
    var owner: int
    ghost var clients: seq<Pc>

    ghost function View(): Table
      reads this
    {
      Table(nodes, symbolsMap, owner, clients, aborted, false)
    }

    constructor (clientCount: nat)
      requires clientCount < TWO_64
      ensures IsFresh(View()) && |clients| == clientCount
    {
      nodes, symbolsMap, aborted, owner := [], map[], false, NOBODY;
      clients := seq(clientCount, _ => Idle);
    }

    method AcquireKernelNameRef(id: nat, addr: uint64) returns (it: nat)
      requires Ready(View(), id)
      modifies this
      ensures View() == Steps(Next(old(View()), Acquire(id, addr)), id, 4)
      ensures aborted <==> addr !in old(symbolsMap)
      ensures !aborted ==> id < |clients| && clients[id] == Holding(it)
    {
      AcquireReaches(View(), id, addr);
      it := 0;
      if addr !in symbolsMap {
        aborted, owner, clients := true, id, clients[id := AcquireFind(addr)];
        return;
      }
      it := symbolsMap[addr];
      nodes := nodes[it := nodes[it].(refs := Increment64(nodes[it].refs))];
      clients := clients[id := Holding(it)];
    }

    method ReleaseKernelNameRef(id: nat, it: nat)
      requires Inv(View()) && !aborted && id < |clients| && clients[id] == Holding(it)
      modifies this
      ensures View() == Next(old(View()), Release(id))
    {
      assert ClientOk(View(), clients[id]);
      nodes := nodes[it := nodes[it].(refs := Subtract64(nodes[it].refs, 1))];
      clients := clients[id := Idle];
    }

    /** One go of `SetKernelNameRef`; it spins exactly when somebody holds the name. */
    method SetKernelNameRef(id: nat, addr: uint64, free: bool) returns (spins: bool)
      requires Ready(View(), id)
      modifies this
      ensures View() == Steps(Next(old(View()), Set(id, addr, free)), id, 7)
      ensures spins <==> addr in old(symbolsMap) && Holders(old(clients), old(symbolsMap[addr])) != 0
      ensures aborted <==> !spins && (free <==> addr !in old(symbolsMap))
    {
      SetReaches(View(), id, addr, free);
      spins := false;
      if addr !in symbolsMap {
        if free {
          aborted, clients := true, clients[id := SetFind(addr, free)];
        } else {
          symbolsMap, nodes := symbolsMap[addr := |nodes|], nodes + [Entry(addr, 0, true, true)];
        }
        return;
      }
      var it := symbolsMap[addr];
      if nodes[it].refs != 0 {
        spins, clients := true, clients[id := SetSpin(it, free)];
        return;
      }
      nodes := nodes[it := nodes[it].(nameAlive := false)];
      if free {
        nodes := nodes[it := nodes[it].(alive := false)];
        symbolsMap := symbolsMap - {addr};
      } else {
        aborted, owner, clients := true, id, clients[id := SetDelete(it, free)];
      }
    }
  }
}
