/**
 The version 1 context table: dispatches allocate contexts, publish them, and two racing
 paths collect them: the completion handler of a context, which then erases it, and the
 pass over all contexts of a queue that is being destroyed.

 Allocation, the filter path and the handler hold the mutex throughout and are one turn
 each. A pass holds the mutex while it visits the entries in order, one per turn;
 publishing and the GPU's completion of a record need no mutex and may come between.
 A handler only runs for a published context.
 */
module ContextTable {
  import opened MachineWords

  /** A table entry: its flags, its queue, and the record the GPU completes, if any. */
  datatype Context = Context(valid: bool, active: bool, queue: nat, hasRecord: bool, complete: bool)

  /** History: what has become of each index handed out. */
  datatype Status = Filtered | Unpublished | Active | Collected

  /** The mutex: free, or held by a pass that has visited the indices below `cursor`. */
  datatype Pass = NoPass | Pass(queue: Option<nat>, cursor: nat, done: bool)

  /** The counters and the map, the mutex, then histories: the indices collected, in
      order, and the status of every index. `corrupt` and `incomplete` are the two
      aborts of the source. */
  datatype Tool = Tool(
    count: uint32,
    collected: uint32,
    table: map<uint32, Context>,
    pass: Pass,
    outputs: seq<uint32>,
    status: seq<Status>,
    corrupt: bool,
    incomplete: bool)

  const Initial := Tool(0, 0, map[], NoPass, [], [], false, false)

  datatype Turn =
    | Filter
    | Alloc
    | Publish(index: uint32, queue: nat, hasRecord: bool)
    | Complete(index: uint32)
    | Handle(index: uint32)
    | BeginPass(passQueue: Option<nat>)
    | Visit

  function Increment32(x: uint32): uint32 {
    (x + 1) % TWO_32
  }

  function Decrement32(x: uint32): uint32 {
    (x - 1) % TWO_32
  }

  function Mark(t: Tool, i: uint32, s: Status): Tool {
    if i < |t.status| then t.(status := t.status[i := s]) else t
  }

  function AllocStep(t: Tool): Tool {
    var count := Increment32(t.count);
    var index := Decrement32(count);
    if index in t.table then t.(corrupt := true)
    else
      t.(count := count, status := t.status + [Unpublished],
         table := t.table[index := Context(false, false, 0, false, false)])
  }

  /** `dump_context_entry` on a complete entry: it counts and outputs it. */
  function Dump(t: Tool, i: uint32): Tool {
    Mark(t, i, Collected).(collected := Increment32(t.collected), outputs := t.outputs + [i])
  }

  predicate Ready(c: Context) {
    c.hasRecord ==> c.complete
  }

  function HandleStep(t: Tool, i: uint32): Tool
    requires i in t.table
  {
    if t.table[i].active && !Ready(t.table[i]) then t.(incomplete := true)
    else
      var t' := if t.table[i].active then Dump(t, i) else t;
      t'.(table := t.table - {i})
  }

  predicate AtEnd(table: map<uint32, Context>, cursor: nat) {
    forall k :: k in table ==> k < cursor
  }

  predicate Matches(queue: Option<nat>, c: Context) {
    queue == None || queue == Some(c.queue)
  }

  /** One entry of a pass; an entry that is not yet published is waited for. */
  function VisitStep(t: Tool): Tool
    requires t.pass.Pass?
  {
    var i := t.pass.cursor;
    if AtEnd(t.table, i) then t.(pass := NoPass)
    else if i !in t.table then t.(pass := t.pass.(cursor := i + 1))
    else if !t.table[i].valid then t
    else if !Matches(t.pass.queue, t.table[i]) || !t.table[i].active then t.(pass := t.pass.(cursor := i + 1))
    else if !Ready(t.table[i]) then t.(pass := t.pass.(cursor := i + 1, done := false))
    else Dump(t, i).(table := t.table[i := t.table[i].(active := false)], pass := t.pass.(cursor := i + 1))
  }

  function Next(t: Tool, turn: Turn): Tool {
    if t.corrupt || t.incomplete then t
    else
      match turn
      case Publish(i, queue, hasRecord) =>
        if i in t.table && !t.table[i].valid then
          Mark(t, i, Active).(table := t.table[i := Context(true, true, queue, hasRecord, false)])
        else t
      case Complete(i) =>
        if i in t.table && t.table[i].valid then t.(table := t.table[i := t.table[i].(complete := true)]) else t
      case Visit => if t.pass.Pass? then VisitStep(t) else t
      case Filter =>
        if t.pass.NoPass? then t.(count := Increment32(t.count), status := t.status + [Filtered]) else t
      case Alloc => if t.pass.NoPass? then AllocStep(t) else t
      case Handle(i) => if t.pass.NoPass? && i in t.table && t.table[i].valid then HandleStep(t, i) else t
      case BeginPass(queue) => if t.pass.NoPass? then t.(pass := Pass(queue, 0, true)) else t
  }

  function Run(turns: seq<Turn>): Tool {
    if turns == [] then Initial else Next(Run(turns[..|turns| - 1]), turns[|turns| - 1])
  }

  // ---------------------------------------------------------------- invariant

  function Count(status: seq<Status>, s: Status): (n: nat)
    ensures n <= |status|
  {
    if status == [] then 0 else Count(status[..|status| - 1], s) + (if status[|status| - 1] == s then 1 else 0)
  }

  /** What the table holds for an index, by what has become of it. */
  ghost predicate EntryOk(table: map<uint32, Context>, i: uint32, s: Status) {
    match s
    case Filtered => i !in table
    case Unpublished => i in table && !table[i].valid && !table[i].active
    case Active => i in table && table[i].valid && table[i].active
    case Collected => i in table ==> table[i].valid && !table[i].active
  }

  ghost predicate TableOk(t: Tool) {
    && |t.status| < TWO_32 && t.count == |t.status|
    && (forall i :: i in t.table ==> i < |t.status|)
    && (forall i: uint32 :: i < |t.status| ==> EntryOk(t.table, i, t.status[i]))
  }

  ghost predicate OutputsOk(t: Tool) {
    && t.collected == |t.outputs| == Count(t.status, Collected)
    && (forall i: uint32 :: i in t.outputs <==> i < |t.status| && t.status[i].Collected?)
    && (forall j, k :: 0 <= j < k < |t.outputs| ==> t.outputs[j] != t.outputs[k])
  }

  /** A pass has left behind it only published entries, and no active one of its queue
      unless it knows that it has to come again. */
  ghost predicate PassOk(t: Tool) {
    t.pass.Pass? ==> forall i :: i in t.table && i < t.pass.cursor ==>
      t.table[i].valid && (t.pass.done && Matches(t.pass.queue, t.table[i]) ==> !t.table[i].active)
  }

  ghost predicate Inv(t: Tool) {
    TableOk(t) && OutputsOk(t) && PassOk(t) && !t.corrupt
  }

  lemma {:induction false} CountUpdate(status: seq<Status>, i: nat, s: Status, x: Status)
    requires i < |status|
    ensures Count(status[i := s], x)
      == Count(status, x) - (if status[i] == x then 1 else 0) + (if s == x then 1 else 0)
  {
    var n := |status| - 1;
    if i == n {
      assert status[i := s][..n] == status[..n];
    } else {
      assert status[i := s][..n] == status[..n][i := s];
      CountUpdate(status[..n], i, s, x);
    }
  }

  lemma CountSnoc(status: seq<Status>, s: Status, x: Status)
    ensures Count(status + [s], x) == Count(status, x) + (if s == x then 1 else 0)
  {
    assert (status + [s])[..|status|] == status;
  }

  lemma IncrementDecrement(x: uint32)
    ensures Decrement32(Increment32(x)) == x
  {
  }

  /** A new index has the number of indices so far, whatever its first status. */
  lemma NewOutputs(t: Tool, t': Tool, s: Status)
    requires TableOk(t) && OutputsOk(t) && !s.Collected?
    requires t'.status == t.status + [s] && t'.collected == t.collected && t'.outputs == t.outputs
    ensures OutputsOk(t')
  {
    CountSnoc(t.status, s, Collected);
  }

  lemma FilterKeepsInv(t: Tool)
    requires Inv(t) && t.pass.NoPass? && !t.incomplete && |t.status| + 1 < TWO_32
    ensures Inv(Next(t, Filter))
  {
    NewOutputs(t, Next(t, Filter), Filtered);
  }

  lemma AllocIs(t: Tool)
    requires TableOk(t) && |t.status| + 1 < TWO_32
    ensures AllocStep(t) == t.(count := t.count + 1, status := t.status + [Unpublished],
                               table := t.table[t.count := Context(false, false, 0, false, false)])
  {
    IncrementDecrement(t.count);
    assert t.count !in t.table;
  }

  lemma AllocKeepsInv(t: Tool)
    requires Inv(t) && t.pass.NoPass? && |t.status| + 1 < TWO_32
    ensures Inv(AllocStep(t))
  {
    AllocIs(t);
    NewOutputs(t, AllocStep(t), Unpublished);
  }

  lemma PublishKeepsInv(t: Tool, i: uint32, queue: nat, hasRecord: bool)
    requires Inv(t)
    ensures Inv(Next(t, Publish(i, queue, hasRecord)))
  {
    if i in t.table {
      assert EntryOk(t.table, i, t.status[i]);
      CountUpdate(t.status, i, Active, Collected);
    }
  }

  lemma CompleteKeepsInv(t: Tool, i: uint32)
    requires Inv(t)
    ensures Inv(Next(t, Complete(i)))
  {
  }

  /** Collecting an active entry: it is output for the first time. */
  lemma DumpOutputs(t: Tool, i: uint32)
    requires TableOk(t) && OutputsOk(t) && i < |t.status| && t.status[i].Active?
    ensures OutputsOk(Dump(t, i))
  {
    CountUpdate(t.status, i, Collected, Collected);
    var t' := Dump(t, i);
    assert Count(t'.status, Collected) == Count(t.status, Collected) + 1 <= |t.status|;
    assert forall x: uint32 :: x in t'.outputs <==> x in t.outputs || x == i;
  }

  /** Collecting an active entry and then erasing it or clearing its flag. */
  lemma DumpKeepsTable(t: Tool, i: uint32, table: map<uint32, Context>)
    requires TableOk(t) && i in t.table && t.table[i].valid
    requires table == t.table - {i} || table == t.table[i := t.table[i].(active := false)]
    ensures TableOk(Dump(t, i).(table := table))
  {
  }

  lemma HandleKeepsInv(t: Tool, i: uint32)
    requires Inv(t) && i in t.table && t.table[i].valid && t.pass.NoPass?
    ensures Inv(HandleStep(t, i))
  {
    assert EntryOk(t.table, i, t.status[i]);
    if t.table[i].active {
      DumpOutputs(t, i);
      DumpKeepsTable(t, i, t.table - {i});
    }
  }

  lemma VisitCollects(t: Tool, i: uint32)
    requires Inv(t) && t.pass.Pass? && t.pass.cursor == i && i in t.table && t.table[i].valid && t.table[i].active
    ensures Inv(Dump(t, i).(table := t.table[i := t.table[i].(active := false)], pass := t.pass.(cursor := i + 1)))
  {
    assert EntryOk(t.table, i, t.status[i]);
    DumpOutputs(t, i);
    DumpKeepsTable(t, i, t.table[i := t.table[i].(active := false)]);
  }

  lemma VisitPasses(t: Tool, done: bool)
    requires Inv(t) && t.pass.Pass? && (done ==> t.pass.done)
    requires var i := t.pass.cursor;
      i in t.table ==> t.table[i].valid && (done ==> !Matches(t.pass.queue, t.table[i]) || !t.table[i].active)
    ensures Inv(t.(pass := t.pass.(cursor := t.pass.cursor + 1, done := done)))
  {
  }

  lemma VisitActive(t: Tool)
    requires Inv(t) && t.pass.Pass? && t.pass.cursor in t.table
    requires t.table[t.pass.cursor].valid && t.table[t.pass.cursor].active
    ensures Inv(VisitStep(t))
  {
    var i := t.pass.cursor;
    VisitCollects(t, i);
    VisitPasses(t, if Matches(t.pass.queue, t.table[i]) then false else t.pass.done);
  }

  lemma VisitKeepsInv(t: Tool)
    requires Inv(t) && t.pass.Pass?
    ensures Inv(VisitStep(t))
  {
    var i := t.pass.cursor;
    if i in t.table && t.table[i].valid && t.table[i].active {
      VisitActive(t);
    } else if i !in t.table || t.table[i].valid {
      VisitPasses(t, t.pass.done);
    }
  }

  lemma StepKeepsInv(t: Tool, turn: Turn)
    requires Inv(t) && |Next(t, turn).status| < TWO_32
    ensures Inv(Next(t, turn))
  {
    if !t.incomplete {
      match turn
      case Filter => if t.pass.NoPass? { FilterKeepsInv(t); }
      case Alloc =>
        if t.pass.NoPass? {
          IncrementDecrement(t.count);
          AllocKeepsInv(t);
        }
      case Publish(i, queue, hasRecord) => PublishKeepsInv(t, i, queue, hasRecord);
      case Complete(i) => CompleteKeepsInv(t, i);
      case Handle(i) => if t.pass.NoPass? && i in t.table && t.table[i].valid { HandleKeepsInv(t, i); }
      case BeginPass(_) =>
      case Visit => if t.pass.Pass? { VisitKeepsInv(t); }
    }
  }

  lemma {:induction false} Reachable(turns: seq<Turn>)
    requires |Run(turns).status| < TWO_32
    ensures Inv(Run(turns))
  {
    if turns != [] {
      var before := turns[..|turns| - 1];
      assert |Run(before).status| <= |Run(turns).status|;
      Reachable(before);
      StepKeepsInv(Run(before), turns[|turns| - 1]);
    }
  }

  // ----------------------------------------------------------------- results

  ghost function UnpublishedEntries(t: Tool): set<uint32> {
    set i | i in t.table && !t.table[i].valid
  }

  ghost function ActiveEntries(t: Tool): set<uint32> {
    set i | i in t.table && t.table[i].valid && t.table[i].active
  }

  ghost function IndicesOf(status: seq<Status>, s: Status): set<uint32> {
    set i: uint32 | i < |status| && status[i] == s
  }

  lemma IndicesNext(status: seq<Status>, s: Status)
    requires 0 < |status| <= TWO_32
    ensures var n := |status| - 1;
      && n !in IndicesOf(status[..n], s)
      && IndicesOf(status, s) == IndicesOf(status[..n], s) + (if status[n] == s then {n} else {})
  {
  }

  lemma {:induction false} IndicesCount(status: seq<Status>, s: Status)
    requires |status| <= TWO_32
    ensures |IndicesOf(status, s)| == Count(status, s)
  {
    if status == [] {
      assert IndicesOf(status, s) == {};
    } else {
      IndicesCount(status[..|status| - 1], s);
      IndicesNext(status, s);
    }
  }

  lemma {:induction false} StatusesAdd(status: seq<Status>)
    ensures |status| == Count(status, Filtered) + Count(status, Unpublished) + Count(status, Active) + Count(status, Collected)
  {
    if status != [] {
      StatusesAdd(status[..|status| - 1]);
    }
  }

  lemma EntriesCount(t: Tool)
    requires TableOk(t)
    ensures |UnpublishedEntries(t)| == Count(t.status, Unpublished)
    ensures |ActiveEntries(t)| == Count(t.status, Active)
  {
    IndicesCount(t.status, Unpublished);
    IndicesCount(t.status, Active);
    forall i: uint32 | i < |t.status|
      ensures EntryOk(t.table, i, t.status[i])
    {
    }
    assert UnpublishedEntries(t) == IndicesOf(t.status, Unpublished);
    assert ActiveEntries(t) == IndicesOf(t.status, Active);
  }

  /** Every context counted is collected, filtered, still unpublished, or published and
      waiting, and only one of these. */
  lemma ContextConservation(turns: seq<Turn>)
    requires |Run(turns).status| < TWO_32
    ensures var t := Run(turns);
      t.count == t.collected + Count(t.status, Filtered) + |UnpublishedEntries(t)| + |ActiveEntries(t)|
  {
    Reachable(turns);
    StatusesAdd(Run(turns).status);
    EntriesCount(Run(turns));
  }

  /** Indices never repeat, so the corruption abort is unreachable; each context is
      output at most once although two paths race for it; what is output is counted
      and no longer active. No index is UINT32_MAX, which the source would count
      without output. */
  lemma CollectedAtMostOnce(turns: seq<Turn>)
    requires |Run(turns).status| < TWO_32
    ensures var t := Run(turns);
      && !t.corrupt
      && |t.outputs| == t.collected
      && (forall j, k :: 0 <= j < k < |t.outputs| ==> t.outputs[j] != t.outputs[k])
      && (forall i :: i in t.outputs && i in t.table ==> !t.table[i].active)
      && (forall i :: i in t.outputs ==> i != TWO_32 - 1)
  {
    Reachable(turns);
    var t := Run(turns);
    forall i | i in t.outputs && i in t.table
      ensures !t.table[i].active
    {
      assert EntryOk(t.table, i, t.status[i]);
    }
  }

  /** When the last pass for a queue ends, every entry is published and none of that
      queue is still active. */
  lemma FinalPassLeavesNoneActive(turns: seq<Turn>)
    requires |Run(turns).status| < TWO_32
    requires Run(turns).pass.Pass? && AtEnd(Run(turns).table, Run(turns).pass.cursor) && Run(turns).pass.done
    requires !Run(turns).incomplete
    ensures var t := Run(turns); var t' := Next(t, Visit);
      && t'.pass.NoPass? && t'.table == t.table
      && forall i :: i in t'.table ==> t'.table[i].valid && (Matches(t.pass.queue, t'.table[i]) ==> !t'.table[i].active)
  {
    Reachable(turns);
  }

  /** When all contexts are erased, each one allocated has been output exactly once. */
  lemma AllErased(turns: seq<Turn>, i: uint32)
    requires |Run(turns).status| < TWO_32 && Run(turns).table == map[]
    ensures var t := Run(turns);
      && t.count == |t.outputs| + Count(t.status, Filtered)
      && (i in t.outputs <==> i < |t.status| && !t.status[i].Filtered?)
  {
    Reachable(turns);
    ContextConservation(turns);
    var t := Run(turns);
    assert UnpublishedEntries(t) == {} && ActiveEntries(t) == {};
    if i < t.count {
      assert EntryOk(t.table, i, t.status[i]);
    }
  }
}
