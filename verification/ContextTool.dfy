/** The version 1 context functions in place: the two counters and the map. */
module ContextTool {
  import opened MachineWords
  import opened ContextTable

  /** The turn of a thread inside `dump_context_array`: it takes the mutex for a new pass if
      it holds none, and then visits an entry or ends the pass. */
  function DumpTurn(t: Tool, queue: Option<nat>): Tool {
    Next(Next(t, BeginPass(queue)), Visit)
  }

  /** The first n turns of the other threads, each followed by one of the dumping thread. */
  function Woven(t: Tool, queue: Option<nat>, others: seq<Turn>, n: nat): Tool
    requires n <= |others|
  {
    if n == 0 then t else DumpTurn(Next(Woven(t, queue, others, n - 1), others[n - 1]), queue)
  }

  lemma WovenNext(t: Tool, queue: Option<nat>, others: seq<Turn>, n: nat)
    requires n < |others|
    ensures Woven(t, queue, others, n + 1) == DumpTurn(Next(Woven(t, queue, others, n), others[n]), queue)
  {
  }

  class Contexts {
    var contextCount: uint32
    var contextCollected: uint32
    var contextArray: map<uint32, Context>
    var corrupt: bool
    var incomplete: bool
    var pass: Pass
    ghost var outputs: seq<uint32>
    ghost var status: seq<Status>

    ghost function View(): Tool
      reads this
    {
      Tool(contextCount, contextCollected, contextArray, pass, outputs, status, corrupt, incomplete)
    }

    predicate Running()
      reads this
    {
      !corrupt && !incomplete
    }

    /** Every entry is published, and none of the queue is active. */
    ghost predicate NoneActive(queue: Option<nat>)
      reads this
    {
      forall i :: i in contextArray ==> contextArray[i].valid && (Matches(queue, contextArray[i]) ==> !contextArray[i].active)
    }

    constructor ()
      ensures View() == Initial
    {
      contextCount, contextCollected, contextArray := 0, 0, map[];
      corrupt, incomplete := false, false;
      pass, outputs, status := NoPass, [], [];
    }

    /** A dispatch that the filter rejects is counted and leaves no context. */
    method NextContextCount() returns (count: uint32)
      requires Running() && pass.NoPass?
      modifies `contextCount, `status
      ensures View() == Next(old(View()), Filter)
      ensures count == contextCount
    {
      contextCount := Increment32(contextCount);
      status := status + [Filtered];
      count := contextCount;
    }

    method AllocContextEntry() returns (index: uint32)
      requires Running() && pass.NoPass?
      modifies this
      ensures View() == Next(old(View()), Alloc)
      ensures TableOk(old(View())) && |status| < TWO_32 && !corrupt ==> index == old(contextCount) && index !in old(contextArray)
    {
      index := Decrement32(Increment32(contextCount));
      if index in contextArray {
        corrupt := true;
        return;
      }
      contextCount := Increment32(contextCount);
      contextArray := contextArray[index := Context(false, false, 0, false, false)];
      status := status + [Unpublished];
      IncrementDecrement(old(contextCount));
    }

    /** The end of the dispatch callback: the entry becomes active and valid. */
    method PublishEntry(index: uint32, queue: nat, hasRecord: bool)
      requires Running() && index in contextArray && !contextArray[index].valid
      modifies `contextArray, `status
      ensures View() == Next(old(View()), Publish(index, queue, hasRecord))
    {
      contextArray := contextArray[index := Context(true, true, queue, hasRecord, false)];
      status := if index < |status| then status[index := Active] else status;
    }

    /** One round of `dump_context_entry`: it waits for an entry that is not valid, and
        counts and outputs one that is, unless its record is still open. */
    method DumpContextEntry(index: uint32) returns (waits: bool, dumped: bool)
      requires index in contextArray
      modifies `contextCollected, `outputs, `status
      ensures waits <==> !contextArray[index].valid
      ensures dumped <==> contextArray[index].valid && Ready(contextArray[index])
      ensures View() == if dumped then Dump(old(View()), index) else old(View())
    {
      waits, dumped := !contextArray[index].valid, false;
      if waits {
        return;
      }
      dumped := !contextArray[index].hasRecord || contextArray[index].complete;
      if dumped {
        contextCollected := Increment32(contextCollected);
        outputs := outputs + [index];
        status := if index < |status| then status[index := Collected] else status;
      }
    }

    /** The completion handler: it collects an active entry and erases it. */
    method ContextHandler(index: uint32)
      requires Running() && pass.NoPass? && index in contextArray && contextArray[index].valid
      modifies this
      ensures View() == Next(old(View()), Handle(index))
    {
      if contextArray[index].active {
        var _, dumped := DumpContextEntry(index);
        if !dumped {
          incomplete := true;
          return;
        }
      }
      contextArray := contextArray - {index};
    }

    /** One entry of a pass. It reports an entry that is not published yet. */
    method VisitEntry() returns (blocked: bool)
      requires Running() && pass.Pass? && !AtEnd(contextArray, pass.cursor)
      modifies this
      ensures View() == Next(old(View()), Visit)
      ensures blocked ==> View() == old(View()) && pass.cursor in contextArray && !contextArray[pass.cursor].valid
      ensures !blocked ==> pass.Pass? && pass.cursor == old(pass.cursor) + 1 && pass.queue == old(pass.queue)
      ensures Running()
    {
      var i := pass.cursor;
      blocked := false;
      var done := pass.done;
      if i in contextArray {
        var entry := contextArray[i];
        if !entry.valid {
          return true;
        }
        if Matches(pass.queue, entry) && entry.active {
          var _, dumped := DumpContextEntry(i);
          if dumped {
            contextArray := contextArray[i := entry.(active := false)];
          }
          done := done && dumped;
        }
      }
      pass := Pass(pass.queue, i + 1, done);
    }

    /** One turn of any thread, by the method that is due. */
    method TakeTurn(turn: Turn)
      requires Running()
      modifies this
      ensures View() == Next(old(View()), turn)
    {
      match turn
      case Filter => if pass.NoPass? { var _ := NextContextCount(); }
      case Alloc => if pass.NoPass? { var _ := AllocContextEntry(); }
      case Publish(i, queue, hasRecord) =>
        if i in contextArray && !contextArray[i].valid { PublishEntry(i, queue, hasRecord); }
      case Complete(i) =>
        if i in contextArray && contextArray[i].valid {
          contextArray := contextArray[i := contextArray[i].(complete := true)];
        }
      case Handle(i) =>
        if pass.NoPass? && i in contextArray && contextArray[i].valid { ContextHandler(i); }
      case BeginPass(queue) => if pass.NoPass? { pass := Pass(queue, 0, true); }
      case Visit =>
        if pass.Pass? {
          if AtEnd(contextArray, pass.cursor) {
            pass := NoPass;
          } else {
            var _ := VisitEntry();
          }
        }
    }

    /** `dump_context_array`, pass after pass, while other threads allocate, publish, complete
        and handle contexts: before each of its own turns one of theirs is taken. When it
        returns, every entry is published and none of its queue is active. It returns false
        only if the turns of the others have run out or the program has aborted. */
    method DumpContextArray(queue: Option<nat>, others: seq<Turn>) returns (returned: bool, rounds: nat)
      requires Running() && pass.NoPass? && Inv(View()) && |status| + |others| < TWO_32
      requires forall k :: 0 <= k < |others| ==> !others[k].BeginPass? && !others[k].Visit?
      modifies this
      ensures rounds <= |others| && View() == Woven(old(View()), queue, others, rounds)
      ensures returned ==> pass.NoPass? && NoneActive(queue)
      ensures !returned ==> rounds == |others| || !Running()
    {
      ghost var start := View();
      returned, rounds := false, 0;
      while rounds < |others| && Running()
        invariant rounds <= |others| && View() == Woven(start, queue, others, rounds)
        invariant Inv(View()) && |status| <= |start.status| + rounds
        invariant pass.Pass? ==> pass.queue == queue
      {
        returned := TakeRound(start, others, rounds, queue);
        rounds := rounds + 1;
        if returned {
          return;
        }
      }
    }

    /** A turn of another thread and then one inside `dump_context_array`. */
    method TakeRound(ghost start: Tool, others: seq<Turn>, n: nat, queue: Option<nat>) returns (returned: bool)
      requires Running() && Inv(View()) && |status| + 1 < TWO_32
      requires n < |others| && !others[n].BeginPass? && !others[n].Visit?
      requires pass.Pass? ==> pass.queue == queue
      requires View() == Woven(start, queue, others, n)
      modifies this
      ensures View() == Woven(start, queue, others, n + 1)
      ensures Inv(View()) && |status| <= old(|status|) + 1 && (pass.Pass? ==> pass.queue == queue)
      ensures returned ==> pass.NoPass? && NoneActive(queue)
    {
      WovenNext(start, queue, others, n);
      TurnKeeps(View(), others[n], queue);
      TakeTurn(others[n]);
      returned := false;
      if !incomplete {
        DumpTurnKeeps(View(), queue);
        returned := TakeDumpTurn(queue);
      }
    }

    /** One turn inside `dump_context_array`; it returns at the end of a pass that has left
        nothing to come back for. */
    method TakeDumpTurn(queue: Option<nat>) returns (returned: bool)
      requires Running() && PassOk(View()) && (pass.Pass? ==> pass.queue == queue)
      modifies this
      ensures View() == DumpTurn(old(View()), queue)
      ensures returned ==> pass.NoPass? && NoneActive(queue)
    {
      if pass.NoPass? {
        pass := Pass(queue, 0, true);
      }
      returned := false;
      if AtEnd(contextArray, pass.cursor) {
        returned := pass.done;
        pass := NoPass;
      } else {
        var _ := VisitEntry();
      }
    }
  }

  /** A turn of another thread keeps the invariant and whoever holds the mutex for a pass. */
  lemma TurnKeeps(t: Tool, turn: Turn, queue: Option<nat>)
    requires Inv(t) && |t.status| + 1 < TWO_32 && !turn.BeginPass? && !turn.Visit?
    requires t.pass.Pass? ==> t.pass.queue == queue
    ensures var t' := Next(t, turn);
      Inv(t') && |t'.status| <= |t.status| + 1 && (t'.pass.Pass? ==> t'.pass.queue == queue)
  {
    StepKeepsInv(t, turn);
  }

  lemma DumpTurnKeeps(t: Tool, queue: Option<nat>)
    requires Inv(t) && !t.incomplete && (t.pass.Pass? ==> t.pass.queue == queue)
    ensures var t' := DumpTurn(t, queue);
      Inv(t') && |t'.status| == |t.status| && !t'.incomplete && (t'.pass.Pass? ==> t'.pass.queue == queue)
    ensures Inv(Next(t, BeginPass(queue)))
  {
    StepKeepsInv(t, BeginPass(queue));
    StepKeepsInv(Next(t, BeginPass(queue)), Visit);
  }
}
