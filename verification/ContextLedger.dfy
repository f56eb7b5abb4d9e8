/**
 What the version 1 context table does, told by the turns of a run: which contexts are
 counted, published, output and erased, when a record may be output, when the handler
 aborts, and which queue a pass covers.
 */
module ContextLedger {
  import opened MachineWords
  import opened ContextTable

  predicate Live(t: Tool) {
    !t.corrupt && !t.incomplete
  }

  /** Turn p publishes the context. */
  predicate PublishAt(turns: seq<Turn>, p: nat, i: uint32, queue: nat, hasRecord: bool) {
    && p < |turns| && turns[p] == Publish(i, queue, hasRecord)
    && var t := Run(turns[..p]); Live(t) && i in t.table && !t.table[i].valid
  }

  /** Turn c completes the record of the published context. */
  predicate CompleteAt(turns: seq<Turn>, c: nat, i: uint32) {
    && c < |turns| && turns[c] == Complete(i)
    && var t := Run(turns[..c]); Live(t) && i in t.table && t.table[i].valid
  }

  /** A completion came after turn p. */
  ghost predicate CompletedSince(turns: seq<Turn>, p: nat, i: uint32) {
    exists c :: p < c < |turns| && CompleteAt(turns, c, i)
  }

  /** What a table entry holds of its publication at turn p and what came after. */
  ghost predicate Records(turns: seq<Turn>, p: nat, i: uint32, c: Context) {
    PublishAt(turns, p, i, c.queue, c.hasRecord) && (c.complete <==> CompletedSince(turns, p, i))
  }

  lemma PublishBefore(turns: seq<Turn>, n: nat, p: nat, i: uint32, queue: nat, hasRecord: bool)
    requires p < n <= |turns|
    ensures PublishAt(turns[..n], p, i, queue, hasRecord) <==> PublishAt(turns, p, i, queue, hasRecord)
  {
    assert turns[..n][..p] == turns[..p];
  }

  lemma CompleteBefore(turns: seq<Turn>, n: nat, c: nat, i: uint32)
    requires c < n <= |turns|
    ensures CompleteAt(turns[..n], c, i) <==> CompleteAt(turns, c, i)
  {
    assert turns[..n][..c] == turns[..c];
  }

  lemma CompletedNext(turns: seq<Turn>, p: nat, i: uint32)
    requires turns != [] && p < |turns| - 1
    ensures var n := |turns| - 1;
      CompletedSince(turns, p, i) <==> CompletedSince(turns[..n], p, i) || CompleteAt(turns, n, i)
  {
    var n := |turns| - 1;
    forall c: nat | c < n
      ensures CompleteAt(turns[..n], c, i) <==> CompleteAt(turns, c, i)
    {
      CompleteBefore(turns, n, c, i);
    }
    if c :| p < c < n && CompleteAt(turns[..n], c, i) {
      assert CompleteAt(turns, c, i);
    }
    if c :| p < c < |turns| && CompleteAt(turns, c, i) {
      assert c < n ==> CompleteAt(turns[..n], c, i);
    }
  }

  /** How a turn changes a published entry: a completion may come, and nothing else of its
      publication changes. */
  lemma EntryStep(t: Tool, turn: Turn, i: uint32)
    requires i in Next(t, turn).table && Next(t, turn).table[i].valid
    ensures i in t.table
    ensures var c, c' := t.table[i], Next(t, turn).table[i];
      if c.valid then
        && c'.queue == c.queue && c'.hasRecord == c.hasRecord
        && (c'.complete <==> c.complete || (turn == Complete(i) && Live(t)))
      else
        && turn == Publish(i, c'.queue, c'.hasRecord) && Live(t) && !c'.complete
  {
  }

  /** The entry of a published context tells its publication and whether it has completed. */
  lemma {:induction false} EntryMeans(turns: seq<Turn>, i: uint32) returns (p: nat)
    requires i in Run(turns).table && Run(turns).table[i].valid
    ensures Records(turns, p, i, Run(turns).table[i])
  {
    var n := |turns| - 1;
    var b := Run(turns[..n]);
    var c' := Run(turns).table[i];
    EntryStep(b, turns[n], i);
    if b.table[i].valid {
      p := EntryMeans(turns[..n], i);
      PublishBefore(turns, n, p, i, c'.queue, c'.hasRecord);
      CompletedNext(turns, p, i);
    } else {
      p := n;
      assert !CompletedSince(turns, n, i);
    }
  }

  // ----------------------------------------------------- when a record is output

  predicate OutputAt(turns: seq<Turn>, o: nat, i: uint32) {
    o < |turns| && i !in Run(turns[..o]).outputs && i in Run(turns[..o + 1]).outputs
  }

  /** A turn that outputs a context is a handler or a visit, of an entry that is ready. */
  lemma OutputStep(t: Tool, turn: Turn, i: uint32)
    requires i !in t.outputs && i in Next(t, turn).outputs
    ensures i in t.table && t.table[i].valid && t.table[i].active
    ensures t.table[i].hasRecord ==> t.table[i].complete
    ensures Live(t) && (turn == Handle(i) || (turn == Visit && t.pass.Pass? && t.pass.cursor == i))
    ensures turn == Visit ==> t.pass.queue == None || t.pass.queue == Some(t.table[i].queue)
  {
  }

  /** On every run: a context that is output was published before, and if it has a record,
      the record was completed after the publication and before the output. */
  lemma {:induction false} OutputWasReady(turns: seq<Turn>, i: uint32) returns (p: nat, o: nat, queue: nat, hasRecord: bool)
    requires i in Run(turns).outputs
    ensures p < o && PublishAt(turns, p, i, queue, hasRecord) && OutputAt(turns, o, i)
    ensures hasRecord ==> exists c :: p < c < o && CompleteAt(turns, c, i)
  {
    var n := |turns| - 1;
    var b := Run(turns[..n]);
    if i in b.outputs {
      p, o, queue, hasRecord := OutputWasReady(turns[..n], i);
      PublishBefore(turns, n, p, i, queue, hasRecord);
      assert turns[..n][..o] == turns[..o] && turns[..n][..o + 1] == turns[..o + 1];
      if hasRecord {
        var c :| p < c < o && CompleteAt(turns[..n], c, i);
        CompleteBefore(turns, n, c, i);
      }
    } else {
      OutputStep(b, turns[n], i);
      p := EntryMeans(turns[..n], i);
      o, queue, hasRecord := n, b.table[i].queue, b.table[i].hasRecord;
      assert turns[..n + 1] == turns;
      PublishBefore(turns, n, p, i, queue, hasRecord);
      if hasRecord {
        var c :| p < c < n && CompleteAt(turns[..n], c, i);
        CompleteBefore(turns, n, c, i);
      }
    }
  }

  // --------------------------------------------------- published only once

  lemma {:induction false} StatusGrows(turns: seq<Turn>, n: nat)
    requires n <= |turns|
    ensures |Run(turns[..n]).status| <= |Run(turns).status|
  {
    if n < |turns| {
      StatusGrows(turns[..|turns| - 1], n);
      assert turns[..|turns| - 1][..n] == turns[..n];
    } else {
      assert turns[..n] == turns;
    }
  }

  predicate PastPublication(t: Tool, i: uint32) {
    i < |t.status| && (t.status[i].Active? || t.status[i].Collected?)
  }

  lemma PastStays(t: Tool, turn: Turn, i: uint32)
    requires Inv(t) && PastPublication(t, i)
    ensures PastPublication(Next(t, turn), i)
  {
    if turn.Publish? && turn.index in t.table {
      assert EntryOk(t.table, turn.index, t.status[turn.index]);
    }
  }

  /** A context that can be published has not been, and after the turn it has. */
  lemma PublishMoves(t: Tool, i: uint32, queue: nat, hasRecord: bool)
    requires Inv(t) && Live(t) && i in t.table && !t.table[i].valid
    ensures i < |t.status| && t.status[i] == Unpublished
    ensures Next(t, Publish(i, queue, hasRecord)).status == t.status[i := Active]
  {
    assert EntryOk(t.table, i, t.status[i]);
  }

  lemma RunAt(turns: seq<Turn>, n: nat)
    requires n < |turns|
    ensures Run(turns[..n + 1]) == Next(Run(turns[..n]), turns[n])
  {
    assert turns[..n + 1][..n] == turns[..n];
  }

  lemma InvAt(turns: seq<Turn>, n: nat)
    requires n <= |turns| && |Run(turns).status| < TWO_32
    ensures Inv(Run(turns[..n]))
  {
    StatusGrows(turns, n);
    Reachable(turns[..n]);
  }

  lemma PastFrom(turns: seq<Turn>, p: nat, i: uint32, queue: nat, hasRecord: bool)
    requires |Run(turns).status| < TWO_32 && PublishAt(turns, p, i, queue, hasRecord)
    ensures PastPublication(Run(turns[..p + 1]), i)
  {
    InvAt(turns, p);
    RunAt(turns, p);
    PublishMoves(Run(turns[..p]), i, queue, hasRecord);
  }

  lemma PastNext(turns: seq<Turn>, n: nat, i: uint32)
    requires |Run(turns).status| < TWO_32 && n < |turns| && PastPublication(Run(turns[..n]), i)
    ensures PastPublication(Run(turns[..n + 1]), i)
  {
    InvAt(turns, n);
    RunAt(turns, n);
    PastStays(Run(turns[..n]), turns[n], i);
  }

  lemma {:induction false} StaysPast(turns: seq<Turn>, p: nat, n: nat, i: uint32, queue: nat, hasRecord: bool)
    requires |Run(turns).status| < TWO_32 && PublishAt(turns, p, i, queue, hasRecord) && p < n <= |turns|
    ensures PastPublication(Run(turns[..n]), i)
    decreases n
  {
    if n - 1 > p {
      StaysPast(turns, p, n - 1, i, queue, hasRecord);
      PastNext(turns, n - 1, i);
    } else {
      PastFrom(turns, p, i, queue, hasRecord);
    }
  }

  /** No context is published twice. */
  lemma PublishedOnce(turns: seq<Turn>, p: nat, p': nat, i: uint32, queue: nat, queue': nat, hasRecord: bool, hasRecord': bool)
    requires |Run(turns).status| < TWO_32
    requires PublishAt(turns, p, i, queue, hasRecord) && PublishAt(turns, p', i, queue', hasRecord')
    ensures p == p'
  {
    if p < p' {
      NotBefore(turns, p, p', i, queue, queue', hasRecord, hasRecord');
    } else if p' < p {
      NotBefore(turns, p', p, i, queue', queue, hasRecord', hasRecord);
    }
  }

  lemma NotBefore(turns: seq<Turn>, p: nat, p': nat, i: uint32, queue: nat, queue': nat, hasRecord: bool, hasRecord': bool)
    requires |Run(turns).status| < TWO_32
    requires PublishAt(turns, p, i, queue, hasRecord) && PublishAt(turns, p', i, queue', hasRecord')
    ensures p >= p'
  {
    InvAt(turns, p');
    PublishMoves(Run(turns[..p']), i, queue', hasRecord');
    if p < p' {
      StaysPast(turns, p, p', i, queue, hasRecord);
    }
  }

  // ------------------------------------------------------------ the handler aborts

  /** The context was published with a record before turn j, and no completion has come. */
  ghost predicate OpenAt(turns: seq<Turn>, j: nat, i: uint32, p: nat, queue: nat) {
    && p < j <= |turns| && PublishAt(turns, p, i, queue, true)
    && forall c :: p < c < j ==> !CompleteAt(turns, c, i)
  }

  /** Turn j runs the handler of an active context whose record is open. */
  ghost predicate HandlesOpen(turns: seq<Turn>, j: nat) {
    && j < |turns| && turns[j].Handle?
    && (var t := Run(turns[..j]); var i := turns[j].index;
      && Live(t) && t.pass.NoPass? && i in t.table && t.table[i].valid && t.table[i].active
      && exists p, queue :: OpenAt(turns, j, i, p, queue))
  }

  /** The entry of a published context is open exactly when the turns say so. */
  lemma OpenIff(turns: seq<Turn>, j: nat, i: uint32)
    requires j <= |turns| && |Run(turns).status| < TWO_32
    requires i in Run(turns[..j]).table && Run(turns[..j]).table[i].valid
    ensures var c := Run(turns[..j]).table[i];
      c.hasRecord && !c.complete <==> exists p, queue :: OpenAt(turns, j, i, p, queue)
  {
    var c := Run(turns[..j]).table[i];
    var p := EntryMeans(turns[..j], i);
    PublishBefore(turns, j, p, i, c.queue, c.hasRecord);
    forall x: nat | x < j
      ensures CompleteAt(turns[..j], x, i) <==> CompleteAt(turns, x, i)
    {
      CompleteBefore(turns, j, x, i);
    }
    if c.hasRecord && !c.complete {
      assert OpenAt(turns, j, i, p, c.queue);
    }
    if p', queue :| OpenAt(turns, j, i, p', queue) {
      PublishedOnce(turns, p, p', i, c.queue, queue, c.hasRecord, true);
    }
  }

  lemma AbortStep(t: Tool, turn: Turn)
    ensures Next(t, turn).incomplete <==>
      || t.incomplete
      || (turn.Handle? && Live(t) && t.pass.NoPass? && turn.index in t.table && t.table[turn.index].valid
          && t.table[turn.index].active && t.table[turn.index].hasRecord && !t.table[turn.index].complete)
  {
  }

  lemma HandlesBefore(turns: seq<Turn>, n: nat, j: nat)
    requires j < n <= |turns|
    ensures HandlesOpen(turns[..n], j) <==> HandlesOpen(turns, j)
  {
    assert turns[..n][..j] == turns[..j];
    if turns[j].Handle? {
      var i := turns[j].index;
      forall p: nat, queue
        ensures OpenAt(turns[..n], j, i, p, queue) <==> OpenAt(turns, j, i, p, queue)
      {
        OpenBefore(turns, n, j, i, p, queue);
      }
    }
  }

  lemma OpenBefore(turns: seq<Turn>, n: nat, j: nat, i: uint32, p: nat, queue: nat)
    requires j <= n <= |turns|
    ensures OpenAt(turns[..n], j, i, p, queue) <==> OpenAt(turns, j, i, p, queue)
  {
    if p < j {
      PublishBefore(turns, n, p, i, queue, true);
      forall c: nat | c < j
        ensures CompleteAt(turns[..n], c, i) <==> CompleteAt(turns, c, i)
      {
        CompleteBefore(turns, n, c, i);
      }
    }
  }

  /** The program aborts over an incomplete context exactly when a handler ran for an active
      context that was published with a record which no completion had followed. */
  lemma {:induction false} IncompleteIff(turns: seq<Turn>)
    requires |Run(turns).status| < TWO_32
    ensures Run(turns).incomplete <==> exists j :: HandlesOpen(turns, j)
  {
    if turns != [] {
      var n := |turns| - 1;
      StatusGrows(turns, n);
      IncompleteIff(turns[..n]);
      AbortStep(Run(turns[..n]), turns[n]);
      forall j: nat | j < n
        ensures HandlesOpen(turns[..n], j) <==> HandlesOpen(turns, j)
      {
        HandlesBefore(turns, n, j);
      }
      if j :| HandlesOpen(turns[..n], j) {
        assert HandlesOpen(turns, j);
      }
      var t := Run(turns[..n]);
      if turns[n].Handle? && turns[n].index in t.table && t.table[turns[n].index].valid {
        OpenIff(turns, n, turns[n].index);
      }
      assert Run(turns).incomplete <==> t.incomplete || HandlesOpen(turns, n);
    }
  }

  // ------------------------------------------------------- which queue a pass covers

  /** A pass was begun for its queue and has held the mutex since. */
  lemma {:induction false} PassMeans(turns: seq<Turn>) returns (b: nat)
    requires Run(turns).pass.Pass?
    ensures b < |turns| && turns[b] == BeginPass(Run(turns).pass.queue) && Run(turns[..b]).pass.NoPass?
    ensures forall n :: b < n <= |turns| ==> Run(turns[..n]).pass.Pass?
  {
    var n := |turns| - 1;
    assert turns[..n + 1] == turns;
    if Run(turns[..n]).pass.Pass? {
      b := PassMeans(turns[..n]);
      assert turns[..n][..b] == turns[..b];
      forall k | b < k <= |turns|
        ensures Run(turns[..k]).pass.Pass?
      {
        if k <= n {
          assert turns[..n][..k] == turns[..k];
        }
      }
    } else {
      b := n;
    }
  }

  predicate Covers(queue: Option<nat>, q: nat) {
    queue.Some? ==> queue.value == q
  }

  /** When a pass for a queue ends with nothing left to come back for, every context
      published for that queue has been output; and so has every context, for no queue. */
  lemma FinalPassOutputs(turns: seq<Turn>, p: nat, i: uint32, q: nat, hasRecord: bool)
    requires |Run(turns).status| < TWO_32 && !Run(turns).incomplete
    requires Run(turns).pass.Pass? && Run(turns).pass.done && AtEnd(Run(turns).table, Run(turns).pass.cursor)
    requires PublishAt(turns, p, i, q, hasRecord) && Covers(Run(turns).pass.queue, q)
    ensures i in Run(turns).outputs
  {
    Reachable(turns);
    assert turns[..|turns|] == turns;
    StaysPast(turns, p, |turns|, i, q, hasRecord);
    var t := Run(turns);
    assert EntryOk(t.table, i, t.status[i]);
    if i in t.table {
      var p' := EntryMeans(turns, i);
      PublishedOnce(turns, p, p', i, q, t.table[i].queue, hasRecord, t.table[i].hasRecord);
    }
  }

  /** A pass outputs no context of another queue. */
  lemma PassOutputsOwn(turns: seq<Turn>, i: uint32) returns (p: nat, q: nat, hasRecord: bool)
    requires i !in Run(turns).outputs && i in Next(Run(turns), Visit).outputs
    ensures Run(turns).pass.Pass? && PublishAt(turns, p, i, q, hasRecord) && Covers(Run(turns).pass.queue, q)
  {
    OutputStep(Run(turns), Visit, i);
    p := EntryMeans(turns, i);
    q, hasRecord := Run(turns).table[i].queue, Run(turns).table[i].hasRecord;
  }

  /** Turn v of a pass for the queue meets an active context of that queue with its record open. */
  ghost predicate MeetsOpen(turns: seq<Turn>, v: nat, queue: Option<nat>) {
    && v < |turns| && turns[v].Visit? && Run(turns[..v]).pass.Pass? && Run(turns[..v]).pass.queue == queue
    && exists i, p, q :: Run(turns[..v]).pass.cursor == i && OpenAt(turns, v, i, p, q) && Covers(queue, q)
  }

  lemma RetryStep(t: Tool, turn: Turn)
    requires Next(t, turn).pass.Pass? && !Next(t, turn).pass.done && !(t.pass.Pass? && !t.pass.done)
    ensures turn == Visit && t.pass.Pass? && t.pass.queue == Next(t, turn).pass.queue
    ensures 0 <= t.pass.cursor < TWO_32 && t.pass.cursor in t.table && t.table[t.pass.cursor].valid
    ensures var c := t.table[t.pass.cursor];
      c.active && c.hasRecord && !c.complete && Covers(t.pass.queue, c.queue)
  {
  }

  lemma MeetsBefore(turns: seq<Turn>, n: nat, v: nat, queue: Option<nat>)
    requires n <= |turns| && MeetsOpen(turns[..n], v, queue)
    ensures MeetsOpen(turns, v, queue)
  {
    assert turns[..n][..v] == turns[..v];
    var i, p, q :| Run(turns[..v]).pass.cursor == i && OpenAt(turns[..n], v, i, p, q) && Covers(queue, q);
    OpenBefore(turns, n, v, i, p, q);
  }

  /** A pass comes again only for an active context of its queue whose record was still open. */
  lemma {:induction false} RetriesOnlyIf(turns: seq<Turn>)
    requires |Run(turns).status| < TWO_32 && Run(turns).pass.Pass? && !Run(turns).pass.done
    ensures exists v :: MeetsOpen(turns, v, Run(turns).pass.queue)
  {
    var n := |turns| - 1;
    var t, queue := Run(turns[..n]), Run(turns).pass.queue;
    StatusGrows(turns, n);
    if t.pass.Pass? && !t.pass.done {
      RetriesOnlyIf(turns[..n]);
      assert t.pass.queue == queue;
      var v :| MeetsOpen(turns[..n], v, queue);
      MeetsBefore(turns, n, v, queue);
    } else {
      RetryStep(t, turns[n]);
      var i: uint32 := t.pass.cursor;
      var p := EntryMeans(turns[..n], i);
      var q := t.table[i].queue;
      assert OpenAt(turns[..n], n, i, p, q) by {
        forall c | p < c < n
          ensures !CompleteAt(turns[..n], c, i)
        {
        }
      }
      OpenBefore(turns, n, n, i, p, q);
      assert MeetsOpen(turns, n, queue);
    }
  }

  // --------------------------------------------------------------- a pass gets through

  /** n turns of a pass with nothing in between. */
  function Visits(t: Tool, n: nat): Tool
    decreases n
  {
    if n == 0 then t else Visits(Next(t, Visit), n - 1)
  }

  predicate AllPublished(t: Tool) {
    forall k :: k in t.table ==> t.table[k].valid
  }

  /** The pass still has the context before it and may output it. */
  predicate Due(t: Tool, k: uint32) {
    && t.pass.Pass? && k >= t.pass.cursor && k in t.table && t.table[k].active
    && Covers(t.pass.queue, t.table[k].queue) && (t.table[k].hasRecord ==> t.table[k].complete)
  }

  /** One turn of a pass over published entries ends it or brings it on by one index, and a
      context that is due is output or still due. */
  lemma VisitStepOn(t: Tool)
    requires Live(t) && t.pass.Pass? && AllPublished(t)
    ensures var t' := Next(t, Visit);
      && Live(t') && AllPublished(t')
      && (if AtEnd(t.table, t.pass.cursor) then t'.pass.NoPass?
          else t'.pass.Pass? && t'.pass.cursor == t.pass.cursor + 1 && t'.pass.queue == t.pass.queue)
      && (forall k :: k in t.outputs ==> k in t'.outputs)
      && (forall k: uint32 :: Due(t, k) ==> k in t'.outputs || Due(t', k))
  {
  }

  lemma {:induction false} PassEnds(t: Tool) returns (n: nat)
    requires Live(t) && t.pass.Pass? && AllPublished(t)
    ensures var e := Visits(t, n);
      && Live(e) && e.pass.NoPass?
      && (forall k :: k in t.outputs ==> k in e.outputs)
      && (forall k: uint32 :: Due(t, k) ==> k in e.outputs)
    decreases if t.pass.cursor < TWO_32 then TWO_32 - t.pass.cursor else 0
  {
    VisitStepOn(t);
    var t' := Next(t, Visit);
    if AtEnd(t.table, t.pass.cursor) {
      n := 1;
      assert Visits(t, 1) == Visits(t', 0);
    } else {
      var m := PassEnds(t');
      n := m + 1;
    }
  }

  /** From every reachable state with the mutex free and every entry published, a pass for a
      queue can be begun and run to its end, and it outputs every active context of the
      queue, but for those whose record is open. */
  lemma PassOutputs(turns: seq<Turn>, queue: Option<nat>) returns (n: nat)
    requires |Run(turns).status| < TWO_32 && Live(Run(turns)) && Run(turns).pass.NoPass? && AllPublished(Run(turns))
    ensures var t := Run(turns); var e := Visits(Next(t, BeginPass(queue)), n);
      && e.pass.NoPass?
      && forall k: uint32 :: k in t.table && t.table[k].active && Covers(queue, t.table[k].queue) ==>
           k in e.outputs || exists p, q :: OpenAt(turns, |turns|, k, p, q)
  {
    var t := Run(turns);
    var t' := Next(t, BeginPass(queue));
    n := PassEnds(t');
    assert turns[..|turns|] == turns;
    forall k: uint32 | k in t.table && t.table[k].active && Covers(queue, t.table[k].queue)
      ensures k in Visits(t', n).outputs || exists p, q :: OpenAt(turns, |turns|, k, p, q)
    {
      OpenIff(turns, |turns|, k);
      assert Due(t', k) || (t.table[k].hasRecord && !t.table[k].complete);
    }
  }

  // -------------------------------------------------------------------- the ledger

  /** How many dispatches were filtered, contexts created, published and handled. */
  datatype Tally = Tally(filtered: nat, created: nat, published: nat, handled: nat)

  predicate Works(t: Tool, turn: Turn) {
    && Live(t)
    && match turn
       case Filter => t.pass.NoPass?
       case Alloc => t.pass.NoPass?
       case Publish(i, _, _) => i in t.table && !t.table[i].valid
       case Handle(i) => t.pass.NoPass? && i in t.table && t.table[i].valid
       case _ => false
  }

  function Tick(t: Tool, turn: Turn, y: Tally): Tally {
    if !Works(t, turn) then y
    else
      match turn
      case Filter => y.(filtered := y.filtered + 1)
      case Alloc => y.(created := y.created + 1)
      case Publish(_, _, _) => y.(published := y.published + 1)
      case Handle(_) => y.(handled := y.handled + 1)
      case _ => y
  }

  function Tallied(turns: seq<Turn>): Tally {
    if turns == [] then Tally(0, 0, 0, 0)
    else Tick(Run(turns[..|turns| - 1]), turns[|turns| - 1], Tallied(turns[..|turns| - 1]))
  }

  ghost predicate CountsOk(status: seq<Status>, y: Tally) {
    && y.filtered == Count(status, Filtered)
    && y.filtered + y.created == |status|
    && y.published == Count(status, Active) + Count(status, Collected)
  }

  lemma GrownCounts(status: seq<Status>, x: Status, y: Tally)
    requires CountsOk(status, y) && (x.Filtered? || x.Unpublished?)
    ensures CountsOk(status + [x], if x.Filtered? then y.(filtered := y.filtered + 1) else y.(created := y.created + 1))
  {
    CountSnoc(status, x, Filtered);
    CountSnoc(status, x, Active);
    CountSnoc(status, x, Collected);
  }

  lemma MovedCounts(status: seq<Status>, i: nat, x: Status, y: Tally)
    requires CountsOk(status, y) && i < |status|
    requires (status[i].Unpublished? && x.Active?) || (status[i].Active? && x.Collected?)
    ensures CountsOk(status[i := x], if x.Active? then y.(published := y.published + 1) else y)
  {
    CountUpdate(status, i, x, Filtered);
    CountUpdate(status, i, x, Active);
    CountUpdate(status, i, x, Collected);
  }

  /** A handler or a pass collects one active context or changes no status. */
  lemma CollectStep(t: Tool, turn: Turn) returns (i: nat)
    requires Inv(t) && !turn.Filter? && !turn.Alloc? && !turn.Publish?
    ensures Next(t, turn).status == t.status
      || (i < |t.status| && t.status[i] == Active && Next(t, turn).status == t.status[i := Collected])
  {
    i := 0;
    if turn.Handle? && turn.index in t.table && t.table[turn.index].active {
      i := turn.index;
      assert EntryOk(t.table, i, t.status[i]);
    }
    if turn.Visit? && t.pass.Pass? && t.pass.cursor in t.table && t.table[t.pass.cursor].active {
      i := t.pass.cursor;
      assert EntryOk(t.table, i, t.status[i]);
    }
  }

  lemma CountsStep(t: Tool, turn: Turn, y: Tally)
    requires Inv(t) && CountsOk(t.status, y) && |Next(t, turn).status| < TWO_32
    requires turn.Alloc? ==> |t.status| + 1 < TWO_32
    ensures CountsOk(Next(t, turn).status, Tick(t, turn, y))
  {
    match turn
    case Filter => GrownCounts(t.status, Filtered, y);
    case Alloc =>
      AllocIs(t);
      GrownCounts(t.status, Unpublished, y);
    case Publish(i, queue, hasRecord) =>
      if Works(t, turn) {
        PublishMoves(t, i, queue, hasRecord);
        MovedCounts(t.status, i, Active, y);
      }
    case _ =>
      var i := CollectStep(t, turn);
      if Next(t, turn).status != t.status {
        MovedCounts(t.status, i, Collected, y);
      }
  }

  /** Allocation adds a new index to the table and the handler takes one away. */
  lemma TableStep(t: Tool, turn: Turn)
    requires Inv(t) && !Next(t, turn).incomplete && (turn.Alloc? ==> |t.status| + 1 < TWO_32)
    ensures |Next(t, turn).table| == |t.table|
      + (if Works(t, turn) && turn.Alloc? then 1 else 0) - (if Works(t, turn) && turn.Handle? then 1 else 0)
  {
    if Works(t, turn) && turn.Alloc? {
      AllocIs(t);
      assert Next(t, turn).table.Keys == t.table.Keys + {t.count};
    } else if Works(t, turn) && turn.Handle? {
      assert Next(t, turn).table == t.table - {turn.index};
      assert Next(t, turn).table.Keys == t.table.Keys - {turn.index};
    } else {
      assert Next(t, turn).table.Keys == t.table.Keys;
    }
  }

  /** An allocation that may run, with indices left. */
  lemma RoomToAlloc(t: Tool)
    requires Inv(t) && |Next(t, Alloc).status| < TWO_32 && Works(t, Alloc)
    ensures |t.status| + 1 < TWO_32
  {
    IncrementDecrement(t.count);
  }

  ghost predicate TallyOk(t: Tool, y: Tally) {
    CountsOk(t.status, y) && (!t.incomplete ==> y.created == |t.table| + y.handled)
  }

  lemma TallyStep(t: Tool, turn: Turn, y: Tally)
    requires Inv(t) && TallyOk(t, y) && |Next(t, turn).status| < TWO_32
    ensures TallyOk(Next(t, turn), Tick(t, turn, y))
  {
    if Works(t, turn) || !turn.Alloc? {
      if turn.Alloc? {
        RoomToAlloc(t);
      }
      CountsStep(t, turn, y);
      if !Next(t, turn).incomplete {
        TableStep(t, turn);
      }
    }
  }

  lemma {:induction false} TallyHolds(turns: seq<Turn>)
    requires |Run(turns).status| < TWO_32
    ensures TallyOk(Run(turns), Tallied(turns))
  {
    if turns != [] {
      var n := |turns| - 1;
      StatusGrows(turns, n);
      TallyHolds(turns[..n]);
      Reachable(turns[..n]);
      TallyStep(Run(turns[..n]), turns[n], Tallied(turns[..n]));
    }
  }

  /** In any state, with the counter wrapped or not, allocation aborts over a repeated index
      exactly when a context still has the number that the counter shows. */
  lemma CorruptIff(t: Tool)
    requires Live(t) && t.pass.NoPass?
    ensures Next(t, Alloc).corrupt <==> t.count in t.table
  {
    IncrementDecrement(t.count);
  }

  /** The books balance with the turns of the run: every counted context was filtered or
      allocated, every allocated one is unpublished or was published, every published one
      was collected or is active, and what was allocated is in the table or was handled. */
  lemma LedgerBalances(turns: seq<Turn>)
    requires |Run(turns).status| < TWO_32
    ensures var t := Run(turns); var y := Tallied(turns);
      && t.count == y.filtered + y.created
      && y.created == |UnpublishedEntries(t)| + y.published
      && y.published == t.collected + |ActiveEntries(t)|
      && (!t.incomplete ==> y.created == |t.table| + y.handled)
  {
    Reachable(turns);
    TallyHolds(turns);
    StatusesAdd(Run(turns).status);
    EntriesCount(Run(turns));
  }
}
