/**
 Runs of the alert outbox: ingest goroutines enqueue and the clock advances at any moment, also in the
 middle of a tick, while one retry loop takes a batch and handles its entries one by one. The process may
 be restarted at any moment: the rows survive, the batch is lost.
*/
module OutboxRuns {
  import opened Basics
  import opened Outbox

  /** `batch` is what the current tick still has to handle, as the due query returned it. */
  datatype State = State(rows: Rows, nextId: nat, now: int, batch: seq<Entry>)

  datatype Label =
    | Advance(time: int)
    | Enqueue(alert: Alert, error: string)
    | Begin                        // a tick runs the due query
    | Deliver(outcome: Outcome)    // the tick handles the next entry of its batch
    | Restart                      // the process ends and comes up again

  predicate Next(s: State, l: Label, s': State) {
    match l
    case Advance(time) => time >= s.now && s' == s.(now := time)
    case Enqueue(alert, error) =>
      s' == s.(rows := s.rows[s.nextId := NewEntry(s.nextId, alert, error, s.now)], nextId := s.nextId + 1)
    case Begin =>
      s.batch == [] && IsDueBatch(s.rows, s.now, BATCH_SIZE, s'.batch) && s' == s.(batch := s'.batch)
    case Deliver(o) =>
      s.batch != [] && s' == s.(rows := Handle(s.rows, s.batch[0], o, s.now), batch := s.batch[1..])
    case Restart => s' == s.(batch := [])
  }

  /** A finite run: labels[i] leads from states[i] to states[i + 1]. */
  predicate IsRun(states: seq<State>, labels: seq<Label>) {
    && |states| == |labels| + 1
    && forall i :: 0 <= i < |labels| ==> Next(states[i], labels[i], states[i + 1])
  }

  predicate Initial(s: State) {
    s.rows == map[] && s.batch == []
  }

  /** The waits an entry sits through before its k-th failure has been followed by a retry. */
  function TotalBackoff(k: int): int {
    if k <= 0 then 0 else TotalBackoff(k - 1) + Backoff(k)
  }

  /** A stored entry in any reachable state. */
  predicate EntryOk(e: Entry, now: int) {
    && 1 <= e.attempts <= MAX_ATTEMPTS
    && (e.status == Dead <==> e.attempts == MAX_ATTEMPTS)
    && now >= e.createdAt + TotalBackoff(e.attempts - 1)
    && (e.status == Pending ==> e.nextAttemptAt >= e.createdAt + TotalBackoff(e.attempts))
    && (e.attempts == 1 ==> e.nextAttemptAt == e.createdAt + 60)
  }

  predicate Inv(s: State) {
    && Keyed(s.rows)
    && (forall id :: id in s.rows ==> id < s.nextId && EntryOk(s.rows[id], s.now))
    && |s.batch| <= BATCH_SIZE
    && (forall i, j :: 0 <= i < j < |s.batch| ==> s.batch[i].id != s.batch[j].id)
    && (forall e :: e in s.batch ==> e.id in s.rows && s.rows[e.id] == e && Due(e, s.now))
  }

  /** A recorded redelivery keeps a due entry in order: its age covers the waits behind it. */
  lemma HandledEntryOk(rows: Rows, e: Entry, o: Outcome, now: int)
    requires e.id in rows && rows[e.id] == e && EntryOk(e, now) && Due(e, now)
    ensures Handle(rows, e, o, now).Keys == rows.Keys
    ensures EntryOk(Handle(rows, e, o, now)[e.id], now) && Handle(rows, e, o, now)[e.id].id == e.id
    ensures forall id :: id in rows && id != e.id ==> Handle(rows, e, o, now)[id] == rows[id]
  {
  }

  lemma InvStep(s: State, l: Label, s': State)
    requires Inv(s) && Next(s, l, s')
    ensures Inv(s')
  {
    match l
    case Advance(_) =>
    case Enqueue(_, _) =>
      assert TotalBackoff(0) == 0 && TotalBackoff(1) == Backoff(1);
    case Begin =>
      forall i, j | 0 <= i < j < |s'.batch| ensures s'.batch[i].id != s'.batch[j].id {
        assert Before(s'.batch[i], s'.batch[j]);
      }
    case Deliver(o) =>
      InvDeliver(s, o, s');
    case Restart =>
  }

  lemma InvDeliver(s: State, o: Outcome, s': State)
    requires Inv(s) && Next(s, Deliver(o), s')
    ensures Inv(s')
  {
    var e := s.batch[0];
    assert e in s.batch;
    HandledEntryOk(s.rows, e, o, s.now);
    forall b | b in s'.batch ensures b in s.batch && b.id != e.id {
      var k :| 0 <= k < |s'.batch| && s'.batch[k] == b;
      assert s.batch[k + 1] == b;
    }
  }

  /** The invariant holds throughout every run from the empty outbox. */
  lemma {:induction false} InvRun(states: seq<State>, labels: seq<Label>, i: nat)
    requires IsRun(states, labels) && i < |states| && Inv(states[0])
    ensures Inv(states[i])
  {
    if i > 0 {
      InvRun(states, labels, i - 1);
      InvStep(states[i - 1], labels[i - 1], states[i]);
    }
  }

  // ---- Bounded retries

  predicate Handles(s: State, l: Label, id: nat) {
    l.Deliver? && s.batch != [] && s.batch[0].id == id
  }

  /** Redeliveries of an entry that failed and were recorded. */
  function Failures(states: seq<State>, labels: seq<Label>, id: nat): nat
    requires |states| == |labels| + 1
  {
    if labels == [] then 0
    else
      var n := |labels| - 1;
      Failures(states[..n + 1], labels[..n], id)
      + if Handles(states[n], labels[n], id) && labels[n].outcome.written && !labels[n].outcome.delivered then 1 else 0
  }

  /** Redeliveries of an entry that succeeded and were recorded. */
  function Successes(states: seq<State>, labels: seq<Label>, id: nat): nat
    requires |states| == |labels| + 1
  {
    if labels == [] then 0
    else
      var n := |labels| - 1;
      Successes(states[..n + 1], labels[..n], id)
      + if Handles(states[n], labels[n], id) && labels[n].outcome.written && labels[n].outcome.delivered then 1 else 0
  }

  function Ended(e: Entry): nat {
    if e.status == Delivered then 1 else 0
  }

  /** What one step does to one stored entry. */
  lemma EntryStep(s: State, l: Label, s': State, id: nat)
    requires Inv(s) && Next(s, l, s') && id in s.rows
    ensures id in s'.rows
    ensures !(Handles(s, l, id) && l.outcome.written) ==> s'.rows[id] == s.rows[id]
    ensures Handles(s, l, id) ==> s.rows[id] == s.batch[0] && Due(s.rows[id], s.now)
    ensures Handles(s, l, id) && l.outcome.written && l.outcome.delivered ==>
              s'.rows[id] == s.rows[id].(status := Delivered)
    ensures Handles(s, l, id) && l.outcome.written && !l.outcome.delivered ==>
              && s'.rows[id].attempts == s.rows[id].attempts + 1
              && s'.rows[id].status == (if s.rows[id].attempts + 1 == MAX_ATTEMPTS then Dead else Pending)
              && (s'.rows[id].status == Pending ==> s'.rows[id].nextAttemptAt == s.now + Backoff(s'.rows[id].attempts))
              && s'.rows[id].lastError == l.outcome.error
              && s'.rows[id].createdAt == s.rows[id].createdAt && s'.rows[id].alert == s.rows[id].alert
  {
  }

  /**
   From any reachable state on, the attempt counter advances once per recorded failure, delivery is recorded
   at most once, and the recorded redeliveries of an entry number at most 8 - attempts.
  */
  lemma {:induction false} RetriesAreCounted(states: seq<State>, labels: seq<Label>, id: nat)
    requires IsRun(states, labels) && Inv(states[0]) && id in states[0].rows
    ensures id in states[|labels|].rows
    ensures var e, e' := states[0].rows[id], states[|labels|].rows[id];
            var f, d := Failures(states, labels, id), Successes(states, labels, id);
            && e'.attempts == e.attempts + f
            && Ended(e') == Ended(e) + d
            && f + d <= MAX_ATTEMPTS - e.attempts
            && e'.createdAt == e.createdAt && e'.alert == e.alert
            && (e.status != Pending ==> f == d == 0 && e' == e)
  {
    if labels != [] {
      var n := |labels| - 1;
      assert IsRun(states[..n + 1], labels[..n]);
      RetriesAreCounted(states[..n + 1], labels[..n], id);
      InvRun(states, labels, n);
      InvRun(states, labels, n + 1);
      EntryStep(states[n], labels[n], states[n + 1], id);
    }
  }

  /** Rows only ever appear through an enqueue, as pending with one attempt, and never disappear. */
  lemma {:induction false} EntryHistory(states: seq<State>, labels: seq<Label>, id: nat) returns (k: nat)
    requires IsRun(states, labels) && Initial(states[0]) && id in states[|labels|].rows
    ensures k < |labels| && labels[k].Enqueue? && states[k].nextId == id && id in states[k + 1].rows
    ensures states[k + 1].rows[id] == NewEntry(id, labels[k].alert, labels[k].error, states[k].now)
  {
    var n := |labels| - 1;
    if id in states[n].rows {
      assert IsRun(states[..n + 1], labels[..n]);
      k := EntryHistory(states[..n + 1], labels[..n], id);
    } else {
      k := n;
    }
  }

  /** The entry was enqueued by step k, and its row is the tally of its recorded redeliveries since. */
  predicate Tallies(states: seq<State>, labels: seq<Label>, id: nat, k: nat)
    requires |states| == |labels| + 1 && id in states[|labels|].rows
  {
    && k < |labels| && labels[k].Enqueue? && states[k].nextId == id
    && var e, f, d := states[|labels|].rows[id],
                      Failures(states[k + 1..], labels[k + 1..], id), Successes(states[k + 1..], labels[k + 1..], id);
       && e.alert == labels[k].alert && e.createdAt == states[k].now
       && e.attempts == 1 + f && 1 <= e.attempts <= 8
       && (e.status == Dead <==> 1 + f == 8)
       && (e.status == Delivered <==> d == 1)
       && f + d <= 7
  }

  /**
   Bounded retries over whole runs: an entry's attempts are one (the failed delivery that enqueued it) plus its
   recorded failures since; it is dead exactly at eight, delivered exactly after one recorded success.
  */
  lemma BoundedRetries(states: seq<State>, labels: seq<Label>, id: nat)
    requires IsRun(states, labels) && Initial(states[0]) && id in states[|labels|].rows
    ensures exists k :: Tallies(states, labels, id, k)
  {
    var k := EntryHistory(states, labels, id);
    InvRun(states, labels, k + 1);
    InvRun(states, labels, |labels|);
    assert IsRun(states[k + 1..], labels[k + 1..]);
    RetriesAreCounted(states[k + 1..], labels[k + 1..], id);
    assert Tallies(states, labels, id, k);
  }

  // ---- How old an entry is

  /** The waits after 1, 5, 30, 120 and then always 720 minutes add up as the schedule promises. */
  lemma TotalBackoffs()
    ensures TotalBackoff(1) == MINUTE && TotalBackoff(2) == 6 * MINUTE && TotalBackoff(3) == 36 * MINUTE
    ensures TotalBackoff(4) == 156 * MINUTE && TotalBackoff(5) == 876 * MINUTE && TotalBackoff(6) == 1596 * MINUTE
    ensures TotalBackoff(7) == 2316 * MINUTE
  {
  }

  /**
   In every reachable state an entry with k failed attempts is at least backoff(1) + ... + backoff(k - 1) old;
   so no entry is dead-lettered within 2316 minutes of being enqueued.
  */
  lemma AgeBound(states: seq<State>, labels: seq<Label>, id: nat)
    requires IsRun(states, labels) && Initial(states[0]) && id in states[|labels|].rows
    ensures var e, now := states[|labels|].rows[id], states[|labels|].now;
            && now - e.createdAt >= TotalBackoff(e.attempts - 1)
            && (e.attempts == 1 ==> e.nextAttemptAt == e.createdAt + 60)
            && (e.status == Dead ==> now - e.createdAt >= 2316 * MINUTE)
  {
    InvRun(states, labels, |labels|);
    TotalBackoffs();
  }

  // ---- No starvation

  /** The pending entries ordered before e. */
  function Ahead(rows: Rows, e: Entry): set<nat> {
    set id | id in rows && rows[id].status == Pending && Before(rows[id], e)
  }

  function Begins(labels: seq<Label>): nat {
    if labels == [] then 0
    else Begins(labels[..|labels| - 1]) + if labels[|labels| - 1].Begin? then 1 else 0
  }

  function Restarts(labels: seq<Label>): nat {
    if labels == [] then 0
    else Restarts(labels[..|labels| - 1]) + if labels[|labels| - 1].Restart? then 1 else 0
  }

  predicate Lost(l: Label) {
    l.Deliver? && !l.outcome.written
  }

  /** Redeliveries, of any entry, whose row update failed. */
  function LostWrites(labels: seq<Label>): nat {
    if labels == [] then 0
    else LostWrites(labels[..|labels| - 1]) + if Lost(labels[|labels| - 1]) then 1 else 0
  }

  predicate Handled(states: seq<State>, labels: seq<Label>, id: nat)
    requires |states| == |labels| + 1
  {
    exists i :: 0 <= i < |labels| && Handles(states[i], labels[i], id)
  }

  /** The entries ahead of e that the current tick will still handle. */
  function BatchAhead(s: State, e: Entry): set<nat> {
    set b | b in s.batch && b.id in Ahead(s.rows, e) :: b.id
  }

  /**
   While e waits, the batches so far, but for the rest of the current one, came out of the `debt` entries ahead.
   A batch with e in it may be cut short by a restart before e's turn, so it is not counted yet.
  */
  predicate Waiting(s: State, e: Entry, ticks: nat, debt: nat) {
    && e.id in s.rows && s.rows[e.id] == e && Due(e, s.now)
    && BATCH_SIZE * ticks + |Ahead(s.rows, e)| - (if e in s.batch then BATCH_SIZE else |BatchAhead(s, e)|) <= debt
  }

  /** A step of anything but e puts nothing new ahead of e, and a recorded one takes its entry away. */
  lemma AheadStep(s: State, l: Label, s': State, e: Entry)
    requires Inv(s) && Next(s, l, s') && e.id in s.rows && s.rows[e.id] == e && Due(e, s.now)
    requires !Handles(s, l, e.id)
    ensures Ahead(s'.rows, e) ==
            if l.Deliver? && l.outcome.written then Ahead(s.rows, e) - {s.batch[0].id} else Ahead(s.rows, e)
  {
  }

  /** A new batch that does not reach e is full and consists of entries ahead of it. */
  lemma FullBatchIsAhead(s: State, s': State, e: Entry)
    requires Inv(s) && Next(s, Begin, s') && e.id in s.rows && s.rows[e.id] == e && Due(e, s.now)
    requires e !in s'.batch
    ensures |BatchAhead(s', e)| == BATCH_SIZE
  {
    InvStep(s, Begin, s');
    assert forall b :: b in s'.batch ==> b.id in Ahead(s'.rows, e);
    IdsOfBatch(s'.batch);
    assert BatchAhead(s', e) == set b | b in s'.batch :: b.id;
  }

  /** A batch of n entries has at most n ids, and n if they are distinct. */
  lemma {:induction false} IdsOfBatch(batch: seq<Entry>)
    ensures |set b | b in batch :: b.id| <= |batch|
    ensures (forall i, j :: 0 <= i < j < |batch| ==> batch[i].id != batch[j].id) ==>
              |set b | b in batch :: b.id| == |batch|
  {
    if batch != [] {
      var n := |batch| - 1;
      IdsOfBatch(batch[..n]);
      var before := set b | b in batch[..n] :: b.id;
      assert batch == batch[..n] + [batch[n]];
      assert (set b | b in batch :: b.id) == before + {batch[n].id};
    }
  }

  /** Handling the first entry of the batch takes its id, and no other, out of those the tick will still handle. */
  lemma BatchAheadStep(s: State, o: Outcome, s': State, e: Entry)
    requires Inv(s) && Next(s, Deliver(o), s') && e.id in s.rows && s.rows[e.id] == e && Due(e, s.now)
    requires !Handles(s, Deliver(o), e.id)
    ensures BatchAhead(s', e) == BatchAhead(s, e) - {s.batch[0].id}
  {
    AheadStep(s, Deliver(o), s', e);
    var b := s.batch[0];
    forall x | x in s'.batch ensures x in s.batch && x.id != b.id {
      var k :| 0 <= k < |s'.batch| && s'.batch[k] == x;
      assert s.batch[k + 1] == x;
    }
    forall x | x in s.batch && x.id != b.id ensures x in s'.batch {
    }
  }

  lemma BatchAheadFits(s: State, e: Entry)
    requires |s.batch| <= BATCH_SIZE
    ensures |BatchAhead(s, e)| <= BATCH_SIZE
  {
    IdsOfBatch(s.batch);
    SubsetSize(BatchAhead(s, e), set b | b in s.batch :: b.id);
  }

  lemma WaitingStep(s: State, l: Label, s': State, e: Entry, ticks: nat, debt: nat)
    requires Inv(s) && Next(s, l, s') && Waiting(s, e, ticks, debt) && !Handles(s, l, e.id)
    ensures Waiting(s', e, ticks + if l.Begin? then 1 else 0,
                    debt + if Lost(l) then 1 else if l.Restart? then BATCH_SIZE else 0)
  {
    EntryStep(s, l, s', e.id);
    AheadStep(s, l, s', e);
    match l
    case Advance(_) =>
      assert BatchAhead(s', e) == BatchAhead(s, e);
    case Enqueue(_, _) =>
      assert BatchAhead(s', e) == BatchAhead(s, e);
    case Begin =>
      if e !in s'.batch {
        assert BatchAhead(s, e) == {};
        FullBatchIsAhead(s, s', e);
      }
    case Deliver(o) =>
      if e in s.batch {
        assert e in s'.batch;
      } else {
        BatchAheadStep(s, o, s', e);
        assert s.batch[0] in s.batch;
        assert s.batch[0].id in Ahead(s.rows, e) <==> s.batch[0].id in BatchAhead(s, e);
      }
    case Restart =>
      BatchAheadFits(s, e);
      assert BatchAhead(s', e) == {};
  }

  /** A run up to any point is a run, and what the whole run does not handle it does not handle either. */
  lemma UnhandledBefore(states: seq<State>, labels: seq<Label>, id: nat, n: nat)
    requires IsRun(states, labels) && n <= |labels| && !Handled(states, labels, id)
    ensures IsRun(states[..n + 1], labels[..n]) && !Handled(states[..n + 1], labels[..n], id)
  {
    forall i | 0 <= i < n ensures !Handles(states[..n + 1][i], labels[..n][i], id) {
      assert !Handles(states[i], labels[i], id);
    }
  }

  /** The entries ahead of e at the start, the updates lost since, and a whole batch for every restart. */
  function Debt(states: seq<State>, labels: seq<Label>, id: nat): nat
    requires |states| == |labels| + 1 && id in states[0].rows
  {
    |Ahead(states[0].rows, states[0].rows[id])| + LostWrites(labels) + BATCH_SIZE * Restarts(labels)
  }

  /** As many ticks as empty the r entries ahead and the f lost updates, one more, and one for every restart. */
  function EnoughTicks(states: seq<State>, labels: seq<Label>, id: nat): nat
    requires |states| == |labels| + 1 && id in states[0].rows
  {
    (|Ahead(states[0].rows, states[0].rows[id])| + LostWrites(labels)) / 20 + 1 + Restarts(labels)
  }

  lemma {:induction false} WaitingRun(states: seq<State>, labels: seq<Label>, id: nat)
    requires IsRun(states, labels) && Inv(states[0])
    requires id in states[0].rows && Due(states[0].rows[id], states[0].now)
    requires !Handled(states, labels, id)
    ensures Waiting(states[|labels|], states[0].rows[id], Begins(labels), Debt(states, labels, id))
  {
    if labels != [] {
      var n := |labels| - 1;
      var before, done := states[..n + 1], labels[..n];
      UnhandledBefore(states, labels, id, n);
      WaitingRun(before, done, id);
      InvRun(states, labels, n);
      assert !Handles(states[n], labels[n], id);
      WaitingStep(states[n], labels[n], states[n + 1], states[0].rows[id], Begins(done), Debt(before, done, id));
    }
  }

  /**
   No starvation, from any reachable state, also in the middle of a tick: an entry that is due with r pending entries
   ordered before it is handled by the (r + f) / 20 + 1 + c ticks that begin next, where f counts the row updates that
   fail and c the restarts meanwhile, whatever is enqueued, fails or is rescheduled. (It may be waiting its turn in the
   last of these ticks.)
  */
  lemma NoStarvation(states: seq<State>, labels: seq<Label>, id: nat)
    requires IsRun(states, labels) && Inv(states[0])
    requires id in states[0].rows && Due(states[0].rows[id], states[0].now)
    requires Begins(labels) >= EnoughTicks(states, labels, id)
    ensures Handled(states, labels, id) || states[0].rows[id] in states[|labels|].batch
  {
    if !Handled(states, labels, id) {
      WaitingRun(states, labels, id);
      AheadCoversBatch(states[|labels|], states[0].rows[id]);
    }
  }

  lemma AheadCoversBatch(s: State, e: Entry)
    ensures |BatchAhead(s, e)| <= |Ahead(s.rows, e)|
  {
    SubsetSize(BatchAhead(s, e), Ahead(s.rows, e));
  }

  /** In particular it has been handled once these ticks are completed. */
  lemma HandledOnceTicksComplete(states: seq<State>, labels: seq<Label>, id: nat)
    requires IsRun(states, labels) && Inv(states[0])
    requires id in states[0].rows && Due(states[0].rows[id], states[0].now)
    requires Begins(labels) >= EnoughTicks(states, labels, id)
    requires states[|labels|].batch == []
    ensures Handled(states, labels, id)
  {
    NoStarvation(states, labels, id);
  }

  // ---- An uninterrupted tick is a run

  lemma RunCons(s: State, l: Label, states: seq<State>, labels: seq<Label>)
    requires IsRun(states, labels) && Next(s, l, states[0])
    ensures IsRun([s] + states, [l] + labels)
  {
    forall i | 0 <= i < |labels| + 1 ensures Next(([s] + states)[i], ([l] + labels)[i], ([s] + states)[i + 1]) {
      if i > 0 {
        assert Next(states[i - 1], labels[i - 1], states[i]);
      }
    }
  }

  /** Each entry of the batch in turn is redelivered, with its own outcome and at its own time. */
  predicate TickLabels(labels: seq<Label>, batch: seq<Entry>, oracle: nat -> (Outcome, int), from: nat)
    requires from <= |batch|
  {
    && |labels| == 2 * (|batch| - from)
    && forall i :: from <= i < |batch| ==>
         && labels[2 * (i - from)] == Advance(oracle(i).1)
         && labels[2 * (i - from) + 1] == Deliver(oracle(i).0)
  }

  /** The loop of one tick, with nothing happening in between but the clock, is just this run, to the same rows. */
  lemma {:induction false} TickIsRun(s: State, oracle: nat -> (Outcome, int), from: nat, batch: seq<Entry>)
    returns (states: seq<State>, labels: seq<Label>)
    requires from <= |batch| && s.batch == batch[from..]
    requires forall i, j :: from <= i <= j < |batch| ==> s.now <= oracle(i).1 <= oracle(j).1
    ensures IsRun(states, labels) && states[0] == s && TickLabels(labels, batch, oracle, from)
    ensures states[|labels|].rows == HandleAll(s.rows, batch, oracle, from) && states[|labels|].batch == []
    decreases |batch| - from
  {
    if from == |batch| {
      states, labels := [s], [];
    } else {
      var (o, at) := oracle(from);
      var s1 := s.(now := at);
      var s2 := s1.(rows := Handle(s.rows, batch[from], o, at), batch := batch[from + 1..]);
      assert s.batch[1..] == batch[from + 1..];
      assert Next(s, Advance(at), s1) by {
        assert s.now <= oracle(from).1 <= oracle(from).1;
      }
      assert Next(s1, Deliver(o), s2);
      var ss, ls := TickIsRun(s2, oracle, from + 1, batch);
      RunCons(s1, Deliver(o), ss, ls);
      RunCons(s, Advance(at), [s1] + ss, [Deliver(o)] + ls);
      states, labels := [s] + ([s1] + ss), [Advance(at)] + ([Deliver(o)] + ls);
      forall i | from < i < |batch|
        ensures labels[2 * (i - from)] == Advance(oracle(i).1) && labels[2 * (i - from) + 1] == Deliver(oracle(i).0)
      {
        var k := 2 * (i - (from + 1));
        assert labels[k + 2] == ls[k] && labels[k + 3] == ls[k + 1];
      }
    }
  }
}
