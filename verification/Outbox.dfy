/**
 The durable outbox of failed alert deliveries: its table, the operations on it, and the loop that
 retries due entries. Times are in seconds.
*/
module Outbox {
  const MINUTE := 60
  const SCHEDULE := [1 * MINUTE, 5 * MINUTE, 30 * MINUTE, 120 * MINUTE, 720 * MINUTE]
  const MAX_ATTEMPTS := 8
  const BATCH_SIZE := 20

  /** The wait after the given number of failures; the last entry of the schedule repeats. */
  function Backoff(attempts: int): (d: int)
    ensures d >= MINUTE
  {
    var idx := attempts - 1;
    SCHEDULE[if idx < 0 then 0 else if idx >= |SCHEDULE| then |SCHEDULE| - 1 else idx]
  }

  datatype Status = Pending | Delivered | Dead

  datatype Alert = Alert(
    projectId: string, issueId: int, title: string, level: string,
    isNew: bool, isRegression: bool, eventCount: int, occurredAt: int)

  datatype Entry = Entry(
    id: nat, alert: Alert, status: Status, attempts: int, nextAttemptAt: int, createdAt: int, lastError: string)

  type Rows = map<nat, Entry>

  function NewEntry(id: nat, alert: Alert, err: string, now: int): Entry {
    Entry(id, alert, Pending, 1, now + Backoff(1), now, err)
  }

  function SetDelivered(rows: Rows, id: nat): Rows {
    if id in rows then rows[id := rows[id].(status := Delivered)] else rows
  }

  function SetFailed(rows: Rows, id: nat, attempts: int, err: string, now: int): Rows {
    if id !in rows then rows
    else if attempts >= MAX_ATTEMPTS then rows[id := rows[id].(status := Dead, attempts := attempts, lastError := err)]
    else rows[id := rows[id].(attempts := attempts, nextAttemptAt := now + Backoff(attempts), lastError := err)]
  }

  predicate Due(e: Entry, now: int) {
    e.status == Pending && e.nextAttemptAt <= now
  }

  /** ORDER BY next_attempt_at, id */
  predicate Before(a: Entry, b: Entry) {
    a.nextAttemptAt < b.nextAttemptAt || (a.nextAttemptAt == b.nextAttemptAt && a.id < b.id)
  }

  predicate Keyed(rows: Rows) {
    forall id :: id in rows ==> rows[id].id == id
  }

  /** The answer to the due query: the first `limit` due entries in order, with nothing skipped. */
  predicate IsDueBatch(rows: Rows, now: int, limit: nat, out: seq<Entry>) {
    && |out| <= limit
    && (forall i, j :: 0 <= i < j < |out| ==> Before(out[i], out[j]))
    && (forall e :: e in out ==> e.id in rows && rows[e.id] == e && Due(e, now))
    && (forall id :: id in rows && Due(rows[id], now) && rows[id] !in out ==>
          |out| == limit && forall e :: e in out ==> Before(e, rows[id]))
  }

  /** What happened to one redelivery: the notifier's answer, and whether the row update was written. */
  datatype Outcome = Outcome(delivered: bool, error: string, written: bool)

  /** The effect of handling one entry of a batch, taken from the snapshot the batch query returned. */
  function Handle(rows: Rows, e: Entry, o: Outcome, now: int): Rows {
    if !o.written then rows
    else if o.delivered then SetDelivered(rows, e.id)
    else SetFailed(rows, e.id, e.attempts + 1, o.error, now)
  }

  /** Handling a whole batch; the oracle gives each position's outcome and the clock at its write. */
  function HandleAll(rows: Rows, batch: seq<Entry>, oracle: nat -> (Outcome, int), from: nat): Rows
    decreases |batch| - from
  {
    if from >= |batch| then rows
    else
      var (o, at) := oracle(from);
      HandleAll(Handle(rows, batch[from], o, at), batch, oracle, from + 1)
  }

  /** What one redelivery does to the row of its entry. */
  predicate Retried(e: Entry, e': Entry, o: Outcome, at: int) {
    if !o.written then e' == e
    else if o.delivered then e' == e.(status := Delivered)
    else if e.attempts >= 7 then e' == e.(status := Dead, attempts := e.attempts + 1, lastError := o.error)
    else e' == e.(attempts := e.attempts + 1, nextAttemptAt := at + Backoff(e.attempts + 1), lastError := o.error)
  }

  /** The entries of a batch are distinct, and as the table has them. */
  predicate Snapshots(rows: Rows, batch: seq<Entry>) {
    && (forall i, j :: 0 <= i < j < |batch| ==> batch[i].id != batch[j].id)
    && (forall e :: e in batch ==> e.id in rows && rows[e.id] == e)
  }

  /** From one table to the other each entry of the batch is retried with its own outcome, and no other row changes. */
  predicate BatchRetried(rows: Rows, rows': Rows, batch: seq<Entry>, oracle: nat -> (Outcome, int), from: nat) {
    && rows'.Keys == rows.Keys
    && (forall i :: from <= i < |batch| ==>
          batch[i].id in rows && Retried(batch[i], rows'[batch[i].id], oracle(i).0, oracle(i).1))
    && (forall id :: id in rows && (forall i :: from <= i < |batch| ==> batch[i].id != id) ==> rows'[id] == rows[id])
  }

  lemma {:induction false} HandleAllRetries(rows: Rows, batch: seq<Entry>, oracle: nat -> (Outcome, int), from: nat)
    requires from <= |batch| && Snapshots(rows, batch[from..])
    ensures BatchRetried(rows, HandleAll(rows, batch, oracle, from), batch, oracle, from)
    decreases |batch| - from
  {
    if from < |batch| {
      var e, rest := batch[from], batch[from + 1..];
      var next := Handle(rows, e, oracle(from).0, oracle(from).1);
      assert batch[from..] == [e] + rest;
      assert e in batch[from..];
      assert next.Keys == rows.Keys && forall id :: id in rows && id != e.id ==> next[id] == rows[id];
      NotAmong(batch, from);
      HandleAllRetries(next, batch, oracle, from + 1);
    }
  }

  lemma NotAmong(batch: seq<Entry>, from: nat)
    requires from < |batch|
    requires var rest := batch[from..]; forall i, j :: 0 <= i < j < |rest| ==> rest[i].id != rest[j].id
    ensures forall i :: from < i < |batch| ==> batch[i].id != batch[from].id
  {
    forall i | from < i < |batch| ensures batch[i].id != batch[from].id {
      assert batch[from..][0] == batch[from] && batch[from..][i - from] == batch[i];
    }
  }

  lemma DueBatchIsSnapshots(rows: Rows, now: int, limit: nat, out: seq<Entry>)
    requires IsDueBatch(rows, now, limit, out)
    ensures Snapshots(rows, out)
  {
    forall i, j | 0 <= i < j < |out| ensures out[i].id != out[j].id {
      assert Before(out[i], out[j]);
      assert out[i] in out && out[j] in out;
    }
  }

  lemma {:induction false} HasFirst(rows: Rows, ids: set<nat>) returns (m: nat)
    requires Keyed(rows) && ids <= rows.Keys && ids != {}
    ensures m in ids && forall x :: x in ids && x != m ==> Before(rows[m], rows[x])
    decreases ids
  {
    var y :| y in ids;
    if ids == {y} {
      m := y;
    } else {
      var m' := HasFirst(rows, ids - {y});
      m := if Before(rows[y], rows[m']) then y else m';
    }
  }

  class AlertOutbox {
    var rows: Rows
    var nextId: nat

    ghost predicate Valid()
      reads this
    {
      Keyed(rows) && forall id :: id in rows ==> id < nextId
    }

    constructor ()
      ensures Valid() && rows == map[] && nextId == 1
    {
      rows, nextId := map[], 1;
    }

    method EnqueueAlert(alert: Alert, err: string, now: int) returns (id: nat)
      requires Valid()
      modifies this
      ensures Valid()
      ensures id == old(nextId) && id !in old(rows)
      ensures rows == old(rows)[id := Entry(id, alert, Pending, 1, now + 60, now, err)]
      ensures nextId == old(nextId) + 1
    {
      id := nextId;
      rows := rows[id := NewEntry(id, alert, err, now)];
      nextId := nextId + 1;
    }

    method DueAlerts(now: int, limit: nat) returns (out: seq<Entry>)
      requires Valid()
      ensures IsDueBatch(rows, now, limit, out)
      ensures forall i, j :: 0 <= i < j < |out| ==>
        && out[i].nextAttemptAt <= out[j].nextAttemptAt
        && (out[i].nextAttemptAt == out[j].nextAttemptAt ==> out[i].id < out[j].id)
      ensures forall e :: e in out ==> e.status == Pending && e.nextAttemptAt <= now
      ensures |out| < limit ==>
                forall id :: id in rows && rows[id].status == Pending && rows[id].nextAttemptAt <= now ==>
                  rows[id] in out
    {
      var todo := set id | id in rows && Due(rows[id], now);
      out := [];
      while |out| < limit && todo != {}
        invariant |out| <= limit
        invariant todo <= rows.Keys
        invariant forall i, j :: 0 <= i < j < |out| ==> Before(out[i], out[j])
        invariant forall e :: e in out ==> e.id in rows && rows[e.id] == e && Due(e, now)
        invariant forall id :: id in todo ==> Due(rows[id], now) && forall e :: e in out ==> Before(e, rows[id])
        invariant forall id :: id in rows && Due(rows[id], now) && id !in todo ==> rows[id] in out
        decreases todo
      {
        ghost var first := HasFirst(rows, todo);
        var id :| id in todo && forall x :: x in todo && x != id ==> Before(rows[id], rows[x]);
        out := out + [rows[id]];
        todo := todo - {id};
      }
    }

    method MarkAlertDelivered(id: nat)
      requires Valid()
      modifies `rows
      ensures Valid() && rows == SetDelivered(old(rows), id)
    {
      if id in rows {
        rows := rows[id := rows[id].(status := Delivered)];
      }
    }

    method MarkAlertFailed(id: nat, attempts: int, err: string, now: int)
      requires Valid()
      modifies `rows
      ensures Valid() && rows == SetFailed(old(rows), id, attempts, err, now)
    {
      if id !in rows {
        return;
      }
      if attempts >= MAX_ATTEMPTS {
        rows := rows[id := rows[id].(status := Dead, attempts := attempts, lastError := err)];
        return;
      }
      var nextAttemptAt := now + Backoff(attempts);
      rows := rows[id := rows[id].(attempts := attempts, nextAttemptAt := nextAttemptAt, lastError := err)];
    }

    /** One tick of the retry loop, uninterrupted. */
    method RetryDueAlerts(now: int, oracle: nat -> (Outcome, int)) returns (due: seq<Entry>)
      requires Valid()
      modifies `rows
      ensures Valid() && IsDueBatch(old(rows), now, 20, due)
      ensures rows == HandleAll(old(rows), due, oracle, 0)
      ensures BatchRetried(old(rows), rows, due, oracle, 0)
    {
      due := DueAlerts(now, BATCH_SIZE);
      for i := 0 to |due|
        invariant Valid()
        invariant HandleAll(old(rows), due, oracle, 0) == HandleAll(rows, due, oracle, i)
      {
        var e := due[i];
        var (o, at) := oracle(i);
        if !o.delivered {
          var attempts := e.attempts + 1;
          if o.written {
            MarkAlertFailed(e.id, attempts, o.error, at);
          }
          continue;
        }
        if o.written {
          MarkAlertDelivered(e.id);
        }
      }
      DueBatchIsSnapshots(old(rows), now, BATCH_SIZE, due);
      assert due[0..] == due;
      HandleAllRetries(old(rows), due, oracle, 0);
    }

    /** The first, immediate delivery attempt: only its failure reaches the outbox. */
    method NotifyAsync(alert: Alert, o: Outcome, now: int)
      requires Valid()
      modifies this
      ensures Valid()
      ensures !o.delivered && o.written ==>
                && rows == old(rows)[old(nextId) := NewEntry(old(nextId), alert, o.error, now)]
                && nextId == old(nextId) + 1
      ensures o.delivered || !o.written ==> rows == old(rows) && nextId == old(nextId)
    {
      if !o.delivered {
        if o.written {
          var _ := EnqueueAlert(alert, o.error, now);
        }
      }
    }
  }
}
