/** Delivering events more than once: replays, partly failed envelopes, and what a retry adds. */
module Redelivery {
  import opened Basics
  import opened IssueStore
  import opened IssueRuns
  import opened Ingest
  import opened Envelope
  import Outbox

  /** Saving an event changes the store exactly if its id is not stored for the project; a replay reports nothing. */
  lemma SaveIsNoOpIffStored(db: DB, a: SaveArgs, now: int)
    ensures Save(db, a, now).0 == db <==> IsStored(db, a)
    ensures IsStored(db, a) ==> !Save(db, a, now).1.isNew && !Save(db, a, now).1.isRegression
    ensures IsStored(db, a) ==> exists e :: e in db.events && IsEvent(e, a.project, a.ev.eventId)
                                          && e.issueId == Save(db, a, now).1.issueId
  {
    if IsStored(db, a) {
      var i := FindEvent(db.events, a.project, a.ev.eventId).value;
      assert db.events[i] in db.events;
    } else {
      assert |Save(db, a, now).0.events| == |db.events| + 1;
    }
  }

  lemma StoredWhile(db: DB, db': DB, a: SaveArgs)
    requires db.events <= db'.events && IsStored(db, a)
    ensures IsStored(db', a)
  {
  }

  lemma SaveStores(db: DB, a: SaveArgs, now: int)
    ensures IsStored(Save(db, a, now).0, a) && db.events <= Save(db, a, now).0.events
  {
    var db' := Save(db, a, now).0;
    if !IsStored(db, a) {
      assert db'.events[|db.events|] in db'.events;
    }
  }

  /** Stored events stay stored through any run that prunes nothing. */
  lemma {:induction false} StoredSurvives(db: DB, ops: seq<Op>, a: SaveArgs)
    requires IsStored(db, a) && forall op :: op in ops ==> !op.PruneOp?
    ensures IsStored(Run(db, ops), a)
    decreases |ops|
  {
    if ops != [] {
      var db' := Step(db, ops[0]).0;
      assert ops[0] in ops;
      if ops[0].SaveOp? {
        SaveStores(db, ops[0].args, ops[0].now);
      }
      StoredWhile(db, db', a);
      StoredSurvives(db', ops[1..], a);
    }
  }

  /** Replaying any stored events, in any order, any number of times and with any fingerprint, does nothing. */
  lemma {:induction false} ReplaysDoNothing(db: DB, saves: seq<Timed>)
    requires forall x :: x in saves ==> IsStored(db, x.args)
    ensures Deliver(db, saves) == (db, [])
  {
    if saves != [] {
      var n := |saves| - 1;
      ReplaysDoNothing(db, saves[..n]);
      assert saves[n] in saves;
      SaveIsNoOpIffStored(db, saves[n].args, saves[n].now);
      var none: seq<Outbox.Alert> := [];
      assert DeliverOne(db, saves[n]) == (db, none) && none + none == none;
    }
  }

  lemma {:induction false} DeliverAppend(db: DB, xs: seq<Timed>, ys: seq<Timed>)
    ensures Deliver(db, xs + ys).0 == Deliver(Deliver(db, xs).0, ys).0
    ensures Deliver(db, xs + ys).1 == Deliver(db, xs).1 + Deliver(Deliver(db, xs).0, ys).1
  {
    if ys == [] {
      assert xs + ys == xs;
    } else {
      var front, x := ys[..|ys| - 1], ys[|ys| - 1];
      assert ys == front + [x] && xs + ys == xs + front + [x];
      DeliverAppend(db, xs, front);
      DeliverSnoc(db, xs + front, x);
      DeliverSnoc(Deliver(db, xs).0, front, x);
    }
  }

  lemma {:induction false} DeliverStores(db: DB, xs: seq<Timed>)
    ensures db.events <= Deliver(db, xs).0.events
    ensures forall x :: x in xs ==> IsStored(Deliver(db, xs).0, x.args)
  {
    if xs != [] {
      var n := |xs| - 1;
      var db', db'' := Deliver(db, xs[..n]).0, Deliver(db, xs).0;
      DeliverStores(db, xs[..n]);
      SaveStores(db', xs[n].args, xs[n].now);
      forall x | x in xs ensures IsStored(db'', x.args) {
        if x in xs[..n] {
          StoredWhile(db', db'', x.args);
        }
      }
    }
  }

  /** Two deliveries of the same saves, whatever their clocks. */
  predicate SameSaves(xs: seq<Timed>, ys: seq<Timed>) {
    |xs| == |ys| && forall i :: 0 <= i < |xs| ==> xs[i].args == ys[i].args
  }

  lemma DeliveredStaysStored(db: DB, sent: seq<Timed>, traffic: seq<Op>, resent: seq<Timed>)
    requires SameSaves(sent, resent) && forall op :: op in traffic ==> !op.PruneOp?
    ensures forall y :: y in resent ==> IsStored(Run(Deliver(db, sent).0, traffic), y.args)
  {
    DeliverStores(db, sent);
    forall y | y in resent ensures IsStored(Run(Deliver(db, sent).0, traffic), y.args) {
      var i :| 0 <= i < |resent| && resent[i] == y;
      assert sent[i] in sent;
      StoredSurvives(Deliver(db, sent).0, traffic, y.args);
    }
  }

  lemma StoredPrefixIsSkipped(db: DB, stored: seq<Timed>, rest: seq<Timed>)
    requires forall x :: x in stored ==> IsStored(db, x.args)
    ensures Deliver(db, stored + rest).0 == Deliver(db, rest).0 && Deliver(db, stored + rest).1 == Deliver(db, rest).1
  {
    ReplaysDoNothing(db, stored);
    DeliverAppend(db, stored, rest);
    assert [] + Deliver(db, rest).1 == Deliver(db, rest).1;
  }

  /**
   Resending a whole envelope whose first saves were already committed does exactly what sending its remaining saves
   would do, even after any other traffic in between, as long as nothing was pruned.
  */
  lemma ResendDeliversTheRest(db: DB, sent: seq<Timed>, traffic: seq<Op>, resent: seq<Timed>, rest: seq<Timed>)
    requires SameSaves(sent, resent) && forall op :: op in traffic ==> !op.PruneOp?
    ensures var now := Run(Deliver(db, sent).0, traffic);
            && Deliver(now, resent + rest).0 == Deliver(now, rest).0
            && Deliver(now, resent + rest).1 == Deliver(now, rest).1
  {
    DeliveredStaysStored(db, sent, traffic, resent);
    StoredPrefixIsSkipped(Run(Deliver(db, sent).0, traffic), resent, rest);
  }

  // ---- Equality up to timestamps

  predicate SameIssue(i: Issue, j: Issue) {
    i.(firstSeen := 0, lastSeen := 0) == j.(firstSeen := 0, lastSeen := 0)
  }

  predicate SameEvent(e: EventRow, f: EventRow) {
    e.(receivedAt := 0) == f.(receivedAt := 0)
  }

  predicate SameButTimes(a: DB, b: DB) {
    && a.projects == b.projects && a.nextIssue == b.nextIssue && a.nextEvent == b.nextEvent
    && |a.issues| == |b.issues| && (forall k :: 0 <= k < |a.issues| ==> SameIssue(a.issues[k], b.issues[k]))
    && |a.events| == |b.events| && (forall k :: 0 <= k < |a.events| ==> SameEvent(a.events[k], b.events[k]))
  }

  predicate SameAlerts(xs: seq<Outbox.Alert>, ys: seq<Outbox.Alert>) {
    |xs| == |ys| && forall k :: 0 <= k < |xs| ==> xs[k].(occurredAt := 0) == ys[k].(occurredAt := 0)
  }

  lemma {:induction false} SameLookups(a: seq<EventRow>, b: seq<EventRow>, project: string, eventId: string)
    requires |a| == |b| && forall k :: 0 <= k < |a| ==> SameEvent(a[k], b[k])
    ensures FindEvent(a, project, eventId) == FindEvent(b, project, eventId)
  {
    if a != [] {
      assert SameEvent(a[0], b[0]);
      SameLookups(a[1..], b[1..], project, eventId);
    }
  }

  lemma {:induction false} SameIssueLookups(a: seq<Issue>, b: seq<Issue>, project: string, fingerprint: string, id: nat)
    requires |a| == |b| && forall k :: 0 <= k < |a| ==> SameIssue(a[k], b[k])
    ensures FindIssue(a, project, fingerprint) == FindIssue(b, project, fingerprint)
    ensures FindById(a, id) == FindById(b, id)
  {
    if a != [] {
      assert SameIssue(a[0], b[0]);
      SameIssueLookups(a[1..], b[1..], project, fingerprint, id);
    }
  }

  /** A save does the same to stores that differ only in timestamps, whenever it happens. */
  lemma SaveIgnoresTimes(a: DB, b: DB, x: SaveArgs, t: int, u: int)
    requires SameButTimes(a, b)
    ensures SameButTimes(Save(a, x, t).0, Save(b, x, u).0)
    ensures Save(a, x, t).1 == Save(b, x, u).1
  {
    SameLookups(a.events, b.events, x.project, x.ev.eventId);
    SameIssueLookups(a.issues, b.issues, x.project, x.fingerprint, 0);
    match FindEvent(a.events, x.project, x.ev.eventId)
    case Some(i) => assert SameEvent(a.events[i], b.events[i]);
    case None =>
      match FindIssue(a.issues, x.project, x.fingerprint)
      case None => assert SameEvent(NewEvent(a, x, a.nextIssue, t), NewEvent(b, x, b.nextIssue, u));
      case Some(k) =>
        assert SameIssue(a.issues[k], b.issues[k]);
        assert SameIssue(Bumped(a.issues[k], t), Bumped(b.issues[k], u));
        assert SameEvent(NewEvent(a, x, a.issues[k].id, t), NewEvent(b, x, b.issues[k].id, u));
  }

  lemma AlertsIgnoreTimes(a: DB, b: DB, x: SaveArgs, r: SaveResult, t: int, u: int)
    requires SameButTimes(a, b)
    ensures SameAlerts(AlertsFor(a, x, r, t), AlertsFor(b, x, r, u))
  {
  }

  lemma {:induction false} DeliverIgnoresTimes(a: DB, b: DB, xs: seq<Timed>, ys: seq<Timed>)
    requires SameButTimes(a, b) && SameSaves(xs, ys)
    ensures SameButTimes(Deliver(a, xs).0, Deliver(b, ys).0)
    ensures SameAlerts(Deliver(a, xs).1, Deliver(b, ys).1)
  {
    if xs != [] {
      var n := |xs| - 1;
      DeliverIgnoresTimes(a, b, xs[..n], ys[..n]);
      var a', b' := Deliver(a, xs[..n]).0, Deliver(b, ys[..n]).0;
      SaveIgnoresTimes(a', b', xs[n].args, xs[n].now, ys[n].now);
      AlertsIgnoreTimes(Deliver(a, xs).0, Deliver(b, ys).0, xs[n].args, Save(a', xs[n].args, xs[n].now).1,
                        xs[n].now, ys[n].now);
    }
  }

  /**
   An envelope that fails after some of its saves and is then resent whole leaves the same store, timestamps aside, and
   raises the same alerts, each once, as one clean delivery.
  */
  lemma PartFailureThenResend(db: DB, sent: seq<Timed>, resent: seq<Timed>, rest: seq<Timed>, clean: seq<Timed>)
    requires SameSaves(sent, resent) && SameSaves(sent + rest, clean)
    ensures var db1, clean' := Deliver(db, sent).0, Deliver(db, clean);
            && SameButTimes(Deliver(db1, resent + rest).0, clean'.0)
            && SameAlerts(Deliver(db, sent).1 + Deliver(db1, resent + rest).1, clean'.1)
  {
    ResendDeliversTheRest(db, sent, [], resent, rest);
    DeliverAppend(db, sent, rest);
    DeliverIgnoresTimes(db, db, sent + rest, clean);
  }

  // ---- The same for whole requests

  lemma {:induction false} ClocksDoNotChangeSaves(d: Decoders, project: string, items: seq<Item>,
                                                  c1: nat -> int, c2: nat -> int)
    ensures SameSaves(SavesOf(d, project, items, c1), SavesOf(d, project, items, c2))
  {
    if items != [] {
      ClocksDoNotChangeSaves(d, project, items[..|items| - 1], c1, c2);
    }
  }

  /**
   A request that a database failure cuts off after any number of items, and that the client then sends again in
   full, ends in the same store, timestamps aside, and the same alerts, each once, as one request without a failure.
  */
  lemma FailedRequestResent(db: DB, d: Decoders, project: string, key: string, items: seq<Item>, handled: nat,
                            c1: nat -> int, c2: nat -> int, c3: nat -> int)
    requires handled <= |items|
    ensures var (db1, alerts1) := Serve(db, d, project, key, items[..handled], c1);
            var (db2, alerts2) := Serve(db1, d, project, key, items, c2);
            var (db3, alerts3) := Serve(db, d, project, key, items, c3);
            SameButTimes(db2, db3) && SameAlerts(alerts1 + alerts2, alerts3)
  {
    var known := EnsureProject(db, project, key);
    var sent := SavesOf(d, project, items[..handled], c1);
    var again, clean := SavesOf(d, project, items, c2), SavesOf(d, project, items, c3);
    SavesPrefix(d, project, items, c2, handled);
    ClocksDoNotChangeSaves(d, project, items[..handled], c1, c2);
    ClocksDoNotChangeSaves(d, project, items, c2, c3);
    var resent, rest := again[..|sent|], again[|sent|..];
    assert resent + rest == again;
    assert SameSaves(sent + rest, clean) by {
      assert forall i :: 0 <= i < |again| ==> again[i].args == clean[i].args;
    }
    DeliverKeepsProjects(known, sent);
    PartFailureThenResend(known, sent, resent, rest, clean);
  }

  // ---- Any number of failed attempts

  /** One sending of a request: how many items were handled before it ended, and its clock. */
  datatype Attempt = Attempt(handled: nat, clock: nat -> int)

  /** The request sent again and again, each attempt ending wherever it does. */
  function ServeAll(db: DB, d: Decoders, project: string, key: string, items: seq<Item>, attempts: seq<Attempt>)
    : (DB, seq<Outbox.Alert>)
    requires forall a :: a in attempts ==> a.handled <= |items|
  {
    if attempts == [] then (db, [])
    else
      var n := |attempts| - 1;
      var (db', alerts) := ServeAll(db, d, project, key, items, attempts[..n]);
      assert attempts[n] in attempts;
      var (db'', more) := Serve(db', d, project, key, items[..attempts[n].handled], attempts[n].clock);
      (db'', alerts + more)
  }

  /** The largest number of items any attempt handled. */
  function Furthest(attempts: seq<Attempt>): (m: nat)
    ensures forall a :: a in attempts ==> a.handled <= m
    ensures attempts != [] ==> exists a :: a in attempts && a.handled == m
  {
    if attempts == [] then 0
    else
      var n := |attempts| - 1;
      var m := Furthest(attempts[..n]);
      assert attempts == attempts[..n] + [attempts[n]];
      if attempts[n].handled > m || n == 0 then attempts[n].handled else m
  }

  lemma StoredUpToTimes(a: DB, b: DB, xs: seq<Timed>)
    requires SameButTimes(a, b) && forall x :: x in xs ==> IsStored(b, x.args)
    ensures forall x :: x in xs ==> IsStored(a, x.args)
  {
    forall x | x in xs ensures IsStored(a, x.args) {
      SameLookups(a.events, b.events, x.args.project, x.args.ev.eventId);
    }
  }

  lemma SavesAreStored(db: DB, now: DB, done: seq<Timed>, again: seq<Timed>)
    requires SameButTimes(now, Deliver(db, done).0)
    requires |again| <= |done| && SameSaves(again, done[..|again|])
    ensures forall x :: x in again ==> IsStored(now, x.args)
  {
    DeliverStores(db, done);
    forall x | x in again ensures IsStored(Deliver(db, done).0, x.args) {
      var i :| 0 <= i < |again| && again[i] == x;
      assert done[i] in done;
    }
    StoredUpToTimes(now, Deliver(db, done).0, again);
  }

  /** Sending no more than what is already saved, timestamps aside, does nothing. */
  lemma ShorterAttemptDoesNothing(db: DB, now: DB, done: seq<Timed>, again: seq<Timed>)
    requires SameButTimes(now, Deliver(db, done).0)
    requires |again| <= |done| && SameSaves(again, done[..|again|])
    ensures Deliver(now, again) == (now, [])
  {
    SavesAreStored(db, now, done, again);
    ReplaysDoNothing(now, again);
  }

  lemma SameAlertsAppend(xs: seq<Outbox.Alert>, ys: seq<Outbox.Alert>, xs': seq<Outbox.Alert>, ys': seq<Outbox.Alert>)
    requires SameAlerts(xs, ys) && SameAlerts(xs', ys')
    ensures SameAlerts(xs + xs', ys + ys')
  {
  }

  /** Sending more than what is already saved, timestamps aside, adds what is missing. */
  lemma LongerAttemptAddsTheRest(db: DB, now: DB, done: seq<Timed>, missing: seq<Timed>,
                                 again: seq<Timed>, rest: seq<Timed>)
    requires SameButTimes(now, Deliver(db, done).0) && SameSaves(again, done) && SameSaves(rest, missing)
    ensures SameButTimes(Deliver(now, again + rest).0, Deliver(db, done + missing).0)
    ensures SameAlerts(Deliver(now, again + rest).1, Deliver(Deliver(db, done).0, missing).1)
  {
    SavesAreStored(db, now, done, again);
    StoredPrefixIsSkipped(now, again, rest);
    DeliverIgnoresTimes(now, Deliver(db, done).0, rest, missing);
    DeliverAppend(db, done, missing);
  }

  lemma LongerAttempt(db: DB, now: DB, alerts: seq<Outbox.Alert>,
                      done: seq<Timed>, again: seq<Timed>, clean: seq<Timed>)
    requires SameButTimes(now, Deliver(db, done).0) && SameAlerts(alerts, Deliver(db, done).1)
    requires SameSaves(again, clean) && done <= clean
    ensures SameButTimes(Deliver(now, again).0, Deliver(db, clean).0)
    ensures SameAlerts(alerts + Deliver(now, again).1, Deliver(db, clean).1)
  {
    var stored, rest, missing := again[..|done|], again[|done|..], clean[|done|..];
    assert again == stored + rest && clean == done + missing;
    LongerAttemptAddsTheRest(db, now, done, missing, stored, rest);
    DeliverAppend(db, done, missing);
    SameAlertsAppend(alerts, Deliver(db, done).1, Deliver(now, again).1, Deliver(Deliver(db, done).0, missing).1);
  }

  lemma NextAttempt(db: DB, now: DB, alerts: seq<Outbox.Alert>, d: Decoders, project: string, key: string,
                    items: seq<Item>, m: nat, h: nat, c1: nat -> int, c2: nat -> int)
    requires m <= |items| && h <= |items|
    requires SameButTimes(now, Serve(db, d, project, key, items[..m], c2).0)
    requires SameAlerts(alerts, Serve(db, d, project, key, items[..m], c2).1)
    ensures var top := if h > m then h else m;
            && SameButTimes(Serve(now, d, project, key, items[..h], c1).0,
                            Serve(db, d, project, key, items[..top], c2).0)
            && SameAlerts(alerts + Serve(now, d, project, key, items[..h], c1).1,
                          Serve(db, d, project, key, items[..top], c2).1)
  {
    var known := EnsureProject(db, project, key);
    var done, again := SavesOf(d, project, items[..m], c2), SavesOf(d, project, items[..h], c1);
    DeliverKeepsProjects(known, done);
    assert EnsureProject(now, project, key) == now;
    ClocksDoNotChangeSaves(d, project, items[..h], c1, c2);
    if h > m {
      assert items[..h][..m] == items[..m];
      SavesPrefix(d, project, items[..h], c2, m);
      LongerAttempt(known, now, alerts, done, again, SavesOf(d, project, items[..h], c2));
    } else {
      assert items[..m][..h] == items[..h];
      SavesPrefix(d, project, items[..m], c2, h);
      ShorterAttemptDoesNothing(known, now, done, again);
      assert alerts + [] == alerts;
    }
  }

  /**
   However often a request is sent and wherever each attempt is cut off, the store, timestamps aside, and the alerts are
   those of one clean request that ends where the furthest attempt did.
  */
  lemma {:induction false} AttemptsAddUp(db: DB, d: Decoders, project: string, key: string, items: seq<Item>,
                                         attempts: seq<Attempt>, clock: nat -> int)
    requires attempts != [] && forall a :: a in attempts ==> a.handled <= |items|
    ensures var clean := Serve(db, d, project, key, items[..Furthest(attempts)], clock);
            && SameButTimes(ServeAll(db, d, project, key, items, attempts).0, clean.0)
            && SameAlerts(ServeAll(db, d, project, key, items, attempts).1, clean.1)
  {
    var n := |attempts| - 1;
    var last, before := attempts[n], attempts[..n];
    assert last in attempts;
    if n == 0 {
      var known := EnsureProject(db, project, key);
      var sent := SavesOf(d, project, items[..last.handled], last.clock);
      ClocksDoNotChangeSaves(d, project, items[..last.handled], last.clock, clock);
      DeliverIgnoresTimes(known, known, sent, SavesOf(d, project, items[..last.handled], clock));
      assert [] + Deliver(known, sent).1 == Deliver(known, sent).1;
    } else {
      AttemptsAddUp(db, d, project, key, items, before, clock);
      var (now, alerts) := ServeAll(db, d, project, key, items, before);
      NextAttempt(db, now, alerts, d, project, key, items, Furthest(before), last.handled, last.clock, clock);
    }
  }

  /** As soon as one attempt gets through, all attempts together did what one clean request does, each alert once. */
  lemma RetriedUntilComplete(db: DB, d: Decoders, project: string, key: string, items: seq<Item>,
                             attempts: seq<Attempt>, clock: nat -> int)
    requires forall a :: a in attempts ==> a.handled <= |items|
    requires exists a :: a in attempts && a.handled == |items|
    ensures var clean := Serve(db, d, project, key, items, clock);
            && SameButTimes(ServeAll(db, d, project, key, items, attempts).0, clean.0)
            && SameAlerts(ServeAll(db, d, project, key, items, attempts).1, clean.1)
  {
    var m := Furthest(attempts);
    AttemptsAddUp(db, d, project, key, items, attempts, clock);
    assert items[..m] == items by {
      var a :| a in attempts && a.handled == m;
    }
  }
}
