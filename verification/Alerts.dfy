/** Who is alerted of what: the alerts of a save, and how those of whole requests add up. */
module Alerts {
  import opened Basics
  import opened IssueStore
  import opened IssueRuns
  import opened IssueLifecycle
  import opened Ingest
  import Envelope
  import Outbox

  predicate StoredEvent(db: DB, a: SaveArgs) {
    exists e :: e in db.events && IsEvent(e, a.project, a.ev.eventId)
  }

  predicate KnownIssue(db: DB, a: SaveArgs) {
    exists i :: i in db.issues && IsIssue(i, a.project, a.fingerprint)
  }

  predicate ResolvedIssue(db: DB, a: SaveArgs) {
    exists i :: i in db.issues && IsIssue(i, a.project, a.fingerprint) && i.status == Resolved
  }

  /** The alert is about the event, and about its issue as the store has it after the save. */
  predicate IsAlertFor(alert: Outbox.Alert, db: DB, x: Timed, isNew: bool) {
    exists i :: i in db.issues && IsIssue(i, x.args.project, x.args.fingerprint)
                && alert == Outbox.Alert(x.args.project, i.id, x.args.title, x.args.ev.level, isNew, !isNew,
                                         i.eventCount, x.now)
  }

  /** One alert for a new event whose issue is new or was resolved, and none for any other. */
  predicate AlertedRightly(db: DB, x: Timed, db': DB, alerts: seq<Outbox.Alert>) {
    if StoredEvent(db, x.args) then alerts == []
    else if !KnownIssue(db, x.args) then |alerts| == 1 && IsAlertFor(alerts[0], db', x, true)
    else if ResolvedIssue(db, x.args) then |alerts| == 1 && IsAlertFor(alerts[0], db', x, false)
    else alerts == []
  }

  lemma SaveAlertsRightly(db: DB, gone: seq<EventRow>, x: Timed)
    requires Inv(db, gone)
    ensures AlertedRightly(db, x, DeliverOne(db, x).0, DeliverOne(db, x).1)
  {
    var a := x.args;
    match FindEvent(db.events, a.project, a.ev.eventId)
    case Some(i) => assert db.events[i] in db.events;
    case None =>
      InvSave(db, gone, a, x.now);
      match FindIssue(db.issues, a.project, a.fingerprint)
      case None => NewIssueAlert(db, gone, x);
      case Some(k) => KnownIssueAlert(db, gone, x, k);
  }

  lemma NewIssueAlert(db: DB, gone: seq<EventRow>, x: Timed)
    requires Inv(db, gone) && Inv(Save(db, x.args, x.now).0, gone)
    requires var a := x.args;
      FindEvent(db.events, a.project, a.ev.eventId).None? && FindIssue(db.issues, a.project, a.fingerprint).None?
    ensures AlertedRightly(db, x, DeliverOne(db, x).0, DeliverOne(db, x).1)
  {
    var db' := Save(db, x.args, x.now).0;
    FoundById(db'.issues, |db.issues|);
    assert db'.issues[|db.issues|] in db'.issues;
  }

  lemma KnownIssueAlert(db: DB, gone: seq<EventRow>, x: Timed, k: nat)
    requires Inv(db, gone) && Inv(Save(db, x.args, x.now).0, gone)
    requires var a := x.args;
      FindEvent(db.events, a.project, a.ev.eventId).None? && FindIssue(db.issues, a.project, a.fingerprint) == Some(k)
    ensures AlertedRightly(db, x, DeliverOne(db, x).0, DeliverOne(db, x).1)
  {
    var a, db' := x.args, Save(db, x.args, x.now).0;
    FoundById(db'.issues, k);
    assert db'.issues[k] in db'.issues && db.issues[k] in db.issues;
    assert ResolvedIssue(db, a) <==> db.issues[k].status == Resolved by {
      OnlyIssue(db, gone, a, k);
    }
  }

  lemma OnlyIssue(db: DB, gone: seq<EventRow>, a: SaveArgs, k: nat)
    requires Inv(db, gone) && k < |db.issues| && IsIssue(db.issues[k], a.project, a.fingerprint)
    ensures forall i :: i in db.issues && IsIssue(i, a.project, a.fingerprint) ==> i == db.issues[k]
  {
    forall i | i in db.issues && IsIssue(i, a.project, a.fingerprint) ensures i == db.issues[k] {
      var n :| 0 <= n < |db.issues| && db.issues[n] == i;
      assert SameIssueKey(db.issues[n], db.issues[k]);
    }
  }

  // ---- Deliveries as runs

  function OpsOf(saves: seq<Timed>): seq<Op> {
    if saves == [] then []
    else
      var n := |saves| - 1;
      OpsOf(saves[..n]) + [SaveOp(saves[n].args, saves[n].now)]
  }

  lemma {:induction false} RunSnoc(db: DB, ops: seq<Op>, op: Op)
    ensures Run(db, ops + [op]) == Step(Run(db, ops), op).0
    decreases |ops|
  {
    if ops != [] {
      assert (ops + [op])[1..] == ops[1..] + [op];
      RunSnoc(Step(db, ops[0]).0, ops[1..], op);
    }
  }

  lemma {:induction false} RegressionsSnoc(db: DB, ops: seq<Op>, op: Op, id: nat)
    ensures Regressions(db, ops + [op], id) ==
            Regressions(db, ops, id) + if Regresses(Run(db, ops), op, id) then 1 else 0
    decreases |ops|
  {
    if ops != [] {
      assert (ops + [op])[1..] == ops[1..] + [op];
      RegressionsSnoc(Step(db, ops[0]).0, ops[1..], op, id);
    } else {
      assert Regressions(Step(db, op).0, [], id) == 0 && (ops + [op])[1..] == [];
    }
  }

  lemma {:induction false} NewReportsSnoc(db: DB, ops: seq<Op>, op: Op, project: string, fingerprint: string)
    ensures NewReports(db, ops + [op], project, fingerprint) ==
            NewReports(db, ops, project, fingerprint)
            + if ReportsNew(Run(db, ops), op, project, fingerprint) then 1 else 0
    decreases |ops|
  {
    if ops != [] {
      assert (ops + [op])[1..] == ops[1..] + [op];
      NewReportsSnoc(Step(db, ops[0]).0, ops[1..], op, project, fingerprint);
    } else {
      assert NewReports(Step(db, op).0, [], project, fingerprint) == 0 && (ops + [op])[1..] == [];
    }
  }

  lemma {:induction false} DeliverIsRun(db: DB, gone: seq<EventRow>, saves: seq<Timed>)
    requires Inv(db, gone)
    ensures Run(db, OpsOf(saves)) == Deliver(db, saves).0 && Inv(Deliver(db, saves).0, gone)
  {
    if saves != [] {
      var n := |saves| - 1;
      DeliverIsRun(db, gone, saves[..n]);
      RunSnoc(db, OpsOf(saves[..n]), SaveOp(saves[n].args, saves[n].now));
      InvSave(Deliver(db, saves[..n]).0, gone, saves[n].args, saves[n].now);
    }
  }

  /** In a delivery of many events each is alerted rightly, in order, and nothing else is. */
  lemma DeliveryAlertsRightly(db: DB, gone: seq<EventRow>, saves: seq<Timed>, n: nat)
    requires Inv(db, gone) && n < |saves|
    ensures Deliver(db, saves[..n]).1 <= Deliver(db, saves[..n + 1]).1
    ensures AlertedRightly(Deliver(db, saves[..n]).0, saves[n], Deliver(db, saves[..n + 1]).0,
                           Deliver(db, saves[..n + 1]).1[|Deliver(db, saves[..n]).1|..])
  {
    assert saves[..n + 1] == saves[..n] + [saves[n]];
    DeliverSnoc(db, saves[..n], saves[n]);
    DeliverIsRun(db, gone, saves[..n]);
    SaveAlertsRightly(Deliver(db, saves[..n]).0, gone, saves[n]);
  }

  // ---- Counting alerts

  function RegressionAlerts(alerts: seq<Outbox.Alert>, id: nat): nat {
    if alerts == [] then 0
    else
      var n := |alerts| - 1;
      RegressionAlerts(alerts[..n], id) + if alerts[n].isRegression && alerts[n].issueId == id then 1 else 0
  }

  function NewAlerts(alerts: seq<Outbox.Alert>, id: nat): nat {
    if alerts == [] then 0
    else
      var n := |alerts| - 1;
      NewAlerts(alerts[..n], id) + if alerts[n].isNew && alerts[n].issueId == id then 1 else 0
  }

  lemma CountsGrow(alerts: seq<Outbox.Alert>, more: seq<Outbox.Alert>, id: nat)
    requires |more| <= 1
    ensures RegressionAlerts(alerts + more, id) == RegressionAlerts(alerts, id) + RegressionAlerts(more, id)
    ensures NewAlerts(alerts + more, id) == NewAlerts(alerts, id) + NewAlerts(more, id)
  {
    if more == [] {
      assert alerts + more == alerts;
    } else {
      assert (alerts + more)[..|alerts|] == alerts && more[..0] == [];
    }
  }

  /** The alerts of one save, counted. */
  lemma OneSaveCounts(db: DB, x: Timed, id: nat)
    ensures |DeliverOne(db, x).1| <= 1
    ensures RegressionAlerts(DeliverOne(db, x).1, id) ==
            if Regresses(db, SaveOp(x.args, x.now), id) then 1 else 0
    ensures NewAlerts(DeliverOne(db, x).1, id) ==
            if Creates(db, SaveOp(x.args, x.now), id) then 1 else 0
  {
  }

  /** The regression alerts for an issue are as many as the regressions of the corresponding run. */
  lemma {:induction false} RegressionAlertsCount(db: DB, gone: seq<EventRow>, saves: seq<Timed>, id: nat)
    requires Inv(db, gone)
    ensures RegressionAlerts(Deliver(db, saves).1, id) == Regressions(db, OpsOf(saves), id)
  {
    if saves != [] {
      var n := |saves| - 1;
      var before, x := saves[..n], saves[n];
      RegressionAlertsCount(db, gone, before, id);
      DeliverIsRun(db, gone, before);
      OneSaveCounts(Deliver(db, before).0, x, id);
      CountsGrow(Deliver(db, before).1, DeliverOne(Deliver(db, before).0, x).1, id);
      RegressionsSnoc(db, OpsOf(before), SaveOp(x.args, x.now), id);
    }
  }

  /** No alert about a new issue has an id that is yet to be given out. */
  lemma {:induction false} NoNewAlertYet(db: DB, gone: seq<EventRow>, saves: seq<Timed>, id: nat)
    requires Inv(db, gone) && id >= Deliver(db, saves).0.nextIssue
    ensures NewAlerts(Deliver(db, saves).1, id) == 0
  {
    if saves != [] {
      var n := |saves| - 1;
      var before, x := saves[..n], saves[n];
      NoNewAlertYet(db, gone, before, id);
      OneSaveCounts(Deliver(db, before).0, x, id);
      CountsGrow(Deliver(db, before).1, DeliverOne(Deliver(db, before).0, x).1, id);
    }
  }

  /** The alerts about an issue as new are as many as the reports of its key as new, so at most one. */
  lemma {:induction false} NewAlertsCount(db: DB, gone: seq<EventRow>, saves: seq<Timed>, k: nat)
    requires Inv(db, gone) && k < |Deliver(db, saves).0.issues|
    ensures var i := Deliver(db, saves).0.issues[k];
            NewAlerts(Deliver(db, saves).1, i.id) == NewReports(db, OpsOf(saves), i.project, i.fingerprint)
  {
    if saves != [] {
      var n := |saves| - 1;
      var before, x := saves[..n], saves[n];
      var mid, op := Deliver(db, before).0, SaveOp(x.args, x.now);
      var i := Deliver(db, saves).0.issues[k];
      DeliverIsRun(db, gone, before);
      OneSaveCounts(mid, x, i.id);
      CountsGrow(Deliver(db, before).1, DeliverOne(mid, x).1, i.id);
      NewReportsSnoc(db, OpsOf(before), op, i.project, i.fingerprint);
      NewStep(mid, gone, x, k);
      if k < |mid.issues| {
        NewAlertsCount(db, gone, before, k);
      } else {
        NoNewAlertYet(db, gone, before, i.id);
        NewExactlyOnce(db, OpsOf(before), i.project, i.fingerprint);
      }
    }
  }

  /** After one save: an issue that was there before was not created by it, and one that was not, was. */
  lemma NewStep(db: DB, gone: seq<EventRow>, x: Timed, k: nat)
    requires Inv(db, gone) && k < |Save(db, x.args, x.now).0.issues|
    ensures var i, op := Save(db, x.args, x.now).0.issues[k], SaveOp(x.args, x.now);
            if k < |db.issues|
            then && i.id == db.issues[k].id && i.project == db.issues[k].project
                 && i.fingerprint == db.issues[k].fingerprint
                 && !Creates(db, op, i.id) && !ReportsNew(db, op, i.project, i.fingerprint)
            else && i.id == db.nextIssue && FindIssue(db.issues, i.project, i.fingerprint).None?
                 && Creates(db, op, i.id) && ReportsNew(db, op, i.project, i.fingerprint)
  {
    if k < |db.issues| {
      assert db.issues[k] in db.issues;
    }
  }

  /** The same for whole requests: what a request alerts is what its saves report. */
  lemma RequestAlertsCount(db: DB, gone: seq<EventRow>, d: Decoders, project: string, key: string,
                           items: seq<Envelope.Item>, clock: nat -> int)
    requires Inv(db, gone)
    ensures var known, ops := EnsureProject(db, project, key), OpsOf(SavesOf(d, project, items, clock));
            var (db', alerts) := Serve(db, d, project, key, items, clock);
            && db' == Run(known, ops)
            && (forall id: nat :: RegressionAlerts(alerts, id) == Regressions(known, ops, id))
            && (forall i :: i in db'.issues ==>
                  NewAlerts(alerts, i.id) == NewReports(known, ops, i.project, i.fingerprint))
  {
    var known, saves := EnsureProject(db, project, key), SavesOf(d, project, items, clock);
    InvStep(db, gone, EnsureOp(project, key));
    assert gone + [] == gone;
    DeliverIsRun(known, gone, saves);
    forall id: nat ensures RegressionAlerts(Deliver(known, saves).1, id) == Regressions(known, OpsOf(saves), id) {
      RegressionAlertsCount(known, gone, saves, id);
    }
    var db' := Deliver(known, saves).0;
    forall i | i in db'.issues
      ensures NewAlerts(Deliver(known, saves).1, i.id) == NewReports(known, OpsOf(saves), i.project, i.fingerprint)
    {
      var k :| 0 <= k < |db'.issues| && db'.issues[k] == i;
      NewAlertsCount(known, gone, saves, k);
    }
  }
}
