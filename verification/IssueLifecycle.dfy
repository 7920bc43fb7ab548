/** What callers are told over a run: new issues once, regressions after a resolution, silence for ignored issues. */
module IssueLifecycle {
  import opened Basics
  import opened IssueStore
  import opened IssueRuns

  function StatusOf(db: DB, id: nat): Option<IssueStatus> {
    match FindById(db.issues, id)
    case None => None
    case Some(k) => Some(db.issues[k].status)
  }

  /** The step reports a new issue for the key. */
  predicate ReportsNew(db: DB, op: Op, project: string, fingerprint: string) {
    && op.SaveOp? && op.args.project == project && op.args.fingerprint == fingerprint
    && Step(db, op).1.r.isNew
  }

  predicate Regresses(db: DB, op: Op, id: nat) {
    op.SaveOp? && Step(db, op).1.r.isRegression && Step(db, op).1.r.issueId == id
  }

  /** The project has an issue with that id. */
  predicate HasIssue(db: DB, project: string, id: nat) {
    exists i :: i in db.issues && i.id == id && i.project == project
  }

  /** The step is a status change by hand of the issue, asked for under its own project. */
  predicate SetsStatus(db: DB, op: Op, id: nat) {
    op.StatusOp? && op.id == id && HasIssue(db, op.project, id)
  }

  predicate Resolves(db: DB, op: Op, id: nat) {
    SetsStatus(db, op, id) && op.status == Resolved
  }

  function NewReports(db: DB, ops: seq<Op>, project: string, fingerprint: string): nat
    decreases |ops|
  {
    if ops == [] then 0
    else (if ReportsNew(db, ops[0], project, fingerprint) then 1 else 0)
         + NewReports(Step(db, ops[0]).0, ops[1..], project, fingerprint)
  }

  function Regressions(db: DB, ops: seq<Op>, id: nat): nat
    decreases |ops|
  {
    if ops == [] then 0
    else (if Regresses(db, ops[0], id) then 1 else 0) + Regressions(Step(db, ops[0]).0, ops[1..], id)
  }

  function Resolutions(db: DB, ops: seq<Op>, id: nat): nat
    decreases |ops|
  {
    if ops == [] then 0
    else (if Resolves(db, ops[0], id) then 1 else 0) + Resolutions(Step(db, ops[0]).0, ops[1..], id)
  }

  function StatusChanges(db: DB, ops: seq<Op>, id: nat): nat
    decreases |ops|
  {
    if ops == [] then 0
    else (if SetsStatus(db, ops[0], id) then 1 else 0) + StatusChanges(Step(db, ops[0]).0, ops[1..], id)
  }

  function Known(db: DB, project: string, fingerprint: string): nat {
    if FindIssue(db.issues, project, fingerprint).Some? then 1 else 0
  }

  // ---- New issues

  lemma KnownStep(db: DB, op: Op, project: string, fingerprint: string)
    ensures Known(Step(db, op).0, project, fingerprint)
            == Known(db, project, fingerprint) + if ReportsNew(db, op, project, fingerprint) then 1 else 0
  {
    var issues, issues' := db.issues, Step(db, op).0.issues;
    assert forall k :: 0 <= k < |issues| ==>
      (IsIssue(issues'[k], project, fingerprint) <==> IsIssue(issues[k], project, fingerprint));
    match FindIssue(issues, project, fingerprint)
    case Some(k) =>
      assert IsIssue(issues'[k], project, fingerprint) && issues'[k] in issues';
    case None =>
      forall k | 0 <= k < |issues| ensures !IsIssue(issues'[k], project, fingerprint) {
        assert issues[k] in issues;
      }
      if |issues'| > |issues| {
        assert issues'[|issues|] in issues';
      }
  }

  /** Over any run an issue is reported new exactly if the run creates it, and so at most once. */
  lemma {:induction false} NewExactlyOnce(db: DB, ops: seq<Op>, project: string, fingerprint: string)
    ensures NewReports(db, ops, project, fingerprint) + Known(db, project, fingerprint)
            == Known(Run(db, ops), project, fingerprint) <= 1
    decreases |ops|
  {
    if ops != [] {
      KnownStep(db, ops[0], project, fingerprint);
      NewExactlyOnce(Step(db, ops[0]).0, ops[1..], project, fingerprint);
    }
  }

  // ---- Regressions

  /** Looking up by id sees the same position while ids stay in place and new rows have other ids. */
  lemma FindByIdStable(a: seq<Issue>, b: seq<Issue>, id: nat)
    requires |a| <= |b| && forall k :: 0 <= k < |a| ==> b[k].id == a[k].id
    requires forall k :: |a| <= k < |b| ==> b[k].id != id
    ensures FindById(b, id) == FindById(a, id)
  {
  }

  /** The step stores a new event for an already known issue. */
  predicate Recurs(db: DB, op: Op, id: nat) {
    && op.SaveOp?
    && FindEvent(db.events, op.args.project, op.args.ev.eventId).None?
    && var k := FindIssue(db.issues, op.args.project, op.args.fingerprint);
       k.Some? && db.issues[k.value].id == id
  }

  /** A regression is exactly a new event for a resolved issue. */
  lemma RegressesIff(db: DB, gone: seq<EventRow>, op: Op, id: nat)
    requires Inv(db, gone)
    ensures Regresses(db, op, id) <==> Recurs(db, op, id) && StatusOf(db, id) == Some(Resolved)
  {
  }

  lemma FoundById(issues: seq<Issue>, k: nat)
    requires UniqueIssues(issues) && k < |issues|
    ensures FindById(issues, issues[k].id) == Some(k)
  {
  }

  /** The step creates the issue. */
  predicate Creates(db: DB, op: Op, id: nat) {
    op.SaveOp? && Step(db, op).1.r.isNew && Step(db, op).1.r.issueId == id
  }

  /** A status change is reported found exactly for an issue of the project, and changes only that issue's status. */
  lemma StatusChange(db: DB, gone: seq<EventRow>, project: string, id: nat, status: IssueStatus)
    requires Inv(db, gone)
    ensures SetStatus(db, project, id, status).1 <==> HasIssue(db, project, id)
    ensures var issues := SetStatus(db, project, id, status).0.issues;
            && |issues| == |db.issues|
            && forall k :: 0 <= k < |issues| ==>
                 issues[k] == if db.issues[k].id == id && db.issues[k].project == project
                              then db.issues[k].(status := status) else db.issues[k]
    ensures SetStatus(db, project, id, status).0.(issues := db.issues) == db
  {
    if FindById(db.issues, id).Some? {
      assert db.issues[FindById(db.issues, id).value] in db.issues;
    }
    if HasIssue(db, project, id) {
      var i :| i in db.issues && i.id == id && i.project == project;
      var k :| 0 <= k < |db.issues| && db.issues[k] == i;
      FoundById(db.issues, k);
    }
  }

  /** The exact status of an issue after any step: only its creation, a change by hand or a regression alters it. */
  lemma StatusStep(db: DB, gone: seq<EventRow>, op: Op, id: nat)
    requires Inv(db, gone)
    ensures StatusOf(Step(db, op).0, id) ==
            if SetsStatus(db, op, id) then Some(op.status)
            else if Regresses(db, op, id) || Creates(db, op, id) then Some(Unresolved)
            else StatusOf(db, id)
    ensures Creates(db, op, id) ==> StatusOf(db, id) == None
  {
    RegressesIff(db, gone, op, id);
    var issues, issues' := db.issues, Step(db, op).0.issues;
    match op
    case EnsureOp(_, _) =>
    case PruneOp(_) =>
    case StatusOp(p, i, status) =>
      StatusChange(db, gone, p, i, status);
      FindByIdStable(issues, issues', id);
    case SaveOp(a, now) => StatusAfterSave(db, gone, a, now, id);
  }

  lemma StatusAfterSave(db: DB, gone: seq<EventRow>, a: SaveArgs, now: int, id: nat)
    requires Inv(db, gone)
    ensures var op := SaveOp(a, now);
            && (Creates(db, op, id) ==> StatusOf(db, id) == None)
            && StatusOf(Save(db, a, now).0, id) ==
               if Creates(db, op, id) || (Recurs(db, op, id) && StatusOf(db, id) == Some(Resolved))
               then Some(Unresolved)
               else StatusOf(db, id)
  {
    var op, issues, issues' := SaveOp(a, now), db.issues, Save(db, a, now).0.issues;
    forall k | 0 <= k < |issues| ensures issues[k].id < db.nextIssue {
      assert issues[k] in issues;
    }
    if Creates(db, op, id) {
      assert issues'[|issues|] in issues';
    } else {
      FindByIdStable(issues, issues', id);
      if Recurs(db, op, id) {
        FoundById(issues, FindIssue(issues, a.project, a.fingerprint).value);
      }
    }
  }

  function Holds(b: bool): nat { if b then 1 else 0 }

  /**
   Over any run the regressions reported for an issue, plus one if it ends resolved, are at most the times it was
   set to resolved, plus one if it started resolved.
  */
  lemma {:induction false} RegressionsBounded(db: DB, gone: seq<EventRow>, ops: seq<Op>, id: nat)
    requires Inv(db, gone)
    ensures Regressions(db, ops, id) + Holds(StatusOf(Run(db, ops), id) == Some(Resolved))
            <= Resolutions(db, ops, id) + Holds(StatusOf(db, id) == Some(Resolved))
    decreases |ops|
  {
    if ops != [] {
      var op := ops[0];
      RegressesIff(db, gone, op, id);
      StatusStep(db, gone, op, id);
      InvStep(db, gone, op);
      RegressionsBounded(Step(db, op).0, gone + PrunedNow(db, op), ops[1..], id);
    }
  }

  /** Between two regressions of an issue there is a step that set it to resolved. */
  lemma ResolvedBetweenRegressions(db: DB, gone: seq<EventRow>, op: Op, ops: seq<Op>, id: nat)
    requires Inv(db, gone)
    requires Regresses(db, op, id) && Regressions(Step(db, op).0, ops, id) > 0
    ensures Resolutions(Step(db, op).0, ops, id) > 0
  {
    StatusStep(db, gone, op, id);
    InvStep(db, gone, op);
    RegressionsBounded(Step(db, op).0, gone + PrunedNow(db, op), ops, id);
  }

  /** From an empty store, an issue's regressions never exceed the times it was set to resolved. */
  lemma RegressionsNeverExceedResolutions(ops: seq<Op>, id: nat)
    ensures Regressions(EMPTY, ops, id) <= Resolutions(EMPTY, ops, id)
  {
    RegressionsBounded(EMPTY, [], ops, id);
  }

  /** An ignored issue stays ignored, without a single regression report, until its status is changed by hand. */
  lemma {:induction false} IgnoredStaysIgnored(db: DB, gone: seq<EventRow>, ops: seq<Op>, id: nat)
    requires Inv(db, gone) && StatusOf(db, id) == Some(Ignored) && StatusChanges(db, ops, id) == 0
    ensures StatusOf(Run(db, ops), id) == Some(Ignored) && Regressions(db, ops, id) == 0
    decreases |ops|
  {
    if ops != [] {
      var op := ops[0];
      RegressesIff(db, gone, op, id);
      StatusStep(db, gone, op, id);
      InvStep(db, gone, op);
      IgnoredStaysIgnored(Step(db, op).0, gone + PrunedNow(db, op), ops[1..], id);
    }
  }

  // ---- What one save leaves behind

  /** A new event can be read back under its key, with everything it was saved with; older events are untouched. */
  lemma SavedEventIsReadBack(db: DB, a: SaveArgs, now: int)
    requires FindEvent(db.events, a.project, a.ev.eventId).None?
    ensures var (db', r) := Save(db, a, now);
            && FindEvent(db'.events, a.project, a.ev.eventId) == Some(|db.events|)
            && var e := db'.events[|db.events|];
               && e.payload == a.raw
               && e.level == a.ev.level && e.platform == a.ev.platform && e.message == a.ev.message
               && e.timestamp == a.ev.timestamp && e.receivedAt == now && e.issueId == r.issueId
    ensures db.events <= Save(db, a, now).0.events && Save(db, a, now).0.projects == db.projects
  {
    var db' := Save(db, a, now).0;
    assert db'.events[|db.events|] in db'.events;
    forall k | 0 <= k < |db.events| ensures !IsEvent(db'.events[k], a.project, a.ev.eventId) {
      assert db.events[k] in db.events;
    }
  }

  /** The reported issue is the one with the event's fingerprint; a new one starts out as the event describes it. */
  lemma SavedEventsIssue(db: DB, gone: seq<EventRow>, a: SaveArgs, now: int)
    requires Inv(db, gone) && FindEvent(db.events, a.project, a.ev.eventId).None?
    ensures var (db', r) := Save(db, a, now);
            && FindById(db'.issues, r.issueId).Some?
            && var i := db'.issues[FindById(db'.issues, r.issueId).value];
               && IsIssue(i, a.project, a.fingerprint) && i.lastSeen == now
               && (r.isNew ==> i.title == a.title && i.firstSeen == now && i.status == Unresolved && i.eventCount == 1)
  {
    InvSave(db, gone, a, now);
    var db' := Save(db, a, now).0;
    match FindIssue(db.issues, a.project, a.fingerprint)
    case None => FoundById(db'.issues, |db.issues|);
    case Some(k) => FoundById(db'.issues, k);
  }

  /** No other issue changes, and the issue itself keeps its title and first sighting. */
  lemma SaveTouchesOneIssue(db: DB, gone: seq<EventRow>, a: SaveArgs, now: int, k: nat)
    requires Inv(db, gone) && k < |db.issues|
    ensures var (db', r) := Save(db, a, now);
            && k < |db'.issues|
            && (db.issues[k].id != r.issueId ==> db'.issues[k] == db.issues[k])
            && db'.issues[k].title == db.issues[k].title && db'.issues[k].firstSeen == db.issues[k].firstSeen
            && db'.issues[k].id == db.issues[k].id
  {
  }
}
