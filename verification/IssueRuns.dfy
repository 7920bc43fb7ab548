/** Whole runs of the issue store: what every operation keeps, and how the reported events add up. */
module IssueRuns {
  import opened Basics
  import opened IssueStore

  datatype Op =
    | EnsureOp(project: string, key: string)
    | SaveOp(args: SaveArgs, now: int)
    | StatusOp(project: string, id: nat, status: IssueStatus)
    | PruneOp(cutoff: int)

  datatype Reply = Done | Saved(r: SaveResult) | Changed(found: bool)

  function Step(db: DB, op: Op): (DB, Reply) {
    match op
    case EnsureOp(p, key) => (EnsureProject(db, p, key), Done)
    case SaveOp(a, now) => var (db', r) := Save(db, a, now); (db', Saved(r))
    case StatusOp(p, id, status) => var (db', found) := SetStatus(db, p, id, status); (db', Changed(found))
    case PruneOp(cutoff) => (Prune(db, cutoff), Done)
  }

  /** The store after a run from db. */
  function Run(db: DB, ops: seq<Op>): DB
    decreases |ops|
  {
    if ops == [] then db else Run(Step(db, ops[0]).0, ops[1..])
  }

  /** All events a run deletes, in order of deletion. */
  function PrunedBy(db: DB, ops: seq<Op>): seq<EventRow>
    decreases |ops|
  {
    if ops == [] then []
    else PrunedNow(db, ops[0]) + PrunedBy(Step(db, ops[0]).0, ops[1..])
  }

  // ---- Projects

  /** The key a run first creates the project with, if it does. */
  function FirstKey(ops: seq<Op>, project: string): Option<string> {
    if ops == [] then None
    else if ops[0].EnsureOp? && ops[0].project == project then Some(ops[0].key)
    else FirstKey(ops[1..], project)
  }

  /** A project keeps the key it had before the run, or else the first one the run gave it; nothing removes it. */
  lemma {:induction false} FirstKeyIsKept(db: DB, ops: seq<Op>, project: string)
    ensures var projects := Run(db, ops).projects;
            if project in db.projects then project in projects && projects[project] == db.projects[project]
            else match FirstKey(ops, project) {
                   case None => project !in projects
                   case Some(key) => project in projects && projects[project] == key
                 }
    decreases |ops|
  {
    if ops != [] {
      FirstKeyIsKept(Step(db, ops[0]).0, ops[1..], project);
    }
  }

  // ---- Invariants

  function CountFor(events: seq<EventRow>, id: nat): nat {
    if events == [] then 0
    else CountFor(events[..|events| - 1], id) + if events[|events| - 1].issueId == id then 1 else 0
  }

  predicate SameEventKey(a: EventRow, b: EventRow) {
    a.project == b.project && a.eventId == b.eventId
  }

  predicate UniqueEvents(events: seq<EventRow>) {
    forall i, j :: 0 <= i < j < |events| ==> !SameEventKey(events[i], events[j])
  }

  predicate SameIssueKey(a: Issue, b: Issue) {
    a.project == b.project && a.fingerprint == b.fingerprint
  }

  predicate UniqueIssues(issues: seq<Issue>) {
    forall i, j :: 0 <= i < j < |issues| ==> issues[i].id != issues[j].id && !SameIssueKey(issues[i], issues[j])
  }

  /** The event's issue exists and belongs to the event's project. */
  predicate Linked(issues: seq<Issue>, e: EventRow) {
    exists k :: 0 <= k < |issues| && issues[k].id == e.issueId && issues[k].project == e.project
  }

  /** `gone` are the events pruned so far. */
  predicate Inv(db: DB, gone: seq<EventRow>) {
    && UniqueIssues(db.issues)
    && UniqueEvents(db.events)
    && (forall i :: i in db.issues ==> i.id < db.nextIssue)
    && (forall e :: e in db.events ==> Linked(db.issues, e))
    && (forall e :: e in gone ==> Linked(db.issues, e))
    && (forall i :: i in db.issues ==> i.eventCount == CountFor(db.events, i.id) + CountFor(gone, i.id))
  }

  lemma CountSnoc(events: seq<EventRow>, e: EventRow, id: nat)
    ensures CountFor(events + [e], id) == CountFor(events, id) + if e.issueId == id then 1 else 0
  {
  }

  lemma {:induction false} CountAppend(a: seq<EventRow>, b: seq<EventRow>, id: nat)
    ensures CountFor(a + b, id) == CountFor(a, id) + CountFor(b, id)
  {
    if b == [] {
      assert a + b == a;
    } else {
      var n := |b| - 1;
      assert a + b == a + b[..n] + [b[n]];
      CountSnoc(a + b[..n], b[n], id);
      CountAppend(a, b[..n], id);
    }
  }

  lemma UniqueSnoc(events: seq<EventRow>, e: EventRow)
    requires UniqueEvents(events) && forall x :: x in events ==> !SameEventKey(x, e)
    ensures UniqueEvents(events + [e])
  {
  }

  /** Pruning keeps exactly the events received since the cutoff. */
  lemma {:induction false} PruneKeepsRecent(events: seq<EventRow>, cutoff: int)
    ensures forall e :: e in Kept(events, cutoff) <==> e in events && e.receivedAt >= cutoff
    ensures forall e :: e in Expired(events, cutoff) <==> e in events && e.receivedAt < cutoff
  {
    if events != [] {
      var n := |events| - 1;
      assert events == events[..n] + [events[n]];
      PruneKeepsRecent(events[..n], cutoff);
    }
  }

  /** Every pruned event is accounted for. */
  lemma {:induction false} PruneSplitsCounts(events: seq<EventRow>, cutoff: int, id: nat)
    ensures CountFor(events, id) == CountFor(Kept(events, cutoff), id) + CountFor(Expired(events, cutoff), id)
  {
    if events != [] {
      var n := |events| - 1;
      PruneSplitsCounts(events[..n], cutoff, id);
      if events[n].receivedAt < cutoff {
        CountSnoc(Expired(events[..n], cutoff), events[n], id);
        assert Kept(events, cutoff) == Kept(events[..n], cutoff);
      } else {
        CountSnoc(Kept(events[..n], cutoff), events[n], id);
        assert Expired(events, cutoff) == Expired(events[..n], cutoff);
      }
    }
  }

  lemma {:induction false} PruneKeepsUnique(events: seq<EventRow>, cutoff: int)
    requires UniqueEvents(events)
    ensures UniqueEvents(Kept(events, cutoff))
  {
    if events != [] {
      var n := |events| - 1;
      PruneKeepsUnique(events[..n], cutoff);
      PruneKeepsRecent(events[..n], cutoff);
      if events[n].receivedAt >= cutoff {
        UniqueSnoc(Kept(events[..n], cutoff), events[n]);
      } else {
        assert Kept(events, cutoff) == Kept(events[..n], cutoff);
      }
    }
  }

  lemma InvPrune(db: DB, gone: seq<EventRow>, cutoff: int)
    requires Inv(db, gone)
    ensures Inv(Prune(db, cutoff), gone + Expired(db.events, cutoff))
  {
    PruneKeepsRecent(db.events, cutoff);
    PruneKeepsUnique(db.events, cutoff);
    forall i | i in db.issues
      ensures i.eventCount ==
              CountFor(Prune(db, cutoff).events, i.id) + CountFor(gone + Expired(db.events, cutoff), i.id)
    {
      CountAppend(gone, Expired(db.events, cutoff), i.id);
      PruneSplitsCounts(db.events, cutoff, i.id);
    }
  }

  lemma {:induction false} UnlinkedCountsZero(events: seq<EventRow>, issues: seq<Issue>, id: nat)
    requires forall e :: e in events ==> Linked(issues, e)
    requires forall i :: i in issues ==> i.id != id
    ensures CountFor(events, id) == 0
  {
    if events != [] {
      UnlinkedCountsZero(events[..|events| - 1], issues, id);
      assert Linked(issues, events[|events| - 1]);
    }
  }

  lemma InvSave(db: DB, gone: seq<EventRow>, a: SaveArgs, now: int)
    requires Inv(db, gone)
    ensures Inv(Save(db, a, now).0, gone)
  {
    if FindEvent(db.events, a.project, a.ev.eventId).None? {
      match FindIssue(db.issues, a.project, a.fingerprint)
      case None => InvSaveNew(db, gone, a, now);
      case Some(k) => InvSaveKnown(db, gone, a, now, k);
    }
  }

  lemma InvSaveNew(db: DB, gone: seq<EventRow>, a: SaveArgs, now: int)
    requires Inv(db, gone)
    requires FindEvent(db.events, a.project, a.ev.eventId).None? && FindIssue(db.issues, a.project, a.fingerprint).None?
    ensures Inv(Save(db, a, now).0, gone)
  {
    InvCreate(db, gone, NewIssue(db, a, now), NewEvent(db, a, db.nextIssue, now));
  }

  /** Adding an issue with fresh id and key, and its first event. */
  lemma InvCreate(db: DB, gone: seq<EventRow>, issue: Issue, e: EventRow)
    requires Inv(db, gone) && forall x :: x in db.events ==> !SameEventKey(x, e)
    requires forall i :: i in db.issues ==> !SameIssueKey(i, issue)
    requires issue.id == db.nextIssue == e.issueId && issue.project == e.project && issue.eventCount == 1
    ensures Inv(db.(issues := db.issues + [issue], nextIssue := db.nextIssue + 1,
                    events := db.events + [e], nextEvent := db.nextEvent + 1), gone)
  {
    var issues, events := db.issues + [issue], db.events + [e];
    UniqueSnoc(db.events, e);
    LinksSurvive(db.issues, issues, db.events);
    LinksSurvive(db.issues, issues, gone);
    assert issues[|db.issues|].id == e.issueId;
    UnlinkedCountsZero(db.events, db.issues, db.nextIssue);
    UnlinkedCountsZero(gone, db.issues, db.nextIssue);
    forall i | i in issues ensures i.eventCount == CountFor(events, i.id) + CountFor(gone, i.id) {
      CountSnoc(db.events, e, i.id);
    }
  }

  lemma InvSaveKnown(db: DB, gone: seq<EventRow>, a: SaveArgs, now: int, k: nat)
    requires Inv(db, gone)
    requires FindEvent(db.events, a.project, a.ev.eventId).None?
    requires FindIssue(db.issues, a.project, a.fingerprint) == Some(k)
    ensures Inv(Save(db, a, now).0, gone)
  {
    var issue := db.issues[k];
    InvBump(db, gone, k, Bumped(issue, now), NewEvent(db, a, issue.id, now));
  }

  /** Counting one more event, with a fresh key, for a known issue. */
  lemma InvBump(db: DB, gone: seq<EventRow>, k: nat, issue: Issue, e: EventRow)
    requires Inv(db, gone) && k < |db.issues| && forall x :: x in db.events ==> !SameEventKey(x, e)
    requires issue.id == db.issues[k].id == e.issueId && issue.project == db.issues[k].project == e.project
    requires issue.fingerprint == db.issues[k].fingerprint && issue.eventCount == db.issues[k].eventCount + 1
    ensures Inv(db.(issues := db.issues[k := issue], events := db.events + [e], nextEvent := db.nextEvent + 1), gone)
  {
    var issues, events := db.issues[k := issue], db.events + [e];
    UniqueSnoc(db.events, e);
    LinksSurvive(db.issues, issues, db.events);
    LinksSurvive(db.issues, issues, gone);
    assert issues[k].id == e.issueId;
    forall i | i in issues
      ensures i.id < db.nextIssue && i.eventCount == CountFor(events, i.id) + CountFor(gone, i.id)
    {
      var n :| 0 <= n < |issues| && issues[n] == i;
      CountSnoc(db.events, e, i.id);
      assert db.issues[n] in db.issues;
    }
  }

  /** Rows keep their position, id and project, so links stay valid. */
  lemma LinksSurvive(issues: seq<Issue>, issues': seq<Issue>, events: seq<EventRow>)
    requires |issues| <= |issues'|
    requires forall k :: 0 <= k < |issues| ==> issues'[k].id == issues[k].id && issues'[k].project == issues[k].project
    requires forall e :: e in events ==> Linked(issues, e)
    ensures forall e :: e in events ==> Linked(issues', e)
  {
  }

  lemma InvStatus(db: DB, gone: seq<EventRow>, p: string, id: nat, status: IssueStatus)
    requires Inv(db, gone)
    ensures Inv(SetStatus(db, p, id, status).0, gone)
  {
    var db' := SetStatus(db, p, id, status).0;
    assert |db'.issues| == |db.issues|;
    forall k | 0 <= k < |db.issues|
      ensures db'.issues[k].(status := db.issues[k].status) == db.issues[k]
    {
    }
    LinksSurvive(db.issues, db'.issues, db.events);
    LinksSurvive(db.issues, db'.issues, gone);
    forall i | i in db'.issues
      ensures i.id < db.nextIssue && i.eventCount == CountFor(db.events, i.id) + CountFor(gone, i.id)
    {
      var n :| 0 <= n < |db'.issues| && db'.issues[n] == i;
      assert db.issues[n] in db.issues;
    }
  }

  function PrunedNow(db: DB, op: Op): seq<EventRow> {
    if op.PruneOp? then Expired(db.events, op.cutoff) else []
  }

  // ---- Ids of events

  predicate Ascending(events: seq<EventRow>) {
    forall i, j :: 0 <= i < j < |events| ==> events[i].id < events[j].id
  }

  /** Event ids are given out once, in order. */
  predicate EventIds(db: DB) {
    Ascending(db.events) && forall e :: e in db.events ==> e.id < db.nextEvent
  }

  lemma {:induction false} KeptAscends(events: seq<EventRow>, cutoff: int)
    requires Ascending(events)
    ensures Ascending(Kept(events, cutoff))
  {
    if events != [] {
      var n := |events| - 1;
      KeptAscends(events[..n], cutoff);
      PruneKeepsRecent(events[..n], cutoff);
      forall e | e in Kept(events[..n], cutoff) ensures e.id < events[n].id {
        assert e in events[..n];
      }
    }
  }

  lemma EventIdsStep(db: DB, op: Op)
    requires EventIds(db)
    ensures EventIds(Step(db, op).0) && db.nextEvent <= Step(db, op).0.nextEvent
  {
    if op.PruneOp? {
      KeptAscends(db.events, op.cutoff);
      PruneKeepsRecent(db.events, op.cutoff);
    }
  }

  /** In every run event ids ascend in the order of saving, and no id is given out again, even after pruning. */
  lemma {:induction false} EventIdsRun(db: DB, ops: seq<Op>)
    requires EventIds(db)
    ensures EventIds(Run(db, ops)) && db.nextEvent <= Run(db, ops).nextEvent
    ensures forall e :: e in Run(db, ops).events ==> e in db.events || e.id >= db.nextEvent
    decreases |ops|
  {
    if ops != [] {
      var db' := Step(db, ops[0]).0;
      EventIdsStep(db, ops[0]);
      StepAddsFreshIds(db, ops[0]);
      EventIdsRun(db', ops[1..]);
    }
  }

  lemma StepAddsFreshIds(db: DB, op: Op)
    ensures forall e :: e in Step(db, op).0.events ==> e in db.events || e.id >= db.nextEvent
  {
    if op.PruneOp? {
      PruneKeepsRecent(db.events, op.cutoff);
    }
  }

  // ---- All operations

  /** Every operation keeps the invariant. */
  lemma InvStep(db: DB, gone: seq<EventRow>, op: Op)
    requires Inv(db, gone)
    ensures Inv(Step(db, op).0, gone + PrunedNow(db, op))
  {
    assert gone + [] == gone;
    match op {
      case EnsureOp(_, _) =>
      case SaveOp(a, now) => InvSave(db, gone, a, now);
      case StatusOp(p, id, status) => InvStatus(db, gone, p, id, status);
      case PruneOp(cutoff) => InvPrune(db, gone, cutoff);
    }
  }

  lemma {:induction false} InvRun(db: DB, ops: seq<Op>, gone: seq<EventRow>)
    requires Inv(db, gone)
    ensures Inv(Run(db, ops), gone + PrunedBy(db, ops))
    decreases |ops|
  {
    if ops == [] {
      assert gone + [] == gone;
    } else {
      InvStep(db, gone, ops[0]);
      var db', here := Step(db, ops[0]).0, PrunedNow(db, ops[0]);
      InvRun(db', ops[1..], gone + here);
      Associative(gone, here, PrunedBy(db', ops[1..]));
    }
  }

  /**
   Conservation over every run from an empty store: each issue's count is its stored plus its pruned events, every
   stored or pruned event belongs to an issue of its own project, and both natural keys stay unique.
  */
  lemma Conservation(ops: seq<Op>)
    ensures var db, gone := Run(EMPTY, ops), PrunedBy(EMPTY, ops);
            && (forall i :: i in db.issues ==> i.eventCount == CountFor(db.events, i.id) + CountFor(gone, i.id))
            && (forall e :: e in db.events ==> Linked(db.issues, e))
            && (forall e :: e in gone ==> Linked(db.issues, e))
            && UniqueIssues(db.issues) && UniqueEvents(db.events)
  {
    InvRun(EMPTY, ops, []);
    assert [] + PrunedBy(EMPTY, ops) == PrunedBy(EMPTY, ops);
  }
}
