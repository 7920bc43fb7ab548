/**
 The tables of projects, issues and events, and the transactions on them. Tables are sequences of rows in
 insertion order; times are integers. Every operation is one atomic step, as all writes share one connection.
*/
module IssueStore {
  import opened Basics
  import opened Protocol

  datatype IssueStatus = Unresolved | Resolved | Ignored

  datatype Issue = Issue(
    id: nat, project: string, fingerprint: string, title: string,
    status: IssueStatus, firstSeen: int, lastSeen: int, eventCount: int)

  datatype EventRow = EventRow(
    id: nat, project: string, issueId: nat, eventId: string, receivedAt: int,
    timestamp: Option<int>, level: string, platform: string, message: string, payload: bytes)

  datatype DB = DB(
    projects: map<string, string>, issues: seq<Issue>, nextIssue: nat, events: seq<EventRow>, nextEvent: nat)

  const EMPTY := DB(map[], [], 1, [], 1)

  /** The arguments of one SaveEvent call. */
  datatype SaveArgs = SaveArgs(project: string, ev: Event, raw: bytes, fingerprint: string, title: string)

  datatype SaveResult = SaveResult(issueId: nat, isNew: bool, isRegression: bool)

  // ---- Lookups by unique key

  predicate IsEvent(e: EventRow, project: string, eventId: string) {
    e.project == project && e.eventId == eventId
  }

  predicate IsIssue(i: Issue, project: string, fingerprint: string) {
    i.project == project && i.fingerprint == fingerprint
  }

  /** The position of the first matching event. */
  function FindEvent(events: seq<EventRow>, project: string, eventId: string): (r: Option<nat>)
    ensures r.None? ==> forall e :: e in events ==> !IsEvent(e, project, eventId)
    ensures r.Some? ==> r.value < |events| && IsEvent(events[r.value], project, eventId)
                        && forall j :: 0 <= j < r.value ==> !IsEvent(events[j], project, eventId)
  {
    if events == [] then None
    else if IsEvent(events[0], project, eventId) then Some(0)
    else
      match FindEvent(events[1..], project, eventId)
      case None => None
      case Some(k) => Some(k + 1)
  }

  function FindIssue(issues: seq<Issue>, project: string, fingerprint: string): (r: Option<nat>)
    ensures r.None? ==> forall i :: i in issues ==> !IsIssue(i, project, fingerprint)
    ensures r.Some? ==> r.value < |issues| && IsIssue(issues[r.value], project, fingerprint)
                        && forall j :: 0 <= j < r.value ==> !IsIssue(issues[j], project, fingerprint)
  {
    if issues == [] then None
    else if IsIssue(issues[0], project, fingerprint) then Some(0)
    else
      match FindIssue(issues[1..], project, fingerprint)
      case None => None
      case Some(k) => Some(k + 1)
  }

  function FindById(issues: seq<Issue>, id: nat): (r: Option<nat>)
    ensures r.None? ==> forall i :: i in issues ==> i.id != id
    ensures r.Some? ==> r.value < |issues| && issues[r.value].id == id
                        && forall j :: 0 <= j < r.value ==> issues[j].id != id
  {
    if issues == [] then None
    else if issues[0].id == id then Some(0)
    else
      match FindById(issues[1..], id)
      case None => None
      case Some(k) => Some(k + 1)
  }

  // ---- The transactions

  function Reopened(s: IssueStatus): IssueStatus {
    if s == Resolved then Unresolved else s
  }

  function NewIssue(db: DB, a: SaveArgs, now: int): Issue {
    Issue(db.nextIssue, a.project, a.fingerprint, a.title, Unresolved, now, now, 1)
  }

  function Bumped(i: Issue, now: int): Issue {
    i.(lastSeen := now, eventCount := i.eventCount + 1, status := Reopened(i.status))
  }

  function NewEvent(db: DB, a: SaveArgs, issueId: nat, now: int): EventRow {
    EventRow(db.nextEvent, a.project, issueId, a.ev.eventId, now, a.ev.timestamp, a.ev.level, a.ev.platform,
             a.ev.message, a.raw)
  }

  function AddEvent(db: DB, a: SaveArgs, issueId: nat, now: int): DB {
    db.(events := db.events + [NewEvent(db, a, issueId, now)], nextEvent := db.nextEvent + 1)
  }

  function Save(db: DB, a: SaveArgs, now: int): (DB, SaveResult) {
    match FindEvent(db.events, a.project, a.ev.eventId)
    case Some(i) => (db, SaveResult(db.events[i].issueId, false, false))
    case None =>
      match FindIssue(db.issues, a.project, a.fingerprint)
      case None =>
        var db' := db.(issues := db.issues + [NewIssue(db, a, now)], nextIssue := db.nextIssue + 1);
        (AddEvent(db', a, db.nextIssue, now), SaveResult(db.nextIssue, true, false))
      case Some(k) =>
        var issue := db.issues[k];
        var db' := db.(issues := db.issues[k := Bumped(issue, now)]);
        (AddEvent(db', a, issue.id, now), SaveResult(issue.id, false, issue.status == Resolved))
  }

  function EnsureProject(db: DB, id: string, key: string): DB {
    if id in db.projects then db else db.(projects := db.projects[id := key])
  }

  /** Whether an issue of that project has the id, and the table with its status set. */
  function SetStatus(db: DB, project: string, id: nat, status: IssueStatus): (DB, bool) {
    match FindById(db.issues, id)
    case None => (db, false)
    case Some(k) =>
      if db.issues[k].project != project then (db, false)
      else (db.(issues := db.issues[k := db.issues[k].(status := status)]), true)
  }

  /** The events received at or after the cutoff, in order. */
  function Kept(events: seq<EventRow>, cutoff: int): seq<EventRow> {
    if events == [] then []
    else
      var n := |events| - 1;
      Kept(events[..n], cutoff) + if events[n].receivedAt < cutoff then [] else [events[n]]
  }

  function Expired(events: seq<EventRow>, cutoff: int): seq<EventRow> {
    if events == [] then []
    else
      var n := |events| - 1;
      Expired(events[..n], cutoff) + if events[n].receivedAt < cutoff then [events[n]] else []
  }

  function Prune(db: DB, cutoff: int): DB {
    db.(events := Kept(db.events, cutoff))
  }

  predicate IsStored(db: DB, a: SaveArgs) {
    FindEvent(db.events, a.project, a.ev.eventId).Some?
  }

  /** A database call that the transaction reaches fails: of the first two for a stored event, else of all six. */
  predicate SaveFails(db: DB, a: SaveArgs, fails: nat -> bool) {
    exists k :: 0 <= k < (if IsStored(db, a) then 2 else 6) && fails(k)
  }

  // ---- The store object

  class Store {
    var projects: map<string, string>
    var issues: seq<Issue>
    var nextIssue: nat
    var events: seq<EventRow>
    var nextEvent: nat

    ghost function State(): DB
      reads this
    {
      DB(projects, issues, nextIssue, events, nextEvent)
    }

    constructor ()
      ensures State() == EMPTY
    {
      projects, issues, nextIssue, events, nextEvent := map[], [], 1, [], 1;
    }

    method EnsureProjectRow(id: string, key: string)
      modifies this
      ensures State() == EnsureProject(old(State()), id, key)
    {
      if id !in projects {
        projects := projects[id := key];
      }
    }

    method Rollback(saved: (seq<Issue>, nat, seq<EventRow>, nat))
      modifies this
      ensures State() == DB(old(projects), saved.0, saved.1, saved.2, saved.3)
    {
      issues, nextIssue, events, nextEvent := saved.0, saved.1, saved.2, saved.3;
    }

    /**
     One SaveEvent transaction. `fails` tells which of its database calls fail: 0 begin, 1 the duplicate check, 2 the
     issue check, 3 the upsert, 4 the event insert, 5 commit; and 6 the lookup of a duplicate's issue. Any failure but
     the last rolls everything back and is reported; without its issue, a duplicate is reported under id 0.
    */
    method SaveEvent(a: SaveArgs, now: int, fails: nat -> bool) returns (r: Option<SaveResult>)
      modifies this
      ensures r.None? <==> SaveFails(old(State()), a, fails)
      ensures r.None? ==> State() == old(State())
      ensures r.Some? ==> State() == Save(old(State()), a, now).0
      ensures r.Some? && IsStored(old(State()), a) && fails(6) ==> r.value == SaveResult(0, false, false)
      ensures r.Some? && !(IsStored(old(State()), a) && fails(6)) ==> r.value == Save(old(State()), a, now).1
    {
      if fails(0) { return None; }
      var saved := (issues, nextIssue, events, nextEvent);
      if fails(1) { return None; }
      var existing := FindEvent(events, a.project, a.ev.eventId);
      if existing.Some? {
        var issueId := 0;
        if !fails(6) {
          issueId := events[existing.value].issueId;
        }
        return Some(SaveResult(issueId, false, false));
      }
      if fails(2) { return None; }
      var prior := FindIssue(issues, a.project, a.fingerprint);
      var isNew := prior.None?;
      var isRegression := !isNew && issues[prior.value].status == Resolved;
      if fails(3) { return None; }
      var issueId;
      if isNew {
        issueId := nextIssue;
        issues := issues + [Issue(issueId, a.project, a.fingerprint, a.title, Unresolved, now, now, 1)];
        nextIssue := nextIssue + 1;
      } else {
        var issue := issues[prior.value];
        issueId := issue.id;
        issue := issue.(lastSeen := now, eventCount := issue.eventCount + 1);
        issue := issue.(status := if issue.status == Resolved then Unresolved else issue.status);
        issues := issues[prior.value := issue];
      }
      if fails(4) { Rollback(saved); return None; }
      events := events + [EventRow(nextEvent, a.project, issueId, a.ev.eventId, now,
                                   a.ev.timestamp, a.ev.level, a.ev.platform, a.ev.message, a.raw)];
      nextEvent := nextEvent + 1;
      if fails(5) { Rollback(saved); return None; }
      return Some(SaveResult(issueId, isNew, isRegression));
    }

    method SetIssueStatus(project: string, id: nat, status: IssueStatus) returns (found: bool)
      modifies this
      ensures (State(), found) == SetStatus(old(State()), project, id, status)
    {
      var k := FindById(issues, id);
      if k.None? || issues[k.value].project != project {
        return false;
      }
      issues := issues[k.value := issues[k.value].(status := status)];
      return true;
    }

    method DeleteOldEvents(now: int, olderThan: int) returns (n: nat)
      modifies this
      ensures State() == Prune(old(State()), now - olderThan)
      ensures n == |Expired(old(events), now - olderThan)|
      ensures n == |old(events)| - |events|
    {
      var cutoff := now - olderThan;
      var kept: seq<EventRow> := [];
      n := 0;
      for i := 0 to |events|
        invariant kept == Kept(events[..i], cutoff)
        invariant n == |Expired(events[..i], cutoff)| && n + |kept| == i
      {
        assert events[..i + 1][..i] == events[..i];
        if events[i].receivedAt < cutoff {
          n := n + 1;
        } else {
          kept := kept + [events[i]];
        }
      }
      assert events[..|events|] == events;
      events := kept;
    }
  }
}
