/** What served requests leave in the store: exactly the readable events of their items, one issue for each bug. */
module Served {
  import opened Basics
  import opened IssueStore
  import opened IssueRuns
  import opened Ingest
  import Alerts
  import Envelope
  import Grouping

  // ---- Which saves a request asks for

  /** The save stores this item's event, grouped and titled by what the event says. */
  predicate SaveOfItem(d: Decoders, project: string, item: Envelope.Item, a: SaveArgs) {
    && item.header.typ == "event"
    && d.parseEvent(item.payload) == Some(a.ev)
    && a == SaveArgs(project, a.ev, item.payload, Grouping.Fingerprint(a.ev, d.hash), d.title(a.ev))
  }

  /** Every save is that of an item, in item order and at the item's time. */
  lemma {:induction false} SavesAreOfItems(d: Decoders, project: string, items: seq<Envelope.Item>, clock: nat -> int)
    returns (at: seq<nat>)
    ensures |at| == |SavesOf(d, project, items, clock)|
    ensures forall j, k :: 0 <= j < k < |at| ==> at[j] < at[k]
    ensures forall k :: 0 <= k < |at| ==>
      && at[k] < |items|
      && SaveOfItem(d, project, items[at[k]], SavesOf(d, project, items, clock)[k].args)
      && SavesOf(d, project, items, clock)[k].now == clock(at[k])
  {
    at := [];
    if items != [] {
      var n := |items| - 1;
      var before := SavesAreOfItems(d, project, items[..n], clock);
      at := before + if SaveFor(d, project, items[n]).Some? then [n] else [];
    }
  }

  /** Every event item that can be parsed is saved. */
  lemma {:induction false} ItemsAreSaved(d: Decoders, project: string, items: seq<Envelope.Item>, clock: nat -> int,
                                         i: nat)
    requires i < |items| && items[i].header.typ == "event" && d.parseEvent(items[i].payload).Some?
    ensures exists x :: x in SavesOf(d, project, items, clock) && SaveOfItem(d, project, items[i], x.args)
  {
    var n := |items| - 1;
    var saves := SavesOf(d, project, items, clock);
    if i == n {
      var last := saves[|saves| - 1];
      assert last in saves && SaveOfItem(d, project, items[i], last.args);
    } else {
      ItemsAreSaved(d, project, items[..n], clock, i);
      var x :| x in SavesOf(d, project, items[..n], clock) && SaveOfItem(d, project, items[i], x.args);
      assert x in saves;
    }
  }

  // ---- Which events are stored

  predicate HasEvent(db: DB, project: string, eventId: string) {
    exists e :: e in db.events && IsEvent(e, project, eventId)
  }

  /** The row holds the event of one of these saves. */
  predicate RowOf(e: EventRow, saves: seq<Timed>) {
    exists x :: x in saves && IsEvent(e, x.args.project, x.args.ev.eventId) && e.payload == x.args.raw
  }

  lemma RowOfMore(e: EventRow, saves: seq<Timed>, more: seq<Timed>)
    requires RowOf(e, saves) && forall x :: x in saves ==> x in more
    ensures RowOf(e, more)
  {
  }

  lemma SaveAddsItsEvent(db: DB, a: SaveArgs, now: int)
    ensures db.events <= Save(db, a, now).0.events && HasEvent(Save(db, a, now).0, a.project, a.ev.eventId)
    ensures forall e :: e in Save(db, a, now).0.events && e !in db.events ==> RowOf(e, [Timed(a, now)])
  {
    var events := Save(db, a, now).0.events;
    match FindEvent(db.events, a.project, a.ev.eventId)
    case Some(i) => assert db.events[i] in events;
    case None =>
      assert events[|db.events|] in events;
      assert Timed(a, now) in [Timed(a, now)];
  }

  /** A delivery keeps all rows, stores each of its events, and adds no other row. */
  lemma {:induction false} DeliverStoresExactly(db: DB, saves: seq<Timed>)
    ensures db.events <= Deliver(db, saves).0.events
    ensures forall x :: x in saves ==> HasEvent(Deliver(db, saves).0, x.args.project, x.args.ev.eventId)
    ensures forall e :: e in Deliver(db, saves).0.events && e !in db.events ==> RowOf(e, saves)
  {
    if saves != [] {
      var n := |saves| - 1;
      var mid, db' := Deliver(db, saves[..n]).0, Deliver(db, saves).0;
      DeliverStoresExactly(db, saves[..n]);
      SaveAddsItsEvent(mid, saves[n].args, saves[n].now);
      forall x | x in saves ensures HasEvent(db', x.args.project, x.args.ev.eventId) {
        if x in saves[..n] {
          var e :| e in mid.events && IsEvent(e, x.args.project, x.args.ev.eventId);
          assert e in db'.events;
        }
      }
      forall e | e in db'.events && e !in db.events ensures RowOf(e, saves) {
        if e in mid.events {
          RowOfMore(e, saves[..n], saves);
        } else {
          RowOfMore(e, [Timed(saves[n].args, saves[n].now)], saves);
        }
      }
    }
  }

  predicate IsItemRow(d: Decoders, project: string, items: seq<Envelope.Item>, e: EventRow) {
    exists item :: item in items && Readable(d, item) && e.project == project && e.payload == item.payload
                   && d.parseEvent(item.payload).value.eventId == e.eventId
  }

  predicate Readable(d: Decoders, item: Envelope.Item) {
    item.header.typ == "event" && d.parseEvent(item.payload).Some?
  }

  lemma ItemIsStored(db: DB, d: Decoders, project: string, items: seq<Envelope.Item>, clock: nat -> int,
                     item: Envelope.Item)
    requires item in items && Readable(d, item)
    ensures HasEvent(Deliver(db, SavesOf(d, project, items, clock)).0, project,
                     d.parseEvent(item.payload).value.eventId)
  {
    var i :| 0 <= i < |items| && items[i] == item;
    ItemsAreSaved(d, project, items, clock, i);
    DeliverStoresExactly(db, SavesOf(d, project, items, clock));
  }

  lemma RowIsOfItem(d: Decoders, project: string, items: seq<Envelope.Item>, clock: nat -> int, e: EventRow)
    requires RowOf(e, SavesOf(d, project, items, clock))
    ensures IsItemRow(d, project, items, e)
  {
    var saves := SavesOf(d, project, items, clock);
    var at := SavesAreOfItems(d, project, items, clock);
    var x :| x in saves && IsEvent(e, x.args.project, x.args.ev.eventId) && e.payload == x.args.raw;
    var k :| 0 <= k < |saves| && saves[k] == x;
    assert items[at[k]] in items;
  }

  /**
   After a request its project exists, and those that existed before have kept their keys; every event item of it that
   can be parsed is stored; and every row that was not there before holds the payload and the id of such an item.
  */
  lemma ServedEvents(db: DB, d: Decoders, project: string, key: string, items: seq<Envelope.Item>, clock: nat -> int)
    ensures var db' := Serve(db, d, project, key, items, clock).0;
            && project in db'.projects
            && (project !in db.projects ==> db'.projects[project] == key)
            && (forall p :: p in db.projects ==> p in db'.projects && db'.projects[p] == db.projects[p])
            && db.events <= db'.events
            && (forall item :: item in items && Readable(d, item) ==>
                  HasEvent(db', project, d.parseEvent(item.payload).value.eventId))
            && (forall e :: e in db'.events && e !in db.events ==> IsItemRow(d, project, items, e))
  {
    var known := EnsureProject(db, project, key);
    var db' := Deliver(known, SavesOf(d, project, items, clock)).0;
    DeliverStoresExactly(known, SavesOf(d, project, items, clock));
    DeliverKeepsProjects(known, SavesOf(d, project, items, clock));
    forall item | item in items && Readable(d, item)
      ensures HasEvent(db', project, d.parseEvent(item.payload).value.eventId)
    {
      ItemIsStored(known, d, project, items, clock, item);
    }
    forall e | e in db'.events && e !in db.events ensures IsItemRow(d, project, items, e) {
      RowIsOfItem(d, project, items, clock, e);
    }
  }

  // ---- Which issue an event is in

  /** The row's issue is of its project and carries the fingerprint of the row's own event. */
  predicate InItsIssue(issues: seq<Issue>, d: Decoders, e: EventRow) {
    && d.parseEvent(e.payload).Some?
    && exists k :: 0 <= k < |issues| && issues[k].id == e.issueId
                   && IsIssue(issues[k], e.project, Grouping.Fingerprint(d.parseEvent(e.payload).value, d.hash))
  }

  predicate Grouped(db: DB, d: Decoders) {
    forall e :: e in db.events ==> InItsIssue(db.issues, d, e)
  }

  /** Rows stay where they are with their keys. */
  predicate KeepsKeys(issues: seq<Issue>, issues': seq<Issue>) {
    && |issues| <= |issues'|
    && forall k :: 0 <= k < |issues| ==>
         issues'[k].id == issues[k].id && issues'[k].project == issues[k].project
         && issues'[k].fingerprint == issues[k].fingerprint
  }

  lemma StaysInItsIssue(issues: seq<Issue>, issues': seq<Issue>, d: Decoders, e: EventRow)
    requires InItsIssue(issues, d, e) && KeepsKeys(issues, issues')
    ensures InItsIssue(issues', d, e)
  {
  }

  /** The save is of an event as the decoders read and group it. */
  predicate Genuine(d: Decoders, a: SaveArgs) {
    d.parseEvent(a.raw) == Some(a.ev) && a.fingerprint == Grouping.Fingerprint(a.ev, d.hash)
  }

  lemma GroupedSave(db: DB, d: Decoders, a: SaveArgs, now: int)
    requires Grouped(db, d) && Genuine(d, a)
    ensures Grouped(Save(db, a, now).0, d)
  {
    var db' := Save(db, a, now).0;
    assert KeepsKeys(db.issues, db'.issues);
    forall e | e in db'.events ensures InItsIssue(db'.issues, d, e) {
      if e in db.events {
        StaysInItsIssue(db.issues, db'.issues, d, e);
      } else {
        NewRowInItsIssue(db, d, a, now, e);
      }
    }
  }

  lemma NewRowInItsIssue(db: DB, d: Decoders, a: SaveArgs, now: int, e: EventRow)
    requires Genuine(d, a) && e in Save(db, a, now).0.events && e !in db.events
    ensures InItsIssue(Save(db, a, now).0.issues, d, e)
  {
    var issues := Save(db, a, now).0.issues;
    match FindIssue(db.issues, a.project, a.fingerprint)
    case None => assert issues[|db.issues|].id == e.issueId;
    case Some(k) => assert issues[k].id == e.issueId;
  }

  lemma {:induction false} GroupedDeliver(db: DB, d: Decoders, saves: seq<Timed>)
    requires Grouped(db, d) && forall x :: x in saves ==> Genuine(d, x.args)
    ensures Grouped(Deliver(db, saves).0, d)
  {
    if saves != [] {
      var n := |saves| - 1;
      GroupedDeliver(db, d, saves[..n]);
      assert saves[n] in saves;
      GroupedSave(Deliver(db, saves[..n]).0, d, saves[n].args, saves[n].now);
    }
  }

  // ---- Runs of requests and maintenance

  /** A request, of which any number of items may have been handled, or a change of status, or a pruning. */
  datatype Action =
    | Request(project: string, key: string, items: seq<Envelope.Item>, clock: nat -> int)
    | ChangeStatus(project: string, id: nat, status: IssueStatus)
    | PruneEvents(cutoff: int)

  function Act(db: DB, d: Decoders, action: Action): DB {
    match action
    case Request(project, key, items, clock) => Serve(db, d, project, key, items, clock).0
    case ChangeStatus(project, id, status) => SetStatus(db, project, id, status).0
    case PruneEvents(cutoff) => Prune(db, cutoff)
  }

  function ActAll(db: DB, d: Decoders, actions: seq<Action>): DB {
    if actions == [] then db
    else Act(ActAll(db, d, actions[..|actions| - 1]), d, actions[|actions| - 1])
  }

  lemma RequestKeeps(db: DB, gone: seq<EventRow>, d: Decoders, project: string, key: string,
                     items: seq<Envelope.Item>, clock: nat -> int)
    requires Inv(db, gone) && Grouped(db, d)
    ensures var db' := Serve(db, d, project, key, items, clock).0; Inv(db', gone) && Grouped(db', d)
  {
    var known, saves := EnsureProject(db, project, key), SavesOf(d, project, items, clock);
    var at := SavesAreOfItems(d, project, items, clock);
    Alerts.DeliverIsRun(known, gone, saves);
    GroupedDeliver(known, d, saves);
  }

  lemma StatusKeepsGroups(db: DB, d: Decoders, project: string, id: nat, status: IssueStatus)
    requires Grouped(db, d)
    ensures Grouped(SetStatus(db, project, id, status).0, d)
  {
    var db' := SetStatus(db, project, id, status).0;
    forall e | e in db'.events ensures InItsIssue(db'.issues, d, e) {
      StaysInItsIssue(db.issues, db'.issues, d, e);
    }
  }

  lemma ActKeeps(db: DB, gone: seq<EventRow>, d: Decoders, action: Action) returns (gone': seq<EventRow>)
    requires Inv(db, gone) && Grouped(db, d)
    ensures Inv(Act(db, d, action), gone') && Grouped(Act(db, d, action), d)
  {
    gone' := gone;
    match action
    case Request(project, key, items, clock) =>
      RequestKeeps(db, gone, d, project, key, items, clock);
    case ChangeStatus(project, id, status) =>
      InvStatus(db, gone, project, id, status);
      StatusKeepsGroups(db, d, project, id, status);
    case PruneEvents(cutoff) =>
      InvPrune(db, gone, cutoff);
      PruneKeepsRecent(db.events, cutoff);
      gone' := gone + Expired(db.events, cutoff);
  }

  lemma {:induction false} ActAllKeeps(d: Decoders, actions: seq<Action>) returns (gone: seq<EventRow>)
    ensures Inv(ActAll(EMPTY, d, actions), gone) && Grouped(ActAll(EMPTY, d, actions), d)
  {
    gone := [];
    if actions != [] {
      var n := |actions| - 1;
      var before := ActAllKeeps(d, actions[..n]);
      gone := ActKeeps(ActAll(EMPTY, d, actions[..n]), before, d, actions[n]);
    }
  }

  lemma SameIdIffSameKey(issues: seq<Issue>, j: nat, k: nat)
    requires UniqueIssues(issues) && j < |issues| && k < |issues| && issues[j].project == issues[k].project
    ensures issues[j].id == issues[k].id <==> issues[j].fingerprint == issues[k].fingerprint
  {
    if j != k {
      assert !SameIssueKey(issues[j], issues[k]) && !SameIssueKey(issues[k], issues[j]);
    }
  }

  function FingerprintOf(d: Decoders, e: EventRow): string
    requires d.parseEvent(e.payload).Some?
  {
    Grouping.Fingerprint(d.parseEvent(e.payload).value, d.hash)
  }

  lemma IssueOf(issues: seq<Issue>, d: Decoders, e: EventRow) returns (k: nat)
    requires InItsIssue(issues, d, e)
    ensures k < |issues| && issues[k].id == e.issueId
    ensures issues[k].project == e.project && issues[k].fingerprint == FingerprintOf(d, e)
  {
    k :| 0 <= k < |issues| && issues[k].id == e.issueId
         && IsIssue(issues[k], e.project, Grouping.Fingerprint(d.parseEvent(e.payload).value, d.hash));
  }

  /** The row's event, if it has one, has no NUL in its signals. */
  predicate NulFreeRow(d: Decoders, e: EventRow) {
    match d.parseEvent(e.payload)
    case None => true
    case Some(ev) => Grouping.NulFree(Grouping.Components(ev))
  }

  /**
   What grouping is for: whatever requests were served, statuses changed and events pruned, two stored events of a
   project are in the same issue exactly if they are the same bug (for a collision-free hash and events without NUL).
  */
  lemma IssuesAreBugs(d: Decoders, actions: seq<Action>, e: EventRow, f: EventRow)
    requires e in ActAll(EMPTY, d, actions).events && f in ActAll(EMPTY, d, actions).events && e.project == f.project
    requires Grouping.Injective(d.hash) && NulFreeRow(d, e) && NulFreeRow(d, f)
    ensures d.parseEvent(e.payload).Some? && d.parseEvent(f.payload).Some?
    ensures e.issueId == f.issueId <==>
            Grouping.SameBug(d.parseEvent(e.payload).value, d.parseEvent(f.payload).value)
  {
    var gone := ActAllKeeps(d, actions);
    var issues := ActAll(EMPTY, d, actions).issues;
    assert InItsIssue(issues, d, e) && InItsIssue(issues, d, f);
    var j := IssueOf(issues, d, e);
    var k := IssueOf(issues, d, f);
    SameIdIffSameKey(issues, j, k);
    Grouping.FingerprintIffSameBug(d.parseEvent(e.payload).value, d.parseEvent(f.payload).value, d.hash);
  }
}
