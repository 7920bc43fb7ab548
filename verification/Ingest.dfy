/** The ingest of one envelope: its event items are saved one by one, and some saves raise alerts. */
module Ingest {
  import opened Basics
  import opened Protocol
  import opened IssueStore
  import Envelope
  import Grouping
  import Outbox

  /** The parts of the handler this model does not look into. */
  datatype Decoders = Decoders(parseEvent: bytes -> Option<Event>, hash: string -> string, title: Event -> string)

  /** The save an item asks for; other item types and malformed events ask for none. */
  function SaveFor(d: Decoders, project: string, item: Envelope.Item): Option<SaveArgs> {
    if item.header.typ != "event" then None
    else
      match d.parseEvent(item.payload)
      case None => None
      case Some(ev) => Some(SaveArgs(project, ev, item.payload, Grouping.Fingerprint(ev, d.hash), d.title(ev)))
  }

  /** A save and the clock reading it happens at. */
  datatype Timed = Timed(args: SaveArgs, now: int)

  /** The saves of an envelope, in item order; the clock gives each item's time. */
  function SavesOf(d: Decoders, project: string, items: seq<Envelope.Item>, clock: nat -> int): seq<Timed> {
    if items == [] then []
    else
      var n := |items| - 1;
      var a := SaveFor(d, project, items[n]);
      SavesOf(d, project, items[..n], clock) + if a.Some? then [Timed(a.value, clock(n))] else []
  }

  /** The issue's event count as GetIssue reads it, or 1 when there is no such issue in the project. */
  function EventCount(db: DB, project: string, id: nat): int {
    match FindById(db.issues, id)
    case None => 1
    case Some(k) => if db.issues[k].project == project then db.issues[k].eventCount else 1
  }

  /** New issues and regressions are alerted; nothing else is. */
  function AlertsFor(db: DB, a: SaveArgs, r: SaveResult, now: int): seq<Outbox.Alert> {
    if r.isNew || r.isRegression then
      [Outbox.Alert(a.project, r.issueId, a.title, a.ev.level, r.isNew, r.isRegression,
                    EventCount(db, a.project, r.issueId), now)]
    else []
  }

  /** One save and the alert it may raise. */
  function DeliverOne(db: DB, x: Timed): (DB, seq<Outbox.Alert>) {
    var (db', r) := Save(db, x.args, x.now);
    (db', AlertsFor(db', x.args, r, x.now))
  }

  /** Performs saves in order and collects the alerts they raise. */
  function Deliver(db: DB, saves: seq<Timed>): (DB, seq<Outbox.Alert>) {
    if saves == [] then (db, [])
    else
      var n := |saves| - 1;
      var (db', alerts) := Deliver(db, saves[..n]);
      var (db'', more) := DeliverOne(db', saves[n]);
      (db'', alerts + more)
  }

  lemma DeliverSnoc(db: DB, saves: seq<Timed>, x: Timed)
    ensures Deliver(db, saves + [x]).0 == DeliverOne(Deliver(db, saves).0, x).0
    ensures Deliver(db, saves + [x]).1 == Deliver(db, saves).1 + DeliverOne(Deliver(db, saves).0, x).1
  {
  }

  lemma {:induction false} DeliverKeepsProjects(db: DB, xs: seq<Timed>)
    ensures Deliver(db, xs).0.projects == db.projects
  {
    if xs != [] {
      DeliverKeepsProjects(db, xs[..|xs| - 1]);
    }
  }

  /** What handling some items of a request does to the store, and the alerts it raises. */
  function Serve(db: DB, d: Decoders, project: string, key: string, items: seq<Envelope.Item>, clock: nat -> int)
    : (DB, seq<Outbox.Alert>)
  {
    Deliver(EnsureProject(db, project, key), SavesOf(d, project, items, clock))
  }

  /** The item asks for a save, and a database call of that save fails. */
  predicate ItemFails(db: DB, a: Option<SaveArgs>, fails: nat -> bool) {
    a.Some? && SaveFails(db, a.value, fails)
  }

  /** No database call reached for these items, one after the other, fails. */
  predicate NoneFails(db: DB, d: Decoders, project: string, items: seq<Envelope.Item>, clock: nat -> int,
                      fails: nat -> nat -> bool)
  {
    items == [] ||
    var n := |items| - 1;
    && NoneFails(db, d, project, items[..n], clock, fails)
    && !ItemFails(Deliver(db, SavesOf(d, project, items[..n], clock)).0, SaveFor(d, project, items[n]), fails(n))
  }

  lemma NoneFailsSnoc(db: DB, d: Decoders, project: string, items: seq<Envelope.Item>, clock: nat -> int,
                      fails: nat -> nat -> bool, i: nat)
    requires i < |items| && NoneFails(db, d, project, items[..i], clock, fails)
    ensures NoneFails(db, d, project, items[..i + 1], clock, fails)
            <==> !ItemFails(Deliver(db, SavesOf(d, project, items[..i], clock)).0, SaveFor(d, project, items[i]),
                            fails(i))
  {
    assert items[..i + 1][..i] == items[..i];
  }

  datatype ItemOutcome = Skipped | Committed(alerts: seq<Outbox.Alert>) | Failed

  /** The body of the item loop. */
  method ServeItem(store: Store, d: Decoders, project: string, item: Envelope.Item, now: int, fails: nat -> bool)
    returns (r: ItemOutcome)
    modifies store
    ensures var a := SaveFor(d, project, item);
      && (r.Skipped? ==> a.None?)
      && (r.Committed? ==>
            && a.Some?
            && store.State() == DeliverOne(old(store.State()), Timed(a.value, now)).0
            && r.alerts == DeliverOne(old(store.State()), Timed(a.value, now)).1)
      && (r.Failed? <==> ItemFails(old(store.State()), a, fails))
    ensures !r.Committed? ==> store.State() == old(store.State())
  {
    if item.header.typ != "event" {
      return Skipped;
    }
    var parsed := d.parseEvent(item.payload);
    if parsed.None? {
      return Skipped;
    }
    var ev := parsed.value;
    var args := SaveArgs(project, ev, item.payload, Grouping.Fingerprint(ev, d.hash), d.title(ev));
    var saved := store.SaveEvent(args, now, fails);
    if saved.None? {
      return Failed;
    }
    var issueId, isNew, isRegression := saved.value.issueId, saved.value.isNew, saved.value.isRegression;
    if isNew || isRegression {
      var eventCount := 1;
      var k := FindById(store.issues, issueId);
      if k.Some? && store.issues[k.value].project == project {
        eventCount := store.issues[k.value].eventCount;
      }
      return Committed([Outbox.Alert(project, issueId, args.title, ev.level, isNew, isRegression, eventCount, now)]);
    }
    return Committed([]);
  }

  /**
   ServeEnvelope after parsing. `fails(i)(s)` says whether database call s of item i fails; `handled` is the number of
   items gone through. A failing save ends the request with a server error and leaves the earlier saves in place.
  */
  method ServeEnvelope(store: Store, d: Decoders, project: string, key: string, items: seq<Envelope.Item>,
                       clock: nat -> int, ensureFails: bool, fails: nat -> nat -> bool)
    returns (ok: bool, handled: nat, alerts: seq<Outbox.Alert>)
    modifies store
    ensures ensureFails ==> !ok && alerts == [] && store.State() == old(store.State())
    ensures handled <= |items| && (ok ==> handled == |items|)
    ensures !ensureFails ==> store.State() == Serve(old(store.State()), d, project, key, items[..handled], clock).0
    ensures !ensureFails ==> alerts == Serve(old(store.State()), d, project, key, items[..handled], clock).1
    ensures !ensureFails ==> (ok <==> handled == |items|)
    ensures !ensureFails && !ok ==> ItemFails(store.State(), SaveFor(d, project, items[handled]), fails(handled))
    ensures !ensureFails ==>
              NoneFails(EnsureProject(old(store.State()), project, key), d, project, items[..handled], clock, fails)
  {
    alerts, handled := [], 0;
    if ensureFails {
      return false, 0, [];
    }
    store.EnsureProjectRow(project, key);
    ghost var db := store.State();
    while handled < |items|
      invariant handled <= |items|
      invariant store.State() == Deliver(db, SavesOf(d, project, items[..handled], clock)).0
      invariant alerts == Deliver(db, SavesOf(d, project, items[..handled], clock)).1
      invariant NoneFails(db, d, project, items[..handled], clock, fails)
    {
      SavesSnoc(d, project, items, clock, handled);
      NoneFailsSnoc(db, d, project, items, clock, fails, handled);
      var r := ServeItem(store, d, project, items[handled], clock(handled), fails(handled));
      if r.Failed? {
        return false, handled, alerts;
      }
      if r.Committed? {
        DeliverSnoc(db, SavesOf(d, project, items[..handled], clock),
                    Timed(SaveFor(d, project, items[handled]).value, clock(handled)));
        alerts := alerts + r.alerts;
      }
      handled := handled + 1;
    }
    assert items[..handled] == items;
    ok := true;
  }

  lemma SavesSnoc(d: Decoders, project: string, items: seq<Envelope.Item>, clock: nat -> int, i: nat)
    requires i < |items|
    ensures var a := SaveFor(d, project, items[i]);
            SavesOf(d, project, items[..i + 1], clock) ==
            if a.None? then SavesOf(d, project, items[..i], clock)
            else SavesOf(d, project, items[..i], clock) + [Timed(a.value, clock(i))]
  {
    assert items[..i + 1][..i] == items[..i];
  }

  /** The saves of a prefix of the items are a prefix of the saves. */
  lemma {:induction false} SavesPrefix(d: Decoders, project: string, items: seq<Envelope.Item>, clock: nat -> int,
                                       i: nat)
    requires i <= |items|
    ensures SavesOf(d, project, items[..i], clock) <= SavesOf(d, project, items, clock)
  {
    if i == |items| {
      assert items[..i] == items;
    } else {
      var n := |items| - 1;
      assert items[..n][..i] == items[..i];
      SavesPrefix(d, project, items[..n], clock, i);
    }
  }
}
