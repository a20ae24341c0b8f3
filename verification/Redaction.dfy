/**
 * Redaction on read. Whether an event is served redacted is decided every time it is loaded, from two
 * sources that know nothing of each other. Loaded events are objects that may be shared with the cache
 * and with other requests, so the verdict is written into a copy and never into the event itself.
 */
module Redaction {
  import opened Basics
  import opened LruCache

  /** The stored part of an event. sender is what decoding the stored JSON for it yields, "" if nothing. */
  datatype Content = Content(eventId: string, roomId: string, kind: string, sender: string, json: string,
      streamOrdering: int, outlier: bool, rejectedReason: string)

  /** A row of the redactions table; either column may be NULL. */
  datatype RedactionRow = RedactionRow(redactionId: string, redacts: Option<string>, recheck: Option<bool>) {
    predicate NeedsRecheck() {
      recheck == Some(true)
    }
  }

  /** A row of room_ban_redactions; an end ordering of NULL reads as zero. */
  datatype Ban = Ban(redactingEventId: string, endOrdering: int)

  datatype Db = Db(events: map<string, Content>, redactions: set<RedactionRow>, bans: map<(string, string), Ban>)

  /** IDs are not empty, and an event is stored under its own. */
  ghost predicate WellFormed(db: Db) {
    && (forall id :: id in db.events ==> db.events[id].eventId == id)
    && (forall r :: r in db.redactions ==> r.redactionId != "")
    && (forall k :: k in db.bans ==> db.bans[k].redactingEventId != "")
  }

  /** A stored event as it is handed around: shared by whoever loaded it. */
  class Event {
    var content: Content
    var redactedBy: string

    constructor (content: Content, redactedBy: string)
      ensures this.content == content && this.redactedBy == redactedBy
    {
      this.content, this.redactedBy := content, redactedBy;
    }
  }

  // ---------------------------------------------------------------- what redacts an event

  /** What follows the first colon of a sender. */
  function SenderDomain(sender: string): string {
    if sender == "" then "" else if sender[0] == ':' then sender[1..] else SenderDomain(sender[1..])
  }

  /** The redaction is held, passed auth, lies in the event's room and comes from the event's server. */
  predicate Confirmed(db: Db, ev: Content, redactionId: string) {
    && redactionId in db.events
    && var redaction := db.events[redactionId];
       redaction.rejectedReason == "" && redaction.roomId == ev.roomId &&
           SenderDomain(redaction.sender) == SenderDomain(ev.sender)
  }

  ghost predicate RedactedByRow(db: Db, ev: Content, id: string) {
    exists r :: r in db.redactions && r.redacts == Some(ev.eventId) && r.redactionId == id &&
        (r.NeedsRecheck() ==> Confirmed(db, ev, id))
  }

  predicate BanCovers(ban: Ban, ev: Content) {
    ev.kind != "m.room.create" && !(ban.endOrdering != 0 && ev.streamOrdering >= ban.endOrdering)
  }

  ghost predicate RedactedByBan(db: Db, ev: Content, id: string) {
    && ev.sender != "" && (ev.roomId, ev.sender) in db.bans
    && BanCovers(db.bans[(ev.roomId, ev.sender)], ev) && db.bans[(ev.roomId, ev.sender)].redactingEventId == id
  }

  /**
   * The verdict. A create event is never redacted; any other is exactly if some redaction of it stands
   * or a ban covers it. What it is marked with is a redaction that stands, if there is one, else the ban.
   */
  ghost predicate Verdict(db: Db, ev: Content, redactedBy: string) {
    if ev.kind == "m.room.create" then redactedBy == ""
    else if exists id :: RedactedByRow(db, ev, id) then RedactedByRow(db, ev, redactedBy)
    else if exists id :: RedactedByBan(db, ev, id) then RedactedByBan(db, ev, redactedBy)
    else redactedBy == ""
  }

  /** The domain is what follows the first colon, and nothing where there is none. */
  lemma {:induction false} DomainFollowsColon(local: string, domain: string)
    requires ':' !in local
    ensures SenderDomain(local + ":" + domain) == domain && SenderDomain(local) == ""
  {
    var sender := local + ":" + domain;
    if local == "" {
      assert sender == ":" + domain && sender[1..] == domain;
    } else {
      assert local == [local[0]] + local[1..];
      DomainFollowsColon(local[1..], domain);
      assert sender[1..] == local[1..] + ":" + domain && sender[0] == local[0];
    }
  }

  /**
   * A redaction that needs no recheck stands, and so does one that is held, passed auth, and is of the event's room
   * and server.
   */
  ghost predicate Stands(db: Db, ev: Content, r: RedactionRow) {
    && r in db.redactions && r.redacts == Some(ev.eventId)
    && (r.recheck == Some(true) ==>
        && r.redactionId in db.events && db.events[r.redactionId].rejectedReason == ""
        && db.events[r.redactionId].roomId == ev.roomId
        && SenderDomain(db.events[r.redactionId].sender) == SenderDomain(ev.sender))
  }

  /** The sender is banned in the room, and the event lies before where the ban's redaction ends, if it does. */
  ghost predicate Banned(db: Db, ev: Content) {
    && ev.sender != "" && (ev.roomId, ev.sender) in db.bans
    && var end := db.bans[(ev.roomId, ev.sender)].endOrdering; end == 0 || ev.streamOrdering < end
  }

  /**
   * An event other than the create event is to be redacted exactly if some redaction of it stands or its sender is so
   * banned.
   */
  ghost predicate ToRedact(db: Db, ev: Content) {
    ev.kind != "m.room.create" && ((exists r :: Stands(db, ev, r)) || Banned(db, ev))
  }

  lemma StandsIsRow(db: Db, ev: Content, id: string)
    ensures RedactedByRow(db, ev, id) <==> exists r :: Stands(db, ev, r) && r.redactionId == id
  {
    if RedactedByRow(db, ev, id) {
      var r :| r in db.redactions && r.redacts == Some(ev.eventId) && r.redactionId == id &&
               (r.NeedsRecheck() ==> Confirmed(db, ev, id));
      assert Stands(db, ev, r);
    }
  }

  /** The mark is set exactly when the event is to be redacted. */
  lemma MarkedIffRedacted(db: Db, ev: Content, redactedBy: string)
    requires WellFormed(db) && Verdict(db, ev, redactedBy)
    ensures redactedBy != "" <==> ToRedact(db, ev)
  {
    forall id ensures RedactedByRow(db, ev, id) <==> exists r :: Stands(db, ev, r) && r.redactionId == id {
      StandsIsRow(db, ev, id);
    }
    if r :| Stands(db, ev, r) {
      assert RedactedByRow(db, ev, r.redactionId);
    }
    if ev.kind != "m.room.create" && Banned(db, ev) {
      assert RedactedByBan(db, ev, db.bans[(ev.roomId, ev.sender)].redactingEventId);
    }
  }

  /** A mark names a redaction that stands or, where none does, the ban. */
  lemma MarkNamesCause(db: Db, ev: Content, redactedBy: string)
    requires WellFormed(db) && Verdict(db, ev, redactedBy) && redactedBy != ""
    ensures if exists r :: Stands(db, ev, r) then exists r :: Stands(db, ev, r) && r.redactionId == redactedBy
            else Banned(db, ev) && redactedBy == db.bans[(ev.roomId, ev.sender)].redactingEventId
  {
    forall id ensures RedactedByRow(db, ev, id) <==> exists r :: Stands(db, ev, r) && r.redactionId == id {
      StandsIsRow(db, ev, id);
    }
    if r :| Stands(db, ev, r) {
      assert RedactedByRow(db, ev, r.redactionId);
    }
  }

  // ---------------------------------------------------------------- queries

  ghost predicate Targets(db: Db, id: string, r: RedactionRow) {
    r in db.redactions && r.redacts == Some(id)
  }

  /** The redactions of each of these events, in the order the rows happen to come in. */
  method GetRedactions(db: Db, ids: set<string>) returns (out: map<string, seq<RedactionRow>>)
    ensures forall id :: id in out ==> id in ids && forall r :: r in out[id] <==> Targets(db, id, r)
    ensures forall id, r :: id in ids && Targets(db, id, r) ==> id in out
  {
    out := map[];
    var rows := Rows(set r | r in db.redactions && r.redacts.Some? && r.redacts.value in ids);
    for i := 0 to |rows|
      invariant forall id :: id in out ==> id in ids && forall r :: r in out[id] <==>
                r in rows[..i] && r.redacts == Some(id)
      invariant forall r :: r in rows[..i] ==> r.redacts.Some? && r.redacts.value in out
    {
      var r := rows[i];
      assert r in rows;
      ElementsJoin(rows[..i], [r]);
      assert rows[..i + 1] == rows[..i] + [r];
      out := Filed(out, r);
    }
    assert rows[..|rows|] == rows;
    forall id, r | id in ids && Targets(db, id, r) ensures id in out {
      assert r in rows;
    }
  }

  /** Appends a row under the event it targets. */
  function Filed(m: map<string, seq<RedactionRow>>, r: RedactionRow): (m': map<string, seq<RedactionRow>>)
    requires r.redacts.Some?
    ensures m'.Keys == m.Keys + {r.redacts.value}
    ensures forall id :: id in m && id != r.redacts.value ==> m'[id] == m[id]
    ensures forall x :: x in m'[r.redacts.value] <==> x == r || (r.redacts.value in m && x in m[r.redacts.value])
  {
    var id := r.redacts.value;
    m[id := (if id in m then m[id] else []) + [r]]
  }

  /** The redaction events that were loaded for the rows that need one. */
  ghost predicate Loaded(db: Db, rows: seq<RedactionRow>, redactionEvents: map<string, Event>)
    reads redactionEvents.Values
  {
    forall row :: row in rows && row.NeedsRecheck() ==>
      && (row.redactionId in redactionEvents <==> row.redactionId in db.events)
      && (row.redactionId in redactionEvents ==> redactionEvents[row.redactionId].content == db.events[row.redactionId])
  }

  method CheckOne(db: Db, ev: Content, row: RedactionRow, redactionEvents: map<string, Event>) returns (stands: bool)
    requires row.NeedsRecheck() && Loaded(db, [row], redactionEvents)
    ensures stands <==> Confirmed(db, ev, row.redactionId)
  {
    assert row in [row];
    if row.redactionId !in redactionEvents {
      return false;
    }
    var redaction := redactionEvents[row.redactionId].content;
    if redaction.rejectedReason != "" {
      return false;
    }
    if redaction.roomId != ev.roomId {
      return false;
    }
    if SenderDomain(redaction.sender) != SenderDomain(ev.sender) {
      return false;
    }
    return true;
  }

  /** Decides whether any of an event's redactions stands: pre-authorised ones first, then those to be checked. */
  method ShouldRedact(db: Db, ev: Content, rows: seq<RedactionRow>, redactionEvents: map<string, Event>)
      returns (found: Option<string>)
    requires forall row :: row in rows <==> Targets(db, ev.eventId, row)
    requires Loaded(db, rows, redactionEvents)
    ensures match found
            case Some(id) => RedactedByRow(db, ev, id)
            case None => !exists id :: RedactedByRow(db, ev, id)
  {
    for i := 0 to |rows|
      invariant forall k :: 0 <= k < i ==> rows[k].NeedsRecheck()
    {
      if !rows[i].NeedsRecheck() {
        assert rows[i] in rows;
        assert RedactedByRow(db, ev, rows[i].redactionId);
        return Some(rows[i].redactionId);
      }
    }
    for i := 0 to |rows|
      invariant forall k :: 0 <= k < i ==> !Confirmed(db, ev, rows[k].redactionId)
    {
      assert rows[i] in rows;
      var stands := CheckOne(db, ev, rows[i], redactionEvents);
      if stands {
        assert RedactedByRow(db, ev, rows[i].redactionId);
        return Some(rows[i].redactionId);
      }
    }
    forall id ensures !RedactedByRow(db, ev, id) {
      forall r | r in db.redactions && r.redacts == Some(ev.eventId)
        ensures r.NeedsRecheck() && !Confirmed(db, ev, r.redactionId)
      {
        assert Targets(db, ev.eventId, r);
        var k :| 0 <= k < |rows| && rows[k] == r;
      }
    }
    return None;
  }

  /** The bans that cover these (room, sender) pairs. */
  method GetBanRedactions(db: Db, pairs: set<(string, string)>) returns (out: map<(string, string), Ban>)
    ensures out == map p | p in pairs && p in db.bans :: db.bans[p]
  {
    out := map[];
    var rows := Rows(set p | p in pairs && p in db.bans);
    for i := 0 to |rows|
      invariant out == map p | p in pairs && p in db.bans && p in rows[..i] :: db.bans[p]
    {
      assert rows[i] in rows;
      assert rows[..i + 1] == rows[..i] + [rows[i]];
      out := out[rows[i] := db.bans[rows[i]]];
    }
    assert rows[..|rows|] == rows;
  }

  // ---------------------------------------------------------------- the store

  /** An event as it is stored, with no mark on it. */
  ghost predicate Unmarked(db: Db, id: string, ev: Event)
    reads ev
  {
    id in db.events && ev.content == db.events[id] && ev.redactedBy == ""
  }

  /** Events as they are stored: nothing is marked yet. */
  ghost predicate Raw(db: Db, events: map<string, Event>)
    reads events.Values
  {
    forall id :: id in events ==> Unmarked(db, id, events[id])
  }

  /** The mark one event gets. */
  method MarkOf(db: Db, ev: Content, rows: Option<seq<RedactionRow>>, redactionEvents: map<string, Event>,
      bans: map<(string, string), Ban>)
    returns (mark: string)
    requires WellFormed(db)
    requires forall row :: (rows.Some? && row in rows.value) <==> Targets(db, ev.eventId, row)
    requires rows.Some? ==> Loaded(db, rows.value, redactionEvents)
    requires ev.sender != "" && (ev.roomId, ev.sender) in db.bans <==> (ev.roomId, ev.sender) in bans
    requires (ev.roomId, ev.sender) in bans ==> bans[(ev.roomId, ev.sender)] == db.bans[(ev.roomId, ev.sender)]
    ensures Verdict(db, ev, mark)
  {
    var pair := (ev.roomId, ev.sender);
    var banned := pair in bans && BanCovers(bans[pair], ev);
    assert banned <==> exists id :: RedactedByBan(db, ev, id) by {
      if banned {
        assert RedactedByBan(db, ev, bans[pair].redactingEventId);
      }
    }
    if rows.None? {
      forall id ensures !RedactedByRow(db, ev, id) {
        assert forall r :: !Targets(db, ev.eventId, r);
        assert forall r :: r in db.redactions && r.redacts == Some(ev.eventId) ==> Targets(db, ev.eventId, r);
      }
      // No redaction event, but a ban may still redact this.
      return if banned then bans[pair].redactingEventId else "";
    }
    if ev.kind == "m.room.create" {
      return "";
    }
    var found := ShouldRedact(db, ev, rows.value, redactionEvents);
    if found.Some? {
      return found.value;
    }
    // A ban can still redact an event whose own redaction did not pass the recheck.
    return if banned then bans[pair].redactingEventId else "";
  }

  /**
   * What the verdicts on some events rest on: their redactions, the redaction events among these, and the bans on
   * their senders.
   */
  ghost predicate Gathered(db: Db, events: map<string, Event>, redactions: map<string, seq<RedactionRow>>,
      redactionEvents: map<string, Event>, bans: map<(string, string), Ban>)
    reads events.Values, redactionEvents.Values
  {
    && (forall id :: id in redactions ==> id in events && forall r :: r in redactions[id] <==> Targets(db, id, r))
    && (forall id, r :: id in events && Targets(db, id, r) ==> id in redactions)
    && (forall id :: id in redactions ==> Loaded(db, redactions[id], redactionEvents))
    && (forall p :: p in bans ==> p.1 != "" && p in db.bans && bans[p] == db.bans[p])
    && (forall id ::
        id in events && events[id].content.sender != "" &&
        (events[id].content.roomId, events[id].content.sender) in db.bans ==>
          (events[id].content.roomId, events[id].content.sender) in bans)
  }

  lemma GatheredFor(db: Db, events: map<string, Event>, redactions: map<string, seq<RedactionRow>>,
      redactionEvents: map<string, Event>, bans: map<(string, string), Ban>, id: string)
    requires Gathered(db, events, redactions, redactionEvents, bans) && id in events
    ensures forall row :: (id in redactions && row in redactions[id]) <==> Targets(db, id, row)
    ensures id in redactions ==> Loaded(db, redactions[id], redactionEvents)
    ensures var pair := (events[id].content.roomId, events[id].content.sender);
            && (events[id].content.sender != "" && pair in db.bans <==> pair in bans)
            && (pair in bans ==> bans[pair] == db.bans[pair])
  {}

  class EventStore {
    const db: Db
    const sizeOf: Content -> nat
    const cache: LRU<string, Event>
    ghost var owned: set<Event>   // every event the cache has ever been given

    constructor (db: Db, sizeOf: Content -> nat, maxBytes: int)
      requires WellFormed(db)
      ensures Valid() && this.db == db && fresh(cache) && owned == {}
    {
      this.db, this.sizeOf := db, sizeOf;
      cache := new LRU(maxBytes);
      owned := {};
    }

    ghost predicate Right(items: seq<Item<string, Event>>, owned: set<Event>)
      reads owned
    {
      forall it :: it in items ==> it.value in owned && Unmarked(db, it.key, it.value)
    }

    /** The cache holds stored events as they are stored: no mark has found its way into it. */
    ghost predicate Valid()
      reads this`owned, cache, owned
    {
      WellFormed(db) && cache.Valid() && Right(cache.Items(), owned)
    }

    lemma StoreKeepsRight(it: Item<string, Event>)
      requires Valid() && it.value in owned && Unmarked(db, it.key, it.value)
      ensures Right(Step(cache.State(), Store(it), cache.maxBytes).items, owned)
    {
      cache.StateBounded();
      StepMembers(cache.State(), Store(it), cache.maxBytes);
    }

    lemma LookupKeepsRight(id: string)
      requires Valid()
      ensures Right(Step(cache.State(), LookUp(id), cache.maxBytes).items, owned)
      ensures HasKey(cache.Items(), id) ==>
              Find(cache.Items(), id).value in owned && Unmarked(db, id, Find(cache.Items(), id).value)
    {
      cache.StateBounded();
      StepMembers(cache.State(), LookUp(id), cache.maxBytes);
    }

    method Lookup(id: string) returns (r: Option<Event>)
      requires Valid()
      modifies cache
      ensures Valid()
      ensures r.Some? ==> r.value in owned && Unmarked(db, id, r.value)
    {
      LookupKeepsRight(id);
      r := cache.Get(id);
    }

    ghost method Own(ev: Event)
      requires Valid()
      modifies this`owned
      ensures Valid() && owned == old(owned) + {ev}
    {
      owned := owned + {ev};
    }

    method Put(id: string, ev: Event)
      requires Valid() && ev in owned && Unmarked(db, id, ev)
      modifies cache
      ensures Valid()
    {
      StoreKeepsRight(Item(id, ev, sizeOf(ev.content)));
      cache.Add(id, ev, sizeOf(ev.content));
    }

    /** Arms or disarms the cache; disarming empties it. */
    method SetArmed(armed: bool)
      requires Valid()
      modifies cache
      ensures Valid() && cache.armed == armed && (!armed ==> cache.Items() == [])
    {
      cache.SetArmed(armed);
    }

    /** Empties the cache without disarming it. */
    method Purge()
      requires Valid()
      modifies cache
      ensures Valid() && cache.Items() == [] && cache.armed == old(cache.armed)
    {
      cache.Purge();
    }

    /** Forgets one event, so that it is read again. */
    method DropEvent(id: string)
      requires Valid()
      modifies cache
      ensures Valid() && cache.armed == old(cache.armed) && !HasKey(cache.Items(), id)
    {
      cache.StateBounded();
      StepMembers(cache.State(), Drop(id), cache.maxBytes);
      WithoutIn(cache.Items(), id);
      cache.Remove(id);
    }

    /** One row of the event query, admitted to the cache unless told not to. */
    method FetchOne(id: string, populate: bool) returns (e: Event)
      requires Valid() && id in db.events
      modifies this`owned, cache
      ensures Valid() && owned == old(owned) + (if populate then {e} else {})
      ensures fresh(e) && Unmarked(db, id, e)
    {
      e := new Event(db.events[id], "");
      if populate {
        Own(e);
        Put(id, e);
      }
    }

    /** Reads the events the cache does not have. */
    method Fetch(ids: seq<string>, populate: bool) returns (out: map<string, Event>)
      requires Valid()
      modifies this`owned, cache
      ensures Valid() && old(owned) <= owned && fresh(owned - old(owned)) && (!populate ==> owned == old(owned))
      ensures out.Keys == set id | id in ids && id in db.events
      ensures forall id :: id in out ==> fresh(out[id]) && Unmarked(db, id, out[id])
    {
      out := map[];
      var rows := set id | id in ids && id in db.events;
      var todo := rows;
      while todo != {}
        invariant Valid() && old(owned) <= owned && fresh(owned - old(owned)) && (!populate ==> owned == old(owned))
        invariant todo <= rows && out.Keys == rows - todo
        invariant forall id :: id in out ==> fresh(out[id]) && Unmarked(db, id, out[id])
      {
        var id :| id in todo;
        todo := todo - {id};
        var e := FetchOne(id, populate);
        out := out[id := e];
      }
    }

    /** The part of a request the cache can serve, and what is left to query. */
    method TakeCached(ids: seq<string>) returns (out: map<string, Event>, missing: seq<string>)
      requires Valid()
      modifies cache
      ensures Valid()
      ensures forall id :: id in out ==> id in ids && out[id] in owned && Unmarked(db, id, out[id])
      ensures forall id :: id in ids <==> id in out || id in missing
    {
      out, missing := map[], [];
      for i := 0 to |ids|
        invariant Valid()
        invariant forall id :: id in out ==> id in ids && out[id] in owned && Unmarked(db, id, out[id])
        invariant forall k :: 0 <= k < i ==> ids[k] in out || ids[k] in missing
        invariant forall id :: id in missing ==> id in ids
      {
        var ev := Lookup(ids[i]);
        if ev.Some? {
          out := out[ids[i] := ev.value];
        } else {
          ElementsJoin(missing, [ids[i]]);
          missing := missing + [ids[i]];
        }
      }
    }

    /** Serves what is cached and queries only the rest, which enters the cache only if populate says so. */
    method GetEventsRawOpt(ids: seq<string>, populate: bool) returns (out: map<string, Event>)
      requires Valid()
      modifies this`owned, cache
      ensures Valid() && old(owned) <= owned && fresh(owned - old(owned)) && (!populate ==> owned == old(owned))
      ensures Raw(db, out) && out.Keys == set id | id in ids && id in db.events
      ensures forall id :: id in out ==> out[id] in old(owned) || fresh(out[id])
    {
      out := map[];
      if |ids| == 0 {
        return;
      }
      var missing := ids;
      if cache.Enabled() {
        out, missing := TakeCached(ids);
      }
      if |missing| == 0 {
        return;
      }
      var fetched := Fetch(missing, populate);
      out := out + fetched;
    }

    /**
     * The redaction events whose sender and room have to be looked at, loaded without resolving their own redactions.
     */
    method LoadRedactions(redactions: map<string, seq<RedactionRow>>) returns (out: map<string, Event>)
      requires Valid()
      modifies this`owned, cache
      ensures Valid() && old(owned) <= owned && fresh(owned - old(owned))
      ensures forall id :: id in redactions ==> Loaded(db, redactions[id], out)
    {
      var needed := Rows(set id, r | id in redactions && r in redactions[id] && r.NeedsRecheck() :: r.redactionId);
      out := map[];
      if |needed| > 0 {
        out := GetEventsRawOpt(needed, true);
      }
      forall id | id in redactions ensures Loaded(db, redactions[id], out) {
        forall r | r in redactions[id] && r.NeedsRecheck() ensures r.redactionId in needed {}
      }
    }

    /** The event itself when there is no mark, else a copy that differs from it in the mark alone. */
    twostate predicate Stamped(before: Event, new after: Event, mark: string)
      reads before, after
    {
      after.content == before.content && after.redactedBy == mark &&
          (if mark == "" then after == before else fresh(after))
    }

    /** What the result holds for one event: the event itself, or a new object that carries the mark. */
    twostate predicate Marked(before: Event, new after: Event, id: string)
      reads after
    {
      && id in db.events && after.content == db.events[id] && Verdict(db, db.events[id], after.redactedBy)
      && (if after.redactedBy == "" then after == before else fresh(after))
    }

    method MarkEvent(ev: Event, rows: Option<seq<RedactionRow>>, redactionEvents: map<string, Event>,
        bans: map<(string, string), Ban>, id: string)
      returns (r: Event)
      requires WellFormed(db) && Unmarked(db, id, ev)
      requires forall row :: (rows.Some? && row in rows.value) <==> Targets(db, id, row)
      requires rows.Some? ==> Loaded(db, rows.value, redactionEvents)
      requires var pair := (ev.content.roomId, ev.content.sender);
               && (ev.content.sender != "" && pair in db.bans <==> pair in bans)
               && (pair in bans ==> bans[pair] == db.bans[pair])
      ensures Marked(ev, r, id)
    {
      var mark := MarkOf(db, ev.content, rows, redactionEvents, bans);
      r := ev;
      if mark != "" {
        r := new Event(ev.content, mark);
      }
    }

    method MarkOne(events: map<string, Event>, redactions: map<string, seq<RedactionRow>>,
        redactionEvents: map<string, Event>, bans: map<(string, string), Ban>, id: string)
      returns (r: Event, ghost mark: string)
      requires WellFormed(db) && Raw(db, events) && Gathered(db, events, redactions, redactionEvents, bans) &&
               id in events
      ensures Stamped(events[id], r, mark) && Verdict(db, db.events[id], mark)
    {
      GatheredFor(db, events, redactions, redactionEvents, bans, id);
      var rows := if id in redactions then Some(redactions[id]) else None;
      r := MarkEvent(events[id], rows, redactionEvents, bans, id);
      mark := r.redactedBy;
    }

    method MarkAll(events: map<string, Event>, redactions: map<string, seq<RedactionRow>>,
        redactionEvents: map<string, Event>, bans: map<(string, string), Ban>)
      returns (out: map<string, Event>)
      requires WellFormed(db) && Raw(db, events)
      requires Gathered(db, events, redactions, redactionEvents, bans)
      ensures out.Keys == events.Keys && forall id :: id in out ==> Marked(events[id], out[id], id)
    {
      out := events;
      ghost var marks: map<string, string> := map[];
      var todo := events.Keys;
      while todo != {}
        invariant out.Keys == events.Keys && todo <= events.Keys && marks.Keys == events.Keys - todo
        invariant forall id :: id in marks ==> Stamped(events[id], out[id], marks[id])
        invariant forall id :: id in marks ==> Verdict(db, db.events[id], marks[id])
      {
        var id :| id in todo;
        todo := todo - {id};
        var marked;
        ghost var mark;
        marked, mark := MarkOne(events, redactions, redactionEvents, bans, id);
        out, marks := out[id := marked], marks[id := mark];
      }
      forall id | id in out ensures Marked(events[id], out[id], id) {
        assert Stamped(events[id], out[id], marks[id]);
      }
    }

    /** Reads what the verdicts on these events rest on. */
    method Gather(events: map<string, Event>)
      returns (redactions: map<string, seq<RedactionRow>>, redactionEvents: map<string, Event>,
          bans: map<(string, string), Ban>)
      requires Valid() && Raw(db, events)
      modifies this`owned, cache
      ensures Valid() && old(owned) <= owned && fresh(owned - old(owned))
      ensures Raw(db, events)
      ensures Gathered(db, events, redactions, redactionEvents, bans)
    {
      redactions := GetRedactions(db, events.Keys);
      redactionEvents := LoadRedactions(redactions);
      bans := GetBanRedactions(db, set id | id in events && events[id].content.sender != "" ::
          (events[id].content.roomId, events[id].content.sender));
    }

    /**
     * Marks the events that have been redacted. Whatever is marked is a new object; every event that
     * existed before keeps all its fields.
     */
    method ApplyRedactions(events: map<string, Event>) returns (out: map<string, Event>)
      requires Valid() && Raw(db, events)
      modifies this`owned, cache
      ensures Valid() && old(owned) <= owned && fresh(owned - old(owned))
      ensures Raw(db, events) && out.Keys == events.Keys
      ensures forall id :: id in out ==> Marked(events[id], out[id], id)
      ensures forall id :: id in out && out[id].redactedBy != "" ==> out[id] !in owned
    {
      if events == map[] {
        return events;
      }
      var redactions, redactionEvents, bans := Gather(events);
      out := MarkAll(events, redactions, redactionEvents, bans);
    }

    /** Loads events by ID, marking any that have been redacted; those we do not hold are absent. */
    method GetEvents(ids: seq<string>) returns (out: map<string, Event>)
      requires Valid()
      modifies this`owned, cache
      ensures Valid() && old(owned) <= owned && fresh(owned - old(owned))
      ensures out.Keys == set id | id in ids && id in db.events
      ensures forall id :: id in out ==>
              out[id].content == db.events[id] && Verdict(db, db.events[id], out[id].redactedBy)
      ensures forall id :: id in out ==> (out[id].redactedBy != "" <==> ToRedact(db, db.events[id]))
      ensures forall id :: id in out && out[id].redactedBy != "" ==> fresh(out[id]) && out[id] !in owned
    {
      var raw := GetEventsRawOpt(ids, true);
      out := ApplyRedactions(raw);
      forall id | id in out ensures out[id].redactedBy != "" <==> ToRedact(db, db.events[id]) {
        MarkedIffRedacted(db, db.events[id], out[id].redactedBy);
      }
    }
  }
}
