/**
 * The state before an event. A state event's own group already contains the event, so the answer is read
 * off the shared map with one entry skipped or replaced; the map itself is not touched.
 */
module StateBefore {
  import opened Basics
  import opened StateGroups
  import opened StateStore

  /**
   * What is read of an event: its own state key if it is a state event, and what it says it superseded ("" for
   * nothing).
   */
  datatype EventInfo = EventInfo(room: string, rejectedReason: string, outlier: bool, key: Option<StateKey>,
      replacesState: string)

  datatype StateError = EventNotFound | EventNotInRoom | StateNotKnown

  /** What the answer lists: the group's map with the event's own entry taken back. */
  function Adjusted(state: Entries, ev: EventInfo): Entries {
    if ev.key.None? || ev.key.value !in state then state
    else if ev.replacesState == "" then state - {ev.key.value}
    else state[ev.key.value := ev.replacesState]
  }

  /** ids are the values of a map in this order of its keys, each entry once. */
  ghost predicate Lists(ids: seq<string>, m: Entries, order: seq<StateKey>) {
    && Distinct(order) && Elements(order) == m.Keys && |ids| == |order|
    && forall i :: 0 <= i < |ids| ==> order[i] in m && ids[i] == m[order[i]]
  }

  ghost predicate ListsAll(ids: seq<string>, m: Entries) {
    exists order :: Lists(ids, m, order)
  }

  /** The refusals of the endpoint, in the order it makes them; None is a state that can be answered. */
  function Refusal(events: map<string, EventInfo>, groups: map<string, nat>, room: string,
      eventId: string): Option<StateError>
  {
    if eventId !in events then Some(EventNotFound)
    else if events[eventId].room != room then Some(EventNotInRoom)
    else if events[eventId].rejectedReason != "" then Some(EventNotFound)
    else if events[eventId].outlier || eventId !in groups then Some(StateNotKnown)
    else None
  }

  lemma ListsMore(ids: seq<string>, m: Entries, order: seq<StateKey>, k: StateKey, id: string)
    requires Lists(ids, m, order) && k !in m
    ensures Lists(ids + [id], m[k := id], order + [k])
  {
    assert k !in order by { assert k !in Elements(order); }
    AppendMembers(order, k);
    forall i | 0 <= i < |order| ensures order[i] != k && order[i] in m {
      assert order[i] in Elements(order);
    }
  }

  /** The part of a map under some of its keys. */
  function Under(m: Entries, keys: seq<StateKey>): Entries {
    map k | k in m && k in keys :: m[k]
  }

  /** One more key of the map: what it adds to the answer. */
  lemma AdjustedNext(before: Entries, key: StateKey, id: string, ev: EventInfo)
    requires key !in before
    ensures var after := Adjusted(before[key := id], ev);
            if ev.key == Some(key)
                then Adjusted(before, ev) == before &&
                after == (if ev.replacesState == "" then before else before[key := ev.replacesState])
            else key !in Adjusted(before, ev) && after == Adjusted(before, ev)[key := id]
  {}

  lemma UnderNext(m: Entries, keys: seq<StateKey>, i: nat)
    requires i < |keys| && Distinct(keys) && Elements(keys) == m.Keys
    ensures keys[i] in m && keys[i] !in Under(m, keys[..i]) &&
            Under(m, keys[..i + 1]) == Under(m, keys[..i])[keys[i] := m[keys[i]]]
  {
    assert keys[i] in Elements(keys);
    assert keys[..i + 1] == keys[..i] + [keys[i]];
  }

  lemma UnderAll(m: Entries, keys: seq<StateKey>)
    requires Elements(keys) == m.Keys
    ensures Under(m, keys) == m
  {
    assert forall k :: k in m ==> k in Elements(keys);
  }

  /** Builds the answer while reading the map, instead of editing the map. */
  method ListBefore(state: StateMap, ev: EventInfo) returns (ids: seq<string>)
    ensures ListsAll(ids, Adjusted(state.entries, ev))
  {
    var m := state.entries;
    var keys := KeysOf(m);
    ids := [];
    ghost var order: seq<StateKey> := [];
    assert Under(m, keys[..0]) == map[];
    for i := 0 to |keys|
      invariant Lists(ids, Adjusted(Under(m, keys[..i]), ev), order)
    {
      var key := keys[i];
      UnderNext(m, keys, i);
      ghost var before := Under(m, keys[..i]);
      AdjustedNext(before, key, m[key], ev);
      if ev.key.Some? && key == ev.key.value {
        if ev.replacesState != "" {
          ListsMore(ids, before, order, key, ev.replacesState);
          ids, order := ids + [ev.replacesState], order + [key];
        }
        continue;
      }
      ListsMore(ids, Adjusted(before, ev), order, key, m[key]);
      ids, order := ids + [m[key]], order + [key];
    }
    assert keys[..|keys|] == keys;
    UnderAll(m, keys);
  }

  /** Answers for the state before an event. Only the store's caches are written; no state map is. */
  method StateIDsForEvent(store: StateStore, events: map<string, EventInfo>, groups: map<string, nat>, room: string,
      eventId: string)
    returns (r: Result<seq<string>, StateError>)
    requires store.Valid()
    modifies store`owned, store.stateGroups
    ensures store.Valid() && old(store.owned) <= store.owned
    ensures match Refusal(events, groups, room, eventId)
            case Some(error) => r == Err(error)
            case None => r.Ok? && ListsAll(r.value, Adjusted(Replay(store.db, groups[eventId]), events[eventId]))
    ensures r.Ok? <==>
            eventId in events && events[eventId].room == room && events[eventId].rejectedReason == "" &&
            !events[eventId].outlier && eventId in groups
    ensures r == Err(EventNotInRoom) <==> eventId in events && events[eventId].room != room
    ensures r == Err(EventNotFound) <==>
            eventId !in events || (events[eventId].room == room && events[eventId].rejectedReason != "")
  {
    if eventId !in events {
      return Err(EventNotFound);
    }
    var ev := events[eventId];
    if ev.room != room {
      return Err(EventNotInRoom);
    }
    if ev.rejectedReason != "" {
      return Err(EventNotFound);
    }
    if ev.outlier {
      return Err(StateNotKnown);
    }
    if eventId !in groups {
      return Err(StateNotKnown);
    }
    var state := store.GetStateForGroup(groups[eventId]);
    var ids := ListBefore(state, ev);
    r := Ok(ids);
  }

  /**
   * When a state event's group is the state before it plus that one entry, the answer lists the state
   * before the event exactly if replaces_state names what the event superseded, or nothing where it
   * superseded nothing. For any other event the group is the state before it.
   */
  lemma AdjustedIsBefore(before: Entries, ev: EventInfo, eventId: string)
    requires ev.key.Some? && (ev.key.value in before ==> before[ev.key.value] != "")
    ensures Adjusted(before[ev.key.value := eventId], ev) == before <==>
            ev.replacesState == (if ev.key.value in before then before[ev.key.value] else "")
  {
    var k := ev.key.value;
    var after := before[k := eventId];
    if k in before {
      assert ev.replacesState == before[k] ==> after[k := ev.replacesState] == before;
    } else {
      assert ev.replacesState == "" ==> after - {k} == before;
    }
    assert ev.replacesState != "" ==> Adjusted(after, ev)[k] == ev.replacesState;
  }

  ghost predicate OneEntry(db: Db, g: nat, k: StateKey, event: string) {
    Row(g, k, event) in db.rows && forall r :: r in db.rows && r.group == g ==> r == Row(g, k, event)
  }

  lemma OneEntryDelta(db: Db, g: nat, k: StateKey, event: string)
    requires WellFormed(db) && OneEntry(db, g, k, event)
    ensures Delta(db, g) == map[k := event]
  {
    assert Row(g, k, event).group == g && Row(g, k, event).key == k;
    forall x ensures x in Delta(db, g) <==> x == k {
      DeltaHas(db, g, x);
    }
    DeltaHas(db, g, k);
  }

  lemma OneEntryReplay(db: Db, g: nat, k: StateKey, event: string)
    requires WellFormed(db) && g in db.edges && OneEntry(db, g, k, event)
    ensures Replay(db, g) == Replay(db, db.edges[g])[k := event]
  {
    OneEntryDelta(db, g, k, event);
    assert Replay(db, g) == Replay(db, db.edges[g]) + map[k := event];
  }

  /** A group made by one state event: the answer is the state of the group before it. */
  lemma DeltaOfOneEvent(db: Db, g: nat, ev: EventInfo, eventId: string)
    requires WellFormed(db) && g in db.edges && ev.key.Some? && OneEntry(db, g, ev.key.value, eventId)
    requires var before := Replay(db, db.edges[g]); ev.key.value in before ==> before[ev.key.value] != ""
    ensures var before := Replay(db, db.edges[g]);
            Adjusted(Replay(db, g), ev) == before <==>
            ev.replacesState == (if ev.key.value in before then before[ev.key.value] else "")
  {
    OneEntryReplay(db, g, ev.key.value, eventId);
    AdjustedIsBefore(Replay(db, db.edges[g]), ev, eventId);
  }
}
