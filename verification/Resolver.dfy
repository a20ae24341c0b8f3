/**
 * The two state endpoints. Both list the state before an event and the auth chain of what they list; /state_ids
 * names the events, /state finds them, writes them and digests what it wrote.
 */
module Resolver {
  import opened Basics
  import AuthChain
  import StateBefore
  import StateStore
  import StateStream
  import opened StateGroups

  datatype Refusal = Refused(error: StateBefore.StateError) | Unrenderable

  /** What both endpoints ask the state of: the events, the groups they have, and the room and event of the question. */
  datatype Question = Question(events: map<string, StateBefore.EventInfo>, groups: map<string, nat>, room: string,
      eventId: string) {
    predicate Answerable() {
      && eventId in events && events[eventId].room == room && events[eventId].rejectedReason == ""
      && !events[eventId].outlier && eventId in groups
    }
  }

  /**
   * The auth chain of a list of events as the store gives it: each event once, and right where no keys are confused.
   */
  method ChainFor<D(==, !new)>(auth: AuthChain.AuthStore<D>, room: string, ids: seq<string>)
      returns (chain: seq<string>)
    requires auth.Valid()
    modifies auth`asked, auth.authChains
    ensures auth.Valid() && Distinct(chain)
    ensures IsChain(auth, room, ids, chain)
  {
    var a := new string[|ids|](i requires 0 <= i < |ids| => ids[i]);
    assert a[..] == ids;
    var usedFallback;
    chain, usedFallback := auth.GetAuthChainIDsWithFallback(room, a);
  }

  /** The two stores keep their caches apart. */
  ghost predicate Apart<D(!new)>(store: StateStore.StateStore, auth: AuthChain.AuthStore<D>) {
    auth.authChains as object != store.stateGroups && auth.authChains as object != store.filteredState
  }

  /** The IDs list the state before the event of the question. */
  ghost predicate ListsBefore(db: Db, q: Question, ids: seq<string>)
    requires WellFormed(db) && q.Answerable()
  {
    StateBefore.ListsAll(ids, StateBefore.Adjusted(Replay(db, q.groups[q.eventId]), q.events[q.eventId]))
  }

  /** The chain is the auth chain of these events, wherever no keys are confused. */
  ghost predicate IsChain<D(!new)>(auth: AuthChain.AuthStore<D>, room: string, ids: seq<string>, chain: seq<string>)
    reads auth`asked
  {
    auth.Unconfused(room, ids) ==> Elements(chain) == AuthChain.ChainOf(auth.db, Elements(ids))
  }

  /** Every event of either list that is held and not rejected can be written. */
  ghost predicate AllRender(codec: StateStream.Codec, db: map<string, StateStream.Event>, stateIds: seq<string>,
                            authIds: seq<string>)
  {
    forall id :: (id in stateIds || id in authIds) && id in db && db[id].rejectedReason == "" ==>
      StateStream.Renders(codec, db[id])
  }

  /** The first half of both: nothing but the state store is touched. */
  method ListFor<D(==, !new)>(store: StateStore.StateStore, auth: AuthChain.AuthStore<D>, q: Question)
    returns (r: Result<seq<string>, StateBefore.StateError>)
    requires store.Valid() && auth.Valid() && Apart(store, auth)
    modifies store`owned, store.stateGroups
    ensures store.Valid() && auth.Valid() && auth.asked == old(auth.asked)
    ensures (r.Ok? <==> q.Answerable()) && (r.Ok? ==> ListsBefore(store.db, q, r.value))
  {
    r := StateBefore.StateIDsForEvent(store, q.events, q.groups, q.room, q.eventId);
  }

  /** The second half of /state_ids: nothing but the auth store is touched. */
  method NameChain<D(==, !new)>(store: StateStore.StateStore, auth: AuthChain.AuthStore<D>, room: string,
                                ids: seq<string>)
    returns (chain: seq<string>)
    requires store.Valid() && auth.Valid() && Apart(store, auth)
    modifies auth`asked, auth.authChains
    ensures store.Valid() && auth.Valid() && Distinct(chain) && IsChain(auth, room, ids, chain)
  {
    chain := ChainFor(auth, room, ids);
  }

  /** Answers /state_ids. */
  method ComputeStateIDs<D(==, !new)>(store: StateStore.StateStore, auth: AuthChain.AuthStore<D>, q: Question)
    returns (r: Result<(seq<string>, seq<string>), StateBefore.StateError>)
    requires store.Valid() && auth.Valid() && Apart(store, auth)
    modifies store`owned, store.stateGroups, auth`asked, auth.authChains
    ensures store.Valid() && auth.Valid()
    ensures r.Ok? <==> q.Answerable()
    ensures r.Ok? ==>
              && ListsBefore(store.db, q, r.value.0) && Distinct(r.value.1)
              && IsChain(auth, q.room, r.value.0, r.value.1)
  {
    var listed := ListFor(store, auth, q);
    if listed.Err? {
      return Err(listed.error);
    }
    var chain := NameChain(store, auth, q.room, listed.value);
    r := Ok((listed.value, chain));
  }

  /** What a response to /state holds, given the IDs its two arrays are made from. */
  ghost predicate Holds(codec: StateStream.Codec, db: map<string, StateStream.Event>, stateIds: seq<string>,
                        authIds: seq<string>, body: seq<StateStream.Token>, result: StateStream.StateResult)
  {
    var pdus, chain := StateStream.Served(codec, db, stateIds), StateStream.Served(codec, db, authIds);
    && body == StateStream.StateBody(pdus, chain)
    && result == StateStream.StateResult(|pdus|, |chain|, StateStream.SumOf(codec, pdus) % StateStream.MODULUS,
                                         StateStream.SumOf(codec, chain) % StateStream.MODULUS)
  }

  /** Each of these events that is held and not rejected is found exactly once, and no other event is. */
  ghost predicate EachFoundOnce(db: map<string, StateStream.Event>, ids: seq<string>) {
    forall id :: multiset(StateStream.FoundIn(db, ids))[id] == if id in ids && id in db && db[id].rejectedReason == ""
        then 1 else 0
  }

  /** Writes the two arrays of a response. */
  method WriteState<D(==, !new)>(auth: AuthChain.AuthStore<D>, codec: StateStream.Codec,
                                 db: map<string, StateStream.Event>, room: string, stateIds: seq<string>)
    returns (r: Option<(seq<StateStream.Token>, StateStream.StateResult)>, ghost authIds: seq<string>)
    requires auth.Valid()
    modifies auth`asked, auth.authChains
    ensures auth.Valid()
    ensures r.Some? ==> Holds(codec, db, stateIds, authIds, r.value.0, r.value.1) && EachFoundOnce(db, authIds)
    ensures r.Some? ==> IsChain(auth, room, StateStream.FoundIn(db, stateIds), authIds)
    ensures r.Some? <==> AllRender(codec, db, stateIds, authIds)
  {
    authIds := [];
    StateStream.FoundRender(codec, db, stateIds);
    var body := [StateStream.Open, StateStream.Key("pdus"), StateStream.ArrayOpen];
    var s := StateStream.StreamEvents(codec, db, stateIds, StateStream.DEFAULT_EVENT_BATCH);
    if s.None? {
      return None, authIds;
    }
    body := body + s.value.tokens +
            [StateStream.ArrayClose, StateStream.Comma, StateStream.Key("auth_chain"), StateStream.ArrayOpen];
    var chain := ChainFor(auth, room, s.value.found);
    authIds := chain;
    StateStream.FoundRender(codec, db, chain);
    var a := StateStream.StreamEvents(codec, db, chain, StateStream.DEFAULT_EVENT_BATCH);
    if a.None? {
      return None, authIds;
    }
    body := body + a.value.tokens + [StateStream.ArrayClose, StateStream.Close];
    StateStream.DistinctAreFoundOnce(db, chain);
    r := Some((body, StateStream.StateResult(s.value.written, a.value.written, s.value.digest.Digest(),
        a.value.digest.Digest())));
  }

  /** The second half of /state: nothing but the auth store is touched. */
  method WriteFor<D(==, !new)>(store: StateStore.StateStore, auth: AuthChain.AuthStore<D>, codec: StateStream.Codec,
                               db: map<string, StateStream.Event>, room: string, stateIds: seq<string>)
    returns (r: Option<(seq<StateStream.Token>, StateStream.StateResult)>, ghost authIds: seq<string>)
    requires store.Valid() && auth.Valid() && Apart(store, auth)
    modifies auth`asked, auth.authChains
    ensures store.Valid() && auth.Valid()
    ensures r.Some? ==> Holds(codec, db, stateIds, authIds, r.value.0, r.value.1) && EachFoundOnce(db, authIds)
    ensures r.Some? ==> IsChain(auth, room, StateStream.FoundIn(db, stateIds), authIds)
    ensures r.Some? <==> AllRender(codec, db, stateIds, authIds)
  {
    r, authIds := WriteState(auth, codec, db, room, stateIds);
  }

  /**
   * Answers /state: the state before the event, and the auth chain of those of its events that were found. Each
   * event of the chain that is held and not rejected is found exactly once.
   */
  method State<D(==, !new)>(store: StateStore.StateStore, auth: AuthChain.AuthStore<D>, codec: StateStream.Codec,
                            db: map<string, StateStream.Event>, q: Question)
    returns (r: Result<(seq<StateStream.Token>, StateStream.StateResult), Refusal>, ghost stateIds: seq<string>,
        ghost authIds: seq<string>)
    requires store.Valid() && auth.Valid() && Apart(store, auth)
    modifies store`owned, store.stateGroups, auth`asked, auth.authChains
    ensures store.Valid() && auth.Valid()
    ensures !q.Answerable() <==> r.Err? && r.error.Refused?
    ensures q.Answerable() ==>
            ListsBefore(store.db, q, stateIds) && (r.Ok? <==> AllRender(codec, db, stateIds, authIds))
    ensures r.Ok? ==> Holds(codec, db, stateIds, authIds, r.value.0, r.value.1) && EachFoundOnce(db, authIds)
    ensures r.Ok? ==> IsChain(auth, q.room, StateStream.FoundIn(db, stateIds), authIds)
  {
    stateIds, authIds := [], [];
    var listed := ListFor(store, auth, q);
    if listed.Err? {
      return Err(Refused(listed.error)), stateIds, authIds;
    }
    stateIds := listed.value;
    var written;
    written, authIds := WriteFor(store, auth, codec, db, q.room, listed.value);
    if written.None? {
      return Err(Unrenderable), stateIds, authIds;
    }
    r := Ok(written.value);
  }
}
