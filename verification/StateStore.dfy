/**
 * The store in front of the state-group queries: a cache of whole maps and one of filtered maps. Cached
 * maps are shared objects, so besides saying what a lookup returns, every contract here says whose
 * object it is and which objects were left alone.
 */
module StateStore {
  import opened Basics
  import opened CacheKeys
  import opened LruCache
  import opened StateGroups

  /** A Go map of state: a reference, which whoever holds it may write through. */
  class StateMap {
    var entries: Entries

    constructor (entries: Entries)
      ensures this.entries == entries
    {
      this.entries := entries;
    }
  }

  datatype FilteredStateKey = FilteredStateKey(group: nat, filter: string)

  datatype InvalidServerName = InvalidServerName(server: string)

  /** The keys of a map in some order: Go's map iteration. */
  method KeysOf(m: Entries) returns (keys: seq<StateKey>)
    ensures Distinct(keys) && Elements(keys) == m.Keys
  {
    keys := [];
    var rest := m.Keys;
    while rest != {}
      invariant rest <= m.Keys && Distinct(keys) && Elements(keys) == m.Keys - rest
    {
      var k: StateKey :| k in rest;
      assert k !in Elements(keys);
      PushMembers(keys, k);
      keys, rest := [k] + keys, rest - {k};
    }
  }

  /** Copies, so that what a caller adjusts is never what a cache holds. */
  method CopyState(state: StateMap) returns (out: StateMap)
    ensures fresh(out) && out.entries == state.entries
  {
    out := new StateMap(map[]);
    var keys := KeysOf(state.entries);
    for i := 0 to |keys|
      invariant fresh(out) && out.entries == map k | k in state.entries && k in keys[..i] :: state.entries[k]
    {
      assert keys[i] in Elements(keys);
      assert keys[..i + 1] == keys[..i] + [keys[i]];
      out.entries := out.entries[keys[i] := state.entries[keys[i]]];
    }
    assert keys[..|keys|] == keys;
    assert forall k :: k in state.entries ==> k in Elements(keys);
  }

  /** The entries under some keys that a question keeps. */
  ghost function KeptUnder(m: Entries, q: Question, keys: seq<StateKey>): Entries {
    map k | k in m && k in keys && q.Keeps(k) :: m[k]
  }

  lemma KeptNext(m: Entries, q: Question, keys: seq<StateKey>, k: StateKey)
    requires k in m
    ensures KeptUnder(m, q, keys + [k]) == if q.Keeps(k) then KeptUnder(m, q, keys)[k := m[k]]
            else KeptUnder(m, q, keys)
  {}

  lemma KeptAll(m: Entries, q: Question, keys: seq<StateKey>)
    requires Elements(keys) == m.Keys
    ensures KeptUnder(m, q, keys) == Filtered(m, q)
  {
    assert forall k :: k in m ==> k in Elements(keys);
  }

  /** filterByTypes and filterMembersForServer: selects in memory, always into a new map. */
  method FilterInMemory(state: StateMap, q: Question) returns (out: StateMap)
    ensures fresh(out) && out.entries == Filtered(state.entries, q)
  {
    out := new StateMap(map[]);
    var keys := KeysOf(state.entries);
    for i := 0 to |keys|
      invariant fresh(out) && out.entries == KeptUnder(state.entries, q, keys[..i])
    {
      assert keys[i] in Elements(keys);
      assert keys[..i + 1] == keys[..i] + [keys[i]];
      KeptNext(state.entries, q, keys[..i], keys[i]);
      if q.Keeps(keys[i]) {
        out.entries := out.entries[keys[i] := state.entries[keys[i]]];
      }
    }
    assert keys[..|keys|] == keys;
    KeptAll(state.entries, q, keys);
  }

  /** A membership whose user ID ends in a colon and the server's name. */
  ghost predicate IsMember(k: StateKey, server: string) {
    && k.kind == "m.room.member" && |server| < |k.stateKey|
    && k.stateKey[|k.stateKey| - |server| - 1] == ':' && k.stateKey[|k.stateKey| - |server|..] == server
  }

  lemma MemberIsKept(k: StateKey, server: string)
    ensures IsMember(k, server) <==> Members(server).Keeps(k)
  {
    var suffix := ":" + server;
    if |server| < |k.stateKey| {
      var end := k.stateKey[|k.stateKey| - |suffix|..];
      assert end[0] == k.stateKey[|k.stateKey| - |server| - 1] && end[1..] == k.stateKey[|k.stateKey| - |server|..];
      assert end == [end[0]] + end[1..];
      assert suffix[1..] == server;
    }
  }

  class StateStore {
    const db: Db
    const sizeOf: Entries -> nat   // the caches' Sizer
    const stateGroups: LRU<nat, StateMap>
    const filteredState: LRU<FilteredStateKey, StateMap>
    ghost var owned: set<StateMap>   // every map a cache has ever been given
    ghost var asked: set<(nat, Question)>   // every filtered question asked of a group so far

    constructor (db: Db, sizeOf: Entries -> nat, wholeBytes: int, filteredBytes: int)
      requires WellFormed(db)
      ensures Valid() && this.db == db && this.sizeOf == sizeOf && fresh(stateGroups) && fresh(filteredState) &&
              owned == {} && asked == {}
    {
      this.db, this.sizeOf := db, sizeOf;
      stateGroups := new LRU(wholeBytes);
      filteredState := new LRU(filteredBytes);
      owned, asked := {}, {};
    }

    /** What a question may be answered with: memory and database may differ, see FiltersAgree. */
    ghost predicate IsAnswer(group: nat, q: Question, entries: Entries)
      requires WellFormed(db)
    {
      entries == Filtered(Replay(db, group), q) || entries == Restricted(Replay(db, group), Some(q))
    }

    /** The entries answer one of these questions, under the key it shares with this one. */
    ghost predicate Answers(asked: set<(nat, Question)>, key: FilteredStateKey, entries: Entries)
      requires WellFormed(db)
    {
      exists p {:trigger p.Filter()} ::
          (key.group, p) in asked && p.Filter() == key.filter && IsAnswer(key.group, p, entries)
    }

    /**
     * Whatever has been asked of the group under the key of this question, both filters of it keep what this one
     * keeps.
     */
    ghost predicate Unconfused(group: nat, q: Question)
      reads this`asked
    {
      forall p {:trigger p.Filter()} :: (group, p) in asked && p.Filter() == q.Filter() ==> KeepsAlike(p, q)
    }

    ghost predicate WholeRight(items: seq<Item<nat, StateMap>>, owned: set<StateMap>)
      requires WellFormed(db)
      reads owned
    {
      forall it :: it in items ==> it.value in owned && it.value.entries == Replay(db, it.key)
    }

    ghost predicate FilteredRight(items: seq<Item<FilteredStateKey, StateMap>>, owned: set<StateMap>,
        asked: set<(nat, Question)>)
      requires WellFormed(db)
      reads owned
    {
      forall it :: it in items ==> it.value in owned && Answers(asked, it.key, it.value.entries)
    }

    ghost predicate WholeValid()
      reads this`owned, stateGroups, owned
    {
      WellFormed(db) && stateGroups.Valid() && WholeRight(stateGroups.Items(), owned)
    }

    ghost predicate FilteredValid()
      reads this`owned, this`asked, filteredState, owned
    {
      WellFormed(db) && filteredState.Valid() && FilteredRight(filteredState.Items(), owned, asked)
    }

    ghost predicate Valid()
      reads this`owned, this`asked, stateGroups, filteredState, owned
    {
      stateGroups as object != filteredState as object && WholeValid() && FilteredValid()
    }

    /** Storing one more right map keeps the cache right, whatever is evicted. */
    lemma WholeGrows(it: Item<nat, StateMap>)
      requires WholeValid() && it.value in owned && it.value.entries == Replay(db, it.key)
      ensures WholeRight(Step(stateGroups.State(), Store(it), stateGroups.maxBytes).items, owned)
    {
      stateGroups.StateBounded();
      StepMembers(stateGroups.State(), Store(it), stateGroups.maxBytes);
    }

    lemma FilteredGrows(it: Item<FilteredStateKey, StateMap>)
      requires FilteredValid() && it.value in owned && Answers(asked, it.key, it.value.entries)
      ensures FilteredRight(Step(filteredState.State(), Store(it), filteredState.maxBytes).items, owned, asked)
    {
      filteredState.StateBounded();
      StepMembers(filteredState.State(), Store(it), filteredState.maxBytes);
    }

    method LookupWhole(group: nat) returns (r: Option<StateMap>)
      requires Valid()
      modifies stateGroups
      ensures Valid()
      ensures r.Some? ==> r.value in owned && r.value.entries == Replay(db, group)
    {
      stateGroups.StateBounded();
      StepMembers(stateGroups.State(), LookUp(group), stateGroups.maxBytes);
      r := stateGroups.Get(group);
    }

    /** A map about to be cached becomes one of those nobody may write to. */
    ghost method Own(state: StateMap)
      requires Valid()
      modifies this`owned
      ensures Valid() && owned == old(owned) + {state}
    {
      owned := owned + {state};
    }

    /** One more question; what answered the earlier ones still does. */
    ghost method Ask(group: nat, q: Question)
      requires Valid()
      modifies this`asked
      ensures Valid() && asked == old(asked) + {(group, q)}
    {
      asked := asked + {(group, q)};
      forall it | it in filteredState.Items() ensures it.value in owned && Answers(asked, it.key, it.value.entries) {
        assert Answers(old(asked), it.key, it.value.entries);
      }
    }

    method PutWhole(group: nat, state: StateMap)
      requires WholeValid() && state in owned && state.entries == Replay(db, group)
      modifies stateGroups
      ensures WholeValid()
    {
      var size := sizeOf(state.entries);
      WholeGrows(Item(group, state, size));
      stateGroups.Add(group, state, size);
    }

    method RememberWhole(group: nat, state: StateMap)
      requires Valid() && state.entries == Replay(db, group)
      modifies this`owned, stateGroups
      ensures Valid() && owned == old(owned) + {state}
    {
      Own(state);
      PutWhole(group, state);
      assert FilteredValid();
    }

    method LookupFiltered(key: FilteredStateKey) returns (r: Option<StateMap>)
      requires Valid()
      modifies filteredState
      ensures Valid()
      ensures r.Some? ==> r.value in owned && Answers(asked, key, r.value.entries)
    {
      filteredState.StateBounded();
      StepMembers(filteredState.State(), LookUp(key), filteredState.maxBytes);
      r := filteredState.Get(key);
    }

    method RememberFiltered(key: FilteredStateKey, state: StateMap)
      requires Valid() && Answers(asked, key, state.entries)
      modifies this`owned, filteredState
      ensures Valid() && owned == old(owned) + {state}
    {
      var size := sizeOf(state.entries);
      Own(state);
      FilteredGrows(Item(key, state, size));
      filteredState.Add(key, state, size);
    }

    /** Runs the unfiltered query. */
    method QueryWhole(group: nat) returns (state: StateMap)
      requires WellFormed(db)
      ensures fresh(state) && state.entries == Replay(db, group)
    {
      var m := TakeNewest(set r | r in db.rows && r.group in Chain(db, group));
      assert (set r | r in db.rows && r.group in Chain(db, group)) == Joined(db, group, None);
      SelectedIsReplay(db, group, None, m);
      assert Restricted(Replay(db, group), None) == Replay(db, group);
      state := new StateMap(m);
    }

    /** Runs one of the filtered queries. */
    method QueryFiltered(group: nat, q: Question) returns (state: StateMap)
      requires WellFormed(db)
      ensures fresh(state) && state.entries == Restricted(Replay(db, group), Some(q))
    {
      var rows := set r | r in db.rows && r.group in Chain(db, group) && q.SqlKeeps(r.key);
      var m := TakeNewest(rows);
      assert rows == Joined(db, group, Some(q));
      SelectedIsReplay(db, group, Some(q), m);
      state := new StateMap(m);
    }

    /**
     * Resolves a group. The map is shared with the cache: it is right when it is returned, and stays
     * right for everybody as long as nobody writes to it.
     */
    method GetStateForGroup(group: nat) returns (state: StateMap)
      requires Valid()
      modifies this`owned, stateGroups
      ensures Valid() && state in owned && state.entries == Replay(db, group)
      ensures old(owned) <= owned && fresh(owned - old(owned))
    {
      var cached := LookupWhole(group);
      if cached.Some? {
        return cached.value;
      }
      state := QueryWhole(group);
      RememberWhole(group, state);
    }

    /**
     * The cheapest source first: the filtered cache, the whole-map cache, the database. The answer is that
     * of some question asked under this key, and if all of them keep the same it is the right one.
     */
    method CachedFilteredState(group: nat, q: Question) returns (state: StateMap)
      requires Valid()
      modifies this`owned, this`asked, stateGroups, filteredState
      ensures Valid() && old(owned) <= owned && fresh(owned - old(owned))
      ensures asked == old(asked) + {(group, q)}
      ensures fresh(state) && state !in owned
      ensures Answers(asked, FilteredStateKey(group, q.Filter()), state.entries)
      ensures Unconfused(group, q) ==> state.entries == Filtered(Replay(db, group), q)
    {
      Ask(group, q);
      var key := FilteredStateKey(group, q.Filter());
      var cached := LookupFiltered(key);
      if cached.Some? {
        state := CopyState(cached.value);
      } else {
        var filtered := Resolve(group, q);
        assert IsAnswer(group, q, filtered.entries) && q.Filter() == key.filter;
        RememberFiltered(key, filtered);
        state := CopyState(filtered);
      }
      UnconfusedIsRight(group, q, state.entries);
    }

    /** The two sources behind the filtered cache. */
    method Resolve(group: nat, q: Question) returns (filtered: StateMap)
      requires Valid()
      modifies stateGroups
      ensures Valid() && fresh(filtered) && IsAnswer(group, q, filtered.entries)
    {
      var whole := LookupWhole(group);
      if whole.Some? {
        filtered := FilterInMemory(whole.value, q);
      } else {
        filtered := QueryFiltered(group, q);
      }
    }

    lemma UnconfusedIsRight(group: nat, q: Question, entries: Entries)
      requires WellFormed(db) && Answers(asked, FilteredStateKey(group, q.Filter()), entries)
      ensures Unconfused(group, q) ==> entries == Filtered(Replay(db, group), q)
    {
      if Unconfused(group, q) {
        var p :| (group, p) in asked && p.Filter() == q.Filter() && IsAnswer(group, p, entries);
        AlikeAnswers(Replay(db, group), p, q);
      }
    }

    /** While only proper questions are asked there is no confusion. */
    lemma ProperIsUnconfused(group: nat, q: Question)
      requires (group, q) in asked && forall g, p :: (g, p) in asked ==> p.Proper()
      ensures Unconfused(group, q)
    {
      forall p | (group, p) in asked && p.Filter() == q.Filter() ensures KeepsAlike(p, q) {
        ProperAgree(p);
        KeyTellsQuestion(p, q);
      }
    }

    lemma TypesAnswerTypes(group: nat, types: seq<string>, entries: Entries)
      requires WellFormed(db) && Answers(asked, FilteredStateKey(group, TypesFilter(types)), entries)
      ensures exists other ::
              (group, Types(other)) in asked && TypesFilter(other) == TypesFilter(types) &&
              entries == Filtered(Replay(db, group), Types(other))
    {
      var p :| (group, p) in asked && p.Filter() == TypesFilter(types) && IsAnswer(group, p, entries);
      if p.Members? {
        FilterKindsDiffer(types, p.server);
        assert false;
      } else {
        AlikeAnswers(Replay(db, group), p, p);
        assert p == Types(p.types);
      }
    }

    /** State at a group for some event types, whatever their names. */
    method GetFilteredStateForGroup(group: nat, types: seq<string>) returns (state: StateMap)
      requires Valid()
      modifies this`owned, this`asked, stateGroups, filteredState
      ensures Valid() && old(owned) <= owned && fresh(owned - old(owned))
      ensures asked == old(asked) + {(group, Types(types))}
      ensures fresh(state) && state !in owned
      ensures exists other ::
              (group, Types(other)) in asked && TypesFilter(other) == TypesFilter(types) &&
              state.entries == Filtered(Replay(db, group), Types(other))
      ensures Unconfused(group, Types(types)) ==> state.entries == Filtered(Replay(db, group), Types(types))
      ensures Unconfused(group, Types(types)) ==>
                forall k :: k in state.entries <==> k in Replay(db, group) && k.kind in types
      ensures forall k :: k in state.entries ==> k in Replay(db, group) && state.entries[k] == Replay(db, group)[k]
    {
      state := CachedFilteredState(group, Types(types));
      TypesAnswerTypes(group, types, state.entries);
    }

    /** Memberships at a group for one server, by either of the two filters. */
    method GetServerMembershipStateForGroup(group: nat, server: string) returns (r: Result<StateMap, InvalidServerName>)
      requires Valid()
      modifies this`owned, this`asked, stateGroups, filteredState
      ensures Valid() && old(owned) <= owned && fresh(owned - old(owned))
      ensures asked == old(asked) + (if r.Ok? then {(group, Members(server))} else {})
      ensures r.Err? <==> '%' in server || '_' in server
      ensures r.Ok? ==> fresh(r.value) && r.value !in owned && IsAnswer(group, Members(server), r.value.entries)
      ensures r.Ok? && '\\' !in server ==> r.value.entries == Filtered(Replay(db, group), Members(server))
      ensures r.Ok? ==> forall k :: k in r.value.entries ==>
              k in Replay(db, group) && r.value.entries[k] == Replay(db, group)[k]
      ensures r.Ok? && '\\' !in server ==>
                forall k :: k in r.value.entries <==> k in Replay(db, group) && IsMember(k, server)
    {
      if '%' in server || '_' in server {
        return Err(InvalidServerName(server));
      }
      var state := CachedFilteredState(group, Members(server));
      ghost var p :| (group, p) in asked && p.Filter() == Members(server).Filter() && IsAnswer(group, p, state.entries);
      if p.Types? {
        FilterKindsDiffer(p.types, server);
      } else {
        MembersFilterIdentifies(p.server, server);
        FiltersAgree(server);
      }
      forall k ensures IsMember(k, server) <==> Members(server).Keeps(k) {
        MemberIsKept(k, server);
      }
      r := Ok(state);
    }

    /** Arms or disarms both caches; disarming empties them. */
    method SetArmed(armed: bool)
      requires Valid()
      modifies stateGroups, filteredState
      ensures Valid() && stateGroups.armed == armed && filteredState.armed == armed
      ensures !armed ==> stateGroups.Items() == [] && filteredState.Items() == []
    {
      stateGroups.SetArmed(armed);
      filteredState.SetArmed(armed);
    }

    /** Empties both caches without disarming them. */
    method Purge()
      requires Valid()
      modifies stateGroups, filteredState
      ensures Valid() && owned == old(owned)
      ensures stateGroups.Items() == [] && filteredState.Items() == []
      ensures stateGroups.armed == old(stateGroups.armed) && filteredState.armed == old(filteredState.armed)
    {
      stateGroups.Purge();
      filteredState.Purge();
    }
  }

  /**
   * A caller may adjust a filtered answer as it likes, and the caches may be emptied, disarmed and armed again:
   * the store stays right, and so does the next answer.
   */
  method AdjustAnswer(store: StateStore, group: nat, types: seq<string>, adjusted: Entries, purge: bool,
      arm: seq<bool>) returns (next: StateMap)
    requires store.Valid()
    modifies store`owned, store`asked, store.stateGroups, store.filteredState
    ensures store.Valid()
    ensures store.Unconfused(group, Types(types)) ==> next.entries == Filtered(Replay(store.db, group), Types(types))
  {
    var state := store.GetFilteredStateForGroup(group, types);
    state.entries := adjusted;
    if purge {
      store.Purge();
    }
    for i := 0 to |arm|
      invariant store.Valid()
    {
      store.SetArmed(arm[i]);
    }
    next := store.GetFilteredStateForGroup(group, types);
  }

  /** Both filters of the one keep what the filter in memory of the other keeps. */
  ghost predicate KeepsAlike(p: Question, q: Question) {
    forall k :: (p.Keeps(k) <==> q.Keeps(k)) && (p.SqlKeeps(k) <==> q.Keeps(k))
  }

  lemma AlikeAnswers(m: Entries, p: Question, q: Question)
    requires KeepsAlike(p, q)
    ensures Filtered(m, p) == Filtered(m, q) == Restricted(m, Some(p))
  {}

  lemma ProperAgree(q: Question)
    requires q.Proper()
    ensures forall k :: q.SqlKeeps(k) <==> q.Keeps(k)
  {
    if q.Members? {
      FiltersAgree(q.server);
    }
  }

  /** Two questions that ask under one key keep the same entries. */
  lemma KeyTellsQuestion(p: Question, q: Question)
    requires p.Proper() && q.Proper() && p.Filter() == q.Filter()
    ensures forall k :: p.Keeps(k) <==> q.Keeps(k)
  {
    match (p, q)
    case (Types(a), Types(b)) =>
      CommaFreeFilter(a, b);
      forall k: StateKey ensures k.kind in a <==> k.kind in b {
        assert k.kind in a <==> k.kind in multiset(a);
      }
    case (Members(a), Members(b)) => MembersFilterIdentifies(a, b);
    case (Types(a), Members(b)) => FilterKindsDiffer(a, b);
    case (Members(a), Types(b)) => FilterKindsDiffer(b, a);
  }
}
