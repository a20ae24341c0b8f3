/**
 * The caches of the store as one: armed, emptied and invalidated together.
 */
module StoreCaches {
  import opened LruCache

  class Caches<G(==), E(==), D(==), F(==), S, V> {
    const stateGroups: LRU<G, S>
    const events: LRU<E, V>
    const eventStateGroup: LRU<E, G>
    const authChains: LRU<D, seq<E>>
    const filteredState: LRU<F, S>

    constructor (stateGroupsBytes: int, eventsBytes: int, eventStateGroupBytes: int, authChainsBytes: int,
        filteredStateBytes: int)
      ensures Valid() && CachesArmed()
    {
      stateGroups := new LRU(stateGroupsBytes);
      events := new LRU(eventsBytes);
      eventStateGroup := new LRU(eventStateGroupBytes);
      authChains := new LRU(authChainsBytes);
      filteredState := new LRU(filteredStateBytes);
    }

    ghost predicate Separate() {
      && stateGroups as object != events && stateGroups as object != eventStateGroup &&
          stateGroups as object != authChains
      && stateGroups as object != filteredState && events as object != eventStateGroup && events as object != authChains
      && events as object != filteredState && eventStateGroup as object != authChains
      && eventStateGroup as object != filteredState && authChains as object != filteredState
    }

    ghost predicate Valid()
      reads stateGroups, events, eventStateGroup, authChains, filteredState
    {
      Separate() && stateGroups.Valid() && events.Valid() && eventStateGroup.Valid() && authChains.Valid() &&
          filteredState.Valid()
    }

    ghost predicate AllEmpty()
      requires Valid()
      reads stateGroups, events, eventStateGroup, authChains, filteredState
    {
      && stateGroups.Items() == [] && events.Items() == [] && eventStateGroup.Items() == []
      && authChains.Items() == [] && filteredState.Items() == []
    }

    /** The state caches: whole maps and filtered ones. */
    method ArmStates(armed: bool)
      requires Valid()
      modifies stateGroups, filteredState
      ensures Valid()
      ensures stateGroups.State() == Step(old(stateGroups.State()), Arm(armed), stateGroups.maxBytes)
      ensures filteredState.State() == Step(old(filteredState.State()), Arm(armed), filteredState.maxBytes)
    {
      stateGroups.SetArmed(armed);
      filteredState.SetArmed(armed);
    }

    /** The caches of events and auth chains. */
    method ArmEvents(armed: bool)
      requires Valid()
      modifies events, eventStateGroup, authChains
      ensures Valid()
      ensures events.State() == Step(old(events.State()), Arm(armed), events.maxBytes)
      ensures eventStateGroup.State() == Step(old(eventStateGroup.State()), Arm(armed), eventStateGroup.maxBytes)
      ensures authChains.State() == Step(old(authChains.State()), Arm(armed), authChains.maxBytes)
    {
      events.SetArmed(armed);
      eventStateGroup.SetArmed(armed);
      authChains.SetArmed(armed);
    }

    /** Arms or disarms every cache; disarming empties them all, arming brings nothing back. */
    method SetCachesArmed(armed: bool)
      requires Valid()
      modifies stateGroups, events, eventStateGroup, authChains, filteredState
      ensures Valid()
      ensures stateGroups.State() == Step(old(stateGroups.State()), Arm(armed), stateGroups.maxBytes)
      ensures events.State() == Step(old(events.State()), Arm(armed), events.maxBytes)
      ensures eventStateGroup.State() == Step(old(eventStateGroup.State()), Arm(armed), eventStateGroup.maxBytes)
      ensures authChains.State() == Step(old(authChains.State()), Arm(armed), authChains.maxBytes)
      ensures filteredState.State() == Step(old(filteredState.State()), Arm(armed), filteredState.maxBytes)
      ensures CachesArmed() == armed && (!armed ==> AllEmpty())
    {
      ArmStates(armed);
      ArmEvents(armed);
    }

    /** Empties every cache without disarming any. */
    method PurgeCaches()
      requires Valid()
      modifies stateGroups, events, eventStateGroup, authChains, filteredState
      ensures Valid() && AllEmpty()
      ensures stateGroups.armed == old(stateGroups.armed) && events.armed == old(events.armed) &&
              eventStateGroup.armed == old(eventStateGroup.armed)
      ensures authChains.armed == old(authChains.armed) && filteredState.armed == old(filteredState.armed)
    {
      stateGroups.Purge();
      events.Purge();
      eventStateGroup.Purge();
      authChains.Purge();
      filteredState.Purge();
    }

    /** Drops one event from the two caches that are keyed by events, and nothing else from any. */
    method DropEvent(event: E)
      requires Valid()
      modifies events, eventStateGroup
      ensures Valid()
      ensures events.State() == Step(old(events.State()), Drop(event), events.maxBytes)
      ensures eventStateGroup.State() == Step(old(eventStateGroup.State()), Drop(event), eventStateGroup.maxBytes)
      ensures !HasKey(events.Items(), event) && !HasKey(eventStateGroup.Items(), event)
    {
      WithoutIn(events.Items(), event);
      WithoutIn(eventStateGroup.Items(), event);
      events.Remove(event);
      eventStateGroup.Remove(event);
    }

    predicate CachesArmed()
      reads events
    {
      events.armed
    }
  }
}
