/**
 * The byte-bounded least-recently-used cache: a map of entries, a recency list over the same entries
 * and a running byte count, each updated by its own statement in every method. What they implement is
 * one list of items, the most recent first.
 */
module LruCache {
  import opened Basics

  datatype Item<K, V> = Item(key: K, value: V, size: nat)

  // ---------------------------------------------------------------- the specification

  ghost function TotalSize<K, V>(items: seq<Item<K, V>>): nat {
    if items == [] then 0 else items[0].size + TotalSize(items[1..])
  }

  ghost function Without<K, V>(items: seq<Item<K, V>>, key: K): seq<Item<K, V>>
  {
    if items == [] then []
    else if items[0].key == key then Without(items[1..], key)
    else [items[0]] + Without(items[1..], key)
  }

  ghost predicate HasKey<K, V>(items: seq<Item<K, V>>, key: K) {
    exists i :: 0 <= i < |items| && items[i].key == key
  }

  ghost predicate UniqueKeys<K, V>(items: seq<Item<K, V>>) {
    forall i, j :: 0 <= i < j < |items| ==> items[i].key != items[j].key
  }

  /** What eviction leaves: entries go from the least recent end until the rest fits. */
  ghost function Evicted<K, V>(items: seq<Item<K, V>>, maxBytes: int): seq<Item<K, V>> {
    if items == [] || TotalSize(items) <= maxBytes then items
    else Evicted(items[..|items| - 1], maxBytes)
  }

  /** The items after storing one more; an entry larger than the whole cache is not stored. */
  ghost function Stored<K, V>(items: seq<Item<K, V>>, it: Item<K, V>, maxBytes: int): seq<Item<K, V>> {
    if it.size > maxBytes then items else Evicted([it] + Without(items, it.key), maxBytes)
  }

  lemma {:induction false} TotalSizeSplit<K, V>(a: seq<Item<K, V>>, b: seq<Item<K, V>>)
    ensures TotalSize(a + b) == TotalSize(a) + TotalSize(b)
  {
    if a == [] {
      assert a + b == b;
    } else {
      assert (a + b)[1..] == a[1..] + b;
      TotalSizeSplit(a[1..], b);
    }
  }

  /**
   * Eviction keeps the longest prefix that fits: what is kept is a prefix, it fits (or nothing is
   * left), and every longer prefix overflows the bound.
   */
  lemma {:induction false} EvictsShortestSuffix<K, V>(items: seq<Item<K, V>>, maxBytes: int)
    ensures var kept := Evicted(items, maxBytes);
            && kept <= items
            && (kept == [] || TotalSize(kept) <= maxBytes)
            && forall n :: |kept| < n <= |items| ==> TotalSize(items[..n]) > maxBytes
  {
    assert items[..|items|] == items;
    if items != [] && TotalSize(items) > maxBytes {
      var shorter := items[..|items| - 1];
      EvictsShortestSuffix(shorter, maxBytes);
      var kept := Evicted(items, maxBytes);
      forall n | |kept| < n <= |items| ensures TotalSize(items[..n]) > maxBytes {
        if n < |items| {
          assert items[..n] == shorter[..n];
        }
      }
    }
  }

  /** The entry just stored is never the victim. */
  lemma StoredKeepsNewest<K, V>(items: seq<Item<K, V>>, it: Item<K, V>, maxBytes: int)
    requires it.size <= maxBytes
    ensures var r := Stored(items, it, maxBytes);
            && r != [] && r[0] == it
            && TotalSize(r) <= maxBytes
  {
    var all := [it] + Without(items, it.key);
    EvictsShortestSuffix(all, maxBytes);
    var kept := Evicted(all, maxBytes);
    assert all[..1] == [it] && TotalSize([it]) == it.size;
  }

  lemma {:induction false} WithoutMembers<K, V>(items: seq<Item<K, V>>, key: K)
    ensures var r := Without(items, key);
            && (forall i :: 0 <= i < |r| ==> r[i] in items && r[i].key != key)
            && (forall i :: 0 <= i < |items| && items[i].key != key ==> items[i] in r)
  {
    if items != [] {
      WithoutMembers(items[1..], key);
    }
  }

  /** The same by membership: what is left is what does not have the key. */
  lemma {:induction false} WithoutIn<K, V>(items: seq<Item<K, V>>, key: K)
    ensures forall x :: x in Without(items, key) ==> x in items && x.key != key
    ensures !HasKey(Without(items, key), key)
  {
    if items != [] {
      WithoutIn(items[1..], key);
      assert items == [items[0]] + items[1..];
    }
  }

  lemma {:induction false} WithoutUnique<K, V>(items: seq<Item<K, V>>, key: K)
    requires UniqueKeys(items)
    ensures UniqueKeys(Without(items, key))
  {
    if items != [] {
      WithoutUnique(items[1..], key);
      WithoutMembers(items[1..], key);
    }
  }

  lemma {:induction false} WithoutJoin<K, V>(a: seq<Item<K, V>>, b: seq<Item<K, V>>, key: K)
    ensures Without(a + b, key) == Without(a, key) + Without(b, key)
  {
    if a == [] {
      assert a + b == b;
    } else {
      assert (a + b)[1..] == a[1..] + b;
      WithoutJoin(a[1..], b, key);
    }
  }

  /** Taking out the one item that holds a key is taking out that position. */
  lemma WithoutAt<K, V>(items: seq<Item<K, V>>, i: nat)
    requires UniqueKeys(items) && i < |items|
    ensures Without(items, items[i].key) == items[..i] + items[i + 1..]
    ensures TotalSize(items) == TotalSize(items[..i] + items[i + 1..]) + items[i].size
  {
    SplitAt(items, i);
    UniqueAround(items, i);
    WithoutMiddle(items[..i], items[i], items[i + 1..]);
  }

  lemma UniqueAround<K, V>(items: seq<Item<K, V>>, i: nat)
    requires UniqueKeys(items) && i < |items|
    ensures !HasKey(items[..i], items[i].key) && !HasKey(items[i + 1..], items[i].key)
  {}

  lemma WithoutMiddle<K, V>(a: seq<Item<K, V>>, it: Item<K, V>, b: seq<Item<K, V>>)
    requires !HasKey(a, it.key) && !HasKey(b, it.key)
    ensures Without(a + ([it] + b), it.key) == a + b
    ensures TotalSize(a + ([it] + b)) == TotalSize(a + b) + it.size
  {
    WithoutJoin(a, [it] + b, it.key);
    WithoutAbsent(a, it.key);
    WithoutAbsent(b, it.key);
    assert ([it] + b)[1..] == b;
    TotalSizeSplit(a, [it] + b);
    TotalSizeSplit([it], b);
    TotalSizeSplit(a, b);
    SizeOfOne(it);
  }

  lemma SizeOfOne<K, V>(it: Item<K, V>)
    ensures TotalSize([it]) == it.size
  {
    assert [it][1..] == [];
  }

  lemma {:induction false} WithoutAbsent<K, V>(items: seq<Item<K, V>>, key: K)
    requires !HasKey(items, key)
    ensures Without(items, key) == items
  {
    if items != [] {
      WithoutAbsent(items[1..], key);
      assert items == [items[0]] + items[1..];
    }
  }

  lemma {:induction false} TotalSizeWithout<K, V>(items: seq<Item<K, V>>, key: K)
    ensures TotalSize(Without(items, key)) <= TotalSize(items)
  {
    if items != [] {
      TotalSizeWithout(items[1..], key);
      TotalSizeSplit([items[0]], Without(items[1..], key));
    }
  }

  // ---------------------------------------------------------------- runs

  datatype Op<K, V> = LookUp(key: K) | Store(item: Item<K, V>) | Drop(key: K) | Empty | Arm(on: bool)

  datatype Model<K, V> = Model(armed: bool, items: seq<Item<K, V>>)

  ghost function Find<K, V>(items: seq<Item<K, V>>, key: K): (it: Item<K, V>)
    requires HasKey(items, key)
    ensures it in items && it.key == key
  {
    var i :| 0 <= i < |items| && items[i].key == key;
    items[i]
  }

  ghost function Touched<K, V>(items: seq<Item<K, V>>, key: K): seq<Item<K, V>> {
    if HasKey(items, key) then [Find(items, key)] + Without(items, key) else items
  }

  ghost function Step<K, V>(m: Model<K, V>, op: Op<K, V>, maxBytes: int): Model<K, V> {
    match op
    case LookUp(k) => if m.armed && maxBytes > 0 then m.(items := Touched(m.items, k)) else m
    case Store(it) => if m.armed && maxBytes > 0 then m.(items := Stored(m.items, it, maxBytes)) else m
    case Drop(k) => m.(items := Without(m.items, k))
    case Empty => m.(items := [])
    case Arm(on) => Model(on, if on then m.items else [])
  }

  ghost function Run<K, V>(m: Model<K, V>, ops: seq<Op<K, V>>, maxBytes: int): Model<K, V> {
    if ops == [] then m else Step(Run(m, ops[..|ops| - 1], maxBytes), ops[|ops| - 1], maxBytes)
  }

  ghost predicate Bounded<K, V>(m: Model<K, V>, maxBytes: int) {
    && UniqueKeys(m.items)
    && (m.items == [] || TotalSize(m.items) <= maxBytes)
    && (!m.armed ==> m.items == [])
  }

  ghost predicate ArmedAfter<K, V>(armed: bool, ops: seq<Op<K, V>>) {
    if ops == [] then armed
    else if ops[|ops| - 1].Arm? then ops[|ops| - 1].on
    else ArmedAfter(armed, ops[..|ops| - 1])
  }

  /**
   * The last entry a history admitted under a key and has not taken back since: by a removal of the
   * key, by emptying the cache, or by disarming it. Eviction and lookups play no part in it.
   */
  ghost function Latest<K, V>(armed: bool, ops: seq<Op<K, V>>, key: K, maxBytes: int): Option<Item<K, V>> {
    if ops == [] then None
    else
      var before := ops[..|ops| - 1];
      match ops[|ops| - 1]
      case LookUp(_) => Latest(armed, before, key, maxBytes)
      case Store(it) =>
        if it.key == key && ArmedAfter(armed, before) && 0 < maxBytes && it.size <= maxBytes then Some(it)
        else Latest(armed, before, key, maxBytes)
      case Drop(k) => if k == key then None else Latest(armed, before, key, maxBytes)
      case Empty => None
      case Arm(on) => if on then Latest(armed, before, key, maxBytes) else None
  }

  lemma PrefixUnique<K, V>(p: seq<Item<K, V>>, s: seq<Item<K, V>>)
    requires p <= s && UniqueKeys(s)
    ensures UniqueKeys(p)
  {
    assert forall i :: 0 <= i < |p| ==> p[i] == s[i];
  }

  lemma ConsUnique<K, V>(it: Item<K, V>, rest: seq<Item<K, V>>)
    requires UniqueKeys(rest) && !HasKey(rest, it.key)
    ensures UniqueKeys([it] + rest)
  {}

  lemma StoredMembers<K, V>(items: seq<Item<K, V>>, it: Item<K, V>, maxBytes: int)
    requires UniqueKeys(items) && it.size <= maxBytes
    ensures UniqueKeys(Stored(items, it, maxBytes))
    ensures forall x :: x in Stored(items, it, maxBytes) ==> x == it || (x in items && x.key != it.key)
  {
    var all := [it] + Without(items, it.key);
    WithoutUnique(items, it.key);
    WithoutIn(items, it.key);
    ConsUnique(it, Without(items, it.key));
    EvictsShortestSuffix(all, maxBytes);
    PrefixUnique(Evicted(all, maxBytes), all);
    PrefixMembers(Evicted(all, maxBytes), all);
    ElementsJoin([it], Without(items, it.key));
  }

  lemma FindAt<K, V>(items: seq<Item<K, V>>, i: nat)
    requires UniqueKeys(items) && i < |items|
    ensures HasKey(items, items[i].key) && Find(items, items[i].key) == items[i]
  {}

  lemma TouchedMembers<K, V>(items: seq<Item<K, V>>, key: K)
    requires UniqueKeys(items)
    ensures UniqueKeys(Touched(items, key)) && TotalSize(Touched(items, key)) == TotalSize(items)
    ensures forall x :: x in Touched(items, key) ==> x in items
  {
    if HasKey(items, key) {
      var i :| 0 <= i < |items| && items[i].key == key;
      FindAt(items, i);
      TouchedSize(items, i);
      WithoutUnique(items, key);
      WithoutIn(items, key);
      ConsUnique(items[i], Without(items, key));
      ElementsJoin([items[i]], Without(items, key));
    }
  }

  lemma TouchedSize<K, V>(items: seq<Item<K, V>>, i: nat)
    requires UniqueKeys(items) && i < |items|
    ensures TotalSize([items[i]] + Without(items, items[i].key)) == TotalSize(items)
  {
    WithoutAt(items, i);
    TotalSizeSplit([items[i]], Without(items, items[i].key));
  }

  lemma StepBounded<K, V>(m: Model<K, V>, op: Op<K, V>, maxBytes: int)
    requires Bounded(m, maxBytes)
    ensures Bounded(Step(m, op, maxBytes), maxBytes)
  {
    match op
    case LookUp(k) => TouchedMembers(m.items, k);
    case Store(it) =>
      if m.armed && 0 < maxBytes && it.size <= maxBytes {
        StoredMembers(m.items, it, maxBytes);
        StoredKeepsNewest(m.items, it, maxBytes);
      }
    case Drop(k) =>
      WithoutUnique(m.items, k);
      TotalSizeWithout(m.items, k);
    case Empty =>
    case Arm(on) =>
  }

  lemma {:induction false} SizeWithin<K, V>(items: seq<Item<K, V>>, it: Item<K, V>)
    requires it in items
    ensures it.size <= TotalSize(items)
  {
    assert items == [items[0]] + items[1..];
    if it != items[0] {
      SizeWithin(items[1..], it);
    }
  }

  /**
   * After an Add to a cache that is on, its key holds the new entry exactly if that fits the cache. One that
   * does not leaves an older entry of its key in place, to be served on.
   */
  lemma AddTakesEffect<K, V>(m: Model<K, V>, it: Item<K, V>, maxBytes: int)
    requires Bounded(m, maxBytes) && m.armed && 0 < maxBytes
    ensures var after := Step(m, Store(it), maxBytes).items;
            && (HasKey(after, it.key) && Find(after, it.key) == it <==> it.size <= maxBytes)
            && (maxBytes < it.size && HasKey(m.items, it.key) ==>
                HasKey(after, it.key) && Find(after, it.key) == Find(m.items, it.key))
  {
    if it.size <= maxBytes {
      StepBounded(m, Store(it), maxBytes);
      StoredKeepsNewest(m.items, it, maxBytes);
      FindAt(Stored(m.items, it, maxBytes), 0);
    } else if it in m.items {
      SizeWithin(m.items, it);
    }
  }

  /** An operation brings in nothing but the item it stores. */
  lemma StepMembers<K, V>(m: Model<K, V>, op: Op<K, V>, maxBytes: int)
    requires Bounded(m, maxBytes)
    ensures forall x :: x in Step(m, op, maxBytes).items ==> x in m.items || (op.Store? && x == op.item)
  {
    match op
    case LookUp(k) => TouchedMembers(m.items, k);
    case Store(it) =>
      if it.size <= maxBytes {
        StoredMembers(m.items, it, maxBytes);
      }
    case Drop(k) => WithoutIn(m.items, k);
    case Empty =>
    case Arm(on) =>
  }

  /**
   * Over every run from an empty cache: the keys stay distinct, the byte bound holds after every
   * operation, a disarmed cache is empty, and whatever is held under a key is exactly the last entry
   * admitted under it and not since taken back. In particular nothing held when the cache is disarmed
   * is ever served again unless it is added again.
   */
  lemma {:induction false} HeldIsLatest<K, V>(armed: bool, ops: seq<Op<K, V>>, maxBytes: int)
    ensures var m := Run(Model(armed, []), ops, maxBytes);
            && Bounded(m, maxBytes)
            && m.armed == ArmedAfter(armed, ops)
            && forall it :: it in m.items ==> Latest(armed, ops, it.key, maxBytes) == Some(it)
  {
    if ops != [] {
      var before, op := ops[..|ops| - 1], ops[|ops| - 1];
      var m := Run(Model(armed, []), before, maxBytes);
      HeldIsLatest(armed, before, maxBytes);
      StepBounded(m, op, maxBytes);
      StepMembers(m, op, maxBytes);
      if op.Drop? {
        WithoutMembers(m.items, op.key);
      } else if op.Store? && m.armed && 0 < maxBytes && op.item.size <= maxBytes {
        StoredMembers(m.items, op.item, maxBytes);
      }
    }
  }

  // ---------------------------------------------------------------- recency

  /** The operation uses the key: it stores it in an enabled cache it fits, or finds it there. */
  ghost predicate Uses<K, V>(m: Model<K, V>, op: Op<K, V>, key: K, maxBytes: int) {
    && m.armed && 0 < maxBytes
    && ((op.Store? && op.item.key == key && op.item.size <= maxBytes) ||
        (op.LookUp? && op.key == key && HasKey(m.items, key)))
  }

  /** When a key was last used: the number of the operation, counted from one, or zero if it never was. */
  ghost function LastUse<K, V>(armed: bool, ops: seq<Op<K, V>>, key: K, maxBytes: int): nat {
    if ops == [] then 0
    else
      var before := ops[..|ops| - 1];
      if Uses(Run(Model(armed, []), before, maxBytes), ops[|ops| - 1], key, maxBytes) then |ops|
      else LastUse(armed, before, key, maxBytes)
  }

  /** The items stand in the order of these times, the latest first. */
  ghost predicate LatestFirst<K, V>(items: seq<Item<K, V>>, time: K -> int) {
    forall i, j :: 0 <= i < j < |items| ==> time(items[i].key) > time(items[j].key)
  }

  ghost predicate AllBefore<K, V>(items: seq<Item<K, V>>, time: K -> int, end: int) {
    forall i :: 0 <= i < |items| ==> time(items[i].key) < end
  }

  lemma {:induction false} WithoutInOrder<K, V>(items: seq<Item<K, V>>, key: K, time: K -> int)
    requires LatestFirst(items, time)
    ensures LatestFirst(Without(items, key), time)
  {
    if items != [] {
      var rest := items[1..];
      assert forall i :: 0 <= i < |rest| ==> rest[i] == items[i + 1];
      WithoutInOrder(rest, key, time);
      WithoutMembers(rest, key);
      forall x | x in Without(rest, key) ensures time(items[0].key) > time(x.key) {
        WithoutIn(rest, key);
        var i :| 0 <= i < |rest| && rest[i] == x;
      }
    }
  }

  lemma PrefixInOrder<K, V>(p: seq<Item<K, V>>, s: seq<Item<K, V>>, time: K -> int)
    requires p <= s && LatestFirst(s, time)
    ensures LatestFirst(p, time)
  {
    assert forall i :: 0 <= i < |p| ==> p[i] == s[i];
  }

  lemma ConsInOrder<K, V>(it: Item<K, V>, rest: seq<Item<K, V>>, time: K -> int)
    requires LatestFirst(rest, time) && AllBefore(rest, time, time(it.key))
    ensures LatestFirst([it] + rest, time)
  {}

  /**
   * The order of the items is that of the times wherever these give the same time to every key but one that is absent.
   */
  lemma SameTimes<K, V>(items: seq<Item<K, V>>, key: K, was: K -> int, time: K -> int)
    requires LatestFirst(items, was) && !HasKey(items, key) && forall k :: k != key ==> time(k) == was(k)
    ensures LatestFirst(items, time)
  {
    assert forall i :: 0 <= i < |items| ==> items[i].key != key;
  }

  ghost predicate UsedBy<K, V>(items: seq<Item<K, V>>, time: K -> int, end: int) {
    forall x :: x in items ==> 0 < time(x.key) <= end
  }

  lemma UsesInOrder<K, V>(items: seq<Item<K, V>>, it: Item<K, V>, was: K -> int, time: K -> int, end: int)
    requires LatestFirst(items, was) && UsedBy(items, was, end - 1) && 0 < end
    requires time(it.key) == end && forall k :: k != it.key ==> time(k) == was(k)
    ensures var rest := Without(items, it.key);
            LatestFirst([it] + rest, time) && UsedBy([it] + rest, time, end)
  {
    var rest := Without(items, it.key);
    WithoutInOrder(items, it.key, was);
    WithoutIn(items, it.key);
    SameTimes(rest, it.key, was, time);
    forall i | 0 <= i < |rest| ensures time(rest[i].key) < end {
      assert rest[i] in rest && rest[i] in items;
    }
    ConsInOrder(it, rest, time);
  }

  ghost function Times<K, V>(armed: bool, ops: seq<Op<K, V>>, maxBytes: int): K -> int {
    (k: K) => LastUse(armed, ops, k, maxBytes)
  }

  lemma LookUpInOrder<K, V>(m: Model<K, V>, key: K, maxBytes: int, was: K -> int, time: K -> int, end: int)
    requires m.armed && 0 < maxBytes && HasKey(m.items, key)
    requires LatestFirst(m.items, was) && UsedBy(m.items, was, end - 1) && 0 < end
    requires time(key) == end && forall k :: k != key ==> time(k) == was(k)
    ensures var after := Step(m, LookUp(key), maxBytes).items; LatestFirst(after, time) && UsedBy(after, time, end)
  {
    UsesInOrder(m.items, Find(m.items, key), was, time, end);
  }

  lemma StoreInOrder<K, V>(m: Model<K, V>, it: Item<K, V>, maxBytes: int, was: K -> int, time: K -> int, end: int)
    requires m.armed && 0 < maxBytes && it.size <= maxBytes
    requires LatestFirst(m.items, was) && UsedBy(m.items, was, end - 1) && 0 < end
    requires time(it.key) == end && forall k :: k != it.key ==> time(k) == was(k)
    ensures var after := Step(m, Store(it), maxBytes).items; LatestFirst(after, time) && UsedBy(after, time, end)
  {
    var all := [it] + Without(m.items, it.key);
    UsesInOrder(m.items, it, was, time, end);
    EvictsShortestSuffix(all, maxBytes);
    PrefixInOrder(Evicted(all, maxBytes), all, time);
    PrefixMembers(Evicted(all, maxBytes), all);
  }

  lemma IdleInOrder<K, V>(m: Model<K, V>, op: Op<K, V>, maxBytes: int, time: K -> int, end: int)
    requires forall k :: !Uses(m, op, k, maxBytes)
    requires LatestFirst(m.items, time) && UsedBy(m.items, time, end)
    ensures var after := Step(m, op, maxBytes).items; LatestFirst(after, time) && UsedBy(after, time, end)
  {
    match op
    case LookUp(k) => assert !Uses(m, op, k, maxBytes);
    case Store(it) => assert !Uses(m, op, it.key, maxBytes);
    case Drop(k) =>
      WithoutInOrder(m.items, k, time);
      WithoutIn(m.items, k);
    case Empty =>
    case Arm(on) =>
  }

  /**
   * After any run the items stand in the order in which their keys were last used, by an admission or a
   * successful lookup, the latest first. What eviction drops from the end is what was used longest ago.
   */
  lemma {:induction false} LeastRecentIsLast<K, V>(armed: bool, ops: seq<Op<K, V>>, maxBytes: int)
    ensures var items := Run(Model(armed, []), ops, maxBytes).items;
            && (forall x :: x in items ==> 0 < LastUse(armed, ops, x.key, maxBytes) <= |ops|)
            && forall i, j :: 0 <= i < j < |items| ==>
                 LastUse(armed, ops, items[i].key, maxBytes) > LastUse(armed, ops, items[j].key, maxBytes)
  {
    RunInOrder(armed, ops, maxBytes);
    var items, time := Run(Model(armed, []), ops, maxBytes).items, Times(armed, ops, maxBytes);
    assert forall x :: x in items ==> 0 < time(x.key) <= |ops|;
    assert forall i, j :: 0 <= i < j < |items| ==> time(items[i].key) > time(items[j].key);
  }

  lemma {:induction false} RunInOrder<K, V>(armed: bool, ops: seq<Op<K, V>>, maxBytes: int)
    ensures LatestFirst(Run(Model(armed, []), ops, maxBytes).items, Times(armed, ops, maxBytes))
    ensures UsedBy(Run(Model(armed, []), ops, maxBytes).items, Times(armed, ops, maxBytes), |ops|)
  {
    if ops != [] {
      var before, op := ops[..|ops| - 1], ops[|ops| - 1];
      var m := Run(Model(armed, []), before, maxBytes);
      var was, time := Times(armed, before, maxBytes), Times(armed, ops, maxBytes);
      RunInOrder(armed, before, maxBytes);
      if op.LookUp? && Uses(m, op, op.key, maxBytes) {
        LookUpInOrder(m, op.key, maxBytes, was, time, |ops|);
      } else if op.Store? && Uses(m, op, op.item.key, maxBytes) {
        StoreInOrder(m, op.item, maxBytes, was, time, |ops|);
      } else {
        SameOrder(m.items, was, time, |before|);
        IdleInOrder(m, op, maxBytes, time, |ops|);
      }
    }
  }

  lemma SameOrder<K, V>(items: seq<Item<K, V>>, was: K -> int, time: K -> int, end: int)
    requires LatestFirst(items, was) && UsedBy(items, was, end) && forall k :: time(k) == was(k)
    ensures LatestFirst(items, time) && UsedBy(items, time, end + 1)
  {}

  // ---------------------------------------------------------------- the structure

  /** The list both fields stand for: the entries in recency order. */
  ghost function Arrange<K, V>(order: seq<K>, entries: map<K, Item<K, V>>): (r: seq<Item<K, V>>)
    requires forall k :: k in order ==> k in entries
    ensures |r| == |order| && forall i :: 0 <= i < |r| ==> r[i] == entries[order[i]]
  {
    seq(|order|, i requires 0 <= i < |order| => entries[order[i]])
  }

  /** The map and the list hold the same keys, each once, every entry under its own key. */
  ghost predicate Linked<K, V>(order: seq<K>, entries: map<K, Item<K, V>>) {
    && Distinct(order)
    && (forall k :: k in order ==> k in entries)
    && (forall k :: k in entries ==> k in order)
    && (forall k :: k in entries ==> entries[k].key == k)
  }

  lemma LinkedUnique<K, V>(order: seq<K>, entries: map<K, Item<K, V>>)
    requires Linked(order, entries)
    ensures UniqueKeys(Arrange(order, entries))
  {
    var items := Arrange(order, entries);
    assert forall i :: 0 <= i < |items| ==> items[i].key == order[i];
  }

  lemma LinkedKey<K, V>(order: seq<K>, entries: map<K, Item<K, V>>, key: K)
    requires Linked(order, entries)
    ensures key in entries <==> HasKey(Arrange(order, entries), key)
    ensures key in entries ==> Find(Arrange(order, entries), key) == entries[key]
  {
    var items := Arrange(order, entries);
    if key in entries {
      var i :| 0 <= i < |order| && order[i] == key;
      LinkedUnique(order, entries);
      FindAt(items, i);
    }
    forall i | 0 <= i < |items| ensures items[i].key in entries {
      assert items[i].key == order[i] && order[i] in order;
    }
  }

  lemma LinkedLess<K, V>(order: seq<K>, entries: map<K, Item<K, V>>, i: nat)
    requires Linked(order, entries) && i < |order|
    ensures Linked(order[..i] + order[i + 1..], entries - {order[i]})
  {
    DropMembers(order, i);
  }

  lemma ArrangeLess<K, V>(order: seq<K>, entries: map<K, Item<K, V>>, i: nat)
    requires Linked(order, entries) && i < |order|
    requires Linked(order[..i] + order[i + 1..], entries - {order[i]})
    ensures var items := Arrange(order, entries);
            Arrange(order[..i] + order[i + 1..], entries - {order[i]}) == items[..i] + items[i + 1..]
  {}

  lemma LinkedDrop<K, V>(order: seq<K>, entries: map<K, Item<K, V>>, i: nat)
    requires Linked(order, entries) && i < |order|
    ensures var order', entries' := order[..i] + order[i + 1..], entries - {order[i]};
            && Linked(order', entries')
            && Arrange(order', entries') == Without(Arrange(order, entries), order[i])
            && TotalSize(Arrange(order, entries)) == TotalSize(Arrange(order', entries')) + entries[order[i]].size
  {
    var items := Arrange(order, entries);
    LinkedLess(order, entries, i);
    LinkedUnique(order, entries);
    WithoutAt(items, i);
    assert items[i].key == order[i];
    ArrangeLess(order, entries, i);
  }

  lemma LinkedWith<K, V>(order: seq<K>, entries: map<K, Item<K, V>>, it: Item<K, V>)
    requires Linked(order, entries) && it.key !in entries
    ensures Linked([it.key] + order, entries[it.key := it])
  {
    PushMembers(order, it.key);
  }

  lemma LinkedPush<K, V>(order: seq<K>, entries: map<K, Item<K, V>>, it: Item<K, V>)
    requires Linked(order, entries) && it.key !in entries
    ensures var order', entries' := [it.key] + order, entries[it.key := it];
            && Linked(order', entries')
            && Arrange(order', entries') == [it] + Arrange(order, entries)
            && TotalSize(Arrange(order', entries')) == it.size + TotalSize(Arrange(order, entries))
  {
    var order', entries' := [it.key] + order, entries[it.key := it];
    LinkedWith(order, entries, it);
    assert Arrange(order', entries') == [it] + Arrange(order, entries);
    assert ([it] + Arrange(order, entries))[1..] == Arrange(order, entries);
  }

  class LRU<K(==), V> {
    const maxBytes: int
    var armed: bool
    var entries: map<K, Item<K, V>>
    var order: seq<K>   // front is most recently used
    var bytes: int
    var hits: nat
    var misses: nat
    var evictions: nat

    /** All of Valid but the byte bound: what holds while a write is waiting for eviction. */
    ghost predicate Consistent()
      reads this
    {
      Linked(order, entries) && bytes == TotalSize(Arrange(order, entries))
    }

    ghost predicate Valid()
      reads this
    {
      && Consistent()
      && (order == [] || bytes <= maxBytes)
      && (!armed ==> order == [])
    }

    ghost function Items(): seq<Item<K, V>>
      reads this
      requires Consistent()
    {
      Arrange(order, entries)
    }

    /** What the cache is to its callers: a state of the runs above. */
    ghost function State(): Model<K, V>
      reads this
      requires Consistent()
    {
      Model(armed, Items())
    }

    lemma StateBounded()
      requires Valid()
      ensures Bounded(State(), maxBytes)
    {
      LinkedUnique(order, entries);
    }

    constructor (maxBytes: int)
      ensures Valid() && State() == Model(true, []) && this.maxBytes == maxBytes
    {
      this.maxBytes := maxBytes;
      armed := true;
      entries, order, bytes := map[], [], 0;
      hits, misses, evictions := 0, 0, 0;
    }

    predicate Enabled()
      reads this
    {
      maxBytes > 0 && armed
    }

    /** Purge empties the cache and leaves it armed or disarmed as it was. */
    method Purge()
      requires Consistent()
      modifies this
      ensures Valid() && State() == Step(old(State()), Empty, maxBytes)
    {
      entries, order, bytes := map[], [], 0;
    }

    /** Disarming also empties the cache. */
    method SetArmed(armed: bool)
      requires Valid()
      modifies this
      ensures Valid() && State() == Step(old(State()), Arm(armed), maxBytes)
    {
      this.armed := armed;
      if !armed {
        Purge();
      }
    }

    /** Takes an entry out of the list and the map, wherever it stands in the list. */
    method Unlink(key: K)
      requires Consistent() && key in entries
      modifies this`entries, this`order, this`bytes
      ensures Consistent() && entries == old(entries) - {key}
      ensures Items() == Without(old(Items()), key)
      ensures bytes == old(bytes) - old(entries[key].size)
    {
      var i :| 0 <= i < |order| && order[i] == key;
      LinkedDrop(order, entries, i);
      bytes := bytes - entries[key].size;
      order := order[..i] + order[i + 1..];
      entries := entries - {key};
    }

    /** Puts an entry at the front of the list and into the map. */
    method PushFront(it: Item<K, V>)
      requires Consistent() && it.key !in entries
      modifies this`entries, this`order, this`bytes
      ensures Consistent() && entries == old(entries)[it.key := it]
      ensures Items() == [it] + old(Items())
      ensures bytes == old(bytes) + it.size
    {
      LinkedPush(order, entries, it);
      order := [it.key] + order;
      entries := entries[it.key := it];
      bytes := bytes + it.size;
    }

    method MoveToFront(key: K)
      requires Consistent() && key in entries
      modifies this`entries, this`order, this`bytes
      ensures Consistent() && bytes == old(bytes) && old(order) != [] && order != []
      ensures Items() == [old(entries[key])] + Without(old(Items()), key)
    {
      var it := entries[key];
      assert it.key == key && key in order;
      Unlink(key);
      PushFront(it);
    }

    /** Get returns the stored value and makes its entry the most recent one. */
    method Get(key: K) returns (r: Option<V>)
      requires Valid()
      modifies this
      ensures Valid() && State() == Step(old(State()), LookUp(key), maxBytes)
      ensures r.Some? <==> Enabled() && HasKey(old(Items()), key)
      ensures r.Some? ==> r.value == Find(old(Items()), key).value
      ensures r.Some? ==> Items() != [] && Items()[0].key == key && Items()[1..] == Without(old(Items()), key)
      ensures hits + misses == old(hits + misses) + (if Enabled() then 1 else 0)
      ensures hits == old(hits) + (if r.Some? then 1 else 0)
    {
      if !Enabled() {
        return None;
      }
      LinkedKey(order, entries, key);
      if key !in entries {
        misses := misses + 1;
        return None;
      }
      assert entries[key].key == key;
      hits := hits + 1;
      r := Some(entries[key].value);
      MoveToFront(key);
    }

    /**
     * Add stores a value and evicts from the least recent end until the bound holds. The size is what
     * the cache's Sizer reports for the value.
     */
    method Add(key: K, value: V, size: nat)
      requires Valid()
      modifies this
      ensures Valid() && State() == Step(old(State()), Store(Item(key, value, size)), maxBytes)
    {
      if !Enabled() {
        return;
      }
      if size > maxBytes {
        return;
      }
      LinkedKey(order, entries, key);
      if key in entries {
        Unlink(key);
      } else {
        WithoutAbsent(Items(), key);
      }
      PushFront(Item(key, value, size));
      EvictLocked();
    }

    /** Drops the entry at the back of the list. */
    method EvictOldest()
      requires Consistent() && order != []
      modifies this`entries, this`order, this`bytes, this`evictions
      ensures Consistent() && evictions == old(evictions) + 1 && |order| == |old(order)| - 1
      ensures Items() == old(Items())[..|old(order)| - 1]
    {
      ghost var was := Items();
      LinkedUnique(order, entries);
      WithoutAt(was, |was| - 1);
      assert was[..|was| - 1] + was[|was|..] == was[..|was| - 1];
      Unlink(order[|order| - 1]);
      evictions := evictions + 1;
    }

    method EvictLocked()
      requires Consistent()
      modifies this
      ensures Consistent() && armed == old(armed)
      ensures Items() == Evicted(old(Items()), maxBytes)
      ensures order == [] || bytes <= maxBytes
      ensures evictions == old(evictions) + |old(order)| - |order|
    {
      while bytes > maxBytes
        invariant Consistent() && armed == old(armed)
        invariant Evicted(Items(), maxBytes) == Evicted(old(Items()), maxBytes)
        invariant evictions == old(evictions) + |old(order)| - |order|
        decreases |order|
      {
        if order == [] {
          return;
        }
        EvictOldest();
      }
    }

    /** Removing something absent is not an error. */
    method Remove(key: K)
      requires Valid()
      modifies this
      ensures Valid() && State() == Step(old(State()), Drop(key), maxBytes)
    {
      LinkedKey(order, entries, key);
      if key !in entries {
        WithoutAbsent(Items(), key);
        return;
      }
      Unlink(key);
    }
  }
}
