/**
 * State groups. A group holds full state or a delta against the group before it; resolving it means
 * walking the chain and letting the highest-numbered group win for every key. A filter may be applied
 * below that resolution, by the database, or above it, in memory.
 */
module StateGroups {
  import opened Basics
  import opened CacheKeys

  datatype StateKey = StateKey(kind: string, stateKey: string)

  datatype Row = Row(group: nat, key: StateKey, event: string)

  /** state_group_edges and state_groups_state. */
  datatype Db = Db(edges: map<nat, nat>, rows: set<Row>)

  type Entries = map<StateKey, string>

  /** Groups are numbered above the ones they build on, and a group says one thing about a key. */
  ghost predicate WellFormed(db: Db) {
    && (forall g :: g in db.edges ==> db.edges[g] < g)
    && (forall r, r' :: r in db.rows && r' in db.rows && r.group == r'.group && r.key == r'.key ==> r == r')
  }

  // ---------------------------------------------------------------- what a group's state is

  ghost function Delta(db: Db, g: nat): Entries
    requires WellFormed(db)
  {
    map r | r in db.rows && r.group == g :: r.key := r.event
  }

  /** Replays the deltas from the root of the chain to the group. */
  ghost function Replay(db: Db, g: nat): Entries
    requires WellFormed(db)
  {
    (if g in db.edges then Replay(db, db.edges[g]) else map[]) + Delta(db, g)
  }

  // ---------------------------------------------------------------- what the query computes

  /** The recursive part of the query: the groups along the chain. */
  function Chain(db: Db, g: nat): set<nat>
    requires forall g' :: g' in db.edges ==> db.edges[g'] < g'
  {
    {g} + (if g in db.edges then Chain(db, db.edges[g]) else {})
  }

  /** SELECT DISTINCT ON (type, state_key) ... ORDER BY type, state_key, state_group DESC. */
  ghost predicate DistinctOn(rows: set<Row>, m: Entries) {
    && (forall r :: r in rows ==> r.key in m)
    && (forall k :: k in m ==> Selects(rows, k, m[k]))
  }

  ghost predicate Selects(rows: set<Row>, k: StateKey, event: string) {
    exists r :: r in rows && r.key == k && r.event == event && Newest(rows, r)
  }

  ghost predicate Newest(rows: set<Row>, r: Row) {
    forall r' :: r' in rows && r'.key == r.key ==> r'.group <= r.group
  }

  /** Scans the joined rows in any order and keeps the newest per key. */
  method TakeNewest(rows: set<Row>) returns (m: Entries)
    ensures DistinctOn(rows, m)
  {
    var best: map<StateKey, Row> := map[];
    var todo := rows;
    while todo != {}
      invariant todo <= rows
      invariant forall r :: r in rows - todo ==> r.key in best && r.group <= best[r.key].group
      invariant forall k :: k in best ==> best[k] in rows - todo && best[k].key == k
    {
      var r :| r in todo;
      todo := todo - {r};
      if r.key !in best || best[r.key].group < r.group {
        best := best[r.key := r];
      }
    }
    m := map k | k in best :: best[k].event;
    forall k | k in m ensures Selects(rows, k, m[k]) {
      assert Newest(rows, best[k]);
    }
  }

  ghost predicate OnePerGroup(rows: set<Row>) {
    forall r, r' :: r in rows && r' in rows && r.group == r'.group && r.key == r'.key ==> r == r'
  }

  lemma DistinctOnUnique(rows: set<Row>, a: Entries, b: Entries)
    requires OnePerGroup(rows) && DistinctOn(rows, a) && DistinctOn(rows, b)
    ensures a == b
  {
    forall k | k in a ensures k in b && a[k] == b[k] {
      assert Selects(rows, k, a[k]);
      var r :| r in rows && r.key == k && r.event == a[k] && Newest(rows, r);
      assert Selects(rows, k, b[k]);
      var r' :| r' in rows && r'.key == k && r'.event == b[k] && Newest(rows, r');
    }
    forall k | k in b ensures k in a {
      var r :| r in rows && r.key == k && r.event == b[k] && Newest(rows, r);
    }
  }

  // ---------------------------------------------------------------- filters

  /** The two filtered questions: some event types, or one server's memberships. */
  datatype Question = Types(types: seq<string>) | Members(server: string) {
    function Filter(): string {
      match this
      case Types(types) => TypesFilter(types)
      case Members(server) => MembersFilter(server)
    }

    /** The filter as it is applied in memory. */
    predicate Keeps(k: StateKey) {
      match this
      case Types(types) => k.kind in types
      case Members(server) => k.kind == "m.room.member" && HasSuffix(k.stateKey, ":" + server)
    }

    /** The filter as the database applies it. */
    predicate SqlKeeps(k: StateKey) {
      match this
      case Types(types) => k.kind in types
      case Members(server) => k.kind == "m.room.member" && Like("%" + ":" + server, k.stateKey)
    }

    /** Questions on which the two filters agree and whose keys tell them apart. */
    ghost predicate Proper() {
      match this
      case Types(types) => CommaFree(types) && types != [""]
      case Members(server) => '%' !in server && '_' !in server && '\\' !in server
    }
  }

  predicate HasSuffix(s: string, suffix: string) {
    |suffix| <= |s| && s[|s| - |suffix|..] == suffix
  }

  /** LIKE with its default escape character. A pattern that ends in one is an error and matches nothing. */
  predicate Like(p: string, s: string)
    decreases |p|
  {
    if p == "" then s == ""
    else if p[0] == '%' then exists k :: 0 <= k <= |s| && Like(p[1..], s[k..])
    else if p[0] == '_' then s != "" && Like(p[1..], s[1..])
    else if p[0] == '\\' then |p| > 1 && s != "" && s[0] == p[1] && Like(p[2..], s[1..])
    else s != "" && s[0] == p[0] && Like(p[1..], s[1..])
  }

  /** What a pattern without wildcards stands for. */
  function Unescaped(p: string): Option<string>
    decreases |p|
  {
    if p == "" then Some("")
    else if p[0] == '\\' then
      if |p| == 1 then None
      else match Unescaped(p[2..]) case None => None case Some(rest) => Some([p[1]] + rest)
    else match Unescaped(p[1..]) case None => None case Some(rest) => Some([p[0]] + rest)
  }

  lemma {:induction false} LikeUnescaped(p: string, s: string)
    requires '%' !in p && '_' !in p
    ensures Like(p, s) <==> Unescaped(p) == Some(s)
    decreases |p|
  {
    if p != "" {
      var n := if p[0] == '\\' then 2 else 1;
      if n <= |p| {
        if s != "" {
          assert s == [s[0]] + s[1..];
          LikeUnescaped(p[n..], s[1..]);
        }
        if Unescaped(p).Some? {
          assert Unescaped(p).value[1..] == Unescaped(p[n..]).value;
        }
      }
    }
  }

  lemma {:induction false} UnescapedShrinks(p: string)
    ensures Unescaped(p).Some? ==> |Unescaped(p).value| <= |p| && ('\\' in p ==> |Unescaped(p).value| < |p|)
    ensures '\\' !in p ==> Unescaped(p) == Some(p)
    decreases |p|
  {
    if p != "" {
      assert p == [p[0]] + p[1..];
      if p[0] != '\\' {
        UnescapedShrinks(p[1..]);
      } else if |p| > 1 {
        UnescapedShrinks(p[2..]);
      }
    }
  }

  lemma LikeSuffix(server: string, s: string)
    requires '%' !in server && '_' !in server
    ensures Like("%" + ":" + server, s) <==>
            Unescaped(":" + server).Some? && HasSuffix(s, Unescaped(":" + server).value)
  {
    var p := ":" + server;
    assert ("%" + ":" + server)[1..] == p;
    forall k | 0 <= k <= |s| ensures Like(p, s[k..]) <==> Unescaped(p) == Some(s[k..]) {
      LikeUnescaped(p, s[k..]);
    }
    if Unescaped(p).Some? && HasSuffix(s, Unescaped(p).value) {
      assert Like(p, s[|s| - |Unescaped(p).value|..]);
    }
  }

  /**
   * The guard refuses server names with a LIKE wildcard in them. For those it lets through, database and
   * memory select the same members exactly when the name has no backslash.
   */
  lemma FiltersAgree(server: string)
    requires '%' !in server && '_' !in server
    ensures (forall k :: Members(server).SqlKeeps(k) <==> Members(server).Keeps(k)) <==> '\\' !in server
  {
    var p := ":" + server;
    UnescapedShrinks(p);
    forall k: StateKey ensures Members(server).SqlKeeps(k) <==>
                                 k.kind == "m.room.member" && Unescaped(p).Some? &&
                                     HasSuffix(k.stateKey, Unescaped(p).value) {
      LikeSuffix(server, k.stateKey);
    }
    if '\\' in server {
      assert '\\' in p;
      var s := if Unescaped(p).Some? then Unescaped(p).value else p;
      var k := StateKey("m.room.member", s);
      assert HasSuffix(s, s);
      assert Members(server).SqlKeeps(k) != Members(server).Keeps(k);
    }
  }

  ghost function Filtered(m: Entries, q: Question): Entries {
    map k | k in m && q.Keeps(k) :: m[k]
  }

  /** The rows the database joins for a question, or for no question at all. */
  ghost function Joined(db: Db, g: nat, q: Option<Question>): set<Row>
    requires WellFormed(db)
  {
    set r | r in db.rows && r.group in Chain(db, g) && (q.Some? ==> q.value.SqlKeeps(r.key))
  }

  ghost function Restricted(m: Entries, q: Option<Question>): Entries {
    map k | k in m && (q.Some? ==> q.value.SqlKeeps(k)) :: m[k]
  }

  lemma {:induction false} ChainBelow(db: Db, g: nat)
    requires WellFormed(db)
    ensures forall x :: x in Chain(db, g) ==> x <= g
  {
    if g in db.edges {
      ChainBelow(db, db.edges[g]);
    }
  }

  lemma DeltaHas(db: Db, g: nat, k: StateKey)
    requires WellFormed(db)
    ensures k in Delta(db, g) <==> exists r :: r in db.rows && r.group == g && r.key == k
    ensures k in Delta(db, g) ==> exists r :: r in db.rows && r.group == g && r.key == k && r.event == Delta(db, g)[k]
  {
    if k in Delta(db, g) {
      var r :| r in db.rows && r.group == g && r.key == k;
      assert Delta(db, g)[r.key] == r.event;
    }
  }

  /** A key the group speaks about is selected from the group itself. */
  lemma SelectOwn(db: Db, g: nat, q: Option<Question>, k: StateKey)
    requires WellFormed(db) && k in Delta(db, g) && (q.Some? ==> q.value.SqlKeeps(k))
    ensures Selects(Joined(db, g, q), k, Delta(db, g)[k])
  {
    DeltaHas(db, g, k);
    ChainBelow(db, g);
    var r :| r in db.rows && r.group == g && r.key == k && r.event == Delta(db, g)[k];
    assert r in Joined(db, g, q) && Newest(Joined(db, g, q), r);
  }

  /** A key it does not speak about is selected as it was for the group before. */
  lemma SelectEarlier(db: Db, g: nat, q: Option<Question>, k: StateKey, event: string)
    requires WellFormed(db) && g in db.edges && k !in Delta(db, g)
    requires Selects(Joined(db, db.edges[g], q), k, event)
    ensures Selects(Joined(db, g, q), k, event)
  {
    var rows, before := Joined(db, g, q), Joined(db, db.edges[g], q);
    DeltaHas(db, g, k);
    var r :| r in before && r.key == k && r.event == event && Newest(before, r);
    assert r in rows;
    assert forall r' :: r' in rows && r'.key == k ==> r' in before;
    assert Newest(rows, r);
  }

  lemma JoinedStep(db: Db, g: nat, q: Option<Question>, r: Row)
    requires WellFormed(db) && r in Joined(db, g, q)
    ensures r.key in Delta(db, g) || (g in db.edges && r in Joined(db, db.edges[g], q))
  {
    if r.group == g {
      DeltaHas(db, g, r.key);
    }
  }

  lemma RestrictedStep(db: Db, g: nat, q: Option<Question>, k: StateKey)
    requires WellFormed(db)
    ensures var m := Restricted(Replay(db, g), q);
            && (k in m <==>
                (q.Some? ==> q.value.SqlKeeps(k)) &&
                (k in Delta(db, g) || (g in db.edges && k in Replay(db, db.edges[g]))))
            && (k in m && k in Delta(db, g) ==> m[k] == Delta(db, g)[k])
            && (k in m && k !in Delta(db, g) ==>
                k in Restricted(Replay(db, db.edges[g]), q) && m[k] == Restricted(Replay(db, db.edges[g]), q)[k])
  {}

  /** Replaying deltas, restricted to a filter on keys, is what the query selects under that filter. */
  lemma {:induction false} ReplayIsSelected(db: Db, g: nat, q: Option<Question>)
    requires WellFormed(db)
    ensures DistinctOn(Joined(db, g, q), Restricted(Replay(db, g), q))
  {
    var m := Restricted(Replay(db, g), q);
    if g in db.edges {
      ReplayIsSelected(db, db.edges[g], q);
    }
    forall r | r in Joined(db, g, q) ensures r.key in m {
      JoinedStep(db, g, q, r);
      RestrictedStep(db, g, q, r.key);
      if g in db.edges {
        RestrictedStep(db, db.edges[g], q, r.key);
      }
    }
    forall k | k in m ensures Selects(Joined(db, g, q), k, m[k]) {
      RestrictedStep(db, g, q, k);
      if k in Delta(db, g) {
        SelectOwn(db, g, q, k);
      } else {
        SelectEarlier(db, g, q, k, m[k]);
      }
    }
  }

  /** Highest group wins is replay, and filters on keys commute with it. */
  lemma SelectedIsReplay(db: Db, g: nat, q: Option<Question>, m: Entries)
    requires WellFormed(db) && DistinctOn(Joined(db, g, q), m)
    ensures m == Restricted(Replay(db, g), q)
  {
    ReplayIsSelected(db, g, q);
    DistinctOnUnique(Joined(db, g, q), m, Restricted(Replay(db, g), q));
  }
}
