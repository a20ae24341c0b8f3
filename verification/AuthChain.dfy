/**
 * Auth chains. The same set is computed from the chain cover index, by a worklist that keeps the
 * furthest sequence number reached in every chain, or by a batched breadth-first walk of event_auth.
 * Callers never learn which of the two answered.
 *
 * The database is a value. A query may return its rows in any order.
 */
module AuthChain {
  import opened Basics
  import opened LruCache
  import opened CacheKeys

  datatype Position = Position(chain: int, num: int)
  datatype Link = Link(originChain: int, originSeq: int, targetChain: int, targetSeq: int)
  datatype Edge = Edge(event: string, auth: string)

  /** events, event_auth, event_auth_chains and event_auth_chain_links. */
  datatype Db = Db(held: set<string>, auth: set<Edge>, positions: map<string, Position>, links: set<Link>)

  // ---------------------------------------------------------------- what an auth chain is

  ghost function Last(a: string, p: seq<string>): string {
    if |p| == 0 then a else p[|p| - 1]
  }

  /** p leads away from a along event_auth, through events we hold. */
  ghost predicate AuthPath(db: Db, a: string, p: seq<string>) {
    |p| == 0 ||
    var front, e := p[..|p| - 1], p[|p| - 1];
    AuthPath(db, a, front) && Edge(Last(a, front), e) in db.auth && e in db.held
  }

  ghost predicate Reaches(db: Db, a: string, b: string) {
    exists p :: p != [] && AuthPath(db, a, p) && Last(a, p) == b
  }

  /** The auth chain of a set of events: everything held that lies one or more steps away. */
  ghost function ChainOf(db: Db, seeds: set<string>): set<string> {
    set e | e in db.held && exists s :: s in seeds && Reaches(db, s, e)
  }

  lemma {:induction false} AuthPathJoin(db: Db, a: string, p: seq<string>, q: seq<string>)
    requires AuthPath(db, a, p) && AuthPath(db, Last(a, p), q)
    ensures AuthPath(db, a, p + q) && Last(a, p + q) == Last(Last(a, p), q)
  {
    if q == [] {
      assert p + q == p;
    } else {
      AuthPathJoin(db, a, p, q[..|q| - 1]);
      assert (p + q)[..|p + q| - 1] == p + q[..|q| - 1];
    }
  }

  lemma ReachesTrans(db: Db, a: string, b: string, c: string)
    requires Reaches(db, a, b) && Reaches(db, b, c)
    ensures Reaches(db, a, c)
  {
    var p :| p != [] && AuthPath(db, a, p) && Last(a, p) == b;
    var q :| q != [] && AuthPath(db, b, q) && Last(b, q) == c;
    AuthPathJoin(db, a, p, q);
  }

  lemma ReachesStep(db: Db, a: string, b: string)
    requires Edge(a, b) in db.auth && b in db.held
    ensures Reaches(db, a, b)
  {
    assert AuthPath(db, a, [b][..0]);
    assert AuthPath(db, a, [b]) && Last(a, [b]) == b;
  }

  // ---------------------------------------------------------------- paths of links

  ghost predicate Usable(l: Link, bound: map<int, int>) {
    l.originChain in bound && l.originSeq <= bound[l.originChain]
  }

  ghost function End(from: Position, p: seq<Link>): Position {
    if |p| == 0 then from else Position(p[|p| - 1].targetChain, p[|p| - 1].targetSeq)
  }

  /** Each link of p starts in the chain the previous one ends in, at or below its end. */
  ghost predicate LinkPath(links: set<Link>, from: Position, p: seq<Link>) {
    |p| == 0 ||
    var front, l := p[..|p| - 1], p[|p| - 1];
    && LinkPath(links, from, front)
    && l in links && 0 < l.targetSeq
    && l.originChain == End(from, front).chain && l.originSeq <= End(from, front).num
  }

  /** Links lead from the start of some chain to exactly this point. */
  ghost predicate Reached(links: set<Link>, starts: map<int, int>, at: Position) {
    exists c, p ::
        c in starts && p != [] && LinkPath(links, Position(c, starts[c]), p) && End(Position(c, starts[c]), p) == at
  }

  /** The least bound per chain that is closed under usable links: reached itself, and above all that is reached. */
  ghost predicate LeastBound(links: set<Link>, starts: map<int, int>, bound: map<int, int>) {
    && (forall c :: c in bound ==> 0 < bound[c] && Reached(links, starts, Position(c, bound[c])))
    && (forall at :: Reached(links, starts, at) ==> at.num <= AtOrZero(bound, at.chain))
  }

  lemma {:induction false} LinkPathJoin(links: set<Link>, from: Position, p: seq<Link>, q: seq<Link>)
    requires LinkPath(links, from, p) && LinkPath(links, End(from, p), q)
    ensures LinkPath(links, from, p + q) && End(from, p + q) == End(End(from, p), q)
  {
    if q == [] {
      assert p + q == p;
    } else {
      LinkPathJoin(links, from, p, q[..|q| - 1]);
      assert (p + q)[..|p + q| - 1] == p + q[..|q| - 1];
    }
  }

  /** A path may as well start further up in its chain. */
  lemma {:induction false} LinkPathLift(links: set<Link>, from: Position, higher: Position, p: seq<Link>)
    requires LinkPath(links, from, p) && from.chain == higher.chain && from.num <= higher.num
    ensures LinkPath(links, higher, p)
  {
    if p != [] {
      LinkPathLift(links, from, higher, p[..|p| - 1]);
    }
  }

  /** The bound does not depend on the order rows arrive in or chains are visited in. */
  lemma LeastBoundUnique(links: set<Link>, starts: map<int, int>, a: map<int, int>, b: map<int, int>)
    requires LeastBound(links, starts, a) && LeastBound(links, starts, b)
    ensures a == b
  {
    forall c | c in a ensures c in b && a[c] <= b[c] {
      assert Reached(links, starts, Position(c, a[c]));
    }
    forall c | c in b ensures c in a && b[c] <= a[c] {
      assert Reached(links, starts, Position(c, b[c]));
    }
  }

  // ---------------------------------------------------------------- the worklist

  /** Every link that can be followed has been, except those the pending bound still allows. */
  ghost predicate ClosedBut(links: set<Link>, starts: map<int, int>, bound: map<int, int>, pending: map<int, int>,
      rows: seq<Link>, next: map<int, int>)
  {
    forall l :: l in links && (Usable(l, starts) || Usable(l, bound)) ==>
      l.targetSeq <= AtOrZero(bound, l.targetChain) || Usable(l, next) || (Usable(l, pending) && l in rows)
  }

  /** Every point the frontier stands on is the end of a path of links, perhaps of none. */
  ghost predicate Grounded(links: set<Link>, starts: map<int, int>, c: int, n: int) {
    (c in starts && n == starts[c]) || Reached(links, starts, Position(c, n))
  }

  lemma LinkPathNext(links: set<Link>, from: Position, p: seq<Link>, l: Link)
    requires LinkPath(links, from, p) && l in links && 0 < l.targetSeq
    requires l.originChain == End(from, p).chain && l.originSeq <= End(from, p).num
    ensures p + [l] != [] && LinkPath(links, from, p + [l]) &&
            End(from, p + [l]) == Position(l.targetChain, l.targetSeq)
  {
    var longer := p + [l];
    assert longer[..|longer| - 1] == p && longer[|longer| - 1] == l;
  }

  lemma FollowLink(links: set<Link>, starts: map<int, int>, c: int, n: int, l: Link)
    requires Grounded(links, starts, c, n)
    requires l in links && l.originChain == c && l.originSeq <= n && 0 < l.targetSeq
    ensures Reached(links, starts, Position(l.targetChain, l.targetSeq))
  {
    var s, p;
    if c in starts && n == starts[c] {
      s, p := c, [];
    } else {
      s, p :| s in starts && p != [] && LinkPath(links, Position(s, starts[s]), p) &&
          End(Position(s, starts[s]), p) == Position(c, n);
    }
    LinkPathNext(links, Position(s, starts[s]), p, l);
  }

  /** A closed bound lies above every path of links. */
  lemma {:induction false} ClosedIsAbove(links: set<Link>, starts: map<int, int>, bound: map<int, int>, c: int,
      p: seq<Link>)
    requires forall l :: l in links && (Usable(l, starts) || Usable(l, bound)) ==>
             l.targetSeq <= AtOrZero(bound, l.targetChain)
    requires c in starts && p != [] && LinkPath(links, Position(c, starts[c]), p)
    ensures var at := End(Position(c, starts[c]), p); at.chain in bound && at.num <= bound[at.chain]
  {
    var front, l := p[..|p| - 1], p[|p| - 1];
    if front == [] {
      assert Usable(l, starts);
    } else {
      ClosedIsAbove(links, starts, bound, c, front);
      assert Usable(l, bound);
    }
  }

  ghost function Unsatisfied(links: set<Link>, bound: map<int, int>): set<Link> {
    set l | l in links && AtOrZero(bound, l.targetChain) < l.targetSeq
  }

  lemma Skip(links: set<Link>, starts: map<int, int>, bound: map<int, int>, pending: map<int, int>, l: Link,
      rest: seq<Link>, next: map<int, int>)
    requires ClosedBut(links, starts, bound, pending, [l] + rest, next)
    requires !Usable(l, pending) || l.targetSeq <= AtOrZero(bound, l.targetChain)
    ensures ClosedBut(links, starts, bound, pending, rest, next)
  {}

  lemma Raise(links: set<Link>, starts: map<int, int>, bound: map<int, int>, pending: map<int, int>, l: Link,
      rest: seq<Link>, next: map<int, int>)
    requires ClosedBut(links, starts, bound, pending, [l] + rest, next)
    requires AtOrZero(bound, l.targetChain) < l.targetSeq && l in links
    requires forall c :: c in next ==> c in bound && next[c] == bound[c]
    ensures ClosedBut(links, starts, bound[l.targetChain := l.targetSeq], pending, rest,
            next[l.targetChain := l.targetSeq])
    ensures Unsatisfied(links, bound[l.targetChain := l.targetSeq]) < Unsatisfied(links, bound)
  {
    assert l in Unsatisfied(links, bound);
    assert l !in Unsatisfied(links, bound[l.targetChain := l.targetSeq]);
  }

  ghost predicate Sound(links: set<Link>, starts: map<int, int>, bound: map<int, int>) {
    forall c :: c in bound ==> 0 < bound[c] && Reached(links, starts, Position(c, bound[c]))
  }

  /** One generation: the rows fetched for a frontier raise the bound and name the next frontier. */
  method FollowRows(ghost links: set<Link>, ghost starts: map<int, int>, rows: seq<Link>, frontier: map<int, int>,
      before: map<int, int>)
    returns (reachable: map<int, int>, next: map<int, int>)
    requires forall l :: l in rows ==> l in links && l.originChain in frontier
    requires Sound(links, starts, before)
    requires forall c :: c in frontier ==> Grounded(links, starts, c, frontier[c])
    requires ClosedBut(links, starts, before, frontier, rows, map[])
    ensures Sound(links, starts, reachable)
    ensures forall c :: c in next ==> c in reachable && next[c] == reachable[c]
    ensures ClosedBut(links, starts, reachable, frontier, [], next)
    ensures if next == map[] then reachable == before else Unsatisfied(links, reachable) < Unsatisfied(links, before)
  {
    reachable, next := before, map[];
    assert rows[0..] == rows;
    for i := 0 to |rows|
      invariant Sound(links, starts, reachable)
      invariant forall c :: c in next ==> c in reachable && next[c] == reachable[c]
      invariant ClosedBut(links, starts, reachable, frontier, rows[i..], next)
      invariant if next == map[] then reachable == before
                else Unsatisfied(links, reachable) < Unsatisfied(links, before)
    {
      var l := rows[i];
      assert l in rows;
      assert rows[i..] == [l] + rows[i + 1..];
      // The link is only usable if its origin point can be reached.
      if l.originSeq > frontier[l.originChain] {
        Skip(links, starts, reachable, frontier, l, rows[i + 1..], next);
        continue;
      }
      if l.targetSeq > AtOrZero(reachable, l.targetChain) {
        FollowLink(links, starts, l.originChain, frontier[l.originChain], l);
        Raise(links, starts, reachable, frontier, l, rows[i + 1..], next);
        reachable := reachable[l.targetChain := l.targetSeq];
        // Reaching further into a chain can open up further links.
        if l.targetSeq > AtOrZero(next, l.targetChain) {
          next := next[l.targetChain := l.targetSeq];
        }
      } else {
        Skip(links, starts, reachable, frontier, l, rows[i + 1..], next);
      }
    }
  }

  /** Follows event_auth_chain_links transitively, a generation at a time. Cyclic link tables included. */
  method MaterialiseChains(db: Db, eventChains: map<int, int>) returns (reachable: map<int, int>)
    ensures LeastBound(db.links, eventChains, reachable)
  {
    reachable := map[];
    var frontier := eventChains;
    while frontier != map[]
      invariant Sound(db.links, eventChains, reachable)
      invariant forall c :: c in frontier ==> Grounded(db.links, eventChains, c, frontier[c])
      invariant ClosedBut(db.links, eventChains, reachable, map[], [], frontier)
      decreases Unsatisfied(db.links, reachable), if frontier == map[] then 0 else 1
    {
      var rows := Rows(set l | l in db.links && l.originChain in frontier);
      reachable, frontier := FollowRows(db.links, eventChains, rows, frontier, reachable);
    }
    forall at | Reached(db.links, eventChains, at) ensures at.num <= AtOrZero(reachable, at.chain) {
      var c, p :| c in eventChains && p != [] && LinkPath(db.links, Position(c, eventChains[c]), p) &&
          End(Position(c, eventChains[c]), p) == at;
      ClosedIsAbove(db.links, eventChains, reachable, c, p);
    }
  }

  // ---------------------------------------------------------------- the breadth-first walk

  const AUTH_CHAIN_BATCH := 100

  method QueryAuth(db: Db, ids: seq<string>) returns (rows: seq<string>)
    ensures forall e :: e in rows <==> e in db.held && exists a :: a in ids && Edge(a, e) in db.auth
  {
    rows := Rows(set x | x in db.auth && x.event in ids && x.auth in db.held :: x.auth);
    forall e | e in rows ensures e in db.held && exists a :: a in ids && Edge(a, e) in db.auth {
      var x :| x in db.auth && x.event in ids && x.auth in db.held && x.auth == e;
      assert x == Edge(x.event, e);
    }
    forall e, a | e in db.held && a in ids && Edge(a, e) in db.auth ensures e in rows {
      assert Edge(a, e).auth == e;
    }
  }

  /** One step along event_auth from any of these events, to events we hold. */
  ghost function Successors(db: Db, from: set<string>): set<string> {
    set e | e in db.held && exists a :: a in from && Edge(a, e) in db.auth
  }

  /** The successors of a frontier, fetched in batches. */
  method NextFront(db: Db, front: set<string>) returns (next: set<string>)
    ensures next == Successors(db, front)
  {
    var ids := Rows(front);
    next := {};
    var start := 0;
    while start < |ids|
      invariant 0 <= start
      invariant next == Successors(db, Elements(ids[..if start <= |ids| then start else |ids|]))
    {
      var end := if start + AUTH_CHAIN_BATCH < |ids| then start + AUTH_CHAIN_BATCH else |ids|;
      var rows := QueryAuth(db, ids[start..end]);
      assert ids[..end] == ids[..start] + ids[start..end];
      for i := 0 to |rows|
        invariant next == Successors(db, Elements(ids[..start])) + Elements(rows[..i])
      {
        assert rows[..i + 1] == rows[..i] + [rows[i]];
        next := next + {rows[i]};
      }
      assert rows[..|rows|] == rows;
      SuccessorsSplit(db, ids[..start], ids[start..end]);
      assert Elements(rows) == Successors(db, Elements(ids[start..end]));
      start := start + AUTH_CHAIN_BATCH;
    }
    assert ids[..|ids|] == ids;
    assert Elements(ids) == front;
  }

  lemma SuccessorsSplit(db: Db, a: seq<string>, b: seq<string>)
    ensures Successors(db, Elements(a + b)) == Successors(db, Elements(a)) + Successors(db, Elements(b))
  {}

  /** What the walk keeps: nothing but the chain is collected, and only the front is yet to be expanded. */
  ghost predicate Walking(db: Db, seeds: set<string>, results: set<string>, front: set<string>) {
    && results <= ChainOf(db, seeds)
    && front <= seeds + results
    && Successors(db, (seeds + results) - front) <= results
  }

  lemma Advance(db: Db, seeds: set<string>, results: set<string>, front: set<string>)
    requires Walking(db, seeds, results, front)
    ensures var next := Successors(db, front); Walking(db, seeds, results + next, next - results)
  {
    var next := Successors(db, front);
    ReachOneMore(db, seeds, results, front);
    SuccessorsMono(db, (seeds + (results + next)) - (next - results), ((seeds + results) - front) + front);
    SuccessorsUnion(db, (seeds + results) - front, front);
  }

  /** Moves what is new in next to the results and to the new front. */
  method TakeNew(next: set<string>, before: set<string>) returns (results: set<string>, front: set<string>)
    ensures results == before + next && front == next - before
  {
    results, front := before, {};
    var todo := next;
    while todo != {}
      invariant todo <= next && results == before + (next - todo)
      invariant front == (next - todo) - before
    {
      var id :| id in todo;
      todo := todo - {id};
      if id !in results {
        results, front := results + {id}, front + {id};
      }
    }
  }

  /** Walks event_auth breadth-first, without the cover index and without trusting it. */
  method GetAuthChainIDsRecursive(db: Db, eventIds: seq<string>) returns (out: seq<string>)
    ensures Distinct(out) && Elements(out) == ChainOf(db, Elements(eventIds))
  {
    ghost var seeds := Elements(eventIds);
    var results: set<string> := {};
    var front := set id | id in eventIds;
    assert Successors(db, {}) == {};
    assert (seeds + results) - front == {};
    while front != {}
      invariant Walking(db, seeds, results, front)
      decreases db.held - results, front
    {
      var next := NextFront(db, front);
      Advance(db, seeds, results, front);
      ghost var before := results;
      results, front := TakeNew(next, results);
      if front != {} {
        var e :| e in front;
        assert e in db.held - before && e !in db.held - results;
      } else {
        assert next <= before by {
          assert forall e :: e in next && e !in before ==> e in front;
        }
        assert results == before;
      }
    }
    assert (seeds + results) - {} == seeds + results;
    ClosedContainsChain(db, seeds, results);
    out := Rows(results);
    assert Elements(out) == results;
  }

  lemma SuccessorsUnion(db: Db, a: set<string>, b: set<string>)
    ensures Successors(db, a + b) == Successors(db, a) + Successors(db, b)
  {}

  lemma SuccessorsMono(db: Db, a: set<string>, b: set<string>)
    requires a <= b
    ensures Successors(db, a) <= Successors(db, b)
  {}

  lemma ReachOneMore(db: Db, seeds: set<string>, results: set<string>, front: set<string>)
    requires results <= ChainOf(db, seeds) && front <= seeds + results
    ensures Successors(db, front) <= ChainOf(db, seeds)
  {
    forall e | e in Successors(db, front) ensures e in ChainOf(db, seeds) {
      var a :| a in front && Edge(a, e) in db.auth;
      ReachesStep(db, a, e);
      if a !in seeds {
        var s :| s in seeds && Reaches(db, s, a);
        ReachesTrans(db, s, a, e);
      }
    }
  }

  lemma {:induction false} ClosedContainsPath(db: Db, seeds: set<string>, results: set<string>, s: string,
      p: seq<string>)
    requires Successors(db, seeds + results) <= results
    requires s in seeds && p != [] && AuthPath(db, s, p)
    ensures Last(s, p) in results
  {
    if |p| > 1 {
      ClosedContainsPath(db, seeds, results, s, p[..|p| - 1]);
    }
    assert Last(s, p) in Successors(db, seeds + results);
  }

  lemma ClosedContainsChain(db: Db, seeds: set<string>, results: set<string>)
    requires Successors(db, seeds + results) <= results <= ChainOf(db, seeds)
    ensures results == ChainOf(db, seeds)
  {
    forall e | e in ChainOf(db, seeds) ensures e in results {
      var s :| s in seeds && Reaches(db, s, e);
      var p :| p != [] && AuthPath(db, s, p) && Last(s, p) == e;
      ClosedContainsPath(db, seeds, results, s, p);
    }
  }

  // ---------------------------------------------------------------- the cover index

  ghost predicate At(db: Db, e: string, chain: int, num: int) {
    e in db.positions && db.positions[e] == Position(chain, num)
  }

  /** The target lies earlier in the same chain, or at or below where some path of links ends. */
  ghost predicate Covered(links: set<Link>, from: Position, to: Position) {
    || (from.chain == to.chain && to.num < from.num)
    || exists p :: p != [] && LinkPath(links, from, p) && End(from, p).chain == to.chain && to.num <= End(from, p).num
  }

  ghost predicate LinkSound(db: Db, l: Link) {
    exists o, t :: At(db, o, l.originChain, l.originSeq) && At(db, t, l.targetChain, l.targetSeq) && Reaches(db, o, t)
  }

  ghost predicate EdgeCovered(db: Db, x: Edge) {
    x.event in db.positions && x.auth in db.held ==>
      x.auth in db.positions && Covered(db.links, db.positions[x.event], db.positions[x.auth])
  }

  ghost predicate Precedes(db: Db, f: string, e: string) {
    && e in db.positions && f in db.positions
    && db.positions[f].chain == db.positions[e].chain && db.positions[f].num < db.positions[e].num
  }

  /**
   * What Synapse promises about the chain cover index: positions belong to held events, count from one
   * and are unique; an event auth-reaches every earlier one in its chain; a link joins two existing
   * positions, and its origin auth-reaches its target; and every auth edge that leaves an event of the
   * index is covered by it. The triggers keep these facts from being used before they are asked for.
   */
  ghost predicate CoverIndex(db: Db) {
    SoundIndex(db) && AllCovered(db)
  }

  ghost predicate AllCovered(db: Db) {
    forall x {:trigger EdgeCovered(db, x)} :: x in db.auth ==> EdgeCovered(db, x)
  }

  /** All of these promises but the last. */
  ghost predicate SoundIndex(db: Db) {
    && (forall e :: e in db.positions ==> e in db.held && 1 <= db.positions[e].num)
    && (forall e, f :: e in db.positions && f in db.positions && db.positions[e] == db.positions[f] ==> e == f)
    && (forall e, f {:trigger Precedes(db, f, e)} :: Precedes(db, f, e) ==> Reaches(db, e, f))
    && (forall l {:trigger LinkSound(db, l)} :: l in db.links ==> LinkSound(db, l))
  }

  ghost predicate HasStart(db: Db, seeds: set<string>, starts: map<int, int>, c: int)
    requires c in starts
  {
    exists s :: s in seeds && At(db, s, c, starts[c])
  }

  /** The furthest position of a seed in every chain that has one. */
  ghost predicate StartsOf(db: Db, seeds: set<string>, starts: map<int, int>) {
    && (forall s :: s in seeds ==>
        s in db.positions && db.positions[s].chain in starts && db.positions[s].num <= starts[db.positions[s].chain])
    && (forall c {:trigger HasStart(db, seeds, starts, c)} :: c in starts ==> HasStart(db, seeds, starts, c))
  }

  /** The bound per chain the answer is read off from. */
  ghost predicate Under(starts: map<int, int>, bound: map<int, int>, at: Position) {
    || (at.chain in bound && at.num <= bound[at.chain])
    || (at.chain in starts && at.num <= starts[at.chain] - 1)
  }

  /** A seed auth-reaches all that lies at or below the end of a path of links that starts at it. */
  lemma {:induction false} PathReaches(db: Db, s: string, p: seq<Link>, e: string)
    requires SoundIndex(db) && s in db.positions && e in db.positions
    requires p != [] && LinkPath(db.links, db.positions[s], p)
    requires db.positions[e].chain == End(db.positions[s], p).chain &&
             db.positions[e].num <= End(db.positions[s], p).num
    ensures Reaches(db, s, e)
  {
    var front, l := p[..|p| - 1], p[|p| - 1];
    assert LinkSound(db, l);
    var o, t :| At(db, o, l.originChain, l.originSeq) && At(db, t, l.targetChain, l.targetSeq) && Reaches(db, o, t);
    if front != [] {
      PathReaches(db, s, front, o);
      ReachesTrans(db, s, o, t);
    } else if o != s {
      assert Precedes(db, o, s);
      ReachesTrans(db, s, o, t);
    }
    if e != t {
      assert Precedes(db, e, t);
      ReachesTrans(db, s, t, e);
    }
  }

  /** Soundness: whatever lies under the bound is auth-reached from a seed. */
  lemma UnderIsReached(db: Db, seeds: set<string>, starts: map<int, int>, bound: map<int, int>, e: string)
    requires SoundIndex(db) && StartsOf(db, seeds, starts) && LeastBound(db.links, starts, bound)
    requires e in db.positions && Under(starts, bound, db.positions[e])
    ensures e in ChainOf(db, seeds)
  {
    var at := db.positions[e];
    if at.chain in bound && at.num <= bound[at.chain] {
      assert Reached(db.links, starts, Position(at.chain, bound[at.chain]));
      var c, p :| c in starts && p != [] && LinkPath(db.links, Position(c, starts[c]), p) &&
          End(Position(c, starts[c]), p) == Position(at.chain, bound[at.chain]);
      assert HasStart(db, seeds, starts, c);
      var s :| s in seeds && At(db, s, c, starts[c]);
      PathReaches(db, s, p, e);
    } else {
      assert HasStart(db, seeds, starts, at.chain);
      var s :| s in seeds && At(db, s, at.chain, starts[at.chain]);
      assert Precedes(db, e, s);
    }
  }

  /** What an event under the bound covers is under the bound again. */
  lemma CoverStaysUnder(db: Db, starts: map<int, int>, bound: map<int, int>, from: Position, to: Position)
    requires LeastBound(db.links, starts, bound)
    requires Covered(db.links, from, to)
    requires (from.chain in starts && from.num <= starts[from.chain]) || Under(starts, bound, from)
    ensures Under(starts, bound, to)
  {
    if !(from.chain == to.chain && to.num < from.num) {
      var q :| q != [] && LinkPath(db.links, from, q) && End(from, q).chain == to.chain && to.num <= End(from, q).num;
      assert 0 < End(from, q).num;
      var c, p;
      if from.chain in starts && from.num <= starts[from.chain] {
        c, p := from.chain, [];
      } else {
        assert Reached(db.links, starts, Position(from.chain, bound[from.chain]));
        c, p :| c in starts && p != [] && LinkPath(db.links, Position(c, starts[c]), p) &&
            End(Position(c, starts[c]), p) == Position(from.chain, bound[from.chain]);
      }
      LinkPathLift(db.links, from, End(Position(c, starts[c]), p), q);
      LinkPathJoin(db.links, Position(c, starts[c]), p, q);
      assert End(Position(c, starts[c]), p + q) == End(from, q);
      assert Reached(db.links, starts, End(from, q));
    }
  }

  /** Completeness: every event along an auth path from a seed has a position, and it lies under the bound. */
  lemma {:induction false} ReachedIsUnder(db: Db, seeds: set<string>, starts: map<int, int>, bound: map<int, int>,
      s: string, p: seq<string>)
    requires CoverIndex(db) && StartsOf(db, seeds, starts) && LeastBound(db.links, starts, bound)
    requires s in seeds && p != [] && AuthPath(db, s, p)
    ensures Last(s, p) in db.positions && Under(starts, bound, db.positions[Last(s, p)])
  {
    var front, e := p[..|p| - 1], p[|p| - 1];
    if front != [] {
      ReachedIsUnder(db, seeds, starts, bound, s, front);
    }
    var a := Last(s, front);
    assert EdgeCovered(db, Edge(a, e));
    CoverStaysUnder(db, starts, bound, db.positions[a], db.positions[e]);
  }

  /** Reading everything at or below the bound off the index gives exactly the auth chain. */
  lemma IndexAnswersChain(db: Db, seeds: set<string>, starts: map<int, int>, bound: map<int, int>)
    requires CoverIndex(db) && StartsOf(db, seeds, starts) && LeastBound(db.links, starts, bound)
    ensures (set e | e in db.positions && Under(starts, bound, db.positions[e])) == ChainOf(db, seeds)
  {
    forall e | e in db.positions && Under(starts, bound, db.positions[e]) ensures e in ChainOf(db, seeds) {
      UnderIsReached(db, seeds, starts, bound, e);
    }
    forall e | e in ChainOf(db, seeds) ensures e in db.positions && Under(starts, bound, db.positions[e]) {
      var s :| s in seeds && Reaches(db, s, e);
      var p :| p != [] && AuthPath(db, s, p) && Last(s, p) == e;
      ReachedIsUnder(db, seeds, starts, bound, s, p);
    }
  }

  // ---------------------------------------------------------------- what the index must cover

  /** Wherever every seed has a position, what the index says is the auth chain. */
  ghost predicate IndexIsRight(db: Db) {
    forall seeds, starts, bound :: StartsOf(db, seeds, starts) && LeastBound(db.links, starts, bound) ==>
      (set e | e in db.positions && Under(starts, bound, db.positions[e])) == ChainOf(db, seeds)
  }

  /** The greatest of some numbers. */
  lemma {:induction false} Greatest(s: set<int>) returns (m: int)
    requires s != {}
    ensures m in s && forall n :: n in s ==> n <= m
  {
    var one := Pick(s);
    var rest := s - {one};
    m := one;
    if rest != {} {
      var r := Greatest(rest);
      m := if r > one then r else one;
    }
    forall n | n in s ensures n <= m {
      assert n == one || n in rest;
    }
  }

  /** The furthest point of one chain that links reach, if they reach any. */
  lemma FurthestIn(links: set<Link>, starts: map<int, int>, c: int) returns (n: int)
    ensures 0 <= n && (0 < n ==> Reached(links, starts, Position(c, n)))
    ensures forall at :: Reached(links, starts, at) && at.chain == c ==> at.num <= n
  {
    var ends := set l | l in links && 0 < l.targetSeq && l.targetChain == c &&
        Reached(links, starts, Position(c, l.targetSeq)) :: l.targetSeq;
    n := 0;
    if ends != {} {
      n := Greatest(ends);
    }
    forall at | Reached(links, starts, at) && at.chain == c ensures at.num <= n {
      var s, p: seq<Link> :| s in starts && p != [] && LinkPath(links, Position(s, starts[s]), p) &&
          End(Position(s, starts[s]), p) == at;
      assert p[|p| - 1] in links && p[|p| - 1].targetSeq in ends;
    }
  }

  lemma {:induction false} BoundOver(links: set<Link>, starts: map<int, int>, chains: set<int>)
      returns (bound: map<int, int>)
    ensures bound.Keys <= chains && Sound(links, starts, bound)
    ensures forall at :: Reached(links, starts, at) && at.chain in chains ==> at.num <= AtOrZero(bound, at.chain)
  {
    bound := map[];
    if chains != {} {
      var c := Pick(chains);
      var rest := BoundOver(links, starts, chains - {c});
      var n := FurthestIn(links, starts, c);
      bound := if 0 < n then rest[c := n] else rest;
    }
  }

  /** Every finite link table has a least bound. */
  lemma LeastBoundExists(links: set<Link>, starts: map<int, int>) returns (bound: map<int, int>)
    ensures LeastBound(links, starts, bound)
  {
    var chains := set l | l in links :: l.targetChain;
    bound := BoundOver(links, starts, chains);
    forall at | Reached(links, starts, at) ensures at.num <= AtOrZero(bound, at.chain) {
      var s, p: seq<Link> :| s in starts && p != [] && LinkPath(links, Position(s, starts[s]), p) &&
          End(Position(s, starts[s]), p) == at;
      assert p[|p| - 1] in links && at.chain in chains;
    }
  }

  /** A right index covers every edge that leaves one of its events: ask it about that event alone. */
  lemma RightIndexCovers(db: Db, x: Edge)
    requires SoundIndex(db) && IndexIsRight(db) && x in db.auth
    ensures EdgeCovered(db, x)
  {
    if x.event in db.positions && x.auth in db.held {
      var from := db.positions[x.event];
      var starts := map[from.chain := from.num];
      assert At(db, x.event, from.chain, starts[from.chain]);
      assert forall c :: c in starts ==> HasStart(db, {x.event}, starts, c);
      var bound := LeastBoundExists(db.links, starts);
      assert x == Edge(x.event, x.auth);
      ReachesStep(db, x.event, x.auth);
      assert x.auth in ChainOf(db, {x.event});
      UnderIsCovered(db.links, from, bound, db.positions[x.auth]);
    }
  }

  lemma UnderIsCovered(links: set<Link>, from: Position, bound: map<int, int>, to: Position)
    requires LeastBound(links, map[from.chain := from.num], bound) && Under(map[from.chain := from.num], bound, to)
    ensures Covered(links, from, to)
  {
    var starts := map[from.chain := from.num];
    if to.chain in bound && to.num <= bound[to.chain] {
      assert Reached(links, starts, Position(to.chain, bound[to.chain]));
      var c, p :| c in starts && p != [] && LinkPath(links, Position(c, starts[c]), p) &&
          End(Position(c, starts[c]), p) == Position(to.chain, bound[to.chain]);
      assert Position(c, starts[c]) == from;
    }
  }

  /**
   * Only the seeds are checked for a position, so an ancestor the index does not describe makes the answer
   * silently short. Of an index whose other promises hold, every question whose seeds all have positions is
   * answered rightly exactly if each auth edge that leaves an event of the index is covered by it.
   */
  lemma CoverageIsExact(db: Db)
    requires SoundIndex(db)
    ensures IndexIsRight(db) <==> AllCovered(db)
  {
    if AllCovered(db) {
      forall seeds, starts, bound | StartsOf(db, seeds, starts) && LeastBound(db.links, starts, bound)
        ensures (set e | e in db.positions && Under(starts, bound, db.positions[e])) == ChainOf(db, seeds)
      {
        IndexAnswersChain(db, seeds, starts, bound);
      }
    }
    if IndexIsRight(db) {
      forall x | x in db.auth ensures EdgeCovered(db, x) {
        RightIndexCovers(db, x);
      }
    }
  }

  // ---------------------------------------------------------------- the index as the source reads it

  /** Step 1: the chain positions of the starting events, the furthest per chain. */
  method StartPositions(db: Db, ids: seq<string>) returns (seen: set<string>, starts: map<int, int>)
    requires forall e :: e in db.positions ==> 1 <= db.positions[e].num
    ensures seen == Elements(ids) * db.positions.Keys
    ensures StartsOf(db, seen, starts)
  {
    var rows := Rows(set e | e in db.positions && e in ids);
    seen, starts := {}, map[];
    for i := 0 to |rows|
      invariant seen == Elements(rows[..i])
      invariant forall s :: s in seen ==>
                s in db.positions && db.positions[s].chain in starts &&
                db.positions[s].num <= starts[db.positions[s].chain]
      invariant forall c :: c in starts ==> 0 < starts[c] && HasStart(db, seen, starts, c)
    {
      var e := rows[i];
      assert e in rows;
      assert rows[..i + 1] == rows[..i] + [e];
      ghost var was_seen, was := seen, starts;
      seen := seen + {e};
      var at := db.positions[e];
      if at.num > AtOrZero(starts, at.chain) {
        starts := starts[at.chain := at.num];
        assert At(db, e, at.chain, starts[at.chain]);
      }
      forall c | c in starts ensures HasStart(db, seen, starts, c) {
        if c in was && starts[c] == was[c] {
          assert HasStart(db, was_seen, was, c);
          var s :| s in was_seen && At(db, s, c, was[c]);
          assert s in seen;
        }
      }
    }
    assert rows[..|rows|] == rows;
  }

  /** Step 3: an event auth-reaches everything earlier in its own chain, but not itself. */
  method AddOwnChains(starts: map<int, int>, bound: map<int, int>) returns (chains: map<int, int>)
    requires forall c :: c in bound ==> 0 < bound[c]
    ensures forall at: Position :: 1 <= at.num ==>
            ((at.chain in chains && at.num <= chains[at.chain]) <==> Under(starts, bound, at))
    ensures forall c :: c in chains ==> 0 < chains[c]
  {
    chains := bound;
    var rows := Rows(starts.Keys);
    for i := 0 to |rows|
      invariant forall c :: c in chains ==> 0 < chains[c]
      invariant forall c :: AtOrZero(chains, c) ==
                              if c in rows[..i] && AtOrZero(starts, c) - 1 > AtOrZero(bound, c) then starts[c] - 1
                                  else AtOrZero(bound, c)
    {
      var c := rows[i];
      assert c in rows;
      assert forall x :: x in rows[..i + 1] <==> x in rows[..i] || x == c;
      var n := starts[c];
      if n <= 1 {
        continue;
      }
      if n - 1 > AtOrZero(chains, c) {
        chains := chains[c := n - 1];
      }
    }
    assert rows[..|rows|] == rows;
    forall at: Position | 1 <= at.num
      ensures (at.chain in chains && at.num <= chains[at.chain]) <==> Under(starts, bound, at)
    {
      assert at.chain in chains && at.num <= chains[at.chain] <==> at.num <= AtOrZero(chains, at.chain);
      assert at.chain in rows <==> at.chain in starts;
    }
  }

  // ---------------------------------------------------------------- the store

  datatype NoChainCoverIndex = NoChainCoverIndex(room: string)

  /** Sizer of the auth-chain cache. */
  function SizeOfIds(ids: seq<string>): nat {
    if ids == [] then 0 else |ids[0]| + 16 + SizeOfIds(ids[1..])
  }

  /** Every ID costs its bytes and sixteen more. */
  lemma {:induction false} SizesAdd(a: seq<string>, id: string)
    ensures SizeOfIds(a + [id]) == SizeOfIds(a) + |id| + 16
  {
    if a == [] {
      assert a + [id] == [id] && [id][1..] == [];
    } else {
      assert (a + [id])[1..] == a[1..] + [id];
      SizesAdd(a[1..], id);
    }
  }

  class AuthStore<D(==, !new)> {
    const db: Db
    const hash: string -> D
    const authChains: LRU<D, seq<string>>
    ghost var asked: set<(string, seq<string>)>   // every question that was hashed so far

    constructor (db: Db, hash: string -> D, maxBytes: int)
      requires CoverIndex(db)
      ensures Valid() && this.db == db && this.hash == hash && fresh(authChains) && asked == {}
    {
      this.db, this.hash := db, hash;
      authChains := new LRU(maxBytes);
      asked := {};
    }

    /** The list answers one of these questions, under the key it has, and says nothing twice. */
    ghost predicate Answers(asked: set<(string, seq<string>)>, key: D, ids: seq<string>) {
      exists room, q {:trigger KeyBytes(room, q)} ::
        (room, q) in asked && hash(KeyBytes(room, q)) == key && Elements(q) <= db.positions.Keys &&
            Elements(ids) == ChainOf(db, Elements(q)) && Distinct(ids)
    }

    /** Whatever was asked under the key of this question was asked of the same events. */
    ghost predicate Unconfused(room: string, ids: seq<string>)
      reads this`asked
    {
      forall r, q {:trigger KeyBytes(r, q)} :: (r, q) in asked && hash(KeyBytes(r, q)) == hash(KeyBytes(room, ids)) ==>
          Elements(q) == Elements(ids)
    }

    ghost predicate Right(items: seq<Item<D, seq<string>>>, asked: set<(string, seq<string>)>) {
      forall it :: it in items ==> Answers(asked, it.key, it.value)
    }

    ghost predicate Valid()
      reads this`asked, authChains
    {
      CoverIndex(db) && authChains.Valid() && Right(authChains.Items(), asked)
    }

    /** With a collision-free hash and rooms without a NUL there is no confusion. */
    lemma KeysTellApart(room: string, ids: seq<string>)
      requires CollisionFree(hash)
      requires NUL !in room && LengthsFit(ids) && forall r, q :: (r, q) in asked ==> NUL !in r && LengthsFit(q)
      ensures Unconfused(room, ids)
    {
      forall r, q | (r, q) in asked && hash(KeyBytes(r, q)) == hash(KeyBytes(room, ids))
        ensures Elements(q) == Elements(ids)
      {
        KeyIdentifiesQuestion(r, q, room, ids);
        SameElements(q, ids);
      }
    }

    lemma UnconfusedIsRight(room: string, ids: seq<string>, answer: seq<string>)
      requires Answers(asked, hash(KeyBytes(room, ids)), answer) && Unconfused(room, ids)
      ensures Elements(ids) <= db.positions.Keys && Elements(answer) == ChainOf(db, Elements(ids))
    {}

    ghost method Ask(room: string, ids: seq<string>)
      requires Valid()
      modifies this`asked
      ensures Valid() && asked == old(asked) + {(room, ids)}
    {
      asked := asked + {(room, ids)};
      forall it | it in authChains.Items() ensures Answers(asked, it.key, it.value) {
        assert Answers(old(asked), it.key, it.value);
      }
    }

    /**
     * Answers from the cache, else from the cover index, else reports that the index has a gap. The answer
     * is that of some question hashed to this key, and if all of these ask for the same events it is right.
     */
    method GetAuthChainIDs(room: string, eventIds: array<string>) returns (r: Result<seq<string>, NoChainCoverIndex>)
      requires Valid()
      modifies this`asked, authChains
      ensures Valid()
      ensures asked == old(asked) + (if eventIds.Length == 0 then {} else {(room, eventIds[..])})
      ensures r.Ok? && eventIds.Length > 0 ==> Answers(asked, hash(KeyBytes(room, eventIds[..])), r.value)
      ensures r.Ok? ==> Distinct(r.value)
      ensures r.Err? ==> !(Elements(eventIds[..]) <= db.positions.Keys)
      ensures Unconfused(room, eventIds[..]) && r.Ok? ==>
              Elements(eventIds[..]) <= db.positions.Keys && Elements(r.value) == ChainOf(db, Elements(eventIds[..]))
    {
      ghost var ids := eventIds[..];
      if eventIds.Length == 0 {
        return Ok([]);
      }
      Ask(room, ids);
      var key := AuthChainKey(room, eventIds, hash);
      var cached := Lookup(key);
      if cached.Some? {
        r := Ok(cached.value);
      } else {
        var queried;
        r, queried := FromIndex(room, eventIds);
        if queried {
          assert hash(KeyBytes(room, ids)) == key;
          Remember(key, r.value);
        }
      }
      if Unconfused(room, ids) && r.Ok? {
        UnconfusedIsRight(room, ids, r.value);
      }
    }

    /**
     * What the cover index says, and whether its events were queried: where no chain is reached there is nothing to
     * query.
     */
    method FromIndex(room: string, eventIds: array<string>)
        returns (r: Result<seq<string>, NoChainCoverIndex>, queried: bool)
      requires CoverIndex(db)
      ensures queried ==> r.Ok?
      ensures r.Ok? <==> Elements(eventIds[..]) <= db.positions.Keys
      ensures r.Ok? ==> Distinct(r.value) && Elements(r.value) == ChainOf(db, Elements(eventIds[..]))
    {
      ghost var ids := eventIds[..];
      var seen, starts := StartPositions(db, eventIds[..]);
      if exists i :: 0 <= i < eventIds.Length && eventIds[i] !in seen {
        var i :| 0 <= i < eventIds.Length && eventIds[i] !in seen;
        assert ids[i] in Elements(ids) && ids[i] !in db.positions.Keys;
        return Err(NoChainCoverIndex(room)), false;
      }
      assert seen == Elements(ids);
      var bound := MaterialiseChains(db, starts);
      var chains := AddOwnChains(starts, bound);
      IndexAnswersChain(db, seen, starts, bound);
      if chains == map[] {
        return Ok([]), false;
      }
      var out := Rows(set e | e in db.positions && db.positions[e].chain in chains &&
          db.positions[e].num <= chains[db.positions[e].chain]);
      assert Elements(out) == ChainOf(db, seen);
      return Ok(out), true;
    }

    method Lookup(key: D) returns (r: Option<seq<string>>)
      requires Valid()
      modifies authChains
      ensures Valid()
      ensures r.Some? ==> Answers(asked, key, r.value)
    {
      authChains.StateBounded();
      StepMembers(authChains.State(), LookUp(key), authChains.maxBytes);
      r := authChains.Get(key);
    }

    method Remember(key: D, ids: seq<string>)
      requires Valid() && Answers(asked, key, ids)
      modifies authChains
      ensures Valid()
    {
      authChains.StateBounded();
      StepMembers(authChains.State(), Store(Item(key, ids, SizeOfIds(ids))), authChains.maxBytes);
      authChains.Add(key, ids, SizeOfIds(ids));
    }

    /** Arms or disarms the cache; disarming empties it. */
    method SetArmed(armed: bool)
      requires Valid()
      modifies authChains
      ensures Valid() && authChains.armed == armed && (!armed ==> authChains.Items() == [])
    {
      authChains.SetArmed(armed);
    }

    /** Empties the cache without disarming it. */
    method Purge()
      requires Valid()
      modifies authChains
      ensures Valid() && authChains.Items() == [] && authChains.armed == old(authChains.armed)
    {
      authChains.Purge();
    }

    /** Whichever branch answers, the answer is the auth chain, each event once. */
    method GetAuthChainIDsWithFallback(room: string, eventIds: array<string>)
        returns (ids: seq<string>, usedFallback: bool)
      requires Valid()
      modifies this`asked, authChains
      ensures Valid()
      ensures asked == old(asked) + (if eventIds.Length == 0 then {} else {(room, eventIds[..])})
      ensures Unconfused(room, eventIds[..]) ==>
                Elements(ids) == ChainOf(db, Elements(eventIds[..])) &&
                    (usedFallback <==> !(Elements(eventIds[..]) <= db.positions.Keys))
      ensures Distinct(ids)
    {
      var r := GetAuthChainIDs(room, eventIds);
      if r.Err? {
        ids := GetAuthChainIDsRecursive(db, eventIds[..]);
        return ids, true;
      }
      return r.value, false;
    }
  }

  ghost predicate CollisionFree<D(!new)>(hash: string -> D) {
    forall x, y :: hash(x) == hash(y) ==> x == y
  }

  lemma SameElements(a: seq<string>, b: seq<string>)
    requires multiset(a) == multiset(b)
    ensures Elements(a) == Elements(b)
  {
    forall x ensures x in a <==> x in b {
      assert x in a <==> x in multiset(a);
    }
  }
}
