/**
 * The bounded backward walk behind /get_missing_events. The answer is specified as a function of the
 * question and the database, so two identical calls agree; what the walk guarantees is proved of it.
 */
module MissingEvents {
  import opened Basics
  import opened Ordering

  const MAX_MISSING_EVENTS := 20

  datatype Edge = Edge(event: string, prev: string, isState: bool)

  /** events, reduced to the room of every event we hold, and event_edges. */
  datatype Db = Db(rooms: map<string, string>, edges: set<Edge>)

  datatype Query = Query(db: Db, room: string, earliest: set<string>, latest: set<string>, limit: int) {
    predicate InRoom(e: string) {
      e in db.rooms && db.rooms[e] == room
    }

    /** The prev events of e that are in the room. */
    function Prev(e: string): set<string> {
      set x | x in db.edges && x.event == e && !x.isState && InRoom(x.prev) :: x.prev
    }

    /** latest_events without what the caller already has and what we do not hold in this room. */
    function Starts(): set<string> {
      set e | e in latest && e !in earliest && InRoom(e)
    }

    ghost function Last(s: string, p: seq<string>): string {
      if |p| == 0 then s else p[|p| - 1]
    }

    /** p leads backwards from s and never enters what the caller already has. */
    ghost predicate Path(s: string, p: seq<string>) {
      |p| == 0 ||
      var front, e := p[..|p| - 1], p[|p| - 1];
      Path(s, front) && e in Prev(Last(s, front)) && e !in earliest
    }

    ghost predicate Reached(e: string) {
      exists s, p :: s in Starts() && |p| > 0 && Path(s, p) && Last(s, p) == e
    }

    /** All a complete answer holds. */
    ghost function Missing(): set<string> {
      set e | e in db.rooms && Reached(e)
    }
  }

  lemma PathNext(q: Query, s: string, p: seq<string>, e: string)
    requires q.Path(s, p) && e in q.Prev(q.Last(s, p)) && e !in q.earliest
    ensures |p + [e]| > 0 && q.Path(s, p + [e]) && q.Last(s, p + [e]) == e
  {
    var longer := p + [e];
    assert longer[..|longer| - 1] == p && longer[|longer| - 1] == e;
  }

  lemma ReachOneMore(q: Query, a: string, e: string)
    requires a in q.Starts() || q.Reached(a)
    requires e in q.Prev(a) && e !in q.earliest
    ensures q.Reached(e) && e in q.Missing()
  {
    var s, p;
    if a in q.Starts() {
      s, p := a, [];
    } else {
      s, p :| s in q.Starts() && |p| > 0 && q.Path(s, p) && q.Last(s, p) == a;
    }
    PathNext(q, s, p, e);
  }

  // ---------------------------------------------------------------- the query

  lemma {:induction false} EnumerationExists(s: set<string>)
    ensures exists rows: seq<string> :: Distinct(rows) && Elements(rows) == s
  {
    if s == {} {
      assert Distinct<string>([]) && Elements<string>([]) == s;
    } else {
      var x :| x in s;
      EnumerationExists(s - {x});
      var rest: seq<string> :| Distinct(rest) && Elements(rest) == s - {x};
      assert x !in rest by { assert x !in Elements(rest); }
      PushMembers(rest, x);
      assert Elements([x] + rest) == s;
    }
  }

  lemma {:induction false} DistinctMultiset(s: seq<string>, x: string)
    requires Distinct(s)
    ensures multiset(s)[x] == if x in s then 1 else 0
  {
    if s != [] {
      TailMultiset(s);
      DistinctMultiset(s[1..], x);
      assert s == [s[0]] + s[1..];
    }
  }

  /** The rows of a set under ORDER BY. */
  ghost function Ordered(s: set<string>): seq<string> {
    EnumerationExists(s);
    var rows: seq<string> :| Distinct(rows) && Elements(rows) == s;
    Sort(rows)
  }

  /** There is one ascending enumeration, whatever order the rows are stored in. */
  lemma OrderedIs(s: set<string>, rows: seq<string>)
    requires Distinct(rows) && Elements(rows) == s
    ensures Ordered(s) == Sort(rows)
  {
    EnumerationExists(s);
    var other: seq<string> :| Distinct(other) && Elements(other) == s && Ordered(s) == Sort(other);
    forall x ensures multiset(rows)[x] == multiset(other)[x] {
      DistinctMultiset(rows, x);
      DistinctMultiset(other, x);
      assert x in rows <==> x in Elements(rows);
      assert x in other <==> x in Elements(other);
    }
    assert multiset(rows) == multiset(other);
    SortForgetsOrder(rows, other);
  }

  lemma OrderedMembers(s: set<string>)
    ensures Elements(Ordered(s)) == s && |Ordered(s)| == |s|
  {
    EnumerationExists(s);
    var rows: seq<string> :| Distinct(rows) && Elements(rows) == s && Ordered(s) == Sort(rows);
    forall x ensures x in Sort(rows) <==> x in s {
      assert x in Sort(rows) <==> x in multiset(Sort(rows));
      assert x in rows <==> x in multiset(rows);
      assert x in rows <==> x in Elements(rows);
    }
    DistinctSize(rows);
    assert |multiset(rows)| == |multiset(Sort(rows))|;
  }

  /** prevEvents: ordered by ID and cut off by LIMIT, before anything is known about what was seen. */
  ghost function PrevRows(q: Query, e: string, limit: nat): seq<string> {
    var all := Ordered(q.Prev(e));
    if limit < |all| then all[..limit] else all
  }

  lemma OrderedAscends(s: set<string>)
    ensures Ascending(Ordered(s))
  {
    EnumerationExists(s);
  }

  /** The rows come in order, as many as the limit allows, and every prev event withheld comes after all of them. */
  lemma RowsAreFirst(q: Query, e: string, limit: nat)
    ensures var rows := PrevRows(q, e, limit);
            && Ascending(rows) && Elements(rows) <= q.Prev(e) &&
                |rows| == (if limit < |q.Prev(e)| then limit else |q.Prev(e)|)
            && forall x, y :: x in rows && y in q.Prev(e) && y !in rows ==> Leq(x, y)
  {
    var all, rows := Ordered(q.Prev(e)), PrevRows(q, e, limit);
    OrderedMembers(q.Prev(e));
    OrderedAscends(q.Prev(e));
    forall x | x in rows ensures x in q.Prev(e) {
      assert x in Elements(all);
    }
    forall x, y | x in rows && y in q.Prev(e) && y !in rows ensures Leq(x, y) {
      assert y in Elements(all);
      var i :| 0 <= i < |rows| && rows[i] == x;
      var j :| 0 <= j < |all| && all[j] == y;
      assert forall k :: 0 <= k < |rows| ==> all[k] == rows[k] && rows[k] in rows;
    }
  }

  method PrevEvents(q: Query, e: string, limit: nat) returns (out: seq<string>)
    ensures out == PrevRows(q, e, limit)
  {
    var rows: seq<string> := [];
    var rest := q.Prev(e);
    while rest != {}
      invariant rest <= q.Prev(e) && Distinct(rows) && Elements(rows) == q.Prev(e) - rest
    {
      var x :| x in rest;
      assert x !in Elements(rows);
      PushMembers(rows, x);
      rows, rest := [x] + rows, rest - {x};
    }
    OrderedIs(q.Prev(e), rows);
    var all := Sort(rows);
    out := if limit < |all| then all[..limit] else all;
  }

  // ---------------------------------------------------------------- the walk as a function

  /** cut and full are bookkeeping: the rows a LIMIT withheld, and whether any call filled its LIMIT. */
  datatype Walk = Walk(seen: set<string>, next: seq<string>, results: seq<string>, cut: set<string>, full: bool)

  ghost function TakeRows(rows: seq<string>, w: Walk): Walk {
    if rows == [] then w
    else if rows[0] in w.seen then TakeRows(rows[1..], w)
    else TakeRows(rows[1..],
            w.(seen := w.seen + {rows[0]}, next := w.next + [rows[0]], results := w.results + [rows[0]]))
  }

  ghost function Visit(q: Query, e: string, w: Walk): Walk
    requires |w.results| <= q.limit
  {
    var rows := PrevRows(q, e, q.limit - |w.results|);
    TakeRows(rows, w.(cut := w.cut + (q.Prev(e) - Elements(rows)), full := w.full || |rows| == q.limit - |w.results|))
  }

  ghost function VisitAll(q: Query, front: seq<string>, w: Walk): Walk
    requires |w.results| <= q.limit
  {
    if front == [] || q.limit <= |w.results| then w
    else
      VisitGrows(q, front[0], w);
      VisitAll(q, front[1..], Visit(q, front[0], w))
  }

  ghost function Levels(q: Query, front: seq<string>, w: Walk): Walk
    requires |w.results| <= q.limit
    decreases q.limit - |w.results|, |front|
  {
    if front == [] || q.limit <= |w.results| then w
    else
      VisitAllGrows(q, Sort(front), w.(next := []));
      var w' := VisitAll(q, Sort(front), w.(next := []));
      Levels(q, w'.next, w')
  }

  lemma {:induction false} TakeRowsGrows(rows: seq<string>, w: Walk)
    ensures var w' := TakeRows(rows, w);
            && |w.results| + |w'.next| - |w.next| == |w'.results| <= |w.results| + |rows|
            && w.results <= w'.results && w.seen <= w'.seen
            && w'.cut == w.cut && w'.full == w.full
  {
    if rows != [] {
      TakeRowsGrows(rows[1..],
          if rows[0] in w.seen then w
          else w.(seen := w.seen + {rows[0]}, next := w.next + [rows[0]], results := w.results + [rows[0]]));
    }
  }

  lemma VisitGrows(q: Query, e: string, w: Walk)
    requires |w.results| <= q.limit
    ensures var w' := Visit(q, e, w);
            && |w.results| + |w'.next| - |w.next| == |w'.results| <= q.limit
            && w.results <= w'.results
  {
    var rows := PrevRows(q, e, q.limit - |w.results|);
    TakeRowsGrows(rows, w.(cut := w.cut + (q.Prev(e) - Elements(rows)), full := w.full ||
        |rows| == q.limit - |w.results|));
  }

  lemma {:induction false} VisitAllGrows(q: Query, front: seq<string>, w: Walk)
    requires |w.results| <= q.limit
    ensures var w' := VisitAll(q, front, w);
            && |w.results| + |w'.next| - |w.next| == |w'.results| <= q.limit
            && w.results <= w'.results
    decreases |front|
  {
    if front != [] && |w.results| < q.limit {
      VisitGrows(q, front[0], w);
      VisitAllGrows(q, front[1..], Visit(q, front[0], w));
    }
  }

  function Reverse(s: seq<string>): seq<string> {
    if s == [] then [] else Reverse(s[1..]) + [s[0]]
  }

  lemma {:induction false} ReverseAt(s: seq<string>, k: nat)
    requires k < |s|
    ensures |Reverse(s)| == |s| && Reverse(s)[k] == s[|s| - 1 - k]
  {
    if |s| > 1 {
      ReverseAt(s[1..], if k < |s| - 1 then k else 0);
    }
  }

  ghost function Begin(q: Query): Walk {
    Walk(q.earliest, [], [], {}, false)
  }

  /** The whole walk, newest first, before the answer is turned round. */
  ghost function Walked(q: Query): Walk
    requires 0 <= q.limit
  {
    Levels(q, Ordered(q.Starts()), Begin(q))
  }

  // ---------------------------------------------------------------- the order of the walk

  /** The rows that were not seen before, in their order. */
  ghost function Unseen(rows: seq<string>, seen: set<string>): seq<string> {
    if rows == [] then []
    else if rows[0] in seen then Unseen(rows[1..], seen)
    else [rows[0]] + Unseen(rows[1..], seen)
  }

  lemma {:induction false} UnseenMore(rows: seq<string>, seen: set<string>, x: string)
    requires x !in rows
    ensures Unseen(rows, seen + {x}) == Unseen(rows, seen)
  {
    if rows != [] {
      assert rows == [rows[0]] + rows[1..];
      UnseenMore(rows[1..], seen, x);
    }
  }

  lemma {:induction false} TakeRowsTakesUnseen(rows: seq<string>, w: Walk)
    requires Distinct(rows)
    ensures TakeRows(rows, w).results == w.results + Unseen(rows, w.seen)
  {
    if rows != [] {
      var x, rest := rows[0], rows[1..];
      TailMembers(rows);
      if x in w.seen {
        TakeRowsTakesUnseen(rest, w);
      } else {
        TakeRowsTakesUnseen(rest, w.(seen := w.seen + {x}, next := w.next + [x], results := w.results + [x]));
        UnseenMore(rest, w.seen, x);
        Assoc(w.results, [x], Unseen(rest, w.seen));
      }
    }
  }

  lemma {:induction false} LevelsGrow(q: Query, front: seq<string>, w: Walk)
    requires |w.results| <= q.limit
    ensures w.results <= Levels(q, front, w).results
    decreases q.limit - |w.results|, |front|
  {
    if front != [] && |w.results| < q.limit {
      VisitAllGrows(q, Sort(front), w.(next := []));
      var w' := VisitAll(q, Sort(front), w.(next := []));
      LevelsGrow(q, w'.next, w');
    }
  }

  lemma SortedHead(front: seq<string>)
    requires front != []
    ensures Sort(front) != [] && Sort(front)[0] in front && forall e :: e in front ==> Leq(Sort(front)[0], e)
  {
    assert |multiset(Sort(front))| == |multiset(front)|;
    assert Sort(front)[0] in multiset(Sort(front)) && Sort(front)[0] in multiset(front);
    forall e | e in front ensures Leq(Sort(front)[0], e) {
      assert e in multiset(front) && e in multiset(Sort(front));
      AscendingHead(Sort(front), e);
    }
  }

  lemma DistinctRows(q: Query, e: string, limit: nat)
    ensures Distinct(PrevRows(q, e, limit))
  {
    EnumerationExists(q.Prev(e));
    var rows: seq<string> :| Distinct(rows) && Elements(rows) == q.Prev(e) && Ordered(q.Prev(e)) == Sort(rows);
    SortedDistinct(rows);
  }

  lemma {:induction false} OnceIsDistinct(s: seq<string>)
    requires forall x :: multiset(s)[x] <= 1
    ensures Distinct(s)
  {
    if s != [] {
      var x, rest := s[0], s[1..];
      TailMultiset(s);
      forall y ensures multiset(rest)[y] <= 1 {
        assert multiset(rest)[y] <= multiset(s)[y];
      }
      OnceIsDistinct(rest);
      assert multiset(rest)[x] == 0 && x !in multiset(rest);
      PushMembers(rest, x);
      assert s == [x] + rest;
    }
  }

  lemma SortedDistinct(rows: seq<string>)
    requires Distinct(rows)
    ensures Distinct(Sort(rows))
  {
    forall x ensures multiset(Sort(rows))[x] <= 1 {
      DistinctMultiset(rows, x);
    }
    OnceIsDistinct(Sort(rows));
  }

  /**
   * In every generation the least event goes first: what the walk finds next is what is new among its rows,
   * in their order.
   */
  lemma LeastGoesFirst(q: Query, front: seq<string>, w: Walk, a: string)
    requires |w.results| < q.limit && a in front && forall e :: e in front ==> Leq(a, e)
    ensures w.results + Unseen(PrevRows(q, a, q.limit - |w.results|), w.seen) <= Levels(q, front, w).results
  {
    var sorted, w0 := Sort(front), w.(next := []);
    SortedHead(front);
    LeqAntisymmetric(a, sorted[0]);
    var rows := PrevRows(q, a, q.limit - |w.results|);
    DistinctRows(q, a, q.limit - |w.results|);
    var first := Visit(q, a, w0);
    TakeRowsTakesUnseen(rows, Noted(q, a, w0));
    VisitGrows(q, a, w0);
    VisitAllGrows(q, sorted[1..], first);
    VisitAllGrows(q, sorted, w0);
    var w' := VisitAll(q, sorted, w0);
    LevelsGrow(q, w'.next, w');
  }

  // ---------------------------------------------------------------- the question in the caller's terms

  /** The event is held and lies in the room. */
  predicate Held(db: Db, room: string, e: string) {
    e in db.rooms && db.rooms[e] == room
  }

  /**
   * p starts at a held event the caller asks about, follows prev edges backwards, and never meets one the caller has.
   */
  ghost predicate Backwards(db: Db, room: string, earliest: seq<string>, latest: seq<string>, p: seq<string>) {
    && p != [] && p[0] in latest
    && (forall i :: 0 <= i < |p| ==> Held(db, room, p[i]) && p[i] !in earliest)
    && (forall i :: 0 < i < |p| ==> Edge(p[i - 1], p[i], false) in db.edges)
  }

  /** What the caller is missing: all that lies at the end of such a path, beyond its start. */
  ghost function MissingFrom(db: Db, room: string, earliest: seq<string>, latest: seq<string>): set<string> {
    set e | e in db.rooms && exists p :: Backwards(db, room, earliest, latest, p) && |p| > 1 && p[|p| - 1] == e
  }

  /** How many events the caller may be given. */
  function Budget(limit: int): int {
    if limit < 20 then limit else 20
  }

  /** The prev events of an event that lie in the room. */
  ghost function PrevOf(db: Db, room: string, e: string): set<string> {
    set x | x in db.rooms && Held(db, room, x) && Edge(e, x, false) in db.edges
  }

  // ---------------------------------------------------------------- the walk as the source runs it

  /** The question as the walk sees it: sets, and a limit capped at what one answer may hold. */
  function Asked(db: Db, room: string, earliest: seq<string>, latest: seq<string>, limit: int): Query {
    Query(db, room, set e | e in earliest, set e | e in latest,
        if limit > MAX_MISSING_EVENTS then MAX_MISSING_EVENTS else limit)
  }

  method StartEvents(q: Query) returns (front: seq<string>)
    ensures Distinct(front) && Elements(front) == q.Starts()
  {
    front := [];
    var rest := q.Starts();
    while rest != {}
      invariant rest <= q.Starts() && Distinct(front) && Elements(front) == q.Starts() - rest
    {
      var x :| x in rest;
      assert x !in Elements(front);
      PushMembers(front, x);
      front, rest := [x] + front, rest - {x};
    }
  }

  method VisitEvent(q: Query, e: string, seen: set<string>, next: seq<string>, results: seq<string>, ghost w: Walk)
    returns (seen': set<string>, next': seq<string>, results': seq<string>)
    requires w.seen == seen && w.next == next && w.results == results && |results| <= q.limit
    ensures seen' == Visit(q, e, w).seen && next' == Visit(q, e, w).next && results' == Visit(q, e, w).results
  {
    seen', next', results' := seen, next, results;
    var prev := PrevEvents(q, e, q.limit - |results|);
    ghost var w' := w.(cut := w.cut + (q.Prev(e) - Elements(prev)), full := w.full || |prev| == q.limit - |results|);
    assert prev[0..] == prev;
    for j := 0 to |prev|
      invariant TakeRows(prev[j..], w') == Visit(q, e, w)
      invariant w'.seen == seen' && w'.next == next' && w'.results == results'
    {
      var p := prev[j];
      assert prev[j..][1..] == prev[j + 1..];
      if p in seen' {
        continue;
      }
      seen', next', results' := seen' + {p}, next' + [p], results' + [p];
      w' := w'.(seen := w'.seen + {p}, next := w'.next + [p], results := w'.results + [p]);
    }
  }

  method ReverseInPlace(a: array<string>)
    modifies a
    ensures a[..] == Reverse(old(a[..]))
  {
    var n, i, j := a.Length, 0, a.Length - 1;
    while i < j
      invariant 0 <= i <= n && i + j == n - 1 && i <= j + 2
      invariant forall k :: 0 <= k < i && k < n ==> a[k] == old(a[n - 1 - k]) && a[n - 1 - k] == old(a[k])
      invariant forall k :: i <= k <= j ==> a[k] == old(a[k])
    {
      a[i], a[j] := a[j], a[i];
      i, j := i + 1, j - 1;
    }
    ghost var was := old(a[..]);
    assert n == 0 ==> was == [];
    forall k | 0 <= k < n ensures |Reverse(was)| == n && a[..][k] == Reverse(was)[k] {
      ReverseAt(was, k);
    }
  }

  /** One generation: the prev events of the whole frontier, until the limit is reached. */
  method VisitFront(q: Query, front: seq<string>, seen: set<string>, results: seq<string>, ghost w: Walk)
    returns (seen': set<string>, next: seq<string>, results': seq<string>)
    requires w.seen == seen && w.next == [] && w.results == results && |results| <= q.limit
    ensures seen' == VisitAll(q, front, w).seen && next == VisitAll(q, front, w).next &&
            results' == VisitAll(q, front, w).results
  {
    seen', next, results' := seen, [], results;
    ghost var w', target := w, VisitAll(q, front, w);
    var rest := front;
    while rest != [] && |results'| < q.limit
      invariant |results'| <= q.limit
      invariant w'.seen == seen' && w'.next == next && w'.results == results'
      invariant VisitAll(q, rest, w') == target
      decreases |rest|
    {
      VisitGrows(q, rest[0], w');
      seen', next, results' := VisitEvent(q, rest[0], seen', next, results', w');
      w' := Visit(q, rest[0], w');
      rest := rest[1..];
    }
  }

  method WalkBack(q: Query, start: seq<string>) returns (results: seq<string>)
    requires 0 < q.limit && Sort(Sort(start)) == Sort(Ordered(q.Starts())) && |start| == |q.Starts()|
    ensures results == Walked(q).results
  {
    OrderedMembers(q.Starts());
    ghost var w, first := Begin(q), Ordered(q.Starts());
    var seen, front := q.earliest, start;
    results := [];
    SortTwice(start);
    while front != [] && |results| < q.limit
      invariant w.seen == seen && w.results == results && |results| <= q.limit
      invariant |first| == |front| && Sort(first) == Sort(front)
      invariant Levels(q, first, w) == Walked(q)
      decreases q.limit - |results|, |front|
    {
      front := Sort(front);
      w := w.(next := []);
      VisitAllGrows(q, front, w);
      ghost var generation := front;
      seen, front, results := VisitFront(q, front, seen, results, w);
      w := VisitAll(q, generation, w);
      first := front;
    }
  }

  /** Built backwards; the caller wants approximate chronological order. */
  method Chronological(results: seq<string>) returns (answer: seq<string>)
    ensures answer == Reverse(results)
  {
    var a := new string[|results|](k requires 0 <= k < |results| => results[k]);
    assert a[..] == results;
    ReverseInPlace(a);
    answer := a[..];
  }

  lemma SortTwice(s: seq<string>)
    ensures Sort(Sort(s)) == Sort(s) && (Sort(s) == [] <==> s == [])
  {
    SortForgetsOrder(Sort(s), s);
    assert |multiset(s)| == |s| && |multiset(Sort(s))| == |Sort(s)|;
  }

  // ---------------------------------------------------------------- what the walk guarantees

  ghost predicate Known(q: Query, w: Walk, a: string) {
    a in q.Starts() || a in w.results
  }

  /** A result's reason: it is a prev event of a start event or of an earlier find. */
  ghost predicate HasParent(q: Query, results: seq<string>, i: nat)
    requires i < |results|
  {
    exists a :: (a in q.Starts() || a in results[..i]) && results[i] in q.Prev(a)
  }

  ghost predicate CutFrom(q: Query, w: Walk, x: string) {
    exists a :: Known(q, w, a) && x in q.Prev(a)
  }

  ghost predicate Tight(q: Query, w: Walk) {
    exists a :: Known(q, w, a) && q.limit < |q.Prev(a)| + |w.results|
  }

  ghost predicate Core(q: Query, w: Walk) {
    && |w.results| <= q.limit
    && w.seen == q.earliest + Elements(w.results)
    && Distinct(w.results)
    && (forall e :: e in w.results ==> e !in q.earliest && q.Reached(e))
    && (forall i :: 0 <= i < |w.results| ==> HasParent(q, w.results, i))
    && (forall e :: e in w.next ==> e in w.results)
    && (forall x :: x in w.cut ==> CutFrom(q, w, x))
    && (w.cut != {} ==> w.full && Tight(q, w))
  }

  /** All prev events of what is no longer pending are accounted for. */
  ghost predicate Expanded(q: Query, w: Walk, todo: seq<string>) {
    forall a :: Known(q, w, a) && a !in todo && a !in w.next ==> q.Prev(a) <= w.seen + w.cut
  }

  lemma TakeOne(q: Query, a: string, p: string, w: Walk)
    requires Core(q, w) && Known(q, w, a) && p in q.Prev(a) && p !in w.seen && |w.results| < q.limit
    ensures Core(q, w.(seen := w.seen + {p}, next := w.next + [p], results := w.results + [p]))
  {
    var w' := w.(seen := w.seen + {p}, next := w.next + [p], results := w.results + [p]);
    ReachOneMore(q, a, p);
    ElementsJoin(w.results, [p]);
    forall i | 0 <= i < |w'.results| ensures HasParent(q, w'.results, i) {
      if i < |w.results| {
        assert HasParent(q, w.results, i);
        assert w'.results[..i] == w.results[..i];
      } else {
        assert w'.results[..i] == w.results;
      }
    }
    forall x | x in w'.cut ensures CutFrom(q, w', x) {
      assert CutFrom(q, w, x);
      var b :| Known(q, w, b) && x in q.Prev(b);
      assert Known(q, w', b);
    }
    if w.cut != {} {
      var b :| Known(q, w, b) && q.limit < |q.Prev(b)| + |w.results|;
      assert Known(q, w', b);
    }
  }

  lemma {:induction false} TakeRowsKeeps(q: Query, a: string, rows: seq<string>, w: Walk, todo: seq<string>)
    requires Core(q, w) && Known(q, w, a) && Elements(rows) <= q.Prev(a) && |w.results| + |rows| <= q.limit
    ensures var w' := TakeRows(rows, w);
            && Core(q, w') && Elements(rows) <= w'.seen
            && (Expanded(q, w, todo) ==> Expanded(q, w', todo))
  {
    if rows != [] {
      assert rows == [rows[0]] + rows[1..];
      ElementsJoin([rows[0]], rows[1..]);
      assert rows[0] in Elements(rows);
      var w1 := if rows[0] in w.seen then w
          else w.(seen := w.seen + {rows[0]}, next := w.next + [rows[0]], results := w.results + [rows[0]]);
      if rows[0] !in w.seen {
        TakeOne(q, a, rows[0], w);
      }
      TakeRowsKeeps(q, a, rows[1..], w1, todo);
      TakeRowsGrows(rows[1..], w1);
      if Expanded(q, w, todo) {
        forall b | Known(q, w1, b) && b !in todo && b !in w1.next ensures q.Prev(b) <= w1.seen + w1.cut {
          assert Known(q, w, b);
        }
      }
    }
  }

  /** What LIMIT withholds is noted before the rows are taken. */
  ghost function Noted(q: Query, a: string, w: Walk): Walk
    requires |w.results| <= q.limit
  {
    var rows := PrevRows(q, a, q.limit - |w.results|);
    w.(cut := w.cut + (q.Prev(a) - Elements(rows)), full := w.full || |rows| == q.limit - |w.results|)
  }

  lemma NotedKeeps(q: Query, a: string, w: Walk)
    requires Core(q, w) && Known(q, w, a)
    ensures Core(q, Noted(q, a, w)) && Elements(PrevRows(q, a, q.limit - |w.results|)) <= q.Prev(a)
  {
    var limit := q.limit - |w.results|;
    var rows, w1 := PrevRows(q, a, limit), Noted(q, a, w);
    OrderedMembers(q.Prev(a));
    forall x | x in rows ensures x in q.Prev(a) {
      assert x in Elements(Ordered(q.Prev(a)));
    }
    if limit >= |q.Prev(a)| {
      assert w1.cut == w.cut;
    }
    forall x | x in w1.cut ensures CutFrom(q, w1, x) {
      if x in w.cut {
        assert CutFrom(q, w, x);
        var b :| Known(q, w, b) && x in q.Prev(b);
        assert Known(q, w1, b);
      } else {
        assert Known(q, w1, a);
      }
    }
    if limit >= |q.Prev(a)| && w1.cut != {} {
      var b :| Known(q, w, b) && q.limit < |q.Prev(b)| + |w.results|;
      assert Known(q, w1, b);
    }
    assert Known(q, w1, a);
  }

  lemma VisitKeeps(q: Query, a: string, w: Walk, rest: seq<string>)
    requires Core(q, w) && Known(q, w, a) && |w.results| < q.limit
    ensures var w' := Visit(q, a, w);
            && Core(q, w')
            && (Expanded(q, w, [a] + rest) ==> Expanded(q, w', rest))
  {
    var rows, w1 := PrevRows(q, a, q.limit - |w.results|), Noted(q, a, w);
    NotedKeeps(q, a, w);
    assert Known(q, w1, a);
    TakeRowsKeeps(q, a, rows, w1, [a] + rest);
    TakeRowsGrows(rows, w1);
    if Expanded(q, w, [a] + rest) {
      assert Expanded(q, w1, [a] + rest) by {
        forall b | Known(q, w1, b) && b !in [a] + rest && b !in w1.next ensures q.Prev(b) <= w1.seen + w1.cut {
          assert Known(q, w, b);
        }
      }
      VisitedExpanded(q, a, TakeRows(rows, w1), rest);
    }
  }

  lemma VisitedExpanded(q: Query, a: string, w: Walk, rest: seq<string>)
    requires Expanded(q, w, [a] + rest) && q.Prev(a) <= w.seen + w.cut
    ensures Expanded(q, w, rest)
  {
    forall b | Known(q, w, b) && b !in rest && b !in w.next ensures q.Prev(b) <= w.seen + w.cut {
      assert b == a || b !in [a] + rest;
    }
  }

  lemma {:induction false} VisitAllKeeps(q: Query, front: seq<string>, w: Walk)
    requires Core(q, w) && forall e :: e in front ==> Known(q, w, e)
    ensures var w' := VisitAll(q, front, w);
            && Core(q, w')
            && (Expanded(q, w, front) && |w'.results| < q.limit ==> Expanded(q, w', []))
    decreases |front|
  {
    if front != [] && |w.results| < q.limit {
      assert front == [front[0]] + front[1..];
      VisitKeeps(q, front[0], w, front[1..]);
      VisitGrows(q, front[0], w);
      var w' := Visit(q, front[0], w);
      forall e | e in front[1..] ensures Known(q, w', e) {
        assert Known(q, w, e);
      }
      VisitAllKeeps(q, front[1..], w');
      VisitAllGrows(q, front[1..], w');
    }
  }

  lemma {:induction false} LevelsKeep(q: Query, front: seq<string>, w: Walk)
    requires Core(q, w) && (forall e :: e in front ==> Known(q, w, e))
    requires forall a :: Known(q, w, a) && a !in front ==> q.Prev(a) <= w.seen + w.cut
    ensures var w' := Levels(q, front, w);
            && Core(q, w')
            && (|w'.results| < q.limit ==> forall a :: Known(q, w', a) ==> q.Prev(a) <= w'.seen + w'.cut)
    decreases q.limit - |w.results|, |front|
  {
    if front != [] && |w.results| < q.limit {
      var sorted, w0 := Sort(front), w.(next := []);
      forall e ensures e in sorted <==> e in front {
        assert e in multiset(sorted) <==> e in multiset(front);
      }
      forall a ensures Known(q, w0, a) <==> Known(q, w, a) {}
      assert Core(q, w0) by { NextIsFree(q, w); }
      assert Expanded(q, w0, sorted);
      VisitAllKeeps(q, sorted, w0);
      VisitAllGrows(q, sorted, w0);
      var w1 := VisitAll(q, sorted, w0);
      if |w1.results| < q.limit {
        LevelsKeep(q, w1.next, w1);
      }
    }
  }

  lemma NextIsFree(q: Query, w: Walk)
    requires Core(q, w)
    ensures Core(q, w.(next := []))
  {
    var w0 := w.(next := []);
    forall x | x in w0.cut ensures CutFrom(q, w0, x) {
      assert CutFrom(q, w, x);
      var b :| Known(q, w, b) && x in q.Prev(b);
      assert Known(q, w0, b);
    }
    if w.cut != {} {
      var b :| Known(q, w, b) && q.limit < |q.Prev(b)| + |w.results|;
      assert Known(q, w0, b);
    }
  }

  lemma WalkedKeeps(q: Query)
    requires 0 < q.limit
    ensures var w := Walked(q);
            && Core(q, w)
            && (|w.results| < q.limit ==> forall a :: Known(q, w, a) ==> q.Prev(a) <= w.seen + w.cut)
  {
    OrderedMembers(q.Starts());
    var front := Ordered(q.Starts());
    forall e ensures e in front <==> e in q.Starts() {
      assert e in front <==> e in Elements(front);
    }
    LevelsKeep(q, front, Begin(q));
  }

  lemma {:induction false} PathIsFound(q: Query, w: Walk, s: string, p: seq<string>)
    requires w.seen <= q.earliest + Elements(w.results)
    requires forall a :: Known(q, w, a) ==> q.Prev(a) <= w.seen
    requires s in q.Starts() && |p| > 0 && q.Path(s, p)
    ensures q.Last(s, p) in w.results
  {
    var front := p[..|p| - 1];
    if |front| > 0 {
      PathIsFound(q, w, s, front);
    }
    assert Known(q, w, q.Last(s, front));
    assert p[|p| - 1] in w.seen;
  }

  // ---------------------------------------------------------------- the theorems

  /** The event at i is a prev event of a start event, or of an event that stands later in the answer. */
  ghost predicate LeadsTo(q: Query, answer: seq<string>, i: nat)
    requires i < |answer|
  {
    exists a :: (a in q.Starts() || a in answer[i + 1..]) && answer[i] in q.Prev(a)
  }

  /**
   * For every graph, cyclic ones included: at most limit results and no more than twenty, no duplicates,
   * nothing the caller already has, nothing that is not missing, and every returned event is a prev
   * event of a start event or of an event that stands later in the answer.
   */
  lemma AnswerIsWellFormed(db: Db, room: string, earliest: seq<string>, latest: seq<string>, limit: int)
    requires 0 < limit
    ensures var q := Asked(db, room, earliest, latest, limit);
            var answer := Reverse(Walked(q).results);
            && |answer| <= limit && |answer| <= MAX_MISSING_EVENTS && Distinct(answer)
            && (forall i :: 0 <= i < |answer| ==> answer[i] !in earliest && answer[i] in q.Missing())
            && (forall i :: 0 <= i < |answer| ==> LeadsTo(q, answer, i))
  {
    var q := Asked(db, room, earliest, latest, limit);
    var found := Walked(q).results;
    WalkedKeeps(q);
    ReverseAll(found);
    FoundIsMissing(q, Walked(q));
    FoundReversed(q, found);
    forall i | 0 <= i < |found| ensures LeadsTo(q, Reverse(found), i) {
      ParentStandsLater(q, found, i);
    }
  }

  lemma FoundReversed(q: Query, found: seq<string>)
    requires Elements(found) <= q.Missing() && Distinct(found) && forall e :: e in found ==> e !in q.earliest
    ensures var answer := Reverse(found);
            Distinct(answer) && forall i :: 0 <= i < |answer| ==> answer[i] in q.Missing() && answer[i] !in q.earliest
  {
    ReverseAll(found);
    forall i | 0 <= i < |found| ensures Reverse(found)[i] in q.Missing() && Reverse(found)[i] !in q.earliest {
      assert Reverse(found)[i] == found[|found| - 1 - i] && found[|found| - 1 - i] in Elements(found);
    }
  }

  lemma ParentStandsLater(q: Query, found: seq<string>, i: nat)
    requires i < |found| && HasParent(q, found, |found| - 1 - i)
    ensures |Reverse(found)| == |found| && LeadsTo(q, Reverse(found), i)
  {
    ReverseAll(found);
    var k := |found| - 1 - i;
    var a :| (a in q.Starts() || a in found[..k]) && found[k] in q.Prev(a);
    if a in found[..k] {
      var j :| 0 <= j < k && found[..k][j] == a;
      assert Reverse(found)[i + 1..][k - 1 - j] == a;
    }
  }

  lemma ReverseAll(s: seq<string>)
    ensures |Reverse(s)| == |s| && forall k :: 0 <= k < |s| ==> Reverse(s)[k] == s[|s| - 1 - k]
  {
    if s != [] {
      forall k | 0 <= k < |s| ensures |Reverse(s)| == |s| && Reverse(s)[k] == s[|s| - 1 - k] {
        ReverseAt(s, k);
      }
      assert |Reverse(s)| == |s| by { ReverseAt(s, 0); }
    }
  }

  /**
   * When the flag says the walk was not truncated, the answer is complete exactly when every row a
   * LIMIT withheld is one the caller has or the answer holds anyway. LIMIT is applied before rows that
   * were already seen are dropped, so the flag alone does not say so.
   */
  lemma UntruncatedIsComplete(q: Query)
    requires 0 < q.limit && |Walked(q).results| < q.limit
    ensures var w := Walked(q);
            Elements(w.results) == q.Missing() <==> w.cut <= q.earliest + Elements(w.results)
  {
    var w := Walked(q);
    WalkedKeeps(q);
    FoundIsMissing(q, w);
    if w.cut <= q.earliest + Elements(w.results) {
      assert w.seen + w.cut == w.seen;
      ClosedIsComplete(q, w);
    } else {
      var x :| x in w.cut && x !in q.earliest + Elements(w.results);
      CutIsMissing(q, w, x);
    }
  }

  lemma ClosedIsComplete(q: Query, w: Walk)
    requires w.seen <= q.earliest + Elements(w.results)
    requires forall a :: Known(q, w, a) ==> q.Prev(a) <= w.seen
    ensures q.Missing() <= Elements(w.results)
  {
    forall e | e in q.Missing() ensures e in w.results {
      var s, p :| s in q.Starts() && |p| > 0 && q.Path(s, p) && q.Last(s, p) == e;
      PathIsFound(q, w, s, p);
    }
  }

  lemma CutIsMissing(q: Query, w: Walk, x: string)
    requires Core(q, w) && x in w.cut && x !in q.earliest
    ensures x in q.Missing()
  {
    assert CutFrom(q, w, x);
    var a :| Known(q, w, a) && x in q.Prev(a);
    ReachOneMore(q, a, x);
  }

  lemma FoundIsMissing(q: Query, w: Walk)
    requires Core(q, w)
    ensures Elements(w.results) <= q.Missing()
  {
    forall e | e in w.results ensures e in q.Missing() {
      var i :| 0 <= i < |w.results| && w.results[i] == e;
      assert HasParent(q, w.results, i);
      assert q.InRoom(e);
    }
  }

  /** No call returned as many rows as its LIMIT, and the flag is down: the answer is complete. */
  lemma UnfilledIsComplete(q: Query)
    requires 0 < q.limit && |Walked(q).results| < q.limit && !Walked(q).full
    ensures Elements(Walked(q).results) == q.Missing()
  {
    WalkedKeeps(q);
    UntruncatedIsComplete(q);
  }

  /**
   * What can be told before the call: if the prev events of no event the walk can meet exceed, together
   * with what is missing, the limit by more than one, the answer is complete. A row that is cut off and
   * matters is itself missing, so the walk still had room for it.
   */
  lemma EnoughRoomIsComplete(q: Query)
    requires 0 < q.limit && |q.Missing()| <= q.limit
    requires forall a :: a in q.Starts() || a in q.Missing() ==> |q.Prev(a)| + |q.Missing()| <= q.limit + 1
    ensures Elements(Walked(q).results) == q.Missing() && (|Walked(q).results| < q.limit <==> |q.Missing()| < q.limit)
  {
    var w := Walked(q);
    WalkedKeeps(q);
    FoundIsMissing(q, w);
    DistinctSize(w.results);
    SubsetSize(Elements(w.results), q.Missing());
    if |w.results| == |q.Missing()| {
      SameSize(Elements(w.results), q.Missing());
    } else {
      NothingCut(q, w);
      UntruncatedIsComplete(q);
    }
  }

  lemma NothingCut(q: Query, w: Walk)
    requires Core(q, w) && Elements(w.results) <= q.Missing() && |w.results| < |q.Missing()|
    requires forall a :: a in q.Starts() || a in q.Missing() ==> |q.Prev(a)| + |q.Missing()| <= q.limit + 1
    ensures w.cut == {}
  {
    forall a | Known(q, w, a) ensures |q.Prev(a)| + |w.results| <= q.limit {
      assert a in w.results ==> a in Elements(w.results);
    }
  }

  lemma SameSize(a: set<string>, b: set<string>)
    requires a <= b && |a| == |b|
    ensures a == b
  {
    assert b == a + (b - a);
  }

  lemma {:induction false} SubsetSize(a: set<string>, b: set<string>)
    requires a <= b
    ensures |a| <= |b|
  {
    if a != {} {
      var x :| x in a;
      SubsetSize(a - {x}, b - {x});
    }
  }

  // ---------------------------------------------------------------- the answer to the caller

  lemma PrevIsPrevOf(db: Db, room: string, earliest: seq<string>, latest: seq<string>, limit: int, e: string)
    ensures Asked(db, room, earliest, latest, limit).Prev(e) == PrevOf(db, room, e)
  {
    var q := Asked(db, room, earliest, latest, limit);
    forall x | x in PrevOf(db, room, e) ensures x in q.Prev(e) {
      assert Edge(e, x, false).prev == x;
    }
    forall x | x in q.Prev(e) ensures x in PrevOf(db, room, e) {
      var edge :| edge in db.edges && edge.event == e && !edge.isState && q.InRoom(edge.prev) && edge.prev == x;
      assert edge == Edge(e, x, false);
    }
  }

  lemma {:induction false} PathIsBackwards(db: Db, room: string, earliest: seq<string>, latest: seq<string>,
      limit: int, s: string, p: seq<string>)
    requires s in Asked(db, room, earliest, latest, limit).Starts() &&
             Asked(db, room, earliest, latest, limit).Path(s, p)
    ensures Backwards(db, room, earliest, latest, [s] + p)
  {
    if |p| > 0 {
      var front, e := p[..|p| - 1], p[|p| - 1];
      var q := Asked(db, room, earliest, latest, limit);
      PathIsBackwards(db, room, earliest, latest, limit, s, front);
      PrevIsPrevOf(db, room, earliest, latest, limit, q.Last(s, front));
      assert [s] + p == ([s] + front) + [e];
      BackwardsNext(db, room, earliest, latest, [s] + front, e);
    }
  }

  lemma BackwardsNext(db: Db, room: string, earliest: seq<string>, latest: seq<string>, p: seq<string>, e: string)
    requires Backwards(db, room, earliest, latest, p) && e in PrevOf(db, room, p[|p| - 1]) && e !in earliest
    ensures Backwards(db, room, earliest, latest, p + [e])
  {}

  lemma {:induction false} BackwardsIsPath(db: Db, room: string, earliest: seq<string>, latest: seq<string>,
      limit: int, p: seq<string>)
    requires Backwards(db, room, earliest, latest, p)
    ensures var q := Asked(db, room, earliest, latest, limit);
            p[0] in q.Starts() && q.Path(p[0], p[1..]) && q.Last(p[0], p[1..]) == p[|p| - 1]
  {
    if |p| > 1 {
      var front, e := p[..|p| - 1], p[|p| - 1];
      BackwardsIsPath(db, room, earliest, latest, limit, front);
      PrevIsPrevOf(db, room, earliest, latest, limit, front[|front| - 1]);
      assert p[1..] == front[1..] + [e];
      PathNext(Asked(db, room, earliest, latest, limit), p[0], front[1..], e);
    }
  }

  /** The question the walk is run on is the caller's. */
  lemma AskedIsMeant(db: Db, room: string, earliest: seq<string>, latest: seq<string>, limit: int)
    ensures var q := Asked(db, room, earliest, latest, limit);
            q.Missing() == MissingFrom(db, room, earliest, latest) && q.limit == Budget(limit)
  {
    var q := Asked(db, room, earliest, latest, limit);
    forall e | e in q.Missing() ensures e in MissingFrom(db, room, earliest, latest) {
      var s, p :| s in q.Starts() && |p| > 0 && q.Path(s, p) && q.Last(s, p) == e;
      PathIsBackwards(db, room, earliest, latest, limit, s, p);
      assert ([s] + p)[|[s] + p| - 1] == e;
    }
    forall e | e in MissingFrom(db, room, earliest, latest) ensures e in q.Missing() {
      var p :| Backwards(db, room, earliest, latest, p) && |p| > 1 && p[|p| - 1] == e;
      BackwardsIsPath(db, room, earliest, latest, limit, p);
    }
  }

  /** The room the walk needs, in the caller's terms: see EnoughRoomIsComplete. */
  ghost predicate RoomEnough(db: Db, room: string, earliest: seq<string>, latest: seq<string>, limit: int) {
    var missing := MissingFrom(db, room, earliest, latest);
    && |missing| <= Budget(limit)
    && forall a :: a in missing || (a in latest && a !in earliest && Held(db, room, a)) ==>
         |PrevOf(db, room, a)| + |missing| <= Budget(limit) + 1
  }

  lemma RoomEnoughIsComplete(db: Db, room: string, earliest: seq<string>, latest: seq<string>, limit: int)
    requires 0 < limit && RoomEnough(db, room, earliest, latest, limit)
    ensures Elements(Walked(Asked(db, room, earliest, latest, limit)).results) ==
            MissingFrom(db, room, earliest, latest)
  {
    var q := Asked(db, room, earliest, latest, limit);
    AskedIsMeant(db, room, earliest, latest, limit);
    forall a | a in q.Starts() || a in q.Missing() ensures |q.Prev(a)| + |q.Missing()| <= q.limit + 1 {
      PrevIsPrevOf(db, room, earliest, latest, limit, a);
    }
    EnoughRoomIsComplete(q);
  }

  /** A start event: one the caller asks about, does not have, and we hold. */
  predicate Start(db: Db, room: string, earliest: seq<string>, latest: seq<string>, e: string) {
    e in latest && e !in earliest && Held(db, room, e)
  }

  /** No prev event of a start event or of one in the answer is left out, unless the caller has it. */
  ghost predicate NothingLeft(db: Db, room: string, earliest: seq<string>, latest: seq<string>, answer: seq<string>) {
    forall a, x :: (Start(db, room, earliest, latest, a) || a in answer) && x in PrevOf(db, room, a) ==>
        x in earliest || x in answer
  }

  /** The event at i is a prev event of a start event, or of one that stands later in the answer. */
  ghost predicate PrevOfLater(db: Db, room: string, earliest: seq<string>, latest: seq<string>, answer: seq<string>,
      i: nat)
    requires i < |answer|
  {
    exists a :: (Start(db, room, earliest, latest, a) || a in answer[i + 1..]) && answer[i] in PrevOf(db, room, a)
  }

  lemma ReversedElements(s: seq<string>)
    ensures Elements(Reverse(s)) == Elements(s) && |Reverse(s)| == |s|
  {
    ReverseAll(s);
    forall x ensures x in Reverse(s) <==> x in s {
      if x in s {
        var i :| 0 <= i < |s| && s[i] == x;
        assert Reverse(s)[|s| - 1 - i] == x;
      }
    }
  }

  lemma AnswerIsMissing(db: Db, room: string, earliest: seq<string>, latest: seq<string>, limit: int)
    requires 0 < limit
    ensures var answer := Reverse(Walked(Asked(db, room, earliest, latest, limit)).results);
            && Distinct(answer) && |answer| <= Budget(limit) &&
                Elements(answer) <= MissingFrom(db, room, earliest, latest)
            && forall i :: 0 <= i < |answer| ==> PrevOfLater(db, room, earliest, latest, answer, i)
  {
    var q := Asked(db, room, earliest, latest, limit);
    var answer := Reverse(Walked(q).results);
    AnswerIsWellFormed(db, room, earliest, latest, limit);
    AskedIsMeant(db, room, earliest, latest, limit);
    forall x | x in Elements(answer) ensures x in MissingFrom(db, room, earliest, latest) {
      var i :| 0 <= i < |answer| && answer[i] == x;
    }
    forall i | 0 <= i < |answer| ensures PrevOfLater(db, room, earliest, latest, answer, i) {
      assert LeadsTo(q, answer, i);
      var a :| (a in q.Starts() || a in answer[i + 1..]) && answer[i] in q.Prev(a);
      PrevIsPrevOf(db, room, earliest, latest, limit, a);
      assert a in q.Starts() ==> Start(db, room, earliest, latest, a);
    }
  }

  /** What was found is complete exactly if it is closed. */
  lemma ClosedIsExact(q: Query, found: seq<string>)
    requires Elements(found) <= q.Missing()
    ensures Elements(found) == q.Missing() <==>
            forall a, x :: (a in q.Starts() || a in found) && x in q.Prev(a) ==> x in q.earliest || x in found
  {
    if forall a, x :: (a in q.Starts() || a in found) && x in q.Prev(a) ==> x in q.earliest || x in found {
      ClosedIsComplete(q, Walk(q.earliest + Elements(found), [], found, {}, false));
    }
    if Elements(found) == q.Missing() {
      forall a, x | (a in q.Starts() || a in found) && x in q.Prev(a) && x !in q.earliest ensures x in found {
        assert a in found ==> a in Elements(found);
        ReachOneMore(q, a, x);
        assert x in Elements(found);
      }
    }
  }

  lemma CompleteIffNothingLeft(db: Db, room: string, earliest: seq<string>, latest: seq<string>, limit: int,
      answer: seq<string>)
    requires Elements(answer) <= MissingFrom(db, room, earliest, latest)
    ensures Elements(answer) == MissingFrom(db, room, earliest, latest) <==>
            NothingLeft(db, room, earliest, latest, answer)
  {
    var q := Asked(db, room, earliest, latest, limit);
    AskedIsMeant(db, room, earliest, latest, limit);
    ClosedIsExact(q, answer);
    forall a ensures q.Prev(a) == PrevOf(db, room, a) {
      PrevIsPrevOf(db, room, earliest, latest, limit, a);
    }
    assert forall a :: a in q.Starts() <==> Start(db, room, earliest, latest, a);
    assert forall x :: x in q.earliest <==> x in earliest;
  }

  /**
   * Answers with events the caller is missing, as many as its limit allows and never more than twenty. It
   * says all it has when nothing is left, and surely does so when there is room enough.
   */
  method GetMissingEvents(db: Db, room: string, earliest: seq<string>, latest: seq<string>, limit: int)
    returns (answer: seq<string>, truncated: bool)
    ensures var q := Asked(db, room, earliest, latest, limit);
            if q.limit <= 0 then answer == [] && !truncated
            else answer == Reverse(Walked(q).results) && truncated == (|Walked(q).results| >= q.limit)
    ensures truncated <==> 0 < limit && |answer| == (if limit < 20 then limit else 20)
    ensures limit <= 0 ==> answer == []
    ensures 0 < limit ==> |answer| <= limit && |answer| <= 20
    ensures Distinct(answer) && Elements(answer) <= MissingFrom(db, room, earliest, latest)
    ensures forall i :: 0 <= i < |answer| ==> PrevOfLater(db, room, earliest, latest, answer, i)
    ensures Elements(answer) == MissingFrom(db, room, earliest, latest) <==>
            NothingLeft(db, room, earliest, latest, answer)
    ensures 0 < limit && RoomEnough(db, room, earliest, latest, limit) ==>
            Elements(answer) == MissingFrom(db, room, earliest, latest)
  {
    answer, truncated := WalkFor(Asked(db, room, earliest, latest, limit), latest);
    if 0 < limit {
      ghost var q := Asked(db, room, earliest, latest, limit);
      AnswerIsMissing(db, room, earliest, latest, limit);
      ReversedElements(Walked(q).results);
      if RoomEnough(db, room, earliest, latest, limit) {
        RoomEnoughIsComplete(db, room, earliest, latest, limit);
      }
    }
    CompleteIffNothingLeft(db, room, earliest, latest, limit, answer);
  }

  /** The walk for a question, with its early answers. */
  method WalkFor(q: Query, latest: seq<string>) returns (answer: seq<string>, truncated: bool)
    requires q.latest == Elements(latest)
    ensures if q.limit <= 0 then answer == [] && !truncated
            else answer == Reverse(Walked(q).results) && truncated == (|Walked(q).results| >= q.limit)
  {
    if q.limit <= 0 {
      return [], false;
    }
    OrderedMembers(q.Starts());
    if forall e :: e in latest ==> e in q.earliest {
      assert q.Starts() == {};
      return [], false;
    }
    var front := StartEvents(q);
    OrderedIs(q.Starts(), front);
    DistinctSize(front);
    var results := WalkBack(q, front);
    truncated := |results| >= q.limit;
    answer := Chronological(results);
  }
}
