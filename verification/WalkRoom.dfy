/**
 * How much room the walk of /get_missing_events needs. Ladders are the worst graphs: a chain of missing
 * events, and under its last one a row of prev events of which the caller has all but the last.
 */
module WalkRoom {
  import opened Basics
  import opened Ordering
  import opened MissingEvents

  /** No event the walk can meet has more prev events than this. */
  ghost predicate MostPrevs(q: Query, prevs: nat) {
    forall a :: a in q.Starts() || a in q.Missing() ==> |q.Prev(a)| <= prevs
  }

  /** Every graph of these sizes is answered completely. */
  ghost predicate Completes(limit: nat, missing: nat, prevs: nat) {
    forall q: Query :: q.limit == limit && |q.Missing()| == missing && MostPrevs(q, prevs) ==>
        Elements(Walked(q).results) == q.Missing()
  }

  // ---------------------------------------------------------------- ladders

  function Above(rungs: seq<string>, i: nat): string
    requires i + 1 < |rungs|
  {
    rungs[i + 1]
  }

  ghost predicate Follows(rungs: seq<string>, feet: seq<string>, e: string, x: string)
    requires rungs != []
  {
    || (exists i: nat {:trigger Above(rungs, i)} :: i + 1 < |rungs| && rungs[i] == e && Above(rungs, i) == x)
    || (e == rungs[|rungs| - 1] && x in feet)
  }

  /** Each rung has the next as its only prev event, the last has the feet; the caller has all feet but the last. */
  ghost function Ladder(limit: nat, rungs: seq<string>, feet: seq<string>): Query
    requires rungs != [] && feet != []
  {
    var all := Elements(rungs) + Elements(feet);
    var edges := set e, x | e in all && x in all && Follows(rungs, feet, e, x) :: Edge(e, x, false);
    Query(Db(map e | e in all :: "", edges), "", Elements(feet[..|feet| - 1]), {rungs[0]}, limit)
  }

  /** Rungs and feet are all different, and the feet come in the order of the query. */
  ghost predicate Sturdy(rungs: seq<string>, feet: seq<string>) {
    && rungs != [] && feet != [] && Distinct(rungs + feet) && Ascending(feet)
  }

  lemma SturdyParts(rungs: seq<string>, feet: seq<string>)
    requires Sturdy(rungs, feet)
    ensures Distinct(rungs) && Distinct(feet) && Distinct(feet[..|feet| - 1]) && feet[|feet| - 1] !in feet[..|feet| - 1]
    ensures forall e :: e in rungs ==> e !in feet && e !in feet[..|feet| - 1]
  {
    PrefixMembers(feet[..|feet| - 1], feet);
    var all := rungs + feet;
    forall i, j | 0 <= i < j < |rungs| ensures rungs[i] != rungs[j] {
      assert all[i] == rungs[i] && all[j] == rungs[j];
    }
    forall i, j | 0 <= i < j < |feet| ensures feet[i] != feet[j] {
      assert all[|rungs| + i] == feet[i] && all[|rungs| + j] == feet[j];
    }
    forall i, j | 0 <= i < |rungs| && 0 <= j < |feet| ensures rungs[i] != feet[j] {
      assert all[i] == rungs[i] && all[|rungs| + j] == feet[j];
    }
  }

  lemma LadderEdge(limit: nat, rungs: seq<string>, feet: seq<string>, e: string, x: string)
    requires Sturdy(rungs, feet)
    ensures x in Ladder(limit, rungs, feet).Prev(e) <==> Follows(rungs, feet, e, x)
  {
    var q := Ladder(limit, rungs, feet);
    if Follows(rungs, feet, e, x) {
      assert Edge(e, x, false) in q.db.edges;
      assert Edge(e, x, false).prev == x;
    }
  }

  lemma LadderPrevs(limit: nat, rungs: seq<string>, feet: seq<string>, i: nat)
    requires Sturdy(rungs, feet) && i < |rungs|
    ensures Ladder(limit, rungs, feet).Prev(rungs[i]) == if i + 1 < |rungs| then {Above(rungs, i)} else Elements(feet)
  {
    SturdyParts(rungs, feet);
    var q := Ladder(limit, rungs, feet);
    forall x ensures x in q.Prev(rungs[i]) <==> (if i + 1 < |rungs| then x == Above(rungs, i) else x in feet) {
      LadderEdge(limit, rungs, feet, rungs[i], x);
    }
  }

  lemma LadderStarts(limit: nat, rungs: seq<string>, feet: seq<string>)
    requires Sturdy(rungs, feet)
    ensures Ladder(limit, rungs, feet).Starts() == {rungs[0]}
  {
    var q := Ladder(limit, rungs, feet);
    SturdyParts(rungs, feet);
    assert rungs[0] in rungs;
    assert q.InRoom(rungs[0]);
  }

  lemma {:induction false} RungIsMissing(limit: nat, rungs: seq<string>, feet: seq<string>, i: nat)
    requires Sturdy(rungs, feet) && i < |rungs|
    ensures var q := Ladder(limit, rungs, feet);
            if i == 0 then rungs[i] in q.Starts() else q.Reached(rungs[i]) && rungs[i] in q.Missing()
  {
    SturdyParts(rungs, feet);
    LadderStarts(limit, rungs, feet);
    if i > 0 {
      RungIsMissing(limit, rungs, feet, i - 1);
      LadderPrevs(limit, rungs, feet, i - 1);
      ReachOneMore(Ladder(limit, rungs, feet), rungs[i - 1], rungs[i]);
    }
  }

  lemma FootIsMissing(limit: nat, rungs: seq<string>, feet: seq<string>)
    requires Sturdy(rungs, feet)
    ensures feet[|feet| - 1] in Ladder(limit, rungs, feet).Missing()
  {
    var n := |rungs| - 1;
    SturdyParts(rungs, feet);
    RungIsMissing(limit, rungs, feet, n);
    LadderPrevs(limit, rungs, feet, n);
    ReachOneMore(Ladder(limit, rungs, feet), rungs[n], feet[|feet| - 1]);
  }

  lemma NewBelow(limit: nat, rungs: seq<string>, feet: seq<string>, from: string, e: string)
    requires Sturdy(rungs, feet) && e in Ladder(limit, rungs, feet).Prev(from) && e !in feet[..|feet| - 1]
    ensures e in rungs[1..] || e == feet[|feet| - 1]
  {
    LadderEdge(limit, rungs, feet, from, e);
    if i: nat :| i + 1 < |rungs| && rungs[i] == from && Above(rungs, i) == e {
      assert rungs[1..][i] == e;
    } else {
      assert feet == feet[..|feet| - 1] + [feet[|feet| - 1]];
    }
  }

  lemma OnlyTheseAreMissing(limit: nat, rungs: seq<string>, feet: seq<string>, e: string)
    requires Sturdy(rungs, feet) && e in Ladder(limit, rungs, feet).Missing()
    ensures e in rungs[1..] || e == feet[|feet| - 1]
  {
    var q := Ladder(limit, rungs, feet);
    var s, p :| s in q.Starts() && |p| > 0 && q.Path(s, p) && q.Last(s, p) == e;
    var from := q.Last(s, p[..|p| - 1]);
    assert e in q.Prev(from) && e !in q.earliest;
    NewBelow(limit, rungs, feet, from, e);
  }

  lemma TheseAreMissing(limit: nat, rungs: seq<string>, feet: seq<string>, e: string)
    requires Sturdy(rungs, feet) && (e in rungs[1..] || e == feet[|feet| - 1])
    ensures e in Ladder(limit, rungs, feet).Missing()
  {
    FootIsMissing(limit, rungs, feet);
    if i :| 0 <= i < |rungs[1..]| && rungs[1..][i] == e {
      assert rungs[i + 1] == e;
      RungIsMissing(limit, rungs, feet, i + 1);
    }
  }

  /** All rungs but the first, and the last foot. */
  lemma MissingList(rungs: seq<string>, feet: seq<string>)
    requires Sturdy(rungs, feet)
    ensures var list := rungs[1..] + [feet[|feet| - 1]];
            Distinct(list) && |list| == |rungs| && forall e :: e in list <==> e in rungs[1..] || e == feet[|feet| - 1]
  {
    SturdyParts(rungs, feet);
    TailMembers(rungs);
    AppendMembers(rungs[1..], feet[|feet| - 1]);
  }

  lemma LadderMissing(limit: nat, rungs: seq<string>, feet: seq<string>)
    requires Sturdy(rungs, feet)
    ensures |Ladder(limit, rungs, feet).Missing()| == |rungs|
  {
    var list := rungs[1..] + [feet[|feet| - 1]];
    MissingList(rungs, feet);
    forall e ensures e in list <==> e in Ladder(limit, rungs, feet).Missing() {
      if e in list {
        TheseAreMissing(limit, rungs, feet, e);
      }
      if e in Ladder(limit, rungs, feet).Missing() {
        OnlyTheseAreMissing(limit, rungs, feet, e);
      }
    }
    DistinctSize(list);
    assert Elements(list) == Ladder(limit, rungs, feet).Missing();
  }

  lemma LadderMostPrevs(limit: nat, rungs: seq<string>, feet: seq<string>)
    requires Sturdy(rungs, feet)
    ensures MostPrevs(Ladder(limit, rungs, feet), |feet|)
  {
    var q := Ladder(limit, rungs, feet);
    SturdyParts(rungs, feet);
    DistinctSize(feet);
    forall a ensures |q.Prev(a)| <= |feet| {
      if i: nat :| i < |rungs| && rungs[i] == a {
        LadderPrevs(limit, rungs, feet, i);
      } else {
        forall x ensures x !in q.Prev(a) {
          LadderEdge(limit, rungs, feet, a, x);
        }
        assert q.Prev(a) == {};
      }
    }
  }

  // ---------------------------------------------------------------- the walk up a ladder

  lemma OrderedOne(x: string)
    ensures Ordered({x}) == [x] && Sort([x]) == [x]
  {
    assert [x][1..] == [];
    assert Elements([x]) == {x};
    OrderedIs({x}, [x]);
  }

  lemma OrderedAlready(rows: seq<string>)
    requires Distinct(rows) && Ascending(rows)
    ensures Ordered(Elements(rows)) == rows
  {
    OrderedIs(Elements(rows), rows);
    AscendingUnique(Sort(rows), rows);
  }

  lemma {:induction false} TakeSeen(rows: seq<string>, w: Walk)
    requires forall e :: e in rows ==> e in w.seen
    ensures TakeRows(rows, w) == w
  {
    if rows != [] {
      assert rows == [rows[0]] + rows[1..];
      TakeSeen(rows[1..], w);
    }
  }

  /** What the walk meets on a ladder. */
  ghost predicate Climbable(q: Query, rungs: seq<string>, feet: seq<string>) {
    && rungs != [] && feet != [] && Distinct(rungs) && Distinct(feet) && Ascending(feet)
    && (forall i: nat {:trigger Above(rungs, i)} :: i + 1 < |rungs| ==> q.Prev(rungs[i]) == {Above(rungs, i)})
    && q.Prev(rungs[|rungs| - 1]) == Elements(feet)
    && q.earliest == Elements(feet[..|feet| - 1])
    && (forall e :: e in rungs ==> e !in q.earliest)
  }

  lemma LadderIsClimbable(limit: nat, rungs: seq<string>, feet: seq<string>)
    requires Sturdy(rungs, feet)
    ensures Climbable(Ladder(limit, rungs, feet), rungs, feet)
  {
    var q := Ladder(limit, rungs, feet);
    SturdyParts(rungs, feet);
    forall i: nat {:trigger Above(rungs, i)} | i + 1 < |rungs| ensures q.Prev(rungs[i]) == {Above(rungs, i)} {
      LadderPrevs(limit, rungs, feet, i);
    }
    LadderPrevs(limit, rungs, feet, |rungs| - 1);
  }

  /** The walk stands on rung i and has collected the rungs up to it. */
  ghost predicate Climbed(q: Query, rungs: seq<string>, w: Walk, i: nat) {
    i < |rungs| && w.results == rungs[1..i + 1] && w.seen == q.earliest + Elements(w.results)
  }

  /** A generation of one event is one visit. */
  lemma OneVisit(q: Query, e: string, w: Walk)
    requires |w.results| < q.limit
    ensures var w' := Visit(q, e, w.(next := []));
            |w'.results| <= q.limit && Levels(q, [e], w) == Levels(q, w'.next, w')
  {
    OrderedOne(e);
    var w0 := w.(next := []);
    VisitGrows(q, e, w0);
    assert [e][1..] == [];
    assert VisitAll(q, [e], w0) == VisitAll(q, [], Visit(q, e, w0));
  }

  lemma TakeNewOne(row: string, w: Walk)
    requires row !in w.seen
    ensures TakeRows([row], w) == w.(seen := w.seen + {row}, next := w.next + [row], results := w.results + [row])
  {
    assert [row][1..] == [];
  }

  /** One row is fetched where the limit leaves room for any. */
  lemma OneRow(q: Query, e: string, next: string, w: Walk)
    requires |w.results| < q.limit && q.Prev(e) == {next} && next !in w.seen
    ensures var w' := Visit(q, e, w.(next := []));
            w'.seen == w.seen + {next} && w'.next == [next] && w'.results == w.results + [next]
  {
    OrderedOne(next);
    assert PrevRows(q, e, q.limit - |w.results|) == [next];
    TakeNewOne(next, Noted(q, e, w.(next := [])));
  }

  lemma LevelsEnd(q: Query, w: Walk)
    requires |w.results| <= q.limit
    ensures Levels(q, [], w) == w
  {}

  /** A visit that fetches nothing but what was seen. */
  lemma VisitSeen(q: Query, e: string, rows: seq<string>, w: Walk)
    requires |w.results| < q.limit && PrevRows(q, e, q.limit - |w.results|) == rows
    requires forall x :: x in rows ==> x in w.seen
    ensures Visit(q, e, w) == Noted(q, e, w)
  {
    TakeSeen(rows, Noted(q, e, w));
  }

  /** No row is new where the limit leaves only what was seen. */
  lemma NoNewRow(q: Query, e: string, rows: seq<string>, w: Walk)
    requires |w.results| < q.limit && PrevRows(q, e, q.limit - |w.results|) == rows
    requires forall x :: x in rows ==> x in w.seen
    ensures Levels(q, [e], w).results == w.results
  {
    var w0 := w.(next := []);
    VisitSeen(q, e, rows, w0);
    OneVisit(q, e, w);
    LevelsEnd(q, Noted(q, e, w0));
  }

  lemma NextIsNew(q: Query, rungs: seq<string>, w: Walk, i: nat)
    requires Distinct(rungs) && i + 1 < |rungs| && rungs[i + 1] !in q.earliest && Climbed(q, rungs, w, i)
    ensures rungs[i + 1] !in w.seen
  {
    forall k | 0 <= k < |w.results| ensures w.results[k] != rungs[i + 1] {
      assert w.results[k] == rungs[k + 1];
    }
  }

  lemma ClimbedNext(q: Query, rungs: seq<string>, w: Walk, w': Walk, i: nat)
    requires i + 1 < |rungs| && Climbed(q, rungs, w, i)
    requires w'.seen == w.seen + {rungs[i + 1]} && w'.results == w.results + [rungs[i + 1]]
    ensures Climbed(q, rungs, w', i + 1)
  {
    assert rungs[1..i + 2] == rungs[1..i + 1] + [rungs[i + 1]];
    ElementsJoin(w.results, [rungs[i + 1]]);
    assert Elements([rungs[i + 1]]) == {rungs[i + 1]};
  }

  lemma ClimbOne(q: Query, rungs: seq<string>, feet: seq<string>, w: Walk, i: nat)
    requires Climbable(q, rungs, feet) && i + 1 < |rungs| && i < q.limit && Climbed(q, rungs, w, i)
    ensures var w' := Visit(q, rungs[i], w.(next := []));
            Climbed(q, rungs, w', i + 1) && |w'.results| <= q.limit &&
            Levels(q, [rungs[i]], w) == Levels(q, [rungs[i + 1]], w')
  {
    var next := Above(rungs, i);
    NextIsNew(q, rungs, w, i);
    OneRow(q, rungs[i], next, w);
    OneVisit(q, rungs[i], w);
    ClimbedNext(q, rungs, w, Visit(q, rungs[i], w.(next := [])), i);
  }

  /** What the limit leaves of the feet the caller has. */
  lemma FeetSeen(feet: seq<string>, left: nat)
    requires feet != [] && left < |feet|
    ensures forall e :: e in feet[..left] ==> e in Elements(feet[..|feet| - 1])
  {
    assert feet[..left] <= feet[..|feet| - 1];
    PrefixMembers(feet[..left], feet[..|feet| - 1]);
  }

  /** On the last rung the limit cuts off what is missing, and what it leaves the caller has. */
  lemma ClimbTop(q: Query, rungs: seq<string>, feet: seq<string>, w: Walk)
    requires Climbable(q, rungs, feet) && |rungs| <= q.limit && q.limit + 1 < |rungs| + |feet|
    requires Climbed(q, rungs, w, |rungs| - 1)
    ensures |w.results| == |rungs| - 1 && Levels(q, [rungs[|rungs| - 1]], w).results == w.results
  {
    var top, left := rungs[|rungs| - 1], q.limit - |w.results|;
    OrderedAlready(feet);
    FeetSeen(feet, left);
    NoNewRow(q, top, feet[..left], w);
  }

  /** From this rung on the walk ends with all rungs and nothing else. */
  ghost predicate EndsShort(q: Query, rungs: seq<string>, w: Walk, i: nat) {
    i < |rungs| && |w.results| <= q.limit && |Levels(q, [rungs[i]], w).results| == |rungs| - 1
  }

  lemma TopEnds(q: Query, rungs: seq<string>, feet: seq<string>, w: Walk)
    requires Climbable(q, rungs, feet) && |rungs| <= q.limit && q.limit + 1 < |rungs| + |feet|
    requires Climbed(q, rungs, w, |rungs| - 1)
    ensures EndsShort(q, rungs, w, |rungs| - 1)
  {
    ClimbTop(q, rungs, feet, w);
  }

  ghost function NextWalk(q: Query, rungs: seq<string>, w: Walk, i: nat): Walk {
    if i < |rungs| && |w.results| <= q.limit then Visit(q, rungs[i], w.(next := [])) else w
  }

  lemma ClimbOn(q: Query, rungs: seq<string>, feet: seq<string>, w: Walk, i: nat)
    requires Climbable(q, rungs, feet) && |rungs| <= q.limit && i + 1 < |rungs| && Climbed(q, rungs, w, i)
    ensures var w' := NextWalk(q, rungs, w, i);
            Climbed(q, rungs, w', i + 1) && (EndsShort(q, rungs, w', i + 1) ==> EndsShort(q, rungs, w, i))
  {
    ClimbOne(q, rungs, feet, w, i);
  }

  /** Climbing in general: what every step hands down from the next rung holds from any rung if it holds at the top. */
  lemma {:induction false} HandDown(stands: (Walk, nat) -> bool, ends: (Walk, nat) -> bool, next: (Walk, nat) -> Walk,
                                    top: nat, w: Walk, i: nat)
    requires forall w {:trigger stands(w, top)} :: stands(w, top) ==> ends(w, top)
    requires forall w, i: nat {:trigger next(w, i)} :: i < top && stands(w, i) ==>
               stands(next(w, i), i + 1) && (ends(next(w, i), i + 1) ==> ends(w, i))
    requires i <= top && stands(w, i)
    ensures ends(w, i)
    decreases top - i
  {
    if i < top {
      HandDown(stands, ends, next, top, next(w, i), i + 1);
    }
  }

  /** The walk up this ladder as such a climb. */
  lemma WalkClimbs(q: Query, rungs: seq<string>, feet: seq<string>, top: nat)
      returns (stands: (Walk, nat) -> bool, ends: (Walk, nat) -> bool, next: (Walk, nat) -> Walk)
    requires Climbable(q, rungs, feet) && |rungs| <= q.limit && q.limit + 1 < |rungs| + |feet| && top == |rungs| - 1
    ensures forall w {:trigger stands(w, top)} :: stands(w, top) ==> ends(w, top)
    ensures forall w, i: nat {:trigger next(w, i)} :: i < top && stands(w, i) ==>
              stands(next(w, i), i + 1) && (ends(next(w, i), i + 1) ==> ends(w, i))
    ensures forall w {:trigger stands(w, 0)} :: Climbed(q, rungs, w, 0) ==> stands(w, 0)
    ensures forall w {:trigger ends(w, 0)} :: ends(w, 0) ==> EndsShort(q, rungs, w, 0)
  {
    stands := (w: Walk, i: nat) => Climbed(q, rungs, w, i);
    ends := (w: Walk, i: nat) => EndsShort(q, rungs, w, i);
    next := (w: Walk, i: nat) => NextWalk(q, rungs, w, i);
    forall w | Climbed(q, rungs, w, top) ensures EndsShort(q, rungs, w, top) {
      TopEnds(q, rungs, feet, w);
    }
    forall w, i: nat | i < top && Climbed(q, rungs, w, i)
      ensures var w' := NextWalk(q, rungs, w, i);
              Climbed(q, rungs, w', i + 1) && (EndsShort(q, rungs, w', i + 1) ==> EndsShort(q, rungs, w, i))
    {
      ClimbOn(q, rungs, feet, w, i);
    }
  }

  lemma ClimbAll(q: Query, rungs: seq<string>, feet: seq<string>, w: Walk)
    requires Climbable(q, rungs, feet) && |rungs| <= q.limit && q.limit + 1 < |rungs| + |feet|
    requires Climbed(q, rungs, w, 0)
    ensures EndsShort(q, rungs, w, 0)
  {
    var top: nat := |rungs| - 1;
    var stands, ends, next := WalkClimbs(q, rungs, feet, top);
    HandDown(stands, ends, next, top, w, 0);
  }

  /**
   * A ladder with too little room: the answer misses an event, and where the missing events alone would fit the flag
   * is down.
   */
  lemma LadderMisses(limit: nat, rungs: seq<string>, feet: seq<string>)
    requires Sturdy(rungs, feet) && 0 < limit && limit + 1 < |rungs| + |feet|
    ensures var q := Ladder(limit, rungs, feet);
            |Walked(q).results| < |q.Missing()| && (|rungs| <= limit ==> |Walked(q).results| < limit)
  {
    var q := Ladder(limit, rungs, feet);
    LadderMissing(limit, rungs, feet);
    if |rungs| <= limit {
      LadderStarts(limit, rungs, feet);
      OrderedOne(rungs[0]);
      assert rungs[1..1] == [];
      LadderIsClimbable(limit, rungs, feet);
      ClimbAll(q, rungs, feet, Begin(q));
    } else {
      WalkedKeeps(q);
    }
  }

  // ---------------------------------------------------------------- ladders of every size

  function Name(kind: char, i: nat): string {
    [kind] + seq(i, _ => 'a')
  }

  lemma NamesDiffer(kind: char, i: nat, kind': char, j: nat)
    ensures Name(kind, i) == Name(kind', j) <==> kind == kind' && i == j
  {
    assert |Name(kind, i)| == i + 1 && |Name(kind', j)| == j + 1;
    assert Name(kind, i)[0] == kind && Name(kind', j)[0] == kind';
  }

  lemma {:induction false} PrefixIsLeq(a: string, b: string)
    requires a <= b
    ensures Leq(a, b)
  {
    if a != [] {
      PrefixIsLeq(a[1..], b[1..]);
    }
  }

  lemma SomeLadder(missing: nat, prevs: nat) returns (rungs: seq<string>, feet: seq<string>)
    requires 0 < missing && 0 < prevs
    ensures Sturdy(rungs, feet) && |rungs| == missing && |feet| == prevs
  {
    rungs, feet := seq(missing, i requires 0 <= i => Name('s', i)), seq(prevs, j requires 0 <= j => Name('r', j));
    var all := rungs + feet;
    forall i, j | 0 <= i < j < |all| ensures all[i] != all[j] {
      NamesDiffer(if i < missing then 's' else 'r', if i < missing then i else i - missing,
          if j < missing then 's' else 'r', if j < missing then j else j - missing);
    }
    forall i, j | 0 <= i < j < |feet| ensures Leq(feet[i], feet[j]) {
      PrefixIsLeq(feet[i], feet[j]);
    }
  }

  // ---------------------------------------------------------------- the theorems

  /**
   * LIMIT is applied before rows that were already seen are dropped, so the flag may be down on an answer that
   * misses an event: for every limit, every number of missing events that fits it, and every number of prev
   * events that together with these exceeds the limit by more than one.
   */
  lemma UntruncatedMayMiss(limit: nat, missing: nat, prevs: nat) returns (q: Query)
    requires 0 < missing <= limit && limit + 1 < missing + prevs
    ensures q.limit == limit && |q.Missing()| == missing && MostPrevs(q, prevs)
    ensures |Walked(q).results| < limit && Elements(Walked(q).results) != q.Missing()
  {
    var rungs, feet := SomeLadder(missing, prevs);
    q := Ladder(limit, rungs, feet);
    LadderMissing(limit, rungs, feet);
    LadderMostPrevs(limit, rungs, feet);
    LadderMisses(limit, rungs, feet);
    WalkedKeeps(q);
    DistinctSize(Walked(q).results);
  }

  /** How many events may be missing, and how many prev events each may have, for the answer to be complete. */
  lemma RoomIsExact(limit: nat, missing: nat, prevs: nat)
    requires 0 < limit && 0 < missing && 0 < prevs
    ensures Completes(limit, missing, prevs) <==> missing + prevs <= limit + 1
  {
    if missing + prevs <= limit + 1 {
      forall q: Query | q.limit == limit && |q.Missing()| == missing && MostPrevs(q, prevs)
        ensures Elements(Walked(q).results) == q.Missing()
      {
        EnoughRoomIsComplete(q);
      }
    } else {
      var rungs, feet := SomeLadder(missing, prevs);
      var q := Ladder(limit, rungs, feet);
      LadderMissing(limit, rungs, feet);
      LadderMostPrevs(limit, rungs, feet);
      LadderMisses(limit, rungs, feet);
      WalkedKeeps(q);
      DistinctSize(Walked(q).results);
    }
  }
}
