/**
 * The keys the caches are addressed by. A cached answer is served to whoever presents its key, so a
 * key must not depend on how a question is phrased and must differ between different questions.
 * Strings are byte strings here: every char stands for one byte.
 */
module CacheKeys {
  import opened Basics
  import opened Ordering

  const NUL: char := 0 as char

  // ---------------------------------------------------------------- auth chains

  function Pow256(k: nat): nat {
    if k == 0 then 1 else 256 * Pow256(k - 1)
  }

  /** binary.BigEndian: the low k bytes of n, most significant first. */
  function BigEndian(n: nat, k: nat): (r: string)
    ensures |r| == k
  {
    if k == 0 then [] else BigEndian(n / 256, k - 1) + [(n % 256) as char]
  }

  lemma {:induction false} BigEndianInjective(n: nat, m: nat, k: nat)
    requires n < Pow256(k) && m < Pow256(k)
    requires BigEndian(n, k) == BigEndian(m, k)
    ensures n == m
  {
    if k > 0 {
      var a, b := BigEndian(n / 256, k - 1), BigEndian(m / 256, k - 1);
      assert BigEndian(n, k)[..k - 1] == a && BigEndian(m, k)[..k - 1] == b;
      assert BigEndian(n, k)[k - 1] == (n % 256) as char && BigEndian(m, k)[k - 1] == (m % 256) as char;
      BigEndianInjective(n / 256, m / 256, k - 1);
    }
  }

  function EncodeIds(ids: seq<string>): string {
    if ids == [] then [] else BigEndian(|ids[0]|, 8) + ids[0] + EncodeIds(ids[1..])
  }

  /** The bytes that are hashed for a room and a list of event IDs. */
  function KeyBytes(room: string, ids: seq<string>): string {
    room + [NUL] + EncodeIds(Sort(ids))
  }

  lemma {:induction false} EncodeIdsAppend(a: seq<string>, id: string)
    ensures EncodeIds(a + [id]) == EncodeIds(a) + BigEndian(|id|, 8) + id
  {
    if a == [] {
      assert a + [id] == [id] && [id][1..] == [];
    } else {
      assert (a + [id])[1..] == a[1..] + [id];
      EncodeIdsAppend(a[1..], id);
    }
  }

  lemma EncodeNext(ids: seq<string>, i: nat)
    requires i < |ids|
    ensures EncodeIds(ids[..i + 1]) == EncodeIds(ids[..i]) + (BigEndian(|ids[i]|, 8) + ids[i])
  {
    assert ids[..i + 1] == ids[..i] + [ids[i]];
    EncodeIdsAppend(ids[..i], ids[i]);
    Assoc(EncodeIds(ids[..i]), BigEndian(|ids[i]|, 8), ids[i]);
  }

  /**
   * Hashes the sorted IDs, each behind its length. The caller's array is read and not written: the
   * sort works on a copy.
   */
  method AuthChainKey<D>(room: string, eventIds: array<string>, hash: string -> D) returns (key: D)
    ensures key == hash(KeyBytes(room, eventIds[..]))
  {
    var sorted := Sort(eventIds[..]);
    var written := room + [NUL];
    for i := 0 to |sorted|
      invariant written == room + [NUL] + EncodeIds(sorted[..i])
    {
      EncodeNext(sorted, i);
      Assoc(room + [NUL], EncodeIds(sorted[..i]), BigEndian(|sorted[i]|, 8) + sorted[i]);
      written := written + (BigEndian(|sorted[i]|, 8) + sorted[i]);
    }
    assert sorted[..|sorted|] == sorted;
    key := hash(written);
  }

  /** A Go string's length always fits the eight bytes it is written in. */
  ghost predicate LengthsFit(ids: seq<string>) {
    forall i :: 0 <= i < |ids| ==> |ids[i]| < Pow256(8)
  }

  lemma {:induction false} EncodeIdsInjective(a: seq<string>, b: seq<string>)
    requires LengthsFit(a) && LengthsFit(b)
    requires EncodeIds(a) == EncodeIds(b)
    ensures a == b
  {
    if a != [] && b != [] {
      var x, y := EncodeIds(a), EncodeIds(b);
      assert x[..8] == BigEndian(|a[0]|, 8) && y[..8] == BigEndian(|b[0]|, 8);
      BigEndianInjective(|a[0]|, |b[0]|, 8);
      var n := 8 + |a[0]|;
      assert x[8..n] == a[0] && y[8..n] == b[0];
      assert x[n..] == EncodeIds(a[1..]) && y[n..] == EncodeIds(b[1..]);
      EncodeIdsInjective(a[1..], b[1..]);
      assert a == [a[0]] + a[1..] && b == [b[0]] + b[1..];
    }
  }

  /** What stands before the first mark is determined by the whole string. */
  lemma SplitAtMark(mark: char, p: string, x: string, q: string, y: string)
    requires mark !in p && mark !in q
    requires p + [mark] + x == q + [mark] + y
    ensures p == q && x == y
  {
    var w := p + [mark] + x;
    assert w[|p|] == mark && w[|q|] == mark;
    assert forall i :: 0 <= i < |p| ==> w[i] == p[i];
    assert forall i :: 0 <= i < |q| ==> w[i] == q[i];
    assert w[..|p|] == p && w[..|q|] == q;
    assert w[|p| + 1..] == x && w[|q| + 1..] == y;
  }

  lemma SortedLengthsFit(ids: seq<string>)
    requires LengthsFit(ids)
    ensures LengthsFit(Sort(ids))
  {
    var s := Sort(ids);
    forall i | 0 <= i < |s| ensures |s[i]| < Pow256(8) {
      assert s[i] in multiset(s) && s[i] in multiset(ids);
    }
  }

  /**
   * Two questions are hashed from the same bytes exactly when they are the same question: the same
   * room, and the same event IDs in whatever order.
   */
  lemma KeyIdentifiesQuestion(r: string, a: seq<string>, s: string, b: seq<string>)
    requires NUL !in r && NUL !in s
    requires LengthsFit(a) && LengthsFit(b)
    ensures KeyBytes(r, a) == KeyBytes(s, b) <==> r == s && multiset(a) == multiset(b)
  {
    SortForgetsOrder(a, b);
    if KeyBytes(r, a) == KeyBytes(s, b) {
      SplitAtMark(NUL, r, EncodeIds(Sort(a)), s, EncodeIds(Sort(b)));
      SortedLengthsFit(a);
      SortedLengthsFit(b);
      EncodeIdsInjective(Sort(a), Sort(b));
    }
  }

  /** With a NUL in a room ID the claim fails: eight NULs and no event read like no room and one empty ID. */
  lemma NulInRoomCollides()
    ensures var nuls := seq(8, i => NUL);
            KeyBytes(nuls, []) == KeyBytes("", [""]) && nuls != ""
  {
    var nuls := seq(8, i => NUL);
    assert Sort([""]) == [""];
    assert [""][1..] == [];
    ZeroBytes(8);
    assert EncodeIds([""]) == nuls;
    assert KeyBytes(nuls, []) == nuls + [NUL];
    assert KeyBytes("", [""]) == [NUL] + nuls;
    assert nuls + [NUL] == [NUL] + nuls;
  }

  lemma {:induction false} ZeroBytes(k: nat)
    ensures BigEndian(0, k) == seq(k, i => NUL)
  {
    if k > 0 {
      ZeroBytes(k - 1);
    }
  }

  // ---------------------------------------------------------------- filtered state

  /** strings.Join with a comma. */
  function Join(parts: seq<string>): string {
    if parts == [] then ""
    else if |parts| == 1 then parts[0]
    else parts[0] + "," + Join(parts[1..])
  }

  function TypesFilter(types: seq<string>): string {
    "types:" + Join(Sort(types))
  }

  function MembersFilter(server: string): string {
    "members:" + server
  }

  ghost predicate CommaFree(parts: seq<string>) {
    forall i :: 0 <= i < |parts| ==> ',' !in parts[i]
  }

  /** The pieces between the commas of a string: one more than it has commas. */
  function Split(s: string): (pieces: seq<string>)
    ensures pieces != []
  {
    if s == [] then [""]
    else
      var rest := Split(s[1..]);
      if s[0] == ',' then [""] + rest else [[s[0]] + rest[0]] + rest[1..]
  }

  /** The pieces of all names in order; no name at all counts as one empty piece. */
  function Pieces(parts: seq<string>): (pieces: seq<string>)
    ensures pieces != []
  {
    if |parts| == 0 then [""] else if |parts| == 1 then Split(parts[0]) else Split(parts[0]) + Pieces(parts[1..])
  }

  lemma {:induction false} SplitComma(x: string, y: string)
    ensures Split(x + "," + y) == Split(x) + Split(y)
  {
    if x == [] {
      assert x + "," + y == "," + y && ("," + y)[1..] == y;
    } else {
      assert (x + "," + y)[1..] == x[1..] + "," + y;
      SplitComma(x[1..], y);
    }
  }

  lemma {:induction false} SplitJoin(parts: seq<string>)
    ensures Split(Join(parts)) == Pieces(parts)
  {
    if |parts| >= 2 {
      SplitComma(parts[0], Join(parts[1..]));
      SplitJoin(parts[1..]);
    }
  }

  lemma {:induction false} JoinSplit(s: string)
    ensures Join(Split(s)) == s
  {
    if s != [] {
      var rest := Split(s[1..]);
      JoinSplit(s[1..]);
      if s[0] == ',' {
        assert ([""] + rest)[1..] == rest;
      } else {
        var pieces := [[s[0]] + rest[0]] + rest[1..];
        assert pieces[1..] == rest[1..];
        assert s == [s[0]] + s[1..];
      }
    }
  }

  /**
   * Joining loses where the names end and keeps everything else: two lists join alike exactly if they have the same
   * pieces.
   */
  lemma JoinForgetsNames(a: seq<string>, b: seq<string>)
    ensures Join(a) == Join(b) <==> Pieces(a) == Pieces(b)
  {
    SplitJoin(a);
    SplitJoin(b);
    JoinSplit(Join(a));
    JoinSplit(Join(b));
  }

  /** Any two type lists, commas and all, share a filter string exactly if their sorted names have the same pieces. */
  lemma TypesFilterIdentifies(a: seq<string>, b: seq<string>)
    ensures TypesFilter(a) == TypesFilter(b) <==> Pieces(Sort(a)) == Pieces(Sort(b))
  {
    JoinForgetsNames(Sort(a), Sort(b));
    assert TypesFilter(a)[6..] == Join(Sort(a)) && TypesFilter(b)[6..] == Join(Sort(b));
  }

  lemma {:induction false} SplitWhole(s: string)
    requires ',' !in s
    ensures Split(s) == [s]
  {
    if s != [] {
      SplitWhole(s[1..]);
      assert s == [s[0]] + s[1..];
    }
  }

  lemma {:induction false} PiecesAreNames(parts: seq<string>)
    requires CommaFree(parts)
    ensures Pieces(parts) == if parts == [] then [""] else parts
  {
    if parts != [] {
      SplitWhole(parts[0]);
      PiecesAreNames(parts[1..]);
      assert parts == [parts[0]] + parts[1..];
    }
  }

  /** Where no name holds a comma these are the permutations, but for the two lists that join to nothing. */
  lemma CommaFreeFilter(a: seq<string>, b: seq<string>)
    requires CommaFree(a) && CommaFree(b)
    ensures TypesFilter(a) == TypesFilter(b) <==>
            multiset(a) == multiset(b) || (a == [] && b == [""]) || (a == [""] && b == [])
  {
    TypesFilterIdentifies(a, b);
    SortedCommaFree(a);
    SortedCommaFree(b);
    PiecesAreNames(Sort(a));
    PiecesAreNames(Sort(b));
    SortForgetsOrder(a, b);
    SortedSmall(a);
    SortedSmall(b);
  }

  lemma SortedSmall(s: seq<string>)
    ensures (Sort(s) == [] <==> s == []) && (Sort(s) == [""] <==> s == [""])
  {
    assert |multiset(s)| == |multiset(Sort(s))|;
    if Sort(s) == [""] {
      assert "" in multiset(s);
      assert s == [s[0]];
    }
    assert Sort([""]) == [""] by {
      assert [""][1..] == [];
    }
  }

  lemma SortedCommaFree(types: seq<string>)
    requires CommaFree(types)
    ensures CommaFree(Sort(types))
  {
    var s := Sort(types);
    forall i | 0 <= i < |s| ensures ',' !in s[i] {
      assert s[i] in multiset(s) && s[i] in multiset(types);
    }
  }

  /** A name that holds a comma is confused with the two names around it. */
  lemma CommaCollides()
    ensures TypesFilter(["a,b"]) == TypesFilter(["a", "b"])
  {
    assert ["a,b"][1..] == [] && ["a", "b"][1..] == ["b"] && ["b"][1..] == [];
    assert Sort(["b"]) == ["b"];
    assert Leq("a", "b");
  }

  /** The two kinds of filter never meet. */
  lemma FilterKindsDiffer(types: seq<string>, server: string)
    ensures TypesFilter(types) != MembersFilter(server)
  {
    assert TypesFilter(types)[0] == 't' && MembersFilter(server)[0] == 'm';
  }

  lemma MembersFilterIdentifies(a: string, b: string)
    ensures MembersFilter(a) == MembersFilter(b) <==> a == b
  {
    assert MembersFilter(a)[8..] == a && MembersFilter(b)[8..] == b;
  }
}
